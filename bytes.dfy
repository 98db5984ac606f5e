/** Bytes as the scripts receive them from the instrument, ASCII decimal digits,
    Python's `int()` applied to a byte string of digits, and the zero-padded
    decimal field the instrument writes into a block header. */
module Bytes {
  import opened Wrappers

  newtype byte = b: int | 0 <= b < 256

  /** The newline that ends every reply. */
  const LF: byte := 10

  /** The marker byte `#` that opens a definite-length block. */
  const Hash: byte := 35

  predicate IsDigit(b: byte) { 48 <= b <= 57 }

  function DigitValue(b: byte): nat
    requires IsDigit(b)
  {
    b as int - 48
  }

  function DigitByte(d: nat): (b: byte)
    requires d < 10
    ensures IsDigit(b) && DigitValue(b) == d
  {
    (48 + d) as byte
  }

  predicate AllDigits(s: seq<byte>)
  {
    forall i | 0 <= i < |s| :: IsDigit(s[i])
  }

  function Pow10(n: nat): (p: nat)
    ensures p >= 1
  {
    if n == 0 then 1 else 10 * Pow10(n - 1)
  }

  lemma {:induction false} Pow10Monotone(m: nat, n: nat)
    requires m <= n
    ensures Pow10(m) <= Pow10(n)
    decreases n
  {
    if m < n {
      Pow10Monotone(m, n - 1);
    }
  }

  /** The number an all-digit byte string spells in decimal, most significant
      digit first; leading zeros are allowed. */
  function DecimalValue(s: seq<byte>): (v: nat)
    requires AllDigits(s)
    ensures v < Pow10(|s|)
  {
    if s == [] then 0 else DecimalValue(s[..|s| - 1]) * 10 + DigitValue(s[|s| - 1])
  }

  /** Python's `int()` on a byte string, for the strings the instrument sends:
      a non-empty run of ASCII digits. Anything else (in particular the empty
      string) makes `int()` raise, which is `None` here. */
  function ParseInt(s: seq<byte>): (r: Option<nat>)
    ensures r.Some? <==> |s| > 0 && AllDigits(s)
    ensures r.Some? ==> r.value < Pow10(|s|)
  {
    if |s| > 0 && AllDigits(s) then Some(DecimalValue(s)) else None
  }

  /** `n` written with exactly `width` decimal digits, padded with leading
      zeros (only the low `width` digits are kept). */
  function ZeroPadded(n: nat, width: nat): (r: seq<byte>)
    ensures |r| == width && AllDigits(r)
  {
    if width == 0 then [] else ZeroPadded(n / 10, width - 1) + [DigitByte(n % 10)]
  }

  /** Writing a number that fits and reading it back gives the number. */
  lemma {:induction false} ZeroPaddedValue(n: nat, width: nat)
    requires n < Pow10(width)
    ensures DecimalValue(ZeroPadded(n, width)) == n
  {
    if width > 0 {
      var s := ZeroPadded(n, width);
      ZeroPaddedValue(n / 10, width - 1);
      assert s[..width - 1] == ZeroPadded(n / 10, width - 1);
      assert s[width - 1] == DigitByte(n % 10);
    }
  }

  /** Zero written with any width is all `0` digits. */
  lemma {:induction false} ZeroPaddedZero(width: nat)
    ensures forall i | 0 <= i < width :: ZeroPadded(0, width)[i] == 48
  {
    if width > 0 {
      ZeroPaddedZero(width - 1);
    }
  }

  /** Reading a digit string and writing the value back with the same width
      gives the digit string, leading zeros included. */
  lemma {:induction false} ZeroPaddedOfDigits(s: seq<byte>)
    requires AllDigits(s)
    ensures ZeroPadded(DecimalValue(s), |s|) == s
  {
    if s != [] {
      var init, last := s[..|s| - 1], s[|s| - 1];
      ZeroPaddedOfDigits(init);
      var v := DecimalValue(s);
      assert v == DecimalValue(init) * 10 + DigitValue(last);
      assert v / 10 == DecimalValue(init) && v % 10 == DigitValue(last);
      assert DigitByte(v % 10) == last;
      assert s == init + [last];
    }
  }

  /** Bytes read as text, one character per byte with the same code (what
      Python 2's `str` is, and what decoding gives on ASCII). */
  function Text(bytes: seq<byte>): (s: string)
    ensures |s| == |bytes|
    ensures forall i | 0 <= i < |bytes| :: s[i] as int == bytes[i] as int
  {
    seq(|bytes|, i requires 0 <= i < |bytes| => bytes[i] as int as char)
  }
}
