/** The definite-length arbitrary block of section 8.7.9 of IEEE 488.2, as
    Rigol_functions.py decodes it: the marker `#`, one ASCII digit D, D ASCII
    digits giving the payload length, the payload, and the `\n` that ends the
    reply. The three decoders are Python one-liners over `int()` and clamped
    slices; they raise (here: return `None`) when `int()` does. */
module BlockHeader {
  import opened Wrappers
  import opened Sequences
  import opened Bytes

  /** tmc_header_bytes: the number of header bytes, 2 plus the digit at
      offset 1. The marker at offset 0 is not looked at. */
  function TmcHeaderBytes(buff: seq<byte>): (r: Option<nat>)
    ensures r.Some? <==> |buff| >= 2 && IsDigit(buff[1])
    ensures r.Some? ==> r.value == 2 + DigitValue(buff[1]) && 2 <= r.value <= 11
  {
    var field := Slice(buff, 1, 2);
    assert |buff| >= 2 ==> field == [buff[1]];
    match ParseInt(field)
    case None => None
    case Some(d) => Some(2 + d)
  }

  /** expected_data_bytes: the declared payload length, the decimal value of
      the bytes from offset 2 up to the header length. A buffer that ends
      inside the length field is read as far as it goes; D = 0 leaves the
      field empty and `int()` fails on it. */
  function ExpectedDataBytes(buff: seq<byte>): (r: Option<nat>)
    ensures r.Some? <==>
      TmcHeaderBytes(buff).Some? && |Slice(buff, 2, TmcHeaderBytes(buff).value)| > 0
      && AllDigits(Slice(buff, 2, TmcHeaderBytes(buff).value))
    ensures r.Some? ==>
      r.value == DecimalValue(Slice(buff, 2, TmcHeaderBytes(buff).value))
      && r.value < Pow10(TmcHeaderBytes(buff).value - 2)
  {
    if TmcHeaderBytes(buff).None? then None
    else
      var h := TmcHeaderBytes(buff).value;
      var field := Slice(buff, 2, h);
      Pow10Monotone(|field|, h - 2);
      ParseInt(field)
  }

  /** expected_buff_bytes: the size of the whole reply, header, payload and the
      trailing `\n`. */
  function ExpectedBuffBytes(buff: seq<byte>): (r: Option<nat>)
    ensures r.Some? <==> ExpectedDataBytes(buff).Some?
  {
    match ExpectedDataBytes(buff)
    case None => None
    case Some(d) => Some(TmcHeaderBytes(buff).value + d + 1)
  }

  /** The header is complete: the digit count is readable and the buffer holds
      all the length digits it announces. */
  predicate HeaderComplete(buff: seq<byte>)
  {
    TmcHeaderBytes(buff).Some? && |buff| >= TmcHeaderBytes(buff).value
  }

  /** The whole block has arrived, or waiting longer cannot help: the header is
      complete and either it does not decode or the buffer holds the total it
      declares; or the digit-count byte is there and is not a digit. */
  predicate BlockReceived(buff: seq<byte>)
  {
    if |buff| < 2 then false
    else if TmcHeaderBytes(buff).None? then true
    else if |buff| < TmcHeaderBytes(buff).value then false
    else match ExpectedBuffBytes(buff)
      case None => true
      case Some(total) => |buff| >= total
  }

  /** The block an instrument sends for `payload` with a D-digit length field. */
  function EncodeBlock(d: nat, payload: seq<byte>): (block: seq<byte>)
    requires 1 <= d <= 9 && |payload| < Pow10(d)
    ensures |block| == d + |payload| + 3
  {
    [Hash, DigitByte(d)] + ZeroPadded(|payload|, d) + payload + [LF]
  }

  /** Where the parts of an encoded block lie. */
  lemma EncodedLayout(d: nat, payload: seq<byte>, rest: seq<byte>)
    requires 1 <= d <= 9 && |payload| < Pow10(d)
    ensures (EncodeBlock(d, payload) + rest)[1] == DigitByte(d)
    ensures (EncodeBlock(d, payload) + rest)[2..d + 2] == ZeroPadded(|payload|, d)
    ensures (EncodeBlock(d, payload) + rest)[d + 2..d + 2 + |payload|] == payload
  {
    var lead: seq<byte> := [Hash, DigitByte(d)];
    var field := ZeroPadded(|payload|, d);
    var tail := [LF] + rest;
    assert EncodeBlock(d, payload) + rest == lead + field + payload + tail;
    Layout(lead, field, payload, tail);
  }

  /** The declared reply size from the header and payload lengths. */
  lemma BuffBytesFromParts(buff: seq<byte>)
    requires ExpectedDataBytes(buff).Some?
    ensures ExpectedBuffBytes(buff) ==
      Some(TmcHeaderBytes(buff).value + ExpectedDataBytes(buff).value + 1)
  {
  }

  lemma HeaderOfDigit(buff: seq<byte>, d: nat)
    requires d < 10 && |buff| >= 2 && buff[1] == DigitByte(d)
    ensures TmcHeaderBytes(buff) == Some(d + 2)
  {
  }

  lemma DataOfField(buff: seq<byte>, h: nat)
    requires TmcHeaderBytes(buff) == Some(h) && |buff| >= h > 2 && AllDigits(buff[2..h])
    ensures ExpectedDataBytes(buff) == Some(DecimalValue(buff[2..h]))
  {
    SliceInside(buff, [], 2, h);
  }

  /** A buffer laid out as a block with a D-digit field declaring the length
      of `payload`, which follows it, decodes to header length D + 2, that
      length, the matching total, and the payload. */
  lemma DecodeLaidOut(buff: seq<byte>, d: nat, payload: seq<byte>)
    requires 1 <= d <= 9 && |buff| >= d + 2 + |payload| && buff[1] == DigitByte(d)
    requires AllDigits(buff[2..d + 2]) && DecimalValue(buff[2..d + 2]) == |payload|
    requires buff[d + 2..d + 2 + |payload|] == payload
    ensures TmcHeaderBytes(buff) == Some(d + 2)
    ensures ExpectedDataBytes(buff) == Some(|payload|)
    ensures ExpectedBuffBytes(buff) == Some(d + 3 + |payload|)
    ensures Slice(buff, d + 2, d + 2 + |payload|) == payload
  {
    HeaderOfDigit(buff, d);
    DataOfField(buff, d + 2);
    BuffBytesFromParts(buff);
    SliceInside(buff, [], d + 2, d + 2 + |payload|);
  }

  /** Decoding an encoded block, whatever follows it, gives back the header
      length D + 2, the payload length, a total equal to the block's size, and
      the payload at the declared place. */
  lemma DecodeEncodedBlock(d: nat, payload: seq<byte>, rest: seq<byte>)
    requires 1 <= d <= 9 && |payload| < Pow10(d)
    ensures TmcHeaderBytes(EncodeBlock(d, payload) + rest) == Some(d + 2)
    ensures ExpectedDataBytes(EncodeBlock(d, payload) + rest) == Some(|payload|)
    ensures ExpectedBuffBytes(EncodeBlock(d, payload) + rest) == Some(|EncodeBlock(d, payload)|)
    ensures Slice(EncodeBlock(d, payload) + rest, d + 2, d + 2 + |payload|) == payload
  {
    EncodedLayout(d, payload, rest);
    ZeroPaddedValue(|payload|, d);
    DecodeLaidOut(EncodeBlock(d, payload) + rest, d, payload);
  }

  /** The size `expected_buff_bytes` declares for an encoded block ends
      exactly at the block's closing `\n`, whatever follows it. */
  lemma DeclaredTotalEndsAtNewline(d: nat, payload: seq<byte>, rest: seq<byte>)
    requires 1 <= d <= 9 && |payload| < Pow10(d)
    ensures ExpectedBuffBytes(EncodeBlock(d, payload) + rest) == Some(|EncodeBlock(d, payload)|)
    ensures (EncodeBlock(d, payload) + rest)[|EncodeBlock(d, payload)| - 1] == LF
  {
    var block := EncodeBlock(d, payload);
    DecodeEncodedBlock(d, payload, rest);
    assert block[|block| - 1] == LF;
    assert (block + rest)[|block| - 1] == block[|block| - 1];
  }

  /** The converse: a complete, decodable header is exactly what EncodeBlock
      writes for its own digit count and declared length (leading zeros
      included), whatever its marker byte. */
  lemma HeaderReencodes(buff: seq<byte>)
    requires HeaderComplete(buff) && ExpectedDataBytes(buff).Some?
    ensures buff[1..TmcHeaderBytes(buff).value] ==
      [DigitByte(TmcHeaderBytes(buff).value - 2)]
      + ZeroPadded(ExpectedDataBytes(buff).value, TmcHeaderBytes(buff).value - 2)
  {
    var h := TmcHeaderBytes(buff).value;
    SliceInside(buff, [], 2, h);
    ZeroPaddedOfDigits(buff[2..h]);
    assert buff[1..h] == [buff[1]] + buff[2..h];
  }

  /** Decoding reads nothing past the header: once the header is complete,
      appending bytes changes none of the three results. */
  lemma AppendKeepsHeader(buff: seq<byte>, extra: seq<byte>)
    requires HeaderComplete(buff)
    ensures TmcHeaderBytes(buff + extra) == TmcHeaderBytes(buff)
    ensures ExpectedDataBytes(buff + extra) == ExpectedDataBytes(buff)
    ensures ExpectedBuffBytes(buff + extra) == ExpectedBuffBytes(buff)
  {
    var h := TmcHeaderBytes(buff).value;
    assert (buff + extra)[1] == buff[1];
    SliceInside(buff, extra, 2, h);
    SliceInside(buff, [], 2, h);
  }

  /** Two buffers that agree on a complete header decode alike. */
  lemma SameHeader(a: seq<byte>, b: seq<byte>, n: nat)
    requires n <= |a| && n <= |b| && a[..n] == b[..n] && HeaderComplete(a[..n])
    ensures TmcHeaderBytes(a) == TmcHeaderBytes(b)
    ensures ExpectedDataBytes(a) == ExpectedDataBytes(b)
    ensures ExpectedBuffBytes(a) == ExpectedBuffBytes(b)
  {
    assert a == a[..n] + a[n..];
    assert b == b[..n] + b[n..];
    AppendKeepsHeader(a[..n], a[n..]);
    AppendKeepsHeader(a[..n], b[n..]);
  }

  /** A buffer that agrees with another on that other's complete header
      decodes alike. */
  lemma PrefixWithHeader(p: seq<byte>, whole: seq<byte>)
    requires HeaderComplete(whole)
    requires |p| >= TmcHeaderBytes(whole).value
    requires p[..TmcHeaderBytes(whole).value] == whole[..TmcHeaderBytes(whole).value]
    ensures TmcHeaderBytes(p) == TmcHeaderBytes(whole)
    ensures ExpectedDataBytes(p) == ExpectedDataBytes(whole)
    ensures ExpectedBuffBytes(p) == ExpectedBuffBytes(whole)
  {
    var h := TmcHeaderBytes(whole).value;
    assert whole[..h][1] == whole[1];
    SameHeader(whole, p, h);
  }

  /** The marker byte is never inspected. */
  lemma MarkerNotInspected(buff: seq<byte>, marker: byte)
    requires |buff| >= 1
    ensures TmcHeaderBytes(buff[0 := marker]) == TmcHeaderBytes(buff)
    ensures ExpectedDataBytes(buff[0 := marker]) == ExpectedDataBytes(buff)
    ensures ExpectedBuffBytes(buff[0 := marker]) == ExpectedBuffBytes(buff)
  {
    var other := buff[0 := marker];
    if TmcHeaderBytes(buff).Some? {
      var h := TmcHeaderBytes(buff).value;
      assert Slice(other, 2, h) == Slice(buff, 2, h);
    }
  }
}
