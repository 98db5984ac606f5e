/** The Python sequence operations the scripts rely on: clamped slicing
    (`s[lo:hi]`, `s[lo:-1]`, `s[:n]`), `str.split` on a one-character
    separator, the matching join, and the concatenation of received chunks. */
module Sequences {

  function Min(a: int, b: int): int { if a < b then a else b }

  /** Python's `s[lo:hi]` for non-negative bounds: both bounds are clamped to
      the length, and the result is empty when `lo` is not below the clamped
      `hi`. */
  function Slice<T>(s: seq<T>, lo: nat, hi: nat): (r: seq<T>)
    ensures |r| == if lo < Min(hi, |s|) then Min(hi, |s|) - lo else 0
    ensures forall k | 0 <= k < |r| :: r[k] == s[lo + k]
  {
    var top := Min(hi, |s|);
    if lo < top then s[lo..top] else []
  }

  /** Python's `s[lo:-1]`: everything from `lo` except the last element. */
  function SliceToLast<T>(s: seq<T>, lo: nat): (r: seq<T>)
    ensures |s| > 0 ==> r == Slice(s, lo, |s| - 1)
    ensures |s| == 0 ==> r == []
  {
    Slice(s, lo, if |s| > 0 then |s| - 1 else 0)
  }

  /** A slice that lies inside the sequence is the ordinary subsequence, and
      it does not change when more elements are appended. */
  lemma SliceInside<T>(s: seq<T>, extra: seq<T>, lo: nat, hi: nat)
    requires lo <= hi <= |s|
    ensures Slice(s, lo, hi) == s[lo..hi]
    ensures Slice(s + extra, lo, hi) == s[lo..hi]
  {
    assert (s + extra)[lo..hi] == s[lo..hi];
  }

  lemma Segment<T>(a: seq<T>, b: seq<T>, c: seq<T>)
    ensures (a + b + c)[|a|..|a| + |b|] == b
  {
  }

  /** Where the middle parts of a four-part concatenation lie. */
  lemma Layout<T>(lead: seq<T>, field: seq<T>, payload: seq<T>, tail: seq<T>)
    ensures (lead + field + payload + tail)[|lead|..|lead| + |field|] == field
    ensures (lead + field + payload + tail)[|lead| + |field|..|lead| + |field| + |payload|] == payload
  {
    var all := lead + field + payload + tail;
    assert all == lead + field + (payload + tail);
    Segment(lead, field, payload + tail);
    assert all == (lead + field) + payload + tail;
    Segment(lead + field, payload, tail);
  }

  /** A slice inside a prefix is the same slice of the whole. */
  lemma SliceOfPrefix<T>(whole: seq<T>, p: seq<T>, lo: nat, hi: nat)
    requires lo <= hi <= |p| <= |whole| && whole[..|p|] == p
    ensures whole[lo..hi] == p[lo..hi]
  {
    assert whole == p + whole[|p|..];
    SliceInside(p, whole[|p|..], lo, hi);
  }

  /** Moving the head of `b` to the end of `a`. */
  lemma MoveHead<T>(a: seq<T>, b: seq<T>)
    requires |b| > 0
    ensures a + [b[0]] + b[1..] == a + b
    ensures ([b[0]] + b[1..]) == b
  {
  }

  /** A prefix of `a + b` at least as long as `a` starts with `a`. */
  lemma LongPrefix<T>(p: seq<T>, x: seq<T>, a: seq<T>, b: seq<T>)
    requires p + x == a + b && |p| >= |a|
    ensures p == a + p[|a|..]
  {
    assert p[..|a|] == (p + x)[..|a|] == (a + b)[..|a|] == a;
    assert p == p[..|a|] + p[|a|..];
  }

  /** All chunks, one after the other. */
  function Flatten<T>(chunks: seq<seq<T>>): seq<T>
  {
    if chunks == [] then [] else Flatten(chunks[..|chunks| - 1]) + chunks[|chunks| - 1]
  }

  lemma {:induction false} FlattenCons<T>(chunks: seq<seq<T>>)
    requires chunks != []
    ensures Flatten(chunks) == chunks[0] + Flatten(chunks[1..])
  {
    var n := |chunks| - 1;
    if n == 0 {
      assert chunks[1..] == [];
      assert chunks[..n] == [];
      assert Flatten(chunks) == Flatten(chunks[..0]) + chunks[0];
    } else {
      var init, tail := chunks[..n], chunks[1..];
      FlattenCons(init);
      assert init[0] == chunks[0];
      assert init[1..] == tail[..n - 1];
      assert tail[n - 1] == chunks[n];
      assert Flatten(tail) == Flatten(tail[..n - 1]) + chunks[n];
      calc {
        Flatten(chunks);
        Flatten(init) + chunks[n];
        (chunks[0] + Flatten(tail[..n - 1])) + chunks[n];
        chunks[0] + (Flatten(tail[..n - 1]) + chunks[n]);
        chunks[0] + Flatten(tail);
      }
    }
  }

  /** Flattening a prefix and the rest gives back the whole. */
  lemma {:induction false} FlattenSplit<T>(chunks: seq<seq<T>>, i: nat)
    requires i <= |chunks|
    ensures Flatten(chunks) == Flatten(chunks[..i]) + Flatten(chunks[i..])
    decreases |chunks| - i
  {
    if i == |chunks| {
      assert chunks[..i] == chunks;
      assert chunks[i..] == [];
    } else {
      FlattenSplit(chunks, i + 1);
      assert chunks[..i + 1][..i] == chunks[..i];
      FlattenCons(chunks[i..]);
      assert chunks[i..][1..] == chunks[i + 1..];
    }
  }

  /** Python's `s.split(sep)` for a one-element separator: the maximal runs
      between separators, so there is always at least one part and no part
      holds the separator. */
  function Split<T(==)>(s: seq<T>, sep: T): (parts: seq<seq<T>>)
    ensures |parts| >= 1
    decreases |s|
  {
    if s == [] then [[]]
    else
      var rest := Split(s[1..], sep);
      if s[0] == sep then [[]] + rest
      else [[s[0]] + rest[0]] + rest[1..]
  }

  /** How often `x` occurs in `s`. */
  function Count<T(==)>(s: seq<T>, x: T): nat
  {
    if s == [] then 0 else (if s[0] == x then 1 else 0) + Count(s[1..], x)
  }

  /** An element occurs nowhere exactly when its count is zero. */
  lemma {:induction false} CountZero<T>(s: seq<T>, x: T)
    ensures Count(s, x) == 0 <==> x !in s
    decreases |s|
  {
    if s != [] {
      CountZero(s[1..], x);
      assert s == [s[0]] + s[1..];
    }
  }

  /** The parts of a split: one more than there are separators, none holding
      the separator, and every element of a part taken from the input. */
  lemma {:induction false} SplitParts<T>(s: seq<T>, sep: T)
    ensures |Split(s, sep)| == Count(s, sep) + 1
    ensures forall i | 0 <= i < |Split(s, sep)| :: sep !in Split(s, sep)[i]
    ensures forall i, x | 0 <= i < |Split(s, sep)| && x in Split(s, sep)[i] :: x in s
    decreases |s|
  {
    if s != [] {
      var rest := Split(s[1..], sep);
      SplitParts(s[1..], sep);
      var parts := Split(s, sep);
      var shift := if s[0] == sep then 1 else 0;
      if s[0] == sep {
        assert parts == [[]] + rest;
      } else {
        assert parts == [[s[0]] + rest[0]] + rest[1..];
        assert forall x | x in parts[0] :: x == s[0] || x in rest[0];
      }
      forall i, x | 0 <= i < |parts| && x in parts[i]
        ensures x in s && x != sep
      {
        if i == 0 && s[0] != sep && x == s[0] {
        } else {
          var j := if i == 0 then 0 else i - shift;
          assert x in rest[j];
          assert x in s[1..];
        }
      }
    }
  }

  /** `sep.join(parts)`. */
  function Join<T>(parts: seq<seq<T>>, sep: T): seq<T>
  {
    if |parts| == 0 then []
    else if |parts| == 1 then parts[0]
    else parts[0] + [sep] + Join(parts[1..], sep)
  }

  /** Joining the parts of a split gives back the input. */
  lemma {:induction false} JoinSplit<T>(s: seq<T>, sep: T)
    ensures Join(Split(s, sep), sep) == s
    decreases |s|
  {
    if s != [] {
      var rest := Split(s[1..], sep);
      JoinSplit(s[1..], sep);
      if s[0] == sep {
        assert Split(s, sep) == [[]] + rest;
        assert ([[]] + rest)[1..] == rest;
      } else {
        var parts := [[s[0]] + rest[0]] + rest[1..];
        if |rest| == 1 {
          assert Join(rest, sep) == rest[0];
        } else {
          assert Join(rest, sep) == rest[0] + [sep] + Join(rest[1..], sep);
          assert parts[1..] == rest[1..];
        }
      }
    }
  }

  /** Splitting a separator-free prefix followed by anything. */
  lemma {:induction false} SplitFreePrefix<T>(p: seq<T>, t: seq<T>, sep: T)
    requires sep !in p
    ensures Split(p + t, sep) == [p + Split(t, sep)[0]] + Split(t, sep)[1..]
    decreases |p|
  {
    if p != [] {
      SplitFreePrefix(p[1..], t, sep);
      var st := Split(t, sep);
      var rest := Split(p[1..] + t, sep);
      assert (p + t)[1..] == p[1..] + t;
      assert (p + t)[0] == p[0] && p[0] != sep;
      assert Split(p + t, sep) == [[p[0]] + rest[0]] + rest[1..];
      assert rest[0] == p[1..] + st[0] && rest[1..] == st[1..];
      assert [p[0]] + (p[1..] + st[0]) == p + st[0];
    } else {
      assert p + t == t;
      assert p + Split(t, sep)[0] == Split(t, sep)[0];
      assert Split(t, sep) == [Split(t, sep)[0]] + Split(t, sep)[1..];
    }
  }

  /** Splitting joined separator-free parts gives back the parts. */
  lemma {:induction false} SplitJoin<T>(parts: seq<seq<T>>, sep: T)
    requires |parts| >= 1
    requires forall i | 0 <= i < |parts| :: sep !in parts[i]
    ensures Split(Join(parts, sep), sep) == parts
    decreases |parts|
  {
    if |parts| == 1 {
      SplitFreePrefix(parts[0], [], sep);
      assert parts[0] + [] == parts[0];
    } else {
      var tail := Join(parts[1..], sep);
      SplitJoin(parts[1..], sep);
      assert Join(parts, sep) == parts[0] + ([sep] + tail);
      SplitFreePrefix(parts[0], [sep] + tail, sep);
      assert ([sep] + tail)[1..] == tail;
      assert Split([sep] + tail, sep) == [[]] + parts[1..];
      assert parts[0] + [] == parts[0];
      assert parts == [parts[0]] + parts[1..];
    }
  }

  /** Joining two or more separator-free parts puts a separator in the
      text, and splitting it gives back the first two parts in place. */
  lemma SplitJoinHeads<T>(a: seq<T>, b: seq<T>, rest: seq<seq<T>>, sep: T)
    requires sep !in a && sep !in b
    requires forall i | 0 <= i < |rest| :: sep !in rest[i]
    ensures sep in Join([a, b] + rest, sep)
    ensures |Split(Join([a, b] + rest, sep), sep)| >= 2
    ensures Split(Join([a, b] + rest, sep), sep)[0] == a
    ensures Split(Join([a, b] + rest, sep), sep)[1] == b
  {
    var parts := [a, b] + rest;
    assert parts[1..] == [b] + rest;
    assert Join(parts, sep) == a + [sep] + Join(parts[1..], sep);
    assert Join(parts, sep)[|a|] == sep;
    forall i | 0 <= i < |parts|
      ensures sep !in parts[i]
    {
      if i >= 2 {
        assert parts[i] == rest[i - 2];
      }
    }
    SplitJoin(parts, sep);
  }

  /** Joining one more part on the right. */
  lemma {:induction false} JoinSnoc<T>(parts: seq<seq<T>>, last: seq<T>, sep: T)
    requires |parts| >= 1
    ensures Join(parts + [last], sep) == Join(parts, sep) + [sep] + last
    decreases |parts|
  {
    if |parts| == 1 {
      assert (parts + [last])[1..] == [last];
    } else {
      JoinSnoc(parts[1..], last, sep);
      assert (parts + [last])[1..] == parts[1..] + [last];
    }
  }
}
