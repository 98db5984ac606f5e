/** The telnet session, reduced to what the capture loops see of it: each
    `read_until(b"\n", TELNET_TIMEOUT_SECONDS)` call returns the next chunk the
    instrument delivers, or nothing once the idle timeout passes with no data.
    Both capture loops keep reading until a condition holds or a read comes
    back empty; `ReadsTaken` and `Gathered` say how far such a loop gets. */
module Transport {
  import opened Sequences
  import opened Bytes
  import opened BlockHeader

  /** What one `read_until(b"\n")` can return: the bytes up to and including
      the first newline, or whatever arrived before the timeout. A newline, if
      there is one, is the last byte. */
  predicate LineShaped(chunk: seq<byte>)
  {
    forall i | 0 <= i < |chunk| - 1 :: chunk[i] != LF
  }

  /** The follow-up reads of one session, in the order the instrument answers
      them. Once `pending` is used up every read times out empty. */
  class Session {
    var pending: seq<seq<byte>>

    constructor (replies: seq<seq<byte>>)
      ensures pending == replies
    {
      pending := replies;
    }

    /** `telnet.read_until(b"\n", TELNET_TIMEOUT_SECONDS)`. */
    method ReadUntilNewline() returns (chunk: seq<byte>)
      modifies this
      ensures old(pending) == [] ==> chunk == [] && pending == []
      ensures old(pending) != [] ==> chunk == old(pending)[0] && pending == old(pending)[1..]
    {
      if pending == [] {
        chunk := [];
      } else {
        chunk := pending[0];
        pending := pending[1..];
      }
    }
  }

  /** When a follow-up read loop is satisfied. */
  datatype Until =
    | AtLeast(total: int)  // capture_screenshot: the buffer has the expected size
    | LineEnd              // capture_csv_data: the buffer ends with a newline
    | WholeBlock           // the corrected screenshot loop: see BlockReceived

  predicate Done(rule: Until, buff: seq<byte>)
  {
    match rule
    case AtLeast(total) => |buff| >= total
    case LineEnd => |buff| > 0 && buff[|buff| - 1] == LF
    case WholeBlock => BlockReceived(buff)
  }

  /** How many of `chunks` a loop driven by `rule` consumes, starting from
      `buff`: none once the rule holds; none when the session has nothing left
      (that read times out empty); and it stops right after an empty read. */
  function ReadsTaken(buff: seq<byte>, chunks: seq<seq<byte>>, rule: Until): (n: nat)
    ensures n <= |chunks|
    decreases |chunks|
  {
    if Done(rule, buff) || chunks == [] then 0
    else if chunks[0] == [] then 1
    else 1 + ReadsTaken(buff + chunks[0], chunks[1..], rule)
  }

  /** The buffer such a loop ends with. */
  function Gathered(buff: seq<byte>, chunks: seq<seq<byte>>, rule: Until): seq<byte>
  {
    buff + Flatten(chunks[..ReadsTaken(buff, chunks, rule)])
  }

  /** `n` reads is where a loop driven by `rule` stops: each of them was made
      while the rule was unmet, each but the last brought bytes, and after them
      the rule holds, the session is used up, or the last read was empty. */
  predicate StopsAfter(buff: seq<byte>, chunks: seq<seq<byte>>, rule: Until, n: nat)
  {
    && n <= |chunks|
    && (forall i | 0 <= i < n :: !Done(rule, buff + Flatten(chunks[..i])))
    && (forall i | 0 <= i && i + 1 < n :: chunks[i] != [])
    && (Done(rule, buff + Flatten(chunks[..n])) || n == |chunks| || (n > 0 && chunks[n - 1] == []))
  }

  lemma FlattenShift(chunks: seq<seq<byte>>, i: nat)
    requires 1 <= i <= |chunks|
    ensures Flatten(chunks[..i]) == chunks[0] + Flatten(chunks[1..][..i - 1])
  {
    FlattenCons(chunks[..i]);
    assert chunks[..i][1..] == chunks[1..][..i - 1];
  }

  /** One step of a loop that is not done and reads a non-empty chunk. */
  lemma TakenStep(buff: seq<byte>, chunks: seq<seq<byte>>, rule: Until)
    requires !Done(rule, buff) && chunks != [] && chunks[0] != []
    ensures ReadsTaken(buff, chunks, rule) == 1 + ReadsTaken(buff + chunks[0], chunks[1..], rule)
  {
  }
  lemma GatheredStep(buff: seq<byte>, chunks: seq<seq<byte>>, rule: Until)
    requires !Done(rule, buff) && chunks != [] && chunks[0] != []
    ensures Gathered(buff, chunks, rule) == Gathered(buff + chunks[0], chunks[1..], rule)
  {
    var next, rest := buff + chunks[0], chunks[1..];
    var n := ReadsTaken(buff, chunks, rule);
    TakenStep(buff, chunks, rule);
    FlattenShift(chunks, n);
    assert buff + Flatten(chunks[..n]) == next + Flatten(rest[..n - 1]);
  }
  /** A loop that is satisfied, or whose session is used up, gathers nothing
      more. */
  lemma GatheredWhenDone(buff: seq<byte>, chunks: seq<seq<byte>>, rule: Until)
    requires Done(rule, buff) || chunks == []
    ensures ReadsTaken(buff, chunks, rule) == 0 && Gathered(buff, chunks, rule) == buff
  {
    assert chunks[..0] == [];
  }

  /** A loop whose next read comes back empty takes that read and gathers
      nothing more. */
  lemma GatheredAtEmptyRead(buff: seq<byte>, chunks: seq<seq<byte>>, rule: Until)
    requires !Done(rule, buff) && chunks != [] && chunks[0] == []
    ensures ReadsTaken(buff, chunks, rule) == 1 && Gathered(buff, chunks, rule) == buff
  {
    assert chunks[..1] == [[]];
    assert chunks[..1][..0] == [];
    assert Flatten(chunks[..1]) == [];
  }

  /** Two rules that agree on every extension of the buffer stop a loop at
      the same place. */
  lemma {:induction false} RulesAgree(buff: seq<byte>, chunks: seq<seq<byte>>, r1: Until, r2: Until)
    requires forall extra: seq<byte> :: Done(r1, buff + extra) == Done(r2, buff + extra)
    ensures ReadsTaken(buff, chunks, r1) == ReadsTaken(buff, chunks, r2)
    decreases |chunks|
  {
    assert buff + [] == buff;
    if !Done(r1, buff) && chunks != [] && chunks[0] != [] {
      var next := buff + chunks[0];
      forall extra: seq<byte>
        ensures Done(r1, next + extra) == Done(r2, next + extra)
      {
        assert next + extra == buff + (chunks[0] + extra);
      }
      RulesAgree(next, chunks[1..], r1, r2);
    }
  }

  /** A loop that reads nothing stops after no reads. */
  lemma StopsAtOnce(buff: seq<byte>, chunks: seq<seq<byte>>, rule: Until)
    requires Done(rule, buff) || chunks == []
    ensures StopsAfter(buff, chunks, rule, 0)
  {
    assert chunks[..0] == [];
    assert buff + Flatten(chunks[..0]) == buff;
  }

  /** A loop whose first read comes back empty stops after it. */
  lemma StopsAtEmptyRead(buff: seq<byte>, chunks: seq<seq<byte>>, rule: Until)
    requires !Done(rule, buff) && chunks != [] && chunks[0] == []
    ensures StopsAfter(buff, chunks, rule, 1)
  {
    assert chunks[..0] == [];
    assert buff + Flatten(chunks[..0]) == buff;
  }

  /** A read that brings bytes adds one read in front of where the rest of the
      loop stops. */
  lemma StopsAfterStep(buff: seq<byte>, chunks: seq<seq<byte>>, rule: Until, m: nat)
    requires !Done(rule, buff) && chunks != [] && chunks[0] != []
    requires StopsAfter(buff + chunks[0], chunks[1..], rule, m)
    ensures StopsAfter(buff, chunks, rule, m + 1)
  {
    var next, rest := buff + chunks[0], chunks[1..];
    forall i | 0 <= i < m + 1
      ensures !Done(rule, buff + Flatten(chunks[..i]))
    {
      if i == 0 {
        assert chunks[..0] == [];
        assert buff + Flatten(chunks[..0]) == buff;
      } else {
        FlattenShift(chunks, i);
        assert buff + Flatten(chunks[..i]) == next + Flatten(rest[..i - 1]);
      }
    }
    forall i | 0 <= i && i + 1 < m + 1
      ensures chunks[i] != []
    {
      if i > 0 {
        assert chunks[i] == rest[i - 1];
      }
    }
    FlattenShift(chunks, m + 1);
    assert buff + Flatten(chunks[..m + 1]) == next + Flatten(rest[..m]);
  }

  /** ReadsTaken is where the loop stops ... */
  lemma {:induction false} ReadsTakenStops(buff: seq<byte>, chunks: seq<seq<byte>>, rule: Until)
    ensures StopsAfter(buff, chunks, rule, ReadsTaken(buff, chunks, rule))
    decreases |chunks|
  {
    if Done(rule, buff) || chunks == [] {
      StopsAtOnce(buff, chunks, rule);
    } else if chunks[0] == [] {
      StopsAtEmptyRead(buff, chunks, rule);
    } else {
      ReadsTakenStops(buff + chunks[0], chunks[1..], rule);
      TakenStep(buff, chunks, rule);
      StopsAfterStep(buff, chunks, rule, ReadsTaken(buff + chunks[0], chunks[1..], rule));
    }
  }

  /** ... and the only place it can stop. */
  lemma StopsAfterUnique(buff: seq<byte>, chunks: seq<seq<byte>>, rule: Until, n: nat)
    requires StopsAfter(buff, chunks, rule, n)
    ensures n == ReadsTaken(buff, chunks, rule)
  {
    var m := ReadsTaken(buff, chunks, rule);
    ReadsTakenStops(buff, chunks, rule);
  }

  /** When no read comes back empty, the loop either gets what it waits for or
      takes everything the session delivers. */
  lemma GatheredWithoutTimeouts(buff: seq<byte>, chunks: seq<seq<byte>>, rule: Until)
    requires forall i | 0 <= i < |chunks| :: chunks[i] != []
    ensures Done(rule, Gathered(buff, chunks, rule)) || ReadsTaken(buff, chunks, rule) == |chunks|
  {
    ReadsTakenStops(buff, chunks, rule);
  }

  /** The buffer a loop ends with is the start of everything delivered. */
  lemma GatheredPrefix(buff: seq<byte>, chunks: seq<seq<byte>>, rule: Until)
    ensures buff + Flatten(chunks) == Gathered(buff, chunks, rule) + Flatten(chunks[ReadsTaken(buff, chunks, rule)..])
  {
    FlattenSplit(chunks, ReadsTaken(buff, chunks, rule));
  }

  /** Waiting for a newline keeps every newline at the end: from read_until
      replies, the loop of capture_csv_data builds a buffer with no newline
      before its last byte. */
  lemma {:induction false} GatheredLineShaped(buff: seq<byte>, chunks: seq<seq<byte>>)
    requires LineShaped(buff)
    requires forall i | 0 <= i < |chunks| :: LineShaped(chunks[i])
    ensures LineShaped(Gathered(buff, chunks, LineEnd))
    decreases |chunks|
  {
    if Done(LineEnd, buff) || chunks == [] || chunks[0] == [] {
      assert chunks[..0] == [];
      if ReadsTaken(buff, chunks, LineEnd) == 1 {
        assert chunks[..1] == [chunks[0]] && chunks[0] == [];
        assert Flatten(chunks[..1]) == Flatten([]) + [];
      }
      assert Gathered(buff, chunks, LineEnd) == buff;
    } else {
      var next := buff + chunks[0];
      forall i | 0 <= i < |next| - 1
        ensures next[i] != LF
      {
        if i >= |buff| {
          assert next[i] == chunks[0][i - |buff|];
        }
      }
      GatheredStep(buff, chunks, LineEnd);
      GatheredLineShaped(next, chunks[1..]);
    }
  }
}
