/** capture_screenshot (OscScreenGrabLAN.py:200-238): the reply to
    `:DISP:DATA? ON,OFF,PNG` is a definite-length block holding a PNG image.
    The first reply fixes the expected size; follow-up reads are appended
    until the buffer is that long or a read comes back empty; a short buffer
    aborts, otherwise the payload is cut out of the buffer and written. */
module ScreenCapture {
  import opened Wrappers
  import opened Sequences
  import opened Bytes
  import opened BlockHeader
  import opened Transport

  datatype CaptureError =
    | MalformedHeader                                  // int() raises while decoding the header
    | TransferIncomplete(received: nat, expected: nat)  // sys.exit("ERROR") after the read loop

  /** The payload a complete buffer holds: decode the header again and take
      the declared number of bytes after it. */
  function SavedPayload(buff: seq<byte>): (r: Result<seq<byte>, CaptureError>)
    ensures r.Ok? <==> ExpectedDataBytes(buff).Some?
    ensures r.Ok? ==>
      var h, d := TmcHeaderBytes(buff).value, ExpectedDataBytes(buff).value;
      |r.value| <= d && (|buff| >= h + d ==> r.value == buff[h..h + d])
  {
    match ExpectedDataBytes(buff)
    case None => Err(MalformedHeader)
    case Some(d) =>
      var h := TmcHeaderBytes(buff).value;
      Ok(Slice(buff, h, h + d))
  }

  /** What capture_screenshot writes, or why it stops, given the first reply
      and the follow-up reads, as the code is written: the target size is
      decoded once from the first reply. */
  function CaptureOutcome(first: seq<byte>, chunks: seq<seq<byte>>): Result<seq<byte>, CaptureError>
  {
    match ExpectedBuffBytes(first)
    case None => Err(MalformedHeader)
    case Some(expected) =>
      var buff := Gathered(first, chunks, AtLeast(expected));
      if |buff| < expected then Err(TransferIncomplete(|buff|, expected))
      else SavedPayload(buff)
  }

  /** The corrected transfer: keep reading until the buffer holds the whole
      block its own (possibly grown) header declares, then decide. */
  function WholeBlockOutcome(first: seq<byte>, chunks: seq<seq<byte>>): Result<seq<byte>, CaptureError>
  {
    var buff := Gathered(first, chunks, WholeBlock);
    match ExpectedBuffBytes(buff)
    case None => Err(MalformedHeader)
    case Some(expected) =>
      if |buff| < expected then Err(TransferIncomplete(|buff|, expected))
      else SavedPayload(buff)
  }

  /** The local `buff` of capture_screenshot, with the loop that grows it. */
  class ScreenTransfer {
    var buff: seq<byte>

    constructor ()
      ensures buff == []
    {
      buff := [];
    }

    /** The follow-up read loop: append `read_until` replies while `rule`
        does not hold, and stop at the first empty read. */
    method ReadRemaining(session: Session, rule: Until)
      modifies this, session
      ensures buff == Gathered(old(buff), old(session.pending), rule)
      ensures session.pending == old(session.pending)[ReadsTaken(old(buff), old(session.pending), rule)..]
    {
      ghost var start, chunks := buff, session.pending;
      ghost var k := 0;
      while !Done(rule, buff)
        invariant 0 <= k <= |chunks| && session.pending == chunks[k..]
        invariant Gathered(buff, session.pending, rule) == Gathered(start, chunks, rule)
        invariant k + ReadsTaken(buff, session.pending, rule) == ReadsTaken(start, chunks, rule)
        decreases |session.pending|
      {
        ghost var before := session.pending;
        var tmp := session.ReadUntilNewline();
        if |tmp| == 0 {
          if before == [] {
            GatheredWhenDone(buff, before, rule);
          } else {
            GatheredAtEmptyRead(buff, before, rule);
            k := k + 1;
          }
          break;
        }
        GatheredStep(buff, before, rule);
        TakenStep(buff, before, rule);
        buff := buff + tmp;
        k := k + 1;
      }
      if Done(rule, buff) {
        GatheredWhenDone(buff, session.pending, rule);
      }
    }

    /** capture_screenshot, on the first reply and the session's follow-up
        reads. On success `buff` holds the bytes written to the file. */
    method Capture(session: Session, first: seq<byte>) returns (r: Result<seq<byte>, CaptureError>)
      modifies this, session
      ensures r == CaptureOutcome(first, old(session.pending))
      ensures r.Ok? ==> buff == r.value
      ensures ExpectedBuffBytes(first).None? ==> session.pending == old(session.pending)
      ensures ExpectedBuffBytes(first).Some? ==>
        session.pending == old(session.pending)[ReadsTaken(first, old(session.pending), AtLeast(ExpectedBuffBytes(first).value))..]
    {
      buff := first;
      var total := ExpectedBuffBytes(buff);
      if total.None? {
        return Err(MalformedHeader);
      }
      var expected := total.value;
      ReadRemaining(session, AtLeast(expected));
      if |buff| < expected {
        return Err(TransferIncomplete(|buff|, expected));
      }
      var data := ExpectedDataBytes(buff);
      if data.None? {
        return Err(MalformedHeader);
      }
      var h := TmcHeaderBytes(buff).value;
      buff := Slice(buff, h, h + data.value);
      r := Ok(buff);
    }

    /** The corrected capture, driven by the header of the growing buffer. */
    method CaptureWholeBlock(session: Session, first: seq<byte>) returns (r: Result<seq<byte>, CaptureError>)
      modifies this, session
      ensures r == WholeBlockOutcome(first, old(session.pending))
      ensures r.Ok? ==> buff == r.value
      ensures session.pending == old(session.pending)[ReadsTaken(first, old(session.pending), WholeBlock)..]
    {
      buff := first;
      ReadRemaining(session, WholeBlock);
      var total := ExpectedBuffBytes(buff);
      if total.None? {
        return Err(MalformedHeader);
      }
      if |buff| < total.value {
        return Err(TransferIncomplete(|buff|, total.value));
      }
      var data := ExpectedDataBytes(buff);
      var h := TmcHeaderBytes(buff).value;
      buff := Slice(buff, h, h + data.value);
      r := Ok(buff);
    }
  }

  /** A buffer that starts with an encoded block yields that block's
      payload and its size as the total. */
  lemma SavesEncodedPayload(buff: seq<byte>, d: nat, payload: seq<byte>)
    requires 1 <= d <= 9 && |payload| < Pow10(d)
    requires |buff| >= |EncodeBlock(d, payload)|
    requires buff[..|EncodeBlock(d, payload)|] == EncodeBlock(d, payload)
    ensures ExpectedBuffBytes(buff) == Some(|EncodeBlock(d, payload)|)
    ensures SavedPayload(buff) == Ok(payload)
  {
    var block := EncodeBlock(d, payload);
    assert buff == block + buff[|block|..];
    DecodeEncodedBlock(d, payload, buff[|block|..]);
  }

  /** The gathered buffer of a loop driven by `rule` is a prefix of all that
      is delivered. */
  lemma GatheredOfDelivery(first: seq<byte>, chunks: seq<seq<byte>>, rule: Until)
    ensures Gathered(first, chunks, rule) + Flatten(chunks[ReadsTaken(first, chunks, rule)..])
      == first + Flatten(chunks)
    ensures ReadsTaken(first, chunks, rule) == |chunks| ==> Gathered(first, chunks, rule) == first + Flatten(chunks)
  {
    GatheredPrefix(first, chunks, rule);
    assert chunks[|chunks|..] == [];
  }

  /** When the instrument delivers a well-formed block, the first reply
      holds its whole header, and no follow-up read times out, the capture
      writes exactly the block's payload, whatever follows the block. */
  lemma CaptureDelivered(d: nat, payload: seq<byte>, rest: seq<byte>, first: seq<byte>, chunks: seq<seq<byte>>)
    requires 1 <= d <= 9 && |payload| < Pow10(d)
    requires first + Flatten(chunks) == EncodeBlock(d, payload) + rest
    requires |first| >= d + 2
    requires forall i | 0 <= i < |chunks| :: chunks[i] != []
    ensures CaptureOutcome(first, chunks) == Ok(payload)
  {
    var block := EncodeBlock(d, payload);
    var whole := block + rest;
    DecodeEncodedBlock(d, payload, rest);
    LongPrefix(first, Flatten(chunks), whole[..d + 2], whole[d + 2..]);
    PrefixWithHeader(first, whole);
    var rule := AtLeast(|block|);
    var buff := Gathered(first, chunks, rule);
    GatheredWithoutTimeouts(first, chunks, rule);
    GatheredOfDelivery(first, chunks, rule);
    assert |buff| >= |block|;
    LongPrefix(buff, Flatten(chunks[ReadsTaken(first, chunks, rule)..]), block, rest);
    SavesEncodedPayload(buff, d, payload);
  }

  /** When everything delivered is shorter than the total the first reply
      declares, the capture aborts and writes nothing. */
  lemma CaptureShort(first: seq<byte>, chunks: seq<seq<byte>>)
    requires ExpectedBuffBytes(first).Some?
    requires |first + Flatten(chunks)| < ExpectedBuffBytes(first).value
    ensures CaptureOutcome(first, chunks).Err?
    ensures CaptureOutcome(first, chunks).error.TransferIncomplete?
    ensures CaptureOutcome(first, chunks).error.expected == ExpectedBuffBytes(first).value
  {
    var rule := AtLeast(ExpectedBuffBytes(first).value);
    GatheredOfDelivery(first, chunks, rule);
  }

  /** What a buffer grown from `first` saves, read off any longer delivery
      that starts with that buffer. */
  lemma SavedFromPrefix(first: seq<byte>, buff: seq<byte>, whole: seq<byte>)
    requires HeaderComplete(first) && ExpectedDataBytes(first).Some?
    requires |first| <= |buff| <= |whole| && buff[..|first|] == first && whole[..|buff|] == buff
    requires |buff| > TmcHeaderBytes(first).value + ExpectedDataBytes(first).value
    ensures SavedPayload(buff) == Ok(whole[TmcHeaderBytes(first).value..
                                           TmcHeaderBytes(first).value + ExpectedDataBytes(first).value])
  {
    var h, d := TmcHeaderBytes(first).value, ExpectedDataBytes(first).value;
    assert buff == first + buff[|first|..];
    AppendKeepsHeader(first, buff[|first|..]);
    SliceInside(buff, [], h, h + d);
    SliceOfPrefix(whole, buff, h, h + d);
  }

  /** When the first reply holds the whole header, a successful capture
      writes exactly the declared number of bytes, the ones that follow the
      header in what was delivered; bytes after them are discarded. */
  lemma SavedLength(first: seq<byte>, chunks: seq<seq<byte>>)
    requires HeaderComplete(first)
    requires CaptureOutcome(first, chunks).Ok?
    ensures |first + Flatten(chunks)| > TmcHeaderBytes(first).value + ExpectedDataBytes(first).value
    ensures CaptureOutcome(first, chunks).value
      == (first + Flatten(chunks))[TmcHeaderBytes(first).value..TmcHeaderBytes(first).value + ExpectedDataBytes(first).value]
    ensures |CaptureOutcome(first, chunks).value| == ExpectedDataBytes(first).value
  {
    var rule := AtLeast(ExpectedBuffBytes(first).value);
    var buff := Gathered(first, chunks, rule);
    var whole := first + Flatten(chunks);
    BuffBytesFromParts(first);
    assert CaptureOutcome(first, chunks) == SavedPayload(buff);
    GatheredOfDelivery(first, chunks, rule);
    assert whole[..|buff|] == buff;
    assert buff[..|first|] == first;
    SavedFromPrefix(first, buff, whole);
  }

  lemma FirstReplyTarget()
    ensures ExpectedBuffBytes([35, 57, 48, 48, 48]) == Some(12)
  {
    var first: seq<byte> := [35, 57, 48, 48, 48];
    HeaderOfDigit(first, 9);
    var field := Slice(first, 2, 11);
    assert field == [48, 48, 48];
    var zero: seq<byte> := [48];
    assert zero[..0] == [];
    assert DecimalValue(zero) == 0;
    assert (zero + zero)[..1] == zero;
    assert DecimalValue(zero + zero) == 0;
    assert (zero + zero + zero)[..2] == zero + zero;
    assert field == zero + zero + zero;
    BuffBytesFromParts(first);
  }

  lemma DeliveryIsBlock()
    ensures [35, 57, 48, 48, 48] + Flatten([[48, 48, 48, 48, 48, 53, 65, 66], [67, 68, 69, 10]])
      == EncodeBlock(9, [65, 66, 67, 68, 69])
  {
    var chunks: seq<seq<byte>> := [[48, 48, 48, 48, 48, 53, 65, 66], [67, 68, 69, 10]];
    FlattenCons(chunks);
    FlattenCons(chunks[1..]);
    assert chunks[1..][1..] == [];
    ZeroPaddedZero(8);
    assert ZeroPadded(5, 9) == ZeroPadded(0, 8) + [53];
    assert ZeroPadded(0, 8) == [48, 48, 48, 48, 48, 48, 48, 48];
  }

  /** The as-written capture on a reply whose header is cut short: the
      instrument sends the block for the five bytes "ABCDE" with a nine-digit
      length field, and the first reply ends inside that field ("#9000").
      The target size is then computed from "000" as 11 + 0 + 1 = 12; the
      next read brings the buffer to 13 bytes and ends the loop; decoding
      the grown buffer declares 5 bytes, of which only "AB" have arrived,
      and those two bytes are what gets written. The corrected capture
      writes all five. */
  lemma TruncatedHeaderSavesShortImage()
    ensures var first: seq<byte> := [35, 57, 48, 48, 48];
            var chunks: seq<seq<byte>> := [[48, 48, 48, 48, 48, 53, 65, 66], [67, 68, 69, 10]];
            && first + Flatten(chunks) == EncodeBlock(9, [65, 66, 67, 68, 69])
            && CaptureOutcome(first, chunks) == Ok([65, 66])
            && WholeBlockOutcome(first, chunks) == Ok([65, 66, 67, 68, 69])
  {
    var first: seq<byte> := [35, 57, 48, 48, 48];
    var chunks: seq<seq<byte>> := [[48, 48, 48, 48, 48, 53, 65, 66], [67, 68, 69, 10]];
    var payload: seq<byte> := [65, 66, 67, 68, 69];
    var rule := AtLeast(12);
    FirstReplyTarget();
    DeliveryIsBlock();
    TakenStep(first, chunks, rule);
    GatheredWhenDone(first + chunks[0], chunks[1..], rule);
    assert chunks[..1] == [chunks[0]];
    assert Flatten(chunks[..1]) == Flatten(chunks[..1][..0]) + chunks[0];
    var buff := first + chunks[0];
    assert Gathered(first, chunks, rule) == buff;
    var block := EncodeBlock(9, payload);
    DecodeEncodedBlock(9, payload, []);
    assert block + [] == block;
    assert buff == block[..13];
    PrefixWithHeader(buff, block);
    assert SavedPayload(buff) == Ok(Slice(buff, 11, 16));
    assert Slice(buff, 11, 16) == [65, 66];
    WholeBlockDelivered(9, payload, [], first, chunks);
  }

  /** The corrected capture writes the payload of any well-formed block
      however the instrument splits it into non-empty reads, even when the
      first reply ends inside the header. */
  lemma WholeBlockDelivered(d: nat, payload: seq<byte>, rest: seq<byte>, first: seq<byte>, chunks: seq<seq<byte>>)
    requires 1 <= d <= 9 && |payload| < Pow10(d)
    requires first + Flatten(chunks) == EncodeBlock(d, payload) + rest
    requires forall i | 0 <= i < |chunks| :: chunks[i] != []
    ensures WholeBlockOutcome(first, chunks) == Ok(payload)
  {
    var block := EncodeBlock(d, payload);
    var whole := block + rest;
    DecodeEncodedBlock(d, payload, rest);
    var buff := Gathered(first, chunks, WholeBlock);
    GatheredWithoutTimeouts(first, chunks, WholeBlock);
    GatheredOfDelivery(first, chunks, WholeBlock);
    if ReadsTaken(first, chunks, WholeBlock) < |chunks| {
      // the loop stopped because the block was received
      assert BlockReceived(buff);
      var later := Flatten(chunks[ReadsTaken(first, chunks, WholeBlock)..]);
      assert buff + later == whole;
      assert buff[1] == whole[1];
      LongPrefix(buff, later, whole[..d + 2], whole[d + 2..]);
      PrefixWithHeader(buff, whole);
      LongPrefix(buff, later, block, rest);
    } else {
      assert buff == whole;
    }
    SavesEncodedPayload(buff, d, payload);
  }

  /** The correction changes nothing when the first reply holds the whole
      header: then both loops stop at the same place and decide alike. */
  lemma WholeBlockAgrees(first: seq<byte>, chunks: seq<seq<byte>>)
    requires HeaderComplete(first)
    ensures WholeBlockOutcome(first, chunks) == CaptureOutcome(first, chunks)
  {
    forall extra: seq<byte>
      ensures ExpectedBuffBytes(first + extra) == ExpectedBuffBytes(first)
    {
      AppendKeepsHeader(first, extra);
    }
    var buff := Gathered(first, chunks, WholeBlock);
    assert buff == first + buff[|first|..];
    if ExpectedBuffBytes(first).Some? {
      var rule := AtLeast(ExpectedBuffBytes(first).value);
      RulesAgree(first, chunks, WholeBlock, rule);
    } else {
      GatheredWhenDone(first, chunks, WholeBlock);
    }
  }
}
