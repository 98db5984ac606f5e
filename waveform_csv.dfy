/** capture_csv_data (OscScreenGrabLAN.py:242-343): ask which of the five
    channels are displayed, then for each displayed channel read its
    `:WAV:DATA?` reply (an ASCII block of comma-separated samples), finish it
    with follow-up reads when it did not end with a newline, cut out the
    samples and merge them into the CSV text. Replies to the commands are
    parameters; the follow-up reads come from the session. */
module WaveformCsv {
  import opened Wrappers
  import opened Sequences
  import opened Bytes
  import opened BlockHeader
  import opened Transport
  import opened CsvTable

  /** The channels scanned, in this order. */
  const Channels: seq<string> := ["CHAN1", "CHAN2", "CHAN3", "CHAN4", "MATH"]

  datatype CsvError =
    | EmptyReply       // `buffChunk[-1]` on an empty reply raises IndexError
    | MalformedHeader  // `int()` raises while decoding the block header

  /** A `:<channel>:DISP?` reply that marks the channel as displayed. */
  predicate IsDisplayed(reply: seq<byte>)
  {
    Text(reply) == "1\n"
  }

  /** Reply k, or the empty reply of a read that timed out. */
  function Reply(replies: seq<seq<byte>>, k: nat): seq<byte>
  {
    if k < |replies| then replies[k] else []
  }

  /** The displayed channels among the first n, in scan order. */
  function DisplayedChannels(replies: seq<seq<byte>>, n: nat): (chans: seq<string>)
    requires n <= |Channels|
    ensures |chans| <= n
  {
    if n == 0 then
      []
    else
      DisplayedChannels(replies, n - 1)
      + (if IsDisplayed(Reply(replies, n - 1)) then [Channels[n - 1]] else [])
  }

  /** The `for channel in [...]` loop that fills `chanList`. */
  method ActiveChannels(replies: seq<seq<byte>>) returns (chanList: seq<string>)
    ensures chanList == DisplayedChannels(replies, |Channels|)
  {
    chanList := [];
    for k := 0 to |Channels|
      invariant chanList == DisplayedChannels(replies, k)
    {
      var response := Reply(replies, k);
      if IsDisplayed(response) {
        chanList := chanList + [Channels[k]];
      }
    }
  }

  /** A channel's place in the scan order (5 for a name that is not one). */
  function Rank(c: string): (r: nat)
    ensures r <= 5
  {
    if c == "CHAN1" then 0
    else if c == "CHAN2" then 1
    else if c == "CHAN3" then 2
    else if c == "CHAN4" then 3
    else if c == "MATH" then 4
    else 5
  }

  lemma RankOfChannel(k: nat)
    requires k < |Channels|
    ensures Rank(Channels[k]) == k
  {
  }

  /** The active channel list holds exactly the channels whose reply is
      "1\n", each once, in scan order. */
  lemma {:induction false} DisplayedChannelsSelected(replies: seq<seq<byte>>, n: nat)
    requires n <= |Channels|
    ensures forall k | 0 <= k < n :: Channels[k] in DisplayedChannels(replies, n) <==> IsDisplayed(Reply(replies, k))
    ensures forall i | 0 <= i < |DisplayedChannels(replies, n)| ::
      Rank(DisplayedChannels(replies, n)[i]) < n
      && DisplayedChannels(replies, n)[i] == Channels[Rank(DisplayedChannels(replies, n)[i])]
    ensures forall i, j | 0 <= i < j < |DisplayedChannels(replies, n)| ::
      Rank(DisplayedChannels(replies, n)[i]) < Rank(DisplayedChannels(replies, n)[j])
  {
    if n > 0 {
      DisplayedChannelsSelected(replies, n - 1);
      var before := DisplayedChannels(replies, n - 1);
      var chans := DisplayedChannels(replies, n);
      RankOfChannel(n - 1);
      forall k | 0 <= k < n
        ensures Channels[k] in chans <==> IsDisplayed(Reply(replies, k))
      {
        RankOfChannel(k);
        if k < n - 1 {
          assert Channels[k] != Channels[n - 1];
          if Channels[k] in chans && Channels[k] !in before {
            assert false;
          }
        }
      }
      forall i | 0 <= i < |chans|
        ensures Rank(chans[i]) < n && chans[i] == Channels[Rank(chans[i])]
      {
        if i < |before| {
          assert chans[i] == before[i];
        }
      }
      forall i, j | 0 <= i < j < |chans|
        ensures Rank(chans[i]) < Rank(chans[j])
      {
        assert chans[i] == before[i];
        if j < |before| {
          assert chans[j] == before[j];
        } else {
          assert chans[j] == Channels[n - 1];
        }
      }
    }
  }

  /** What the data loop of one channel ends with, from its first reply and
      the follow-up reads: an empty first reply fails at `buffChunk[-1]`. */
  function ChannelData(first: seq<byte>, pending: seq<seq<byte>>): Result<seq<byte>, CsvError>
  {
    if first == [] then Err(EmptyReply) else Ok(Gathered(first, pending, LineEnd))
  }

  /** The `while buffChunk[-1] != "\n"` loop. */
  method ReadDataReply(session: Session, first: seq<byte>) returns (r: Result<seq<byte>, CsvError>)
    modifies session
    ensures r == ChannelData(first, old(session.pending))
    ensures r.Ok? ==> session.pending == old(session.pending)[ReadsTaken(first, old(session.pending), LineEnd)..]
    ensures r.Err? ==> session.pending == old(session.pending)
  {
    if |first| == 0 {
      return Err(EmptyReply);
    }
    var buffChunk := first;
    ghost var chunks := session.pending;
    ghost var k := 0;
    while buffChunk[|buffChunk| - 1] != LF
      invariant |buffChunk| > 0
      invariant 0 <= k <= |chunks| && session.pending == chunks[k..]
      invariant Gathered(buffChunk, session.pending, LineEnd) == Gathered(first, chunks, LineEnd)
      invariant k + ReadsTaken(buffChunk, session.pending, LineEnd) == ReadsTaken(first, chunks, LineEnd)
      decreases |session.pending|
    {
      ghost var before := session.pending;
      var tmp := session.ReadUntilNewline();
      if |tmp| == 0 {
        if before == [] {
          GatheredWhenDone(buffChunk, before, LineEnd);
        } else {
          GatheredAtEmptyRead(buffChunk, before, LineEnd);
          k := k + 1;
        }
        break;
      }
      GatheredStep(buffChunk, before, LineEnd);
      TakenStep(buffChunk, before, LineEnd);
      buffChunk := buffChunk + tmp;
      k := k + 1;
    }
    if Done(LineEnd, buffChunk) {
      GatheredWhenDone(buffChunk, session.pending, LineEnd);
    }
    r := Ok(buffChunk);
  }

  /** The samples of one data reply: the bytes after the block header, up to
      but not including the last byte, split at commas. (The code appends a
      "," and strips it again before splitting; the two cancel.) */
  function Samples(chunk: seq<byte>): (r: Result<seq<string>, CsvError>)
    ensures r.Ok? <==> TmcHeaderBytes(chunk).Some?
    ensures r.Ok? ==> Join(r.value, ',') == Text(SliceToLast(chunk, TmcHeaderBytes(chunk).value))
    ensures r.Ok? ==> forall i | 0 <= i < |r.value| :: ',' !in r.value[i]
  {
    match TmcHeaderBytes(chunk)
    case None => Err(MalformedHeader)
    case Some(h) =>
      var text := Text(SliceToLast(chunk, h));
      JoinSplit(text, ',');
      SplitParts(text, ',');
      Ok(Split(text, ','))
  }

  /** A line-shaped reply has no line break in any sample: its only newline,
      if any, is the last byte, which is cut off. */
  lemma SamplesNoLineBreaks(chunk: seq<byte>)
    requires LineShaped(chunk) && Samples(chunk).Ok?
    ensures NoLineBreaks(Samples(chunk).value)
  {
    var h := TmcHeaderBytes(chunk).value;
    var body := SliceToLast(chunk, h);
    var text := Text(body);
    forall k | 0 <= k < |text|
      ensures text[k] != LineSep
    {
      assert h + k < |chunk| - 1;
      assert body[k] == chunk[h + k];
      assert text[k] as int == body[k] as int;
    }
    assert LineSep !in text;
    var parts := Split(text, ',');
    SplitParts(text, ',');
    forall i | 0 <= i < |parts|
      ensures LineSep !in parts[i]
    {
    }
  }

  /** What the rest of capture_csv_data produces once channels i.. remain,
      from the text `csv` built so far: each channel's data reply and its
      follow-up reads, merged in turn. */
  function MergeFrom(csv: string, chans: seq<string>, data: seq<seq<byte>>,
                     pending: seq<seq<byte>>, i: nat): Result<string, CsvError>
    requires i <= |chans|
    decreases |chans| - i
  {
    if i == |chans| then Ok(csv)
    else match ChannelData(Reply(data, i), pending)
      case Err(e) => Err(e)
      case Ok(chunk) =>
        match Samples(chunk)
        case Err(e) => Err(e)
        case Ok(points) =>
          MergeFrom(Render(MergedRows(csv, chans[i], points)), chans, data,
                    pending[ReadsTaken(Reply(data, i), pending, LineEnd)..], i + 1)
  }

  /** The follow-up reads still queued once channels i.. have been read, or
      once reading stops at the first channel that fails: the reads are
      taken from the front only, so what is left is a suffix. */
  function UnreadAfter(chans: seq<string>, data: seq<seq<byte>>, pending: seq<seq<byte>>, i: nat): (unread: seq<seq<byte>>)
    requires i <= |chans|
    ensures |unread| <= |pending| && unread == pending[|pending| - |unread|..]
    decreases |chans| - i
  {
    if i == |chans| then pending
    else match ChannelData(Reply(data, i), pending)
      case Err(_) => pending
      case Ok(chunk) =>
        var rest := pending[ReadsTaken(Reply(data, i), pending, LineEnd)..];
        if Samples(chunk).Err? then rest else UnreadAfter(chans, data, rest, i + 1)
  }

  /** The text capture_csv_data writes, or why it stops, given the display
      replies, the data reply of each displayed channel in order, and the
      follow-up reads. With no channel displayed the text is empty. */
  function CsvOutcome(display: seq<seq<byte>>, data: seq<seq<byte>>, pending: seq<seq<byte>>): Result<string, CsvError>
  {
    MergeFrom("", DisplayedChannels(display, |Channels|), data, pending, 0)
  }

  method CaptureCsvData(session: Session, display: seq<seq<byte>>, data: seq<seq<byte>>)
    returns (r: Result<string, CsvError>)
    modifies session
    ensures r == CsvOutcome(display, data, old(session.pending))
    ensures session.pending == UnreadAfter(DisplayedChannels(display, |Channels|), data, old(session.pending), 0)
  {
    var chanList := ActiveChannels(display);
    var csvBuff := "";
    ghost var pending := session.pending;
    for i := 0 to |chanList|
      invariant MergeFrom(csvBuff, chanList, data, session.pending, i) == MergeFrom("", chanList, data, pending, 0)
      invariant UnreadAfter(chanList, data, session.pending, i) == UnreadAfter(chanList, data, pending, 0)
    {
      var chunk := ReadDataReply(session, Reply(data, i));
      if chunk.Err? {
        return Err(chunk.error);
      }
      var points := Samples(chunk.value);
      if points.Err? {
        return Err(points.error);
      }
      csvBuff := MergeChannel(csvBuff, chanList[i], points.value);
    }
    r := Ok(csvBuff);
  }

  /** The traces the displayed channels deliver, channels i.. onwards. */
  function CollectTraces(chans: seq<string>, data: seq<seq<byte>>, pending: seq<seq<byte>>, i: nat): Result<seq<Trace>, CsvError>
    requires i <= |chans|
    decreases |chans| - i
  {
    if i == |chans| then Ok([])
    else match ChannelData(Reply(data, i), pending)
      case Err(e) => Err(e)
      case Ok(chunk) =>
        match Samples(chunk)
        case Err(e) => Err(e)
        case Ok(points) =>
          match CollectTraces(chans, data, pending[ReadsTaken(Reply(data, i), pending, LineEnd)..], i + 1)
          case Err(e) => Err(e)
          case Ok(rest) => Ok([Trace(chans[i], points)] + rest)
  }

  predicate AllLineShaped(chunks: seq<seq<byte>>)
  {
    forall k | 0 <= k < |chunks| :: LineShaped(chunks[k])
  }

  /** The table after adding the columns of `traces` in turn. */
  function AddColumns(table: seq<string>, traces: seq<Trace>): seq<string>
    decreases |traces|
  {
    if traces == [] then table else AddColumns(AddColumn(table, traces[0]), traces[1..])
  }

  /** Adding columns one by one to the table of `done` is building the
      table of all the traces. */
  lemma {:induction false} AddColumnsBuild(done: seq<Trace>, rest: seq<Trace>)
    ensures AddColumns(BuildTable(done), rest) == BuildTable(done + rest)
    decreases |rest|
  {
    if rest == [] {
      assert done + rest == done;
    } else {
      var t := rest[0];
      assert (done + [t])[..|done|] == done;
      assert BuildTable(done + [t]) == AddColumn(BuildTable(done), t);
      AddColumnsBuild(done + [t], rest[1..]);
      MoveHead(done, rest);
    }
  }

  /** The expected outcome of MergeFromTable: the table with the traces
      still to come added as columns. */
  function TableOutcome(table: seq<string>, more: Result<seq<Trace>, CsvError>): Result<string, CsvError>
  {
    match more
    case Err(e) => Err(e)
    case Ok(rest) => Ok(Render(AddColumns(table, rest)))
  }

  /** MergeFrom and CollectTraces at a channel whose reply decodes. */
  lemma StepAt(csv: string, chans: seq<string>, data: seq<seq<byte>>, pending: seq<seq<byte>>, i: nat)
    requires i < |chans| && Reply(data, i) != []
    requires Samples(Gathered(Reply(data, i), pending, LineEnd)).Ok?
    ensures
      var points := Samples(Gathered(Reply(data, i), pending, LineEnd)).value;
      var rest := pending[ReadsTaken(Reply(data, i), pending, LineEnd)..];
      MergeFrom(csv, chans, data, pending, i) == MergeFrom(Render(MergedRows(csv, chans[i], points)), chans, data, rest, i + 1)
      && CollectTraces(chans, data, pending, i) ==
        match CollectTraces(chans, data, rest, i + 1)
        case Err(e) => Err(e)
        case Ok(more) => Ok([Trace(chans[i], points)] + more)
  {
  }

  lemma TableOutcomeStep(table: seq<string>, t: Trace, more: Result<seq<Trace>, CsvError>)
    ensures TableOutcome(AddColumn(table, t), more) ==
      TableOutcome(table, match more case Err(e) => Err(e) case Ok(r) => Ok([t] + r))
  {
    if more.Ok? {
      MoveHead([], [t] + more.value);
    }
  }

  lemma DropLineShaped(chunks: seq<seq<byte>>, n: nat)
    requires n <= |chunks| && AllLineShaped(chunks)
    ensures AllLineShaped(chunks[n..])
  {
    forall k | 0 <= k < |chunks| - n
      ensures LineShaped(chunks[n..][k])
    {
      assert chunks[n..][k] == chunks[n + k];
    }
  }

  /** The trace channel i delivers and the reads left after it, when its
      reply decodes. */
  function NextTrace(chans: seq<string>, data: seq<seq<byte>>, pending: seq<seq<byte>>, i: nat): Trace
    requires i < |chans| && Samples(Gathered(Reply(data, i), pending, LineEnd)).Ok?
  {
    Trace(chans[i], Samples(Gathered(Reply(data, i), pending, LineEnd)).value)
  }

  function NextPending(data: seq<seq<byte>>, pending: seq<seq<byte>>, i: nat): seq<seq<byte>>
  {
    pending[ReadsTaken(Reply(data, i), pending, LineEnd)..]
  }

  /** One channel that delivers: merging it into the rendered table gives
      the rendered table with its column added, and the rest of the
      replies stay line-shaped. */
  lemma ContinueAt(table: seq<string>, chans: seq<string>, data: seq<seq<byte>>, pending: seq<seq<byte>>, i: nat)
    requires i < |chans| && NoLineBreaks(table) && LineSep !in chans[i]
    requires AllLineShaped(data) && AllLineShaped(pending)
    requires Reply(data, i) != [] && Samples(Gathered(Reply(data, i), pending, LineEnd)).Ok?
    ensures NoLineBreaks(AddColumn(table, NextTrace(chans, data, pending, i)))
    ensures AllLineShaped(NextPending(data, pending, i))
    ensures MergeFrom(Render(table), chans, data, pending, i) ==
      MergeFrom(Render(AddColumn(table, NextTrace(chans, data, pending, i))), chans, data, NextPending(data, pending, i), i + 1)
    ensures TableOutcome(table, CollectTraces(chans, data, pending, i)) ==
      TableOutcome(AddColumn(table, NextTrace(chans, data, pending, i)), CollectTraces(chans, data, NextPending(data, pending, i), i + 1))
  {
    var first := Reply(data, i);
    var chunk := Gathered(first, pending, LineEnd);
    var t := NextTrace(chans, data, pending, i);
    assert LineShaped(first);
    GatheredLineShaped(first, pending);
    SamplesNoLineBreaks(chunk);
    AddColumnNoLineBreaks(table, t);
    MergeOnTable(table, t);
    DropLineShaped(pending, ReadsTaken(first, pending, LineEnd));
    StepAt(Render(table), chans, data, pending, i);
    TableOutcomeStep(table, t, CollectTraces(chans, data, NextPending(data, pending, i), i + 1));
  }

  /** A channel whose reply is empty or does not decode stops both. */
  lemma StopAt(csv: string, table: seq<string>, chans: seq<string>, data: seq<seq<byte>>, pending: seq<seq<byte>>, i: nat)
    requires i < |chans|
    requires Reply(data, i) == [] || Samples(Gathered(Reply(data, i), pending, LineEnd)).Err?
    ensures MergeFrom(csv, chans, data, pending, i) == TableOutcome(table, CollectTraces(chans, data, pending, i))
    ensures MergeFrom(csv, chans, data, pending, i).Err?
  {
  }

  /** Merging channel by channel through the text gives the rendered table
      with the remaining traces added as columns, when replies come line by
      line and no channel name holds a line break. */
  lemma {:induction false} MergeFromTable(table: seq<string>, chans: seq<string>, data: seq<seq<byte>>,
                                          pending: seq<seq<byte>>, i: nat)
    requires i <= |chans| && NoLineBreaks(table)
    requires AllLineShaped(data) && AllLineShaped(pending)
    requires forall j | i <= j < |chans| :: LineSep !in chans[j]
    ensures MergeFrom(Render(table), chans, data, pending, i) ==
      TableOutcome(table, CollectTraces(chans, data, pending, i))
    decreases |chans| - i
  {
    if i < |chans| && Reply(data, i) != [] && Samples(Gathered(Reply(data, i), pending, LineEnd)).Ok? {
      var next := AddColumn(table, NextTrace(chans, data, pending, i));
      var rest := NextPending(data, pending, i);
      ContinueAt(table, chans, data, pending, i);
      MergeFromTable(next, chans, data, rest, i + 1);
    } else if i < |chans| {
      StopAt(Render(table), table, chans, data, pending, i);
    }
  }

  /** capture_csv_data writes the rendered table of the displayed channels'
      traces, when every reply is line-shaped (as `read_until` delivers it);
      with no channel displayed that is the empty text. */
  lemma CsvIsTable(display: seq<seq<byte>>, data: seq<seq<byte>>, pending: seq<seq<byte>>)
    requires AllLineShaped(data) && AllLineShaped(pending)
    ensures CsvOutcome(display, data, pending) ==
      match CollectTraces(DisplayedChannels(display, |Channels|), data, pending, 0)
      case Err(e) => Err(e)
      case Ok(traces) => Ok(Render(BuildTable(traces)))
  {
    var chans := DisplayedChannels(display, |Channels|);
    DisplayedChannelsSelected(display, |Channels|);
    forall j | 0 <= j < |chans|
      ensures LineSep !in chans[j]
    {
      assert chans[j] == Channels[Rank(chans[j])];
    }
    assert Render([]) == "";
    MergeFromTable([], chans, data, pending, 0);
    match CollectTraces(chans, data, pending, 0)
    case Err(e) =>
    case Ok(traces) =>
      AddColumnsBuild([], traces);
      assert [] + traces == traces;
  }

  /** With no channel displayed the file is still written, and it is empty. */
  lemma NothingDisplayedWritesEmpty(display: seq<seq<byte>>, data: seq<seq<byte>>, pending: seq<seq<byte>>)
    requires forall k | 0 <= k < |Channels| :: !IsDisplayed(Reply(display, k))
    ensures CsvOutcome(display, data, pending) == Ok("")
  {
    NoneDisplayedListsNone(display, |Channels|);
  }

  lemma {:induction false} NoneDisplayedListsNone(display: seq<seq<byte>>, n: nat)
    requires n <= |Channels|
    requires forall k | 0 <= k < n :: !IsDisplayed(Reply(display, k))
    ensures DisplayedChannels(display, n) == []
  {
    if n > 0 {
      NoneDisplayedListsNone(display, n - 1);
    }
  }
}
