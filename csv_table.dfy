/** The CSV text capture_csv_data builds (OscScreenGrabLAN.py:267-338), one
    channel at a time: a header line of channel names, then one line per
    sample index. Each channel is merged into the text built so far by
    splitting that text into lines and rebuilding it. The line separator is
    `os.linesep`, taken here as the POSIX "\n". */
module CsvTable {
  import opened Sequences

  /** `os.linesep`. */
  const LineSep: char := '\n'

  /** One channel's waveform: its name and its samples, as text. */
  datatype Trace = Trace(channel: string, samples: seq<string>)

  /** Lines written one after the other, each followed by the separator. */
  function Render(rows: seq<string>): (text: string)
    ensures |text| >= |rows|
    ensures rows == [] <==> text == []
  {
    if rows == [] then [] else Render(rows[..|rows| - 1]) + rows[|rows| - 1] + [LineSep]
  }

  predicate NoLineBreaks(rows: seq<string>)
  {
    forall i | 0 <= i < |rows| :: LineSep !in rows[i]
  }

  /** Line k of `lines` with `,sample` appended, or just `,sample` when
      there is no line k. */
  function Extended(lines: seq<string>, k: nat, sample: string): string
  {
    if k < |lines| then lines[k] + "," + sample else "," + sample
  }

  /** The lines one merge writes, given the text built so far (`csv_buff`),
      the channel's name and its samples: the text is split into lines; an
      empty text starts a new table, one sample per line; otherwise the
      first line gets `,name` and sample k is appended to line k + 1 when
      that line exists, and written after a single empty cell when not.
      Lines past the last sample are not written again. */
  function MergedRows(csv: string, channel: string, points: seq<string>): (rows: seq<string>)
    ensures |rows| == 1 + |points|
  {
    var lines := Split(csv, LineSep);
    if csv == [] then
      [channel] + points
    else
      [lines[0] + "," + channel] + seq(|points|, k requires 0 <= k < |points| =>
        Extended(lines, k + 1, points[k]))
  }

  /** The same merge stated on the table's lines rather than on its text. */
  function AddColumn(table: seq<string>, t: Trace): (rows: seq<string>)
    ensures |rows| == 1 + |t.samples|
  {
    if table == [] then
      [t.channel] + t.samples
    else
      [table[0] + "," + t.channel] + seq(|t.samples|, k requires 0 <= k < |t.samples| =>
        Extended(table, k + 1, t.samples[k]))
  }

  /** The table after merging the traces in order. */
  function BuildTable(traces: seq<Trace>): seq<string>
  {
    if traces == [] then [] else AddColumn(BuildTable(traces[..|traces| - 1]), traces[|traces| - 1])
  }

  /** The loop that rebuilds `csv_buff` for one channel, with its
      `current_row` counter. */
  method MergeChannel(csv: string, channel: string, points: seq<string>) returns (out: string)
    ensures out == Render(MergedRows(csv, channel, points))
  {
    var lines := Split(csv, LineSep);
    var rows := |lines|;
    var currentRow := 0;
    var firstColumn: bool;
    ghost var merged := MergedRows(csv, channel, points);
    if csv == [] {
      firstColumn := true;
      out := channel + [LineSep];
    } else {
      firstColumn := false;
      out := lines[currentRow] + "," + channel + [LineSep];
    }
    MergedRowAt(csv, channel, points, 0);
    RenderStep(merged, 0);
    for i := 0 to |points|
      invariant currentRow == i
      invariant firstColumn == (csv == [])
      invariant out == Render(merged[..i + 1])
    {
      var point := points[i];
      currentRow := currentRow + 1;
      var line: string;
      if firstColumn {
        line := point;
      } else if currentRow < rows {
        line := lines[currentRow] + "," + point;
      } else {
        line := "," + point;
      }
      assert line == if csv == [] then points[currentRow - 1] else Extended(lines, currentRow, points[currentRow - 1]);
      MergeStep(csv, channel, points, currentRow, out);
      out := out + (line + [LineSep]);
    }
    assert merged[..|points| + 1] == merged;
  }

  /** Line k of a merge, as MergedRows defines it. */
  lemma MergedRowAt(csv: string, channel: string, points: seq<string>, k: nat)
    requires k <= |points|
    ensures var lines := Split(csv, LineSep);
      MergedRows(csv, channel, points)[k] ==
        if k == 0 then (if csv == [] then channel else lines[0] + "," + channel)
        else if csv == [] then points[k - 1]
        else Extended(lines, k, points[k - 1])
  {
  }

  /** One turn of the merge loop writes line k. */
  lemma MergeStep(csv: string, channel: string, points: seq<string>, k: nat, out: string)
    requires 1 <= k <= |points| && out == Render(MergedRows(csv, channel, points)[..k])
    ensures var lines := Split(csv, LineSep);
      out + ((if csv == [] then points[k - 1] else Extended(lines, k, points[k - 1])) + [LineSep])
      == Render(MergedRows(csv, channel, points)[..k + 1])
  {
    MergedRowAt(csv, channel, points, k);
    RenderStep(MergedRows(csv, channel, points), k);
  }

  /** Rendering one more line appends it and a separator. */
  lemma RenderStep(rows: seq<string>, i: nat)
    requires i < |rows|
    ensures Render(rows[..i + 1]) == Render(rows[..i]) + (rows[i] + [LineSep])
  {
    assert rows[..i + 1][..i] == rows[..i];
  }

  /** Rendered lines are the separator-joined lines plus an empty last part. */
  lemma {:induction false} RenderJoin(rows: seq<string>)
    ensures Render(rows) == Join(rows + [""], LineSep)
  {
    if rows != [] {
      var init, last := rows[..|rows| - 1], rows[|rows| - 1];
      RenderJoin(init);
      assert rows == init + [last];
      JoinSnoc(rows, "", LineSep);
      if init == [] {
        assert Join(rows, LineSep) == last;
        assert Join(init + [""], LineSep) == "";
      } else {
        JoinSnoc(init, last, LineSep);
        JoinSnoc(init, "", LineSep);
      }
    }
  }

  /** Splitting rendered lines gives them back, with the empty part that
      follows the last separator. */
  lemma SplitRender(rows: seq<string>)
    requires NoLineBreaks(rows)
    ensures Split(Render(rows), LineSep) == rows + [""]
  {
    RenderJoin(rows);
    SplitJoin(rows + [""], LineSep);
  }

  /** Merging into the rendered text of a table is adding a column to the
      table, provided no cell holds a line break. The extra empty part of the
      split is harmless: the sample that meets it gets "" + "," in front,
      just as a sample past the end does. */
  lemma MergeOnTable(table: seq<string>, t: Trace)
    requires NoLineBreaks(table)
    ensures MergedRows(Render(table), t.channel, t.samples) == AddColumn(table, t)
  {
    if table != [] {
      SplitRender(table);
      var lines := table + [""];
      assert Split(Render(table), LineSep) == lines;
      var a, b := MergedRows(Render(table), t.channel, t.samples), AddColumn(table, t);
      forall k | 1 <= k < |a|
        ensures a[k] == b[k]
      {
        if k == |table| {
          assert Extended(lines, k, t.samples[k - 1]) == "," + t.samples[k - 1];
        }
      }
    }
  }

  /** Row k (k >= 1) after one merge: the old row with the sample appended,
      or a single empty cell and the sample when the old table was shorter. */
  lemma AddColumnRow(table: seq<string>, t: Trace, k: nat)
    requires table != [] && 1 <= k <= |t.samples|
    ensures AddColumn(table, t)[k] ==
      (if k < |table| then table[k] + "," + t.samples[k - 1] else "," + t.samples[k - 1])
  {
  }

  function Names(traces: seq<Trace>): (names: seq<string>)
    ensures |names| == |traces|
  {
    seq(|traces|, j requires 0 <= j < |traces| => traces[j].channel)
  }

  /** The header line joins the channel names with commas, and the table has
      one line per sample of the last channel merged: lines that only longer,
      earlier channels filled are dropped. */
  lemma {:induction false} BuildTableShape(traces: seq<Trace>)
    requires traces != []
    ensures |BuildTable(traces)| == 1 + |traces[|traces| - 1].samples|
    ensures BuildTable(traces)[0] == Join(Names(traces), ',')
  {
    var init, last := traces[..|traces| - 1], traces[|traces| - 1];
    if init == [] {
      assert Names(traces) == [last.channel];
    } else {
      BuildTableShape(init);
      assert Names(traces) == Names(init) + [last.channel];
      JoinSnoc(Names(init), last.channel, ',');
    }
  }

  /** The samples at index k of every trace, in channel order. */
  function Column(traces: seq<Trace>, k: nat): seq<string>
    requires forall j | 0 <= j < |traces| :: k < |traces[j].samples|
  {
    seq(|traces|, j requires 0 <= j < |traces| => traces[j].samples[k])
  }

  /** When every channel has the same number of samples, line k + 1 joins the
      k-th sample of each channel with commas: the table is the plain CSV. */
  lemma {:induction false} BuildTableRectangular(traces: seq<Trace>, n: nat)
    requires traces != []
    requires forall j | 0 <= j < |traces| :: |traces[j].samples| == n
    ensures |BuildTable(traces)| == n + 1
    ensures forall k | 0 <= k < n :: BuildTable(traces)[k + 1] == Join(Column(traces, k), ',')
  {
    BuildTableShape(traces);
    var init, last := traces[..|traces| - 1], traces[|traces| - 1];
    if init == [] {
      forall k | 0 <= k < n
        ensures BuildTable(traces)[k + 1] == Join(Column(traces, k), ',')
      {
        assert Column(traces, k) == [last.samples[k]];
      }
    } else {
      BuildTableRectangular(init, n);
      forall k | 0 <= k < n
        ensures BuildTable(traces)[k + 1] == Join(Column(traces, k), ',')
      {
        RectangularRow(traces, n, k);
      }
    }
  }

  lemma RectangularRow(traces: seq<Trace>, n: nat, k: nat)
    requires |traces| >= 2 && k < n
    requires forall j | 0 <= j < |traces| :: |traces[j].samples| == n
    requires |BuildTable(traces[..|traces| - 1])| == n + 1
    requires BuildTable(traces[..|traces| - 1])[k + 1] == Join(Column(traces[..|traces| - 1], k), ',')
    ensures BuildTable(traces)[k + 1] == Join(Column(traces, k), ',')
  {
    var init, last := traces[..|traces| - 1], traces[|traces| - 1];
    AddColumnRow(BuildTable(init), last, k + 1);
    assert Column(traces, k) == Column(init, k) + [last.samples[k]];
    JoinSnoc(Column(init, k), last.samples[k], ',');
  }

  /** Adding a column without line breaks keeps a table free of them. */
  lemma AddColumnNoLineBreaks(table: seq<string>, t: Trace)
    requires NoLineBreaks(table) && LineSep !in t.channel && NoLineBreaks(t.samples)
    ensures NoLineBreaks(AddColumn(table, t))
  {
    var rows := AddColumn(table, t);
    forall i | 0 <= i < |rows|
      ensures LineSep !in rows[i]
    {
      if table != [] && i >= 1 {
        AddColumnRow(table, t, i);
      }
    }
  }

  /** Text without line breaks in any channel name or sample gives a table
      without line breaks in any line. */
  lemma {:induction false} BuildTableNoLineBreaks(traces: seq<Trace>)
    requires forall j | 0 <= j < |traces| :: LineSep !in traces[j].channel && NoLineBreaks(traces[j].samples)
    ensures NoLineBreaks(BuildTable(traces))
  {
    if traces != [] {
      var init, last := traces[..|traces| - 1], traces[|traces| - 1];
      BuildTableNoLineBreaks(init);
      AddColumnNoLineBreaks(BuildTable(init), last);
    }
  }

  /** The quirk on a small case: A has samples 1 and 2, B has 3, 4 and 5; the
      third data line holds only one empty cell before B's sample. And when
      a shorter channel C with the single sample 6 follows, the table keeps
      just two lines. */
  lemma RaggedExample()
    ensures BuildTable([Trace("A", ["1", "2"]), Trace("B", ["3", "4", "5"])])
      == ["A,B", "1,3", "2,4", ",5"]
    ensures BuildTable([Trace("A", ["1", "2"]), Trace("B", ["3", "4", "5"]), Trace("C", ["6"])])
      == ["A,B,C", "1,3,6"]
  {
    var a, b, c := Trace("A", ["1", "2"]), Trace("B", ["3", "4", "5"]), Trace("C", ["6"]);
    assert [a, b][..1] == [a] && [a][..0] == [];
    var t1 := BuildTable([a]);
    assert BuildTable([]) == [];
    assert t1 == AddColumn([], a) == ["A"] + ["1", "2"];
    var t2 := AddColumn(t1, b);
    AddColumnRow(t1, b, 1);
    AddColumnRow(t1, b, 2);
    AddColumnRow(t1, b, 3);
    assert BuildTable([a, b]) == t2;
    assert t2[0] == "A" + "," + "B" == "A,B";
    assert t2[1] == "1" + "," + "3" == "1,3";
    assert t2[2] == "2" + "," + "4" == "2,4";
    assert t2[3] == "," + "5" == ",5";
    assert t2 == ["A,B", "1,3", "2,4", ",5"];
    var t3 := AddColumn(t2, c);
    assert [a, b, c][..2] == [a, b];
    assert BuildTable([a, b, c]) == AddColumn(BuildTable([a, b]), c) == t3;
    assert t3[0] == "A,B" + "," + "C" == "A,B,C";
    assert t3[1] == "1,3" + "," + "6" == "1,3,6";
    assert [a, b, c][..2] == [a, b];
    AddColumnRow(t2, c, 1);
  }
}
