/** build_save_filename (OscScreenGrabLAN.py:348-363): without a note the
    file is named after the model and the capture time, under the save
    path; with a note, spaces become underscores and the first of
    `note.suffix`, `note_2.suffix`, ..., `note_100.suffix` that does not
    exist yet is taken, falling back to the timestamped name. Which paths
    exist is a parameter; the time arrives already formatted. */
module SaveFilename {
  import opened Wrappers

  /** How many note-based names are tried. */
  const Tries: nat := 100

  /** `note.replace(' ', '_')`. */
  function Underscored(note: string): (r: string)
    ensures |r| == |note| && ' ' !in r
    ensures forall k | 0 <= k < |note| && note[k] != ' ' :: r[k] == note[k]
    ensures forall k | 0 <= k < |note| && note[k] == ' ' :: r[k] == '_'
  {
    seq(|note|, k requires 0 <= k < |note| => if note[k] == ' ' then '_' else note[k])
  }

  /** A note without spaces is kept as it is, so underscoring twice is
      underscoring once. */
  lemma UnderscoredIdempotent(note: string)
    ensures Underscored(Underscored(note)) == Underscored(note)
    ensures ' ' !in note ==> Underscored(note) == note
  {
  }

  /** The decimal digits of n, as f-string formatting writes them. */
  function DecimalText(n: nat): (s: string)
    ensures |s| >= 1
    decreases n
  {
    if n < 10 then [(48 + n) as char] else DecimalText(n / 10) + [(48 + n % 10) as char]
  }

  /** The number a digit string stands for. */
  function TextValue(s: string): int
  {
    if s == [] then 0 else 10 * TextValue(s[..|s| - 1]) + (s[|s| - 1] as int - 48)
  }

  /** Reading back the digits gives the number. */
  lemma {:induction false} DecimalTextValue(n: nat)
    ensures TextValue(DecimalText(n)) == n
    decreases n
  {
    if n >= 10 {
      var s := DecimalText(n);
      DecimalTextValue(n / 10);
      assert s[..|s| - 1] == DecimalText(n / 10);
      DivMod10(n);
    }
  }

  lemma DivMod10(n: nat)
    ensures 10 * (n / 10) + n % 10 == n
  {
  }

  /** Different numbers are written differently. */
  lemma DecimalTextInjective(a: nat, b: nat)
    requires DecimalText(a) == DecimalText(b)
    ensures a == b
  {
    DecimalTextValue(a);
    DecimalTextValue(b);
  }

  /** `file_number`: empty for the first try, `_2` ... `_100` after it. */
  function FileNumber(i: nat): string
  {
    if i == 0 then "" else "_" + DecimalText(i + 1)
  }

  /** `filename_candidate` for try i. */
  function Candidate(base: string, i: nat, suffix: string): string
  {
    base + FileNumber(i) + "." + suffix
  }

  /** The name used without a note, or when every note-based name is taken. */
  function TimestampFilename(savePath: string, scopeModel: string, timestamp: string, suffix: string): string
  {
    savePath + scopeModel + "_" + timestamp + "." + suffix
  }

  /** No two tries produce the same name. */
  lemma CandidatesDistinct(base: string, suffix: string, i: nat, j: nat)
    requires i != j
    ensures Candidate(base, i, suffix) != Candidate(base, j, suffix)
  {
    var x, y := FileNumber(i), FileNumber(j);
    var cx, cy := Candidate(base, i, suffix), Candidate(base, j, suffix);
    if cx == cy {
      assert |x| == |y|;
      assert x == cx[|base|..|base| + |x|];
      assert y == cy[|base|..|base| + |y|];
      if i != 0 && j != 0 {
        assert x[1..] == DecimalText(i + 1) && y[1..] == DecimalText(j + 1);
        DecimalTextInjective(i + 1, j + 1);
      }
    }
  }

  /** The names of the first n tries. */
  function Candidates(base: string, suffix: string, n: nat): (names: set<string>)
    ensures forall i | 0 <= i < n :: Candidate(base, i, suffix) in names
  {
    if n == 0 then {} else Candidates(base, suffix, n - 1) + {Candidate(base, n - 1, suffix)}
  }

  /** n tries name n different files. */
  lemma {:induction false} CandidatesCount(base: string, suffix: string, n: nat)
    ensures |Candidates(base, suffix, n)| == n
    ensures forall x | x in Candidates(base, suffix, n) :: exists i | 0 <= i < n :: x == Candidate(base, i, suffix)
  {
    if n > 0 {
      CandidatesCount(base, suffix, n - 1);
      var c := Candidate(base, n - 1, suffix);
      if c in Candidates(base, suffix, n - 1) {
        var i :| 0 <= i < n - 1 && c == Candidate(base, i, suffix);
        CandidatesDistinct(base, suffix, i, n - 1);
      }
    }
  }

  /** The search as the code runs it: the note-based name of the first try
      whose path does not exist, else the timestamped name. */
  method BuildSaveFilename(savePath: string, scopeModel: string, timestamp: string, suffix: string,
                           note: Option<string>, existing: set<string>) returns (name: string)
    ensures note.None? ==> name == TimestampFilename(savePath, scopeModel, timestamp, suffix)
    ensures note.Some? ==>
      (exists i | 0 <= i < Tries ::
        name == Candidate(Underscored(note.value), i, suffix) && name !in existing
        && forall j | 0 <= j < i :: Candidate(Underscored(note.value), j, suffix) in existing)
      || (name == TimestampFilename(savePath, scopeModel, timestamp, suffix)
        && forall j | 0 <= j < Tries :: Candidate(Underscored(note.value), j, suffix) in existing)
  {
    var filename := TimestampFilename(savePath, scopeModel, timestamp, suffix);
    if note.None? {
      return filename;
    }
    var filenameBase := Underscored(note.value);
    for i := 0 to Tries
      invariant forall j | 0 <= j < i :: Candidate(filenameBase, j, suffix) in existing
    {
      var fileNumber := FileNumber(i);
      var filenameCandidate := filenameBase + fileNumber + "." + suffix;
      if filenameCandidate !in existing {
        assert filenameCandidate == Candidate(filenameBase, i, suffix);
        return filenameCandidate;
      }
    }
    return filename;
  }

  /** With fewer than 100 existing paths the note always yields a fresh
      note-based name: the tries name 100 different files, so not all of
      them can exist. */
  lemma FreshNameFound(base: string, suffix: string, existing: set<string>)
    requires |existing| < Tries
    ensures exists i | 0 <= i < Tries :: Candidate(base, i, suffix) !in existing
  {
    CandidatesCount(base, suffix, Tries);
    var names := Candidates(base, suffix, Tries);
    if forall i | 0 <= i < Tries :: Candidate(base, i, suffix) in existing {
      assert names <= existing;
      SubsetSize(names, existing);
      assert false;
    }
  }

  lemma {:induction false} SubsetSize<T>(a: set<T>, b: set<T>)
    requires a <= b
    ensures |a| <= |b|
    decreases |a|
  {
    if a != {} {
      var x :| x in a;
      SubsetSize(a - {x}, b - {x});
    }
  }
}
