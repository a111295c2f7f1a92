/**
 * The one-way checker (verify_vectors.py): each transcript line with a
 * recognised grade is compared with the student's row, under its stripped
 * but not normalised course code. There is no ghost pass.
 */
module OneWay {
  import opened Options
  import opened Text
  import opened Grades
  import opened Transcript
  import opened RowCheck

  /** A line's lookup key: `str()` and stripped. The `E` of an English section stays. */
  function RawKey(code: CodeCell): string
  {
    Trim(CodeText(code))
  }

  /** A line as this checker reads it: its raw key, and its grade from the table (None: skipped). */
  function RawLine(table: map<string, real>, r: Record): (e: Entry)
    ensures e.grade == CheckerGrade(table, r.grade)
    ensures IsTrimmed(e.course)
  {
    Entry(RawKey(r.code), CheckerGrade(table, r.grade))
  }

  function RawLines(table: map<string, real>, rs: seq<Record>): (es: seq<Entry>)
    ensures |es| == |rs|
    ensures forall j :: 0 <= j < |rs| ==> es[j] == RawLine(table, rs[j])
  {
    seq(|rs|, j requires 0 <= j < |rs| => RawLine(table, rs[j]))
  }

  /** How a read line fares: None when it is skipped, otherwise its comparison with the row. */
  function VerdictOf(value: map<string, real>, e: Entry): Option<Verdict>
  {
    if e.grade.None? then None else Some(Classify(value, e.course, e.grade.value))
  }

  /** What a line with a column is listed as, when it is listed: its course, its grade, the row's value. */
  function Listed(value: map<string, real>, e: Entry): Mismatch
    requires VerdictOf(value, e).Some? && VerdictOf(value, e) != Some(NoColumn)
  {
    Mismatch(e.course, e.grade.value, value[e.course])
  }

  /**
   * The counter and the lists the script prints: the number of agreeing
   * lines, the lines the row beats (a passed retake, printed as information),
   * the mismatches, and the courses the row has no column for.
   */
  datatype Tally = Tally(matches: nat, retakes: seq<Mismatch>, mismatches: seq<Mismatch>, missing: seq<string>)

  /** The positions among the first `n` lines that the checker recognises. */
  ghost function RecognisedRows(value: map<string, real>, es: seq<Entry>, n: int): set<int>
    requires 0 <= n <= |es|
  {
    set j | 0 <= j < n && VerdictOf(value, es[j]).Some?
  }

  /** The positions among the first `n` lines classified as `verdict`. */
  ghost function Rows(value: map<string, real>, es: seq<Entry>, n: int, verdict: Verdict): set<int>
    requires 0 <= n <= |es|
  {
    set j | 0 <= j < n && VerdictOf(value, es[j]) == Some(verdict)
  }

  /** Some line among the first `n` is classified as `verdict` and listed as `mm`. */
  ghost predicate ListedAmong(value: map<string, real>, es: seq<Entry>, n: int, verdict: Verdict, mm: Mismatch)
    requires 0 <= n <= |es| && verdict != NoColumn
  {
    exists j :: 0 <= j < n && VerdictOf(value, es[j]) == Some(verdict) && mm == Listed(value, es[j])
  }

  /** Some line among the first `n` is recognised, has course key `c` and no column. */
  ghost predicate MissingAmong(value: map<string, real>, es: seq<Entry>, n: int, c: string)
    requires 0 <= n <= |es|
  {
    exists j :: 0 <= j < n && VerdictOf(value, es[j]) == Some(NoColumn) && es[j].course == c
  }

  /** Taking one more line adds its position to the class it falls in, and to no other. */
  lemma RowsStep(value: map<string, real>, es: seq<Entry>, n: int, verdict: Verdict)
    requires 0 <= n < |es|
    ensures VerdictOf(value, es[n]) == Some(verdict) ==> Rows(value, es, n + 1, verdict) == Rows(value, es, n, verdict) + {n}
    ensures VerdictOf(value, es[n]) != Some(verdict) ==> Rows(value, es, n + 1, verdict) == Rows(value, es, n, verdict)
    ensures n !in Rows(value, es, n, verdict)
  {
  }

  /** Taking one more line adds it to the class it falls in, in every description of the classes. */
  lemma StepClasses(value: map<string, real>, es: seq<Entry>, n: int)
    requires 0 <= n < |es|
    ensures forall v :: VerdictOf(value, es[n]) == Some(v) ==> Rows(value, es, n + 1, v) == Rows(value, es, n, v) + {n}
    ensures forall v :: VerdictOf(value, es[n]) != Some(v) ==> Rows(value, es, n + 1, v) == Rows(value, es, n, v)
    ensures forall v :: n !in Rows(value, es, n, v)
    ensures forall v, mm :: v != NoColumn ==> (ListedAmong(value, es, n + 1, v, mm) <==>
      ListedAmong(value, es, n, v, mm) || (VerdictOf(value, es[n]) == Some(v) && mm == Listed(value, es[n])))
    ensures forall c :: MissingAmong(value, es, n + 1, c) <==>
      MissingAmong(value, es, n, c) || (VerdictOf(value, es[n]) == Some(NoColumn) && es[n].course == c)
  {
    forall v {
      RowsStep(value, es, n, v);
    }
    forall v, mm | v != NoColumn
      ensures ListedAmong(value, es, n + 1, v, mm) <==>
        ListedAmong(value, es, n, v, mm) || (VerdictOf(value, es[n]) == Some(v) && mm == Listed(value, es[n]))
    {
      if ListedAmong(value, es, n + 1, v, mm) {
        var j :| 0 <= j < n + 1 && VerdictOf(value, es[j]) == Some(v) && mm == Listed(value, es[j]);
      }
      if VerdictOf(value, es[n]) == Some(v) && mm == Listed(value, es[n]) {
        assert ListedAmong(value, es, n + 1, v, mm);
      }
    }
    forall c
      ensures MissingAmong(value, es, n + 1, c) <==>
        MissingAmong(value, es, n, c) || (VerdictOf(value, es[n]) == Some(NoColumn) && es[n].course == c)
    {
      if MissingAmong(value, es, n + 1, c) {
        var j :| 0 <= j < n + 1 && VerdictOf(value, es[j]) == Some(NoColumn) && es[j].course == c;
      }
    }
  }

  /** Taking one more line adds it to the recognised lines exactly when it is recognised. */
  lemma RecognisedStep(value: map<string, real>, es: seq<Entry>, n: int)
    requires 0 <= n < |es|
    ensures VerdictOf(value, es[n]).Some? ==> RecognisedRows(value, es, n + 1) == RecognisedRows(value, es, n) + {n}
    ensures VerdictOf(value, es[n]).None? ==> RecognisedRows(value, es, n + 1) == RecognisedRows(value, es, n)
    ensures n !in RecognisedRows(value, es, n)
  {
  }

  /** One line's effect on the tally: it bumps the counter or joins the list of its class. */
  function Tick(value: map<string, real>, t: Tally, e: Entry): Tally
  {
    if e.grade.None? then t
    else
      match Classify(value, e.course, e.grade.value)
      case Agrees => t.(matches := t.matches + 1)
      case Higher => t.(retakes := t.retakes + [Listed(value, e)])
      case Lower => t.(mismatches := t.mismatches + [Listed(value, e)])
      case NoColumn => t.(missing := t.missing + [e.course])
  }

  /** The counter and the list lengths are the sizes of the classes among the first `n` lines. */
  ghost predicate Counts(value: map<string, real>, es: seq<Entry>, n: int, t: Tally)
    requires 0 <= n <= |es|
  {
    && t.matches == |Rows(value, es, n, Agrees)|
    && |t.retakes| == |Rows(value, es, n, Higher)|
    && |t.mismatches| == |Rows(value, es, n, Lower)|
    && |t.missing| == |Rows(value, es, n, NoColumn)|
  }

  /** Each list holds exactly the entries of the lines of its class among the first `n`. */
  ghost predicate Lists(value: map<string, real>, es: seq<Entry>, n: int, t: Tally)
    requires 0 <= n <= |es|
  {
    && (forall mm :: mm in t.retakes <==> ListedAmong(value, es, n, Higher, mm))
    && (forall mm :: mm in t.mismatches <==> ListedAmong(value, es, n, Lower, mm))
    && (forall c :: c in t.missing <==> MissingAmong(value, es, n, c))
  }

  /** Ticking the next line keeps the counts exact. */
  lemma TickKeepsCounts(value: map<string, real>, es: seq<Entry>, n: int, t: Tally)
    requires 0 <= n < |es| && Counts(value, es, n, t)
    ensures Counts(value, es, n + 1, Tick(value, t, es[n]))
  {
    RowsStep(value, es, n, Agrees);
    RowsStep(value, es, n, Higher);
    RowsStep(value, es, n, Lower);
    RowsStep(value, es, n, NoColumn);
    var t' := Tick(value, t, es[n]);
    match VerdictOf(value, es[n])
    case None =>
      assert t' == t;
    case Some(v) =>
      assert |Rows(value, es, n + 1, v)| == |Rows(value, es, n, v)| + 1;
      match v
      case Agrees => assert t' == t.(matches := t.matches + 1);
      case Higher => assert t' == t.(retakes := t.retakes + [Listed(value, es[n])]);
      case Lower => assert t' == t.(mismatches := t.mismatches + [Listed(value, es[n])]);
      case NoColumn => assert t' == t.(missing := t.missing + [es[n].course]);
  }

  /** Ticking the next line keeps the lists exact. */
  lemma TickKeepsLists(value: map<string, real>, es: seq<Entry>, n: int, t: Tally)
    requires 0 <= n < |es| && Lists(value, es, n, t)
    ensures Lists(value, es, n + 1, Tick(value, t, es[n]))
  {
    StepClasses(value, es, n);
  }

  /**
   * The comparison loop of `verify_student_vector` over lines already read.
   * The counter is the number of agreeing lines; each list holds exactly the
   * lines of its class, one entry per line; the check passes exactly when no
   * recognised line is undercut by the row.
   */
  method CompareLines(value: map<string, real>, es: seq<Entry>) returns (t: Tally)
    ensures t.matches == |Rows(value, es, |es|, Agrees)|
    ensures |t.retakes| == |Rows(value, es, |es|, Higher)|
    ensures |t.mismatches| == |Rows(value, es, |es|, Lower)|
    ensures |t.missing| == |Rows(value, es, |es|, NoColumn)|
    ensures forall mm :: mm in t.retakes <==> ListedAmong(value, es, |es|, Higher, mm)
    ensures forall mm :: mm in t.mismatches <==> ListedAmong(value, es, |es|, Lower, mm)
    ensures forall c :: c in t.missing <==> MissingAmong(value, es, |es|, c)
    ensures |t.mismatches| == 0 <==> forall j :: 0 <= j < |es| ==> VerdictOf(value, es[j]) != Some(Lower)
  {
    t := Tally(0, [], [], []);
    assert Counts(value, es, 0, t) by {
      assert Rows(value, es, 0, Agrees) == {} && Rows(value, es, 0, Higher) == {};
      assert Rows(value, es, 0, Lower) == {} && Rows(value, es, 0, NoColumn) == {};
    }
    var i := 0;
    while i < |es|
      invariant 0 <= i <= |es|
      invariant Counts(value, es, i, t)
      invariant Lists(value, es, i, t)
    {
      TickKeepsCounts(value, es, i, t);
      TickKeepsLists(value, es, i, t);
      t := Tick(value, t, es[i]);
      i := i + 1;
    }
    forall j | 0 <= j < |es| && VerdictOf(value, es[j]) == Some(Lower)
      ensures |t.mismatches| > 0
    {
      assert j in Rows(value, es, |es|, Lower);
    }
    if |t.mismatches| > 0 {
      assert t.mismatches[0] in t.mismatches;
    }
  }

  /**
   * A transcript line this checker counts as a mismatch: its grade is
   * recognised, its raw key is a column, and the row's value there falls
   * more than the tolerance below the grade.
   */
  predicate RecordUndercut(table: map<string, real>, value: map<string, real>, r: Record)
  {
    && CheckerGrade(table, r.grade).Some?
    && RawKey(r.code) in value
    && value[RawKey(r.code)] < CheckerGrade(table, r.grade).value - Tolerance
  }

  /**
   * A transcript line this checker counts as a match: its grade is
   * recognised, its raw key is a column, and the row's value there lies
   * within the tolerance of the grade.
   */
  predicate RecordAgrees(table: map<string, real>, value: map<string, real>, r: Record)
  {
    && CheckerGrade(table, r.grade).Some?
    && RawKey(r.code) in value
    && CheckerGrade(table, r.grade).value - Tolerance <= value[RawKey(r.code)] <= CheckerGrade(table, r.grade).value + Tolerance
  }

  /** A transcript line with a recognised grade and raw key `c`, for which the row has no column. */
  predicate RecordMissing(table: map<string, real>, value: map<string, real>, r: Record, c: string)
  {
    CheckerGrade(table, r.grade).Some? && RawKey(r.code) == c && c !in value
  }

  /**
   * `verify_student_vector` once the row and the transcript are loaded, with
   * grade table `table`: every line is read under its raw key and compared.
   * The counter it reports is the number of matching lines; it passes
   * exactly when no line is undercut, and it lists as missing exactly the
   * raw keys of the recognised lines that have no column.
   */
  method VerifyStudentVector(table: map<string, real>, value: map<string, real>, rs: seq<Record>) returns (t: Tally)
    ensures t.matches == |set j | 0 <= j < |rs| && RecordAgrees(table, value, rs[j])|
    ensures |t.mismatches| == 0 <==> forall j :: 0 <= j < |rs| ==> !RecordUndercut(table, value, rs[j])
    ensures forall c :: c in t.missing <==> exists j :: 0 <= j < |rs| && RecordMissing(table, value, rs[j], c)
  {
    var es := RawLines(table, rs);
    t := CompareLines(value, es);
    RawLinesAgree(table, value, rs, es);
    RawLinesUndercut(table, value, rs, es);
    RawLinesMissing(table, value, rs, es);
  }

  lemma RawLinesAgree(table: map<string, real>, value: map<string, real>, rs: seq<Record>, es: seq<Entry>)
    requires es == RawLines(table, rs)
    ensures Rows(value, es, |es|, Agrees) == set j | 0 <= j < |rs| && RecordAgrees(table, value, rs[j])
  {
  }

  lemma RawLinesUndercut(table: map<string, real>, value: map<string, real>, rs: seq<Record>, es: seq<Entry>)
    requires es == RawLines(table, rs)
    ensures forall j :: 0 <= j < |rs| ==> (VerdictOf(value, es[j]) == Some(Lower) <==> RecordUndercut(table, value, rs[j]))
  {
  }

  lemma RawLineMissing(table: map<string, real>, value: map<string, real>, r: Record, c: string)
    ensures (VerdictOf(value, RawLine(table, r)) == Some(NoColumn) && RawLine(table, r).course == c) <==>
      RecordMissing(table, value, r, c)
  {
  }

  lemma RawLinesMissing(table: map<string, real>, value: map<string, real>, rs: seq<Record>, es: seq<Entry>)
    requires es == RawLines(table, rs)
    ensures forall c :: MissingAmong(value, es, |es|, c) <==> exists j :: 0 <= j < |rs| && RecordMissing(table, value, rs[j], c)
  {
    forall j, c | 0 <= j < |rs|
      ensures (VerdictOf(value, es[j]) == Some(NoColumn) && es[j].course == c) <==> RecordMissing(table, value, rs[j], c)
    {
      RawLineMissing(table, value, rs[j], c);
    }
  }

  /**
   * Every recognised line falls into exactly one of the four classes, so
   * the counter and the three lists together account for every recognised line.
   */
  lemma {:induction false} Partition(value: map<string, real>, es: seq<Entry>, n: int)
    requires 0 <= n <= |es|
    ensures |Rows(value, es, n, Agrees)| + |Rows(value, es, n, Higher)| + |Rows(value, es, n, Lower)|
      + |Rows(value, es, n, NoColumn)| == |RecognisedRows(value, es, n)|
  {
    if n > 0 {
      var m := n - 1;
      Partition(value, es, m);
      RowsStep(value, es, m, Agrees);
      RowsStep(value, es, m, Higher);
      RowsStep(value, es, m, Lower);
      RowsStep(value, es, m, NoColumn);
      RecognisedStep(value, es, m);
      match VerdictOf(value, es[m])
      case None =>
      case Some(v) =>
        assert |Rows(value, es, n, v)| == |Rows(value, es, m, v)| + 1;
        assert |RecognisedRows(value, es, n)| == |RecognisedRows(value, es, m)| + 1;
    } else {
      assert Rows(value, es, n, Agrees) == {};
      assert Rows(value, es, n, Higher) == {};
      assert Rows(value, es, n, Lower) == {};
      assert Rows(value, es, n, NoColumn) == {};
      assert RecognisedRows(value, es, n) == {};
    }
  }
}
