/**
 * The bidirectional checker (verify_vectors_normalized.py): one student's
 * transcript is compared with that student's row of the matrix in both
 * directions. The first pass walks the transcript and collects the courses
 * it recognises, the lines whose grade the row undercuts, and the courses
 * the row has no column for; the second pass walks the row and collects the
 * graded columns no recognised line accounts for ("ghost" courses).
 */
module Bidirectional {
  import opened Options
  import opened Text
  import opened Grades
  import opened Courses
  import opened Transcript
  import opened RowCheck

  /** A line's course key: `str()`, stripped, then normalised exactly as the generator does. */
  function Key(code: CodeCell): (k: string)
    ensures k == CourseKey(code)
  {
    NormalizeAfterTrim(CodeText(code));
    NormalizeCourse(Trim(CodeText(code)))
  }

  /**
   * A line as the checker reads it: its course key and its grade from the
   * checker's table, None when the token is not in the table (the line is
   * then skipped and never counts as found).
   */
  function ReadLine(table: map<string, real>, r: Record): (e: Entry)
    ensures e.grade == CheckerGrade(table, r.grade)
    ensures e.course == CourseKey(r.code)
  {
    Entry(Key(r.code), CheckerGrade(table, r.grade))
  }

  function ReadLines(table: map<string, real>, rs: seq<Record>): (es: seq<Entry>)
    ensures |es| == |rs|
    ensures forall j :: 0 <= j < |rs| ==> es[j] == ReadLine(table, rs[j])
  {
    seq(|rs|, j requires 0 <= j < |rs| => ReadLine(table, rs[j]))
  }

  /** A recognised line whose grade the row's value undercuts. */
  predicate Undercut(value: map<string, real>, e: Entry)
  {
    e.grade.Some? && Classify(value, e.course, e.grade.value) == Lower
  }

  /** The mismatch such a line reports: course, grade on the line, value in the row. */
  function MismatchOf(value: map<string, real>, e: Entry): Mismatch
    requires Undercut(value, e)
  {
    Mismatch(e.course, e.grade.value, value[e.course])
  }

  /** Some line of `es` reports the mismatch `mm`. */
  predicate Reports(value: map<string, real>, es: seq<Entry>, mm: Mismatch)
  {
    exists j :: 0 <= j < |es| && Undercut(value, es[j]) && mm == MismatchOf(value, es[j])
  }

  /** A fact about some line of `es` is one about its first line or about some later line. */
  lemma SomeLineStep(value: map<string, real>, es: seq<Entry>)
    requires |es| > 0
    ensures forall c :: Graded(es, c) <==> (es[0].course == c && es[0].grade.Some?) || Graded(es[1..], c)
    ensures forall mm :: Reports(value, es, mm) <==>
      (Undercut(value, es[0]) && mm == MismatchOf(value, es[0])) || Reports(value, es[1..], mm)
  {
    var tail := es[1..];
    assert forall j :: 0 < j < |es| ==> es[j] == tail[j - 1];
  }

  /** The first pass's found set: exactly the courses of the recognised lines. */
  function FoundCourses(es: seq<Entry>): (found: set<string>)
    ensures forall c :: c in found <==> Graded(es, c)
  {
    if |es| == 0 then {}
    else
      SomeLineStep(map[], es);
      var rest := FoundCourses(es[1..]);
      if es[0].grade.Some? then {es[0].course} + rest else rest
  }

  /** The first pass's mismatch list: what the undercut lines report, and nothing else. */
  function Mismatches(value: map<string, real>, es: seq<Entry>): (ms: seq<Mismatch>)
    ensures forall mm :: mm in ms <==> Reports(value, es, mm)
    ensures |ms| <= |es|
  {
    if |es| == 0 then []
    else
      SomeLineStep(value, es);
      var rest := Mismatches(value, es[1..]);
      if Undercut(value, es[0]) then [MismatchOf(value, es[0])] + rest else rest
  }

  /**
   * The first pass's warnings: one per recognised line whose course has no
   * column (such a line is never a mismatch). Each names a found course the
   * row lacks.
   */
  function Warnings(value: map<string, real>, es: seq<Entry>): (ws: seq<string>)
    ensures forall c :: c in ws <==> Graded(es, c) && c !in value
    ensures |ws| <= |es|
  {
    if |es| == 0 then []
    else
      SomeLineStep(value, es);
      var rest := Warnings(value, es[1..]);
      if es[0].grade.Some? && Classify(value, es[0].course, es[0].grade.value) == NoColumn then
        [es[0].course] + rest
      else rest
  }

  /** A column the row holds a grade in although no recognised line is for it. */
  datatype GhostCourse = GhostCourse(course: string, value: real)

  /**
   * The second pass (vector to Excel): the columns whose value is not -1 and
   * that the first pass did not find, each with its value, in column order.
   */
  function GhostCourses(columns: seq<string>, value: map<string, real>, found: set<string>): (gs: seq<GhostCourse>)
    requires forall c :: c in columns ==> c in value
    ensures forall g :: g in gs <==>
      g.course in columns && g.value == value[g.course] && g.value != NotTaken && g.course !in found
    ensures |gs| <= |columns|
  {
    if |columns| == 0 then []
    else
      var c := columns[0];
      var rest := GhostCourses(columns[1..], value, found);
      assert forall c' :: c' in columns <==> c' == c || c' in columns[1..];
      if value[c] != NotTaken && c !in found then [GhostCourse(c, value[c])] + rest else rest
  }

  /** The checker's whole result: the mismatch list, the warnings, and the ghost list. */
  datatype Report = Report(mismatches: seq<Mismatch>, warnings: seq<string>, ghosts: seq<GhostCourse>)

  /** Neither list has an entry: the verdict "fully consistent". */
  predicate FullyConsistent(r: Report)
  {
    |r.mismatches| == 0 && |r.ghosts| == 0
  }

  /**
   * Both passes over already-read lines. The mismatch list is empty exactly
   * when the row undercuts no recognised line, the warnings exactly when
   * every recognised line's course is a column, and the ghost list exactly
   * when every column with a value other than -1 has a recognised line.
   */
  function Check(v: StudentVector, es: seq<Entry>): (r: Report)
    requires ValidVector(v)
    ensures forall mm :: mm in r.mismatches <==> Reports(v.value, es, mm)
    ensures forall c :: c in r.warnings <==> Graded(es, c) && c !in v.columns
    ensures forall g :: g in r.ghosts <==>
      g.course in v.columns && g.value == v.value[g.course] && g.value != NotTaken && !Graded(es, g.course)
    ensures |r.mismatches| == 0 <==> forall j :: 0 <= j < |es| ==> !Undercut(v.value, es[j])
    ensures |r.warnings| == 0 <==> forall j :: 0 <= j < |es| && es[j].grade.Some? ==> es[j].course in v.columns
    ensures |r.ghosts| == 0 <==> forall c :: c in v.columns && v.value[c] != NotTaken ==> Graded(es, c)
    ensures FullyConsistent(r) <==>
      && (forall j :: 0 <= j < |es| ==> !Undercut(v.value, es[j]))
      && (forall c :: c in v.columns && v.value[c] != NotTaken ==> Graded(es, c))
  {
    var r := Report(Mismatches(v.value, es), Warnings(v.value, es), GhostCourses(v.columns, v.value, FoundCourses(es)));
    ListsEmptyIff(v, es, r);
    r
  }

  /** Each list is empty exactly when no line or column gives it an entry. */
  lemma ListsEmptyIff(v: StudentVector, es: seq<Entry>, r: Report)
    requires ValidVector(v)
    requires forall mm :: mm in r.mismatches <==> Reports(v.value, es, mm)
    requires forall c :: c in r.warnings <==> Graded(es, c) && c !in v.columns
    requires forall g :: g in r.ghosts <==>
      g.course in v.columns && g.value == v.value[g.course] && g.value != NotTaken && !Graded(es, g.course)
    ensures |r.mismatches| == 0 <==> forall j :: 0 <= j < |es| ==> !Undercut(v.value, es[j])
    ensures |r.warnings| == 0 <==> forall j :: 0 <= j < |es| && es[j].grade.Some? ==> es[j].course in v.columns
    ensures |r.ghosts| == 0 <==> forall c :: c in v.columns && v.value[c] != NotTaken ==> Graded(es, c)
  {
    if |r.mismatches| > 0 {
      assert r.mismatches[0] in r.mismatches;
    }
    if |r.warnings| > 0 {
      assert r.warnings[0] in r.warnings;
    }
    if |r.ghosts| > 0 {
      assert r.ghosts[0] in r.ghosts;
    }
    forall j | 0 <= j < |es| && Undercut(v.value, es[j])
      ensures |r.mismatches| > 0
    {
      assert MismatchOf(v.value, es[j]) in r.mismatches;
    }
    forall j | 0 <= j < |es| && es[j].grade.Some? && es[j].course !in v.columns
      ensures |r.warnings| > 0
    {
      assert es[j].course in r.warnings;
    }
    forall c | c in v.columns && v.value[c] != NotTaken && !Graded(es, c)
      ensures |r.ghosts| > 0
    {
      assert GhostCourse(c, v.value[c]) in r.ghosts;
    }
  }

  /** `verify_bidirectional` once the row and the transcript are loaded, with grade table `table`. */
  function Verify(table: map<string, real>, v: StudentVector, rs: seq<Record>): (r: Report)
    requires ValidVector(v)
    ensures FullyConsistent(r) <==>
      && (forall j :: 0 <= j < |rs| && CheckerGrade(table, rs[j].grade).Some? ==>
            Classify(v.value, CourseKey(rs[j].code), CheckerGrade(table, rs[j].grade).value) != Lower)
      && (forall c :: c in v.columns && v.value[c] != NotTaken ==> FindsLine(table, rs, c))
  {
    VerifyMeaning(table, v, rs);
    Check(v, ReadLines(table, rs))
  }

  /** Some line of `rs` has a grade in `table` and the course key `c`. */
  predicate FindsLine(table: map<string, real>, rs: seq<Record>, c: string)
  {
    exists j :: 0 <= j < |rs| && CheckerGrade(table, rs[j].grade).Some? && CourseKey(rs[j].code) == c
  }

  lemma FoundIffLine(table: map<string, real>, rs: seq<Record>, c: string)
    ensures Graded(ReadLines(table, rs), c) <==> FindsLine(table, rs, c)
  {
    var es := ReadLines(table, rs);
    if FindsLine(table, rs, c) {
      var j :| 0 <= j < |rs| && CheckerGrade(table, rs[j].grade).Some? && CourseKey(rs[j].code) == c;
      assert es[j].course == c && es[j].grade.Some?;
    }
  }

  lemma VerifyMeaning(table: map<string, real>, v: StudentVector, rs: seq<Record>)
    requires ValidVector(v)
    ensures FullyConsistent(Check(v, ReadLines(table, rs))) <==>
      && (forall j :: 0 <= j < |rs| && CheckerGrade(table, rs[j].grade).Some? ==>
            Classify(v.value, CourseKey(rs[j].code), CheckerGrade(table, rs[j].grade).value) != Lower)
      && (forall c :: c in v.columns && v.value[c] != NotTaken ==> FindsLine(table, rs, c))
  {
    var es := ReadLines(table, rs);
    forall c
      ensures Graded(es, c) <==> FindsLine(table, rs, c)
    {
      FoundIffLine(table, rs, c);
    }
    forall j | 0 <= j < |rs|
      ensures Undercut(v.value, es[j]) <==>
        CheckerGrade(table, rs[j].grade).Some? &&
        Classify(v.value, CourseKey(rs[j].code), CheckerGrade(table, rs[j].grade).value) == Lower
    {
      assert es[j].grade == CheckerGrade(table, rs[j].grade) && es[j].course == CourseKey(rs[j].code);
    }
    var r := Check(v, es);
    assert FullyConsistent(r) <==>
      && (forall j :: 0 <= j < |es| ==> !Undercut(v.value, es[j]))
      && (forall c :: c in v.columns && v.value[c] != NotTaken ==> Graded(es, c));
  }
}
