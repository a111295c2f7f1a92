/**
 * The generator (main.py): each student's transcript is reduced to one
 * best grade per normalised course, and all students are pivoted into a
 * matrix with sorted columns and -1 in every cell without a grade.
 */
module Transcript {
  import opened Options
  import opened Text
  import opened Ordering
  import opened Grades
  import opened Courses

  /** The course-code and letter-grade column headings a transcript must have. */
  const CodeColumn: string := "Ders Kodu"
  const GradeColumn: string := "Harf Notu"

  /** The fill value of a matrix cell that holds no grade. */
  const NotTaken: real := -1.0

  /**
   * A cell of the course-code column: empty (NaN), or the text `str()`
   * gives for it.
   */
  datatype CodeCell = MissingCode | Code(text: string)

  /** One transcript line: its course-code cell and its letter-grade cell. */
  datatype Record = Record(code: CodeCell, grade: GradeCell)

  /** A student's spreadsheet: unreadable, or a header row and its lines. */
  datatype Sheet = Unreadable | Table(header: seq<string>, records: seq<Record>)

  /** A transcript file; `id` is its file name without the extension. */
  datatype StudentFile = StudentFile(id: string, sheet: Sheet)

  /** A line after decoding: normalised course code and decoded grade (None for NaN). */
  datatype Entry = Entry(course: string, grade: Option<real>)

  /** A student whose transcript was read, with its decoded lines. */
  datatype Processed = Processed(id: string, entries: seq<Entry>)

  /**
   * The feature matrix: row labels and column labels in output order, and
   * the cell of student `id` and course `c` at `cells[id][c]`.
   */
  datatype Matrix = Matrix(students: seq<string>, columns: seq<string>, cells: map<string, map<string, real>>)

  /** How a run ends: no files at all, no file usable, or a written matrix. */
  datatype Outcome = NoInputFiles | NothingProcessed | Produced(matrix: Matrix)

  /** `str(cell)`: an empty cell becomes the text "nan". */
  function CodeText(c: CodeCell): string
  {
    match c
    case MissingCode => "nan"
    case Code(t) => t
  }

  /** The key a line is grouped under. */
  function CourseKey(c: CodeCell): string
  {
    NormalizeCourse(CodeText(c))
  }

  function Decode(r: Record): Entry
  {
    Entry(CourseKey(r.code), CleanGrade(r.grade))
  }

  function DecodeAll(rs: seq<Record>): (es: seq<Entry>)
    ensures |es| == |rs|
    ensures forall i :: 0 <= i < |rs| ==> es[i] == Decode(rs[i])
  {
    seq(|rs|, i requires 0 <= i < |rs| => Decode(rs[i]))
  }

  /** The header has a column called `name` once its label is stripped. */
  predicate HasColumn(header: seq<string>, name: string)
  {
    exists i :: 0 <= i < |header| && Trim(header[i]) == name
  }

  /**
   * A student's decoded lines, or None when the file is skipped: it could
   * not be read, or it lacks the course-code or the letter-grade column.
   */
  function StudentEntries(f: StudentFile): Option<seq<Entry>>
  {
    match f.sheet
    case Unreadable => None
    case Table(header, records) =>
      if HasColumn(header, CodeColumn) && HasColumn(header, GradeColumn) then Some(DecodeAll(records))
      else None
  }

  // ---------------------------------------------------------------------------
  // Group by course, keep the maximum grade
  // ---------------------------------------------------------------------------

  /** Some line of `es` is for `course`. */
  predicate Mentions(es: seq<Entry>, course: string)
  {
    exists i :: 0 <= i < |es| && es[i].course == course
  }

  /** Some line of `es` for `course` has a decoded grade. */
  predicate Graded(es: seq<Entry>, course: string)
  {
    exists i :: 0 <= i < |es| && es[i].course == course && es[i].grade.Some?
  }

  /**
   * `g` is `groupby(course).max()` of `es`: one key per course mentioned;
   * its value is None when no line for it has a grade, and otherwise a grade
   * one of its lines has that no graded line for it exceeds.
   */
  ghost predicate IsGroupMax(es: seq<Entry>, g: map<string, Option<real>>)
  {
    && (forall c :: c in g <==> Mentions(es, c))
    && (forall c :: c in g ==> (g[c].Some? <==> Graded(es, c)))
    && (forall c :: c in g && g[c].Some? ==>
          exists i :: 0 <= i < |es| && es[i].course == c && es[i].grade == g[c])
    && (forall i :: 0 <= i < |es| && es[i].grade.Some? ==>
          es[i].course in g && g[es[i].course].Some? && es[i].grade.value <= g[es[i].course].value)
  }

  /** The larger of two optional grades; a missing grade never wins. */
  function Max(a: Option<real>, b: Option<real>): Option<real>
  {
    match (a, b)
    case (None, _) => b
    case (_, None) => a
    case (Some(x), Some(y)) => Some(if x >= y then x else y)
  }

  /** One student's `groupby('Ders Kodu')['Numeric_Grade'].max()`. */
  function GroupMax(es: seq<Entry>): (g: map<string, Option<real>>)
    ensures IsGroupMax(es, g)
  {
    if |es| == 0 then map[]
    else
      var init := es[..|es| - 1];
      var e := es[|es| - 1];
      var prev := GroupMax(init);
      assert es == init + [e];
      GroupMaxStep(init, e, prev);
      Absorb(prev, e)
  }

  /** The group maxima after one more line: its course's value becomes the larger of the two. */
  function Absorb(prev: map<string, Option<real>>, e: Entry): map<string, Option<real>>
  {
    prev[e.course := Max(if e.course in prev then prev[e.course] else None, e.grade)]
  }

  /** Folding one more line into the group maxima keeps them the group maxima. */
  lemma GroupMaxStep(init: seq<Entry>, e: Entry, prev: map<string, Option<real>>)
    requires IsGroupMax(init, prev)
    ensures IsGroupMax(init + [e], Absorb(prev, e))
  {
    StepKeys(init, e, prev);
    StepGraded(init, e, prev);
    StepWitness(init, e, prev);
    StepBound(init, e, prev);
  }

  lemma StepKeys(init: seq<Entry>, e: Entry, prev: map<string, Option<real>>)
    requires IsGroupMax(init, prev)
    ensures forall c :: c in Absorb(prev, e) <==> Mentions(init + [e], c)
  {
    var es := init + [e];
    forall c
      ensures c in Absorb(prev, e) <==> Mentions(es, c)
    {
      if Mentions(init, c) {
        var i :| 0 <= i < |init| && init[i].course == c;
        assert es[i].course == c;
      }
      if Mentions(es, c) {
        var i :| 0 <= i < |es| && es[i].course == c;
        if i < |init| { assert init[i].course == c; }
      }
      assert es[|init|] == e;
    }
  }

  lemma StepGraded(init: seq<Entry>, e: Entry, prev: map<string, Option<real>>)
    requires IsGroupMax(init, prev)
    ensures forall c :: c in Absorb(prev, e) ==> (Absorb(prev, e)[c].Some? <==> Graded(init + [e], c))
  {
    var es := init + [e];
    var g := Absorb(prev, e);
    forall c | c in g
      ensures g[c].Some? <==> Graded(es, c)
    {
      if Graded(init, c) {
        var i :| 0 <= i < |init| && init[i].course == c && init[i].grade.Some?;
        assert es[i].course == c && es[i].grade.Some?;
      }
      if Graded(es, c) {
        var i :| 0 <= i < |es| && es[i].course == c && es[i].grade.Some?;
        if i < |init| { assert init[i].course == c && init[i].grade.Some?; }
      }
      assert es[|init|] == e;
    }
  }

  lemma StepWitness(init: seq<Entry>, e: Entry, prev: map<string, Option<real>>)
    requires IsGroupMax(init, prev)
    ensures var g := Absorb(prev, e); forall c :: c in g && g[c].Some? ==>
      exists i :: 0 <= i < |init + [e]| && (init + [e])[i].course == c && (init + [e])[i].grade == g[c]
  {
    var es := init + [e];
    var g := Absorb(prev, e);
    forall c | c in g && g[c].Some?
      ensures exists i :: 0 <= i < |es| && es[i].course == c && es[i].grade == g[c]
    {
      if c == e.course && g[c] == e.grade {
        assert es[|init|].course == c && es[|init|].grade == g[c];
      } else {
        assert c in prev && prev[c] == g[c];
        var i :| 0 <= i < |init| && init[i].course == c && init[i].grade == prev[c];
        assert es[i].course == c && es[i].grade == g[c];
      }
    }
  }

  lemma StepBound(init: seq<Entry>, e: Entry, prev: map<string, Option<real>>)
    requires IsGroupMax(init, prev)
    ensures var es, g := init + [e], Absorb(prev, e); forall i :: 0 <= i < |es| && es[i].grade.Some? ==>
      es[i].course in g && g[es[i].course].Some? && es[i].grade.value <= g[es[i].course].value
  {
    var es := init + [e];
    var g := Absorb(prev, e);
    forall i | 0 <= i < |es| && es[i].grade.Some?
      ensures es[i].course in g && g[es[i].course].Some? && es[i].grade.value <= g[es[i].course].value
    {
      if i < |init| {
        assert init[i] == es[i];
      }
    }
  }


  /** The matrix cell for `course` given a student's group maxima: the maximum, or -1. */
  function Cell(g: map<string, Option<real>>, course: string): real
  {
    if course in g && g[course].Some? then g[course].value else NotTaken
  }

  // ---------------------------------------------------------------------------
  // All students, and the pivot
  // ---------------------------------------------------------------------------

  predicate DistinctIds(files: seq<StudentFile>)
  {
    forall i, j :: 0 <= i < j < |files| ==> files[i].id != files[j].id
  }

  predicate DistinctProcessed(ps: seq<Processed>)
  {
    forall i, j :: 0 <= i < j < |ps| ==> ps[i].id != ps[j].id
  }

  /** What reading one file gives: its name, and its decoded lines unless it is skipped. */
  datatype Reading = Reading(id: string, entries: Option<seq<Entry>>)

  function ReadFile(f: StudentFile): Reading
  {
    Reading(f.id, StudentEntries(f))
  }

  function ReadAll(files: seq<StudentFile>): (rds: seq<Reading>)
    ensures |rds| == |files|
    ensures forall i :: 0 <= i < |files| ==> rds[i] == ReadFile(files[i])
  {
    seq(|files|, i requires 0 <= i < |files| => ReadFile(files[i]))
  }

  /** `p` is what the reading `rd` yields. */
  predicate Yields(rd: Reading, p: Processed)
  {
    p.id == rd.id && rd.entries == Some(p.entries)
  }

  /** What one reading contributes to the loop: nothing when its file is skipped. */
  function Kept(rd: Reading): seq<Processed>
  {
    match rd.entries
    case None => []
    case Some(es) => [Processed(rd.id, es)]
  }

  /** The per-file loop over readings: every usable one in turn, skipped ones left out. */
  function Collect(rds: seq<Reading>): (ps: seq<Processed>)
    ensures |ps| <= |rds|
  {
    if |rds| == 0 then [] else Kept(rds[0]) + Collect(rds[1..])
  }

  /** The per-file loop: every usable file in turn, skipped files left out. */
  function ProcessAll(files: seq<StudentFile>): (ps: seq<Processed>)
    ensures |ps| <= |files|
  {
    Collect(ReadAll(files))
  }

  /** What reading a usable file yields. */
  function ProcessedOf(f: StudentFile): Processed
    requires StudentEntries(f).Some?
  {
    Processed(f.id, StudentEntries(f).value)
  }

  /** The collected students are exactly what the usable readings yield. */
  lemma {:induction false} CollectMembers(rds: seq<Reading>)
    ensures forall p :: p in Collect(rds) ==> exists i :: 0 <= i < |rds| && Yields(rds[i], p)
    ensures forall i :: 0 <= i < |rds| && rds[i].entries.Some? ==> Processed(rds[i].id, rds[i].entries.value) in Collect(rds)
  {
    if |rds| > 0 {
      var tail := rds[1..];
      CollectMembers(tail);
      var head := Kept(rds[0]);
      var rest := Collect(tail);
      assert Collect(rds) == head + rest;
      forall p | p in Collect(rds)
        ensures exists i :: 0 <= i < |rds| && Yields(rds[i], p)
      {
        if p in rest {
          var i :| 0 <= i < |tail| && Yields(tail[i], p);
          assert tail[i] == rds[i + 1];
        } else {
          assert Yields(rds[0], p);
        }
      }
      forall i | 0 <= i < |rds| && rds[i].entries.Some?
        ensures Processed(rds[i].id, rds[i].entries.value) in Collect(rds)
      {
        if i > 0 {
          assert tail[i - 1] == rds[i];
        }
      }
    }
  }

  /**
   * The processed students are exactly the usable files: each comes from a
   * file, and each file that is not skipped yields one.
   */
  lemma ProcessAllMembers(files: seq<StudentFile>)
    ensures forall p :: p in ProcessAll(files) ==> exists i :: 0 <= i < |files| && Yields(ReadFile(files[i]), p)
    ensures forall i :: 0 <= i < |files| && StudentEntries(files[i]).Some? ==> ProcessedOf(files[i]) in ProcessAll(files)
  {
    var rds := ReadAll(files);
    CollectMembers(rds);
    forall p | p in ProcessAll(files)
      ensures exists i :: 0 <= i < |files| && Yields(ReadFile(files[i]), p)
    {
      var i :| 0 <= i < |rds| && Yields(rds[i], p);
      assert Yields(ReadFile(files[i]), p);
    }
    forall i | 0 <= i < |files| && StudentEntries(files[i]).Some?
      ensures ProcessedOf(files[i]) in ProcessAll(files)
    {
      assert ProcessedOf(files[i]) == Processed(rds[i].id, rds[i].entries.value);
    }
  }

  predicate DistinctReadings(rds: seq<Reading>)
  {
    forall i, j :: 0 <= i < j < |rds| ==> rds[i].id != rds[j].id
  }

  /** Readings with distinct names give distinct collected students. */
  lemma {:induction false} CollectKeepsDistinct(rds: seq<Reading>)
    requires DistinctReadings(rds)
    ensures DistinctProcessed(Collect(rds))
  {
    if |rds| > 0 {
      var tail := rds[1..];
      assert DistinctReadings(tail) by {
        forall a, b | 0 <= a < b < |tail|
          ensures tail[a].id != tail[b].id
        {
          assert tail[a] == rds[a + 1] && tail[b] == rds[b + 1];
        }
      }
      CollectKeepsDistinct(tail);
      CollectMembers(tail);
      var rest := Collect(tail);
      var ps := Collect(rds);
      forall k | 0 <= k < |rest|
        ensures rest[k].id != rds[0].id
      {
        assert rest[k] in rest;
        var i :| 0 <= i < |tail| && Yields(tail[i], rest[k]);
        assert tail[i] == rds[i + 1];
      }
      if rds[0].entries.None? {
        assert ps == rest;
      } else {
        assert ps == [Processed(rds[0].id, rds[0].entries.value)] + rest;
        forall a, b | 0 <= a < b < |ps|
          ensures ps[a].id != ps[b].id
        {
          assert ps[b] == rest[b - 1];
          if a > 0 {
            assert ps[a] == rest[a - 1];
          }
        }
      }
    }
  }

  /** Distinct file names give distinct processed students. */
  lemma ProcessAllKeepsDistinct(files: seq<StudentFile>)
    requires DistinctIds(files)
    ensures DistinctProcessed(ProcessAll(files))
  {
    var rds := ReadAll(files);
    assert DistinctReadings(rds) by {
      forall a, b | 0 <= a < b < |rds|
        ensures rds[a].id != rds[b].id
      {
        assert rds[a].id == files[a].id && rds[b].id == files[b].id;
      }
    }
    CollectKeepsDistinct(rds);
  }

  function CoursesOf(es: seq<Entry>): (cs: seq<string>)
    ensures forall c :: c in cs <==> Mentions(es, c)
  {
    var cs := seq(|es|, i requires 0 <= i < |es| => es[i].course);
    assert forall i :: 0 <= i < |es| ==> cs[i] == es[i].course;
    cs
  }

  /** Every course any processed student mentions, with repeats. */
  function AllCourses(ps: seq<Processed>): (cs: seq<string>)
    ensures forall c :: c in cs <==> exists k :: 0 <= k < |ps| && Mentions(ps[k].entries, c)
  {
    if |ps| == 0 then []
    else
      var rest := AllCourses(ps[1..]);
      assert forall k :: 1 <= k < |ps| ==> ps[1..][k - 1] == ps[k];
      CoursesOf(ps[0].entries) + rest
  }

  /** The students that reach the pivot: those with at least one line. */
  function TakenIds(ps: seq<Processed>): (ids: seq<string>)
    ensures forall id :: id in ids <==> exists k :: 0 <= k < |ps| && ps[k].id == id && |ps[k].entries| > 0
  {
    if |ps| == 0 then []
    else
      var rest := TakenIds(ps[1..]);
      assert forall k :: 1 <= k < |ps| ==> ps[1..][k - 1] == ps[k];
      (if |ps[0].entries| > 0 then [ps[0].id] else []) + rest
  }

  /** The lines of the student called `id`. */
  function EntriesOf(ps: seq<Processed>, id: string): (es: seq<Entry>)
    requires DistinctProcessed(ps)
    ensures forall k :: 0 <= k < |ps| && ps[k].id == id ==> es == ps[k].entries
  {
    if |ps| == 0 then []
    else if ps[0].id == id then ps[0].entries
    else
      assert forall k :: 1 <= k < |ps| ==> ps[1..][k - 1] == ps[k];
      EntriesOf(ps[1..], id)
  }

  /** Rows and columns ascending, one cell per column in every row. */
  ghost predicate WellShaped(m: Matrix)
  {
    && Sorted(m.students)
    && Sorted(m.columns)
    && (forall id :: id in m.cells <==> id in m.students)
    && (forall id, c :: id in m.cells ==> (c in m.cells[id] <==> c in m.columns))
  }

  /**
   * `m` is the pivot of `ps`: one column per course any student mentions,
   * one row per student with at least one line, and in each cell that
   * student's group maximum, or -1.
   */
  ghost predicate Pivots(ps: seq<Processed>, m: Matrix)
  {
    && WellShaped(m)
    && (forall c :: c in m.columns <==> exists k :: 0 <= k < |ps| && Mentions(ps[k].entries, c))
    && (forall id :: id in m.students <==> exists k :: 0 <= k < |ps| && ps[k].id == id && |ps[k].entries| > 0)
    && (forall k, c :: 0 <= k < |ps| && |ps[k].entries| > 0 && c in m.columns ==>
          ps[k].id in m.cells && m.cells[ps[k].id][c] == Cell(GroupMax(ps[k].entries), c))
  }

  /** `pivot`, then `fillna(-1)`, then the columns in ascending order. */
  function Assemble(ps: seq<Processed>): (m: Matrix)
    requires DistinctProcessed(ps)
    ensures Pivots(ps, m)
  {
    var columns := SortedSet(AllCourses(ps));
    var students := SortedSet(TakenIds(ps));
    var cells := map id | id in students :: map c | c in columns :: Cell(GroupMax(EntriesOf(ps, id)), c);
    var m := Matrix(students, columns, cells);
    AssembledCells(ps, m);
    m
  }

  /** The cells built row by row from each student's lines are the ones the pivot calls for. */
  lemma AssembledCells(ps: seq<Processed>, m: Matrix)
    requires DistinctProcessed(ps)
    requires Sorted(m.students) && Sorted(m.columns)
    requires forall c :: c in m.columns <==> c in AllCourses(ps)
    requires forall id :: id in m.students <==> id in TakenIds(ps)
    requires m.cells == map id | id in m.students :: map c | c in m.columns :: Cell(GroupMax(EntriesOf(ps, id)), c)
    ensures Pivots(ps, m)
  {
    forall k, c | 0 <= k < |ps| && |ps[k].entries| > 0 && c in m.columns
      ensures ps[k].id in m.cells && m.cells[ps[k].id][c] == Cell(GroupMax(ps[k].entries), c)
    {
      assert ps[k].id in TakenIds(ps);
      assert EntriesOf(ps, ps[k].id) == ps[k].entries;
    }
  }

  /** `process_student_files`. */
  function Run(files: seq<StudentFile>): (o: Outcome)
    requires DistinctIds(files)
    ensures o.NoInputFiles? <==> |files| == 0
    ensures o.NothingProcessed? <==> |files| > 0 && forall i :: 0 <= i < |files| ==> StudentEntries(files[i]).None?
    ensures o.Produced? ==> Pivots(ProcessAll(files), o.matrix)
  {
    if |files| == 0 then NoInputFiles
    else
      var ps := ProcessAll(files);
      ProcessAllMembers(files);
      if |ps| == 0 then NothingProcessed
      else
        assert ps[0] in ps;
        ProcessAllKeepsDistinct(files);
        Produced(Assemble(ps))
  }

  // ---------------------------------------------------------------------------
  // What the written matrix says
  // ---------------------------------------------------------------------------

  /** The processed student a usable file turns into, and its place in the loop's output. */
  lemma ProcessedIndex(files: seq<StudentFile>, i: int) returns (k: int)
    requires 0 <= i < |files| && StudentEntries(files[i]).Some?
    ensures 0 <= k < |ProcessAll(files)| && ProcessAll(files)[k] == ProcessedOf(files[i])
    ensures ProcessAll(files)[k].id == files[i].id && ProcessAll(files)[k].entries == StudentEntries(files[i]).value
  {
    ProcessAllMembers(files);
    k :| 0 <= k < |ProcessAll(files)| && ProcessAll(files)[k] == ProcessedOf(files[i]);
  }

  /** A pivot has a cell for every column in the row of every student with a line. */
  lemma PivotCell(ps: seq<Processed>, m: Matrix, k: int, c: string)
    requires Pivots(ps, m) && 0 <= k < |ps| && |ps[k].entries| > 0 && c in m.columns
    ensures ps[k].id in m.students && ps[k].id in m.cells && c in m.cells[ps[k].id]
    ensures m.cells[ps[k].id][c] == Cell(GroupMax(ps[k].entries), c)
  {
  }

  /** What a cell computed from the group maxima means in terms of the lines. */
  lemma CellMeaning(es: seq<Entry>, c: string)
    ensures !Graded(es, c) ==> Cell(GroupMax(es), c) == NotTaken
    ensures Graded(es, c) ==>
      && (exists j :: 0 <= j < |es| && es[j].course == c && es[j].grade == Some(Cell(GroupMax(es), c)))
      && (forall j :: 0 <= j < |es| && es[j].course == c && es[j].grade.Some? ==> es[j].grade.value <= Cell(GroupMax(es), c))
  {
    var g := GroupMax(es);
    if Graded(es, c) {
      var j :| 0 <= j < |es| && es[j].course == c && es[j].grade.Some?;
      assert c in g && g[c].Some?;
    }
  }

  /**
   * A usable transcript with at least one line has a row, with a cell for
   * every column. The cell is -1 when no line for that course has a decoded
   * grade; otherwise it is the highest decoded grade among the lines for it.
   */
  lemma GeneratedCell(files: seq<StudentFile>, m: Matrix, i: int, c: string)
    requires 0 <= i < |files| && Pivots(ProcessAll(files), m)
    requires StudentEntries(files[i]).Some? && |StudentEntries(files[i]).value| > 0
    requires c in m.columns
    ensures var es := StudentEntries(files[i]).value;
      && files[i].id in m.students && files[i].id in m.cells && c in m.cells[files[i].id]
      && (!Graded(es, c) ==> m.cells[files[i].id][c] == NotTaken)
      && (Graded(es, c) ==>
           && (exists j :: 0 <= j < |es| && es[j].course == c && es[j].grade == Some(m.cells[files[i].id][c]))
           && (forall j :: 0 <= j < |es| && es[j].course == c && es[j].grade.Some? ==>
                 es[j].grade.value <= m.cells[files[i].id][c]))
  {
    var ps := ProcessAll(files);
    var k := ProcessedIndex(files, i);
    RowCell(ps, m, k, c);
    assert ps[k].id == files[i].id && ps[k].entries == StudentEntries(files[i]).value;
  }

  /** The cell of a pivot row, in terms of that student's lines. */
  lemma RowCell(ps: seq<Processed>, m: Matrix, k: int, c: string)
    requires Pivots(ps, m) && 0 <= k < |ps| && |ps[k].entries| > 0 && c in m.columns
    ensures var es, id := ps[k].entries, ps[k].id;
      && id in m.students && id in m.cells && c in m.cells[id]
      && (!Graded(es, c) ==> m.cells[id][c] == NotTaken)
      && (Graded(es, c) ==>
           && (exists j :: 0 <= j < |es| && es[j].course == c && es[j].grade == Some(m.cells[id][c]))
           && (forall j :: 0 <= j < |es| && es[j].course == c && es[j].grade.Some? ==> es[j].grade.value <= m.cells[id][c]))
  {
    PivotCell(ps, m, k, c);
    CellMeaning(ps[k].entries, c);
  }

  /**
   * A course whose only graded lines are `BL` gets -1, the same cell as a
   * course the student never took: the two cannot be told apart.
   */
  lemma ExemptOnlyLooksNotTaken(files: seq<StudentFile>, m: Matrix, i: int, c: string)
    requires 0 <= i < |files| && Pivots(ProcessAll(files), m)
    requires StudentEntries(files[i]).Some? && |StudentEntries(files[i]).value| > 0
    requires c in m.columns
    requires var es := StudentEntries(files[i]).value;
      forall j :: 0 <= j < |es| && es[j].course == c && es[j].grade.Some? ==> es[j].grade.value == Exempt
    ensures files[i].id in m.cells && c in m.cells[files[i].id] && m.cells[files[i].id][c] == NotTaken
  {
    GeneratedCell(files, m, i, c);
  }

  /** `BL` takes part in the maximum but never beats a real grade: one passed attempt shows through. */
  lemma RealGradeBeatsExempt(files: seq<StudentFile>, m: Matrix, i: int, c: string, j: int)
    requires 0 <= i < |files| && Pivots(ProcessAll(files), m)
    requires StudentEntries(files[i]).Some?
    requires var es := StudentEntries(files[i]).value;
      0 <= j < |es| && es[j].course == c && es[j].grade.Some? && es[j].grade.value >= 0.0
    ensures var es := StudentEntries(files[i]).value;
      && c in m.columns && files[i].id in m.cells
      && m.cells[files[i].id][c] >= es[j].grade.value
      && m.cells[files[i].id][c] != NotTaken
      && exists j' :: 0 <= j' < |es| && es[j'].course == c && es[j'].grade == Some(m.cells[files[i].id][c])
  {
    var es := StudentEntries(files[i]).value;
    var k := ProcessedIndex(files, i);
    assert ProcessAll(files)[k].entries == es;
    assert Mentions(ProcessAll(files)[k].entries, c);
    assert Graded(es, c);
    GeneratedCell(files, m, i, c);
  }

  /**
   * The two language sections of a course share one column: a line coded
   * `base` and a line coded `base` + "E" both count towards the cell of
   * `base`, which holds at least each of their grades.
   */
  lemma SectionsShareColumn(files: seq<StudentFile>, m: Matrix, i: int, j1: int, j2: int, base: string)
    requires 0 <= i < |files| && Pivots(ProcessAll(files), m)
    requires files[i].sheet.Table? && StudentEntries(files[i]).Some?
    requires var rs := files[i].sheet.records; 0 <= j1 < |rs| && 0 <= j2 < |rs|
    requires IsTrimmed(base) && |base| > 0 && IsDigit(base[|base| - 1])
    requires files[i].sheet.records[j1].code == Code(base)
    requires files[i].sheet.records[j2].code == Code(base + "E")
    ensures var rs := files[i].sheet.records;
      && base in m.columns && files[i].id in m.cells
      && (CleanGrade(rs[j1].grade).Some? ==> CleanGrade(rs[j1].grade).value <= m.cells[files[i].id][base])
      && (CleanGrade(rs[j2].grade).Some? ==> CleanGrade(rs[j2].grade).value <= m.cells[files[i].id][base])
  {
    VariantSectionsMerge(base);
    assert CourseKey(Code(base)) == base && CourseKey(Code(base + "E")) == base;
    LineBelowCell(files, m, i, j1);
    LineBelowCell(files, m, i, j2);
  }

  /** Every line of a used transcript has a column, and its decoded grade never exceeds the cell. */
  lemma LineBelowCell(files: seq<StudentFile>, m: Matrix, i: int, j: int)
    requires 0 <= i < |files| && Pivots(ProcessAll(files), m)
    requires files[i].sheet.Table? && StudentEntries(files[i]).Some?
    requires 0 <= j < |files[i].sheet.records|
    ensures var r := files[i].sheet.records[j];
      && CourseKey(r.code) in m.columns && files[i].id in m.cells && CourseKey(r.code) in m.cells[files[i].id]
      && (CleanGrade(r.grade).Some? ==> CleanGrade(r.grade).value <= m.cells[files[i].id][CourseKey(r.code)])
  {
    var es := StudentEntries(files[i]).value;
    var r := files[i].sheet.records[j];
    assert es[j] == Decode(r);
    var k := ProcessedIndex(files, i);
    assert ProcessAll(files)[k].entries == es;
    assert Mentions(ProcessAll(files)[k].entries, CourseKey(r.code));
    GeneratedCell(files, m, i, CourseKey(r.code));
  }

  /** The file a processed student was read from. */
  lemma SourceFile(files: seq<StudentFile>, k: int) returns (i: int)
    requires 0 <= k < |ProcessAll(files)|
    ensures 0 <= i < |files| && Yields(ReadFile(files[i]), ProcessAll(files)[k])
  {
    ProcessAllMembers(files);
    assert ProcessAll(files)[k] in ProcessAll(files);
    i :| 0 <= i < |files| && Yields(ReadFile(files[i]), ProcessAll(files)[k]);
  }

  /** A column comes from a line of some processed student. */
  lemma ColumnSource(ps: seq<Processed>, m: Matrix, c: string) returns (k: int, j: int)
    requires Pivots(ps, m) && c in m.columns
    ensures 0 <= k < |ps| && 0 <= j < |ps[k].entries| && ps[k].entries[j].course == c
  {
    k :| 0 <= k < |ps| && Mentions(ps[k].entries, c);
    j :| 0 <= j < |ps[k].entries| && ps[k].entries[j].course == c;
  }

  /** A row belongs to some processed student with at least one line. */
  lemma RowSource(ps: seq<Processed>, m: Matrix, id: string) returns (k: int)
    requires Pivots(ps, m) && id in m.cells
    ensures 0 <= k < |ps| && ps[k].id == id && |ps[k].entries| > 0
  {
    k :| 0 <= k < |ps| && ps[k].id == id && |ps[k].entries| > 0;
  }

  /** Every column label is a normalised code: stripped, and not ending in digit-then-`E`. */
  lemma ColumnsAreNormalized(files: seq<StudentFile>, m: Matrix)
    requires Pivots(ProcessAll(files), m)
    ensures forall c :: c in m.columns ==> IsTrimmed(c) && !HasVariantSuffix(c)
  {
    var ps := ProcessAll(files);
    forall c | c in m.columns
      ensures IsTrimmed(c) && !HasVariantSuffix(c)
    {
      var k, j := ColumnSource(ps, m, c);
      var i := SourceFile(files, k);
      var r := files[i].sheet.records[j];
      assert c == NormalizeCourse(CodeText(r.code));
      NormalizedIsCanonical(CodeText(r.code));
    }
  }

  /** No transcript the generator uses holds a numeric grade cell. */
  ghost predicate TextGradesOnly(files: seq<StudentFile>)
  {
    forall i, j ::
      0 <= i < |files| && files[i].sheet.Table? && StudentEntries(files[i]).Some? && 0 <= j < |files[i].sheet.records| ==>
      !files[i].sheet.records[j].grade.Numeric?
  }

  /** When every grade cell is text or empty, every cell is -1 or a grade in [0, 4]. */
  lemma CellsInRange(files: seq<StudentFile>, m: Matrix)
    requires Pivots(ProcessAll(files), m)
    requires TextGradesOnly(files)
    ensures forall id, c :: id in m.cells && c in m.cells[id] ==>
      m.cells[id][c] == NotTaken || 0.0 <= m.cells[id][c] <= 4.0
  {
    var ps := ProcessAll(files);
    forall id, c | id in m.cells && c in m.cells[id]
      ensures m.cells[id][c] == NotTaken || 0.0 <= m.cells[id][c] <= 4.0
    {
      var k := RowSource(ps, m, id);
      var i := SourceFile(files, k);
      CellInRange(files, m, i, c);
    }
  }

  /** One cell of a row read from text grades is -1 or a grade in [0, 4]. */
  lemma CellInRange(files: seq<StudentFile>, m: Matrix, i: int, c: string)
    requires 0 <= i < |files| && Pivots(ProcessAll(files), m) && TextGradesOnly(files)
    requires StudentEntries(files[i]).Some? && |StudentEntries(files[i]).value| > 0
    requires c in m.columns
    ensures files[i].id in m.cells && c in m.cells[files[i].id]
    ensures m.cells[files[i].id][c] == NotTaken || 0.0 <= m.cells[files[i].id][c] <= 4.0
  {
    GeneratedCell(files, m, i, c);
    var es := StudentEntries(files[i]).value;
    if Graded(es, c) {
      var rs := files[i].sheet.records;
      var j :| 0 <= j < |es| && es[j].course == c && es[j].grade == Some(m.cells[files[i].id][c]);
      assert !rs[j].grade.Numeric?;
      assert es[j] == Decode(rs[j]);
      TextGradeInRange(rs[j].grade);
    }
  }

  /** A decoded text or empty grade cell is -1 or a grade in [0, 4]. */
  lemma TextGradeInRange(cell: GradeCell)
    requires !cell.Numeric?
    ensures CleanGrade(cell).Some? ==> CleanGrade(cell).value == NotTaken || 0.0 <= CleanGrade(cell).value <= 4.0
  {
  }


  // ---------------------------------------------------------------------------
  // Skipped files, and the order files come in
  // ---------------------------------------------------------------------------

  /** The loop over readings distributes over concatenation. */
  lemma {:induction false} CollectAppend(a: seq<Reading>, b: seq<Reading>)
    ensures Collect(a + b) == Collect(a) + Collect(b)
  {
    if |a| > 0 {
      var ab := a + b;
      assert ab[0] == a[0] && ab[1..] == a[1..] + b;
      CollectAppend(a[1..], b);
      var h := Kept(a[0]);
      assert Collect(ab) == h + (Collect(a[1..]) + Collect(b));
      assert Collect(a) == h + Collect(a[1..]);
    } else {
      assert a + b == b;
    }
  }

  /** The loop over files distributes over concatenation. */
  lemma ProcessAllAppend(a: seq<StudentFile>, b: seq<StudentFile>)
    ensures ProcessAll(a + b) == ProcessAll(a) + ProcessAll(b)
  {
    ReadAllAppend(a, b);
    CollectAppend(ReadAll(a), ReadAll(b));
  }

  /**
   * The loop over a single file: it yields one student exactly when the file
   * is readable and its stripped header has both required columns; that
   * student is named after the file and holds every line, decoded.
   */
  lemma SingleFile(f: StudentFile)
    ensures |ProcessAll([f])| <= 1
    ensures |ProcessAll([f])| == 1 <==>
      f.sheet.Table? && HasColumn(f.sheet.header, CodeColumn) && HasColumn(f.sheet.header, GradeColumn)
    ensures |ProcessAll([f])| == 1 ==>
      f.sheet.Table? && ProcessAll([f])[0] == Processed(f.id, DecodeAll(f.sheet.records))
  {
    var rds := ReadAll([f]);
    assert rds == [ReadFile(f)];
    assert rds[1..] == [];
  }

  /** Dropping one file keeps the remaining names distinct. */
  lemma RemoveKeepsDistinct(files: seq<StudentFile>, i: int)
    requires DistinctIds(files) && 0 <= i < |files|
    ensures DistinctIds(files[..i] + files[i + 1..])
  {
    var rest := files[..i] + files[i + 1..];
    forall a, b | 0 <= a < b < |rest|
      ensures rest[a].id != rest[b].id
    {
      var a' := if a < i then a else a + 1;
      var b' := if b < i then b else b + 1;
      assert rest[a] == files[a'] && rest[b] == files[b'];
    }
  }

  /** A skipped reading contributes nothing to the loop's output. */
  lemma CollectSkips(a: seq<Reading>, rd: Reading, b: seq<Reading>)
    requires rd.entries.None?
    ensures Collect(a + [rd] + b) == Collect(a + b)
  {
    var rb := [rd] + b;
    assert rb[0] == rd && rb[1..] == b;
    assert Collect(rb) == Collect(b);
    assert a + [rd] + b == a + rb;
    CollectAppend(a, rb);
    CollectAppend(a, b);
  }

  /** A skipped file contributes nothing to the loop's output. */
  lemma SkippedFileNotProcessed(files: seq<StudentFile>, i: int)
    requires 0 <= i < |files| && StudentEntries(files[i]).None?
    ensures ProcessAll(files) == ProcessAll(files[..i] + files[i + 1..])
  {
    var pre, post := files[..i], files[i + 1..];
    assert files == pre + ([files[i]] + post);
    ReadAllAppend(pre, [files[i]] + post);
    ReadAllAppend([files[i]], post);
    assert ReadAll([files[i]]) == [ReadFile(files[i])];
    assert ReadAll(files) == ReadAll(pre) + [ReadFile(files[i])] + ReadAll(post);
    ReadAllAppend(pre, post);
    CollectSkips(ReadAll(pre), ReadFile(files[i]), ReadAll(post));
  }

  /** Reading files one after another distributes over concatenation. */
  lemma ReadAllAppend(a: seq<StudentFile>, b: seq<StudentFile>)
    ensures ReadAll(a + b) == ReadAll(a) + ReadAll(b)
  {
    var l, r := ReadAll(a + b), ReadAll(a) + ReadAll(b);
    forall k | 0 <= k < |l|
      ensures l[k] == r[k]
    {
      if k < |a| {
        assert (a + b)[k] == a[k];
      } else {
        assert (a + b)[k] == b[k - |a|];
      }
    }
  }

  /**
   * A skipped file (unreadable, or missing a required column) leaves no
   * trace: the run over the other files has the same outcome, as long as
   * some other file remains.
   */
  lemma SkippedFileChangesNothing(files: seq<StudentFile>, i: int)
    requires DistinctIds(files) && 0 <= i < |files| && |files| > 1
    requires StudentEntries(files[i]).None?
    ensures DistinctIds(files[..i] + files[i + 1..])
    ensures Run(files) == Run(files[..i] + files[i + 1..])
  {
    RemoveKeepsDistinct(files, i);
    SkippedFileNotProcessed(files, i);
  }

  /** Processed students with the same members mention the same courses. */
  lemma SameMembersSameCourses(ps1: seq<Processed>, ps2: seq<Processed>)
    requires forall p :: p in ps1 ==> p in ps2
    ensures forall c :: c in AllCourses(ps1) ==> c in AllCourses(ps2)
  {
    forall c | c in AllCourses(ps1)
      ensures c in AllCourses(ps2)
    {
      var k :| 0 <= k < |ps1| && Mentions(ps1[k].entries, c);
      assert ps1[k] in ps2;
      var k' :| 0 <= k' < |ps2| && ps2[k'] == ps1[k];
    }
  }

  /** Processed students with the same members have the same rows. */
  lemma SameMembersSameRows(ps1: seq<Processed>, ps2: seq<Processed>)
    requires forall p :: p in ps1 ==> p in ps2
    ensures forall id :: id in TakenIds(ps1) ==> id in TakenIds(ps2)
  {
    forall id | id in TakenIds(ps1)
      ensures id in TakenIds(ps2)
    {
      var k :| 0 <= k < |ps1| && ps1[k].id == id && |ps1[k].entries| > 0;
      assert ps1[k] in ps2;
      var k' :| 0 <= k' < |ps2| && ps2[k'] == ps1[k];
    }
  }

  /** Processed students with the same members give each row the same lines. */
  lemma SameMembersSameLines(ps1: seq<Processed>, ps2: seq<Processed>, id: string)
    requires DistinctProcessed(ps1) && DistinctProcessed(ps2)
    requires forall p :: p in ps1 ==> p in ps2
    requires id in TakenIds(ps1)
    ensures EntriesOf(ps1, id) == EntriesOf(ps2, id)
  {
    var k :| 0 <= k < |ps1| && ps1[k].id == id && |ps1[k].entries| > 0;
    assert ps1[k] in ps2;
    var k' :| 0 <= k' < |ps2| && ps2[k'] == ps1[k];
  }

  /** Two sets of processed students with the same members pivot to the same matrix. */
  lemma AssembleDependsOnlyOnMembers(ps1: seq<Processed>, ps2: seq<Processed>)
    requires DistinctProcessed(ps1) && DistinctProcessed(ps2)
    requires forall p :: p in ps1 <==> p in ps2
    ensures Assemble(ps1) == Assemble(ps2)
  {
    SameMembersSameCourses(ps1, ps2);
    SameMembersSameCourses(ps2, ps1);
    SortedSetDependsOnlyOnElements(AllCourses(ps1), AllCourses(ps2));
    SameMembersSameRows(ps1, ps2);
    SameMembersSameRows(ps2, ps1);
    SortedSetDependsOnlyOnElements(TakenIds(ps1), TakenIds(ps2));
    var students := SortedSet(TakenIds(ps1));
    forall id | id in students
      ensures EntriesOf(ps1, id) == EntriesOf(ps2, id)
    {
      SameMembersSameLines(ps1, ps2, id);
    }
  }

  /** Both runs see the same usable students when they see the same files. */
  lemma SameFilesSameStudents(f1: seq<StudentFile>, f2: seq<StudentFile>)
    requires forall f :: f in f1 <==> f in f2
    ensures forall p :: p in ProcessAll(f1) ==> p in ProcessAll(f2)
  {
    var ps1 := ProcessAll(f1);
    forall p | p in ps1
      ensures p in ProcessAll(f2)
    {
      var k :| 0 <= k < |ps1| && ps1[k] == p;
      var i := SourceFile(f1, k);
      assert f1[i] in f2;
      var j :| 0 <= j < |f2| && f2[j] == f1[i];
      var k' := ProcessedIndex(f2, j);
    }
  }

  /**
   * The output does not depend on the order the directory lists the files
   * in: the same files, in any order, give the same outcome.
   */
  lemma RunIgnoresFileOrder(f1: seq<StudentFile>, f2: seq<StudentFile>)
    requires DistinctIds(f1) && DistinctIds(f2)
    requires forall f :: f in f1 <==> f in f2
    ensures Run(f1) == Run(f2)
  {
    if |f1| > 0 { assert f1[0] in f2; }
    if |f2| > 0 { assert f2[0] in f1; }
    SameFilesSameStudents(f1, f2);
    SameFilesSameStudents(f2, f1);
    var ps1 := ProcessAll(f1);
    var ps2 := ProcessAll(f2);
    if |ps1| > 0 { assert ps1[0] in ps2; }
    if |ps2| > 0 { assert ps2[0] in ps1; }
    if |ps1| > 0 {
      ProcessAllKeepsDistinct(f1);
      ProcessAllKeepsDistinct(f2);
      AssembleDependsOnlyOnMembers(ps1, ps2);
    }
  }
}
