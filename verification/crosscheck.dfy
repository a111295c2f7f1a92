/**
 * What the two checkers report when they are run on a matrix the generator
 * wrote, for a student whose transcript the generator used. The checkers
 * are meant to find nothing wrong with such a row. The bidirectional
 * checker never reports a mismatch there. It reports no ghost either as
 * long as its table recognises every line the generator decodes to a real
 * grade: with the reduced table that means a transcript without `+` grades,
 * with the generator's own table any transcript without numeric grade
 * cells. With the reduced table it does report a course as a ghost when
 * the only lines for it that the generator decodes carry a `+` grade.
 */
module CrossCheck {
  import opened Options
  import opened Text
  import opened Grades
  import opened Courses
  import opened Transcript
  import opened RowCheck
  import opened Bidirectional
  import opened OneWay

  /**
   * File `i` of `files` was used by the generator, its transcript has at
   * least one line, and `m` is the matrix written for `files`.
   */
  ghost predicate HasRow(files: seq<StudentFile>, m: Matrix, i: int)
  {
    && 0 <= i < |files|
    && Pivots(ProcessAll(files), m)
    && files[i].sheet.Table?
    && StudentEntries(files[i]).Some?
    && |StudentEntries(files[i]).value| > 0
  }

  /** A student's row of the matrix, read back as the checkers load it. */
  function RowVector(m: Matrix, id: string): StudentVector
    requires id in m.cells
  {
    StudentVector(m.columns, m.cells[id])
  }

  /**
   * A grade table a checker may use without ever disagreeing with the
   * generator: each of its tokens decodes as in the generator's table, and
   * it has no entry for the text "nan".
   */
  predicate Compatible(table: map<string, real>)
  {
    && (forall t :: t in table ==> t in GeneratorTable && table[t] == GeneratorTable[t])
    && "nan" !in table
  }

  /** The checkers' table and the generator's table are both compatible. */
  lemma BothTablesCompatible()
    ensures Compatible(CheckerTable)
    ensures Compatible(GeneratorTable)
  {
    CheckerTableIsSubTable();
  }

  /** A grade cell a compatible table recognises decodes to the same grade in the generator. */
  lemma CompatibleAgrees(table: map<string, real>, cell: GradeCell)
    requires Compatible(table)
    requires CheckerGrade(table, cell).Some?
    ensures CleanGrade(cell) == CheckerGrade(table, cell)
  {
  }

  /** A generated row has a value for every column, and for nothing else. */
  lemma RowIsVector(files: seq<StudentFile>, m: Matrix, i: int)
    requires HasRow(files, m, i)
    ensures files[i].id in m.students && files[i].id in m.cells
    ensures ValidVector(RowVector(m, files[i].id))
  {
    var k := ProcessedIndex(files, i);
    var ps := ProcessAll(files);
    assert ps[k].id == files[i].id && |ps[k].entries| > 0;
  }

  /**
   * Any line a compatible table recognises has a column under its
   * normalised key, and the student's cell there is at least the line's grade.
   */
  lemma RecognisedLineHeld(files: seq<StudentFile>, m: Matrix, i: int, table: map<string, real>, j: int)
    requires HasRow(files, m, i) && Compatible(table)
    requires 0 <= j < |files[i].sheet.records|
    requires CheckerGrade(table, files[i].sheet.records[j].grade).Some?
    ensures var r := files[i].sheet.records[j];
      && CourseKey(r.code) in m.columns
      && files[i].id in m.cells && CourseKey(r.code) in m.cells[files[i].id]
      && m.cells[files[i].id][CourseKey(r.code)] >= CheckerGrade(table, r.grade).value
  {
    var r := files[i].sheet.records[j];
    var c := CourseKey(r.code);
    var es := StudentEntries(files[i]).value;
    CompatibleAgrees(table, r.grade);
    assert es[j] == Decode(r);
    var k := ProcessedIndex(files, i);
    var ps := ProcessAll(files);
    assert ps[k].entries == es && Mentions(ps[k].entries, c);
    GeneratedCell(files, m, i, c);
  }

  /** Every recognised line has a column, and the row's value there is at least the line's grade. */
  ghost predicate Holds(v: StudentVector, es: seq<Entry>)
  {
    forall j :: 0 <= j < |es| && es[j].grade.Some? ==>
      es[j].course in v.value && v.value[es[j].course] >= es[j].grade.value
  }

  /** Every column holding a value other than -1 has a recognised line. */
  ghost predicate Accounted(v: StudentVector, es: seq<Entry>)
  {
    forall c :: c in v.columns && c in v.value && v.value[c] != NotTaken ==> Graded(es, c)
  }

  /** A graded column without a recognised line is a ghost, so the row is not consistent. */
  lemma UnfoundColumnIsGhost(v: StudentVector, es: seq<Entry>, c: string)
    requires ValidVector(v) && c in v.columns && v.value[c] != NotTaken && !Graded(es, c)
    ensures GhostCourse(c, v.value[c]) in Check(v, es).ghosts
    ensures !FullyConsistent(Check(v, es))
  {
  }

  /** With a compatible table, a generated row holds every line the checker recognises. */
  lemma GeneratedRowHolds(files: seq<StudentFile>, m: Matrix, i: int, table: map<string, real>)
    requires HasRow(files, m, i) && Compatible(table)
    ensures files[i].id in m.cells && ValidVector(RowVector(m, files[i].id))
    ensures Holds(RowVector(m, files[i].id), ReadLines(table, files[i].sheet.records))
  {
    RowIsVector(files, m, i);
    var rs := files[i].sheet.records;
    var es := ReadLines(table, rs);
    forall j | 0 <= j < |es| && es[j].grade.Some?
      ensures es[j].course in m.cells[files[i].id] && m.cells[files[i].id][es[j].course] >= es[j].grade.value
    {
      RecognisedLineHeld(files, m, i, table, j);
    }
  }

  /**
   * With any compatible table, the bidirectional checker finds no mismatch
   * and no missing column on a generated row: every recognised line's course
   * is a column, and the row's value there is at least the line's grade.
   */
  lemma NoMismatchOnGeneratedRow(files: seq<StudentFile>, m: Matrix, i: int, table: map<string, real>)
    requires HasRow(files, m, i) && Compatible(table)
    ensures files[i].id in m.cells && ValidVector(RowVector(m, files[i].id))
    ensures var r := Verify(table, RowVector(m, files[i].id), files[i].sheet.records);
      |r.mismatches| == 0 && |r.warnings| == 0
  {
    GeneratedRowHolds(files, m, i, table);
    var v := RowVector(m, files[i].id);
    var rs := files[i].sheet.records;
    assert Verify(table, v, rs) == Check(v, ReadLines(table, rs));
  }

  /**
   * The reduced table at work. A line whose grade is a generator token other
   * than `BL`, for a course no line of which the checkers' table recognises,
   * leaves the row a real grade (0 or more) in that column, and the
   * bidirectional checker lists the column as a ghost. That happens exactly
   * for the `+` grades, which the checkers' table lacks.
   */
  lemma PlusOnlyCourseIsGhost(files: seq<StudentFile>, m: Matrix, i: int, j: int)
    requires HasRow(files, m, i)
    requires 0 <= j < |files[i].sheet.records|
    requires var r := files[i].sheet.records[j];
      r.grade.Letter? && Token(r.grade.text) in GeneratorTable && Token(r.grade.text) != "BL"
    requires !FindsLine(CheckerTable, files[i].sheet.records, CourseKey(files[i].sheet.records[j].code))
    ensures files[i].id in m.cells && ValidVector(RowVector(m, files[i].id))
    ensures var r := files[i].sheet.records[j];
      Token(r.grade.text) in {"BA+", "BB+", "CB+", "CC+", "DC+", "DD+"}
    ensures var r := files[i].sheet.records[j];
      var c := CourseKey(r.code);
      && c in m.columns && c in m.cells[files[i].id]
      && m.cells[files[i].id][c] >= 0.0
      && GhostCourse(c, m.cells[files[i].id][c]) in Verify(CheckerTable, RowVector(m, files[i].id), files[i].sheet.records).ghosts
    ensures !FullyConsistent(Verify(CheckerTable, RowVector(m, files[i].id), files[i].sheet.records))
  {
    RowIsVector(files, m, i);
    var rs := files[i].sheet.records;
    var r := rs[j];
    var c := CourseKey(r.code);
    var v := RowVector(m, files[i].id);
    PlusLineIsUnrecognised(rs, j);
    BothTablesCompatible();
    RecognisedLineHeld(files, m, i, GeneratorTable, j);
    FoundIffLine(CheckerTable, rs, c);
    UnfoundColumnIsGhost(v, ReadLines(CheckerTable, rs), c);
    assert Verify(CheckerTable, v, rs) == Check(v, ReadLines(CheckerTable, rs));
  }

  /** A generator token the checkers' table does not find for the line's course is a `+` grade, worth 0 or more. */
  lemma PlusLineIsUnrecognised(rs: seq<Record>, j: int)
    requires 0 <= j < |rs|
    requires rs[j].grade.Letter? && Token(rs[j].grade.text) in GeneratorTable && Token(rs[j].grade.text) != "BL"
    requires !FindsLine(CheckerTable, rs, CourseKey(rs[j].code))
    ensures Token(rs[j].grade.text) in {"BA+", "BB+", "CB+", "CC+", "DC+", "DD+"}
    ensures GeneratorTable[Token(rs[j].grade.text)] >= 0.0
    ensures CheckerGrade(GeneratorTable, rs[j].grade) == Some(GeneratorTable[Token(rs[j].grade.text)])
  {
    var t := Token(rs[j].grade.text);
    PlusToken(t);
  }

  /** A generator token other than `BL` that the checkers' table lacks is a `+` grade, worth 0 or more. */
  lemma PlusToken(t: string)
    requires t in GeneratorTable && t !in CheckerTable && t != "BL"
    ensures t in {"BA+", "BB+", "CB+", "CC+", "DC+", "DD+"}
    ensures GeneratorTable[t] >= 0.0
  {
    OnlyExemptTokenIsBL();
    GeneratorTableRange();
    OnlyPlusGradesAndExempt();
  }

  /**
   * `table` recognises every line of `rs` that the generator decodes to a
   * grade other than `BL`'s -1.
   */
  ghost predicate Covers(table: map<string, real>, rs: seq<Record>)
  {
    forall j :: 0 <= j < |rs| && CleanGrade(rs[j].grade).Some? && CleanGrade(rs[j].grade).value != Exempt ==>
      CheckerGrade(table, rs[j].grade).Some?
  }

  /**
   * With a compatible table that recognises every line the generator
   * decodes to a real grade, the bidirectional checker finds a generated
   * row fully consistent, with no course missing from the matrix.
   */
  lemma CoveredRowIsConsistent(files: seq<StudentFile>, m: Matrix, i: int, table: map<string, real>)
    requires HasRow(files, m, i) && Compatible(table) && Covers(table, files[i].sheet.records)
    ensures files[i].id in m.cells && ValidVector(RowVector(m, files[i].id))
    ensures var r := Verify(table, RowVector(m, files[i].id), files[i].sheet.records);
      FullyConsistent(r) && |r.warnings| == 0
  {
    NoMismatchOnGeneratedRow(files, m, i, table);
    GeneratedRowAccounted(files, m, i, table);
    var v := RowVector(m, files[i].id);
    var rs := files[i].sheet.records;
    assert Verify(table, v, rs) == Check(v, ReadLines(table, rs));
  }

  /**
   * The corrected check: with the generator's own table, the row of a
   * transcript with no numeric grade cell is fully consistent, and no
   * course is missing from the matrix.
   */
  lemma SharedTableRoundTrip(files: seq<StudentFile>, m: Matrix, i: int)
    requires HasRow(files, m, i)
    requires forall j :: 0 <= j < |files[i].sheet.records| ==> !files[i].sheet.records[j].grade.Numeric?
    ensures files[i].id in m.cells && ValidVector(RowVector(m, files[i].id))
    ensures var r := Verify(GeneratorTable, RowVector(m, files[i].id), files[i].sheet.records);
      FullyConsistent(r) && |r.warnings| == 0
  {
    var rs := files[i].sheet.records;
    forall j | 0 <= j < |rs|
      ensures CheckerGrade(GeneratorTable, rs[j].grade) == CleanGrade(rs[j].grade)
    {
      SharedTableAgrees(rs[j].grade);
    }
    BothTablesCompatible();
    CoveredRowIsConsistent(files, m, i, GeneratorTable);
  }

  /**
   * The reduced table is enough when the transcript has no `+` grade and no
   * numeric grade cell: the row is then fully consistent under the checkers'
   * own table. (`BL` lines may be present: they only ever leave -1.)
   */
  lemma NoPlusGradesConsistent(files: seq<StudentFile>, m: Matrix, i: int)
    requires HasRow(files, m, i)
    requires forall j :: 0 <= j < |files[i].sheet.records| ==>
      var g := files[i].sheet.records[j].grade;
      !g.Numeric? && (g.Letter? ==> Token(g.text) !in {"BA+", "BB+", "CB+", "CC+", "DC+", "DD+"})
    ensures files[i].id in m.cells && ValidVector(RowVector(m, files[i].id))
    ensures var r := Verify(CheckerTable, RowVector(m, files[i].id), files[i].sheet.records);
      FullyConsistent(r) && |r.warnings| == 0
  {
    var rs := files[i].sheet.records;
    forall j | 0 <= j < |rs| && CleanGrade(rs[j].grade).Some? && CleanGrade(rs[j].grade).value != Exempt
      ensures CheckerGrade(CheckerTable, rs[j].grade).Some?
    {
      ReducedTableRecognises(rs[j].grade);
    }
    BothTablesCompatible();
    CoveredRowIsConsistent(files, m, i, CheckerTable);
  }

  /** A text grade that is neither a `+` grade nor `BL` and that the generator decodes, the checkers' table recognises. */
  lemma ReducedTableRecognises(cell: GradeCell)
    requires !cell.Numeric? && (cell.Letter? ==> Token(cell.text) !in {"BA+", "BB+", "CB+", "CC+", "DC+", "DD+"})
    requires CleanGrade(cell).Some? && CleanGrade(cell).value != Exempt
    ensures CheckerGrade(CheckerTable, cell).Some?
  {
    OnlyPlusGradesAndExempt();
  }

  /** With a covering table, every graded column of a generated row has a recognised line. */
  lemma GeneratedRowAccounted(files: seq<StudentFile>, m: Matrix, i: int, table: map<string, real>)
    requires HasRow(files, m, i) && Compatible(table) && Covers(table, files[i].sheet.records)
    ensures files[i].id in m.cells && ValidVector(RowVector(m, files[i].id))
    ensures Accounted(RowVector(m, files[i].id), ReadLines(table, files[i].sheet.records))
  {
    RowIsVector(files, m, i);
    var v := RowVector(m, files[i].id);
    forall c | c in v.columns && v.value[c] != NotTaken
      ensures Graded(ReadLines(table, files[i].sheet.records), c)
    {
      GradedColumnFound(files, m, i, table, c);
    }
  }

  /**
   * With a covering table, every column where a generated row holds a value
   * other than -1 has a line the checker recognises: the line that gave
   * the cell its value.
   */
  lemma GradedColumnFound(files: seq<StudentFile>, m: Matrix, i: int, table: map<string, real>, c: string)
    requires HasRow(files, m, i) && Compatible(table) && Covers(table, files[i].sheet.records)
    requires c in m.columns
    ensures files[i].id in m.cells && c in m.cells[files[i].id]
    ensures m.cells[files[i].id][c] != NotTaken ==> Graded(ReadLines(table, files[i].sheet.records), c)
  {
    var rs := files[i].sheet.records;
    var es := StudentEntries(files[i]).value;
    GeneratedCell(files, m, i, c);
    if m.cells[files[i].id][c] != NotTaken {
      var j :| 0 <= j < |es| && es[j].course == c && es[j].grade == Some(m.cells[files[i].id][c]);
      assert es[j] == Decode(rs[j]);
      assert CheckerGrade(table, rs[j].grade).Some?;
      assert ReadLines(table, rs)[j].course == c;
    }
  }

  /**
   * The one-way checker finds no mismatch on a generated row either: a line
   * it recognises under a key that is a column has that key as its
   * normalised code, so the row's value there is at least the line's grade.
   */
  lemma OneWayNoMismatch(files: seq<StudentFile>, m: Matrix, i: int)
    requires HasRow(files, m, i)
    ensures files[i].id in m.cells
    ensures var rs := files[i].sheet.records; var value := m.cells[files[i].id];
      forall j :: 0 <= j < |rs| ==> !RecordUndercut(CheckerTable, value, rs[j])
  {
    RowIsVector(files, m, i);
    BothTablesCompatible();
    ColumnsAreNormalized(files, m);
    var rs := files[i].sheet.records;
    var value := m.cells[files[i].id];
    forall j | 0 <= j < |rs| && CheckerGrade(CheckerTable, rs[j].grade).Some? && RawKey(rs[j].code) in value
      ensures value[RawKey(rs[j].code)] >= CheckerGrade(CheckerTable, rs[j].grade).value
    {
      RawKeyOfColumn(rs[j].code);
      RecognisedLineHeld(files, m, i, CheckerTable, j);
    }
  }

  /** A raw key that is already normalised is the line's normalised key. */
  lemma RawKeyOfColumn(code: CodeCell)
    ensures !HasVariantSuffix(RawKey(code)) ==> CourseKey(code) == RawKey(code)
    ensures HasVariantSuffix(RawKey(code)) ==> CourseKey(code) != RawKey(code)
  {
  }

  /**
   * An English-section line (`MAT103E`) that the checkers' table recognises
   * is looked up by the one-way checker under its raw key, which is never a
   * column: the course is reported as missing from the matrix, although the
   * generator recorded it under the base code.
   */
  lemma OneWayMissesVariantSection(files: seq<StudentFile>, m: Matrix, i: int, j: int)
    requires HasRow(files, m, i)
    requires 0 <= j < |files[i].sheet.records|
    requires CheckerGrade(CheckerTable, files[i].sheet.records[j].grade).Some?
    requires HasVariantSuffix(RawKey(files[i].sheet.records[j].code))
    ensures files[i].id in m.cells
    ensures var code := files[i].sheet.records[j].code;
      && RawKey(code) !in m.cells[files[i].id]
      && CourseKey(code) in m.cells[files[i].id]
  {
    RowIsVector(files, m, i);
    BothTablesCompatible();
    ColumnsAreNormalized(files, m);
    RecognisedLineHeld(files, m, i, CheckerTable, j);
  }

  /**
   * The one-way checker run on a generated row: it passes, and every
   * English-section line it recognises is listed as a course the row lacks.
   */
  method OneWayOnGeneratedRow(files: seq<StudentFile>, m: Matrix, i: int) returns (t: Tally)
    requires HasRow(files, m, i)
    ensures |t.mismatches| == 0
    ensures forall j :: 0 <= j < |files[i].sheet.records| ==>
      var r := files[i].sheet.records[j];
      CheckerGrade(CheckerTable, r.grade).Some? && HasVariantSuffix(RawKey(r.code)) ==> RawKey(r.code) in t.missing
  {
    OneWayNoMismatch(files, m, i);
    var rs := files[i].sheet.records;
    t := VerifyStudentVector(CheckerTable, m.cells[files[i].id], rs);
    forall j | 0 <= j < |rs| && CheckerGrade(CheckerTable, rs[j].grade).Some? && HasVariantSuffix(RawKey(rs[j].code))
      ensures RawKey(rs[j].code) in t.missing
    {
      OneWayMissesVariantSection(files, m, i, j);
    }
  }
}
