/**
 * Letter-grade decoding. The generator (main.py) and the two checkers each
 * carry their own table; the checkers' table is a strict sub-table of the
 * generator's, which is where the files disagree.
 */
module Grades {
  import opened Options
  import opened Text

  /** The grade a `BL` (exempt) row decodes to; it is also the "not taken" marker. */
  const Exempt: real := -1.0

  /** The generator's 17-token table. */
  const GeneratorTable: map<string, real> := map[
    "AA" := 4.0, "BA+" := 3.75, "BA" := 3.5, "BB+" := 3.25, "BB" := 3.0,
    "CB+" := 2.75, "CB" := 2.5, "CC+" := 2.25, "CC" := 2.0,
    "DC+" := 1.75, "DC" := 1.5, "DD+" := 1.25, "DD" := 1.0,
    "FF" := 0.0, "VF" := 0.0, "F" := 0.0,
    "BL" := Exempt]

  /** The checkers' 10-token table: no `+` grades and no `BL`. */
  const CheckerTable: map<string, real> := map[
    "AA" := 4.0, "BA" := 3.5, "BB" := 3.0, "CB" := 2.5,
    "CC" := 2.0, "DC" := 1.5, "DD" := 1.0, "FF" := 0.0,
    "VF" := 0.0, "F" := 0.0]

  /**
   * A cell of the letter-grade column as the spreadsheet reader hands it
   * over: empty (NaN), text, or a number.
   */
  datatype GradeCell = MissingGrade | Letter(text: string) | Numeric(value: real)

  /** `table.get(token)`. */
  function Lookup(table: map<string, real>, token: string): Option<real>
  {
    if token in table then Some(table[token]) else None
  }

  /** The token a grade text is looked up under: its part before the first `/`, stripped. */
  function Token(text: string): string
  {
    Trim(FirstSegment(text))
  }

  /**
   * The generator's `clean_grade`: an empty cell has no value, a number is
   * passed through unchanged, and a text is decoded through the generator's
   * table, with no value for an unknown token.
   */
  function CleanGrade(cell: GradeCell): (g: Option<real>)
    ensures cell.MissingGrade? ==> g.None?
    ensures cell.Numeric? ==> g == Some(cell.value)
    ensures cell.Letter? ==> (g.Some? <==> Token(cell.text) in GeneratorTable)
    ensures cell.Letter? && g.Some? ==> g.value == Exempt || 0.0 <= g.value <= 4.0
  {
    match cell
    case MissingGrade => None
    case Numeric(x) => Some(x)
    case Letter(s) =>
      GeneratorTableRange();
      Lookup(GeneratorTable, Token(s))
  }

  /**
   * A checker's decoding of a grade cell with `table`: the cell is first
   * turned into text with `str()`, so an empty cell reads "nan". A number's
   * text always holds a digit or reads "inf"/"nan", and no table token does,
   * so a number is never recognised. A text is recognised exactly when its
   * token is in the table, and then reads as that token's grade; with a
   * table that agrees with the generator's and has no "nan" entry, a
   * recognised grade is the one `clean_grade` gives the same cell.
   */
  function CheckerGrade(table: map<string, real>, cell: GradeCell): (g: Option<real>)
    ensures g.Some? <==> (cell.Letter? && Token(cell.text) in table) || (cell.MissingGrade? && "nan" in table)
    ensures g.Some? ==> g.value in table.Values
    ensures cell.Letter? && g.Some? ==> g.value == table[Token(cell.text)]
    ensures (forall t :: t in table ==> t in GeneratorTable && table[t] == GeneratorTable[t]) && "nan" !in table && g.Some? ==>
      g == CleanGrade(cell)
  {
    match cell
    case MissingGrade => Lookup(table, "nan")
    case Numeric(_) => None
    case Letter(s) => Lookup(table, Token(s))
  }

  /** Every generator grade is `BL`'s -1 or lies in [0, 4], and is a whole number of quarter points. */
  lemma GeneratorTableRange()
    ensures forall t :: t in GeneratorTable ==> GeneratorTable[t] == Exempt || 0.0 <= GeneratorTable[t] <= 4.0
    ensures forall t :: t in GeneratorTable ==> (GeneratorTable[t] * 4.0).Floor as real == GeneratorTable[t] * 4.0
  {
  }

  /** The checkers' table agrees with the generator's wherever it is defined. */
  lemma CheckerTableIsSubTable()
    ensures forall t :: t in CheckerTable ==> t in GeneratorTable && CheckerTable[t] == GeneratorTable[t]
  {
  }

  /** What the checkers' table misses is exactly the six `+` grades and `BL`. */
  lemma TableDifference()
    ensures GeneratorTable.Keys - CheckerTable.Keys == {"BA+", "BB+", "CB+", "CC+", "DC+", "DD+", "BL"}
  {
    PlusGradesAndExempt();
    OnlyPlusGradesAndExempt();
  }

  lemma OnlyPlusGradesAndExempt()
    ensures forall t :: t in GeneratorTable && t !in CheckerTable ==> t in {"BA+", "BB+", "CB+", "CC+", "DC+", "DD+", "BL"}
  {
  }

  lemma PlusGradesAndExempt()
    ensures forall t :: t in {"BA+", "BB+", "CB+", "CC+", "DC+", "DD+", "BL"} ==> t in GeneratorTable && t !in CheckerTable
  {
  }

  /** Whatever the checkers recognise in a cell, the generator decodes to the same grade. */
  lemma CheckerRecognisedAgrees(cell: GradeCell)
    ensures CheckerGrade(CheckerTable, cell).Some? ==> CleanGrade(cell) == CheckerGrade(CheckerTable, cell)
  {
    CheckerTableIsSubTable();
    assert "nan" !in CheckerTable;
  }

  /** Checking against the generator's table decodes every non-numeric cell just as the generator does. */
  lemma SharedTableAgrees(cell: GradeCell)
    requires !cell.Numeric?
    ensures CheckerGrade(GeneratorTable, cell) == CleanGrade(cell)
  {
    assert "nan" !in GeneratorTable;
  }

  /** An annotation after the first `/` never changes the decoded grade. */
  lemma AnnotationIgnored(t: string, note: string)
    requires '/' !in t
    ensures CleanGrade(Letter(t + "/" + note)) == CleanGrade(Letter(t))
    ensures CheckerGrade(CheckerTable, Letter(t + "/" + note)) == CheckerGrade(CheckerTable, Letter(t))
  {
    FirstSegmentOfAnnotated(t, note);
  }

  /** A text decodes exactly as its token does, in every table. */
  lemma DecodesAsToken(text: string, t: string)
    requires Token(text) == t
    ensures CleanGrade(Letter(text)) == Lookup(GeneratorTable, t)
    ensures CheckerGrade(CheckerTable, Letter(text)) == Lookup(CheckerTable, t)
  {
  }

  /** `"AA / <annotation>"` decodes to 4.0 whatever the annotation says, as in "AA / Original Entry". */
  lemma AnnotatedExample(note: string)
    ensures CleanGrade(Letter("AA /" + note)) == Some(4.0)
  {
    var text := "AA /" + note;
    assert Token(text) == "AA" by {
      assert text == "AA " + "/" + note;
      FirstSegmentOfAnnotated("AA ", note);
      assert "AA " == "" + "AA" + " ";
      TrimSurrounded("", "AA", " ");
    }
    DecodesAsToken(text, "AA");
  }

  /** A bare token decodes exactly as the tables say. */
  lemma BareToken(t: string)
    requires '/' !in t && IsTrimmed(t)
    ensures CleanGrade(Letter(t)) == Lookup(GeneratorTable, t)
    ensures CheckerGrade(CheckerTable, Letter(t)) == Lookup(CheckerTable, t)
  {
    assert Token(t) == t by {
      FirstSegmentOfAnnotated(t, "");
      TrimOfTrimmed(t);
    }
    DecodesAsToken(t, t);
  }

  /** Every generator token is a bare token: trimmed and free of slashes. */
  lemma GeneratorTokensAreBare()
    ensures forall t :: t in GeneratorTable ==> IsTrimmed(t) && '/' !in t
  {
  }

  /**
   * A `+` grade or `BL` decodes in the generator but is not recognised by the
   * checkers, so the checkers skip exactly the rows the generator decodes to
   * these seven grades.
   */
  lemma DivergentTokens(t: string)
    requires t in GeneratorTable && t !in CheckerTable
    ensures CleanGrade(Letter(t)) == Some(GeneratorTable[t])
    ensures CheckerGrade(CheckerTable, Letter(t)) == None
  {
    GeneratorTokensAreBare();
    BareToken(t);
  }

  /** `BL` is the only token that decodes to -1. */
  lemma OnlyExemptTokenIsBL()
    ensures forall t :: t in GeneratorTable && GeneratorTable[t] == Exempt ==> t == "BL"
  {
  }
}
