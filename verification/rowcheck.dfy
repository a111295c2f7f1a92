/**
 * The comparison both checkers make between one transcript line and one
 * student's row of the matrix: the row is read back as a map from column
 * label to value, and a line whose grade the checker recognises is compared
 * with the value under its course key.
 */
module RowCheck {

  /** Two grades closer than this are the same grade. */
  const Tolerance: real := 0.01

  function Abs(x: real): (r: real)
    ensures r >= 0.0 && (r == x || r == -x)
  {
    if x < 0.0 then -x else x
  }

  /**
   * One student's row as the checkers load it: the column labels in file
   * order, and the value under each label.
   */
  datatype StudentVector = StudentVector(columns: seq<string>, value: map<string, real>)

  /** Every column has a value, and every value sits under a column. */
  predicate ValidVector(v: StudentVector)
  {
    && (forall c :: c in v.columns ==> c in v.value)
    && (forall c :: c in v.value ==> c in v.columns)
  }

  /**
   * How one recognised line compares with the row: no column for its course,
   * equal within the tolerance, higher in the row (accepted as a passed
   * retake), or lower in the row (a mismatch).
   */
  datatype Verdict = NoColumn | Agrees | Higher | Lower

  /** A reported disagreement: the course, the grade on the line, the value in the row. */
  datatype Mismatch = Mismatch(course: string, excel: real, vector: real)

  /**
   * The comparison of a line's `grade` with the row's value for `course`.
   * The contract reads it off as intervals around the grade: the value is
   * lower exactly when it falls more than the tolerance below the grade,
   * higher exactly when it lies more than the tolerance above it.
   */
  function Classify(value: map<string, real>, course: string, grade: real): (r: Verdict)
    ensures r == NoColumn <==> course !in value
    ensures r == Agrees <==> course in value && grade - Tolerance <= value[course] <= grade + Tolerance
    ensures r == Higher <==> course in value && value[course] > grade + Tolerance
    ensures r == Lower <==> course in value && value[course] < grade - Tolerance
  {
    if course !in value then NoColumn
    else
      var x := value[course];
      if Abs(x - grade) > Tolerance then
        if x > grade then Higher else Lower
      else Agrees
  }

  /** A row value at least as high as the line's grade is never a mismatch. */
  lemma AtLeastGradeIsNoMismatch(value: map<string, real>, course: string, grade: real)
    requires course in value && value[course] >= grade
    ensures Classify(value, course, grade) == Agrees || Classify(value, course, grade) == Higher
  {
  }
}
