# Student feature vectors: generator and checkers

A Dafny model of the three scripts at the core of the student-clustering
project.

- **The generator** (`main.py`, `process_student_files`) turns each
  student's transcript into one best grade per course. Each transcript is a
  spreadsheet with a course-code column `Ders Kodu` and a letter-grade
  column `Harf Notu`. The generator then pivots all students into a feature
  matrix, with one row per student and one column per course. Course codes
  are normalised first, so the Turkish and English sections of a course
  (`MAT103`, `MAT103E`) share a column. Grade texts such as
  `"AA / Original Entry"` are decoded through a 17-token table. Cells
  without a grade hold -1, and columns are sorted.
- **The bidirectional checker** (`verify_vectors_normalized.py`,
  `verify_bidirectional`) compares one student's row with that student's
  transcript in both directions:
  - transcript lines the row undercuts are mismatches;
  - graded columns no transcript line accounts for are "ghost" courses.
- **The one-way checker** (`verify_vectors.py`, `verify_student_vector`)
  makes the first of those comparisons only. It looks lines up under their
  raw, un-normalised course codes.

Both checkers decode grades with their own reduced 10-token table.

## Modules

| file | module | contents |
|---|---|---|
| `options.dfy` | `Options` | the `Option` type |
| `text.dfy` | `Text` | Python's `strip()`, `isspace()`, ASCII `isdigit()`, `split('/')[0]` |
| `ordering.dfy` | `Ordering` | string order, sorted de-duplicated sequences (`sorted(columns)`) |
| `grades.dfy` | `Grades` | both grade tables, `clean_grade`, the checkers' decoding |
| `courses.dfy` | `Courses` | `normalize_course` |
| `transcript.dfy` | `Transcript` | the generator: per-file loop, group-by-max, pivot, fill -1, sort |
| `rowcheck.dfy` | `RowCheck` | a row read back as a vector; the four-way comparison of a line with it |
| `bidirectional.dfy` | `Bidirectional` | the bidirectional checker's two passes and verdict |
| `oneway.dfy` | `OneWay` | the one-way checker's loop, counter and lists |
| `crosscheck.dfy` | `CrossCheck` | what the checkers report on rows the generator wrote |

Inputs are values, not files:
- a transcript is a `StudentFile`: its name, and either `Unreadable` or a
  header with its lines;
- a line is a `Record` of two cells;
- the matrix is a `Matrix` of sorted row and column labels and a map of
  cells.

Grades and matrix values are `real`, so the 0.01 tolerance is an exact
comparison.

## Behaviour worth knowing

- `BL` decodes to -1 and takes part in the maximum. A course whose only
  graded lines are `BL` gets -1, exactly like a course never taken
  (`Transcript.ExemptOnlyLooksNotTaken`).
- The generator passes a non-text grade cell (a number) through unchanged.
  The checkers turn every cell into text first, so a number is never
  recognised. An empty course-code cell becomes the text `"nan"`. Both
  pandas behaviours are modelled explicitly: `GradeCell.Numeric`,
  `CodeCell.MissingCode`.
- A matrix row exists for every usable transcript with at least one line,
  even if all its cells are -1. A usable transcript with no lines has no
  row.

## Model

| member | source | states |
|---|---|---|
| Text.TrimIsInfix | main.py:39 | what `strip()` keeps is a contiguous infix of the code, and everything it drops at either end is whitespace |
| Text.TrimIdempotent | main.py:39 | stripping twice is stripping once, and a code is left unchanged exactly when neither end is whitespace |
| Text.TrimSurrounded | main.py:30 | `strip()` removes exactly the whitespace around a non-blank token and nothing inside it |
| Text.FirstSegment | main.py:30 | `split('/')[0]` is the prefix before the first slash: slash-free, and followed by a slash whenever it is shorter than the text |
| Text.FirstSegmentOfAnnotated | main.py:30 | text after the first slash never reaches the first segment |
| Ordering.SortedSet | main.py:104 | the sorted column list is strictly ascending and holds exactly the given labels |
| Ordering.SortedUnique | main.py:104 | two strictly ascending lists with the same elements are equal |
| Ordering.SortedSetDependsOnlyOnElements | main.py:104 | the sorted labels depend only on which labels occur, not on their order or repeats |
| Courses.NormalizeCourse | main.py:34-43 | the result is the stripped code or that code less its last character, and it is shorter exactly when the stripped code has length > 1 and ends in digit-then-`E` |
| Courses.NormalizedIsCanonical | main.py:39-43 | a normalised code is stripped and never again ends in digit-then-`E` |
| Courses.NormalizeIdempotent | main.py:39-43 | normalising twice is normalising once |
| Courses.VariantSectionsMerge | main.py:41-42 | a stripped code ending in a digit and the same code with `E` appended both normalise to the base code (`MAT103E` and `MAT103` give `MAT103`) |
| Courses.LetterBeforeEKept | main.py:41-43 | a final `E` after a non-digit is kept |
| Courses.NormalizeAfterTrim | verify_vectors_normalized.py:54-55 | the checker's extra `strip()` before normalising changes nothing |
| Bidirectional.Key | verify_vectors_normalized.py:16-20 | the checker's course key is exactly the generator's normalised key |
| Grades.CleanGrade | main.py:21-31 | an empty cell has no value, a number passes through unchanged, and a text has a value exactly when its token is in the generator's table; a decoded text is -1 or lies in [0, 4] |
| Grades.GeneratorTableRange | main.py:11-17 | every generator grade is -1 or in [0, 4], and a whole number of quarter points |
| Grades.OnlyExemptTokenIsBL | main.py:11-17 | `BL` is the only token worth -1 |
| Grades.AnnotationIgnored | main.py:30-31 | text after the first `/` never changes the decoded grade, in the generator or in the checkers |
| Grades.AnnotatedExample | main.py:22-31 | `"AA /"` followed by any annotation decodes to 4.0 |
| Grades.BareToken | main.py:30-31 | a stripped, slash-free token decodes exactly as the tables map it |
| Grades.CheckerGrade | verify_vectors_normalized.py:57-60 | a number is never recognised; a text is recognised exactly when its token is in the table, an empty cell exactly when the table has "nan"; a recognised grade is a table value, the token's grade, and, for a table that agrees with the generator's and lacks "nan", the grade `clean_grade` gives the cell |
| Grades.CheckerTableIsSubTable | verify_vectors_normalized.py:10-14 | every token of the checkers' table is in the generator's table with the same grade |
| Grades.TableDifference | verify_vectors.py:10-14 | the tokens the checkers' table lacks are exactly the six `+` grades and `BL` |
| Grades.DivergentTokens | verify_vectors_normalized.py:57-60 | a `+` grade or `BL` decodes in the generator but is skipped by the checkers |
| Grades.CheckerRecognisedAgrees | verify_vectors.py:51-58 | whatever a checker recognises, the generator decodes to the same grade |
| Grades.SharedTableAgrees | main.py:25-31 | with the generator's table, a checker decodes every non-numeric cell exactly as `clean_grade` does |
| Transcript.GroupMax | main.py:85 | one key per course mentioned; no value when no line for it has a grade, otherwise a grade one of its lines has, and no graded line exceeds it |
| Transcript.GroupMaxStep | main.py:85 | folding one more line into the group maxima keeps them the group maxima of the longer list |
| Transcript.SingleFile | main.py:60-88 | a single file yields one student exactly when it is readable and its stripped header has both `Ders Kodu` and `Harf Notu`; that student is named after the file and holds every line, decoded |
| Transcript.ProcessAllMembers | main.py:58-91 | the students the loop collects are exactly what the usable files yield |
| Transcript.ProcessAllKeepsDistinct | main.py:60-61 | distinct file names give distinct student ids |
| Transcript.ProcessAllAppend | main.py:58-88 | the per-file loop over two lists of files is the loop over each, concatenated |
| Transcript.SkippedFileNotProcessed | main.py:69-71 | a file that is unreadable or lacks a required column contributes nothing to the loop |
| Transcript.SkippedFileChangesNothing | main.py:69-91 | removing a skipped file does not change the outcome of the run |
| Transcript.AllCourses | main.py:95-97 | the collected course labels are exactly the courses some processed student mentions |
| Transcript.TakenIds | main.py:95-97 | the pivot's rows are exactly the processed students with at least one line |
| Transcript.Assemble | main.py:94-104 | the result is the pivot: sorted rows and columns, one column per course any student mentions, one row per student with a line, each cell the group maximum or -1 |
| Transcript.AssembledCells | main.py:97-100 | the cells built row by row from each student's own lines are the ones the pivot calls for |
| Transcript.Run | main.py:47-115 | no input files, no usable file, or a matrix that is the pivot of the usable students |
| Transcript.RunIgnoresFileOrder | main.py:48-104 | the same files listed in any order give the same outcome |
| Transcript.AssembleDependsOnlyOnMembers | main.py:95-104 | two collections with the same students pivot to the same matrix |
| Transcript.CellMeaning | main.py:85-100 | a cell is -1 when no line for the course has a grade; otherwise it is a grade of one of its lines and no graded line exceeds it |
| Transcript.GeneratedCell | main.py:78-104 | a usable transcript with a line has a row with a cell for every column, holding its best decoded grade for that course, or -1 |
| Transcript.ExemptOnlyLooksNotTaken | main.py:85-100 | a course whose only graded lines are `BL` gets -1, the same cell as a course never taken |
| Transcript.RealGradeBeatsExempt | main.py:85 | a line with a real grade (0 or more) makes the cell at least that grade, whatever `BL` lines there are |
| Transcript.SectionsShareColumn | main.py:78-85 | lines coded `base` and `base` + `E` both land in column `base`, whose cell is at least each of their grades |
| Transcript.LineBelowCell | main.py:78-100 | every line of a used transcript has a column, and its decoded grade never exceeds the cell |
| Transcript.ColumnsAreNormalized | main.py:78-97 | every column label is stripped and never ends in digit-then-`E` |
| Transcript.CellsInRange | main.py:81-100 | when no transcript the generator uses has a numeric grade cell, every cell of the matrix is -1 or in [0, 4] |
| RowCheck.Classify | verify_vectors_normalized.py:64-73 | no column exactly when the course is not in the row; otherwise agreement within 0.01, higher by more than 0.01, or lower by more than 0.01, each stated as an interval |
| RowCheck.AtLeastGradeIsNoMismatch | verify_vectors.py:65-71 | a row value at least the line's grade is never a mismatch |
| Bidirectional.ReadLine | verify_vectors_normalized.py:53-60 | a line is read under the generator's normalised key, with its grade from the checker's table |
| Bidirectional.FoundCourses | verify_vectors_normalized.py:53-62 | the found set is exactly the normalised codes of the lines with a recognised grade |
| Bidirectional.Mismatches | verify_vectors_normalized.py:64-71 | a mismatch is listed exactly when a recognised line's course is a column and the row's value is more than 0.01 below its grade |
| Bidirectional.Warnings | verify_vectors_normalized.py:72-73 | a warning is issued exactly for a recognised course the row has no column for |
| Bidirectional.GhostCourses | verify_vectors_normalized.py:87-94 | the ghost list holds exactly the columns whose value is not -1 and that are not in the found set, each with its value |
| Bidirectional.Check | verify_vectors_normalized.py:75-106 | each list is empty exactly when no line or column gives it an entry; "fully consistent" exactly when no line is undercut and every graded column has a recognised line |
| Bidirectional.Verify | verify_vectors_normalized.py:50-106 | the verdict on raw lines: fully consistent exactly when no recognised line is undercut under its normalised key and every column not -1 has a recognised line with that key |
| OneWay.CompareLines | verify_vectors.py:49-75 | the counter is the number of agreeing lines; the retake, mismatch and missing-column lists each hold exactly the lines of their class, one entry per line; no mismatch exactly when no line is undercut |
| OneWay.TickKeepsCounts | verify_vectors.py:61-75 | one more line adds one to exactly the tally of its class |
| OneWay.TickKeepsLists | verify_vectors.py:61-75 | one more line is listed exactly in its class's list |
| OneWay.Partition | verify_vectors.py:61-75 | every recognised line falls into exactly one of the four classes |
| OneWay.VerifyStudentVector | verify_vectors.py:49-85 | the reported counter is the number of recognised lines whose raw key is a column with a value within 0.01 of the grade; the script passes exactly when no recognised line is undercut under its raw key, and lists as missing exactly the raw keys of recognised lines without a column |
| CrossCheck.RowIsVector | main.py:97-104 | a generated row has a value under every column and nothing else |
| CrossCheck.RecognisedLineHeld | verify_vectors_normalized.py:53-71 | on a generated row, any line a compatible table recognises has a column, and the row's value there is at least its grade |
| CrossCheck.NoMismatchOnGeneratedRow | verify_vectors_normalized.py:64-79 | on a generated row, the bidirectional checker reports no mismatch and no warning, with any table that agrees with the generator's |
| CrossCheck.GradedColumnFound | verify_vectors_normalized.py:87-94 | when the table recognises every line the generator decodes to a real grade, every graded column has a recognised line |
| CrossCheck.CoveredRowIsConsistent | verify_vectors_normalized.py:64-106 | with such a table, a generated row is fully consistent |
| CrossCheck.NoPlusGradesConsistent | verify_vectors_normalized.py:10-14 | with the checkers' own table, a transcript without `+` grades and without numeric cells checks fully consistent against its generated row |
| CrossCheck.PlusOnlyCourseIsGhost | verify_vectors_normalized.py:87-94 | a course with a line carrying a generator grade other than `BL`, but with no line the checkers' table recognises, is reported as a ghost; the line's token is a `+` grade |
| CrossCheck.SharedTableRoundTrip | main.py:11-17 | with the generator's table, every generated row of a transcript without numeric cells is fully consistent |
| CrossCheck.OneWayNoMismatch | verify_vectors.py:61-71 | the one-way checker finds no mismatch on a generated row |
| CrossCheck.OneWayMissesVariantSection | verify_vectors.py:50 | a recognised English-section line (`MAT103E`) is looked up under a key that is never a column, although its normalised key is one |
| CrossCheck.OneWayOnGeneratedRow | verify_vectors.py:49-85 | on a generated row the one-way checker passes, and lists every recognised English-section line as a course the row lacks |

## Left out

- File discovery and all file I/O are not modelled: `glob`, `read_excel`,
  `read_csv` and `to_csv`, and the hard-coded folders, output name and
  target student. Inputs are values, and a file's name without its
  extension is its `id`.
- Console output is not modelled. Warnings, reports and the printed matrix
  head are replaced by the lists, counters and verdicts they print.
- `excel_to_csv.py` is not part of this model. It only converts files.
- Any exception other than a failed read is not modelled. A file that
  cannot be read becomes `Unreadable` and is skipped, as the broad
  `except` does.
- A header whose stripped labels repeat is not modelled.
- Floating point is not modelled. Grades and cells are exact reals, and the
  matrix is assumed to survive the CSV round trip unchanged.
- `str()` of a numeric grade cell is not spelled out. The model only uses
  the fact that such text never equals a table token.
- Transcript names are assumed distinct (`DistinctIds`), as file names in
  one folder are.
- `IsDigit` covers ASCII digits only. Python's `isdigit()` also accepts
  other Unicode digits before a final `E`.
- OneWay.VerifyStudentVector: the transcript is assumed to have its
  headers already stripped. `verify_vectors.py` does not strip them, so a
  header with stray whitespace raises a `KeyError` at line 50. The model
  does not include that failure.
- Both checkers take their grade table as a parameter. The scripts'
  constant is `Grades.CheckerTable`.

## Findings

| source | as written | input that shows it | evidently intended | confidence | as-written member | corrected member |
|---|---|---|---|---|---|---|
| verify_vectors_normalized.py:10-14 | The checker's grade table lacks the six `+` grades and `BL`. | A transcript whose only `MAT103` line has grade `BA+`. The generator writes 3.75 under `MAT103`, and the checker never finds `MAT103`, so it lists it as a ghost and the verdict is not "fully consistent". | The checker decodes grades with the generator's 17-token table. Every generated row of a transcript without numeric cells then checks fully consistent. | not executed | CrossCheck.PlusOnlyCourseIsGhost | CrossCheck.SharedTableRoundTrip |
| verify_vectors.py:50 | The one-way checker looks a line up under its stripped but un-normalised code. | A transcript with the line `MAT103E`, `AA`. The generator writes 4.0 under `MAT103`; the checker looks up `MAT103E`, finds no column and reports the course missing. | The code is normalised as the generator does, as `verify_vectors_normalized.py` does. With that, no recognised line is reported missing. | not executed | CrossCheck.OneWayMissesVariantSection | CrossCheck.NoMismatchOnGeneratedRow |
