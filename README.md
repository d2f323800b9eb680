# marks-submission, modelled in Dafny

marks-submission is a small web application. Teachers use it to enter a
class's marks or grades for one subject and exam. They pick a class, fill in
one field per student and submit. The server turns the form into one
12-column row per student with an entry. It appends the rows to a worksheet
named `<class>-<subject>` in one Google spreadsheet; the worksheet and its
header row are created the first time. For a marks subject it then re-reads
the Result column and colours its cells: light red for "Fail", white
otherwise.

This project models the logic of `app.js` that decides what gets written:

- `Values`: the url-encoded form body as a map from field name to text, and
  the JavaScript conversions the handler applies to it (`v || ""`,
  truthiness, `${v}`, `filter(Boolean)`).
- `Seqs`: order-preserving deduplication (`[...new Set(xs)]`), first index,
  and the subsequence relation.
- `Roster`: the class list of the selection page; the per-class filter and
  the page `GET /class/:className` answers.
- `Records`: the record builder of `POST /submit`, a map over the class's
  students followed by `filter(Boolean)`.
- `Workbook`: the spreadsheet as an abstract workbook. The class
  `Workbook` has a map from worksheet name to worksheet, and the two writes
  the handler makes: `EnsureSheet` (add the worksheet with its header when
  it is absent) and `Append`.
- `Coloring`: JavaScript's `trim` and `toLowerCase`, the read-back of column
  K, and the `repeatCell` colouring requests.
- `Submission`: the `POST /submit` handler as a method on a `Workbook`,
  with lemmas that tie its steps together.

Things the code does not have are not modelled: an "absent" marker for
students, a yellow colour, or colouring a whole row. Colouring only ever
touches the single Result cell of each row, in column K (index 10), which is
where the header puts "Result". The comments at `app.js:150` and
`app.js:156` say column J, but the code at `app.js:159` and `app.js:179`
uses K. The model follows the code.

The remote service, the clock and number parsing are parameters. The
timestamp is a string argument. `parseFloat` is an abstract
`Parser = string -> Option<real>`, where None stands for NaN, so each
comparison with it is false. The id the service gives a newly added
worksheet is an argument too.

## Model

| member | source | states |
|---|---|---|
| Seqs.DistinctMembers | app.js:18 | Deduplication keeps exactly the values of the input. |
| Seqs.DistinctNoDuplicates | app.js:18 | Deduplication leaves no value twice. |
| Seqs.DistinctFirstOccurrenceOrder | app.js:18 | Deduplicated values keep the order of their first occurrences in the input. |
| Roster.ClassListIsFirstOccurrences | app.js:18 | The class list names each class once, names exactly the classes some student is in, and lists them in the order they first occur in the roster. |
| Roster.ClassStudentsMembers | app.js:36 | The class filter keeps a student exactly when the student is in the roster and in the selected class. |
| Roster.ClassStudentsCount | app.js:36 | The filter keeps each student of the class as many times as the roster holds it, and drops every other student. |
| Roster.ClassStudentsInOrder | app.js:36 | The filtered students are a subsequence of the roster. |
| Roster.ClassPageCases | app.js:34-43 | "No students found for this class." is answered exactly when no student is in the class; otherwise the form gets the class name and exactly that class's students, in roster order, each as often as the roster holds it. |
| Records.CellsUnderHeader | app.js:59-89 | A row has 12 cells, as many as the header; hallticket, student name, result and timestamp sit under the header cells "Hallticket", "Student Name", "Result" and "Timestamp". |
| Records.ResultCellOf | app.js:76-89 | A row's column K (index 10) holds its result. |
| Records.RecordShape | app.js:54-90 | A student gets a row exactly when the subject's entry (grade or marks) is filled. The row then carries the shared form fields, with a missing one as "", plus the student's division (or ""), hallticket, name, entry and the timestamp. |
| Records.GradeRecord | app.js:57-72 | For "Drawing" or "Supw", no row exactly when the grade is empty or missing. Otherwise the row stores the grade, the result "Grade", and blank pass and maximum marks. |
| Records.MarksRecord | app.js:73-89 | For other subjects, no row exactly when the mark is empty or missing. Otherwise the result is "Pass" exactly when mark and pass mark both parse and mark >= pass mark, and "Fail" exactly when not (an unparsable value gives "Fail"). The pass and maximum marks are copied, with a missing one as "". |
| Records.RecordsFollowStudents | app.js:53-91 | The rows are, one for one and in order, the rows of the students whose entries are filled; those students are a subsequence of the class. |
| Records.ContributingMembers | app.js:53-91 | The students that get a row are exactly the class's students with a filled entry. |
| Records.RecordsShareSubmission | app.js:50-91 | All rows of one submission share its timestamp, teacher, class, subject and exam type. Their result is "Grade" with blank pass and maximum marks for a grade subject, and "Pass" or "Fail" otherwise. |
| Records.NoRecordsIff | app.js:48-96 | No row is built exactly when no student of the submitted class has a filled entry for the subject. |
| Workbook.SyncedSheets | app.js:109-147 | After ensure-then-append, the workbook has the old sheet names plus the target. The target holds its old rows, or the header if it is new, followed by the appended rows. Every other worksheet is unchanged. |
| Workbook.HeaderWrittenOnce | app.js:109-147 | Two syncs to a sheet that did not exist give one header row followed by both batches of rows, in order, under the first id. |
| Workbook.Workbook.EnsureSheet | app.js:109-139 | Adds the worksheet with the header row under the given id exactly when no worksheet has that name, and reports whether it did; otherwise nothing changes. |
| Workbook.Workbook.Append | app.js:142-147 | The named worksheet's rows become its old rows followed by the given rows; the id and all other worksheets are unchanged. |
| Coloring.LeadingSpace | app.js:166 | Counts the white space characters `trim` removes from the front: all of them, and no more. |
| Coloring.TrailingSpace | app.js:166 | Counts the white space characters `trim` removes from the end: all of them, and no more. |
| Coloring.TrimKeepsClean | app.js:166 | Text with no white space at either end is left as it is by `trim`. |
| Coloring.TrimOfWord | app.js:166 | A word that starts and ends with a letter is its own trimmed form. |
| Coloring.TrimPadded | app.js:166 | Trimming any white space padding from around a word gives back the word. |
| Coloring.FailResultIsFail | app.js:166-171 | "Fail", as the record builder writes it, and "FAIL" are coloured as fails. |
| Coloring.OtherResultsAreNotFail | app.js:166-171 | "Pass" and "Grade" are not. |
| Coloring.PaddedFailIsFail | app.js:166-171 | Any capitalisation of "fail" with any white space around it is a fail. |
| Coloring.FailIffPaddedFail | app.js:166-171 | A value is a fail exactly when it is some capitalisation of "fail" with only white space around it, and nothing else is. |
| Coloring.RequestPerValue | app.js:165-186 | One request per Result value. The i-th covers exactly rows [i+1, i+2) and columns [10, 11) of the sheet and sets only the background colour. It is light red exactly when the value's trimmed, lower-cased text is "fail", and white otherwise. |
| Coloring.RequestPerSheetRow | app.js:157-186 | Reading K2:K back gives one request per row below the header, and none for a sheet of at most one row. |
| Coloring.RequestForSheetRow | app.js:157-186 | The request for sheet row j covers that row's Result cell and is light red exactly when the cell holds a fail. |
| Coloring.RequestForResultRow | app.js:157-186 | For a row whose Result cell holds "Pass" or "Fail", the request is light red exactly for "Fail". |
| Submission.Submit | app.js:46-198 | The workbook afterwards is the submission's effect on it: unchanged when no row is built, and then "No marks/grades entered!" is answered and no batch is sent. Otherwise it is ensure-then-append with the built rows on `<class>-<subject>`; the colouring batch is the one for that sheet's new state; the success message names the sheet. |
| Submission.ColoringBatchSent | app.js:151-194 | A colouring batch is sent exactly when the subject is not "Drawing" or "Supw" and the sheet has a row below its header. It then has one request per such row. |
| Submission.TrailingRowRequest | app.js:142-186 | For a record appended as one of a sheet's last rows, the request for its row covers its Result cell and is light red exactly when its result is "Fail". |
| Submission.TrailingRowsColoured | app.js:142-194 | When the last rows of a sheet are records with results "Pass" or "Fail", the batch colours every row below the header. Each of those last rows is light red exactly when its record failed. |
| Submission.AppendedRowsColoured | app.js:109-194 | Ensure-then-append of such records into a new sheet, or into one holding at least its header row, leaves the appended rows coloured by their results. |
| Submission.NewRowsColouredByResult | app.js:46-194 | A marks submission that builds rows leaves every newly appended row light red exactly when its result is "Fail". |
| Submission.TwoSubmissionsOneHeader | app.js:94-147 | Two submissions to the same `<class>-<subject>` sheet that did not exist create it exactly when one of them builds a row. It then holds one header row followed by both submissions' rows, in order, under the id of the submission that created it; every other worksheet is untouched. |

## Left out

- Express setup, routing, EJS rendering, static files, `dotenv` and the port (app.js:1-12, 28-31, 205-207): HTTP glue. The rendered pages are modelled as reply values (`ClassPage`, `Reply`).
- Reading `students.json` (app.js:15): the roster is a given sequence of students.
- Google authentication and the real Sheets API calls (app.js:21-26, 102-107, 152-160, 190-193): the spreadsheet is the `Workbook` object. The colouring batch is returned as a value rather than sent.
- Worksheet ids: the service picks the id of a new worksheet, so it is a parameter. The model does not require ids to be unique.
- `Date` and `toLocaleString` (app.js:50): the timestamp is a parameter.
- Floating point: `parseFloat` is an abstract parser. Which strings parse, and to what, is left open, and so is Infinity.
- The `try/catch` reporting of remote failures and the logging (app.js:200-203): remote calls never fail in the model.
- Concurrency: two submissions racing on one worksheet are not modelled, since nothing in the code coordinates them.
- Form fields sent more than once, or as nested objects, which the body parser turns into arrays or objects: every field is a single string.
- Coloring.ResultColumnValues: one list per row below the header. The service's dropping of trailing empty rows from the read of K2:K is not modelled.
- Coloring.ToLower: only lowers A to Z. No other character lower-cases to one of the letters of "fail", so it does not change which values count as fails.
- Workbook.Workbook.Append: requires the worksheet to exist. Appending to a missing worksheet is a remote error, and the handler always ensures the worksheet first.
- Submission.AppendedRowsColoured: requires an existing target sheet to have at least one row (its header). For a sheet created elsewhere without one, the row offsets of the colouring pass are not tied to the appended records.
- Submission.NewRowsColouredByResult: has the same requirement on an existing target sheet.
