/** The record builder of `POST /submit`: one 12-cell row per student of the
    submitted class who has an entry for the subject. */
module Records {
  import opened Values
  import opened Seqs
  import opened Roster

  /** `parseFloat` with NaN as None. Number syntax is left to the caller. */
  type Parser = string -> Option<real>

  /** One output row, in the order of the sheet's columns A to L. */
  datatype Record = Record(
    teacher: string, className: string, division: string, subject: string,
    examType: string, minPass: string, maxMarks: string, hallticket: string,
    studentName: string, marksOrGrade: string, result: string, timestamp: string)
  {
    /** The cells written to columns A to L. */
    function Cells(): seq<string>
    {
      [teacher, className, division, subject, examType, minPass, maxMarks,
       hallticket, studentName, marksOrGrade, result, timestamp]
    }
  }

  /** Row 1 of a new worksheet. */
  const Header: seq<string> := [
    "Teacher", "Class", "Division", "Subject", "Exam Type", "Min Pass",
    "Max Marks", "Hallticket", "Student Name", "Marks/Grade", "Result", "Timestamp"]

  const HallticketColumn := 7
  const NameColumn := 8
  /** Column K, the one the colouring pass reads. */
  const ResultColumn := 10

  /** Every row has a cell under each header cell, and the hallticket, the
      name and the result sit under their own headers. */
  lemma CellsUnderHeader(r: Record)
    ensures |r.Cells()| == |Header| == 12
    ensures Header[HallticketColumn] == "Hallticket" && r.Cells()[HallticketColumn] == r.hallticket
    ensures Header[NameColumn] == "Student Name" && r.Cells()[NameColumn] == r.studentName
    ensures Header[ResultColumn] == "Result" && r.Cells()[ResultColumn] == r.result
    ensures Header[11] == "Timestamp" && r.Cells()[11] == r.timestamp
  {
  }

  /** Column K of a record's row holds its result. This is the Result line
      of CellsUnderHeader on its own, so that proofs about the colouring of
      a row do not bring the header's twelve literals into scope. */
  lemma ResultCellOf(r: Record)
    ensures |r.Cells()| > ResultColumn && r.Cells()[ResultColumn] == r.result
  {
  }

  /** `subjectName === "Drawing" | subjectName === "Supw"`: the bitwise or of
      two booleans is their disjunction. */
  predicate IsGradeSubject(subject: Option<string>)
  {
    subject == Some("Drawing") || subject == Some("Supw")
  }

  function SubjectOf(body: Body): Option<string>
  {
    Field(body, "subjectName")
  }

  /** `parseFloat(v)`; parseFloat(undefined) is NaN. */
  function ParseField(parse: Parser, v: Option<string>): Option<real>
  {
    match v
    case None => None
    case Some(s) => parse(s)
  }

  /** `parseFloat(mark) >= parseFloat(minPassMark)`: false whenever either
      side is NaN. */
  predicate Passes(parse: Parser, mark: string, minPassMark: Option<string>)
  {
    var m, p := parse(mark), ParseField(parse, minPassMark);
    m.Some? && p.Some? && m.value >= p.value
  }

  /** The form field the subject reads for a student: the grade field for a
      grade subject, the marks field otherwise. */
  function Entry(body: Body, student: Student): Option<string>
  {
    if IsGradeSubject(SubjectOf(body)) then Field(body, "grade_" + student.hallticket)
    else Field(body, "marks_" + student.hallticket)
  }

  /** The row for one student, None when the student's entry is empty. */
  function BuildRecord(body: Body, student: Student, timestamp: string, parse: Parser): Option<Record>
  {
    var subject := SubjectOf(body);
    var markValue := Field(body, "marks_" + student.hallticket);
    var gradeValue := Field(body, "grade_" + student.hallticket);
    if IsGradeSubject(subject) then
      if !Filled(gradeValue) then None
      else Some(Record(
        OrEmpty(Field(body, "teacherName")), OrEmpty(Field(body, "className")),
        OrEmpty(student.division), OrEmpty(subject), OrEmpty(Field(body, "examType")),
        "", "", student.hallticket, student.name, gradeValue.value, "Grade", timestamp))
    else
      if !Filled(markValue) then None
      else Some(Record(
        OrEmpty(Field(body, "teacherName")), OrEmpty(Field(body, "className")),
        OrEmpty(student.division), OrEmpty(subject), OrEmpty(Field(body, "examType")),
        OrEmpty(Field(body, "minPassMark")), OrEmpty(Field(body, "maxMarks")),
        student.hallticket, student.name, markValue.value,
        if Passes(parse, markValue.value, Field(body, "minPassMark")) then "Pass" else "Fail",
        timestamp))
  }

  /** A row carries the submission's shared fields, the student's own fields
      and the shared timestamp; missing form values become "". */
  lemma RecordShape(body: Body, student: Student, timestamp: string, parse: Parser)
    ensures BuildRecord(body, student, timestamp, parse).Some? <==> Filled(Entry(body, student))
    ensures BuildRecord(body, student, timestamp, parse).Some? ==>
      var r := BuildRecord(body, student, timestamp, parse).value;
      && r.teacher == OrEmpty(Field(body, "teacherName"))
      && r.className == OrEmpty(Field(body, "className"))
      && r.division == OrEmpty(student.division)
      && r.subject == OrEmpty(SubjectOf(body))
      && r.examType == OrEmpty(Field(body, "examType"))
      && r.hallticket == student.hallticket
      && r.studentName == student.name
      && r.marksOrGrade == Entry(body, student).value
      && r.timestamp == timestamp
  {
  }

  /** Grade subjects: the grade is stored as it is, the result is "Grade" and
      the pass and maximum marks are blank, whatever marks were sent. */
  lemma GradeRecord(body: Body, student: Student, timestamp: string, parse: Parser)
    requires IsGradeSubject(SubjectOf(body))
    ensures BuildRecord(body, student, timestamp, parse).None? <==>
      !Filled(Field(body, "grade_" + student.hallticket))
    ensures BuildRecord(body, student, timestamp, parse).Some? ==>
      var r := BuildRecord(body, student, timestamp, parse).value;
      && r.marksOrGrade == Field(body, "grade_" + student.hallticket).value
      && r.result == "Grade" && r.minPass == "" && r.maxMarks == ""
  {
  }

  /** Marks subjects: the result is "Pass" exactly when both the mark and the
      pass mark parse and the mark is at least the pass mark, and "Fail"
      otherwise, an unparsable value included. */
  lemma MarksRecord(body: Body, student: Student, timestamp: string, parse: Parser)
    requires !IsGradeSubject(SubjectOf(body))
    ensures BuildRecord(body, student, timestamp, parse).None? <==>
      !Filled(Field(body, "marks_" + student.hallticket))
    ensures BuildRecord(body, student, timestamp, parse).Some? ==>
      var r := BuildRecord(body, student, timestamp, parse).value;
      var mark := Field(body, "marks_" + student.hallticket).value;
      var m, p := parse(mark), ParseField(parse, Field(body, "minPassMark"));
      && r.marksOrGrade == mark
      && (r.result == "Pass" <==> m.Some? && p.Some? && m.value >= p.value)
      && (r.result == "Fail" <==> !(m.Some? && p.Some? && m.value >= p.value))
      && r.minPass == OrEmpty(Field(body, "minPassMark"))
      && r.maxMarks == OrEmpty(Field(body, "maxMarks"))
  {
  }

  /** `classStudents.map(...)`: one slot per student, null for a skipped one. */
  function Drafts(body: Body, students: seq<Student>, timestamp: string, parse: Parser): seq<Option<Record>>
  {
    seq(|students|, i requires 0 <= i < |students| => BuildRecord(body, students[i], timestamp, parse))
  }

  /** `classStudents.map(...).filter(Boolean)` */
  function BuildRecords(body: Body, students: seq<Student>, timestamp: string, parse: Parser): seq<Record>
  {
    Present(Drafts(body, students, timestamp, parse))
  }

  /** The students that get a row: those whose entry for the subject is
      filled, in the order given. */
  function Contributing(body: Body, students: seq<Student>): seq<Student>
  {
    if students == [] then []
    else (if Filled(Entry(body, students[0])) then [students[0]] else []) + Contributing(body, students[1..])
  }

  lemma DraftsTail(body: Body, students: seq<Student>, timestamp: string, parse: Parser)
    requires students != []
    ensures Drafts(body, students, timestamp, parse)[0] == BuildRecord(body, students[0], timestamp, parse)
    ensures Drafts(body, students, timestamp, parse)[1..] == Drafts(body, students[1..], timestamp, parse)
  {
  }

  /** The rows are those of the contributing students, one each, in roster
      order; the contributing students are a subsequence of the class. */
  lemma {:induction false} RecordsFollowStudents(body: Body, students: seq<Student>, timestamp: string, parse: Parser)
    ensures |BuildRecords(body, students, timestamp, parse)| == |Contributing(body, students)|
    ensures forall k :: 0 <= k < |Contributing(body, students)| ==>
      BuildRecord(body, Contributing(body, students)[k], timestamp, parse) == Some(BuildRecords(body, students, timestamp, parse)[k])
    ensures Subseq(Contributing(body, students), students)
  {
    if students != [] {
      var rest, picked := students[1..], Contributing(body, students);
      RecordsFollowStudents(body, rest, timestamp, parse);
      DraftsTail(body, students, timestamp, parse);
      RecordShape(body, students[0], timestamp, parse);
      var rows := BuildRecords(body, students, timestamp, parse);
      var drafts := Drafts(body, students, timestamp, parse);
      assert rows == (if drafts[0].Some? then [drafts[0].value] else []) + BuildRecords(body, rest, timestamp, parse);
      if Filled(Entry(body, students[0])) {
        assert picked[0] == students[0] && picked[1..] == Contributing(body, rest);
        assert rows[0] == drafts[0].value && rows[1..] == BuildRecords(body, rest, timestamp, parse);
        forall k | 0 <= k < |picked|
          ensures BuildRecord(body, picked[k], timestamp, parse) == Some(rows[k])
        {
          if k > 0 {
            assert picked[k] == Contributing(body, rest)[k - 1];
            assert rows[k] == BuildRecords(body, rest, timestamp, parse)[k - 1];
          }
        }
      } else {
        assert picked == Contributing(body, rest);
        assert rows == BuildRecords(body, rest, timestamp, parse);
      }
    }
  }

  /** The students of the submitted class; none when no class was sent. */
  function SubmittedStudents(roster: seq<Student>, body: Body): seq<Student>
  {
    match Field(body, "className")
    case None => []
    case Some(c) => ClassStudents(roster, c)
  }

  /** The rows one submission builds. */
  function SubmissionRecords(roster: seq<Student>, body: Body, timestamp: string, parse: Parser): seq<Record>
  {
    BuildRecords(body, SubmittedStudents(roster, body), timestamp, parse)
  }

  /** All rows of one submission share its form fields and its timestamp,
      and their result is "Grade" for a grade subject and "Pass" or "Fail"
      otherwise. */
  lemma RecordsShareSubmission(body: Body, students: seq<Student>, timestamp: string, parse: Parser)
    ensures forall r :: r in BuildRecords(body, students, timestamp, parse) ==>
      && r.timestamp == timestamp
      && r.teacher == OrEmpty(Field(body, "teacherName"))
      && r.className == OrEmpty(Field(body, "className"))
      && r.subject == OrEmpty(SubjectOf(body))
      && r.examType == OrEmpty(Field(body, "examType"))
      && (IsGradeSubject(SubjectOf(body)) ==> r.result == "Grade" && r.minPass == "" && r.maxMarks == "")
      && (!IsGradeSubject(SubjectOf(body)) ==> (r.result == "Pass" || r.result == "Fail"))
  {
    RecordsFollowStudents(body, students, timestamp, parse);
    var rows, picked := BuildRecords(body, students, timestamp, parse), Contributing(body, students);
    forall r | r in rows
      ensures r.timestamp == timestamp
    {
      var k :| 0 <= k < |rows| && rows[k] == r;
      assert BuildRecord(body, picked[k], timestamp, parse) == Some(r);
    }
  }

  /** Nothing is built exactly when no student of the submitted class has a
      filled entry for the subject. */
  lemma {:induction false} NoRecordsIff(roster: seq<Student>, body: Body, timestamp: string, parse: Parser)
    ensures SubmissionRecords(roster, body, timestamp, parse) == [] <==>
      forall s :: s in SubmittedStudents(roster, body) ==> !Filled(Entry(body, s))
  {
    var students := SubmittedStudents(roster, body);
    RecordsFollowStudents(body, students, timestamp, parse);
    ContributingMembers(body, students);
    var picked := Contributing(body, students);
    if picked != [] {
      assert picked[0] in picked;
    }
  }

  lemma {:induction false} ContributingMembers(body: Body, students: seq<Student>)
    ensures forall s :: s in Contributing(body, students) <==> s in students && Filled(Entry(body, s))
  {
    if students != [] {
      ContributingMembers(body, students[1..]);
      assert students == [students[0]] + students[1..];
    }
  }
}
