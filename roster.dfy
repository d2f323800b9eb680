/** The student roster loaded at start-up, the class list shown on the
    selection page, and the per-class filter behind the entry form. */
module Roster {
  import opened Values
  import opened Seqs

  /** One record of the roster file. The division may be missing. */
  datatype Student = Student(hallticket: string, name: string, className: string, division: Option<string>)

  /** `students.map(s => s.className)` */
  function ClassNames(roster: seq<Student>): seq<string>
  {
    seq(|roster|, i requires 0 <= i < |roster| => roster[i].className)
  }

  /** The classes offered on the selection page. */
  function ClassList(roster: seq<Student>): seq<string>
  {
    Distinct(ClassNames(roster))
  }

  /** The class list names each class once, names exactly the classes of the
      roster, and lists them in the order they first occur in it. */
  lemma ClassListIsFirstOccurrences(roster: seq<Student>)
    ensures forall i, j :: 0 <= i < j < |ClassList(roster)| ==> ClassList(roster)[i] != ClassList(roster)[j]
    ensures forall c :: c in ClassList(roster) <==> exists k :: 0 <= k < |roster| && roster[k].className == c
    ensures forall i, j :: 0 <= i < j < |ClassList(roster)| ==>
      FirstIndex(ClassNames(roster), ClassList(roster)[i]) < FirstIndex(ClassNames(roster), ClassList(roster)[j])
  {
    var names := ClassNames(roster);
    DistinctNoDuplicates(names);
    DistinctMembers(names);
    DistinctFirstOccurrenceOrder(names);
    forall c ensures c in names <==> exists k :: 0 <= k < |roster| && roster[k].className == c {
      if c in names {
        var k :| 0 <= k < |names| && names[k] == c;
        assert roster[k].className == c;
      }
      if exists k :: 0 <= k < |roster| && roster[k].className == c {
        var k :| 0 <= k < |roster| && roster[k].className == c;
        assert names[k] == c;
      }
    }
  }

  /** `students.filter(s => s.className === c)` */
  function ClassStudents(roster: seq<Student>, c: string): seq<Student>
  {
    if roster == [] then []
    else (if roster[0].className == c then [roster[0]] else []) + ClassStudents(roster[1..], c)
  }

  /** The filter keeps exactly the students of class c. */
  lemma {:induction false} ClassStudentsMembers(roster: seq<Student>, c: string)
    ensures forall s :: s in ClassStudents(roster, c) <==> s in roster && s.className == c
  {
    if roster != [] {
      ClassStudentsMembers(roster[1..], c);
      assert roster == [roster[0]] + roster[1..];
    }
  }

  /** Each student of class c is kept as often as the roster holds it. */
  lemma {:induction false} ClassStudentsCount(roster: seq<Student>, c: string)
    ensures forall s :: multiset(ClassStudents(roster, c))[s] == (if s.className == c then multiset(roster)[s] else 0)
  {
    if roster != [] {
      ClassStudentsCount(roster[1..], c);
      assert roster == [roster[0]] + roster[1..];
      var head := if roster[0].className == c then [roster[0]] else [];
      assert multiset(ClassStudents(roster, c)) == multiset(head) + multiset(ClassStudents(roster[1..], c));
      assert multiset(roster) == multiset([roster[0]]) + multiset(roster[1..]);
    }
  }

  /** The kept students stay in roster order. */
  lemma {:induction false} ClassStudentsInOrder(roster: seq<Student>, c: string)
    ensures Subseq(ClassStudents(roster, c), roster)
  {
    if roster != [] {
      ClassStudentsInOrder(roster[1..], c);
      var r := ClassStudents(roster, c);
      if roster[0].className == c {
        assert r[0] == roster[0] && r[1..] == ClassStudents(roster[1..], c);
      } else {
        assert r == ClassStudents(roster[1..], c);
      }
    }
  }

  /** What `GET /class/:className` answers: a plain message, or the entry
      form for the class's students. */
  datatype ClassPage = NotFound(text: string) | EntryForm(students: seq<Student>, className: string)

  const NoStudentsMessage := "No students found for this class."

  function ClassPageFor(roster: seq<Student>, className: string): ClassPage
  {
    var students := ClassStudents(roster, className);
    if |students| == 0 then NotFound(NoStudentsMessage) else EntryForm(students, className)
  }

  /** The message is shown exactly when no student of the roster is in the
      class; otherwise the form lists the class's students in roster order, each as
      often as the roster holds it. */
  lemma ClassPageCases(roster: seq<Student>, className: string)
    ensures ClassPageFor(roster, className) == NotFound(NoStudentsMessage) <==>
      forall s :: s in roster ==> s.className != className
    ensures ClassPageFor(roster, className).EntryForm? ==>
      && ClassPageFor(roster, className).className == className
      && Subseq(ClassPageFor(roster, className).students, roster)
      && (forall s :: s in ClassPageFor(roster, className).students <==> s in roster && s.className == className)
      && forall s :: multiset(ClassPageFor(roster, className).students)[s] == (if s.className == className then multiset(roster)[s] else 0)
  {
    ClassStudentsMembers(roster, className);
    ClassStudentsCount(roster, className);
    ClassStudentsInOrder(roster, className);
    var students := ClassStudents(roster, className);
    if students != [] {
      assert students[0] in students;
    }
  }
}
