/**
 The tracker: an insertion-ordered collection of student records keyed by
 roll number. Every operation is a pure function of the collection. A mutating
 operation returns the new collection, the messages it reports (as status
 codes, in the order they are shown) and whether it wrote the collection back
 to the store. Reading operations return what the program displays.
 */
module Tracker {
  import opened Wrappers
  import opened Grades
  import opened Students

  /** The outcome of one mutating operation. */
  datatype Step = Step(students: seq<Student>, reports: seq<Status>, saved: bool)

  /** No two records share a roll number. */
  predicate UniqueRolls(ts: seq<Student>) {
    forall i, j :: 0 <= i < j < |ts| ==> ts[i].rollNumber != ts[j].rollNumber
  }

  /** No record carries `roll`. */
  predicate Absent(ts: seq<Student>, roll: string) {
    forall j :: 0 <= j < |ts| ==> ts[j].rollNumber != roll
  }

  /** Every grade of every record lies in [0, 100]. */
  predicate AllGradesValid(ts: seq<Student>) {
    forall i :: 0 <= i < |ts| ==> AllValid(ts[i].grades)
  }

  /** Record `i` carries `roll` and no earlier record does. */
  predicate FirstMatch(ts: seq<Student>, roll: string, i: nat) {
    i < |ts| && ts[i].rollNumber == roll && forall k :: 0 <= k < i ==> ts[k].rollNumber != roll
  }

  /** The position of the first record with roll number `roll`, scanning from the front. */
  function Find(ts: seq<Student>, roll: string): (r: Option<nat>)
    ensures r.None? <==> Absent(ts, roll)
    ensures r.Some? ==> FirstMatch(ts, roll, r.value)
  {
    if |ts| == 0 then None
    else if ts[0].rollNumber == roll then Some(0)
    else
      match Find(ts[1..], roll)
      case None => None
      case Some(i) =>
        assert forall k :: 1 <= k <= i ==> ts[k] == ts[1..][k - 1];
        Some(i + 1)
  }

  /** Under unique roll numbers the first match is the only one. */
  lemma FindUnique(ts: seq<Student>, roll: string, j: nat)
    requires UniqueRolls(ts)
    requires j < |ts| && ts[j].rollNumber == roll
    ensures Find(ts, roll) == Some(j)
  {
  }

  /**
   Adds a student with no grades at the end, unless the roll number is already
   taken, in which case the duplicate is reported and nothing changes.
   */
  function AddStudent(ts: seq<Student>, name: string, roll: string): (r: Step)
    ensures !Absent(ts, roll) ==> r == Step(ts, [Duplicate], false)
    ensures Absent(ts, roll) ==> r == Step(ts + [Student(name, roll, [])], [Ok], true)
    ensures Find(r.students, roll).Some?
    ensures UniqueRolls(ts) ==> UniqueRolls(r.students)
    ensures AllGradesValid(ts) ==> AllGradesValid(r.students)
  {
    if Find(ts, roll).Some? then Step(ts, [Duplicate], false)
    else
      var added := ts + [Make(name, roll, None)];
      assert added[|ts|].rollNumber == roll;
      Step(added, [Ok], true)
  }

  /**
   Records a grade for the first student with roll number `roll`. When there is
   one, the record's own update runs (which may reject the grade and report it),
   and then success is reported and the collection saved in either case. When
   there is none, "not found" is reported and nothing changes.
   */
  function AddGrade(ts: seq<Student>, roll: string, subject: string, grade: real): (r: Step)
    ensures Absent(ts, roll) ==> r == Step(ts, [NotFound], false)
    ensures forall i: nat :: FirstMatch(ts, roll, i) ==>
              && r.students == ts[i := Students.AddGrade(ts[i], subject, grade).student]
              && r.reports == (if ValidGrade(grade) then [Ok] else [InvalidGrade, Ok])
              && r.saved
    ensures |r.students| == |ts|
    ensures forall i :: 0 <= i < |ts| ==>
              r.students[i].name == ts[i].name && r.students[i].rollNumber == ts[i].rollNumber
    ensures AllGradesValid(ts) ==> AllGradesValid(r.students)
  {
    match Find(ts, roll)
    case None => Step(ts, [NotFound], false)
    case Some(i) =>
      var g := Students.AddGrade(ts[i], subject, grade);
      assert forall j: nat :: FirstMatch(ts, roll, j) ==> j == i;
      assert g.student.name == ts[i].name && g.student.rollNumber == ts[i].rollNumber;
      assert AllValid(ts[i].grades) ==> AllValid(g.student.grades);
      Step(ts[i := g.student], (if g.status == Ok then [] else [g.status]) + [Ok], true)
  }

  /**
   A grade outside [0, 100] sent to an existing student changes nothing, yet the
   last thing reported is success and the collection is saved.
   */
  lemma RejectedGradeReportedAsSaved(ts: seq<Student>, roll: string, subject: string, grade: real)
    requires !Absent(ts, roll) && !ValidGrade(grade)
    ensures AddGrade(ts, roll, subject, grade).students == ts
    ensures AddGrade(ts, roll, subject, grade).reports == [InvalidGrade, Ok]
    ensures AddGrade(ts, roll, subject, grade).saved
  {
    var i := Find(ts, roll).value;
    assert ts[i := ts[i]] == ts;
  }

  /** Grade updates leave roll numbers, and with them their uniqueness, alone. */
  lemma AddGradeKeepsUnique(ts: seq<Student>, roll: string, subject: string, grade: real)
    requires UniqueRolls(ts)
    ensures UniqueRolls(AddGrade(ts, roll, subject, grade).students)
  {
    var r := AddGrade(ts, roll, subject, grade).students;
    forall i, j | 0 <= i < j < |r|
      ensures r[i].rollNumber != r[j].rollNumber
    {
      assert r[i].rollNumber == ts[i].rollNumber && r[j].rollNumber == ts[j].rollNumber;
    }
  }

  /** What viewing one student shows: identity, grades in insertion order, and average. */
  datatype Details = Details(name: string, rollNumber: string, grades: seq<Entry>, average: real)

  /** The details of the first student with roll number `roll`, or nothing when none has it. */
  function StudentDetails(ts: seq<Student>, roll: string): (r: Option<Details>)
    ensures r.None? <==> Absent(ts, roll)
    ensures r.Some? ==>
              exists i: nat :: FirstMatch(ts, roll, i) &&
                r.value == Details(ts[i].name, ts[i].rollNumber, ts[i].grades, Average(ts[i]))
  {
    match Find(ts, roll)
    case None => None
    case Some(i) => Some(Details(ts[i].name, ts[i].rollNumber, ts[i].grades, Average(ts[i])))
  }

  /** Under unique roll numbers, viewing a student shows exactly that student's record. */
  lemma DetailsOfUnique(ts: seq<Student>, j: nat)
    requires UniqueRolls(ts) && j < |ts|
    ensures StudentDetails(ts, ts[j].rollNumber) ==
              Some(Details(ts[j].name, ts[j].rollNumber, ts[j].grades, Average(ts[j])))
  {
    FindUnique(ts, ts[j].rollNumber, j);
  }

  /** The sum of the per-student averages, front to back. */
  function SumOfAverages(ts: seq<Student>): real
  {
    if |ts| == 0 then 0.0 else Average(ts[0]) + SumOfAverages(ts[1..])
  }

  /**
   The class average: every student counts once, whatever the number of their
   grades. With no students there is none.
   */
  function ClassAverage(ts: seq<Student>): (r: Option<real>)
    ensures r.None? <==> |ts| == 0
    ensures r.Some? ==> r.value * (|ts| as real) == SumOfAverages(ts)
  {
    if |ts| == 0 then None
    else
      Some(Mean(SumOfAverages(ts), |ts|))
  }

  /** Per-student averages in [0, 100] add up to something in [0, 100 * count]. */
  lemma {:induction false} SumOfAveragesBounds(ts: seq<Student>)
    requires AllGradesValid(ts)
    ensures 0.0 <= SumOfAverages(ts) <= 100.0 * (|ts| as real)
  {
    if |ts| > 0 {
      AverageBounds(ts[0]);
      assert AllGradesValid(ts[1..]) by {
        forall i | 0 <= i < |ts[1..]|
          ensures AllValid(ts[1..][i].grades)
        {
          assert ts[1..][i] == ts[i + 1];
        }
      }
      SumOfAveragesBounds(ts[1..]);
    }
  }

  /** When all grades are valid, the class average lies in [0, 100]. */
  lemma ClassAverageBounds(ts: seq<Student>)
    requires |ts| > 0 && AllGradesValid(ts)
    ensures 0.0 <= ClassAverage(ts).value <= 100.0
  {
    SumOfAveragesBounds(ts);
    MeanBounds(SumOfAverages(ts), |ts|);
  }

  /** One line of the all-students summary. */
  datatype SummaryLine = SummaryLine(name: string, rollNumber: string, average: real)

  /** Every student in collection order with their average; nothing when there are no students. */
  function Summary(ts: seq<Student>): (r: Option<seq<SummaryLine>>)
    ensures r.None? <==> |ts| == 0
    ensures r.Some? ==> |r.value| == |ts|
    ensures r.Some? ==> forall i :: 0 <= i < |ts| ==>
              r.value[i] == SummaryLine(ts[i].name, ts[i].rollNumber, Average(ts[i]))
  {
    if |ts| == 0 then None
    else Some(seq(|ts|, i requires 0 <= i < |ts| => SummaryLine(ts[i].name, ts[i].rollNumber, Average(ts[i]))))
  }

  /** The sum of the averages a summary shows. */
  function ShownTotal(lines: seq<SummaryLine>): real
  {
    if |lines| == 0 then 0.0 else lines[0].average + ShownTotal(lines[1..])
  }

  /** The class average is the plain mean of the averages the summary lists. */
  lemma {:induction false} ClassAverageIsMeanOfSummary(ts: seq<Student>)
    requires |ts| > 0
    ensures ClassAverage(ts).value == ShownTotal(Summary(ts).value) / (|ts| as real)
  {
    ShownTotalOfStudents(ts, Summary(ts).value);
  }

  lemma {:induction false} ShownTotalOfStudents(ts: seq<Student>, lines: seq<SummaryLine>)
    requires |lines| == |ts|
    requires forall i :: 0 <= i < |ts| ==> lines[i].average == Average(ts[i])
    ensures ShownTotal(lines) == SumOfAverages(ts)
  {
    if |ts| > 0 {
      ShownTotalOfStudents(ts[1..], lines[1..]);
    }
  }

  /** The store's content: the list of field maps, one per student, in collection order. */
  function Save(ts: seq<Student>): (r: seq<Fields>)
    ensures |r| == |ts|
    ensures forall i :: 0 <= i < |ts| ==> r[i].Keys == Parameters && r[i]["grades"] == GradeObject(ts[i].grades)
    ensures forall i :: 0 <= i < |ts| ==> FromDict(r[i]) == Some(ts[i])
  {
    seq(|ts|, i requires 0 <= i < |ts| => ToDict(ts[i]))
  }

  /** Why loading failed: the position of the first record the constructor rejects. */
  datatype LoadError = RejectedRecord(index: nat)

  /**
   Rebuilds every stored record in order. The first record the constructor
   rejects stops the load; nothing is validated beyond that.
   */
  function LoadRecords(rs: seq<Fields>): (r: Result<seq<Student>, LoadError>)
    ensures r.Success? <==> forall i :: 0 <= i < |rs| ==> FromDict(rs[i]).Some?
    ensures r.Success? ==> |r.value| == |rs| && forall i :: 0 <= i < |rs| ==> FromDict(rs[i]) == Some(r.value[i])
    ensures r.Failure? ==>
              && r.error.index < |rs|
              && FromDict(rs[r.error.index]).None?
              && forall j :: 0 <= j < r.error.index ==> FromDict(rs[j]).Some?
  {
    if |rs| == 0 then Success([])
    else
      match FromDict(rs[0])
      case None => Failure(RejectedRecord(0))
      case Some(s) =>
        match LoadRecords(rs[1..])
        case Failure(RejectedRecord(i)) => Failure(RejectedRecord(i + 1))
        case Success(rest) => Success([s] + rest)
  }

  /**
   Loading at start-up. `None` stands for a store file that is missing or does
   not hold valid JSON; either gives an empty collection.
   */
  function Load(store: Option<seq<Fields>>): (r: Result<seq<Student>, LoadError>)
    ensures store.None? ==> r == Success([])
    ensures store.Some? ==> r == LoadRecords(store.value)
  {
    match store
    case None => Success([])
    case Some(rs) => LoadRecords(rs)
  }

  /** What is saved loads back as the same collection, record for record. */
  lemma SaveLoadRoundTrip(ts: seq<Student>)
    ensures Load(Some(Save(ts))) == Success(ts)
  {
    var r := LoadRecords(Save(ts));
    assert r.Success?;
    assert r.value == ts;
  }

  /**
   Loading does not check what it reads: a store with two records under one
   roll number, one holding a grade of 150, loads without complaint.
   */
  lemma LoadDoesNotValidate()
    ensures var d := map["name" := Str("A"), "roll_number" := Str("R1"), "grades" := GradeObject([("Math", 150.0)])];
            var r := Load(Some([d, d]));
            r.Success? && !UniqueRolls(r.value) && !AllGradesValid(r.value)
  {
    var d := map["name" := Str("A"), "roll_number" := Str("R1"), "grades" := GradeObject([("Math", 150.0)])];
    var s := Student("A", "R1", [("Math", 150.0)]);
    assert FromDict(d) == Some(s);
    var r := Load(Some([d, d]));
    assert r.value == [s, s];
    assert r.value[0].grades[0].1 == 150.0;
  }

  /** A mutating request of the menu. */
  datatype Mutation =
    | NewStudent(name: string, rollNumber: string)
    | NewGrade(rollNumber: string, subject: string, grade: real)

  function Apply(ts: seq<Student>, m: Mutation): Step
  {
    match m
    case NewStudent(name, roll) => AddStudent(ts, name, roll)
    case NewGrade(roll, subject, grade) => AddGrade(ts, roll, subject, grade)
  }

  /** The collection after a run of mutating requests, one after the other. */
  function Run(ts: seq<Student>, ms: seq<Mutation>): seq<Student>
    decreases |ms|
  {
    if |ms| == 0 then ts else Run(Apply(ts, ms[0]).students, ms[1..])
  }

  /**
   Unique roll numbers and grades in [0, 100] hold after any run of requests
   that starts from a collection where they hold (an empty one, say).
   */
  lemma {:induction false} RunKeepsInvariants(ts: seq<Student>, ms: seq<Mutation>)
    requires UniqueRolls(ts) && AllGradesValid(ts)
    ensures UniqueRolls(Run(ts, ms)) && AllGradesValid(Run(ts, ms))
    decreases |ms|
  {
    if |ms| > 0 {
      var next := Apply(ts, ms[0]).students;
      if ms[0].NewGrade? {
        AddGradeKeepsUnique(ts, ms[0].rollNumber, ms[0].subject, ms[0].grade);
      }
      RunKeepsInvariants(next, ms[1..]);
    }
  }

  /** A repeated roll number is turned away and the collection keeps its size. */
  lemma DuplicateKeepsSize(ts: seq<Student>, name: string, roll: string)
    ensures |AddStudent(AddStudent(ts, name, roll).students, name, roll).students| ==
            |AddStudent(ts, name, roll).students|
  {
  }

  /**
   A session from an empty store: Alice is added as R1, Bob is refused R1,
   Alice gets 95 in Math, her details show that grade and an average of 95,
   and a grade for the unknown R2 is reported as not found.
   */
  lemma Session()
    ensures var s1 := AddStudent([], "Alice", "R1");
            var s2 := AddStudent(s1.students, "Bob", "R1");
            var s3 := AddGrade(s2.students, "R1", "Math", 95.0);
            var s4 := AddGrade(s3.students, "R2", "Math", 50.0);
            && s1.reports == [Ok]
            && s2.reports == [Duplicate] && s2.students == s1.students
            && s3.reports == [Ok]
            && StudentDetails(s3.students, "R1") == Some(Details("Alice", "R1", [("Math", 95.0)], 95.0))
            && s4.reports == [NotFound] && s4.students == s3.students
  {
    var alice := Student("Alice", "R1", []);
    var s1 := AddStudent([], "Alice", "R1");
    assert s1 == Step([alice], [Ok], true);
    var s2 := AddStudent(s1.students, "Bob", "R1");
    assert Find([alice], "R1") == Some(0);
    assert s2 == Step([alice], [Duplicate], false);
    var graded := Student("Alice", "R1", [("Math", 95.0)]);
    assert Students.AddGrade(alice, "Math", 95.0) == Graded(graded, Ok);
    var s3 := AddGrade(s2.students, "R1", "Math", 95.0);
    assert s3 == Step([graded], [Ok], true);
    assert Average(graded) == 95.0;
    assert Find([graded], "R2") == None by {
      assert "R2" != "R1" by { assert "R2"[1] != "R1"[1]; }
    }
  }

  /**
   Averages of 85 (Math 80, Science 90) and 50 give a class average of 67.5,
   whereas pooling the three grades would give 220 / 3.
   */
  lemma ClassAverageIsPerStudent()
    ensures var a := Student("A", "R1", [("Math", 80.0), ("Science", 90.0)]);
            var b := Student("B", "R2", [("Math", 50.0)]);
            && Average(a) == 85.0 && Average(b) == 50.0
            && ClassAverage([a, b]) == Some(67.5)
            && 67.5 != (Total(a.grades) + Total(b.grades)) / 3.0
  {
    var a := Student("A", "R1", [("Math", 80.0), ("Science", 90.0)]);
    var b := Student("B", "R2", [("Math", 50.0)]);
    assert Total(a.grades) == 170.0;
    assert Average(a) == 85.0;
    assert Total(b.grades) == 50.0;
    assert Average(b) == 50.0;
    assert [a, b][1..] == [b];
    assert [b][1..] == [];
    assert SumOfAverages([b]) == 50.0;
    assert SumOfAverages([a, b]) == 135.0;
  }
}
