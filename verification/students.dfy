/**
 One student record: a name, a roll number and a grade table. Grade updates
 are validated against the range [0, 100]; the average is derived on demand;
 and a record converts to and from the field map that the store holds.
 */
module Students {
  import opened Wrappers
  import opened Grades

  /** What an operation reports to the user: one code per message the program prints. */
  datatype Status = Ok | InvalidGrade | Duplicate | NotFound

  datatype Student = Student(name: string, rollNumber: string, grades: Table)

  /** The constructor: an absent grade table stands for a fresh, empty one. */
  function Make(name: string, rollNumber: string, grades: Option<Table>): (s: Student)
    ensures s.name == name && s.rollNumber == rollNumber
    ensures grades.None? ==> s.grades == []
    ensures grades.Some? ==> s.grades == grades.value
  {
    Student(name, rollNumber, if grades.Some? then grades.value else [])
  }

  /** A student after a grade update, with the status the update reported. */
  datatype Graded = Graded(student: Student, status: Status)

  /**
   Records `grade` for `subject`. A grade outside [0, 100] is reported as
   invalid and changes nothing; otherwise the subject gets the grade, replacing
   any earlier one in place, and no other subject is touched.
   */
  function AddGrade(s: Student, subject: string, grade: real): (r: Graded)
    ensures r.status == Ok <==> ValidGrade(grade)
    ensures r.status != Ok ==> r == Graded(s, InvalidGrade)
    ensures r.student.name == s.name && r.student.rollNumber == s.rollNumber
    ensures r.status == Ok ==> AsMap(r.student.grades) == AsMap(s.grades)[subject := grade]
    ensures subject in AsMap(s.grades) ==>
              |r.student.grades| == |s.grades| &&
              forall i :: 0 <= i < |s.grades| ==> r.student.grades[i].0 == s.grades[i].0
    ensures r.status == Ok && subject !in AsMap(s.grades) ==> r.student.grades == s.grades + [(subject, grade)]
    ensures AllValid(s.grades) ==> AllValid(r.student.grades)
  {
    if ValidGrade(grade) then
      PutKeepsValid(s.grades, subject, grade);
      Graded(s.(grades := Put(s.grades, subject, grade)), Ok)
    else
      Graded(s, InvalidGrade)
  }

  /**
   After an accepted update the subject holds the new grade, and every other
   subject is present exactly when it was before, with the grade it had.
   */
  lemma AddGradeFrame(s: Student, subject: string, grade: real, other: string)
    requires ValidGrade(grade) && other != subject
    ensures subject in AsMap(AddGrade(s, subject, grade).student.grades)
    ensures AsMap(AddGrade(s, subject, grade).student.grades)[subject] == grade
    ensures other in AsMap(s.grades) <==> other in AsMap(AddGrade(s, subject, grade).student.grades)
    ensures other in AsMap(s.grades) ==>
              AsMap(AddGrade(s, subject, grade).student.grades)[other] == AsMap(s.grades)[other]
  {
  }

  /** The mean of the student's grades, or zero when there are none. */
  function Average(s: Student): (r: real)
    ensures |s.grades| == 0 ==> r == 0.0
  {
    if |s.grades| == 0 then 0.0 else Mean(Total(s.grades), |s.grades|)
  }

  /**
   The average is zero without grades, and otherwise the sum of the grade map's
   values divided by the number of subjects, whatever order they were added in.
   */
  lemma AverageIsMapMean(s: Student)
    ensures |AsMap(s.grades)| == 0 ==> Average(s) == 0.0
    ensures |AsMap(s.grades)| > 0 ==> Average(s) == MapSum(AsMap(s.grades)) / (|AsMap(s.grades)| as real)
  {
    TotalIsMapSum(s.grades);
  }

  /** A student whose grades are all in [0, 100] has an average in [0, 100]. */
  lemma AverageBounds(s: Student)
    requires AllValid(s.grades)
    ensures 0.0 <= Average(s) <= 100.0
  {
    if |s.grades| > 0 {
      TotalBounds(s.grades);
      MeanBounds(Total(s.grades), |s.grades|);
    }
  }

  /** The mean of `n` values that add up to `total`. */
  function Mean(total: real, n: nat): (m: real)
    requires n > 0
    ensures m * (n as real) == total
  {
    total / (n as real)
  }

  /** The mean of `n` values in [0, 100], given their total, lies in [0, 100]. */
  lemma MeanBounds(total: real, n: nat)
    requires n > 0 && 0.0 <= total <= 100.0 * (n as real)
    ensures 0.0 <= Mean(total, n) <= 100.0
  {
  }

  /** The value of one field of a stored record. */
  datatype Field = Str(text: string) | GradeObject(entries: Table) | Null

  /** A stored record: field name to field value. */
  type Fields = map<string, Field>

  /** The keyword parameters the constructor accepts. */
  const Parameters: set<string> := {"name", "roll_number", "grades"}

  /** The record as a field map, ready to be written to the store. */
  function ToDict(s: Student): (d: Fields)
    ensures d.Keys == Parameters
    ensures d["name"] == Str(s.name) && d["roll_number"] == Str(s.rollNumber)
    ensures d["grades"] == GradeObject(s.grades)
  {
    map["name" := Str(s.name), "roll_number" := Str(s.rollNumber), "grades" := GradeObject(s.grades)]
  }

  /**
   Rebuilds a student from a field map by passing its fields as keyword
   arguments to the constructor. An unknown field or a missing name or roll
   number makes the call fail; a missing or null grade table means no grades.
   The grades themselves are taken as they are, without range checks.
   */
  function FromDict(d: Fields): (r: Option<Student>)
    ensures r.Some? <==>
              && d.Keys <= Parameters && "name" in d && "roll_number" in d
              && d["name"].Str? && d["roll_number"].Str?
              && ("grades" in d ==> !d["grades"].Str?)
    ensures r.Some? ==> r.value.name == d["name"].text && r.value.rollNumber == d["roll_number"].text
    ensures r.Some? && "grades" in d && d["grades"].GradeObject? ==> r.value.grades == d["grades"].entries
    ensures r.Some? && ("grades" !in d || d["grades"] == Null) ==> r.value.grades == []
  {
    if !(d.Keys <= Parameters) || "name" !in d || "roll_number" !in d then None
    else
      match (d["name"], d["roll_number"], if "grades" in d then d["grades"] else Null)
      case (Str(name), Str(rollNumber), Null) => Some(Make(name, rollNumber, None))
      case (Str(name), Str(rollNumber), GradeObject(t)) => Some(Make(name, rollNumber, Some(t)))
      case _ => None
  }

  /** Writing a record out and reading it back gives the same record. */
  lemma DictRoundTrip(s: Student)
    ensures FromDict(ToDict(s)) == Some(s)
  {
  }

  /** The grade range is kept: a record whose grades are valid stays valid under every update. */
  lemma AddGradeKeepsValid(s: Student, subject: string, grade: real)
    requires AllValid(s.grades)
    ensures AllValid(AddGrade(s, subject, grade).student.grades)
    ensures 0.0 <= Average(AddGrade(s, subject, grade).student) <= 100.0
  {
    AverageBounds(AddGrade(s, subject, grade).student);
  }
}
