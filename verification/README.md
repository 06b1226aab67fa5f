# Student Performance Tracker — a Dafny model of its record keeping

The program keeps a list of students. Each student has a name, a roll number
and a dictionary from subject to grade. It offers five things: add a student
under a roll number that must not be taken yet; add a grade in [0, 100] for a
subject of a student found by roll number; show one student's details; show
the class average; and show a summary of every student. Every successful
mutation rewrites the whole list to a JSON store. On start-up the list is read
back, and a store file that is missing or does not hold valid JSON gives an
empty list.

This project models that logic as pure functions over immutable values:

- `wrappers.dfy` — `Option` and `Result`.
- `grades.dfy` (module `Grades`) — the grade dictionary. It is an
  insertion-ordered sequence of (subject, grade) entries whose subjects are
  distinct, because a Python dict remembers insertion order and holds each key
  once. `AsMap` gives the map the sequence denotes. `Put` is the dictionary
  assignment: an existing subject keeps its place, a new one goes last.
  `Total` sums the grades in order. The ghost `MapSum` sums a map's values in
  no particular order, and a lemma shows the two sums agree.
- `students.dfy` (module `Students`) — the student record: the validated grade
  update, the average, and the conversion to and from the field map the store
  holds (`ToDict` and `FromDict`, the latter modelling `Student(**data)`).
- `tracker.dfy` (module `Tracker`) — the collection as `seq<Student>`: lookup by
  roll number, `AddStudent`, `AddGrade`, `StudentDetails`, `ClassAverage`,
  `Summary`, and `Save` / `Load` at the level of field maps. A mutating
  operation returns a `Step`. It holds the new collection, the messages the
  program prints as status codes in order (`Ok`, `InvalidGrade`, `Duplicate`,
  `NotFound`), and whether the collection was written back to the store.

Grades are Dafny `real`s. Python floats become exact numbers, so the averaging
facts are proved, not approximated.

One quirk is modelled as written. When the roll number exists,
`StudentTracker.add_grade` saves and prints "Grade added successfully!" even if
the student's own `add_grade` has just rejected the grade. So a rejected grade
for a known student yields the reports `[InvalidGrade, Ok]`, an unchanged
collection and `saved == true` (`Tracker.RejectedGradeReportedAsSaved`).

The model follows the code as written. In particular:

- Loading does not validate anything. Duplicate roll numbers and grades
  outside [0, 100] in the store are loaded as they are
  (`Tracker.LoadDoesNotValidate`).
- A store record with an unknown field, or without a name or roll number, makes
  the constructor raise `TypeError`. `load_students` does not catch that error,
  so it is not recovered into an empty list. `Load` returns
  `Failure(RejectedRecord(i))` for the first such record. A record without
  grades is accepted with no grades, because the grade table defaults to none.
- The save/load round trip holds for every collection, the empty one included.

## Model

| member | source | states |
|---|---|---|
| Grades.Put | Student_Performance_Tracker.py:16 | storing a grade turns the denoted map `m` into `m[subject := grade]`; an existing subject keeps its position and the table keeps its length; a new subject is appended last; every entry is the new one or an old one |
| Grades.AsMap | Student_Performance_Tracker.py:8-11 | the entry table denotes a dictionary with one key per entry (same size), each key carrying its entry's grade, and no other keys |
| Grades.TotalIsMapSum | Student_Performance_Tracker.py:23 | summing the grades in table order equals the order-free sum of the dictionary's values |
| Grades.TotalBounds | Student_Performance_Tracker.py:15 | grades in [0, 100] sum to between 0 and 100 times their number |
| Grades.PutKeepsValid | Student_Performance_Tracker.py:15-16 | storing a grade in [0, 100] keeps every grade of the table in [0, 100] |
| Students.AddGrade | Student_Performance_Tracker.py:13-18 | the update is accepted exactly when 0 <= grade <= 100; a rejected one reports `InvalidGrade` and returns the student unchanged; an accepted one maps the subject to the grade, overwriting an existing subject in place and appending a new one last, and leaves name and roll number alone; valid grades stay valid |
| Students.AddGradeFrame | Student_Performance_Tracker.py:16 | after an accepted update the subject holds the new grade, and every other subject is present exactly when it was before, with its old grade |
| Students.AddGradeKeepsValid | Student_Performance_Tracker.py:13-24 | a student whose grades are all in [0, 100] keeps them so after any update, and their average stays in [0, 100] |
| Students.AverageIsMapMean | Student_Performance_Tracker.py:20-24 | the average is 0 with no grades, and otherwise the sum of the dictionary's values divided by the number of subjects |
| Students.AverageBounds | Student_Performance_Tracker.py:20-24 | grades all in [0, 100] give an average in [0, 100] |
| Students.Make | Student_Performance_Tracker.py:8-11 | a new student carries the given name and roll number; with no grade table given it starts with no grades, otherwise it keeps the given table |
| Students.Average | Student_Performance_Tracker.py:20-24 | a student with no grades has average 0 (the full characterisation is `Students.AverageIsMapMean`) |
| Students.ToDict | Student_Performance_Tracker.py:26-28 | the saved fields are exactly name, roll_number and grades, holding the student's name, roll number and grade table |
| Students.FromDict | Student_Performance_Tracker.py:8-11 | rebuilding from fields succeeds exactly when every field is a constructor parameter, name and roll number are present as text, and grades is absent, null or a grade table; the rebuilt student has the given name and roll number, the given grade table, or no grades when it is absent or null |
| Students.DictRoundTrip | Student_Performance_Tracker.py:26-28 | rebuilding a student from the fields it was saved as gives the same name, roll number and grades |
| Tracker.Find | Student_Performance_Tracker.py:59-60 | the lookup finds nothing exactly when no record has the roll number; otherwise it returns the position of the first record that has it |
| Tracker.FindUnique | Student_Performance_Tracker.py:69-70 | under unique roll numbers, any record carrying the roll number is the one the lookup returns |
| Tracker.AddStudent | Student_Performance_Tracker.py:48-55 | a taken roll number reports `Duplicate` and leaves the collection unchanged and unsaved; otherwise exactly one student with no grades is appended, `Ok` is reported and the collection is saved; the roll number is present afterwards; unique roll numbers and valid grades are preserved |
| Tracker.AddGrade | Student_Performance_Tracker.py:57-65 | an unknown roll number reports `NotFound` and changes and saves nothing; otherwise only the first matching record gets the student-level update, success is reported last and the collection is saved; length, order, names and roll numbers never change; valid grades stay valid |
| Tracker.RejectedGradeReportedAsSaved | Student_Performance_Tracker.py:61-63 | an out-of-range grade for a known roll number leaves the collection unchanged, yet reports `[InvalidGrade, Ok]` and saves |
| Tracker.AddGradeKeepsUnique | Student_Performance_Tracker.py:57-65 | grade updates preserve unique roll numbers |
| Tracker.StudentDetails | Student_Performance_Tracker.py:67-77 | nothing is shown exactly when no record has the roll number; otherwise the first matching record's name, roll number, grades in insertion order and average are shown |
| Tracker.DetailsOfUnique | Student_Performance_Tracker.py:67-77 | under unique roll numbers, viewing a roll number shows exactly the record that carries it |
| Tracker.ClassAverage | Student_Performance_Tracker.py:79-85 | there is no class average exactly when there are no students; otherwise the class average times the number of students is the sum of the per-student averages |
| Tracker.ClassAverageBounds | Student_Performance_Tracker.py:79-85 | with all grades in [0, 100], the class average lies in [0, 100] |
| Tracker.ClassAverageIsPerStudent | Student_Performance_Tracker.py:84 | averages of 85 and 50 give a class average of 67.5, which differs from the mean of the three pooled grades |
| Tracker.Summary | Student_Performance_Tracker.py:87-94 | no summary exactly when there are no students; otherwise one line per student, in collection order, with name, roll number and average |
| Tracker.ClassAverageIsMeanOfSummary | Student_Performance_Tracker.py:79-94 | the class average is the plain mean of the averages the summary lists |
| Tracker.Save | Student_Performance_Tracker.py:43-46 | the store gets one field map per student, in order; each has exactly the fields name, roll_number and grades, with grades holding the student's grade table (also when it is empty), and each rebuilds to that student |
| Tracker.LoadRecords | Student_Performance_Tracker.py:39 | loading succeeds exactly when every stored record can be rebuilt, giving the rebuilt students in store order; otherwise it fails at the first record that cannot |
| Tracker.Load | Student_Performance_Tracker.py:35-41 | a store file that is missing or not valid JSON gives an empty collection; otherwise the stored records are rebuilt |
| Tracker.SaveLoadRoundTrip | Student_Performance_Tracker.py:35-46 | loading what was saved gives back the same collection |
| Tracker.LoadDoesNotValidate | Student_Performance_Tracker.py:39 | a store with a repeated roll number and a grade of 150 loads successfully into a collection that breaks both invariants |
| Tracker.RunKeepsInvariants | Student_Performance_Tracker.py:48-65 | any run of add-student and add-grade requests from a collection with unique roll numbers and valid grades keeps both properties |
| Tracker.DuplicateKeepsSize | Student_Performance_Tracker.py:48-52 | adding the same roll number a second time leaves the collection size unchanged |
| Tracker.Session | Student_Performance_Tracker.py:48-77 | a session from an empty store: Alice is added as R1, Bob is refused R1, Math 95 is recorded for R1, R1's details show that grade and an average of 95, and a grade for R2 is not found |

## Left out

- File access and JSON text (`open`, `json.load`, `json.dump`, the `students.json` path): the store is modelled as a list of field maps. A missing file or a JSON decoding error is the `None` input of `Load`.
- Students.FromDict: Python accepts any JSON value for `name`, `roll_number` and `grades`. The model types these fields, so a non-text name or roll number, or a grade table that is neither an object nor null, is rejected. A store element that is not a JSON object cannot be expressed, and neither can a grade value inside a stored table that is not a number (text or `null`): Python loads such a record without complaint and only fails when the average is later computed for the details, the class average or the summary.
- Tracker.Load: an uncaught `TypeError` ends the program at start-up. The model returns `Failure(RejectedRecord(i))` in its place.
- Other read failures of the store: only a missing file and invalid JSON are caught. A permission error, a directory in place of the file, a decoding error while reading, or valid JSON whose top level is `null`, a number, a boolean, a non-empty object or a non-empty string all raise and end the program. A top-level empty object or empty string has nothing to iterate over and loads as an empty list, with no error. The store is modelled as an already-parsed list, so these have no counterpart.
- Students.Average: its own contract states only the empty case. The sum-over-number-of-subjects characterisation is stated and proved in `Students.AverageIsMapMean`. Keeping the division out of the function's contract keeps the class-average proofs cheap.
- Students.AddGrade: "accepted" is stated through the status. Rewriting a subject with the grade it already has is accepted and leaves the map equal to what it was.
- The interactive menu, `input()` and the `float()` parsing of grades, including its `ValueError` message: interactive I/O.
- All printed text and the two-decimal formatting: each message is a status code in `Step.reports`. Reading operations return the values they would display.
- Floating-point rounding, NaN and infinities: grades are exact reals. A NaN grade, which the range check rejects in Python, has no counterpart.
- The contents of the store after a save: `Step.saved` only records that the whole collection was written, so the store then holds `Save(students)`.
- Write failures while saving: the program does not handle them, and the model has no failing writes.
