/**
 * The shared school entities the services look up: students, lessons and the
 * identifiers they are found by (backend/src/common/entities).
 */
module School {
  import opened Wrappers

  /** A calendar date, as a day number. */
  type Day = int

  /** A generated uuid; only equality and freshness matter. */
  type Uuid = nat

  /** A class, identified by its primary key. */
  type ClassId = nat

  /** A value handed to an integer foreign-key column: a numeric key, or a uuid in text form. */
  datatype KeyValue = IntKey(id: nat) | UuidText(uuid: Uuid)

  /** A student: numeric primary key, generated uuid, and the class it currently belongs to, if any. */
  datatype Student = Student(id: nat, uuid: Uuid, classId: Option<ClassId>)

  /** A lesson of one class on one date. */
  datatype Lesson = Lesson(id: nat, uuid: Uuid, classId: ClassId, date: Day)

  /** Primary keys and uuids are distinct across the student table. */
  predicate UniqueStudents(students: seq<Student>) {
    forall i, j :: 0 <= i < j < |students| ==>
      students[i].id != students[j].id && students[i].uuid != students[j].uuid
  }

  /** Primary keys and uuids are distinct across the lesson table. */
  predicate UniqueLessons(lessons: seq<Lesson>) {
    forall i, j :: 0 <= i < j < |lessons| ==>
      lessons[i].id != lessons[j].id && lessons[i].uuid != lessons[j].uuid
  }

  function StudentIds(students: seq<Student>): set<nat> {
    set st | st in students :: st.id
  }

  function LessonIds(lessons: seq<Lesson>): set<nat> {
    set l | l in lessons :: l.id
  }

  /** `findOne({ where: { uuid } })` on the student table. */
  function FindStudent(students: seq<Student>, uuid: Uuid): (r: Option<Student>)
    ensures r.Some? ==> r.value in students && r.value.uuid == uuid
    ensures r.None? <==> forall st :: st in students ==> st.uuid != uuid
  {
    if students == [] then None
    else if students[0].uuid == uuid then Some(students[0])
    else FindStudent(students[1..], uuid)
  }

  /** `findOne({ where: { uuid } })` on the lesson table. */
  function FindLesson(lessons: seq<Lesson>, uuid: Uuid): (r: Option<Lesson>)
    ensures r.Some? ==> r.value in lessons && r.value.uuid == uuid
    ensures r.None? <==> forall l :: l in lessons ==> l.uuid != uuid
  {
    if lessons == [] then None
    else if lessons[0].uuid == uuid then Some(lessons[0])
    else FindLesson(lessons[1..], uuid)
  }

  /** With distinct uuids, the student found is the only one carrying that uuid. */
  lemma FindStudentUnique(students: seq<Student>, uuid: Uuid, st: Student)
    requires UniqueStudents(students)
    requires st in students && st.uuid == uuid
    ensures FindStudent(students, uuid) == Some(st)
  {
    var found := FindStudent(students, uuid).value;
    var i :| 0 <= i < |students| && students[i] == st;
    var j :| 0 <= j < |students| && students[j] == found;
    assert i == j;
  }
}
