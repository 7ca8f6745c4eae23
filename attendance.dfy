/**
 * AttendanceService (backend/src/attendance/attendance.service.ts): the student,
 * lesson and attendance repositories as fields, and the service's writes as methods
 * proved to follow the functions of AttendanceRules.
 */
module Attendance {
  import opened Wrappers
  import opened School
  import opened AttendanceTable
  import opened AttendanceRules

  /** Keys and uuids are distinct, the unique index holds, and every row references existing entities. */
  predicate StoreValid(students: seq<Student>, lessons: seq<Lesson>, t: Table) {
    UniqueStudents(students) && UniqueLessons(lessons) && WellFormed(t) && References(t, students, lessons)
  }

  class AttendanceService {
    /** The student repository; this service only reads it. */
    var students: seq<Student>
    /** The lesson repository; this service only reads it. */
    var lessons: seq<Lesson>
    /** The attendance repository, in insertion order. */
    var attendances: seq<Attendance>
    /** The next generated primary key and uuid. */
    var nextId: nat
    var nextUuid: nat

    function Snapshot(): Table
      reads this
    {
      Table(attendances, nextId, nextUuid)
    }

    ghost predicate Valid()
      reads this
    {
      StoreValid(students, lessons, Snapshot())
    }

    constructor (students: seq<Student>, lessons: seq<Lesson>, table: Table)
      requires StoreValid(students, lessons, table)
      ensures Valid()
      ensures this.students == students && this.lessons == lessons && Snapshot() == table
    {
      this.students := students;
      this.lessons := lessons;
      attendances := table.rows;
      nextId := table.nextId;
      nextUuid := table.nextUuid;
    }

    /**
     * The find-then-save step both `create` and `markAbsentForFullDay` perform for
     * a (lesson, student) pair: copy the fields onto the pair's row and set its
     * date, or insert a row with the column defaults under the next key.
     */
    method Save(lessonId: nat, studentId: nat, date: Day, p: Patch) returns (a: Attendance)
      modifies this
      ensures students == old(students) && lessons == old(lessons)
      ensures (Snapshot(), a) == Upsert(old(Snapshot()), lessonId, studentId, date, p)
    {
      var existing := FindRow(attendances, lessonId, studentId);
      if existing.Some? {
        var k := existing.value;
        a := Apply(attendances[k], p).(date := date);
        attendances := attendances[k := a];
      } else {
        a := Apply(Inserted(nextId, nextUuid, lessonId, studentId, date), p);
        attendances := attendances + [a];
        nextId, nextUuid := nextId + 1, nextUuid + 1;
      }
    }

    /** `create`: NotFound for an unknown lesson or student, otherwise update the pair's row or insert one. */
    method Create(req: CreateRequest) returns (r: Result<Attendance>)
      requires Valid()
      modifies this
      ensures Valid()
      ensures students == old(students) && lessons == old(lessons)
      ensures (r, Snapshot()) == CreateAttendance(old(Snapshot()), students, lessons, req)
    {
      var lesson := FindLesson(lessons, req.lessonUuid);
      if lesson.None? {
        return Err(NotFound);
      }
      var student := FindStudent(students, req.studentUuid);
      if student.None? {
        return Err(NotFound);
      }
      CreateAttendanceValid(Snapshot(), students, lessons, req);
      var a := Save(lesson.value.id, student.value.id, req.date, CreatePatch(req));
      r := Ok(a);
    }

    /** `update`: NotFound for an unknown uuid, otherwise copy the fields present onto that row. */
    method Update(uuid: Uuid, p: Patch) returns (r: Result<Attendance>)
      requires Valid()
      modifies this
      ensures Valid()
      ensures students == old(students) && lessons == old(lessons)
      ensures (r, Snapshot()) == UpdateAttendance(old(Snapshot()), uuid, p)
    {
      var found := FindByUuid(attendances, uuid);
      if found.None? {
        return Err(NotFound);
      }
      UpdateAttendanceValid(Snapshot(), students, lessons, uuid, p);
      var k := found.value;
      var a := Apply(attendances[k], p);
      attendances := attendances[k := a];
      r := Ok(a);
    }

    /** `remove`: NotFound for an unknown uuid, otherwise delete that row's primary key. */
    method Remove(uuid: Uuid) returns (r: Result<()>)
      requires Valid()
      modifies this
      ensures Valid()
      ensures students == old(students) && lessons == old(lessons)
      ensures (r, Snapshot()) == RemoveAttendance(old(Snapshot()), uuid)
    {
      var found := FindByUuid(attendances, uuid);
      if found.None? {
        return Err(NotFound);
      }
      RemoveAttendanceValid(Snapshot(), students, lessons, uuid);
      attendances := DeleteById(attendances, attendances[found.value].id);
      r := Ok(());
    }

    /**
     * The loop of `markAbsentForFullDay`: lesson by lesson, the find-then-save
     * step for the student, collecting the saved rows in order.
     */
    method SaveEach(ls: seq<Lesson>, studentId: nat, date: Day, p: Patch) returns (records: seq<Attendance>)
      modifies this
      ensures students == old(students) && lessons == old(lessons)
      ensures (Snapshot(), records) == MarkAll(old(Snapshot()), Ids(ls), studentId, date, p)
    {
      ghost var t0 := Snapshot();
      ghost var ids := Ids(ls);
      records := [];
      for i := 0 to |ls|
        invariant students == old(students) && lessons == old(lessons)
        invariant (Snapshot(), records) == MarkAll(t0, ids[..i], studentId, date, p)
      {
        assert ids[..i + 1][..i] == ids[..i];
        var a := Save(ls[i].id, studentId, date, p);
        records := records + [a];
      }
      assert ids[..|ls|] == ids;
    }

    /**
     * `markAbsentForFullDay`: NotFound for an unknown student or a day without
     * lessons; otherwise, lesson by lesson, overwrite the student's row with
     * ABSENT, the justification, the comment and the date, or insert one, and
     * collect the saved rows in order.
     */
    method MarkAbsentForFullDay(studentUuid: Uuid, date: Day, isJustified: Option<bool>, comment: Option<string>)
      returns (r: Result<seq<Attendance>>)
      requires Valid()
      modifies this
      ensures Valid()
      ensures students == old(students) && lessons == old(lessons)
      ensures (r, Snapshot()) == FullDayAbsence(old(Snapshot()), students, lessons, studentUuid, date, isJustified, comment)
    {
      var student := FindStudent(students, studentUuid);
      if student.None? {
        return Err(NotFound);
      }
      var ls := LessonsForStudentOnDate(students, lessons, studentUuid, date);
      if |ls| == 0 {
        return Err(NotFound);
      }
      FullDayAbsenceValid(Snapshot(), students, lessons, studentUuid, date, isJustified, comment);
      var records := SaveEach(ls, student.value.id, date, AbsentPatch(isJustified, comment));
      r := Ok(records);
    }
  }
}
