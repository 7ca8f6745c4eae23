/**
 * The operations of the attendance service (backend/src/attendance/attendance.service.ts)
 * as functions from a snapshot of the store to the outcome and the new table.
 */
module AttendanceRules {
  import opened Wrappers
  import opened School
  import opened Seqs
  import opened AttendanceTable

  // ---------------------------------------------------------------------------
  // Lesson resolution

  /** The lesson is on the date and its class currently contains a student with the uuid. */
  function AttendedOn(students: seq<Student>, studentUuid: Uuid, date: Day): Lesson -> bool {
    (l: Lesson) =>
      l.date == date && exists st :: st in students && st.uuid == studentUuid && st.classId == Some(l.classId)
  }

  /**
   * `findLessonsForStudentOnDate`: lessons joined to their class and the class's
   * current students, kept when the student's uuid and the date match; in table order.
   */
  function LessonsForStudentOnDate(students: seq<Student>, lessons: seq<Lesson>, studentUuid: Uuid, date: Day)
    : (r: seq<Lesson>)
    ensures forall l :: l in r ==> l in lessons && l.date == date
  {
    FilterMembers(lessons, AttendedOn(students, studentUuid, date));
    Filter(lessons, AttendedOn(students, studentUuid, date))
  }

  /**
   * The lessons resolved are exactly the lessons on the date of the class the
   * student belongs to now; a student without a class, or an unknown uuid, has none.
   */
  lemma LessonsForStudentOnDateMembers(students: seq<Student>, lessons: seq<Lesson>, studentUuid: Uuid, date: Day)
    requires UniqueStudents(students)
    ensures FindStudent(students, studentUuid).None? ==> LessonsForStudentOnDate(students, lessons, studentUuid, date) == []
    ensures FindStudent(students, studentUuid).Some? ==>
      var st := FindStudent(students, studentUuid).value;
      forall l :: l in LessonsForStudentOnDate(students, lessons, studentUuid, date) <==>
        l in lessons && l.date == date && st.classId == Some(l.classId)
  {
    var ls := LessonsForStudentOnDate(students, lessons, studentUuid, date);
    FilterMembers(lessons, AttendedOn(students, studentUuid, date));
    if FindStudent(students, studentUuid).None? {
      FilterSelectsNone(lessons, AttendedOn(students, studentUuid, date));
    } else {
      var st := FindStudent(students, studentUuid).value;
      forall l | l in ls ensures st.classId == Some(l.classId) {
        var other :| other in students && other.uuid == studentUuid && other.classId == Some(l.classId);
        FindStudentUnique(students, studentUuid, other);
      }
    }
  }

  /** The primary keys of the resolved lessons, in resolution order. */
  function Ids(lessons: seq<Lesson>): (r: seq<nat>)
    ensures |r| == |lessons| && forall i :: 0 <= i < |lessons| ==> r[i] == lessons[i].id
  {
    seq(|lessons|, i requires 0 <= i < |lessons| => lessons[i].id)
  }

  // ---------------------------------------------------------------------------
  // markAbsentForFullDay

  const DefaultAbsenceComment: string := "Marked absent for full day"

  /** `comment || "Marked absent for full day"`: an absent or empty comment falls back to the default. */
  function AbsenceComment(comment: Option<string>): (r: string)
    ensures r != ""
    ensures comment.Some? && comment.value != "" ==> r == comment.value
    ensures comment.None? || comment.value == "" ==> r == DefaultAbsenceComment
  {
    if comment.Some? && comment.value != "" then comment.value else DefaultAbsenceComment
  }

  /** The fields every row of a full-day absence receives: ABSENT, `isJustified || false`, the comment. */
  function AbsentPatch(isJustified: Option<bool>, comment: Option<string>): Patch {
    Patch(Some(Absent), Some(isJustified.GetOr(false)), Some(AbsenceComment(comment)))
  }

  /**
   * `markAbsentForFullDay`: NotFound for an unknown student or a day without
   * lessons, otherwise one upsert per resolved lesson, in resolution order.
   */
  function FullDayAbsence(t: Table, students: seq<Student>, lessons: seq<Lesson>,
                          studentUuid: Uuid, date: Day, isJustified: Option<bool>, comment: Option<string>)
    : (r: (Result<seq<Attendance>>, Table))
    ensures r.0.Err? ==> r.0.error == NotFound && r.1 == t
    ensures r.0.Err? <==>
      FindStudent(students, studentUuid).None? || LessonsForStudentOnDate(students, lessons, studentUuid, date) == []
    ensures r.0.Ok? ==>
      var st := FindStudent(students, studentUuid).value;
      var ls := LessonsForStudentOnDate(students, lessons, studentUuid, date);
      && |r.0.value| == |ls| > 0
      && forall i :: 0 <= i < |ls| ==>
           && r.0.value[i].lessonId == ls[i].id
           && r.0.value[i].studentId == st.id
           && r.0.value[i].date == date
           && r.0.value[i].status == Absent
           && r.0.value[i].isJustified == (isJustified == Some(true))
           && r.0.value[i].comment == Some(AbsenceComment(comment))
  {
    match FindStudent(students, studentUuid)
    case None => (Err(NotFound), t)
    case Some(st) =>
      var ls := LessonsForStudentOnDate(students, lessons, studentUuid, date);
      if ls == [] then (Err(NotFound), t)
      else
        var (t', out) := MarkAll(t, Ids(ls), st.id, date, AbsentPatch(isJustified, comment));
        (Ok(out), t')
  }

  /**
   * Idempotence: a second call with the same arguments returns the same rows and
   * leaves the table as the first call did; in particular it inserts no row.
   */
  lemma FullDayAbsenceIdempotent(t: Table, students: seq<Student>, lessons: seq<Lesson>,
                                 studentUuid: Uuid, date: Day, isJustified: Option<bool>, comment: Option<string>)
    ensures var (r1, t1) := FullDayAbsence(t, students, lessons, studentUuid, date, isJustified, comment);
      var (r2, t2) := FullDayAbsence(t1, students, lessons, studentUuid, date, isJustified, comment);
      r2 == r1 && t2 == t1 && |t2.rows| == |t1.rows| && t2.nextId == t1.nextId
  {
    match FindStudent(students, studentUuid)
    case None =>
    case Some(st) =>
      var ls := LessonsForStudentOnDate(students, lessons, studentUuid, date);
      if ls != [] {
        MarkAllIdempotent(t, Ids(ls), st.id, date, AbsentPatch(isJustified, comment));
      }
  }

  /**
   * Rows of other students, and of this student's lessons outside the day, are
   * left as they were; every row added is this student's, for a resolved lesson.
   */
  lemma FullDayAbsenceLeavesOthers(t: Table, students: seq<Student>, lessons: seq<Lesson>,
                                   studentUuid: Uuid, date: Day, isJustified: Option<bool>, comment: Option<string>)
    requires FindStudent(students, studentUuid).Some?
    ensures var (r, t') := FullDayAbsence(t, students, lessons, studentUuid, date, isJustified, comment);
      var st := FindStudent(students, studentUuid).value;
      var ls := LessonsForStudentOnDate(students, lessons, studentUuid, date);
      && |t.rows| <= |t'.rows|
      && (forall i :: 0 <= i < |t.rows| && t.rows[i].studentId != st.id ==> t'.rows[i] == t.rows[i])
      && (forall i :: 0 <= i < |t.rows| && t.rows[i].lessonId !in LessonIds(ls) ==> t'.rows[i] == t.rows[i])
      && (forall i :: |t.rows| <= i < |t'.rows| ==> t'.rows[i].studentId == st.id && t'.rows[i].lessonId in LessonIds(ls))
  {
    var st := FindStudent(students, studentUuid).value;
    var ls := LessonsForStudentOnDate(students, lessons, studentUuid, date);
    var ids := Ids(ls);
    if ls != [] {
      MarkAllTouchesOnlyStudent(t, ids, st.id, date, AbsentPatch(isJustified, comment));
      assert FullDayAbsence(t, students, lessons, studentUuid, date, isJustified, comment).1
          == MarkAll(t, ids, st.id, date, AbsentPatch(isJustified, comment)).0;
      forall x | x in ids ensures x in LessonIds(ls) {
        var i :| 0 <= i < |ids| && ids[i] == x;
        assert ls[i] in ls;
      }
    }
  }

  /**
   * Each lesson's existing row for the student is updated in place: it stays at
   * its position, keeps its key and uuid, and holds the row returned for that
   * lesson; the table grows by exactly one row per resolved lesson that had none.
   */
  lemma FullDayAbsenceUpdatesInPlace(t: Table, students: seq<Student>, lessons: seq<Lesson>,
                                     studentUuid: Uuid, date: Day, isJustified: Option<bool>, comment: Option<string>)
    ensures var (r, t') := FullDayAbsence(t, students, lessons, studentUuid, date, isJustified, comment);
      r.Ok? ==>
        var st := FindStudent(students, studentUuid).value;
        var ls := LessonsForStudentOnDate(students, lessons, studentUuid, date);
        && (forall i :: 0 <= i < |ls| && FindRow(t.rows, ls[i].id, st.id).Some? ==>
              var k := FindRow(t.rows, ls[i].id, st.id).value;
              && t'.rows[k] == r.value[i]
              && t'.rows[k].id == t.rows[k].id && t'.rows[k].uuid == t.rows[k].uuid)
        && |t'.rows| == |t.rows| + |set l | l in LessonIds(ls) && FindRow(t.rows, l, st.id).None?|
  {
    var (r, t') := FullDayAbsence(t, students, lessons, studentUuid, date, isJustified, comment);
    if r.Ok? {
      var st := FindStudent(students, studentUuid).value;
      var ls := LessonsForStudentOnDate(students, lessons, studentUuid, date);
      var ids := Ids(ls);
      var p := AbsentPatch(isJustified, comment);
      assert (r, t') == (Ok(MarkAll(t, ids, st.id, date, p).1), MarkAll(t, ids, st.id, date, p).0);
      MarkAllStores(t, ids, st.id, date, p);
      MarkAllGrowth(t, ids, st.id, date, p);
      forall i | 0 <= i < |ls| && FindRow(t.rows, ls[i].id, st.id).Some?
        ensures t'.rows[FindRow(t.rows, ls[i].id, st.id).value] == r.value[i]
        ensures t'.rows[FindRow(t.rows, ls[i].id, st.id).value].id == t.rows[FindRow(t.rows, ls[i].id, st.id).value].id
        ensures t'.rows[FindRow(t.rows, ls[i].id, st.id).value].uuid == t.rows[FindRow(t.rows, ls[i].id, st.id).value].uuid
      {
        assert ids[i] == ls[i].id;
        MarkAllKeepsFound(t, ids, st.id, date, p, ls[i].id);
      }
      MissingLessons(t, ls, st.id);
    }
  }

  /** The lessons missing from a fan-out over `Ids(ls)` are those of `ls` the student has no row for. */
  lemma MissingLessons(t: Table, ls: seq<Lesson>, studentId: nat)
    ensures Missing(t, Ids(ls), studentId) == set l | l in LessonIds(ls) && FindRow(t.rows, l, studentId).None?
  {
    var ids := Ids(ls);
    forall x ensures x in ids <==> x in LessonIds(ls) {
      if x in ids {
        var i :| 0 <= i < |ids| && ids[i] == x;
        assert ls[i] in ls;
      }
      if x in LessonIds(ls) {
        var l :| l in ls && l.id == x;
        var i :| 0 <= i < |ls| && ls[i] == l;
        assert ids[i] == x;
      }
    }
  }

  /** A full-day absence keeps the table well formed and every reference valid. */
  lemma FullDayAbsenceValid(t: Table, students: seq<Student>, lessons: seq<Lesson>,
                            studentUuid: Uuid, date: Day, isJustified: Option<bool>, comment: Option<string>)
    requires WellFormed(t) && References(t, students, lessons)
    ensures var t' := FullDayAbsence(t, students, lessons, studentUuid, date, isJustified, comment).1;
      WellFormed(t') && References(t', students, lessons)
  {
    match FindStudent(students, studentUuid)
    case None =>
    case Some(st) =>
      var ls := LessonsForStudentOnDate(students, lessons, studentUuid, date);
      if ls != [] {
        var ids := Ids(ls);
        var p := AbsentPatch(isJustified, comment);
        FilterMembers(lessons, AttendedOn(students, studentUuid, date));
        forall i | 0 <= i < |ids| ensures ids[i] in LessonIds(lessons) {
          assert ls[i] in ls;
        }
        assert st.id in StudentIds(students);
        MarkAllWellFormed(t, ids, st.id, date, p);
        MarkAllReferences(t, students, lessons, ids, st.id, date, p);
      }
  }

  // ---------------------------------------------------------------------------
  // create

  /** CreateAttendanceDto: lesson and student by uuid, the date, the status, optional fields. */
  datatype CreateRequest = CreateRequest(
    lessonUuid: Uuid,
    studentUuid: Uuid,
    date: Day,
    status: Status,
    isJustified: Option<bool>,
    comment: Option<string>)

  function CreatePatch(req: CreateRequest): Patch {
    Patch(Some(req.status), req.isJustified, req.comment)
  }

  /**
   * `create`, with the existing row keeping its numeric foreign keys: NotFound for
   * an unknown lesson or student, otherwise one upsert of the request's fields.
   */
  function CreateAttendance(t: Table, students: seq<Student>, lessons: seq<Lesson>, req: CreateRequest)
    : (r: (Result<Attendance>, Table))
    ensures r.0.Err? <==> FindLesson(lessons, req.lessonUuid).None? || FindStudent(students, req.studentUuid).None?
    ensures r.0.Err? ==> r.0.error == NotFound && r.1 == t
    ensures r.0.Ok? ==>
      var l := FindLesson(lessons, req.lessonUuid).value;
      var st := FindStudent(students, req.studentUuid).value;
      && IsPair(r.0.value, l.id, st.id)
      && r.0.value.status == req.status && r.0.value.date == req.date
      && (req.isJustified.Some? ==> r.0.value.isJustified == req.isJustified.value)
      && (req.comment.Some? ==> r.0.value.comment == req.comment)
      && (FindRow(t.rows, l.id, st.id).Some? ==>
            var k := FindRow(t.rows, l.id, st.id).value;
            && r.1.rows == t.rows[k := r.0.value]
            && r.0.value.id == t.rows[k].id && r.0.value.uuid == t.rows[k].uuid
            && (req.isJustified.None? ==> r.0.value.isJustified == t.rows[k].isJustified)
            && (req.comment.None? ==> r.0.value.comment == t.rows[k].comment))
      && (FindRow(t.rows, l.id, st.id).None? ==>
            && r.1.rows == t.rows + [r.0.value]
            && r.0.value.id == t.nextId && r.0.value.uuid == t.nextUuid
            && (req.isJustified.None? ==> !r.0.value.isJustified)
            && (req.comment.None? ==> r.0.value.comment.None?))
      && |r.1.rows| == |t.rows| + (if FindRow(t.rows, l.id, st.id).Some? then 0 else 1)
      && FindRow(r.1.rows, l.id, st.id).Some?
      && r.1.rows[FindRow(r.1.rows, l.id, st.id).value] == r.0.value
  {
    match FindLesson(lessons, req.lessonUuid)
    case None => (Err(NotFound), t)
    case Some(l) =>
      match FindStudent(students, req.studentUuid)
      case None => (Err(NotFound), t)
      case Some(st) =>
        var (t', a) := Upsert(t, l.id, st.id, req.date, CreatePatch(req));
        (Ok(a), t')
  }

  /**
   * A row created without `isJustified` or `comment` gets the column defaults:
   * not justified, no comment.
   */
  lemma CreateAttendanceDefaults(t: Table, students: seq<Student>, lessons: seq<Lesson>, req: CreateRequest)
    requires FindLesson(lessons, req.lessonUuid).Some? && FindStudent(students, req.studentUuid).Some?
    requires FindRow(t.rows, FindLesson(lessons, req.lessonUuid).value.id, FindStudent(students, req.studentUuid).value.id).None?
    requires req.isJustified.None? && req.comment.None?
    ensures var r := CreateAttendance(t, students, lessons, req).0;
      r.Ok? && !r.value.isJustified && r.value.comment.None?
  {
  }

  /** Repeating the same create changes nothing and returns the same row: never a second row. */
  lemma CreateAttendanceIdempotent(t: Table, students: seq<Student>, lessons: seq<Lesson>, req: CreateRequest)
    ensures var (r1, t1) := CreateAttendance(t, students, lessons, req);
      CreateAttendance(t1, students, lessons, req) == (r1, t1)
  {
    var (r1, t1) := CreateAttendance(t, students, lessons, req);
    if r1.Ok? {
      var l := FindLesson(lessons, req.lessonUuid).value;
      var st := FindStudent(students, req.studentUuid).value;
      UpsertSatisfiedIsNoOp(t1, l.id, st.id, req.date, CreatePatch(req));
    }
  }

  /** A create keeps the table well formed and every reference valid. */
  lemma CreateAttendanceValid(t: Table, students: seq<Student>, lessons: seq<Lesson>, req: CreateRequest)
    requires WellFormed(t) && References(t, students, lessons)
    ensures var t' := CreateAttendance(t, students, lessons, req).1;
      WellFormed(t') && References(t', students, lessons)
  {
    match FindLesson(lessons, req.lessonUuid)
    case None =>
    case Some(l) =>
      match FindStudent(students, req.studentUuid)
      case None =>
      case Some(st) =>
        UpsertWellFormed(t, l.id, st.id, req.date, CreatePatch(req));
        UpsertReferences(t, students, lessons, l.id, st.id, req.date, CreatePatch(req));
  }

  // `create` as written: the update branch copies the request over the row
  // (attendance.service.ts:87), including the lesson and student uuids, which then
  // stand in the integer columns lesson_id and student_id (attendance.entity.ts:26-30).

  /** An entity as `save` receives it: the row and what its two foreign-key properties hold. */
  datatype Unsaved = Unsaved(row: Attendance, lessonKey: KeyValue, studentKey: KeyValue)

  /** `Object.assign(existing, createAttendanceDto)`: every request field, uuids included. */
  function AssignCreateRequest(a: Attendance, req: CreateRequest): (r: Unsaved)
    ensures r.lessonKey == UuidText(req.lessonUuid) && r.studentKey == UuidText(req.studentUuid)
    ensures Satisfies(r.row, req.date, CreatePatch(req))
    ensures r.row.id == a.id && r.row.uuid == a.uuid
  {
    Unsaved(Apply(a, CreatePatch(req)).(date := req.date), UuidText(req.lessonUuid), UuidText(req.studentUuid))
  }

  /** `save`: the integer columns accept numeric ids only; anything else fails as BadRequest. */
  function SaveEntity(u: Unsaved): (r: Result<Attendance>)
    ensures r.Ok? <==> u.lessonKey.IntKey? && u.studentKey.IntKey?
    ensures r.Ok? ==> IsPair(r.value, u.lessonKey.id, u.studentKey.id)
    ensures r.Err? ==> r.error == BadRequest
  {
    match (u.lessonKey, u.studentKey)
    case (IntKey(l), IntKey(s)) => Ok(u.row.(lessonId := l, studentId := s))
    case _ => Err(BadRequest)
  }

  /** `create` exactly as written. */
  function CreateAsWritten(t: Table, students: seq<Student>, lessons: seq<Lesson>, req: CreateRequest)
    : (r: (Result<Attendance>, Table))
    ensures r.0.Err? ==> r.1 == t
  {
    match FindLesson(lessons, req.lessonUuid)
    case None => (Err(NotFound), t)
    case Some(l) =>
      match FindStudent(students, req.studentUuid)
      case None => (Err(NotFound), t)
      case Some(st) =>
        match FindRow(t.rows, l.id, st.id)
        case Some(k) =>
          (match SaveEntity(AssignCreateRequest(t.rows[k], req))
           case Ok(a) => (Ok(a), t.(rows := t.rows[k := a]))
           case Err(e) => (Err(e), t))
        case None =>
          var (t', a) := Upsert(t, l.id, st.id, req.date, CreatePatch(req));
          (Ok(a), t')
  }

  /**
   * As written, a second identical create, which finds the row the first one
   * inserted, fails with BadRequest and leaves the table unchanged.
   */
  lemma CreateAsWrittenRejectsRepeat(t: Table, students: seq<Student>, lessons: seq<Lesson>, req: CreateRequest)
    requires CreateAsWritten(t, students, lessons, req).0.Ok?
    ensures var t1 := CreateAsWritten(t, students, lessons, req).1;
      CreateAsWritten(t1, students, lessons, req) == (Err(BadRequest), t1)
  {
  }

  // ---------------------------------------------------------------------------
  // update

  /**
   * `update`: NotFound for an unknown uuid, otherwise the fields present in the
   * request are copied onto that row and nothing else changes.
   */
  function UpdateAttendance(t: Table, uuid: Uuid, p: Patch): (r: (Result<Attendance>, Table))
    ensures r.0.Err? <==> FindByUuid(t.rows, uuid).None?
    ensures r.0.Err? ==> r.0.error == NotFound && r.1 == t
    ensures r.0.Ok? ==>
      var k := FindByUuid(t.rows, uuid).value;
      var a := r.0.value;
      && r.1 == t.(rows := t.rows[k := a])
      && a.(status := t.rows[k].status, isJustified := t.rows[k].isJustified, comment := t.rows[k].comment) == t.rows[k]
      && a.status == (if p.status.Some? then p.status.value else t.rows[k].status)
      && a.isJustified == (if p.isJustified.Some? then p.isJustified.value else t.rows[k].isJustified)
      && a.comment == (if p.comment.Some? then p.comment else t.rows[k].comment)
  {
    match FindByUuid(t.rows, uuid)
    case None => (Err(NotFound), t)
    case Some(k) =>
      var a := Apply(t.rows[k], p);
      (Ok(a), t.(rows := t.rows[k := a]))
  }

  /** An update keeps the table well formed and every reference valid. */
  lemma UpdateAttendanceValid(t: Table, students: seq<Student>, lessons: seq<Lesson>, uuid: Uuid, p: Patch)
    requires WellFormed(t) && References(t, students, lessons)
    ensures var t' := UpdateAttendance(t, uuid, p).1;
      WellFormed(t') && References(t', students, lessons)
  {
    if FindByUuid(t.rows, uuid).Some? {
      var k := FindByUuid(t.rows, uuid).value;
      var t' := UpdateAttendance(t, uuid, p).1;
      forall i | 0 <= i < |t.rows|
        ensures IsPair(t'.rows[i], t.rows[i].lessonId, t.rows[i].studentId)
        ensures t'.rows[i].id == t.rows[i].id && t'.rows[i].uuid == t.rows[i].uuid
      {
      }
    }
  }

  // ---------------------------------------------------------------------------
  // remove

  function NotId(id: nat): Attendance -> bool {
    (a: Attendance) => a.id != id
  }

  /** `delete(id)`: removes the rows with that primary key. */
  function DeleteById(rows: seq<Attendance>, id: nat): (r: seq<Attendance>)
    ensures |r| <= |rows|
    ensures forall i :: 0 <= i < |r| ==> r[i].id != id
  {
    FilterMembers(rows, NotId(id));
    var kept := Filter(rows, NotId(id));
    assert forall i :: 0 <= i < |kept| ==> kept[i] in kept;
    kept
  }

  /** A row survives the delete exactly when it was stored under another primary key. */
  lemma DeleteByIdMembers(rows: seq<Attendance>, id: nat)
    ensures forall a :: a in DeleteById(rows, id) <==> a in rows && a.id != id
  {
    FilterMembers(rows, NotId(id));
  }

  /** `remove`: NotFound for an unknown uuid, otherwise the row's primary key is deleted. */
  function RemoveAttendance(t: Table, uuid: Uuid): (r: (Result<()>, Table))
    ensures r.0.Err? <==> FindByUuid(t.rows, uuid).None?
    ensures r.0.Err? ==> r.0.error == NotFound && r.1 == t
    ensures r.1.nextId == t.nextId && r.1.nextUuid == t.nextUuid
  {
    match FindByUuid(t.rows, uuid)
    case None => (Err(NotFound), t)
    case Some(k) => (Ok(()), t.(rows := DeleteById(t.rows, t.rows[k].id)))
  }

  /** Deleting the primary key of the only row that has it drops exactly that row. */
  lemma DeleteByIdDropsOne(rows: seq<Attendance>, k: nat)
    requires k < |rows|
    requires forall i :: 0 <= i < |rows| && i != k ==> rows[i].id != rows[k].id
    ensures DeleteById(rows, rows[k].id) == rows[..k] + rows[k + 1..]
  {
    var f := NotId(rows[k].id);
    var before, after := rows[..k], rows[k + 1..];
    assert rows == before + ([rows[k]] + after);
    FilterAppend(before, [rows[k]] + after, f);
    FilterAppend([rows[k]], after, f);
    assert forall i :: 0 <= i < |before| ==> before[i] == rows[i];
    FilterKeepsAll(before, f);
    assert forall i :: 0 <= i < |after| ==> after[i] == rows[k + 1 + i];
    FilterKeepsAll(after, f);
  }

  /**
   * In a well-formed table, remove deletes exactly the row with the uuid, keeps
   * the others in order, and the uuid is no longer found.
   */
  lemma RemoveAttendanceDeletesOne(t: Table, uuid: Uuid)
    requires WellFormed(t)
    requires FindByUuid(t.rows, uuid).Some?
    ensures var k := FindByUuid(t.rows, uuid).value;
      var t' := RemoveAttendance(t, uuid).1;
      && t'.rows == t.rows[..k] + t.rows[k + 1..]
      && FindByUuid(t'.rows, uuid).None?
  {
    var k := FindByUuid(t.rows, uuid).value;
    forall i | 0 <= i < |t.rows| && i != k ensures t.rows[i].id != t.rows[k].id && t.rows[i].uuid != uuid {
      if i < k {} else {}
    }
    DeleteByIdDropsOne(t.rows, k);
    var rest := t.rows[..k] + t.rows[k + 1..];
    assert RemoveAttendance(t, uuid).1.rows == rest;
    forall i | 0 <= i < |rest| ensures rest[i].uuid != uuid {
      assert rest[i] == t.rows[if i < k then i else i + 1];
    }
  }

  /** Dropping one row keeps a table well formed and every reference valid. */
  lemma DropOneValid(t: Table, students: seq<Student>, lessons: seq<Lesson>, k: nat)
    requires WellFormed(t) && References(t, students, lessons) && k < |t.rows|
    ensures var t' := t.(rows := t.rows[..k] + t.rows[k + 1..]);
      WellFormed(t') && References(t', students, lessons)
  {
    var t' := t.(rows := t.rows[..k] + t.rows[k + 1..]);
    assert forall i :: 0 <= i < |t'.rows| ==> t'.rows[i] == t.rows[if i < k then i else i + 1];
    forall i, j | 0 <= i < j < |t'.rows|
      ensures !IsPair(t'.rows[j], t'.rows[i].lessonId, t'.rows[i].studentId)
      ensures t'.rows[i].id != t'.rows[j].id && t'.rows[i].uuid != t'.rows[j].uuid
    {
      var i', j' := if i < k then i else i + 1, if j < k then j else j + 1;
      assert t'.rows[i] == t.rows[i'] && t'.rows[j] == t.rows[j'] && i' < j';
    }
  }

  /** A remove keeps the table well formed and every reference valid. */
  lemma RemoveAttendanceValid(t: Table, students: seq<Student>, lessons: seq<Lesson>, uuid: Uuid)
    requires WellFormed(t) && References(t, students, lessons)
    ensures var t' := RemoveAttendance(t, uuid).1;
      WellFormed(t') && References(t', students, lessons)
  {
    if FindByUuid(t.rows, uuid).Some? {
      RemoveAttendanceDeletesOne(t, uuid);
      DropOneValid(t, students, lessons, FindByUuid(t.rows, uuid).value);
    }
  }
}
