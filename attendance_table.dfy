/**
 * The attendance table (backend/src/attendance/entities/attendance.entity.ts) and
 * the upsert rules of the attendance service, as pure functions over a snapshot of
 * the store. The class in attendance.dfy is proved to follow these functions.
 */
module AttendanceTable {
  import opened Wrappers
  import opened School
  import opened Seqs

  /** AttendanceStatus. */
  datatype Status = Present | Absent

  /** One row of the `attendances` table (the created/updated timestamps are not modelled). */
  datatype Attendance = Attendance(
    id: nat,
    uuid: Uuid,
    lessonId: nat,
    studentId: nat,
    date: Day,
    status: Status,
    isJustified: bool,
    comment: Option<string>)

  /**
   * The status fields a request may carry. `None` is a field absent from the
   * request, which `Object.assign` then does not copy.
   */
  datatype Patch = Patch(status: Option<Status>, isJustified: Option<bool>, comment: Option<string>)

  /** `Object.assign(row, request)` restricted to the status fields. */
  function Apply(a: Attendance, p: Patch): (r: Attendance)
    ensures r.id == a.id && r.uuid == a.uuid && IsPair(r, a.lessonId, a.studentId) && r.date == a.date
    ensures Satisfies(r, a.date, p)
    ensures p.status.None? ==> r.status == a.status
    ensures p.isJustified.None? ==> r.isJustified == a.isJustified
    ensures p.comment.None? ==> r.comment == a.comment
  {
    a.(status := p.status.GetOr(a.status),
       isJustified := p.isJustified.GetOr(a.isJustified),
       comment := if p.comment.Some? then p.comment else a.comment)
  }

  /** A row as the insert leaves it before the request's fields: the column defaults. */
  function Inserted(id: nat, uuid: Uuid, lessonId: nat, studentId: nat, date: Day): Attendance {
    Attendance(id, uuid, lessonId, studentId, date, Present, false, None)
  }

  /** The row already carries the date and every field the patch sets. */
  predicate Satisfies(a: Attendance, date: Day, p: Patch) {
    && a.date == date
    && (p.status.Some? ==> a.status == p.status.value)
    && (p.isJustified.Some? ==> a.isJustified == p.isJustified.value)
    && (p.comment.Some? ==> a.comment == p.comment)
  }

  predicate IsPair(a: Attendance, lessonId: nat, studentId: nat) {
    a.lessonId == lessonId && a.studentId == studentId
  }

  /** The unique index on (lessonId, studentId). */
  predicate UniquePairs(rows: seq<Attendance>) {
    forall i, j :: 0 <= i < j < |rows| ==> !IsPair(rows[j], rows[i].lessonId, rows[i].studentId)
  }

  /** The table with the generators of the next primary key and the next uuid. */
  datatype Table = Table(rows: seq<Attendance>, nextId: nat, nextUuid: nat)

  /** The unique index holds, keys and uuids are distinct, and the generators are fresh. */
  predicate WellFormed(t: Table) {
    && UniquePairs(t.rows)
    && (forall i, j :: 0 <= i < j < |t.rows| ==> t.rows[i].id != t.rows[j].id && t.rows[i].uuid != t.rows[j].uuid)
    && (forall i :: 0 <= i < |t.rows| ==> t.rows[i].id < t.nextId && t.rows[i].uuid < t.nextUuid)
  }

  /** Every row references one existing lesson and one existing student by numeric id. */
  predicate References(t: Table, students: seq<Student>, lessons: seq<Lesson>) {
    forall i :: 0 <= i < |t.rows| ==>
      t.rows[i].studentId in StudentIds(students) && t.rows[i].lessonId in LessonIds(lessons)
  }

  // ---------------------------------------------------------------------------
  // Lookups

  /** `findOne({ where: { lessonId, studentId } })`: the position of the first row for the pair. */
  function FindRow(rows: seq<Attendance>, lessonId: nat, studentId: nat): (r: Option<nat>)
    ensures r.Some? ==> r.value < |rows| && IsPair(rows[r.value], lessonId, studentId)
    ensures r.Some? ==> forall i :: 0 <= i < r.value ==> !IsPair(rows[i], lessonId, studentId)
    ensures r.None? ==> forall i :: 0 <= i < |rows| ==> !IsPair(rows[i], lessonId, studentId)
  {
    if rows == [] then None
    else if IsPair(rows[0], lessonId, studentId) then Some(0)
    else match FindRow(rows[1..], lessonId, studentId)
      case None => None
      case Some(k) => Some(k + 1)
  }

  /** `findOne({ where: { uuid } })`: the position of the first row with the uuid. */
  function FindByUuid(rows: seq<Attendance>, uuid: Uuid): (r: Option<nat>)
    ensures r.Some? ==> r.value < |rows| && rows[r.value].uuid == uuid
    ensures r.Some? ==> forall i :: 0 <= i < r.value ==> rows[i].uuid != uuid
    ensures r.None? ==> forall i :: 0 <= i < |rows| ==> rows[i].uuid != uuid
  {
    if rows == [] then None
    else if rows[0].uuid == uuid then Some(0)
    else match FindByUuid(rows[1..], uuid)
      case None => None
      case Some(k) => Some(k + 1)
  }

  /** The first row for the pair is at `k`. */
  lemma FindRowAt(rows: seq<Attendance>, lessonId: nat, studentId: nat, k: nat)
    requires k < |rows| && IsPair(rows[k], lessonId, studentId)
    requires forall i :: 0 <= i < k ==> !IsPair(rows[i], lessonId, studentId)
    ensures FindRow(rows, lessonId, studentId) == Some(k)
  {
  }

  /** Under the unique index, the row for a pair is found wherever it is. */
  lemma FindRowUnique(rows: seq<Attendance>, k: nat)
    requires UniquePairs(rows) && k < |rows|
    ensures FindRow(rows, rows[k].lessonId, rows[k].studentId) == Some(k)
  {
    FindRowAt(rows, rows[k].lessonId, rows[k].studentId, k);
  }

  /** Tables holding the same pairs at the same positions answer every pair lookup alike. */
  lemma FindRowSamePairs(a: seq<Attendance>, b: seq<Attendance>, lessonId: nat, studentId: nat)
    requires |a| == |b|
    requires forall i :: 0 <= i < |a| ==> IsPair(a[i], b[i].lessonId, b[i].studentId)
    ensures FindRow(a, lessonId, studentId) == FindRow(b, lessonId, studentId)
  {
    match FindRow(a, lessonId, studentId)
    case Some(k) => FindRowAt(b, lessonId, studentId, k);
    case None =>
  }

  /** Appending a row for another pair does not change where a pair is found. */
  lemma FindRowAppendOther(rows: seq<Attendance>, x: Attendance, lessonId: nat, studentId: nat)
    requires !IsPair(x, lessonId, studentId)
    ensures FindRow(rows + [x], lessonId, studentId) == FindRow(rows, lessonId, studentId)
  {
    match FindRow(rows, lessonId, studentId)
    case Some(k) => FindRowAt(rows + [x], lessonId, studentId, k);
    case None =>
  }

  // ---------------------------------------------------------------------------
  // One upsert: the step shared by create and by each lesson of the full-day absence

  /**
   * Looks up the row for (lessonId, studentId); overwrites it in place with the
   * date and the patch if it exists, otherwise inserts a fresh row. Returns the
   * new table and the saved row.
   */
  function Upsert(t: Table, lessonId: nat, studentId: nat, date: Day, p: Patch): (r: (Table, Attendance))
    ensures IsPair(r.1, lessonId, studentId) && Satisfies(r.1, date, p)
    ensures FindRow(r.0.rows, lessonId, studentId).Some?
    ensures r.0.rows[FindRow(r.0.rows, lessonId, studentId).value] == r.1
    ensures FindRow(t.rows, lessonId, studentId).Some? ==>
      var k := FindRow(t.rows, lessonId, studentId).value;
      && r.0.rows == t.rows[k := r.1]
      && r.1.id == t.rows[k].id && r.1.uuid == t.rows[k].uuid
      && r.0.nextId == t.nextId && r.0.nextUuid == t.nextUuid
      && (p.status.None? ==> r.1.status == t.rows[k].status)
      && (p.isJustified.None? ==> r.1.isJustified == t.rows[k].isJustified)
      && (p.comment.None? ==> r.1.comment == t.rows[k].comment)
    ensures FindRow(t.rows, lessonId, studentId).None? ==>
      && r.0.rows == t.rows + [r.1]
      && r.1.id == t.nextId && r.1.uuid == t.nextUuid
      && r.0.nextId == t.nextId + 1 && r.0.nextUuid == t.nextUuid + 1
      && (p.status.None? ==> r.1.status == Present)
      && (p.isJustified.None? ==> !r.1.isJustified)
      && (p.comment.None? ==> r.1.comment.None?)
  {
    match FindRow(t.rows, lessonId, studentId)
    case Some(k) =>
      var a := Apply(t.rows[k], p).(date := date);
      FindRowAt(t.rows[k := a], lessonId, studentId, k);
      (t.(rows := t.rows[k := a]), a)
    case None =>
      var a := Apply(Inserted(t.nextId, t.nextUuid, lessonId, studentId, date), p);
      FindRowAt(t.rows + [a], lessonId, studentId, |t.rows|);
      (Table(t.rows + [a], t.nextId + 1, t.nextUuid + 1), a)
  }

  /** Upserting a pair whose row already carries the fields changes nothing and returns that row. */
  lemma UpsertSatisfiedIsNoOp(t: Table, lessonId: nat, studentId: nat, date: Day, p: Patch)
    requires FindRow(t.rows, lessonId, studentId).Some?
    requires Satisfies(t.rows[FindRow(t.rows, lessonId, studentId).value], date, p)
    ensures Upsert(t, lessonId, studentId, date, p) == (t, t.rows[FindRow(t.rows, lessonId, studentId).value])
  {
    var k := FindRow(t.rows, lessonId, studentId).value;
    assert Apply(t.rows[k], p).(date := date) == t.rows[k];
    assert t.rows[k := t.rows[k]] == t.rows;
  }

  /** An upsert leaves the lookup of every other pair, and the row it finds, as they were. */
  lemma UpsertOtherPair(t: Table, lessonId: nat, studentId: nat, date: Day, p: Patch, otherLesson: nat, otherStudent: nat)
    requires !(otherLesson == lessonId && otherStudent == studentId)
    ensures var t' := Upsert(t, lessonId, studentId, date, p).0;
      && FindRow(t'.rows, otherLesson, otherStudent) == FindRow(t.rows, otherLesson, otherStudent)
      && (FindRow(t.rows, otherLesson, otherStudent).Some? ==>
            t'.rows[FindRow(t.rows, otherLesson, otherStudent).value]
              == t.rows[FindRow(t.rows, otherLesson, otherStudent).value])
  {
    var (t', a) := Upsert(t, lessonId, studentId, date, p);
    if FindRow(t.rows, lessonId, studentId).Some? {
      FindRowSamePairs(t'.rows, t.rows, otherLesson, otherStudent);
    } else {
      FindRowAppendOther(t.rows, a, otherLesson, otherStudent);
    }
  }

  /** An upsert keeps the unique index, distinct keys and uuids, and fresh generators. */
  lemma UpsertWellFormed(t: Table, lessonId: nat, studentId: nat, date: Day, p: Patch)
    requires WellFormed(t)
    ensures WellFormed(Upsert(t, lessonId, studentId, date, p).0)
  {
    var (t', a) := Upsert(t, lessonId, studentId, date, p);
    if FindRow(t.rows, lessonId, studentId).Some? {
      var k := FindRow(t.rows, lessonId, studentId).value;
      assert t'.rows == t.rows[k := a] && t'.nextId == t.nextId && t'.nextUuid == t.nextUuid;
      forall i | 0 <= i < |t'.rows|
        ensures t'.rows[i].id == t.rows[i].id && t'.rows[i].uuid == t.rows[i].uuid
        ensures IsPair(t'.rows[i], t.rows[i].lessonId, t.rows[i].studentId)
      {
      }
    } else {
      assert t'.rows == t.rows + [a];
      forall i | 0 <= i < |t.rows| ensures t'.rows[i] == t.rows[i] && !IsPair(t.rows[i], lessonId, studentId) {
      }
    }
  }

  /** An upsert for an existing lesson and student keeps every row referencing existing entities. */
  lemma UpsertReferences(t: Table, students: seq<Student>, lessons: seq<Lesson>,
                         lessonId: nat, studentId: nat, date: Day, p: Patch)
    requires References(t, students, lessons)
    requires lessonId in LessonIds(lessons) && studentId in StudentIds(students)
    ensures References(Upsert(t, lessonId, studentId, date, p).0, students, lessons)
  {
  }

  // ---------------------------------------------------------------------------
  // The full-day fan-out

  /**
   * One upsert per lesson id, in order, for one student; returns the final table
   * and the saved rows in the order the lessons were processed.
   */
  function MarkAll(t: Table, lessonIds: seq<nat>, studentId: nat, date: Day, p: Patch): (r: (Table, seq<Attendance>))
    ensures |r.1| == |lessonIds|
    ensures forall i :: 0 <= i < |lessonIds| ==>
      IsPair(r.1[i], lessonIds[i], studentId) && Satisfies(r.1[i], date, p)
    ensures |t.rows| <= |r.0.rows|
    decreases |lessonIds|
  {
    if lessonIds == [] then (t, [])
    else
      var n := |lessonIds| - 1;
      var (t1, out) := MarkAll(t, lessonIds[..n], studentId, date, p);
      var (t2, a) := Upsert(t1, lessonIds[n], studentId, date, p);
      (t2, out + [a])
  }

  /**
   * The fan-out only touches the student's rows for the given lessons: a row
   * changes only if it is one of those, and every added row is one of those.
   */
  lemma {:induction false} MarkAllTouchesOnlyStudent(t: Table, lessonIds: seq<nat>, studentId: nat, date: Day, p: Patch)
    ensures var t' := MarkAll(t, lessonIds, studentId, date, p).0;
      && (forall i :: 0 <= i < |t.rows| ==>
            t'.rows[i] == t.rows[i] || (t.rows[i].studentId == studentId && t.rows[i].lessonId in lessonIds))
      && (forall i :: |t.rows| <= i < |t'.rows| ==>
            t'.rows[i].studentId == studentId && t'.rows[i].lessonId in lessonIds)
    decreases |lessonIds|
  {
    if lessonIds != [] {
      var n := |lessonIds| - 1;
      MarkAllTouchesOnlyStudent(t, lessonIds[..n], studentId, date, p);
      var t1 := MarkAll(t, lessonIds[..n], studentId, date, p).0;
      UpsertTouchesOnlyPair(t1, lessonIds[n], studentId, date, p);
      assert MarkAll(t, lessonIds, studentId, date, p).0 == Upsert(t1, lessonIds[n], studentId, date, p).0;
      assert forall x :: x in lessonIds[..n] ==> x in lessonIds;
      assert lessonIds[n] in lessonIds;
    }
  }

  /** An upsert changes at most the pair's row and adds at most a row for the pair. */
  lemma UpsertTouchesOnlyPair(t: Table, lessonId: nat, studentId: nat, date: Day, p: Patch)
    ensures var t' := Upsert(t, lessonId, studentId, date, p).0;
      && |t.rows| <= |t'.rows|
      && (forall i :: 0 <= i < |t.rows| ==> t'.rows[i] == t.rows[i] || IsPair(t.rows[i], lessonId, studentId))
      && (forall i :: |t.rows| <= i < |t'.rows| ==> IsPair(t'.rows[i], lessonId, studentId))
  {
  }

  /** Each saved row is, at the end, the row stored for its pair. */
  lemma {:induction false} MarkAllStores(t: Table, lessonIds: seq<nat>, studentId: nat, date: Day, p: Patch)
    ensures var (t', out) := MarkAll(t, lessonIds, studentId, date, p);
      forall i :: 0 <= i < |lessonIds| ==>
        && FindRow(t'.rows, lessonIds[i], studentId).Some?
        && t'.rows[FindRow(t'.rows, lessonIds[i], studentId).value] == out[i]
    decreases |lessonIds|
  {
    if lessonIds != [] {
      var n := |lessonIds| - 1;
      MarkAllStores(t, lessonIds[..n], studentId, date, p);
      var (t1, out) := MarkAll(t, lessonIds[..n], studentId, date, p);
      var (t2, a) := Upsert(t1, lessonIds[n], studentId, date, p);
      assert MarkAll(t, lessonIds, studentId, date, p) == (t2, out + [a]);
      forall i | 0 <= i < n
        ensures FindRow(t2.rows, lessonIds[i], studentId).Some?
        ensures t2.rows[FindRow(t2.rows, lessonIds[i], studentId).value] == out[i]
      {
        assert lessonIds[..n][i] == lessonIds[i];
        if lessonIds[i] == lessonIds[n] {
          UpsertSatisfiedIsNoOp(t1, lessonIds[n], studentId, date, p);
        } else {
          UpsertOtherPair(t1, lessonIds[n], studentId, date, p, lessonIds[i], studentId);
        }
      }
    }
  }

  /** An upsert leaves a pair that already has a row at that row's position, keeping its key and uuid. */
  lemma UpsertKeepsFound(t: Table, lessonId: nat, studentId: nat, date: Day, p: Patch, l: nat, s: nat)
    requires FindRow(t.rows, l, s).Some?
    ensures var t' := Upsert(t, lessonId, studentId, date, p).0;
      var k := FindRow(t.rows, l, s).value;
      && FindRow(t'.rows, l, s) == Some(k)
      && t'.rows[k].id == t.rows[k].id && t'.rows[k].uuid == t.rows[k].uuid
  {
    if l == lessonId && s == studentId {
      var t' := Upsert(t, lessonId, studentId, date, p).0;
      FindRowSamePairs(t'.rows, t.rows, l, s);
    } else {
      UpsertOtherPair(t, lessonId, studentId, date, p, l, s);
    }
  }

  /** The lessons of a fan-out for which the student has no row yet. */
  function Missing(t: Table, lessonIds: seq<nat>, studentId: nat): set<nat> {
    set l | l in lessonIds && FindRow(t.rows, l, studentId).None?
  }

  /** A row the student already had for some lesson stays at its position, keeping its key and uuid. */
  lemma {:induction false} MarkAllKeepsFound(t: Table, lessonIds: seq<nat>, studentId: nat, date: Day, p: Patch, l: nat)
    requires FindRow(t.rows, l, studentId).Some?
    ensures var t' := MarkAll(t, lessonIds, studentId, date, p).0;
      var k := FindRow(t.rows, l, studentId).value;
      && FindRow(t'.rows, l, studentId) == Some(k)
      && t'.rows[k].id == t.rows[k].id && t'.rows[k].uuid == t.rows[k].uuid
    decreases |lessonIds|
  {
    if lessonIds != [] {
      var n := |lessonIds| - 1;
      MarkAllKeepsFound(t, lessonIds[..n], studentId, date, p, l);
      var t1 := MarkAll(t, lessonIds[..n], studentId, date, p).0;
      UpsertKeepsFound(t1, lessonIds[n], studentId, date, p, l, studentId);
      assert MarkAll(t, lessonIds, studentId, date, p).0 == Upsert(t1, lessonIds[n], studentId, date, p).0;
    }
  }

  /** A lesson outside the fan-out is found for the student where it was before. */
  lemma {:induction false} MarkAllOtherLesson(t: Table, lessonIds: seq<nat>, studentId: nat, date: Day, p: Patch, l: nat)
    requires l !in lessonIds
    ensures FindRow(MarkAll(t, lessonIds, studentId, date, p).0.rows, l, studentId) == FindRow(t.rows, l, studentId)
    decreases |lessonIds|
  {
    if lessonIds != [] {
      var n := |lessonIds| - 1;
      assert l !in lessonIds[..n] && l != lessonIds[n];
      MarkAllOtherLesson(t, lessonIds[..n], studentId, date, p, l);
      var t1 := MarkAll(t, lessonIds[..n], studentId, date, p).0;
      UpsertOtherPair(t1, lessonIds[n], studentId, date, p, l, studentId);
      assert MarkAll(t, lessonIds, studentId, date, p).0 == Upsert(t1, lessonIds[n], studentId, date, p).0;
    }
  }

  /** One more lesson adds itself to the missing lessons only when it is new and has no row. */
  lemma MissingStep(t: Table, prefix: seq<nat>, x: nat, studentId: nat)
    ensures x !in prefix && FindRow(t.rows, x, studentId).None? ==>
      |Missing(t, prefix + [x], studentId)| == |Missing(t, prefix, studentId)| + 1
    ensures !(x !in prefix && FindRow(t.rows, x, studentId).None?) ==>
      Missing(t, prefix + [x], studentId) == Missing(t, prefix, studentId)
  {
    var before := Missing(t, prefix, studentId);
    if x !in prefix && FindRow(t.rows, x, studentId).None? {
      assert Missing(t, prefix + [x], studentId) == before + {x};
      assert x !in before;
    } else {
      assert Missing(t, prefix + [x], studentId) == before;
    }
  }

  /** The fan-out adds exactly one row per distinct lesson the student had no row for. */
  lemma {:induction false} MarkAllGrowth(t: Table, lessonIds: seq<nat>, studentId: nat, date: Day, p: Patch)
    ensures |MarkAll(t, lessonIds, studentId, date, p).0.rows| == |t.rows| + |Missing(t, lessonIds, studentId)|
    decreases |lessonIds|
  {
    if lessonIds == [] {
      assert Missing(t, lessonIds, studentId) == {};
    } else {
      var n := |lessonIds| - 1;
      var prefix, x := lessonIds[..n], lessonIds[n];
      assert lessonIds == prefix + [x];
      MarkAllGrowth(t, prefix, studentId, date, p);
      MissingStep(t, prefix, x, studentId);
      var t1 := MarkAll(t, prefix, studentId, date, p).0;
      assert MarkAll(t, lessonIds, studentId, date, p).0 == Upsert(t1, x, studentId, date, p).0;
      if x in prefix {
        MarkAllStores(t, prefix, studentId, date, p);
        var i :| 0 <= i < n && prefix[i] == x;
        assert FindRow(t1.rows, x, studentId).Some?;
      } else {
        MarkAllOtherLesson(t, prefix, studentId, date, p, x);
      }
    }
  }

  /** Replaying the upserts on a table that already stores their results changes nothing. */
  lemma {:induction false} ReplayIsNoOp(t: Table, lessonIds: seq<nat>, studentId: nat, date: Day, p: Patch, out: seq<Attendance>)
    requires |out| == |lessonIds|
    requires forall i :: 0 <= i < |lessonIds| ==>
      && FindRow(t.rows, lessonIds[i], studentId).Some?
      && t.rows[FindRow(t.rows, lessonIds[i], studentId).value] == out[i]
      && Satisfies(out[i], date, p)
    ensures MarkAll(t, lessonIds, studentId, date, p) == (t, out)
    decreases |lessonIds|
  {
    if lessonIds == [] {
    } else {
      var n := |lessonIds| - 1;
      var prefix := lessonIds[..n];
      forall i | 0 <= i < n
        ensures FindRow(t.rows, prefix[i], studentId).Some?
        ensures t.rows[FindRow(t.rows, prefix[i], studentId).value] == out[..n][i]
        ensures Satisfies(out[..n][i], date, p)
      {
        assert prefix[i] == lessonIds[i];
      }
      ReplayIsNoOp(t, prefix, studentId, date, p, out[..n]);
      UpsertSatisfiedIsNoOp(t, lessonIds[n], studentId, date, p);
      assert MarkAll(t, lessonIds, studentId, date, p)
          == (Upsert(t, lessonIds[n], studentId, date, p).0, out[..n] + [Upsert(t, lessonIds[n], studentId, date, p).1]);
      assert out[..n] + [out[n]] == out;
    }
  }

  /** Running the fan-out twice leaves the table and the saved rows as running it once. */
  lemma MarkAllIdempotent(t: Table, lessonIds: seq<nat>, studentId: nat, date: Day, p: Patch)
    ensures var (t1, out1) := MarkAll(t, lessonIds, studentId, date, p);
      MarkAll(t1, lessonIds, studentId, date, p) == (t1, out1)
  {
    var (t1, out1) := MarkAll(t, lessonIds, studentId, date, p);
    MarkAllStores(t, lessonIds, studentId, date, p);
    ReplayIsNoOp(t1, lessonIds, studentId, date, p, out1);
  }

  /** The fan-out keeps the unique index, distinct keys and uuids, and fresh generators. */
  lemma {:induction false} MarkAllWellFormed(t: Table, lessonIds: seq<nat>, studentId: nat, date: Day, p: Patch)
    requires WellFormed(t)
    ensures WellFormed(MarkAll(t, lessonIds, studentId, date, p).0)
    decreases |lessonIds|
  {
    if lessonIds != [] {
      var n := |lessonIds| - 1;
      MarkAllWellFormed(t, lessonIds[..n], studentId, date, p);
      UpsertWellFormed(MarkAll(t, lessonIds[..n], studentId, date, p).0, lessonIds[n], studentId, date, p);
    }
  }

  /** The fan-out over existing lessons for an existing student keeps every reference valid. */
  lemma {:induction false} MarkAllReferences(t: Table, students: seq<Student>, lessons: seq<Lesson>,
                                             lessonIds: seq<nat>, studentId: nat, date: Day, p: Patch)
    requires References(t, students, lessons)
    requires forall i :: 0 <= i < |lessonIds| ==> lessonIds[i] in LessonIds(lessons)
    requires studentId in StudentIds(students)
    ensures References(MarkAll(t, lessonIds, studentId, date, p).0, students, lessons)
    decreases |lessonIds|
  {
    if lessonIds != [] {
      var n := |lessonIds| - 1;
      MarkAllReferences(t, students, lessons, lessonIds[..n], studentId, date, p);
      UpsertReferences(MarkAll(t, lessonIds[..n], studentId, date, p).0, students, lessons,
                       lessonIds[n], studentId, date, p);
    }
  }
}
