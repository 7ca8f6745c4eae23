/**
 * DashboardService.getTeacherDashboard (backend/src/dashboard/dashboard.service.ts):
 * three counts over the grade and educational-event tables and a constant, read-only.
 */
module Dashboard {
  import opened School
  import opened Seqs

  datatype Severity = Low | Medium | High

  /** A grade row; only the columns the dashboard queries are kept. */
  datatype Grade = Grade(id: Uuid, studentId: nat, teacherId: Uuid, date: Day)

  /** An educational-event row; only the columns the dashboard queries are kept. */
  datatype EducationalEvent = EducationalEvent(id: Uuid, studentId: nat, teacherId: Uuid, severity: Severity, date: Day)

  datatype TeacherDashboard = TeacherDashboard(
    missingAttendanceCount: nat,
    recentGradesCount: nat,
    recentEventsCount: nat,
    highSeverityEventsCount: nat)

  /** The start of the high-severity window: the same calendar day one week before `today`. */
  function SevenDaysAgo(today: Day): Day {
    today - 7
  }

  /** `where: { teacherId }` on grades. */
  function GradedBy(teacherId: Uuid): Grade -> bool {
    (g: Grade) => g.teacherId == teacherId
  }

  /** `where: { teacherId }` on events. */
  function ReportedBy(teacherId: Uuid): EducationalEvent -> bool {
    (e: EducationalEvent) => e.teacherId == teacherId
  }

  /** The teacher's HIGH events dated on or after `since`. */
  function HighSince(teacherId: Uuid, since: Day): EducationalEvent -> bool {
    (e: EducationalEvent) => e.teacherId == teacherId && e.severity == High && e.date >= since
  }

  /**
   * `getTeacherDashboard(teacherId)` on the date `today`. Nothing is looked up,
   * so an unknown teacher is not an error. The missing-attendance metric is
   * not computed and always reads 0; the high-severity events are a subset of
   * the teacher's events, so they never outnumber them.
   */
  function GetTeacherDashboard(grades: seq<Grade>, events: seq<EducationalEvent>, teacherId: Uuid, today: Day)
    : (r: TeacherDashboard)
    ensures r.missingAttendanceCount == 0
    ensures r.highSeverityEventsCount <= r.recentEventsCount
  {
    FilterStricter(events, HighSince(teacherId, SevenDaysAgo(today)), ReportedBy(teacherId));
    TeacherDashboard(
      0,
      |Filter(grades, GradedBy(teacherId))|,
      |Filter(events, ReportedBy(teacherId))|,
      |Filter(events, HighSince(teacherId, SevenDaysAgo(today)))|)
  }

  /**
   * Each count is the number of table positions its query matches: the
   * teacher's grades and events whatever their date, and the teacher's HIGH
   * events dated no earlier than seven days before `today`.
   */
  lemma GetTeacherDashboardCounts(grades: seq<Grade>, events: seq<EducationalEvent>, teacherId: Uuid, today: Day)
    ensures var r := GetTeacherDashboard(grades, events, teacherId, today);
      && r.recentGradesCount == |set i: nat | i < |grades| && grades[i].teacherId == teacherId|
      && r.recentEventsCount == |set i: nat | i < |events| && events[i].teacherId == teacherId|
      && r.highSeverityEventsCount ==
           |set i: nat | i < |events| && events[i].teacherId == teacherId && events[i].severity == High
                         && events[i].date >= today - 7|
  {
    FilterCountsPositions(grades, GradedBy(teacherId));
    FilterCountsPositions(events, ReportedBy(teacherId));
    FilterCountsPositions(events, HighSince(teacherId, SevenDaysAgo(today)));
    assert Positions(grades, GradedBy(teacherId)) == set i: nat | i < |grades| && grades[i].teacherId == teacherId;
    assert Positions(events, ReportedBy(teacherId)) == set i: nat | i < |events| && events[i].teacherId == teacherId;
    assert Positions(events, HighSince(teacherId, SevenDaysAgo(today))) ==
      set i: nat | i < |events| && events[i].teacherId == teacherId && events[i].severity == High
                   && events[i].date >= today - 7;
  }

  /** A teacher with no grades and no events gets an all-zero dashboard rather than an error. */
  lemma UnknownTeacherAllZero(grades: seq<Grade>, events: seq<EducationalEvent>, teacherId: Uuid, today: Day)
    requires forall i :: 0 <= i < |grades| ==> grades[i].teacherId != teacherId
    requires forall i :: 0 <= i < |events| ==> events[i].teacherId != teacherId
    ensures GetTeacherDashboard(grades, events, teacherId, today) == TeacherDashboard(0, 0, 0, 0)
  {
    FilterSelectsNone(grades, GradedBy(teacherId));
    FilterSelectsNone(events, ReportedBy(teacherId));
    FilterSelectsNone(events, HighSince(teacherId, SevenDaysAgo(today)));
  }

  /**
   * The "recent" grade and event counts ignore dates: moving `today` changes
   * only the high-severity count, and that one never grows as `today` advances.
   */
  lemma LaterDayCountsNoMoreHighEvents(grades: seq<Grade>, events: seq<EducationalEvent>, teacherId: Uuid,
                                       today: Day, later: Day)
    requires today <= later
    ensures var r := GetTeacherDashboard(grades, events, teacherId, today);
      var r' := GetTeacherDashboard(grades, events, teacherId, later);
      && r'.recentGradesCount == r.recentGradesCount
      && r'.recentEventsCount == r.recentEventsCount
      && r'.highSeverityEventsCount <= r.highSeverityEventsCount
  {
    FilterStricter(events, HighSince(teacherId, SevenDaysAgo(later)), HighSince(teacherId, SevenDaysAgo(today)));
  }

  /**
   * Recording one more event adds one to the teacher's event count when it is
   * theirs, and to the high-severity count when it is also HIGH and inside the
   * window; the grade count is untouched.
   */
  lemma RecordedEventCounted(grades: seq<Grade>, events: seq<EducationalEvent>, e: EducationalEvent,
                             teacherId: Uuid, today: Day)
    ensures var r := GetTeacherDashboard(grades, events, teacherId, today);
      var r' := GetTeacherDashboard(grades, events + [e], teacherId, today);
      && r'.recentGradesCount == r.recentGradesCount
      && r'.recentEventsCount == r.recentEventsCount + (if e.teacherId == teacherId then 1 else 0)
      && r'.highSeverityEventsCount == r.highSeverityEventsCount +
           (if e.teacherId == teacherId && e.severity == High && e.date >= today - 7 then 1 else 0)
  {
    FilterAppend(events, [e], ReportedBy(teacherId));
    FilterAppend(events, [e], HighSince(teacherId, SevenDaysAgo(today)));
    assert [e][1..] == [];
  }
}
