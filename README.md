# School management backend: attendance, dashboard and report cards in Dafny

This project models three services of the school-management REST backend:

- **Attendance** (`backend/src/attendance`): one attendance row per (lesson, student) pair, enforced by a unique index. The service creates a row for a pair that has none, updates a row by its uuid, and deletes a row by its uuid. It also marks a student absent for a whole day: it resolves every lesson of the student's class on that date and upserts an ABSENT row for each one. When the pair already has a row, `create` as written fails on saving it (see Findings). `CreateAttendance` and `Attendance.AttendanceService.Create` model the intended update of that row.
- **Dashboard** (`backend/src/dashboard`): a teacher's dashboard. It gives the count of the teacher's grades, the count of the teacher's events, the count of the teacher's HIGH-severity events dated on or after the day seven days before today (there is no upper bound, so future-dated events count too), and a missing-attendance metric that is not computed and always reads 0.
- **Report cards** (`backend/src/report-cards`): cards are created as DRAFT for a student and are extended with subject lines. Publishing a card sets its status to PUBLISHED and its publication time. As written, `findOne`, `addLines` and `publish` fail for every card (see Findings). A line's `report_card_id` column is the join column of its card relation, so it takes the uuid type of the card key it references, and lines are stored under their card's uuid. `FindOne`, `AppendLines` and `PublishCard` model the intended behaviour. Cards are listed newest term first, optionally for one student.

Layout:

- `wrappers.dfy` defines `Option`, `Result` and the two exception kinds the services throw: NotFound and BadRequest.
- `seqs.dfy` defines `Filter`, the shape of every `where` query and `count` in the services, with its lemmas.
- `school.dfy` holds students, lessons and the lookups by uuid.
- `attendance_table.dfy` holds the attendance row, the request patch (`Object.assign`), the table invariants, the upsert and the full-day fan-out, as pure functions with lemmas.
- `attendance_rules.dfy` holds each attendance operation as a function from a snapshot of the store to the outcome and the new table.
- `attendance.dfy` holds the class `AttendanceService`. Its fields are the repositories, and its methods change them in place. Each method is proved to produce exactly the outcome and table of the matching function, and each public method also keeps the store invariant `Valid()`.
- `dashboard.dfy` holds the dashboard, a pure count function, and its lemmas.
- `report_cards.dfy` holds the report-card operations as functions over a `Book` (the card and line tables), the ordering used by `findAll`, and the class `ReportCardsService`, whose methods are proved against those functions.

Conventions used throughout:

- Database keys and generated uuids are natural numbers. Each table carries the generators of its next key and uuid.
- Calendar dates are day numbers.
- The clock (`new Date()`) is a parameter: `today` for the dashboard and `now` for publishing.
- An absent request field is `None` in a `Patch`.
- Each thrown exception is an `Err` result.

## Model

| member | source | states |
|---|---|---|
| School.FindStudent | backend/src/attendance/attendance.service.ts:230-244 | the student found carries the requested uuid; nothing is found exactly when no student has that uuid |
| School.FindLesson | backend/src/attendance/attendance.service.ts:32-48 | the lesson found carries the requested uuid; nothing is found exactly when no lesson has that uuid |
| School.FindStudentUnique | backend/src/common/entities/student.entity.ts:23-25 | when student uuids are distinct, any student holding the uuid is the one the lookup returns |
| AttendanceTable.FindRow | backend/src/attendance/attendance.service.ts:69-83 | the position found holds the (lesson, student) pair and no earlier row does; nothing is found exactly when no row holds the pair |
| AttendanceTable.FindByUuid | backend/src/attendance/attendance.service.ts:185-199 | the position found holds the uuid and no earlier row does; nothing is found exactly when no row holds it |
| AttendanceTable.FindRowUnique | backend/src/attendance/entities/attendance.entity.ts:17 | under the unique (lessonId, studentId) index, every row is the one found for its own pair |
| AttendanceTable.Apply | backend/src/attendance/attendance.service.ts:201 | `Object.assign` of a patch: the row keeps its key, uuid, pair and date, takes every field the patch gives, and keeps every field it lacks |
| AttendanceTable.Upsert | backend/src/attendance/attendance.service.ts:85-104 | the saved row has the pair, the date and every patched field, and is the row then found for the pair. If the pair existed, only that row changes: it keeps its key and uuid, and each field the patch lacks keeps its old value. Otherwise one row is appended under fresh keys, with the column defaults PRESENT, not justified and no comment for fields the request lacks |
| AttendanceTable.UpsertSatisfiedIsNoOp | backend/src/attendance/attendance.service.ts:275-291 | upserting a pair whose row already carries the date and the patched fields changes nothing and returns that row |
| AttendanceTable.UpsertOtherPair | backend/src/attendance/attendance.service.ts:258-273 | an upsert leaves the lookup of every other pair, and the row it finds, unchanged |
| AttendanceTable.UpsertWellFormed | backend/src/attendance/entities/attendance.entity.ts:17-24 | an upsert keeps the unique pair index, distinct keys and uuids, and fresh generators |
| AttendanceTable.UpsertReferences | backend/src/attendance/entities/attendance.entity.ts:26-30 | an upsert for an existing lesson and student keeps every row's foreign keys pointing at existing rows |
| AttendanceTable.MarkAll | backend/src/attendance/attendance.service.ts:258-314 | one saved row per lesson, in order, each with that lesson, the student, the date and the patch; the table only grows |
| AttendanceTable.UpsertTouchesOnlyPair | backend/src/attendance/attendance.service.ts:85-113 | an upsert changes at most the pair's row and adds at most a row for the pair |
| AttendanceTable.MarkAllTouchesOnlyStudent | backend/src/attendance/attendance.service.ts:258-314 | a row changes only if it is the student's row for one of the lessons, and every added row is the student's for one of the lessons |
| AttendanceTable.UpsertKeepsFound | backend/src/attendance/attendance.service.ts:85-97 | a pair that already has a row is still found at that position after any upsert, and the row keeps its key and uuid |
| AttendanceTable.MarkAllKeepsFound | backend/src/attendance/attendance.service.ts:275-291 | after the fan-out, a row the student already had for a lesson is still found at its position and keeps its key and uuid |
| AttendanceTable.MarkAllOtherLesson | backend/src/attendance/attendance.service.ts:258-314 | after the fan-out, a lesson outside it is found for the student where it was before |
| AttendanceTable.MissingStep | backend/src/attendance/attendance.service.ts:258-265 | one more lesson adds one to the lessons without a row exactly when it is new to the fan-out and the student has no row for it |
| AttendanceTable.MarkAllGrowth | backend/src/attendance/attendance.service.ts:292-313 | the fan-out adds exactly one row per distinct lesson the student had no row for |
| AttendanceTable.MarkAllStores | backend/src/attendance/attendance.service.ts:258-316 | after the fan-out, each returned row is the row stored for its pair |
| AttendanceTable.ReplayIsNoOp | backend/src/attendance/attendance.service.ts:275-291 | replaying the upserts on a table that already stores their results returns those rows and changes nothing |
| AttendanceTable.MarkAllIdempotent | backend/src/attendance/attendance.service.ts:258-314 | running the fan-out a second time returns the same rows and leaves the table as the first run did |
| AttendanceTable.MarkAllWellFormed | backend/src/attendance/entities/attendance.entity.ts:17 | the fan-out keeps the unique pair index, distinct keys and uuids, and fresh generators |
| AttendanceTable.MarkAllReferences | backend/src/attendance/attendance.service.ts:294-301 | a fan-out over existing lessons for an existing student keeps every foreign key valid |
| AttendanceRules.LessonsForStudentOnDate | backend/src/attendance/attendance.service.ts:325-344 | the resolved lessons are stored lessons that fall on the requested date |
| AttendanceRules.LessonsForStudentOnDateMembers | backend/src/attendance/attendance.service.ts:325-344 | for an unknown student uuid the result is empty; otherwise a lesson is resolved exactly when it is stored, falls on the date and belongs to the student's current class |
| AttendanceRules.AbsenceComment | backend/src/attendance/attendance.service.ts:279 | the stored comment is never empty: it is the request's comment when that is a non-empty string, and the default full-day comment when it is missing or empty |
| AttendanceRules.FullDayAbsence | backend/src/attendance/attendance.service.ts:225-317 | NotFound, with the table unchanged, exactly when the student is unknown or has no lesson that day. Otherwise one row per resolved lesson, in order, each ABSENT for that lesson, student and date, justified only when the request says true, and carrying the request's comment or, when that is missing or empty, the default full-day comment |
| AttendanceRules.FullDayAbsenceIdempotent | backend/src/attendance/attendance.service.ts:258-314 | a second identical call returns the same rows and leaves the table as the first call did, so no row is inserted |
| AttendanceRules.FullDayAbsenceLeavesOthers | backend/src/attendance/attendance.service.ts:258-314 | rows of other students, and this student's rows for lessons outside that day, stay as they were; every added row is this student's, for a resolved lesson |
| AttendanceRules.FullDayAbsenceUpdatesInPlace | backend/src/attendance/attendance.service.ts:258-314 | each resolved lesson's existing row for the student is updated in place: it stays at its position, keeps its key and uuid, and holds the row returned for that lesson; the table grows by exactly one row per resolved lesson that had none |
| AttendanceRules.MissingLessons | backend/src/attendance/attendance.service.ts:258-265 | the lessons of the fan-out without a row are the resolved lessons, as a set, that the student has no row for |
| AttendanceRules.FullDayAbsenceValid | backend/src/attendance/entities/attendance.entity.ts:17-30 | a full-day absence keeps the table well formed and every foreign key valid |
| AttendanceRules.CreateAttendance | backend/src/attendance/attendance.service.ts:31-114 | NotFound, with the table unchanged, exactly when the lesson or the student is unknown. Otherwise the saved row has the pair, the status and the date, and the justification and comment the request gives. When the pair had a row, only that row is replaced, keeping its key and uuid and every field the request lacks; this is the intended update branch, not the as-written one (see Findings). Otherwise one row is appended under fresh keys, not justified and without comment unless the request says so. The saved row is the one then found for the pair |
| AttendanceRules.CreateAttendanceDefaults | backend/src/attendance/entities/attendance.entity.ts:35-46 | a newly inserted row created without `isJustified` or `comment` is not justified and has no comment |
| AttendanceRules.CreateAttendanceIdempotent | backend/src/attendance/attendance.service.ts:85-97 | a repeated identical create returns the same row and changes nothing, so it never adds a second row for the pair |
| AttendanceRules.CreateAttendanceValid | backend/src/attendance/entities/attendance.entity.ts:17-30 | a create keeps the table well formed and every foreign key valid |
| AttendanceRules.AssignCreateRequest | backend/src/attendance/attendance.service.ts:87 | `Object.assign(existing, dto)` copies the request's status, date, justification and comment onto the row, keeps its key and uuid, and hands the request's lesson and student uuids to the foreign-key columns |
| AttendanceRules.SaveEntity | backend/src/attendance/entities/attendance.entity.ts:26-30 | saving succeeds exactly when both integer foreign-key columns receive numeric ids, and the stored row then carries them; otherwise BadRequest |
| AttendanceRules.CreateAsWritten | backend/src/attendance/attendance.service.ts:85-97 | `create` as the source writes it; a failure leaves the table unchanged |
| AttendanceRules.CreateAsWrittenRejectsRepeat | backend/src/attendance/attendance.service.ts:87-96 | as written, after a create that succeeded, the same create again fails with BadRequest and changes nothing |
| AttendanceRules.UpdateAttendance | backend/src/attendance/attendance.service.ts:181-211 | NotFound, with the table unchanged, exactly when no row has the uuid. Otherwise only that row changes, and only in status, justification and comment: each takes the request's value when given and keeps the old one otherwise |
| AttendanceRules.UpdateAttendanceValid | backend/src/attendance/attendance.service.ts:201-202 | an update keeps the table well formed and every foreign key valid |
| AttendanceRules.RemoveAttendance | backend/src/attendance/attendance.service.ts:346-372 | NotFound, with the table unchanged, exactly when no row has the uuid; the key generators never move back |
| AttendanceRules.DeleteById | backend/src/attendance/attendance.service.ts:363 | no row left after the delete has the deleted primary key, and no row is added |
| AttendanceRules.DeleteByIdMembers | backend/src/attendance/attendance.service.ts:363 | a row survives the delete exactly when it was stored and has another primary key |
| AttendanceRules.DeleteByIdDropsOne | backend/src/attendance/attendance.service.ts:363 | deleting a primary key that only one row has drops exactly that row and keeps the others in order |
| AttendanceRules.RemoveAttendanceDeletesOne | backend/src/attendance/attendance.service.ts:346-372 | in a well-formed table, remove drops exactly the row with the uuid, keeps the rest in order, and the uuid is then not found |
| AttendanceRules.DropOneValid | backend/src/attendance/entities/attendance.entity.ts:17-24 | dropping one row keeps the table well formed and every foreign key valid |
| AttendanceRules.RemoveAttendanceValid | backend/src/attendance/attendance.service.ts:359-363 | a remove keeps the table well formed and every foreign key valid |
| Attendance.AttendanceService.constructor | backend/src/attendance/attendance.service.ts:22-29 | the service starts over the given repositories, which satisfy the store invariant |
| Attendance.AttendanceService.Save | backend/src/attendance/attendance.service.ts:259-313 | the in-place find-then-save step leaves the repository and returns the row exactly as `Upsert` describes |
| Attendance.AttendanceService.Create | backend/src/attendance/attendance.service.ts:31-114 | the outcome and the new table are those of `CreateAttendance`, so a pair's existing row is updated as intended rather than as written (see Findings); the store invariant is kept and the student and lesson repositories are untouched |
| Attendance.AttendanceService.Update | backend/src/attendance/attendance.service.ts:181-211 | the outcome and the new table are those of `UpdateAttendance`; the store invariant is kept |
| Attendance.AttendanceService.Remove | backend/src/attendance/attendance.service.ts:346-372 | the outcome and the new table are those of `RemoveAttendance`; the store invariant is kept |
| Attendance.AttendanceService.SaveEach | backend/src/attendance/attendance.service.ts:258-314 | the loop over the resolved lessons leaves the repository and returns the rows exactly as `MarkAll` describes |
| Attendance.AttendanceService.MarkAbsentForFullDay | backend/src/attendance/attendance.service.ts:225-317 | the outcome and the table are those of `FullDayAbsence`; the store invariant is kept |
| Dashboard.GetTeacherDashboard | backend/src/dashboard/dashboard.service.ts:26-66 | the missing-attendance count is 0, and the high-severity count never exceeds the teacher's event count |
| Dashboard.GetTeacherDashboardCounts | backend/src/dashboard/dashboard.service.ts:27-58 | the counts are the numbers of grades and of events whose teacher matches, whatever their date, and the number of the teacher's HIGH events dated on or after seven days before today |
| Dashboard.UnknownTeacherAllZero | backend/src/dashboard/dashboard.service.ts:26-65 | a teacher with no grades and no events gets an all-zero dashboard, not an error |
| Dashboard.LaterDayCountsNoMoreHighEvents | backend/src/dashboard/dashboard.service.ts:27-58 | moving the day forward leaves the grade and event counts unchanged and never increases the high-severity count |
| Dashboard.RecordedEventCounted | backend/src/dashboard/dashboard.service.ts:42-58 | one more event raises the event count by one exactly when it is the teacher's, and the high-severity count by one exactly when it is also HIGH and inside the window; the grade count is unchanged |
| ReportCards.FindCard | backend/src/report-cards/report-cards.service.ts:153-171 | the position found holds the card key and no earlier card does; nothing is found exactly when no card has the key |
| ReportCards.LinesOf | backend/src/report-cards/entities/report-card.entity.ts:50-53 | the `lines` relation of a card holds exactly the stored lines whose card key is that card's |
| ReportCards.CreateCard | backend/src/report-cards/report-cards.service.ts:30-62 | NotFound, with nothing stored, exactly when the student uuid is unknown. Otherwise exactly one card is appended under a fresh key, owned by that student's primary key, for the requested year and semester, DRAFT and unpublished |
| ReportCards.CreateCardValid | backend/src/report-cards/entities/report-card.entity.ts:17-34 | a create keeps card keys distinct and fresh, every card owned by a known student, and a publication time exactly on published cards |
| ReportCards.CreateThenFindOne | backend/src/report-cards/report-cards.service.ts:49-52 | a card just created is found as a DRAFT card with no lines |
| ReportCards.NewLines | backend/src/report-cards/report-cards.service.ts:89-94 | one line per request, in order, with consecutive fresh keys, the card's key, and the request's subject, grade and comments |
| ReportCards.AppendLines | backend/src/report-cards/report-cards.service.ts:64-128 | NotFound, with nothing stored, exactly when the card is unknown. Otherwise the new lines are appended to the line table, the cards are unchanged, and the card is returned with every stored line of it |
| ReportCards.AppendLinesKeepsOld | backend/src/report-cards/report-cards.service.ts:89-127 | the returned card lists its previous lines in order, followed by one new line per request |
| ReportCards.AppendLinesLeavesOthers | backend/src/report-cards/report-cards.service.ts:89-96 | adding lines to one card leaves the lines of every other card unchanged |
| ReportCards.AppendLinesValid | backend/src/report-cards/entities/report-card-line.entity.ts:15-23 | adding lines keeps line keys and uuids distinct and fresh, and every line attached to a stored card |
| ReportCards.FindOne | backend/src/report-cards/report-cards.service.ts:153-174 | NotFound exactly when no card has the key; otherwise a stored card with that key |
| ReportCards.FindOneLines | backend/src/report-cards/report-cards.service.ts:154-158 | the lines returned are exactly the stored lines whose card key is the requested one |
| ReportCards.PublishCard | backend/src/report-cards/report-cards.service.ts:176-191 | NotFound, with nothing changed, exactly when the card is unknown. Otherwise that card becomes PUBLISHED with publication time `now`, whatever its status was, and is returned with its `lines` relation, the lines it had; nothing else changes |
| ReportCards.PublishTwice | backend/src/report-cards/report-cards.service.ts:176-181 | with no DRAFT guard, publishing again keeps the card PUBLISHED and only refreshes its publication time, so two publications equal the later one |
| ReportCards.PublishCardValid | backend/src/report-cards/report-cards.service.ts:179-180 | publishing keeps the card invariants, including a publication time exactly on published cards |
| ReportCards.FindOneWhere | backend/src/report-cards/report-cards.service.ts:154-167 | a lookup on a property the card entity does not declare is NotFound whatever the value; a lookup on the key `id` is `FindOne` |
| ReportCards.FindOneAsWritten | backend/src/report-cards/report-cards.service.ts:153-174 | `findOne` as written, querying `uuid`, is NotFound for every key |
| ReportCards.PublishAsWritten | backend/src/report-cards/report-cards.service.ts:176-177 | `publish` as written fails with NotFound and changes nothing, for every key |
| ReportCards.AddLinesWhere | backend/src/report-cards/report-cards.service.ts:64-128 | the body of `addLines` with its lookup made on a given property: a lookup on an undeclared property is NotFound and stores nothing, and a lookup on the key `id` makes it exactly `AppendLines` |
| ReportCards.AppendLinesAsWritten | backend/src/report-cards/report-cards.service.ts:68-87 | `addLines` as written, querying `uuid`, fails with NotFound and stores nothing, for every key |
| ReportCards.CreatedCardNotFoundAsWritten | backend/src/report-cards/report-cards.service.ts:156 | as written, a card `create` has just stored, and that the key lookup finds, is NotFound for `findOne`, and `publish` and `addLines` on it fail with NotFound and change nothing |
| ReportCards.InsertByTerm | backend/src/report-cards/report-cards.service.ts:141 | inserting a card into a list ordered by year, then semester, both descending, keeps it ordered and adds exactly that card |
| ReportCards.SortNewestFirst | backend/src/report-cards/report-cards.service.ts:141 | the result is ordered by year, then semester, both descending, and is a permutation of its input |
| ReportCards.FindAll | backend/src/report-cards/report-cards.service.ts:130-151 | the listed cards are ordered newest term first and, counted with multiplicity, are exactly the stored cards selected by the student filter; each comes with its lines |
| ReportCards.FindAllSelects | backend/src/report-cards/report-cards.service.ts:133-135 | a card is listed exactly when it is stored and either no student is given or it belongs to that student |
| ReportCards.ReportCardsService.constructor | backend/src/report-cards/report-cards.service.ts:21-28 | the service starts over the given repositories, which satisfy the card invariants |
| ReportCards.ReportCardsService.Create | backend/src/report-cards/report-cards.service.ts:30-62 | the outcome and the new tables are those of `CreateCard`; the invariants are kept |
| ReportCards.ReportCardsService.AddLines | backend/src/report-cards/report-cards.service.ts:64-128 | the outcome and the new tables are those of `AppendLines`; the invariants are kept |
| ReportCards.ReportCardsService.Publish | backend/src/report-cards/report-cards.service.ts:176-191 | the in-place status and time update gives the outcome, the card with its lines, and the tables of `PublishCard`; the invariants are kept |

## Left out

- Store and infrastructure failures are not modelled: a failed query or save that `errorHandler` rethrows (backend/src/utils.ts). Only the NotFound and BadRequest outcomes that follow from the data are.
- Concurrency is not modelled. Each operation runs alone. The full-day fan-out is not atomic in the source, and two racing creates can hit the unique index; neither is captured.
- The attendance service's `findAll` and `findByStudent` queries are not part of this model. They are read-only filters over the same table with no rule beyond the `where` clause.
- Created and updated timestamps, time zones, and the conversion of date strings with `new Date(date)` are not modelled. Dates are day numbers.
- Lesson resolution order follows the lesson table's order, because the query has no ORDER BY.
- Class membership is modelled as each student's current class. The join through the class's student list is not modelled separately.
- A request that sends `comment: null` explicitly is not modelled. A `Patch` only tells an absent field from a given string.
- `FindOne`, `AppendLines`, `PublishCard` and the methods of `ReportCardsService` look cards up by their key and store each line under its card's key. As written, these lookups query an undeclared `uuid` property and fail with NotFound. This is modelled by the as-written members listed under Findings.
- The ORM's rejection of an undeclared property is modelled only by its outcome: NotFound, which is what the service's `.catch` reports.
- The `student` relation that `findOne` and `addLines` load with a card is not modelled. Returned cards carry their `lines` relation only.
- `findAll`'s student filter is an `Option`. The source also treats an empty string as no filter.
- The order of report cards within one year and semester is not promised by the query, so it is not specified. Nor is the order of a card's lines, which is modelled as table order.
- Final grades are unbounded reals, not rounded to the decimal(5,2) column.
- AttendanceRules.CreateAsWritten: its own contract states only that a failure changes nothing. Its behaviour on a repeated create is stated by `CreateAsWrittenRejectsRepeat`.
- The grades, events and authentication services, the controllers, DTO validation and the frontend are not part of this model.

## Findings

| source | as written | input that shows it | evidently intended | confidence | as-written member | corrected member |
|---|---|---|---|---|---|---|
| backend/src/attendance/attendance.service.ts:87 | when a row for the pair already exists, `create` copies the whole request onto it. This includes the request's `lessonId` and `studentId`, which hold uuids, and they land in the integer `lesson_id` and `student_id` columns (attendance.entity.ts:26-30), so the save fails and is reported as BadRequest | a first `create` for a lesson and a student inserts the row; the same `create` repeated then fails with BadRequest | only status, date, justification and comment are copied; the row keeps its numeric keys, and the repeated create returns the stored row and changes nothing | medium, not executed | AttendanceRules.CreateAsWrittenRejectsRepeat | AttendanceRules.CreateAttendanceIdempotent |
| backend/src/report-cards/report-cards.service.ts:156 | `findOne` queries `where: { uuid: id }`, but the ReportCard entity declares no `uuid` property; its key is `id` (report-card.entity.ts:17-18). The ORM rejects the query, and the `.catch` at 159-167 turns that into NotFound. `addLines` (68-81) makes the same lookup, and `publish` (177) calls `findOne` | `create` a card, then `findOne`, `publish` or `addLines` with the id it returned: each fails with NotFound | the card is looked up by `id`, so a stored card is found with its lines, published, or extended | medium, not executed | ReportCards.CreatedCardNotFoundAsWritten | ReportCards.CreateThenFindOne |
