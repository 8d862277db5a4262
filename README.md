# RFID attendance system: verified model of the core

This project models the core of a school attendance system. Students tap an
RFID card at a reader. The backend resolves the card to a student. The first
tap of the day checks the student in, the second checks them out, and a
third is refused. A student page shows the recent attendance history with a
present / late / absent badge per day, next to thirty-day statistics. Around
this sit the user service's update patch, the `null`-defaulting in user
creation, the per-role user totals, and the validation rules of the
user-creation request.

Modules, one per source file, plus two shared ones:

- `Wrappers`: `Option` and `Result`, which stand for `null` and thrown exceptions.
- `Clock`: instants as integer milliseconds in local time. Day start, hour, minute and the lateness rule are derived from them by division.
- `UserDto` (`backend/src/users/dto/create-user.dto.ts`): the `Role` and `GradeLevel` enums and the validity predicate of a creation request.
- `Users` (`backend/src/users/users.service.ts`): the rows `create` inserts, the patch `update` builds, and the `getStats` totals.
- `Attendance` (`backend/src/attendance/attendance.service.ts`):
  - the tap state machine, as the class `AttendanceService`, whose method `HandleRfidTap` changes the record sequence in place;
  - the function `Resolve`, which specifies that method;
  - the queries `TodayAttendance` and `StudentAttendance`, and the statistics fold `GetStudentStats`.
- `StudentAttendancePage` (`web/app/student/attendance/page.tsx`): the status classifier and the badge label.

The three clock reads of one tap are modelled as one instant `now`, passed as
a parameter. The `users` and `attendance` tables are sequences of rows. A
row's position stands for its database id.

## Model

| member | source | states |
|---|---|---|
| Clock.DayStart | backend/src/attendance/attendance.service.ts:44-45 | the midnight that starts the day of `t`: a midnight, at most `t`, less than a day before it |
| Clock.TimeOfDay | backend/src/attendance/attendance.service.ts:125-127 | the time since the day's midnight: in `[0, day)`, and day start plus it gives back the instant |
| Clock.Hour | backend/src/attendance/attendance.service.ts:126 | `getHours()` lies in 0..23 |
| Clock.Minute | backend/src/attendance/attendance.service.ts:127 | `getMinutes()` lies in 0..59 |
| Clock.WindowStart | backend/src/attendance/attendance.service.ts:108-109 | thirty days back keeps the time of day, and its day start is thirty days before today's |
| Clock.DayStartOf | backend/src/attendance/attendance.service.ts:44-48 | every instant of the day a midnight begins has that midnight as its day start |
| Clock.SameDayMidnight | backend/src/attendance/attendance.service.ts:53-56 | a midnight-normalised date is in the `[today, tomorrow)` window exactly when it equals today |
| Clock.HourMinuteThreshold | backend/src/attendance/attendance.service.ts:128 | "hour > 8, or hour 8 and minute > 0" holds exactly when the time of day is at least 08:01:00.000 |
| Clock.IsLate | backend/src/attendance/attendance.service.ts:128 | the shared lateness test: late exactly when the check-in is at or after 08:01:00.000 of its day |
| Clock.LatenessExamples | web/app/student/attendance/page.tsx:115-122 | seconds are ignored: 08:00:59.999 is on time, 08:01 and 08:15 are late, 07:30 is on time |
| UserDto.ParseRole | backend/src/users/dto/create-user.dto.ts:11-16 | an accepted role string is the wire name of the role it decodes to |
| UserDto.ParseRoleName | backend/src/users/dto/create-user.dto.ts:11-16 | every role's wire name is accepted and decodes back to that role |
| UserDto.ParseRoleAccepts | backend/src/users/dto/create-user.dto.ts:46-47 | exactly ADMIN, TEACHER, STUDENT and PARENT are accepted |
| UserDto.GradeNameInjective | backend/src/users/dto/create-user.dto.ts:18-31 | two grades have the same wire name only when they are the same grade |
| UserDto.ParseGrade | backend/src/users/dto/create-user.dto.ts:18-31 | a string is rejected exactly when it is no grade's name; an accepted one names the decoded grade |
| UserDto.ParseGradeName | backend/src/users/dto/create-user.dto.ts:18-31 | GRADE_1 … GRADE_12 are accepted and decode back to their grade |
| UserDto.ValidCreateUser | backend/src/users/dto/create-user.dto.ts:33-67 | a valid body's role is one of the four wire names, and its grade, if given, is some grade's name |
| UserDto.Validate | backend/src/users/dto/create-user.dto.ts:33-67 | a body is accepted exactly when the modelled constraints hold (non-empty username and names, password length, enums, e-mail format), and the accepted request carries the body's values with the enums decoded |
| UserDto.PasswordLength | backend/src/users/dto/create-user.dto.ts:42-44 | with any other password, a valid body stays valid exactly when the password has at least six characters |
| UserDto.OptionalFields | backend/src/users/dto/create-user.dto.ts:38-67 | e-mail, grade, card and photo may be left out; GRADE_0 and GRADE_13 are rejected and GRADE_12 is accepted |
| Users.OrNull | backend/src/users/users.service.ts:60 | `value \|\| null` is `null` exactly for a missing or empty string, and otherwise the value |
| Users.NewUserRow | backend/src/users/users.service.ts:55-68 | the inserted row has the request's fields and the hashed password; falsy e-mail, card and photo become `null` |
| Users.NewUserRowHasNoEmptyOptionals | backend/src/users/users.service.ts:60-67 | a created row never holds an empty string in e-mail, card or photo |
| Users.UpdatePatch | backend/src/users/users.service.ts:103-117 | username, names and password are keys exactly when truthy, role exactly when given; e-mail, grade, card and photo exactly when not `undefined`; the password key holds the hash |
| Users.BuildUpdateData | backend/src/users/users.service.ts:103-117 | the conditional assignments build exactly the patch of the key rules |
| Users.UpdatePatchEmptyValues | backend/src/users/users.service.ts:105-117 | an empty username or password and a `null` first name are skipped; an empty e-mail and a `null` card or grade are written |
| Users.UpdatePatchOfEmptyBody | backend/src/users/users.service.ts:103-113 | a body that supplies nothing gives an empty patch |
| Users.UpdateChangesOnlySupplied | backend/src/users/users.service.ts:103-121 | after the update, each column keeps its old value unless its key rule fired; the id never changes, and the password is stored only as its hash |
| Users.UpdateKeepsEmptyCard | backend/src/users/users.service.ts:112 | an empty RFID card in an update is stored as the empty string |
| Users.CountRole | backend/src/users/users.service.ts:146-149 | a per-role count is at most the number of users |
| Users.GetStats | backend/src/users/users.service.ts:144-159 | the four counts are the per-role counts of the table, and `total` is their sum and equals the number of users |
| Users.RoleCountsPartition | backend/src/users/users.service.ts:146-149 | the four per-role counts add up to the number of users |
| Users.StatsTotalIsUserCount | backend/src/users/users.service.ts:157 | `total` is the number of users |
| Attendance.ErrorMessages | backend/src/attendance/attendance.service.ts:36-82 | the three refusals carry the service's three messages, and no two refusals share a message |
| Attendance.Resolve | backend/src/attendance/attendance.service.ts:24-97 | unknown card exactly when nobody holds it; non-student exactly when the holder is not a student; a refusal after check-out only when today's row has a check-out; refusals write nothing; success reports the student, adds a row on check-in with check-in `now`, sets check-out `now` in place on check-out |
| Attendance.FindByCard | backend/src/attendance/attendance.service.ts:25-34 | no user is found exactly when nobody holds the card; a found user is in the table and holds it |
| Attendance.FindByCardHolder | backend/src/attendance/attendance.service.ts:25-34 | with cards unique, the lookup returns the card's holder |
| Attendance.FindToday | backend/src/attendance/attendance.service.ts:50-58 | the first row of the student dated in today's window, and no such row when it reports none |
| Attendance.TodayAttendance | backend/src/attendance/attendance.service.ts:144-160 | the student's row dated in today's window; `null` exactly when there is none |
| Attendance.TodayRowUnique | backend/src/attendance/attendance.service.ts:50-58 | in a valid store a student has at most one row in a day window |
| Attendance.FindTodayInValidStore | backend/src/attendance/attendance.service.ts:50-58 | in a valid store the day-window lookup finds the student's one row for today |
| Attendance.TapUnknownCard | backend/src/attendance/attendance.service.ts:36-38 | an unknown card fails with "RFID card not registered" and nothing is written |
| Attendance.TapNonStudent | backend/src/attendance/attendance.service.ts:40-42 | a card held by a non-student fails with "Only students can use attendance system" and nothing is written |
| Attendance.TapFirstOfDay | backend/src/attendance/attendance.service.ts:44-96 | the first tap of the day appends one row: dated today, checked in at `now`, no check-out; it reports a successful CHECK_IN |
| Attendance.TapSecondOfDay | backend/src/attendance/attendance.service.ts:72-96 | the second tap sets `timeOut = now` on today's row, keeps its date and check-in, adds no row, and reports CHECK_OUT |
| Attendance.TapThirdOfDay | backend/src/attendance/attendance.service.ts:80-82 | a tap after check-out fails with "Already checked in and out for today" and the store is unchanged |
| Attendance.TapFrame | backend/src/attendance/attendance.service.ts:44-82 | a failed tap writes nothing; a tap changes at most one existing row or appends one row after the unchanged old ones, and that row is the tapping student's row for today's window |
| Attendance.TapPreservesValid | backend/src/attendance/attendance.service.ts:63-79 | a tap keeps dates at midnight, times on the row's day, and one row per student and day |
| Attendance.TodayAfterTap | backend/src/attendance/attendance.service.ts:84-96 | after a successful tap, today's row for the student has the times the tap reported |
| Attendance.TapLeavesOtherDays | backend/src/attendance/attendance.service.ts:44-58 | a tap never changes which row any student has on another day |
| Attendance.TapsOfOneDay | backend/src/attendance/attendance.service.ts:24-97 | three taps on one day: check-in at t1, check-out at t2 keeping t1, then a refusal that leaves the store as it was |
| Attendance.AttendanceService.constructor | backend/src/attendance/attendance.service.ts:21-22 | the service starts over the given tables |
| Attendance.AttendanceService.HandleRfidTap | backend/src/attendance/attendance.service.ts:24-97 | the result and the new record sequence are the ones `Resolve` gives for the old store; a valid store stays valid |
| Attendance.OfStudent | backend/src/attendance/attendance.service.ts:101 | the student's rows, each as often as the store holds it, and no other rows |
| Attendance.InsertByDateDesc | backend/src/attendance/attendance.service.ts:102 | insertion adds exactly the one row |
| Attendance.InsertKeepsSorted | backend/src/attendance/attendance.service.ts:102 | inserting into a date-descending sequence keeps it date-descending |
| Attendance.SortByDateDesc | backend/src/attendance/attendance.service.ts:102 | the result is date-descending and a permutation of the input |
| Attendance.TakeNewest | backend/src/attendance/attendance.service.ts:103 | a prefix of a date-descending sequence is sorted, and each row it drops is no later than each row it keeps |
| Attendance.StudentAttendance | backend/src/attendance/attendance.service.ts:99-105 | at most thirty of the student's rows, newest first, no row more often than stored, each omitted row no later than each returned |
| Attendance.WindowRecords | backend/src/attendance/attendance.service.ts:111-116 | each of the student's rows dated at or after thirty days back, as often as the store holds it, and no other row |
| Attendance.CountPresent | backend/src/attendance/attendance.service.ts:119-121 | present is at most the number of rows |
| Attendance.IsLateRecord | backend/src/attendance/attendance.service.ts:123-129 | a row is late exactly when it has a check-in at or after 08:01:00.000 |
| Attendance.CountLate | backend/src/attendance/attendance.service.ts:123-129 | late is at most present, because lateness needs a check-in |
| Attendance.RoundedRate | backend/src/attendance/attendance.service.ts:132-133 | the nearest integer to 100·present/total with halves rounded up; 0 for no rows; in 0..100; 100 when all are present, 0 when none are |
| Attendance.RateRange | backend/src/attendance/attendance.service.ts:133 | the rounding bracket keeps the rate in 0..100, at 100 when all are present and 0 when none are |
| Attendance.GetStudentStats | backend/src/attendance/attendance.service.ts:107-142 | total is the window's row count; late ≤ present ≤ total; absent = total − present ≥ 0; the rate is the rounded percentage in 0..100, 100 when all rows are present, 0 when none is; all zero with no rows |
| Attendance.AllPresentInValidStore | backend/src/attendance/attendance.service.ts:119-121 | rows written by taps all carry a check-in, so all of them count as present |
| Attendance.StatsOnValidStore | backend/src/attendance/attendance.service.ts:118-133 | on a store written by taps, absent is 0 and the rate is 0 or 100 |
| Attendance.WindowEdge | backend/src/attendance/attendance.service.ts:108-114 | the row dated thirty days back is counted only when `now` is exactly midnight; the row dated twenty-nine days back always is |
| Attendance.LateCountExamples | backend/src/attendance/attendance.service.ts:123-129 | a check-in at 08:15 is counted late, one at 08:00:59.999 is not |
| StudentAttendancePage.GetStatus | web/app/student/attendance/page.tsx:112-125 | absent exactly without check-in; late exactly with a late check-in; present exactly with an on-time check-in |
| StudentAttendancePage.StatusLateThreshold | web/app/student/attendance/page.tsx:119-121 | the badge is late exactly when check-in is at or after 08:01:00.000 |
| StudentAttendancePage.TappedRowNeverAbsent | web/app/student/attendance/page.tsx:113 | a row written by a tap is never shown absent |
| StudentAttendancePage.UpperAscii | web/app/student/attendance/page.tsx:369 | a lower-case letter maps to its capital; other characters are kept |
| StudentAttendancePage.Capitalize | web/app/student/attendance/page.tsx:369 | same length; the first character upper-cased, the rest unchanged |
| StudentAttendancePage.StatusLabel | web/app/student/attendance/page.tsx:369 | the label is the status name with its lower-case first letter replaced by the capital |
| StudentAttendancePage.StatusLabels | web/app/student/attendance/page.tsx:369 | the labels are "Present", "Late" and "Absent", and they tell the statuses apart |
| StudentAttendancePage.CountStatus | web/app/student/attendance/page.tsx:330-331 | a badge count is at most the number of rows |
| StudentAttendancePage.BadgesMatchCounts | web/app/student/attendance/page.tsx:112-125 | over the same rows: Late badges = late count; Present + Late badges = present count; Absent badges = rows − present |
| StudentAttendancePage.BadgesPartitionRows | web/app/student/attendance/page.tsx:112-125 | every row gets exactly one badge |
| StudentAttendancePage.WindowBadgesMatchStats | web/app/student/attendance/page.tsx:120 | over the statistics window's rows, Late and Absent badges number exactly the late and absent cards |

## Left out

- Persistence and concurrency: the two tables are sequential state. The check-then-act race between the day-window lookup and the insert is not modelled. Neither are row ids, `createdAt` or `updatedAt`.
- Dates: instants are integer milliseconds already in local time. Time zones and daylight-saving days are not modelled. `setDate(getDate() - 30)` is modelled as exactly thirty 24-hour days.
- RoundedRate: computes the exact rational rounding. `Math.round` on the floating-point product can differ from it by one at an exact half that floating point does not represent.
- FindToday: `findFirst` without an order is modelled as the first match in store order. In a valid store there is at most one match, so the order does not matter there.
- FindByCard: the lookup returns the first holder of the card. The lemmas take the schema's unique constraint on `rfidCard` as the precondition `UniqueCards`.
- SortByDateDesc: rows with equal dates may come back in any order from the database. The model fixes one order, and its contract allows any.
- `RfidTapDto`'s non-empty card check (`backend/src/attendance/dto/rfid-tap.dto.ts:4-6`) is not applied by the controller, so `HandleRfidTap` has no precondition on the card.
- bcrypt hashing is the function parameter `hash`. The `@IsEmail` format test is the function parameter `isEmail`.
- `generateUuid` uses `Math.random`, so the new id is a parameter of `NewUserRow`. The raw SQL insert and the re-fetch after it are modelled only as the row they produce.
- UpperAscii: upper-cases ASCII letters only. The status names are ASCII, so the labels are exact.
- UserDto.Validate: the raw body has a string in every field and every required field present. So the model cannot express `@IsString` rejecting a non-string value, or a body missing its username, password, role, first name or last name.
- UserDto.ValidCreateUser: same limit as `Validate`: type checks and missing required fields are not modelled.
- StudentAttendancePage.BadgesMatchCounts: the page reads hours in the browser's time zone, the service in the server's. Both are modelled by the one `Clock.IsLate`, so badges and counts agree only when the two time zones are the same.
- StudentAttendancePage.WindowBadgesMatchStats: same time-zone assumption as `BadgesMatchCounts`.
- Authentication, controllers, the HTTP client and every other page and component are routing, rendering or I/O.
- `changeMonth`, `formatDate` and `formatTime` on the page are `Date` formatting.
- The RFID keystroke buffering in the portal page and the scanner hook are timer-driven input handling.
- `findAll`, `findOne` and `remove` of the user service are plain reads and deletes and are not part of this model.
