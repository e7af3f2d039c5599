# RecordSync attendance core in Dafny

RecordSync is a small school-attendance application. A student table
(Students_Data.csv) is filled by an RFID ingestion script and by the roster
screens. The attendance engine recomputes every student's status
(Present / Late / Absent) from the recorded check-in time and a class
schedule, and counts one more attended class when a student turns from not
attending to attending. Admins sign up and log in against a credential table
(admin.csv). The dashboard and the sidebar map routes to sections.

This project models that core and proves properties of it:

- `text.dfy` (module `Text`): the Python string and integer behaviour the code
  relies on: `strip` with Python's whitespace set, ASCII `lower`, `int()` on
  text (optional sign, digits, single underscores), `str(n)`, `f"{n:03d}"`,
  `split`, and substring `in`.
- `tables.dfy` (module `Tables`): generic row-table helpers: first match,
  keyed map with the last write winning, map, filter, running maximum.
- `records.dfy` (module `Records`): the two tables as rows of text columns;
  `StudentsFile` and `AdminFile` are the CSV files as objects whose `rows` a
  write replaces.
- `clock.dfy` (module `Clock`): `strptime(..., "%I:%M %p")` as used by
  `_parse_time`, the check-in stamp `strftime("%-I:%M %p")`, and
  `_is_time_in_range`.
- `attendance.dfy` (module `Attendance`): `determine_status`,
  `update_statuses` / `sync_students_data` and `get_student_attendance`.
- `students.dfy` (module `Students`): `_next_id`, the photo helpers,
  `get_all_students`, `add_student`, `update_student` and `delete_student`.
- `admins.dfy` (module `Admins`): `admin_login`, `admin_signup` and
  `_write_admin_csv`.
- `auth.dfy` (module `Auth`): the login page's `on_login` and the signup
  page's `on_create_account`. Each page is a class whose fields are its
  input fields, its status line and, for login, the route shown.
- `ingest.dfy` (module `Ingest`): one iteration of the RFID script in
  `database/models.py`: parse a line, derive the ID, update or append the
  row, and write the table.
- `routes.dfy` (module `Routes`): `_route_to_section`, `_normalize_route` and
  the sidebar's `nav_callback`.

Places where the code behaves differently from what its names and
docstrings suggest; the model follows the code:

- The grace end is `datetime.combine(today, start) + grace` cut back to a time
  of day, so it wraps past midnight. For example, class start 11:50 PM with
  15 minutes of grace ends at 12:05 AM. A check-in at 11:55 PM is then Late
  (`Attendance.GraceEndWrapsAtMidnight`). When the date addition overflows
  the calendar, the raised error makes the status Absent
  (`Attendance.GraceOverflowIsAbsent`).
- A Late to Present change is not counted again, because the old status
  Late is already attending (`Attendance.LateToPresentNotCounted`).
- The login and signup pages match usernames case-insensitively, but
  `admin_login` and `admin_signup` in `core/admin_manager.py` match exactly
  (`Admins.AdminLogin`, `Admins.SignupRowSpec`).
- The ingestion script stores the status text as received, for example
  "present" in lower case. The next sync does not count that text as
  attending, so one present scan followed by one sync counts two classes
  (`Ingest.IngestThenSyncCountsTwice`).

## Model

| member | source | states |
|---|---|---|
| Clock.ParseTime | core/attendance_manager.py:47-55 | an accepted time is a minute of the day in 0..1439, and empty or blank text is never accepted |
| Clock.ParseTimeStrip | core/attendance_manager.py:53 | stripping the text before parsing changes nothing |
| Clock.ParseClockAccepts | core/attendance_manager.py:53 | every well-formed "H:MM AM/PM" text with hour 1..12 and minute 0..59 is accepted with the value its pieces denote |
| Clock.ParseClockShape | core/attendance_manager.py:53 | every accepted text is a well-formed clock text with in-range pieces, and its value is the value of those pieces |
| Clock.ParseFormatTime | database/models.py:62 | the check-in stamp of a minute parses back to that minute |
| Clock.ParseFormatTimePadded | core/attendance_manager.py:47-55 | a zero-padded "HH:MM AM/PM" schedule time parses back to its minute |
| Clock.IsTimeInRange | core/attendance_manager.py:58-62 | true iff all three times are present and start <= time <= end |
| Attendance.DetermineStatus | core/attendance_manager.py:65-94 | a blank check-in is Absent; an unparseable check-in, start or end is Absent |
| Attendance.DetermineStatusParsed | core/attendance_manager.py:73-91 | with all three times parsed: Absent iff after the end or the grace end overflows, Present iff not after the end and not after the grace end, Late otherwise |
| Attendance.ClassifyMonotone | core/attendance_manager.py:82-91 | a later check-in never gets a better status than an earlier one: Present, then Late, then Absent |
| Attendance.ClassEndIsNotAbsent | core/attendance_manager.py:82-83 | a check-in exactly at the class end is not Absent, since the end test is strict |
| Attendance.InRangeNotAbsent | core/attendance_manager.py:58-62 | a check-in within the class window is never Absent when the grace end can be computed |
| Attendance.GraceBoundary | core/attendance_manager.py:85-91 | a check-in at start + grace is Present and one minute later is Late |
| Attendance.GraceEndWrapsAtMidnight | core/attendance_manager.py:85-86 | the grace end wraps past midnight, which turns a check-in inside the grace period into Late |
| Attendance.GraceOverflowIsAbsent | core/attendance_manager.py:85-94 | when adding the grace overflows the calendar, the caught error gives Absent |
| Attendance.StatusOfFormattedTimes | core/attendance_manager.py:65-94 | on a stamped check-in and padded schedule times, the status is the classification of the three minutes |
| Attendance.RecomputeStatuses | core/attendance_manager.py:112-130 | the loop leaves every row synced and reports one update per row and the last old/new status per ID |
| Attendance.SyncOne | core/attendance_manager.py:113-128 | one row is synced and keeps its ID, and the reported change is its old and new status |
| Attendance.ApplyStatus | core/attendance_manager.py:118-126 | the counter is incremented exactly on a change from not attending to attending, and the status is overwritten |
| Attendance.UpdateStatuses | core/attendance_manager.py:97-141 | the students file holds the synced rows and the summary counts every row |
| Attendance.ResyncEffect | core/attendance_manager.py:118-126 | the new status is written, the counter goes up by one exactly on a new attendance and nothing else changes |
| Attendance.StatusNameStripped | core/attendance_manager.py:114-118 | a written status reads back stripped, and it counts as attending iff it is Present or Late |
| Attendance.ResyncStable | core/attendance_manager.py:118-126 | writing the same status twice is the same as writing it once |
| Attendance.SecondSyncCountsNothing | core/attendance_manager.py:97-136 | a second sync with the same schedule increments no counter |
| Attendance.SyncIdempotent | core/attendance_manager.py:97-136 | syncing twice with the same schedule gives the same table as syncing once |
| Attendance.AbsentToLateCountsOnce | core/attendance_manager.py:118-126 | a change from a non-attending status to Late adds exactly one class |
| Attendance.LateToPresentNotCounted | core/attendance_manager.py:118 | a change from Late to Present only rewrites the status |
| Attendance.StatusOfUnstripped | core/attendance_manager.py:115-116 | stripping the check-in before classifying it changes nothing |
| Attendance.NoCheckInIsAbsent | core/attendance_manager.py:70-71 | a row without a check-in becomes Absent and keeps its counter |
| Attendance.FirstCheckInCounts | core/attendance_manager.py:112-128 | a not-yet-counted row with counter "0" and a stamped on-time check-in becomes Present with counter "1" |
| Attendance.OnTimeCheckIn | core/attendance_manager.py:65-91 | a stamped check-in classified Present gives the status Present |
| Attendance.FirstAttendanceCounter | core/attendance_manager.py:118-124 | a counter "0" on a row not yet counted becomes "1" when it turns Present |
| Attendance.ChangedMapLastWins | core/attendance_manager.py:127 | the change reported for an ID is that of the last row with that ID |
| Attendance.ChangedMapKeys | core/attendance_manager.py:127 | the IDs in the changed report are exactly the IDs of the rows |
| Attendance.GetStudentAttendance | core/attendance_manager.py:184-193 | the result is the first row whose stripped name matches ignoring case; none when no row matches |
| Attendance.LookupIgnoresCase | core/attendance_manager.py:187-189 | queries that differ only in case or surrounding space find the same row |
| Students.KeepDigits | core/student_manager.py:42 | the digits of an ID, in order, never longer than the ID |
| Students.KeepDigitsAppend | core/student_manager.py:42 | keeping the digits distributes over concatenation |
| Students.KeepDigitsAll | core/student_manager.py:42 | a text of digits is kept whole |
| Students.MaxIdNumberSpec | core/student_manager.py:40-49 | the running maximum bounds every ID number and is one of them, or 0 |
| Students.NextId | core/student_manager.py:39-50 | the loop computes "00-" and the padded largest ID number plus one |
| Students.IdNumberOfFormatted | core/student_manager.py:42-50 | a formatted ID reads back as its number |
| Students.NextIdFresh | core/student_manager.py:39-50 | the next ID differs from every existing ID |
| Students.FreshIdNumber | core/student_manager.py:50 | the next ID reads back as the largest ID number plus one |
| Students.FormattedIdDiffers | core/student_manager.py:50 | an ID whose number is smaller than n is not the formatted ID n |
| Students.SafeName | core/student_manager.py:61 | each character outside [A-Za-z0-9._-] becomes '_', the others stay, the length is kept |
| Students.SafeNameSafe | core/student_manager.py:61 | the safe name is all safe characters and is its own safe name |
| Students.StoredPhotoPath | core/student_manager.py:53-68 | a path is stored iff a photo was given and copied, and it is "/assets/profiles/" followed by the safe name of the copied file |
| Students.ResolvePhotoPathShape | core/student_manager.py:71-78 | the placeholder for an empty path; otherwise backslashes become '/', with a '/' in front unless it starts with "/assets/" |
| Students.ResolveStoredPhoto | core/student_manager.py:53-78 | a stored photo path resolves to itself, or to the placeholder when none was stored |
| Students.ResolveTwiceAddsSlash | core/student_manager.py:71-78 | resolving is not idempotent: a relative path gains a '/' each time |
| Students.GetAllStudentsSpec | core/student_manager.py:81-100 | one entry per row with its ID and name, 20 classes, the resolved photo path of the row's Img_Path, and the counter's value, or 0 for a counter that is not an integer |
| Students.NewStudentRowSpec | core/student_manager.py:103-117 | add fails iff "attended" is given and not an integer; the new row has the next ID, which is unused, the stripped name, no status or times, the given count and the stored photo path |
| Students.AddStudent | core/student_manager.py:103-127 | on success the row is appended and its entry returned; on error nothing is written |
| Students.EditRowSpec | core/student_manager.py:134-145 | an edit keeps ID, status and times and changes only the fields given: the stripped name, the stored photo path, the count; a bad count is ignored |
| Students.UpdateRowsSpec | core/student_manager.py:130-149 | update fails iff no row has the ID; otherwise only the first row with the ID is edited |
| Students.UpdatedViewSpec | core/student_manager.py:152-158 | the returned entry is the edited row's roster entry, or an error for a stored count that is neither empty nor an integer |
| Students.UpdateStudent | core/student_manager.py:130-158 | the file holds the edited table, or is unchanged when the ID is unknown |
| Students.RemoveStudentRowsSpec | core/student_manager.py:163-164 | no kept row has the ID, every other row is kept, and the length drops iff some row had the ID |
| Students.RemoveStudentRowsAppend | core/student_manager.py:163 | deleting from two parts of the table deletes from each |
| Students.DeleteStudent | core/student_manager.py:161-166 | "student not found" and no write when no row has the ID; otherwise the file holds the remaining rows |
| Admins.AdminLogin | core/admin_manager.py:31-38 | true iff some row holds exactly this username and password |
| Admins.NextAdminId | core/admin_manager.py:50-56 | the loop computes one more than the largest id that parses, from 0 |
| Admins.NewAdminIdFresh | core/admin_manager.py:50-56 | the new id is at least 1 and above every id that parses |
| Admins.SignupRowSpec | core/admin_manager.py:41-57 | signup fails iff the exact username exists; otherwise the row carries the inputs and a fresh id |
| Admins.WriteAdminRowsKeeps | core/admin_manager.py:21-28 | the corrected write keeps every row's username, password and id value |
| Admins.WriteAdminRowsKeepsLogins | core/admin_manager.py:21-28 | the corrected write keeps exactly the logins that worked before |
| Admins.AdminSignup | core/admin_manager.py:41-60 | with the corrected write: a duplicate leaves the file unchanged; otherwise the file holds the old rows and the new one |
| Admins.SignupThenAdminLogin | core/admin_manager.py:31-60 | after signup the new account logs in and every old account still does |
| Admins.AdminSignupAsWritten | core/admin_manager.py:41-60 | as written, the table left holds at most one row more than before, and exactly one more on success |
| Admins.AdminSignupAsWrittenSpec | core/admin_manager.py:21-60 | as written, signup succeeds iff the username is new and every stored id parses, leaving the corrected write's table; a duplicate changes nothing; otherwise the rows from the first bad id on are lost |
| Admins.WriteAsWrittenDropsFromBadId | core/admin_manager.py:24-28 | as written, an id that does not parse stops the write, keeping fewer rows than its position |
| Admins.SignupWithBadIdEmptiesTable | core/admin_manager.py:21-59 | as written, signup next to an unparseable id empties admin.csv, while the corrected write keeps both accounts |
| Auth.LoginChecksInOrder | auth/admin_login.py:38-68 | an empty username, then an empty password, then a failed read decide the outcome, in that order |
| Auth.LoginDecisionSpec | auth/admin_login.py:70-81 | "not registered" iff no stored username, stripped and lower-cased, equals the lower-cased input |
| Auth.LoginSucceedsSpec | auth/admin_login.py:70-94 | login succeeds iff the first case-insensitive username match stores exactly the stripped password |
| Auth.PaddedPasswordNeverLogsIn | auth/admin_login.py:84-89 | a stored password ending in whitespace never matches the stripped input |
| Auth.PaddedNeverStripped | auth/admin_login.py:39 | a text ending in whitespace is no stripped text |
| Auth.LoginIgnoresUsernameCase | auth/admin_login.py:73 | the username's case does not change the outcome |
| Auth.LoginPage.OnLogin | auth/admin_login.py:34-94 | the status line shows the outcome's message, red on failure; on success the page goes to "/dashboard" |
| Auth.SignupDecisionSpec | auth/admin_signup.py:28-89 | in order: a missing field gives "All fields are required", different passwords give "Passwords do not match", an unreadable table gives a database error, a username taken ignoring case and surrounding space is rejected iff one exists, a failed append of a new username gives a database error, and otherwise the account is created with the next id and the stripped username and password |
| Auth.SignupCreatedRow | auth/admin_signup.py:71-81 | the created row has the stripped username and password and an id above every id that parses |
| Auth.SignupThenLogin | auth/admin_signup.py:71-94 | an account created by signup can then log in with the same password |
| Auth.SignupTwiceRejected | auth/admin_signup.py:62-68 | after a signup, the same username in any case is rejected as already registered |
| Auth.SignupPage.OnCreateAccount | auth/admin_signup.py:19-94 | the status line shows the outcome; on success the row is appended, the line is green and the fields are cleared, otherwise nothing changes |
| Ingest.ScanStudentId | database/models.py:61 | an ID is derived exactly when the number text is an integer |
| Ingest.ScanStudentIdOfNumber | database/models.py:28-30 | the number n gives the ID of n, which the roster reads back as n |
| Ingest.GetImagePathSpec | database/models.py:32-35 | the path holds no space, ignores the spaces of the name, and is the plain path for a name without spaces |
| Ingest.IngestedPhotoResolves | database/models.py:35 | the roster shows an ingested photo path with a '/' in front |
| Ingest.ParseScanLine | database/models.py:56-59 | a line is accepted iff it splits into exactly three comma-separated fields |
| Ingest.ParseScanLineJoin | database/models.py:56 | three comma-free, stripped fields joined by commas parse back to themselves |
| Ingest.ProcessScan | database/models.py:52-90 | the result is the scan step, and the file changes only when the scan was saved |
| Ingest.BadLineSkipped | database/models.py:52-59 | a blank line is ignored, and a bad line is reported iff the stripped line does not split into three fields |
| Ingest.ScanUpdatesExisting | database/models.py:68-75 | a known ID updates its first row, which keeps ID, name and photo and gets the scan's status and an empty check-out |
| Ingest.ScanPresentRow | database/models.py:71-75 | a present scan adds one class and stamps the check-in time |
| Ingest.ScanUnreadableCounterFails | database/models.py:72 | a present scan on a row whose counter is not an integer fails |
| Ingest.ScanAppendsNew | database/models.py:76-87 | an unknown ID appends a row with the scan's fields, one class iff present, and the photo path from the name |
| Ingest.ScanKeepsId | database/models.py:68-87 | after a saved scan some row has the scanned ID |
| Ingest.LowercasePresentNotCounted | database/models.py:71-74 | "present" counts for the scan but not for the sync |
| Ingest.IngestThenSyncCountsTwice | database/models.py:71-74 | a present scan followed by a sync counts two classes |
| Routes.RouteToSection | dashboard/dashboard_view.py:22-29 | the result is always a section name |
| Routes.RouteToSectionSpec | dashboard/dashboard_view.py:22-29 | a section iff it is the first "/"-segment that names a section, students when there is none |
| Routes.OneSegmentRoute | dashboard/dashboard_view.py:25-29 | a one-segment route goes to that segment when it names a section, else to students |
| Routes.RouteToSectionOfSection | dashboard/dashboard_view.py:22-29 | a section and "/" plus that section go to it |
| Routes.NormalizeRoute | ui/sidebar_ui.py:16-26 | the result is always a section name |
| Routes.NormalizeRouteSpec | ui/sidebar_ui.py:16-26 | attendance wins over settings, settings over students, and attendance is the fallback, each as an iff |
| Routes.NormalizeRouteIgnoresCase | ui/sidebar_ui.py:18 | the route's case does not matter |
| Routes.NormalizeRouteOfSection | ui/sidebar_ui.py:16-26 | a section and "/" plus that section go to it |
| Routes.DefaultsDiffer | dashboard/dashboard_view.py:22-29 | a route naming no section goes to students on the dashboard but to attendance in the sidebar |
| Routes.SegmentAgainstSubstring | ui/sidebar_ui.py:19-20 | "/attendance" followed by more text goes to students on the dashboard but to attendance in the sidebar |
| Routes.NavTargetSpec | dashboard/dashboard_view.py:300-331 | logout iff the name is "logout" after the leading '/'s; otherwise the route of that section, or of attendance |
| Routes.NavTargetIgnoresSlash | dashboard/dashboard_view.py:301 | a leading '/' does not change the navigation |
| Routes.NavRouteAgrees | dashboard/dashboard_view.py:300-331 | every route the sidebar goes to is classified as its own section by both classifiers |

## Left out

- `get_all_attendance`: it copies each row's seven columns, and a row is already held as those seven columns, so it is the identity on the rows.
- `logout_user`: it reads and rewrites the table unchanged and counts the rows. The sidebar's logout ends the process, which is outside the model (`Routes.NavAction.Logout`).
- File I/O: reading and writing the CSV files is a read or a replacement of a file object's `rows`. A read or append that fails is a parameter (`store: None`, `readOk`, `appendOk`).
- The errors list of `update_statuses`: the per-row `try` cannot fail on rows of text columns, and a failed write is not modelled.
- The serial port, the endless loop and `datetime.now()` of the ingestion script: the model is one iteration, given the received line and the current minute.
- pandas type inference in the ingestion script: the counter column is treated as integer text. A counter that does not parse makes the scan fail (`ScanFailed`) instead of pandas' float or string arithmetic.
- Admins.AdminSignup: the method uses the corrected write, so where the source raises after emptying admin.csv on a stored id that is not an integer it returns `Ok` with every row kept; that path is modelled by `Admins.AdminSignupAsWritten`.
- `str.isdigit`, `str.lower`, `int()` and strptime's `%I`/`%M` beyond ASCII: Python also accepts non-ASCII decimal digits there (`int("١٢") == 12`), while `Text.ParseInt` and `Clock.DigitRun` accept ASCII digits only; and Unicode whitespace beyond Python's `isspace` set for ASCII and common separators.
- Missing columns and `None` cells: every row holds all its columns as text.
- The copy of the photo file: `Students.PhotoCopy` says whether the source existed, whether the copy failed, and the source file's name.
- The attendance watcher thread, charts, widgets, `page.update()` and the routing of `page.go`: only the route the login page shows is kept.
- The grace period's default (5 minutes, 15 at some call sites) is a parameter of `Schedule`.

## Findings

| source | as written | input that shows it | evidently intended | confidence | as-written member | corrected member |
|---|---|---|---|---|---|---|
| core/admin_manager.py:21-28 | `admin_signup` calls `_write_admin_csv`, which opens admin.csv for writing and then applies `int()` to each row's id; the first id that is not an integer raises after the file was truncated | admin.csv holds one row with id "x", username "alice", password "pw"; call `admin_signup("bob", "pw2")` | the write keeps every row (an id that does not parse is written as it was read), so alice can still log in and bob can too | not executed | Admins.SignupWithBadIdEmptiesTable | Admins.WriteAdminRowsKeepsLogins |
