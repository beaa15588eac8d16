# Face-recognition attendance system: verified model of the core

This project models the decision logic of a Django face-recognition attendance system in Dafny and proves properties of it. It covers:

- the data model: users, location constraints, sessions, attendance records and monthly reports, with their defaults and uniqueness rules;
- face encoding with a fallback cascade of detectors, and one-to-one face comparison with a distance check;
- the single-frame liveness heuristic, as an ordered sequence of checks;
- the attendance-report and account e-mails: the once-per-day tracking map, the latest-session line, the message bodies and the password rule;
- the JSON endpoints that start and stop sessions, as operations on a session table;
- the monthly report command: choosing the month, the month window, the counts, the percentage, and create-or-update of each report;
- the access-control middleware, with its path exemption list matched by `re.match` or `startswith`, and the security-headers middleware;
- the login backend: roll number or e-mail, case-insensitive, lowest id on ties;
- the location form's radius check and the user creation form's `save`.

Library computations (face_recognition, OpenCV, numpy), the clock, `send_mail` and the tracking file are not executed. What they answer is an input to each operation: a `Call<T>` is either `Returned(value)` or `Raised`. The clock is passed in as `now`/`today`. The tracking file is a map from user id to the last date sent.

The files:

| file | module | contents |
|---|---|---|
| `wrappers.dfy` | `Wrappers` | `Option`, `Result`, `Call` |
| `text.dfy` | `Text` | ASCII `lower`/`capitalize`/`strip`, Python string order, zero-padded decimals |
| `calendar.dfy` | `Calendar` | proleptic Gregorian dates, day ordinals, `timedelta(days=1)`, `%Y-%m-%d` |
| `models.dfy` | `Models` | the tables as datatypes, their defaults and uniqueness constraints |
| `face_matching.dfy` | `FaceMatching` | `encode_face`, `compare_faces` |
| `liveness.dfy` | `Liveness` | `is_live_capture` |
| `notifications.dfy` | `Notifications` | e-mail tracking, the attendance report e-mail, the account e-mail |
| `session_api.dfy` | `SessionApi` | `api_start_session`, `api_stop_session` |
| `monthly_reports.dfy` | `MonthlyReports` | `generate_monthly_reports` |
| `middleware.dfy` | `Middleware` | `RoleBasedAccessMiddleware`, `SecurityHeadersMiddleware` |
| `backends.dfy` | `Backends` | `RollNumberBackend.authenticate` |
| `forms.dfy` | `Forms` | `LocationConstraintForm.clean_radius`, `CustomUserCreationForm.save` |

Points where the code behaves differently from what its comments suggest. The model follows the code.

- The `'^$'` entry of the exemption list is commented as the home page. As a pattern it only admits the empty path or a lone newline, and Django paths start with `/`, so an anonymous request for `/` is redirected to the login page (`Middleware.SingleCharNotExempt`, `Middleware.AnonymousSingleCharRedirected`).
- `'/favicon.ico'` is used as a pattern with an unescaped dot. Any character but a newline may stand in the dot's place (`Middleware.FaviconLookalikeExempt`).
- Starting a session copies its name, location, faculty and duration, but not its year, level or department restriction (`SessionApi.Launch`).

## Model

| member | source | states |
|---|---|---|
| Models.NewLocationConstraint | face/models.py:43-49 | a new constraint has radius 300 and is active; the given fields are kept |
| Models.NewSession | face/models.py:54-64 | a new session is inactive and has no year, level or department restriction |
| Models.NewRecord | face/models.py:69-83 | a new record is a face-recognition record stamped with the creation time |
| Models.NewMonthlyReport | face/models.py:91-98 | a new report has zero sessions, zero attended and 0 % |
| Models.InsertRecord | face/models.py:85-86 | inserting a record fails exactly when the (user, session) pair already has one; otherwise the record is added and uniqueness still holds |
| Models.SecondMarkRefused | face/models.py:85-86 | marking the same user in the same session twice is refused, leaving exactly the first record for the pair |
| Calendar.DayBefore | face/management/commands/generate_monthly_reports.py:36 | subtracting one day gives a valid date whose ordinal is one less; it overflows only at 0001-01-01 |
| Calendar.DayAfter | face/management/commands/generate_monthly_reports.py:50 | adding one day gives a valid date whose ordinal is one more; it overflows only at 9999-12-31 |
| Calendar.IsoDateInjective | face/utils.py:431-433 | two different dates never have the same `%Y-%m-%d` text, so the tracking map tells days apart |
| FaceMatching.FirstDetection | face/utils.py:25-38 | the detectors are tried in order and the first to find a face decides; no face means all of them ran and found none; an exception comes from a detector reached after empty answers |
| FaceMatching.FirstDetectionAt | face/utils.py:25-38 | when the detector at position k is the first to find a face, the cascade yields exactly its faces |
| FaceMatching.EncodeFace | face/utils.py:12-58 | no face anywhere gives None; the result is Some exactly when some detector is the first to find a face and encoding its first face gives an encoding, and it is then that first encoding |
| FaceMatching.HogFaceSkipsFallbacks | face/utils.py:25-33 | once HOG finds a face, what the CNN and upsampled detectors would answer cannot change the encoding |
| FaceMatching.CompareFaces | face/utils.py:90-126 | a match exactly when both encodings exist with the same shape, the library's first verdict is a match, and the first distance (1.0 if none) is within the tolerance |
| FaceMatching.CompareFacesMonotonic | face/utils.py:113-121 | a pair that matches at some distance still matches at any smaller distance |
| FaceMatching.MissingDistanceRejects | face/utils.py:90-121 | with the default tolerance 0.4, a missing distance (taken as 1.0) always rejects |
| FaceMatching.DistanceOverrulesVerdict | face/utils.py:116-119 | a library "match" whose distance exceeds the tolerance is a rejection |
| Liveness.FirstFailure | face/utils.py:134-212 | no failure exactly when every check passes |
| Liveness.FirstFailureOfOrder | face/utils.py:134-212 | the checks run in the order empty, blur, face, landmarks, one face, colour, moiré, brightness, and the first failing one is reported |
| Liveness.AssessIsFirstFailure | face/utils.py:128-221 | the liveness verdict is the first failing check, and a capture is live exactly when every check passes |
| Liveness.BlurRejectedFirst | face/utils.py:141-148 | a non-empty frame with Laplacian variance below 50 is rejected as blurry, whatever the later checks would say |
| Liveness.FrequencyFailureSkipped | face/utils.py:180-206 | an exception in the frequency analysis is skipped: the verdict is as if no moiré were found |
| Liveness.GreyFramesSkipColourCheck | face/utils.py:168-177 | a frame that is not three-dimensional is never rejected for low colour variance |
| Notifications.RecordSentThenAlreadySent | face/utils.py:391-439 | after recording a send, the user counts as served for that date and no other; other users' entries are unchanged |
| Notifications.EmailTracker.ReceivedToday | face/utils.py:391-415 | true exactly when the file exists, reads, and maps the user to that date's text |
| Notifications.EmailTracker.RecordEmailSent | face/utils.py:417-439 | the user's entry becomes that date's text, a missing file becomes a one-entry map, an unreadable file is left alone |
| Notifications.ParseSessionTimeText | face/utils.py:335-338 | a session time written `YYYY-MM-DD HH:MM` parses back to its date |
| Notifications.LatestStep | face/utils.py:326-332 | one loop step keeps "the greatest session time seen so far" true |
| Notifications.LatestSession | face/utils.py:323-340 | the latest time is the greatest non-empty session time in string order; a parsable latest time gives its date; any date found belongs to some row; the result is the in-order scan `LatestScan`, so a later maximum whose time does not parse keeps the date of the last earlier maximum that parsed (`except ValueError: pass`) |
| Notifications.DetailLinesAppend | face/utils.py:357-365 | the session lines of two row lists are the lines of each, one after the other |
| Notifications.OneLinePerSession | face/utils.py:357-365 | single-line names and timestamps give exactly one line per session |
| Notifications.AppendDetails | face/utils.py:357-365 | the loop appends exactly the detail lines of the rows |
| Notifications.ReportBody | face/utils.py:343-373 | the message built step by step equals the report text: greeting, date and department, latest-session line, details or "no sessions", closing |
| Notifications.SendAttendanceReportEmail | face/utils.py:305-389 | served today: success, nothing sent, nothing recorded; otherwise the report goes to the user's address, the result is whether delivery succeeded, and only a delivered report is recorded |
| Notifications.UserDetailsEmail | face/utils.py:261-298 | the account e-mail goes to the user, with subject "Account " + the capitalised action |
| Notifications.PasswordOnlyOnCreation | face/utils.py:281-284 | for any action but "created" the body does not depend on the password |
| Notifications.PasswordInsertedOnCreation | face/utils.py:281-284 | on creation with a non-empty password, the body is the password-free body with the password lines inserted |
| SessionApi.Authorize | face/views_fixed.py:4-28 | a request is accepted exactly when it is a POST from an admin or faculty user, carries a non-zero session id naming a session, and, for faculty, the session is their own; each refusal carries the message of the first failing check: wrong method, no login, no admin/faculty role, malformed body, missing or zero id, unknown session, another faculty member's session |
| SessionApi.Launch | face/views_fixed.py:31-38 | the started session is active, starts now, lasts as long as the original and keeps its name, location and faculty, without year, level or department restrictions |
| SessionApi.Halt | face/views_fixed.py:82-84 | a stopped session is inactive and ends now; nothing else changes |
| SessionApi.HaltTwice | face/views_fixed.py:82-84 | stopping twice is the same as stopping once at the later time |
| SessionApi.AdminMayManageAny | face/views_fixed.py:27 | a user whose role is named admin, in any letter case, may start or stop any session |
| SessionApi.OtherFacultyRefused | face/views_fixed.py:79-80 | faculty cannot stop a session that belongs to someone else |
| SessionApi.SessionStore.StartSession | face/views_fixed.py:2-52 | success exactly when authorised; on success one new session with a fresh id is added and nothing else changes; on refusal the table is untouched |
| SessionApi.SessionStore.StopSession | face/views_fixed.py:55-98 | success exactly when authorised; on success only the named session is halted; on refusal the table is untouched |
| MonthlyReports.SplitJoin | face/management/commands/generate_monthly_reports.py:25 | splitting on '-' loses nothing: joining the pieces gives the text back |
| MonthlyReports.ParseDigits | face/management/commands/generate_monthly_reports.py:25 | `int` reads a plain run of digits as its decimal value |
| MonthlyReports.ParsePadded | face/management/commands/generate_monthly_reports.py:25 | `int` reads zero-padded decimal text back as its number |
| MonthlyReports.ParseMonthOption | face/management/commands/generate_monthly_reports.py:23-31 | a chosen month is a valid date on day 1; a field count other than two or a field `int` refuses is an invalid format; two integer fields give what `datetime(year, month, 1)` gives (`MonthOf`) |
| MonthlyReports.NoDashRefused | face/management/commands/generate_monthly_reports.py:25 | an option without '-' is an invalid format |
| MonthlyReports.MonthOf | face/management/commands/generate_monthly_reports.py:26 | a month `datetime` accepts is a valid date on day 1 |
| MonthlyReports.MonthOfSmall | face/management/commands/generate_monthly_reports.py:26 | in years 1..9999 a month number below 100 gives that month when it is 1..12 and is refused otherwise |
| MonthlyReports.ParseOfParts | face/management/commands/generate_monthly_reports.py:25-26 | an option that splits into two integer pieces chooses that month, or is refused when the month number is out of range |
| MonthlyReports.MonthOptionRoundTrip | face/management/commands/generate_monthly_reports.py:25-26 | `YYYY-MM` chooses the first of that month, and a month number outside 1..12 is refused |
| MonthlyReports.PreviousMonthStart | face/management/commands/generate_monthly_reports.py:34-37 | the default is day 1 of the previous month, January wraps to December of the year before, and 0001-01 overflows |
| MonthlyReports.ChooseMonth | face/management/commands/generate_monthly_reports.py:23-37 | a given non-empty option is parsed; otherwise the previous month is used; a chosen month is valid and on day 1 |
| MonthlyReports.MonthWindow | face/management/commands/generate_monthly_reports.py:48-50 | the window runs from midnight on day 1 to midnight on the first of the next month, spanning the month's days; it overflows only for December 9999 |
| MonthlyReports.AttendedAtMostTotal | face/management/commands/generate_monthly_reports.py:53-64 | a user never attends more sessions than were held in the month, because records are unique per user and session |
| MonthlyReports.Percentage | face/management/commands/generate_monthly_reports.py:67-70 | between 0 and 100; attended/total × 100 when there were sessions, 0 otherwise |
| MonthlyReports.ReportCounts | face/management/commands/generate_monthly_reports.py:53-70 | attended ≤ total and the percentage lies between 0 and 100 |
| MonthlyReports.FindReport | face/management/commands/generate_monthly_reports.py:73-75 | finds the report for (user, month) when there is one, and reports none only when none exists |
| MonthlyReports.Upsert | face/management/commands/generate_monthly_reports.py:73-81 | after create-or-update the pair has a report with the new counts, the table stays unique per (user, month), and every other report is unchanged; an existing row changes only its three counts and keeps its `generated_at`, and a missing row is appended with `generated_at` set to now (`auto_now_add`, face/models.py:98) |
| MonthlyReports.UpsertKeepsOther | face/management/commands/generate_monthly_reports.py:73-81 | an upsert for one user leaves another user's report for the month as it was |
| MonthlyReports.UpsertNoChange | face/management/commands/generate_monthly_reports.py:73-81 | an update with the counts the row already holds leaves the table unchanged |
| MonthlyReports.UpsertIdempotent | face/management/commands/generate_monthly_reports.py:73-81 | rerunning with the same counts leaves the table as after the first run |
| MonthlyReports.ReportTable.UpdateOrCreate | face/management/commands/generate_monthly_reports.py:73-81 | the table becomes the upsert of the old table and keeps its uniqueness |
| MonthlyReports.ReportUsers | face/management/commands/generate_monthly_reports.py:46-95 | every handled user has one report for the month holding their counts; `mailed[i]` is what sending the i-th user's stored report answered; rows of other users or months are untouched and every added row is a handled user's report for the month; a raising send ends the loop right after that user's report was stored |
| MonthlyReports.Handle | face/management/commands/generate_monthly_reports.py:21-99 | an invalid option or a date overflow changes nothing; otherwise the users are handled in order as `ReportUsers` states, a failed send (False) is only reported, and an exception from the send ends the run (`MailCrashed`) after the reports stored so far |
| Middleware.PlainMatchIsPrefix | face/middleware.py:29 | for the listed exempt patterns, whose only regular-expression metacharacters are '.', '^' and '$', a pattern free of those three makes `re.match` the same as `startswith` (the model's matcher reads every other character as a literal) |
| Middleware.AnyAdmits | face/middleware.py:28-31 | a path is admitted exactly when some entry admits it |
| Middleware.ExemptExactly | face/middleware.py:15-31 | exempt paths are exactly: the six directory prefixes, '/favicon' + any non-newline character + 'ico', the empty path, a lone newline, and paths starting with the text "^$" |
| Middleware.SingleCharNotExempt | face/middleware.py:23 | no one-character path other than a newline, '/' among them, is exempt |
| Middleware.FaviconLookalikeExempt | face/middleware.py:22 | '/favicon' + c + 'ico' is exempt for every character c but a newline |
| Middleware.Decide | face/middleware.py:13-48 | exempt paths and authenticated users always pass through |
| Middleware.RedirectExactly | face/middleware.py:33-48 | a request is redirected to login exactly when it is anonymous, outside the exemption rule, and not under '/api/' |
| Middleware.AnonymousSingleCharRedirected | face/middleware.py:39-44 | an anonymous request for a one-character path other than a newline, such as '/', is redirected to login |
| Middleware.SetAllIdempotent | face/middleware.py:62-65 | setting the same headers again changes nothing |
| Middleware.SecurityHeadersSet | face/middleware.py:62-65 | the four headers get their fixed values, names compared without case, and all other headers are kept |
| Middleware.Response.SetHeader | face/middleware.py:62 | setting a header replaces only that header's value |
| Middleware.AddSecurityHeaders | face/middleware.py:58-67 | the response's headers become the four fixed settings over the view's headers; status and content are unchanged |
| Backends.Matching | face/backends.py:21-23 | selects exactly the users whose roll number or e-mail equals the username ignoring case |
| Backends.LowestId | face/backends.py:31-33 | the chosen user is among the matches and has the lowest id |
| Backends.Authenticate | face/backends.py:12-38 | no username or password gives None; no match gives None; a returned user matches the username ignoring case, has the lowest id among matches, and passes the password and active checks |
| Backends.PasswordDecides | face/backends.py:21-38 | with unique ids the outcome is decided by the two checks on the lowest-id match alone |
| Backends.KeywordUsername | face/backends.py:13-14 | without a username argument, the `roll_number` keyword is used in its place |
| Backends.CaseIgnored | face/backends.py:22 | a roll number typed in another letter case finds its user |
| Forms.CleanRadius | face/forms.py:39-43 | a radius is refused exactly when it is zero or less, with the fixed message; an accepted radius is unchanged |
| Forms.UserStore.Insert | face/forms.py:24 | saving a new user adds one row with the next id |
| Forms.Save | face/forms.py:17-25 | e-mail, names and role are copied from the form; the row is stored only on commit; the same object is returned |

## Left out

- Image decoding (`base64_to_image`) is not modelled. It is a wrapper around base64 and `cv2.imdecode`.
- The pixel computations are inputs to the model, each returning a value or raising. This covers the colour conversion, Laplacian variance, FFT energy and mean brightness in `is_live_capture`, and the face_recognition detection, landmarks, encodings, verdicts and distances.
- Floating-point effects are not modelled: thresholds and distances are exact reals.
- `send_mail`, `print` output and the command's `stdout` messages are not modelled. Delivery success is a boolean input.
- `send_monthly_report_email` is not part of this model. face/utils.py defines no function of that name, so the import at face/management/commands/generate_monthly_reports.py:5 fails before `handle` can run; the model takes the function the command expects as a parameter that answers True or False or raises. A False answer is only reported and an exception ends the command.
- `send_attendance_email` is not part of this model. It formats a fixed message and sends it, with no decision logic.
- The JSON tracking file is a three-state value: missing, unreadable, or a map. The bytes, the JSON encoding and concurrent writers are not modelled. The map is keyed by user id, since `str(user_id)` is injective on integers.
- `RequestTimingMiddleware` is not modelled. It does only wall-clock timing and logging.
- The `__str__` methods are not modelled, nor are `urls.py`, `admin.py`, the data seeding script or the timetable image script.
- `views.py` (the geofence check and the attendance-marking pipeline) is not part of this model.
- Time zones are not modelled. Instants are whole seconds from 0001-01-01 00:00 in one time zone, and naive and aware datetimes are not distinguished.
- The start endpoint reads the clock twice, once for the start time and once for the end time (face/views_fixed.py:34-35). The model uses one reading. The stop endpoint reads it once.
- Database errors are not modelled. They reach the generic "Error: …" answer of the endpoints.
- Concurrent requests and transactions are not modelled. Each operation runs alone.
- Text.Strip: only ASCII whitespace and the characters 0x1C-0x1F are stripped; Python's `str.strip()` also strips other Unicode whitespace such as U+00A0 and U+3000, so `Notifications.DisplayName` keeps those where `get_full_name` drops them.
- MonthlyReports.ParseMonthOption: CPython's `int()` refuses text of more than 4300 digits with `ValueError`; the model has no such limit and reports such a field as too large for `datetime` (`Crash`) where the command reports an invalid format.
- Text.Lower: letter case is folded for ASCII letters only. The same applies to `Text.Capitalize` and to the case-insensitive comparisons built on them (`Backends.IExact`, role names, header names).
- MonthlyReports.ParseInt: accepts ASCII digits and ASCII whitespace only. Python's `int` also accepts other Unicode digits and spaces.
- Notifications.ParseSessionDate: accepts only the zero-padded `YYYY-MM-DD HH:MM` form. `strptime` also accepts unpadded fields, which the callers do not produce.
- Calendar.IsoDate: years are written with four digits. Some C libraries do not pad years below 1000.
- MonthlyReports.Percentage: the percentage is an exact real. The database rounds it to two decimal places.
- Notifications.SendAttendanceReportEmail: the body is stated for some latest session time and some date, without tying that date to the parse of the time. `Notifications.LatestSession` states that link.
- Backends.Authenticate: `check_password` and `user_can_authenticate` are function parameters. The dummy password hashing on the no-match path, which only evens out timing, is not modelled.
- SessionApi.Authorize: a `session_id` that is a JSON string or another non-integer is not modelled. Only integers and a missing id are.
