/** The e-mail side of the attendance system: the per-user record of the last date a
    report was sent, the daily attendance report and the account-details message.
    Delivery itself is not part of the model: whether `send_mail` succeeded is an input. */
module Notifications {
  import opened Wrappers
  import opened Text
  import opened Calendar
  import opened Models

  /** A composed message. */
  datatype Email = Email(recipient: string, subject: string, body: string)

  /** The tracking file: absent, present but not readable as JSON, or a mapping from
      user to the date (written `YYYY-MM-DD`) of the last report sent to that user. */
  datatype TrackingFile = Missing | Unreadable | Stored(lastSent: map<UserId, string>)

  /** `user_already_received_email_today`: a missing or unreadable file counts as
      "not yet sent". */
  predicate AlreadySent(file: TrackingFile, user: UserId, reportDate: Date)
    requires ValidDate(reportDate)
  {
    file.Stored? && user in file.lastSent && file.lastSent[user] == IsoDate(reportDate)
  }

  /** The tracking file after `record_email_sent`: the user's entry is overwritten with the
      date; a missing file starts empty; an unreadable file makes the call fail, which
      is caught, so the file stays as it was. */
  function RecordSent(file: TrackingFile, user: UserId, reportDate: Date): TrackingFile
    requires ValidDate(reportDate)
  {
    match file
    case Missing => Stored(map[user := IsoDate(reportDate)])
    case Unreadable => Unreadable
    case Stored(m) => Stored(m[user := IsoDate(reportDate)])
  }

  /** After recording a send, the user counts as served for that date and no other date,
      and every other user's answer is what it was. */
  lemma RecordSentThenAlreadySent(file: TrackingFile, user: UserId, reportDate: Date, other: UserId, otherDate: Date)
    requires ValidDate(reportDate) && ValidDate(otherDate)
    requires !file.Unreadable?
    ensures AlreadySent(RecordSent(file, user, reportDate), user, otherDate) <==> otherDate == reportDate
    ensures other != user ==>
      (AlreadySent(RecordSent(file, user, reportDate), other, otherDate) <==> AlreadySent(file, other, otherDate))
  {
    if IsoDate(otherDate) == IsoDate(reportDate) {
      IsoDateInjective(otherDate, reportDate);
    }
  }

  /** The in-memory form of the tracking file, updated in place. */
  class EmailTracker {
    var file: TrackingFile

    constructor (initial: TrackingFile)
      ensures file == initial
    {
      file := initial;
    }

    /** `user_already_received_email_today(user_id, report_date)`. */
    function ReceivedToday(user: UserId, reportDate: Date): (b: bool)
      requires ValidDate(reportDate)
      reads this
      ensures b <==> file.Stored? && user in file.lastSent && file.lastSent[user] == IsoDate(reportDate)
    {
      AlreadySent(file, user, reportDate)
    }

    /** `record_email_sent(user_id, report_date)`. */
    method RecordEmailSent(user: UserId, reportDate: Date)
      requires ValidDate(reportDate)
      modifies this
      ensures file == RecordSent(old(file), user, reportDate)
      ensures !old(file).Unreadable? ==> ReceivedToday(user, reportDate)
      ensures old(file).Stored? ==> forall u :: u != user && u in old(file).lastSent ==> u in file.lastSent && file.lastSent[u] == old(file).lastSent[u]
    {
      match file
      case Missing => file := Stored(map[user := IsoDate(reportDate)]);
      case Unreadable =>
      case Stored(m) => file := Stored(m[user := IsoDate(reportDate)]);
    }
  }

  /** One entry of the attendance data given to the report: the empty string stands for a
      missing session time or attendance timestamp. */
  datatype SessionRow = SessionRow(sessionName: string, sessionTime: string, attended: bool, timestamp: string)

  /** `datetime.strptime(s, "%Y-%m-%d %H:%M").date()` on the zero-padded form the caller
      produces; `None` where `strptime` raises `ValueError`. */
  function ParseSessionDate(s: string): (r: Option<Date>)
    ensures r.Some? ==> ValidDate(r.value)
  {
    if |s| != 16 || s[4] != '-' || s[7] != '-' || s[10] != ' ' || s[13] != ':' then None
    else if !AllDigits(s[0..4]) || !AllDigits(s[5..7]) || !AllDigits(s[8..10])
         || !AllDigits(s[11..13]) || !AllDigits(s[14..16]) then None
    else
      var d := Date(DigitsValue(s[0..4]), DigitsValue(s[5..7]), DigitsValue(s[8..10]));
      if !ValidDate(d) || DigitsValue(s[11..13]) > 23 || DigitsValue(s[14..16]) > 59 then None
      else Some(d)
  }

  /** A session time written as the caller writes it. */
  function SessionTimeText(d: Date, hour: nat, minute: nat): string
    requires ValidDate(d) && hour < 24 && minute < 60
  {
    IsoDate(d) + " " + Padded(hour, 2) + ":" + Padded(minute, 2)
  }

  /** Where each field of a `YYYY-MM-DD HH:MM` text sits. */
  lemma FieldsOf(y: string, mo: string, d: string, h: string, mi: string)
    requires |y| == 4 && |mo| == 2 && |d| == 2 && |h| == 2 && |mi| == 2
    ensures var s := y + "-" + mo + "-" + d + " " + h + ":" + mi;
      && |s| == 16 && s[4] == '-' && s[7] == '-' && s[10] == ' ' && s[13] == ':'
      && s[0..4] == y && s[5..7] == mo && s[8..10] == d && s[11..13] == h && s[14..16] == mi
  {
  }

  /** A text whose fields hold a valid date and time parses to that date. */
  lemma ParseOfFields(s: string, d: Date, hour: nat, minute: nat)
    requires ValidDate(d) && hour < 24 && minute < 60
    requires |s| == 16 && s[4] == '-' && s[7] == '-' && s[10] == ' ' && s[13] == ':'
    requires AllDigits(s[0..4]) && DigitsValue(s[0..4]) == d.year
    requires AllDigits(s[5..7]) && DigitsValue(s[5..7]) == d.month
    requires AllDigits(s[8..10]) && DigitsValue(s[8..10]) == d.day
    requires AllDigits(s[11..13]) && DigitsValue(s[11..13]) == hour
    requires AllDigits(s[14..16]) && DigitsValue(s[14..16]) == minute
    ensures ParseSessionDate(s) == Some(d)
  {
  }

  /** Parsing a written session time gives back its date. */
  lemma ParseSessionTimeText(d: Date, hour: nat, minute: nat)
    requires ValidDate(d) && hour < 24 && minute < 60
    ensures ParseSessionDate(SessionTimeText(d, hour, minute)) == Some(d)
  {
    assert Pow10(4) == 10000 && Pow10(2) == 100;
    var y, mo, dd, h, mi := Padded(d.year, 4), Padded(d.month, 2), Padded(d.day, 2), Padded(hour, 2), Padded(minute, 2);
    var s := SessionTimeText(d, hour, minute);
    assert s == y + "-" + mo + "-" + dd + " " + h + ":" + mi;
    FieldsOf(y, mo, dd, h, mi);
    PaddedRoundTrip(d.year, 4);
    PaddedRoundTrip(d.month, 2);
    PaddedRoundTrip(d.day, 2);
    PaddedRoundTrip(hour, 2);
    PaddedRoundTrip(minute, 2);
    ParseOfFields(s, d, hour, minute);
  }

  /** `t` is the latest session time of `rows`: the greatest non-empty session time in
      Python's string order, or the empty string when no row has one. */
  ghost predicate IsLatestTime(rows: seq<SessionRow>, t: string) {
    && (t == "" <==> forall i :: 0 <= i < |rows| ==> rows[i].sessionTime == "")
    && (t != "" ==> exists i :: 0 <= i < |rows| && rows[i].sessionTime == t)
    && forall i :: 0 <= i < |rows| ==> !StrLess(t, rows[i].sessionTime)
  }

  /** The latest time after one more row: a non-empty time replaces the current one when
      there is none yet or when it is greater. */
  function NextLatest(current: string, row: SessionRow): string {
    if row.sessionTime != "" && (current == "" || StrLess(current, row.sessionTime)) then row.sessionTime else current
  }

  lemma LatestStep(prefix: seq<SessionRow>, row: SessionRow, current: string)
    requires IsLatestTime(prefix, current)
    ensures IsLatestTime(prefix + [row], NextLatest(current, row))
  {
    var rows := prefix + [row];
    var t := row.sessionTime;
    var next := NextLatest(current, row);
    assert forall i :: 0 <= i < |prefix| ==> rows[i] == prefix[i];
    StrLessIrreflexive(next);
    if next == t && t != "" {
      forall j | 0 <= j < |prefix| ensures !StrLess(t, prefix[j].sessionTime) {
        if current != "" && StrLess(t, prefix[j].sessionTime) {
          StrLessTransitive(current, t, prefix[j].sessionTime);
        }
        if current == "" {
          assert prefix[j].sessionTime == "";
        }
      }
      assert rows[|prefix|].sessionTime == t;
    } else if t != "" {
      StrLessTotal(current, t);
    }
  }

  /** The latest time and date after scanning `rows` in order: a row whose non-empty time
      is greater than the current one becomes the latest time, and its parsed date replaces
      the current date only when the time parses. */
  function LatestScan(rows: seq<SessionRow>): (string, Option<Date>) {
    if rows == [] then ("", None)
    else
      var (t, d) := LatestScan(rows[..|rows| - 1]);
      var row := rows[|rows| - 1];
      if row.sessionTime != "" && (t == "" || StrLess(t, row.sessionTime)) then
        (row.sessionTime, if ParseSessionDate(row.sessionTime).Some? then ParseSessionDate(row.sessionTime) else d)
      else (t, d)
  }

  /** The loop of `send_attendance_report_email` that finds the latest session time and the
      date parsed from it. The date is updated only together with the time, and a time that
      does not parse leaves the date of an earlier maximum in place. */
  method LatestSession(rows: seq<SessionRow>) returns (latestTime: string, latestDate: Option<Date>)
    ensures IsLatestTime(rows, latestTime)
    ensures ParseSessionDate(latestTime).Some? ==> latestDate == ParseSessionDate(latestTime)
    ensures latestDate.Some? ==> exists i :: 0 <= i < |rows| && ParseSessionDate(rows[i].sessionTime) == latestDate
    ensures (latestTime, latestDate) == LatestScan(rows)
  {
    latestTime, latestDate := "", None;
    var i := 0;
    while i < |rows|
      invariant 0 <= i <= |rows|
      invariant IsLatestTime(rows[..i], latestTime)
      invariant ParseSessionDate(latestTime).Some? ==> latestDate == ParseSessionDate(latestTime)
      invariant latestDate.Some? ==> exists j :: 0 <= j < i && ParseSessionDate(rows[j].sessionTime) == latestDate
      invariant (latestTime, latestDate) == LatestScan(rows[..i])
    {
      LatestStep(rows[..i], rows[i], latestTime);
      assert rows[..i + 1] == rows[..i] + [rows[i]];
      assert rows[..i + 1][..i] == rows[..i];
      var t := rows[i].sessionTime;
      if t != "" && (latestTime == "" || StrLess(latestTime, t)) {
        latestTime := t;
        var parsed := ParseSessionDate(t);
        if parsed.Some? {
          latestDate := parsed;
        }
      }
      i := i + 1;
    }
    assert rows[..i] == rows;
  }

  /** `user.get_full_name() or user.roll_number`. */
  function DisplayName(user: User): (name: string)
    ensures name == user.rollNumber || name == Strip(user.firstName + " " + user.lastName)
    ensures name == "" ==> user.rollNumber == ""
  {
    var full := Strip(user.firstName + " " + user.lastName);
    if full != "" then full else user.rollNumber
  }

  /** How an f-string renders an optional text field (`None` prints as "None"). */
  function OptionalText(s: Option<string>): string {
    match s
    case None => "None"
    case Some(t) => t
  }

  /** One line of the per-session details. */
  function DetailLine(row: SessionRow): string {
    "- " + row.sessionName + ": " + (if row.attended then "Attended" else "Absent")
    + (if row.attended then " - Marked at " + (if row.timestamp != "" then row.timestamp else "N/A") else "")
    + "\n"
  }

  /** The per-session details, one line per row in order. */
  function DetailLines(rows: seq<SessionRow>): string {
    if rows == [] then "" else DetailLines(rows[..|rows| - 1]) + DetailLine(rows[|rows| - 1])
  }

  /** The details of a concatenation are the concatenation of the details. */
  lemma {:induction false} DetailLinesAppend(a: seq<SessionRow>, b: seq<SessionRow>)
    ensures DetailLines(a + b) == DetailLines(a) + DetailLines(b)
    decreases |b|
  {
    if b != [] {
      var last := b[|b| - 1];
      assert (a + b)[..|a + b| - 1] == a + b[..|b| - 1];
      DetailLinesAppend(a, b[..|b| - 1]);
    } else {
      assert a + b == a;
    }
  }

  /** The number of occurrences of `c` in `s`. */
  function Occurrences(s: string, c: char): nat {
    if s == [] then 0 else Occurrences(s[..|s| - 1], c) + (if s[|s| - 1] == c then 1 else 0)
  }

  lemma {:induction false} OccurrencesAppend(a: string, b: string, c: char)
    ensures Occurrences(a + b, c) == Occurrences(a, c) + Occurrences(b, c)
    decreases |b|
  {
    if b == [] {
      assert a + b == a;
    } else {
      assert (a + b)[..|a + b| - 1] == a + b[..|b| - 1];
      OccurrencesAppend(a, b[..|b| - 1], c);
    }
  }

  predicate SingleLine(s: string) {
    forall i :: 0 <= i < |s| ==> s[i] != '\n'
  }

  lemma {:induction false} SingleLineHasNoBreak(s: string)
    requires SingleLine(s)
    ensures Occurrences(s, '\n') == 0
    decreases |s|
  {
    if s != [] { SingleLineHasNoBreak(s[..|s| - 1]); }
  }

  /** The details hold exactly one line per session when names and timestamps are single lines. */
  lemma {:induction false} OneLinePerSession(rows: seq<SessionRow>)
    requires forall i :: 0 <= i < |rows| ==> SingleLine(rows[i].sessionName) && SingleLine(rows[i].timestamp)
    ensures Occurrences(DetailLines(rows), '\n') == |rows|
    decreases |rows|
  {
    if rows != [] {
      var row := rows[|rows| - 1];
      OneLinePerSession(rows[..|rows| - 1]);
      var status := if row.attended then "Attended" else "Absent";
      var marked := if row.attended then " - Marked at " + (if row.timestamp != "" then row.timestamp else "N/A") else "";
      var head := "- " + row.sessionName + ": " + status + marked;
      assert DetailLine(row) == head + "\n";
      SingleLineHasNoBreak(head);
      OccurrencesAppend(head, "\n", '\n');
      OccurrencesAppend(DetailLines(rows[..|rows| - 1]), DetailLine(row), '\n');
    }
  }

  function ReportSubject(user: User, reportDate: Date): string
    requires ValidDate(reportDate)
  {
    "Attendance Report - " + IsoDate(reportDate) + " - " + OptionalText(user.department)
  }

  function ReportHeader(user: User, reportDate: Date): string
    requires ValidDate(reportDate)
  {
    "\nHello " + DisplayName(user) + ",\n\nThis is your attendance report for " + IsoDate(reportDate)
    + " in the " + OptionalText(user.department) + " department.\n\n"
  }

  const ReportFooter: string :=
    "\nIf you have any questions about your attendance, please contact your Head of Department.\n\n"
    + "Thank you for using the Face Recognition Attendance System.\n"

  /** The latest-session line, present only when a latest time was found and a date parsed. */
  function LatestLine(latestTime: string, latestDate: Option<Date>): string {
    if latestTime != "" && latestDate.Some? && ValidDate(latestDate.value)
    then "Latest session start date: " + IsoDate(latestDate.value) + "\n\n"
    else ""
  }

  /** The report body: greeting, the latest-session line, then one line per session or a
      note that there were none, then the closing lines. */
  function ReportText(user: User, reportDate: Date, latestTime: string, latestDate: Option<Date>, rows: seq<SessionRow>): string
    requires ValidDate(reportDate)
  {
    ReportHeader(user, reportDate) + LatestLine(latestTime, latestDate) + "Session Attendance Details:\n"
    + (if rows == [] then "No sessions were conducted on this date.\n" else DetailLines(rows))
    + ReportFooter
  }

  /** One more row adds its line to the details of the rows before it. */
  lemma DetailLinesStep(rows: seq<SessionRow>, i: int)
    requires 0 <= i < |rows|
    ensures DetailLines(rows[..i + 1]) == DetailLines(rows[..i]) + DetailLine(rows[i])
  {
    var done := rows[..i + 1];
    assert done[..|done| - 1] == rows[..i] && done[|done| - 1] == rows[i];
  }

  /** Appends the per-session detail lines to `message`, one row at a time. */
  method AppendDetails(message: string, rows: seq<SessionRow>) returns (result: string)
    ensures result == message + DetailLines(rows)
  {
    result := message;
    var i := 0;
    while i < |rows|
      invariant 0 <= i <= |rows|
      invariant result == message + DetailLines(rows[..i])
    {
      DetailLinesStep(rows, i);
      result := result + DetailLine(rows[i]);
      i := i + 1;
    }
    assert rows[..i] == rows;
  }

  /** Builds the report body as the source does, appending piece by piece. */
  method ReportBody(user: User, reportDate: Date, latestTime: string, latestDate: Option<Date>, rows: seq<SessionRow>)
      returns (message: string)
    requires ValidDate(reportDate)
    ensures message == ReportText(user, reportDate, latestTime, latestDate, rows)
  {
    var heading := ReportHeader(user, reportDate) + LatestLine(latestTime, latestDate) + "Session Attendance Details:\n";
    if rows != [] {
      message := AppendDetails(heading, rows);
    } else {
      message := heading + "No sessions were conducted on this date.\n";
    }
    message := message + ReportFooter;
  }

  /** `send_attendance_report_email(user, report_date, attendance_data)`. `delivered` says
      whether `send_mail` returned normally. Answers the source's return value and the
      message it handed to `send_mail`, if any. */
  method SendAttendanceReportEmail(tracker: EmailTracker, user: User, reportDate: Date,
                                   rows: seq<SessionRow>, delivered: bool)
      returns (ok: bool, sent: Option<Email>)
    requires ValidDate(reportDate)
    modifies tracker
    ensures old(tracker.ReceivedToday(user.id, reportDate)) ==>
      ok && sent.None? && tracker.file == old(tracker.file)
    ensures !old(tracker.ReceivedToday(user.id, reportDate)) ==>
      && ok == delivered
      && sent.Some? && sent.value.recipient == user.email
      && sent.value.subject == ReportSubject(user, reportDate)
      && (exists t, d :: IsLatestTime(rows, t) && sent.value.body == ReportText(user, reportDate, t, d, rows))
      && tracker.file == (if delivered then RecordSent(old(tracker.file), user.id, reportDate) else old(tracker.file))
  {
    if tracker.ReceivedToday(user.id, reportDate) {
      return true, None;
    }
    var latestTime, latestDate := LatestSession(rows);
    var body := ReportBody(user, reportDate, latestTime, latestDate, rows);
    sent := Some(Email(user.email, ReportSubject(user, reportDate), body));
    if !delivered {
      return false, sent;
    }
    tracker.RecordEmailSent(user.id, reportDate);
    ok := true;
  }

  /** How the account e-mail renders a level and a year. */
  function LevelText(l: Option<Level>): string {
    match l
    case None => "Not specified"
    case Some(UG) => "UG"
    case Some(PG) => "PG"
  }

  function YearText(y: Option<Year>): string {
    match y
    case None => "Not specified"
    case Some(Year1) => "1"
    case Some(Year2) => "2"
    case Some(Year3) => "3"
    case Some(Year4) => "4"
  }

  /** The pieces of a message, written one after another. */
  function Concat(pieces: seq<string>): string
    decreases |pieces|
  {
    if pieces == [] then "" else pieces[0] + Concat(pieces[1..])
  }

  /** The account-details part of the message, before any password lines. */
  function AccountDetails(user: User, action: string): string {
    Concat([
      "\nHello ", DisplayName(user), ",\n\nYour account has been ", action,
      " by the Head of Department in the Face Recognition Attendance System.\n\nAccount Details:\n",
      "Roll Number: ", user.rollNumber, "\n",
      "First Name: ", user.firstName, "\n",
      "Last Name: ", user.lastName, "\n",
      "Email: ", user.email, "\n",
      "Role: ", if user.role.Some? then user.role.value.name else "Not assigned", "\n",
      "Level: ", LevelText(user.level), "\n",
      "Year: ", YearText(user.year), "\n",
      "Department: ", if user.department.Some? && user.department.value != "" then user.department.value else "Not specified", "\n",
      "Status: ", if user.isActive then "Active" else "Inactive", "\n"])
  }

  function PasswordLines(password: string): string {
    "Password: " + password + "\n\n" + "Please change your password after first login.\n\n"
  }

  const AccountFooter: string :=
    "\nIf you have any questions, please contact your Head of Department.\n\n"
    + "Thank you for using the Face Recognition Attendance System.\n"

  /** The body of the account message: the password lines appear only for a creation
      with a non-empty password. */
  function UserDetailsBody(user: User, action: string, password: Option<string>): string {
    var withPassword := action == "created" && password.Some? && password.value != "";
    AccountDetails(user, action) + (if withPassword then PasswordLines(password.value) else "") + AccountFooter
  }

  /** The message `send_user_details_email(user, action, password)` hands to `send_mail`. */
  function UserDetailsEmail(user: User, action: string, password: Option<string>): (e: Email)
    ensures e.recipient == user.email
    ensures e.subject == "Account " + Capitalize(action) + " - Face Recognition Attendance System"
  {
    Email(user.email, "Account " + Capitalize(action) + " - Face Recognition Attendance System",
          UserDetailsBody(user, action, password))
  }

  /** The password never reaches a message about an update (or any action other than
      creation): such a message is the same whatever password is passed. */
  lemma PasswordOnlyOnCreation(user: User, action: string, p: Option<string>, q: Option<string>)
    requires action != "created"
    ensures UserDetailsBody(user, action, p) == UserDetailsBody(user, action, q)
  {
  }

  lemma SplitAt(a: string, f: string)
    ensures (a + f)[..|a|] == a && (a + f)[|a|..] == f
  {
  }

  /** `full` is `bare` with `p` inserted at one place. */
  ghost predicate InsertionOf(full: string, bare: string, p: string) {
    exists k :: 0 <= k <= |bare| && full == bare[..k] + p + bare[k..]
  }

  lemma InsertedAt(a: string, p: string, f: string)
    ensures InsertionOf(a + p + f, a + "" + f, p)
  {
    SplitAt(a, f);
    assert a + "" + f == a + f;
    assert a + p + f == (a + f)[..|a|] + p + (a + f)[|a|..];
  }

  /** A new account's message with a password is the message without one, with the
      password lines inserted at one place and nothing else changed. */
  lemma PasswordInsertedOnCreation(user: User, password: string)
    requires password != ""
    ensures InsertionOf(UserDetailsBody(user, "created", Some(password)), UserDetailsBody(user, "created", None), PasswordLines(password))
  {
    BodyWithPassword(user, password);
    BodyWithoutPassword(user);
    InsertedAt(AccountDetails(user, "created"), PasswordLines(password), AccountFooter);
  }

  lemma BodyWithPassword(user: User, password: string)
    requires password != ""
    ensures UserDetailsBody(user, "created", Some(password)) == AccountDetails(user, "created") + PasswordLines(password) + AccountFooter
  {
  }

  lemma BodyWithoutPassword(user: User)
    ensures UserDetailsBody(user, "created", None) == AccountDetails(user, "created") + "" + AccountFooter
  {
  }
}
