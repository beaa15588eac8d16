/** The `generate_monthly_reports` management command (`Command.handle`): choose the
    month, then for every user count the sessions that started in that month and the
    ones the user attended, and create or update the user's report for the month. */
module MonthlyReports {
  import opened Wrappers
  import opened Text
  import opened Calendar
  import opened Models

  // ---------------------------------------------------------------------------
  // Reading the --month option

  /** `s.split(sep)`: the pieces between separators, in order, empty ones included. */
  function Split(s: string, sep: char): (parts: seq<string>)
    ensures |parts| >= 1
    ensures forall i :: 0 <= i < |parts| ==> sep !in parts[i]
  {
    if s == [] then [""]
    else
      var rest := Split(s[..|s| - 1], sep);
      var c := s[|s| - 1];
      if c == sep then rest + [""]
      else rest[..|rest| - 1] + [rest[|rest| - 1] + [c]]
  }

  /** `sep.join(parts)`. */
  function Join(parts: seq<string>, sep: char): string
    requires |parts| >= 1
  {
    if |parts| == 1 then parts[0] else Join(parts[..|parts| - 1], sep) + [sep] + parts[|parts| - 1]
  }

  lemma {:induction false} JoinExtendLast(parts: seq<string>, sep: char, t: string)
    requires |parts| >= 1
    ensures Join(parts[..|parts| - 1] + [parts[|parts| - 1] + t], sep) == Join(parts, sep) + t
  {
    var n := |parts|;
    var ext := parts[..n - 1] + [parts[n - 1] + t];
    assert ext[..n - 1] == parts[..n - 1];
  }

  lemma JoinAppendEmpty(parts: seq<string>, sep: char)
    requires |parts| >= 1
    ensures Join(parts + [""], sep) == Join(parts, sep) + [sep]
  {
    var ext := parts + [""];
    assert ext[..|parts|] == parts;
    assert Join(ext, sep) == Join(parts, sep) + [sep] + "";
  }

  /** Splitting loses nothing: joining the pieces with the separator gives the text back. */
  lemma {:induction false} SplitJoin(s: string, sep: char)
    ensures Join(Split(s, sep), sep) == s
    decreases |s|
  {
    if s != [] {
      var init := s[..|s| - 1];
      var rest := Split(init, sep);
      var c := s[|s| - 1];
      assert init + [c] == s;
      SplitJoin(init, sep);
      if c == sep {
        assert Split(s, sep) == rest + [""];
        JoinAppendEmpty(rest, sep);
      } else {
        assert Split(s, sep) == rest[..|rest| - 1] + [rest[|rest| - 1] + [c]];
        JoinExtendLast(rest, sep, [c]);
      }
    }
  }

  /** The digits of an integer literal, single underscores allowed between digits. */
  predicate DigitGroups(b: string) {
    && |b| > 0 && IsDigit(b[0]) && IsDigit(b[|b| - 1])
    && forall i :: 0 <= i < |b| ==> IsDigit(b[i]) || (b[i] == '_' && i + 1 < |b| && IsDigit(b[i + 1]))
  }

  lemma DigitGroupsChars(b: string)
    requires DigitGroups(b)
    ensures forall i :: 0 <= i < |b| ==> IsDigit(b[i]) || b[i] == '_'
  {
    forall i | 0 <= i < |b|
      ensures IsDigit(b[i]) || b[i] == '_'
    {
      assert IsDigit(b[i]) || (b[i] == '_' && i + 1 < |b| && IsDigit(b[i + 1]));
    }
  }

  function RemoveUnderscores(b: string): (r: string)
    ensures |r| <= |b| && '_' !in r
  {
    if b == [] then [] else (if b[0] == '_' then [] else [b[0]]) + RemoveUnderscores(b[1..])
  }

  lemma {:induction false} RemoveUnderscoresDigits(b: string)
    requires forall i :: 0 <= i < |b| ==> IsDigit(b[i]) || b[i] == '_'
    ensures AllDigits(RemoveUnderscores(b))
    decreases |b|
  {
    if b != [] {
      RemoveUnderscoresDigits(b[1..]);
    }
  }

  lemma {:induction false} RemoveUnderscoresPlain(b: string)
    requires AllDigits(b)
    ensures RemoveUnderscores(b) == b
    decreases |b|
  {
    if b != [] {
      RemoveUnderscoresPlain(b[1..]);
      assert b == [b[0]] + b[1..];
    }
  }

  /** `int(s)` for a decimal string: surrounding whitespace, an optional sign, and digits
      with single underscores between them; `None` where `int` raises `ValueError`. */
  function ParseInt(s: string): Option<int> {
    var t := Strip(s);
    var negative := |t| > 0 && t[0] == '-';
    var body := if |t| > 0 && (t[0] == '+' || t[0] == '-') then t[1..] else t;
    if !DigitGroups(body) then None
    else
      DigitGroupsChars(body);
      RemoveUnderscoresDigits(body);
      var n: int := DigitsValue(RemoveUnderscores(body));
      Some(if negative then -n else n)
  }

  /** A plain run of digits reads as its decimal value. */
  lemma ParseDigits(p: string)
    requires |p| > 0 && AllDigits(p)
    ensures ParseInt(p) == Some(DigitsValue(p))
  {
    assert TrimLeft(p) == p;
    assert TrimRight(p) == p;
    assert DigitGroups(p);
    RemoveUnderscoresPlain(p);
  }

  /** Zero-padded decimal text reads back as its number. */
  lemma ParsePadded(n: nat, width: nat)
    requires 0 < width && n < Pow10(width)
    ensures ParseInt(Padded(n, width)) == Some(n)
  {
    ParseDigits(Padded(n, width));
    PaddedRoundTrip(n, width);
  }

  /** The largest value a C `int` holds; a larger year or month makes `datetime(...)` raise
      `OverflowError`, which the command does not catch. */
  const CIntMax: int := 0x7fff_ffff

  /** How choosing the month can end. */
  datatype MonthChoice =
    | Chosen(month: Date)
    /** "Invalid month format. Use YYYY-MM": any `ValueError` while reading the option. */
    | InvalidFormat
    /** An exception the command does not catch: `OverflowError` from `datetime` or from
        date arithmetic at the ends of the calendar. */
    | Crash

  /** `year, month = map(int, option.split('-'))` then `datetime(year, month, 1)`. */
  function ParseMonthOption(option: string): (r: MonthChoice)
    ensures r.Chosen? ==> ValidDate(r.month) && r.month.day == 1
    // a wrong number of '-'-separated fields, or a field `int` refuses, is an invalid format
    ensures var parts := Split(option, '-');
      |parts| != 2 || ParseInt(parts[0]).None? || ParseInt(parts[1]).None? ==> r == InvalidFormat
    // two integer fields are handed to `datetime(year, month, 1)`
    ensures var parts := Split(option, '-');
      |parts| == 2 && ParseInt(parts[0]).Some? && ParseInt(parts[1]).Some? ==>
        r == MonthOf(ParseInt(parts[0]).value, ParseInt(parts[1]).value)
  {
    var parts := Split(option, '-');
    if |parts| < 1 then InvalidFormat
    else
      var year := ParseInt(parts[0]);
      if year.None? then InvalidFormat
      else if |parts| < 2 then InvalidFormat
      else
        var month := ParseInt(parts[1]);
        if month.None? || |parts| > 2 then InvalidFormat
        else MonthOf(year.value, month.value)
  }

  /** `datetime(year, month, 1)`: `OverflowError` beyond a C `int`, `ValueError` for a
      month or year out of range. */
  function MonthOf(year: int, month: int): (r: MonthChoice)
    ensures r.Chosen? ==> ValidDate(r.month) && r.month.day == 1
  {
    if year > CIntMax || month > CIntMax || year < -CIntMax - 1 || month < -CIntMax - 1 then Crash
    else if !ValidDate(Date(year, month, 1)) then InvalidFormat
    else Chosen(Date(year, month, 1))
  }

  /** In the calendar's years a month number below 100 chooses its month or is refused. */
  lemma MonthOfSmall(year: int, month: int)
    requires MinYear <= year <= MaxYear && 0 <= month < 100
    ensures MonthOf(year, month) == if 1 <= month <= 12 then Chosen(Date(year, month, 1)) else InvalidFormat
  {
  }

  /** The option written as `YYYY-MM`. */
  function MonthOptionText(year: nat, month: nat): string
    requires year < 10000 && month < 100
  {
    Padded(year, 4) + "-" + Padded(month, 2)
  }

  /** A month written `YYYY-MM` is read back as the first day of that month, and an
      impossible month number is refused. */
  lemma MonthOptionRoundTrip(year: nat, month: nat)
    requires MinYear <= year <= MaxYear && month < 100
    ensures ParseMonthOption(MonthOptionText(year, month)) ==
      if 1 <= month <= 12 then Chosen(Date(year, month, 1)) else InvalidFormat
  {
    var y, m := Padded(year, 4), Padded(month, 2);
    assert Pow10(4) == 10000 && Pow10(2) == 100;
    ParsePadded(year, 4);
    ParsePadded(month, 2);
    ParseTwoParts(y, m, year, month);
  }

  /** Two pieces joined by '-' that read as integers choose that month when it exists. */
  lemma ParseTwoParts(a: string, b: string, year: int, month: int)
    requires ParseInt(a) == Some(year) && ParseInt(b) == Some(month)
    requires '-' !in a && '-' !in b
    requires MinYear <= year <= MaxYear && 0 <= month < 100
    ensures ParseMonthOption(a + "-" + b) ==
      if 1 <= month <= 12 then Chosen(Date(year, month, 1)) else InvalidFormat
  {
    assert a + "-" + b == a + ['-'] + b;
    SplitOfTwo(a, b, '-');
    ParseOfParts(a + "-" + b, a, b, year, month);
  }

  /** An option that splits into two integer pieces chooses that month when it exists. */
  lemma ParseOfParts(option: string, a: string, b: string, year: int, month: int)
    requires Split(option, '-') == [a, b]
    requires ParseInt(a) == Some(year) && ParseInt(b) == Some(month)
    requires MinYear <= year <= MaxYear && 0 <= month < 100
    ensures ParseMonthOption(option) ==
      if 1 <= month <= 12 then Chosen(Date(year, month, 1)) else InvalidFormat
  {
    MonthOfSmall(year, month);
    var parts := Split(option, '-');
    assert ParseInt(parts[0]) == Some(year) && ParseInt(parts[1]) == Some(month);
    assert |parts| == 2;
  }

  lemma {:induction false} SplitWithout(s: string, sep: char)
    requires sep !in s
    ensures Split(s, sep) == [s]
    decreases |s|
  {
    if s != [] {
      SplitWithout(s[..|s| - 1], sep);
      assert s[..|s| - 1] + [s[|s| - 1]] == s;
    }
  }

  lemma {:induction false} SplitOfTwo(a: string, b: string, sep: char)
    requires sep !in a && sep !in b
    ensures Split(a + [sep] + b, sep) == [a, b]
    decreases |b|
  {
    if b == [] {
      SplitWithout(a, sep);
      assert (a + [sep] + b)[..|a|] == a;
    } else {
      var init := b[..|b| - 1];
      SplitOfTwo(a, init, sep);
      assert (a + [sep] + b)[..|a + [sep] + b| - 1] == a + [sep] + init;
      assert init + [b[|b| - 1]] == b;
    }
  }

  /** An option without a '-' is a single field, which `year, month = ...` refuses. */
  lemma NoDashRefused(option: string)
    requires '-' !in option
    ensures ParseMonthOption(option) == InvalidFormat
  {
    SplitWithout(option, '-');
  }

  /** The default month: the first day of the month before `today`, found as the source
      finds it, by stepping back one day from the first of the current month. */
  function PreviousMonthStart(today: Date): (r: Option<Date>)
    requires ValidDate(today)
    ensures today.month > 1 ==> r == Some(Date(today.year, today.month - 1, 1))
    ensures today.month == 1 && today.year > MinYear ==> r == Some(Date(today.year - 1, 12, 1))
    ensures today.month == 1 && today.year == MinYear ==> r.None?
  {
    match DayBefore(Date(today.year, today.month, 1))
    case None => None
    case Some(lastOfPrevious) => Some(lastOfPrevious.(day := 1))
  }

  /** The month a run reports on: the `--month` option when it is given and not empty,
      otherwise the month before `today`. */
  function ChooseMonth(option: Option<string>, today: Date): (r: MonthChoice)
    requires ValidDate(today)
    ensures r.Chosen? ==> ValidDate(r.month) && r.month.day == 1
  {
    if option.Some? && option.value != "" then ParseMonthOption(option.value)
    else
      match PreviousMonthStart(today)
      case None => Crash
      case Some(d) =>
        assert DayBefore(Date(today.year, today.month, 1)).Some?;
        Chosen(d)
  }

  // ---------------------------------------------------------------------------
  // The month window and the counts

  /** `[start_date, end_date)`: from midnight of day 1 to midnight after the last day, the
      last day taken from `calendar.monthrange`. `None` where adding the day overflows. */
  function MonthWindow(month: Date): (w: Option<(Instant, Instant)>)
    requires ValidDate(month) && month.day == 1
    ensures w.None? <==> month.year == MaxYear && month.month == 12
    ensures w.Some? ==> w.value.0 == Midnight(month)
    ensures w.Some? ==> w.value.1 - w.value.0 == DaysInMonth(month.year, month.month) * SecondsPerDay
    ensures w.Some? ==> w.value.1 == Midnight(if month.month == 12 then Date(month.year + 1, 1, 1) else Date(month.year, month.month + 1, 1))
  {
    var last := Date(month.year, month.month, DaysInMonth(month.year, month.month));
    match DayAfter(last)
    case None => None
    case Some(after) =>
      assert Ordinal(last) == Ordinal(month) + DaysInMonth(month.year, month.month) - 1;
      Some((Midnight(month), Midnight(after)))
  }

  /** The sessions whose start time lies in the window. */
  function SessionsInWindow(sessions: map<SessionId, AttendanceSession>, start: Instant, end: Instant): set<SessionId> {
    set id | id in sessions && start <= sessions[id].startTime < end
  }

  /** The user's attendance records among those sessions. */
  function AttendedRecords(records: set<AttendanceRecord>, user: UserId, window: set<SessionId>): set<AttendanceRecord> {
    set r | r in records && r.user == user && r.session in window
  }

  /** A map that sends distinct elements of `s` to distinct elements of `t` shows `|s| <= |t|`. */
  lemma {:induction false} InjectionBound<A, B>(s: set<A>, t: set<B>, f: A -> B)
    requires forall x :: x in s ==> f(x) in t
    requires forall x, y :: x in s && y in s && f(x) == f(y) ==> x == y
    ensures |s| <= |t|
    decreases s
  {
    if s != {} {
      var x :| x in s;
      InjectionBound(s - {x}, t - {f(x)}, f);
    }
  }

  /** A user never attends more sessions than were held: records are unique per user and
      session, so each counted record stands for a different session of the window. */
  lemma AttendedAtMostTotal(records: set<AttendanceRecord>, user: UserId, window: set<SessionId>)
    requires RecordsUnique(records)
    ensures |AttendedRecords(records, user, window)| <= |window|
  {
    InjectionBound(AttendedRecords(records, user, window), window, (r: AttendanceRecord) => r.session);
  }

  /** `attended / total * 100`, or 0 when there were no sessions. */
  function Percentage(attended: nat, total: nat): (p: real)
    requires attended <= total
    ensures 0.0 <= p <= 100.0
    ensures total > 0 ==> p * total as real == 100.0 * attended as real
    ensures total == 0 ==> p == 0.0
  {
    if total > 0 then
      var q := attended as real / total as real;
      assert 0.0 <= q <= 1.0;
      q * 100.0
    else 0.0
  }

  /** The values a user's report for the month holds. */
  datatype Counts = Counts(total: nat, attended: nat, percentage: real)

  function ReportCounts(sessions: map<SessionId, AttendanceSession>, records: set<AttendanceRecord>,
                        user: UserId, start: Instant, end: Instant): (c: Counts)
    requires RecordsUnique(records)
    ensures c.attended <= c.total
    ensures 0.0 <= c.percentage <= 100.0
  {
    var window := SessionsInWindow(sessions, start, end);
    AttendedAtMostTotal(records, user, window);
    var total := |window|;
    var attended := |AttendedRecords(records, user, window)|;
    Counts(total, attended, Percentage(attended, total))
  }

  // ---------------------------------------------------------------------------
  // update_or_create on (user, month)

  /** The position of the report for `(user, month)`, if there is one. */
  function FindReport(reports: seq<MonthlyReport>, user: UserId, month: Date): (k: Option<nat>)
    ensures k.Some? ==> k.value < |reports| && reports[k.value].user == user && reports[k.value].month == month
    ensures k.None? ==> forall i :: 0 <= i < |reports| ==> !(reports[i].user == user && reports[i].month == month)
  {
    if reports == [] then None
    else if reports[|reports| - 1].user == user && reports[|reports| - 1].month == month then Some(|reports| - 1)
    else FindReport(reports[..|reports| - 1], user, month)
  }

  /** The report for `(user, month)` is present, once, with these counts. */
  ghost predicate ReportHolds(reports: seq<MonthlyReport>, user: UserId, month: Date, c: Counts) {
    exists k :: 0 <= k < |reports| && reports[k].user == user && reports[k].month == month
      && reports[k].totalSessions == c.total && reports[k].attendedSessions == c.attended
      && reports[k].attendancePercentage == c.percentage
  }

  /** `MonthlyReport.objects.update_or_create(user=..., month=..., defaults=...)`: an existing
      row takes the new counts and keeps its creation time; otherwise a row is added. */
  function Upsert(reports: seq<MonthlyReport>, user: UserId, month: Date, c: Counts, now: Instant): (r: seq<MonthlyReport>)
    requires ReportsUnique(reports)
    ensures ReportsUnique(r)
    ensures ReportHolds(r, user, month, c)
    ensures forall i :: 0 <= i < |reports| && !(reports[i].user == user && reports[i].month == month) ==>
      i < |r| && r[i] == reports[i]
    ensures forall i :: 0 <= i < |r| && !(r[i].user == user && r[i].month == month) ==>
      i < |reports| && r[i] == reports[i]
    ensures FindReport(reports, user, month).Some? ==>
      var k := FindReport(reports, user, month).value;
      r == reports[k := reports[k].(totalSessions := c.total, attendedSessions := c.attended,
                                   attendancePercentage := c.percentage)]
    ensures FindReport(reports, user, month).None? ==>
      r == reports + [MonthlyReport(user, month, c.total, c.attended, c.percentage, now)]
  {
    match FindReport(reports, user, month)
    case Some(k) =>
      var updated := reports[k].(totalSessions := c.total, attendedSessions := c.attended, attendancePercentage := c.percentage);
      var r := reports[k := updated];
      assert r[k] == updated;
      r
    case None =>
      var created := MonthlyReport(user, month, c.total, c.attended, c.percentage, now);
      var r := reports + [created];
      assert r[|reports|] == created;
      r
  }

  /** An upsert whose counts the table already holds for the pair changes nothing. */
  lemma UpsertNoChange(reports: seq<MonthlyReport>, user: UserId, month: Date, c: Counts, now: Instant)
    requires ReportsUnique(reports) && ReportHolds(reports, user, month, c)
    ensures Upsert(reports, user, month, c, now) == reports
  {
    var k :| 0 <= k < |reports| && reports[k].user == user && reports[k].month == month
      && reports[k].totalSessions == c.total && reports[k].attendedSessions == c.attended
      && reports[k].attendancePercentage == c.percentage;
    var j := FindReport(reports, user, month);
    assert j == Some(k);
    assert reports[k := reports[k]] == reports;
  }

  /** Running the upsert again with the same counts changes nothing: a rerun leaves one
      report per pair, holding the recomputed values. */
  lemma UpsertIdempotent(reports: seq<MonthlyReport>, user: UserId, month: Date, c: Counts, now: Instant, later: Instant)
    requires ReportsUnique(reports)
    ensures Upsert(Upsert(reports, user, month, c, now), user, month, c, later) == Upsert(reports, user, month, c, now)
  {
    UpsertNoChange(Upsert(reports, user, month, c, now), user, month, c, later);
  }

  /** An upsert for one user leaves another user's report for the month as it was. */
  lemma UpsertKeepsOther(reports: seq<MonthlyReport>, user: UserId, month: Date, c: Counts, now: Instant,
                         other: UserId, co: Counts)
    requires ReportsUnique(reports) && ReportHolds(reports, other, month, co) && other != user
    ensures ReportHolds(Upsert(reports, user, month, c, now), other, month, co)
  {
    var r := Upsert(reports, user, month, c, now);
    var k :| 0 <= k < |reports| && reports[k].user == other && reports[k].month == month
      && reports[k].totalSessions == co.total && reports[k].attendedSessions == co.attended
      && reports[k].attendancePercentage == co.percentage;
    assert r[k] == reports[k];
  }

  // ---------------------------------------------------------------------------
  // The command

  /** The report table, updated in place. */
  class ReportTable {
    var rows: seq<MonthlyReport>

    ghost predicate Valid()
      reads this
    {
      ReportsUnique(rows)
    }

    constructor (initial: seq<MonthlyReport>)
      requires ReportsUnique(initial)
      ensures Valid() && rows == initial
    {
      rows := initial;
    }

    method UpdateOrCreate(user: UserId, month: Date, c: Counts, now: Instant)
      requires Valid()
      modifies this
      ensures Valid()
      ensures rows == Upsert(old(rows), user, month, c, now)
    {
      rows := Upsert(rows, user, month, c, now);
    }
  }

  /** The ids of the first `n` users. */
  ghost function HandledIds(users: seq<User>, n: nat): set<UserId>
    requires n <= |users|
  {
    set j | 0 <= j < n :: users[j].id
  }

  /** Sending the report for `(user, month)`, as the table holds it, answered `answer`. */
  ghost predicate MailedWith(rows: seq<MonthlyReport>, user: UserId, month: Date,
                             sendReport: (UserId, MonthlyReport) -> Call<bool>, answer: Call<bool>) {
    exists k :: 0 <= k < |rows| && rows[k].user == user && rows[k].month == month && sendReport(user, rows[k]) == answer
  }

  /** Each of the first `n` users has a report for the month holding their counts. */
  ghost predicate HandledHold(rows: seq<MonthlyReport>, users: seq<User>, n: nat, month: Date,
                              sessions: map<SessionId, AttendanceSession>, records: set<AttendanceRecord>,
                              start: Instant, end: Instant)
    requires RecordsUnique(records) && n <= |users|
  {
    forall i :: 0 <= i < n ==> ReportHolds(rows, users[i].id, month, ReportCounts(sessions, records, users[i].id, start, end))
  }

  /** `mailed[i]` is what sending the i-th user's report answered. */
  ghost predicate AnswersMatch(rows: seq<MonthlyReport>, users: seq<User>, mailed: seq<bool>, month: Date,
                               sendReport: (UserId, MonthlyReport) -> Call<bool>)
    requires |mailed| <= |users|
  {
    forall i :: 0 <= i < |mailed| ==> MailedWith(rows, users[i].id, month, sendReport, Returned(mailed[i]))
  }

  /** Rows that are not for one of the first `n` users and this month are where they were. */
  ghost predicate KeptRows(rows: seq<MonthlyReport>, before: seq<MonthlyReport>, users: seq<User>, n: nat, month: Date)
    requires n <= |users|
  {
    forall i :: 0 <= i < |before| && !(before[i].user in HandledIds(users, n) && before[i].month == month) ==>
      i < |rows| && rows[i] == before[i]
  }

  /** Every added row is for one of the first `n` users and this month. */
  ghost predicate AddedRows(rows: seq<MonthlyReport>, before: seq<MonthlyReport>, users: seq<User>, n: nat, month: Date)
    requires n <= |users|
  {
    forall i :: |before| <= i < |rows| ==> rows[i].user in HandledIds(users, n) && rows[i].month == month
  }

  /** The table after the first `n` users were handled and `mailed` collected, compared
      with the table `before` the run. */
  ghost predicate UsersReported(rows: seq<MonthlyReport>, before: seq<MonthlyReport>, users: seq<User>, n: nat,
                                mailed: seq<bool>, month: Date, sessions: map<SessionId, AttendanceSession>,
                                records: set<AttendanceRecord>, start: Instant, end: Instant,
                                sendReport: (UserId, MonthlyReport) -> Call<bool>)
    requires RecordsUnique(records) && |mailed| <= n <= |users|
  {
    && HandledHold(rows, users, n, month, sessions, records, start, end)
    && AnswersMatch(rows, users, mailed, month, sendReport)
    && KeptRows(rows, before, users, n, month)
    && AddedRows(rows, before, users, n, month)
  }

  lemma HandledIdsGrow(users: seq<User>, n: nat)
    requires n < |users|
    ensures HandledIds(users, n + 1) == HandledIds(users, n) + {users[n].id}
  {
  }

  lemma StepHold(rows: seq<MonthlyReport>, users: seq<User>, n: nat, month: Date,
                 sessions: map<SessionId, AttendanceSession>, records: set<AttendanceRecord>,
                 start: Instant, end: Instant, now: Instant)
    requires RecordsUnique(records) && ReportsUnique(rows) && n < |users|
    requires HandledHold(rows, users, n, month, sessions, records, start, end)
    ensures HandledHold(Upsert(rows, users[n].id, month, ReportCounts(sessions, records, users[n].id, start, end), now),
                        users, n + 1, month, sessions, records, start, end)
  {
    var user := users[n].id;
    var c := ReportCounts(sessions, records, user, start, end);
    forall i | 0 <= i < n + 1
      ensures ReportHolds(Upsert(rows, user, month, c, now), users[i].id, month, ReportCounts(sessions, records, users[i].id, start, end))
    {
      if users[i].id != user {
        UpsertKeepsOther(rows, user, month, c, now, users[i].id, ReportCounts(sessions, records, users[i].id, start, end));
      }
    }
  }

  lemma StepAnswers(rows: seq<MonthlyReport>, users: seq<User>, mailed: seq<bool>, month: Date,
                    sessions: map<SessionId, AttendanceSession>, records: set<AttendanceRecord>,
                    start: Instant, end: Instant, now: Instant, sendReport: (UserId, MonthlyReport) -> Call<bool>)
    requires RecordsUnique(records) && ReportsUnique(rows) && |mailed| < |users|
    requires HandledHold(rows, users, |mailed|, month, sessions, records, start, end)
    requires AnswersMatch(rows, users, mailed, month, sendReport)
    ensures AnswersMatch(Upsert(rows, users[|mailed|].id, month, ReportCounts(sessions, records, users[|mailed|].id, start, end), now),
                         users, mailed, month, sendReport)
  {
    var user := users[|mailed|].id;
    var c := ReportCounts(sessions, records, user, start, end);
    var r := Upsert(rows, user, month, c, now);
    forall i | 0 <= i < |mailed|
      ensures MailedWith(r, users[i].id, month, sendReport, Returned(mailed[i]))
    {
      if users[i].id == user {
        UpsertNoChange(rows, user, month, c, now);
      } else {
        var k :| 0 <= k < |rows| && rows[k].user == users[i].id && rows[k].month == month
          && sendReport(users[i].id, rows[k]) == Returned(mailed[i]);
        assert r[k] == rows[k];
      }
    }
  }

  lemma StepKept(rows: seq<MonthlyReport>, before: seq<MonthlyReport>, users: seq<User>, n: nat, month: Date,
                 c: Counts, now: Instant)
    requires ReportsUnique(rows) && n < |users|
    requires KeptRows(rows, before, users, n, month)
    ensures KeptRows(Upsert(rows, users[n].id, month, c, now), before, users, n + 1, month)
  {
    HandledIdsGrow(users, n);
  }

  lemma StepAdded(rows: seq<MonthlyReport>, before: seq<MonthlyReport>, users: seq<User>, n: nat, month: Date,
                  c: Counts, now: Instant)
    requires ReportsUnique(rows) && n < |users|
    requires AddedRows(rows, before, users, n, month)
    ensures AddedRows(Upsert(rows, users[n].id, month, c, now), before, users, n + 1, month)
  {
    HandledIdsGrow(users, n);
  }

  /** How a run ends. `mailed[i]` is what sending the report to the i-th user answered. */
  datatype Outcome =
    | Generated(month: Date, mailed: seq<bool>)
    | InvalidMonth
    /** An exception before any report was stored: `OverflowError` from the dates. */
    | Crashed
    /** `send_monthly_report_email` raised for user number `|mailed|`, after that user's
        report was stored; the run ends there. */
    | MailCrashed(month: Date, mailed: seq<bool>)

  /** `Command.handle`. The clock gives `today` and `now`; `sendReport` stands for
      `send_monthly_report_email`, whose answer is only reported and which may raise. */
  method Handle(table: ReportTable, users: seq<User>, sessions: map<SessionId, AttendanceSession>,
                records: set<AttendanceRecord>, option: Option<string>, today: Date, now: Instant,
                sendReport: (UserId, MonthlyReport) -> Call<bool>)
      returns (outcome: Outcome)
    requires table.Valid() && RecordsUnique(records) && ValidDate(today)
    modifies table
    ensures table.Valid()
    ensures ChooseMonth(option, today).InvalidFormat? <==> outcome.InvalidMonth?
    ensures outcome.Crashed? <==> (ChooseMonth(option, today).Crash? ||
      (ChooseMonth(option, today).Chosen? && MonthWindow(ChooseMonth(option, today).month).None? && |users| > 0))
    ensures outcome.InvalidMonth? || outcome.Crashed? ==> table.rows == old(table.rows)
    ensures outcome.Generated? || outcome.MailCrashed? ==> ChooseMonth(option, today) == Chosen(outcome.month)
    ensures outcome.Generated? && MonthWindow(outcome.month).None? ==>
      |users| == 0 && outcome.mailed == [] && table.rows == old(table.rows)
    ensures outcome.Generated? && MonthWindow(outcome.month).Some? ==>
      && |outcome.mailed| == |users|
      && var w := MonthWindow(outcome.month).value;
         UsersReported(table.rows, old(table.rows), users, |users|, outcome.mailed, outcome.month,
                       sessions, records, w.0, w.1, sendReport)
    ensures outcome.MailCrashed? ==>
      && MonthWindow(outcome.month).Some? && |outcome.mailed| < |users|
      && MailedWith(table.rows, users[|outcome.mailed|].id, outcome.month, sendReport, Raised)
      && var w := MonthWindow(outcome.month).value;
         UsersReported(table.rows, old(table.rows), users, |outcome.mailed| + 1, outcome.mailed, outcome.month,
                       sessions, records, w.0, w.1, sendReport)
  {
    var choice := ChooseMonth(option, today);
    if choice.InvalidFormat? {
      return InvalidMonth;
    }
    if choice.Crash? {
      return Crashed;
    }
    var month := choice.month;
    var window := MonthWindow(month);
    if window.None? {
      if |users| > 0 {
        return Crashed;
      }
      // with no users the loop body, which computes the window, never runs
      return Generated(month, []);
    }
    var start, end := window.value.0, window.value.1;
    var mailed, raised := ReportUsers(table, users, sessions, records, month, start, end, now, sendReport);
    if raised {
      outcome := MailCrashed(month, mailed);
    } else {
      outcome := Generated(month, mailed);
    }
  }

  /** The loop over the users: each one's report for the month is recomputed and stored,
      then mailed; an exception from the mailing ends the loop. */
  method ReportUsers(table: ReportTable, users: seq<User>, sessions: map<SessionId, AttendanceSession>,
                     records: set<AttendanceRecord>, month: Date, start: Instant, end: Instant, now: Instant,
                     sendReport: (UserId, MonthlyReport) -> Call<bool>)
      returns (mailed: seq<bool>, raised: bool)
    requires table.Valid() && RecordsUnique(records)
    modifies table
    ensures table.Valid() && |mailed| <= |users|
    ensures !raised ==>
      && |mailed| == |users|
      && UsersReported(table.rows, old(table.rows), users, |users|, mailed, month, sessions, records, start, end, sendReport)
    ensures raised ==>
      && |mailed| < |users|
      && MailedWith(table.rows, users[|mailed|].id, month, sendReport, Raised)
      && UsersReported(table.rows, old(table.rows), users, |mailed| + 1, mailed, month, sessions, records, start, end, sendReport)
  {
    mailed := [];
    var i := 0;
    while i < |users|
      invariant 0 <= i <= |users| && |mailed| == i
      invariant table.Valid()
      invariant UsersReported(table.rows, old(table.rows), users, i, mailed, month, sessions, records, start, end, sendReport)
    {
      var user := users[i];
      var c := ReportCounts(sessions, records, user.id, start, end);
      ghost var before := table.rows;
      table.UpdateOrCreate(user.id, month, c, now);
      StepHold(before, users, i, month, sessions, records, start, end, now);
      StepAnswers(before, users, mailed, month, sessions, records, start, end, now, sendReport);
      StepKept(before, old(table.rows), users, i, month, c, now);
      StepAdded(before, old(table.rows), users, i, month, c, now);
      assert ReportHolds(table.rows, user.id, month, c);
      var k := FindReport(table.rows, user.id, month);
      var answer := sendReport(user.id, table.rows[k.value]);
      assert MailedWith(table.rows, user.id, month, sendReport, answer);
      if answer.Raised? {
        return mailed, true;
      }
      mailed := mailed + [answer.value];
      i := i + 1;
    }
    raised := false;
  }
}
