/** The tables of the attendance system: users, location constraints, sessions,
    attendance records and monthly reports, with their defaults and the
    uniqueness rules the database enforces. */
module Models {
  import opened Wrappers
  import opened Calendar

  type UserId = int
  type SessionId = int
  type LocationId = int

  /** A point in time, in seconds since 0001-01-01 00:00 (naive local time). */
  type Instant = int

  /** The `LEVEL_CHOICES` of a user and of a session. */
  datatype Level = UG | PG

  /** The `YEAR_CHOICES` '1' to '4'. */
  datatype Year = Year1 | Year2 | Year3 | Year4

  datatype Role = Role(name: string, description: string)

  datatype User = User(
    id: UserId,
    rollNumber: string,
    email: string,
    firstName: string,
    lastName: string,
    role: Option<Role>,
    faceEncoding: Option<string>,
    faceImage: Option<string>,
    isActive: bool,
    level: Option<Level>,
    year: Option<Year>,
    department: Option<string>)

  datatype LocationConstraint = LocationConstraint(
    id: LocationId,
    name: string,
    latitude: Option<real>,
    longitude: Option<real>,
    radius: real,
    isActive: bool)

  datatype AttendanceSession = AttendanceSession(
    id: SessionId,
    name: string,
    locationConstraint: LocationId,
    startTime: Instant,
    endTime: Instant,
    isActive: bool,
    faculty: Option<UserId>,
    targetYear: Option<Year>,
    level: Option<Level>,
    department: Option<string>)

  datatype VerificationMethod = Face | Manual

  datatype AttendanceRecord = AttendanceRecord(
    id: int,
    user: UserId,
    session: SessionId,
    timestamp: Instant,
    latitude: Option<real>,
    longitude: Option<real>,
    verificationMethod: VerificationMethod)

  datatype MonthlyReport = MonthlyReport(
    user: UserId,
    month: Date,
    totalSessions: int,
    attendedSessions: int,
    attendancePercentage: real,
    generatedAt: Instant)

  /** The error the database raises when an insert breaks a uniqueness constraint. */
  datatype IntegrityError = IntegrityError

  /** The default radius of a location constraint, in metres. */
  const DefaultRadius: real := 300.0

  /** A location constraint created with only the fields that have no default. */
  function NewLocationConstraint(id: LocationId, name: string, latitude: Option<real>, longitude: Option<real>): (c: LocationConstraint)
    ensures c.radius == DefaultRadius && c.isActive
    ensures c.id == id && c.name == name && c.latitude == latitude && c.longitude == longitude
  {
    LocationConstraint(id, name, latitude, longitude, DefaultRadius, true)
  }

  /** A session created with only the fields that have no default: it starts inactive
      and with no year, level or department restriction. */
  function NewSession(id: SessionId, name: string, location: LocationId, start: Instant, end: Instant, faculty: Option<UserId>): (s: AttendanceSession)
    ensures !s.isActive
    ensures s.targetYear.None? && s.level.None? && s.department.None?
    ensures s.id == id && s.name == name && s.locationConstraint == location
    ensures s.startTime == start && s.endTime == end && s.faculty == faculty
  {
    AttendanceSession(id, name, location, start, end, false, faculty, None, None, None)
  }

  /** A record created without naming a verification method is a face-recognition record. */
  function NewRecord(id: int, user: UserId, session: SessionId, now: Instant, latitude: Option<real>, longitude: Option<real>): (r: AttendanceRecord)
    ensures r.verificationMethod == Face
    ensures r.timestamp == now
    ensures r.id == id && r.user == user && r.session == session
    ensures r.latitude == latitude && r.longitude == longitude
  {
    AttendanceRecord(id, user, session, now, latitude, longitude, Face)
  }

  /** A monthly report row before its counts are filled in. */
  function NewMonthlyReport(user: UserId, month: Date, now: Instant): (r: MonthlyReport)
    ensures r.totalSessions == 0 && r.attendedSessions == 0 && r.attendancePercentage == 0.0
    ensures r.user == user && r.month == month && r.generatedAt == now
  {
    MonthlyReport(user, month, 0, 0, 0.0, now)
  }

  /** Primary keys, roll numbers and e-mail addresses are unique across users. */
  ghost predicate UsersUnique(users: seq<User>) {
    forall i, j :: 0 <= i < j < |users| ==>
      users[i].id != users[j].id && users[i].rollNumber != users[j].rollNumber && users[i].email != users[j].email
  }

  /** `unique_together = ('user', 'session')`. */
  ghost predicate RecordsUnique(records: set<AttendanceRecord>) {
    forall a, b :: a in records && b in records && a.user == b.user && a.session == b.session ==> a == b
  }

  /** `unique_together = ('user', 'month')`. */
  ghost predicate ReportsUnique(reports: seq<MonthlyReport>) {
    forall i, j :: 0 <= i < j < |reports| ==> (reports[i].user, reports[i].month) != (reports[j].user, reports[j].month)
  }

  predicate HasRecord(records: set<AttendanceRecord>, user: UserId, session: SessionId) {
    exists r :: r in records && r.user == user && r.session == session
  }

  /** Inserting an attendance record: the database refuses a second record for the same
      user and session and otherwise adds the row. */
  function InsertRecord(records: set<AttendanceRecord>, r: AttendanceRecord): (res: Result<set<AttendanceRecord>, IntegrityError>)
    requires RecordsUnique(records)
    ensures res.Err? <==> HasRecord(records, r.user, r.session)
    ensures res.Ok? ==> res.value == records + {r} && RecordsUnique(res.value)
  {
    if HasRecord(records, r.user, r.session) then Err(IntegrityError) else Ok(records + {r})
  }

  /** Two attempts to record the same user and session, one after the other,
      leave exactly one record for the pair: the second is refused. */
  lemma SecondMarkRefused(records: set<AttendanceRecord>, first: AttendanceRecord, second: AttendanceRecord)
    requires RecordsUnique(records)
    requires first.user == second.user && first.session == second.session
    requires InsertRecord(records, first).Ok?
    ensures InsertRecord(InsertRecord(records, first).value, second).Err?
    ensures var after := InsertRecord(records, first).value;
      (set x | x in after && x.user == first.user && x.session == first.session) == {first}
  {
    var after := InsertRecord(records, first).value;
    assert first in after;
    assert HasRecord(after, second.user, second.session);
  }
}
