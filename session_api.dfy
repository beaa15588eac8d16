/** Starting and stopping attendance sessions (`api_start_session`, `api_stop_session`)
    as operations on the session table, with the clock passed in as `now`. */
module SessionApi {
  import opened Wrappers
  import opened Text
  import opened Models

  /** `request.user`: anonymous, or an authenticated user with an optional role. */
  datatype Requester = Anonymous | Authenticated(user: UserId, role: Option<Role>)

  /** The request body: not a JSON object, or an object with an optional `session_id`. */
  datatype Payload = Malformed | Json(sessionId: Option<int>)

  datatype Request = Request(httpMethod: string, requester: Requester, payload: Payload)

  /** The `message` of each JSON answer; the start and stop variants of a message are one. */
  datatype Message =
    | InvalidRequestMethod | AuthenticationRequired | PrivilegesRequired | MalformedRequest
    | SessionIdRequired | NotAuthorized | SessionNotFound | Started | Stopped

  datatype Response = Response(success: bool, message: Message, sessionId: Option<SessionId>)

  function Refusal(m: Message): Response {
    Response(false, m, None)
  }

  /** The role name, compared case-insensitively. */
  predicate HasRoleName(role: Option<Role>, name: string) {
    role.Some? && Lower(role.value.name) == name
  }

  predicate IsAdminOrFaculty(role: Option<Role>) {
    HasRoleName(role, "admin") || HasRoleName(role, "faculty")
  }

  /** A faculty member may act only on the sessions they are the faculty of; an administrator
      may act on any session. */
  predicate MayManage(user: UserId, role: Option<Role>, s: AttendanceSession) {
    !HasRoleName(role, "faculty") || s.faculty == Some(user)
  }

  /** The checks both endpoints make, in the source's order, ending with the lookup of the
      session: the session to act on, or the refusal. A `session_id` of 0 is falsy in
      Python and counts as missing. */
  function Authorize(sessions: map<SessionId, AttendanceSession>, req: Request): (r: Result<AttendanceSession, Message>)
    ensures r.Ok? <==>
      && req.httpMethod == "POST"
      && req.requester.Authenticated?
      && IsAdminOrFaculty(req.requester.role)
      && req.payload.Json? && req.payload.sessionId.Some? && req.payload.sessionId.value != 0
      && req.payload.sessionId.value in sessions
      && MayManage(req.requester.user, req.requester.role, sessions[req.payload.sessionId.value])
    ensures r.Ok? ==> r.value == sessions[req.payload.sessionId.value]
    // each refusal carries the message of the first check that fails
    ensures req.httpMethod != "POST" ==> r == Err(InvalidRequestMethod)
    ensures req.httpMethod == "POST" && req.requester.Anonymous? ==> r == Err(AuthenticationRequired)
    ensures req.httpMethod == "POST" && req.requester.Authenticated? && !IsAdminOrFaculty(req.requester.role) ==>
      r == Err(PrivilegesRequired)
    ensures req.httpMethod == "POST" && req.requester.Authenticated? && IsAdminOrFaculty(req.requester.role) ==>
      && (req.payload.Malformed? ==> r == Err(MalformedRequest))
      && (req.payload.Json? && (req.payload.sessionId.None? || req.payload.sessionId.value == 0) ==> r == Err(SessionIdRequired))
      && (req.payload.Json? && req.payload.sessionId.Some? && req.payload.sessionId.value != 0 ==>
            && (req.payload.sessionId.value !in sessions ==> r == Err(SessionNotFound))
            && (req.payload.sessionId.value in sessions &&
                !MayManage(req.requester.user, req.requester.role, sessions[req.payload.sessionId.value]) ==>
                r == Err(NotAuthorized)))
  {
    if req.httpMethod != "POST" then Err(InvalidRequestMethod)
    else if req.requester.Anonymous? then Err(AuthenticationRequired)
    else if !IsAdminOrFaculty(req.requester.role) then Err(PrivilegesRequired)
    else if req.payload.Malformed? then Err(MalformedRequest)
    else if req.payload.sessionId.None? || req.payload.sessionId.value == 0 then Err(SessionIdRequired)
    else if req.payload.sessionId.value !in sessions then Err(SessionNotFound)
    else
      var s := sessions[req.payload.sessionId.value];
      if !MayManage(req.requester.user, req.requester.role, s) then Err(NotAuthorized)
      else Ok(s)
  }

  /** The new run of a session: a fresh active row with the original's name, location and
      faculty, starting now and lasting as long as the original was configured to last.
      Year, level and department are not copied and take their defaults. */
  function Launch(original: AttendanceSession, id: SessionId, now: Instant): (s: AttendanceSession)
    ensures s.id == id && s.isActive
    ensures s.startTime == now
    ensures s.endTime - s.startTime == original.endTime - original.startTime
    ensures s.name == original.name && s.locationConstraint == original.locationConstraint
    ensures s.faculty == original.faculty
    ensures s.targetYear.None? && s.level.None? && s.department.None?
  {
    AttendanceSession(id, original.name, original.locationConstraint, now,
                      now + (original.endTime - original.startTime), true, original.faculty, None, None, None)
  }

  /** A stopped session: inactive, ending now; every other field as it was. */
  function Halt(s: AttendanceSession, now: Instant): (r: AttendanceSession)
    ensures !r.isActive && r.endTime == now
    ensures r.(isActive := s.isActive, endTime := s.endTime) == s
  {
    s.(isActive := false, endTime := now)
  }

  /** Stopping needs no active session; stopping twice keeps the session inactive and
      takes the end time of the second stop. */
  lemma HaltTwice(s: AttendanceSession, first: Instant, second: Instant)
    ensures Halt(Halt(s, first), second) == Halt(s, second)
  {
  }

  /** An administrator passes the ownership check for every session. */
  lemma AdminMayManageAny(user: UserId, role: Role, s: AttendanceSession)
    requires Lower(role.name) == "admin"
    ensures MayManage(user, Some(role), s)
  {
  }

  /** A faculty member who is not the session's faculty is refused, and told so, once
      every earlier check has passed. */
  lemma OtherFacultyRefused(sessions: map<SessionId, AttendanceSession>, user: UserId, role: Role, id: SessionId)
    requires Lower(role.name) == "faculty"
    requires id != 0 && id in sessions && sessions[id].faculty != Some(user)
    ensures Authorize(sessions, Request("POST", Authenticated(user, Some(role)), Json(Some(id)))) == Err(NotAuthorized)
  {
  }

  /** The session table, with the next primary key the database will hand out. */
  class SessionStore {
    var sessions: map<SessionId, AttendanceSession>
    var nextId: SessionId

    /** Every row is stored under its own primary key, and keys are positive and below `nextId`. */
    ghost predicate Valid()
      reads this
    {
      forall id :: id in sessions ==> sessions[id].id == id && 0 < id < nextId
    }

    constructor (initial: map<SessionId, AttendanceSession>, next: SessionId)
      requires forall id :: id in initial ==> initial[id].id == id && 0 < id < next
      ensures Valid() && sessions == initial && nextId == next
    {
      sessions := initial;
      nextId := next;
    }

    /** `api_start_session`: on success a new row is inserted under a fresh key and every
        existing row, the original included, is left as it was. */
    method StartSession(req: Request, now: Instant) returns (resp: Response)
      requires Valid()
      modifies this
      ensures Valid()
      ensures resp.success <==> Authorize(old(sessions), req).Ok?
      ensures Authorize(old(sessions), req).Err? ==>
        resp == Refusal(Authorize(old(sessions), req).error) && sessions == old(sessions) && nextId == old(nextId)
      ensures Authorize(old(sessions), req).Ok? ==>
        && resp == Response(true, Started, Some(old(nextId)))
        && old(nextId) !in old(sessions)
        && sessions == old(sessions)[old(nextId) := Launch(Authorize(old(sessions), req).value, old(nextId), now)]
        && nextId == old(nextId) + 1
    {
      var decision := Authorize(sessions, req);
      if decision.Err? {
        return Refusal(decision.error);
      }
      var id := nextId;
      sessions := sessions[id := Launch(decision.value, id, now)];
      nextId := nextId + 1;
      resp := Response(true, Started, Some(id));
    }

    /** `api_stop_session`: on success the session is halted in place and no other row changes. */
    method StopSession(req: Request, now: Instant) returns (resp: Response)
      requires Valid()
      modifies this
      ensures Valid() && nextId == old(nextId)
      ensures resp.success <==> Authorize(old(sessions), req).Ok?
      ensures Authorize(old(sessions), req).Err? ==>
        resp == Refusal(Authorize(old(sessions), req).error) && sessions == old(sessions)
      ensures Authorize(old(sessions), req).Ok? ==>
        var id := req.payload.sessionId.value;
        && resp == Response(true, Stopped, Some(id))
        && sessions == old(sessions)[id := Halt(old(sessions)[id], now)]
    {
      var decision := Authorize(sessions, req);
      if decision.Err? {
        return Refusal(decision.error);
      }
      var id := decision.value.id;
      sessions := sessions[id := Halt(decision.value, now)];
      resp := Response(true, Stopped, Some(id));
    }
  }
}
