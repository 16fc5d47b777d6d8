/** The session methods of app/app.go and the session collection of store/mongo/datastore_mongo.go. */
module App {
  import opened Bytes
  import opened Audit
  import DeviceStatus

  const TERMINAL := "terminal"
  const PORT_FORWARD := "portforward"

  const ZERO_TIME := 0

  datatype Session = Session(id: string, userID: string, deviceID: string, tenantID: string, startTS: int) {
    function DeviceKey(): DeviceStatus.Key {
      DeviceStatus.Key(tenantID, deviceID)
    }

    predicate Valid() {
      id != "" && userID != "" && deviceID != "" && startTS != ZERO_TIME
    }
  }

  datatype Failure =
    | InvalidSession
    | DeviceNotFound
    | DeviceNotConnected
    | DuplicateSession
    | SessionNotFound
    | UnknownSessionType
    | SubmissionFailed
    | PublishFailed

  datatype LogEntry = LogEntry(sessionID: string, entry: Entry)

  function TypeOf(sessionType: string): Option<SessionType> {
    if sessionType == PORT_FORWARD then Some(SessionType.PortForward)
    else if sessionType == TERMINAL then Some(SessionType.Terminal)
    else None
  }

  /** The close logs of a session for the known types among `types`, in order. */
  function CloseLogs(sessionID: string, types: seq<string>): seq<LogEntry> {
    if types == [] then []
    else
      var t := TypeOf(types[|types| - 1]);
      CloseLogs(sessionID, types[..|types| - 1]) + if t.Some? then [LogEntry(sessionID, Close(t.value))] else []
  }

  /** A session type gets as many close logs as it occurs among `types`. */
  lemma {:induction false} CloseLogsExactly(sessionID: string, types: seq<string>, t: SessionType)
    ensures multiset(CloseLogs(sessionID, types))[LogEntry(sessionID, Close(t))]
            == multiset(types)[if t.Terminal? then "terminal" else "portforward"]
    ensures forall l | l in CloseLogs(sessionID, types) :: l.sessionID == sessionID && l.entry.Close?
    decreases |types|
  {
    if types != [] {
      var init, last := types[..|types| - 1], types[|types| - 1];
      assert types == init + [last];
      CloseLogsExactly(sessionID, init, t);
    }
  }

  class App {
    const haveAuditLogs: bool
    var devices: DeviceStatus.Devices
    var sessions: map<string, Session>
    var log: seq<LogEntry>
    var failures: nat  // submissions that failed

    constructor (haveAuditLogs: bool, devices: DeviceStatus.Devices)
      ensures this.haveAuditLogs == haveAuditLogs && this.devices == devices && sessions == map[] && log == []
      ensures failures == 0
    {
      this.haveAuditLogs, this.devices, sessions, log, failures := haveAuditLogs, devices, map[], [], 0;
    }

    method SubmitAuditLog(l: LogEntry) returns (ok: bool)
      modifies this`log, this`failures
      ensures log == if ok then old(log) + [l] else old(log)
      ensures failures == if ok then old(failures) else old(failures) + 1
    {
      ok := *;
      if ok {
        log := log + [l];
      } else {
        failures := failures + 1;
      }
    }

    /** `freshID` is the random identifier given to a session that has none. */
    method PrepareUserSession(sess: Session, freshID: string) returns (r: Session, err: Option<Failure>)
      modifies this`sessions
      ensures r == if sess.id == "" then sess.(id := freshID) else sess
      ensures err == None <==>
                && r.Valid()
                && r.DeviceKey() in devices && devices[r.DeviceKey()].status.Connected?
                && r.id !in old(sessions)
      ensures err == None ==> sessions == old(sessions)[r.id := r]
      ensures err != None ==> sessions == old(sessions)
      ensures err == Some(InvalidSession) <==> !r.Valid()
      ensures err == Some(DeviceNotFound) <==> r.Valid() && r.DeviceKey() !in devices
      ensures err == Some(DeviceNotConnected) <==>
                r.Valid() && r.DeviceKey() in devices && !devices[r.DeviceKey()].status.Connected?
      ensures err == Some(DuplicateSession) <==>
                && r.Valid() && r.DeviceKey() in devices && devices[r.DeviceKey()].status.Connected?
                && r.id in old(sessions)
    {
      r := sess;
      if r.id == "" {
        r := r.(id := freshID);
      }
      if !r.Valid() {
        return r, Some(InvalidSession);
      }
      if r.DeviceKey() !in devices {
        return r, Some(DeviceNotFound);
      } else if devices[r.DeviceKey()].status != DeviceStatus.Connected {
        return r, Some(DeviceNotConnected);
      }
      if r.id in sessions {
        return r, Some(DuplicateSession);
      }
      sessions := sessions[r.id := r];
      err := None;
    }

    method DeleteSession(sessionID: string) returns (err: Option<Failure>)
      modifies this`sessions
      ensures sessions == old(sessions) - {sessionID}
      ensures err == if sessionID in old(sessions) then None else Some(SessionNotFound)
    {
      if sessionID !in sessions {
        return Some(SessionNotFound);
      }
      sessions := sessions - {sessionID};
      err := None;
    }

    /** A failed submission costs the session its row. */
    method LogUserSession(sess: Session, sessionType: string) returns (err: Option<Failure>)
      modifies this`sessions, this`log, this`failures
      ensures failures == if err == Some(SubmissionFailed) then old(failures) + 1 else old(failures)
      ensures !haveAuditLogs ==> err == None && log == old(log)
      ensures haveAuditLogs && TypeOf(sessionType) == None ==> err == Some(UnknownSessionType) && log == old(log)
      ensures err == None && haveAuditLogs ==>
                TypeOf(sessionType).Some? && log == old(log) + [LogEntry(sess.id, Open(TypeOf(sessionType).value))]
      ensures err == None && haveAuditLogs && sessionType == "terminal" ==>
                log == old(log) + [LogEntry(sess.id, Open(SessionType.Terminal))]
      ensures err == None && haveAuditLogs && sessionType == "portforward" ==>
                log == old(log) + [LogEntry(sess.id, Open(SessionType.PortForward))]
      ensures haveAuditLogs && sessionType != "terminal" && sessionType != "portforward" ==>
                err == Some(UnknownSessionType)
      ensures err != None ==> haveAuditLogs && log == old(log)
      ensures err != None && TypeOf(sessionType).Some? ==> err == Some(SubmissionFailed)
      ensures err == Some(SubmissionFailed) ==> sessions == old(sessions) - {sess.id}
      ensures err != Some(SubmissionFailed) ==> sessions == old(sessions)
    {
      if !haveAuditLogs {
        return None;
      }
      var t := TypeOf(sessionType);
      if t == None {
        return Some(UnknownSessionType);
      }
      var ok := SubmitAuditLog(LogEntry(sess.id, Open(t.value)));
      if !ok {
        var _ := DeleteSession(sess.id);
        return Some(SubmissionFailed);
      }
      err := None;
    }

    /** Frees the session once; `logged` of the types were handled, all of them unless a submission
        failed. A session already gone is not logged again. */
    method FreeUserSession(sessionID: string, sessionTypes: seq<string>) returns (err: Option<Failure>, logged: nat)
      modifies this`sessions, this`log, this`failures
      ensures failures == if err == Some(SubmissionFailed) then old(failures) + 1 else old(failures)
      ensures sessions == old(sessions) - {sessionID}
      ensures sessionID !in old(sessions) ==> err == Some(SessionNotFound) && log == old(log) && logged == 0
      ensures !haveAuditLogs ==> log == old(log)
      ensures logged <= |sessionTypes|
      ensures sessionID in old(sessions) && haveAuditLogs ==>
                log == old(log) + CloseLogs(sessionID, sessionTypes[..logged])
      ensures sessionID in old(sessions) ==> err == None || err == Some(SubmissionFailed)
      ensures err == Some(SubmissionFailed) ==> haveAuditLogs
      ensures err == None && haveAuditLogs ==> logged == |sessionTypes|
      ensures err == Some(SubmissionFailed) ==> logged < |sessionTypes| && TypeOf(sessionTypes[logged]).Some?
    {
      logged := 0;
      err := DeleteSession(sessionID);
      if err != None {
        return;
      }
      if haveAuditLogs {
        while logged < |sessionTypes|
          invariant logged <= |sessionTypes| && sessions == old(sessions) - {sessionID} && err == None
          invariant failures == old(failures)
          invariant log == old(log) + CloseLogs(sessionID, sessionTypes[..logged])
          decreases |sessionTypes| - logged
        {
          assert sessionTypes[..logged + 1][..logged] == sessionTypes[..logged];
          var t := TypeOf(sessionTypes[logged]);
          if t.Some? {
            var ok := SubmitAuditLog(LogEntry(sessionID, Close(t.value)));
            if !ok {
              return Some(SubmissionFailed), logged;
            }
          }
          logged := logged + 1;
        }
      }
    }
  }
}
