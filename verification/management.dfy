/** One connection of a user, without its recording: `Connect` and `connectServeWSProcessMessages` in
    api/http/management.go, which open, log and free a session through the methods of module App. */
module Management {
  import opened Bytes
  import opened App
  import Audit
  import DeviceStatus

  datatype Proto = Shell | PortForward | OtherProto

  /** The session type a message of this protocol opens. */
  function TypeNamed(p: Proto): Option<string> {
    match p
    case Shell => Some(TERMINAL)
    case PortForward => Some(PORT_FORWARD)
    case OtherProto => None
  }

  /** The session types among the messages, in the order of their first appearance. */
  function Types(ms: seq<Proto>): seq<string> {
    if ms == [] then []
    else
      var earlier, t := Types(ms[..|ms| - 1]), TypeNamed(ms[|ms| - 1]);
      if t.None? || t.value in earlier then earlier else earlier + [t.value]
  }

  lemma {:induction false} TypesSnoc(ms: seq<Proto>, i: nat)
    requires i < |ms|
    ensures Types(ms[..i + 1]) ==
            var t := TypeNamed(ms[i]);
            if t.None? || t.value in Types(ms[..i]) then Types(ms[..i]) else Types(ms[..i]) + [t.value]
  {
    assert ms[..i + 1][..i] == ms[..i];
  }

  /** Each type is listed once: the terminal if there is a shell message, port forwarding if there is one of
      its messages, and nothing else. */
  lemma {:induction false} TypesExactly(ms: seq<Proto>)
    ensures forall i, j | 0 <= i < j < |Types(ms)| :: Types(ms)[i] != Types(ms)[j]
    ensures "terminal" in Types(ms) <==> Shell in ms
    ensures "portforward" in Types(ms) <==> PortForward in ms
    ensures forall t | t in Types(ms) :: t == "terminal" || t == "portforward"
    decreases |ms|
  {
    if ms != [] {
      var init, last := ms[..|ms| - 1], ms[|ms| - 1];
      TypesExactly(init);
      assert ms == init + [last];
    }
  }

  /** The open logs of a session for these types. */
  function OpenLogs(sessionID: string, types: seq<string>): seq<LogEntry> {
    if types == [] then []
    else
      var t := TypeOf(types[|types| - 1]);
      OpenLogs(sessionID, types[..|types| - 1]) + if t.Some? then [LogEntry(sessionID, Audit.Open(t.value))] else []
  }

  /** A session type gets as many open logs as it occurs among the names. */
  lemma {:induction false} OpenLogsExactly(sessionID: string, types: seq<string>, t: Audit.SessionType)
    ensures multiset(OpenLogs(sessionID, types))[LogEntry(sessionID, Audit.Open(t))]
            == multiset(types)[if t == Audit.Terminal then "terminal" else "portforward"]
    ensures forall l | l in OpenLogs(sessionID, types) :: l.sessionID == sessionID && l.entry.Open?
    decreases |types|
  {
    if types != [] {
      var init, last := types[..|types| - 1], types[|types| - 1];
      assert types == init + [last];
      OpenLogsExactly(sessionID, init, t);
    }
  }

  function LogsOf(haveAuditLogs: bool, sessionID: string, types: seq<string>): seq<LogEntry> {
    if haveAuditLogs then OpenLogs(sessionID, types) else []
  }

  lemma {:induction false} LogsOfSnoc(base: seq<LogEntry>, haveAuditLogs: bool, sessionID: string,
                                      types: seq<string>, name: string)
    requires TypeOf(name).Some?
    ensures base + LogsOf(haveAuditLogs, sessionID, types + [name]) ==
            if haveAuditLogs
            then base + LogsOf(haveAuditLogs, sessionID, types) + [LogEntry(sessionID, Audit.Open(TypeOf(name).value))]
            else base + LogsOf(haveAuditLogs, sessionID, types)
  {
    assert (types + [name])[..|types|] == types;
  }

  // The log of a connection is that of a run of module Audit.

  /** The session types with these names. */
  function TypesOf(types: seq<string>): seq<Audit.SessionType>
    requires forall t | t in types :: TypeOf(t).Some?
  {
    if types == [] then []
    else
      assert types[|types| - 1] in types && forall t | t in types[..|types| - 1] :: t in types;
      TypesOf(types[..|types| - 1]) + [TypeOf(types[|types| - 1]).value]
  }

  /** The entries of a session in the log. */
  function EntriesOf(sessionID: string, log: seq<Audit.Entry>): seq<LogEntry> {
    if log == [] then [] else EntriesOf(sessionID, log[..|log| - 1]) + [LogEntry(sessionID, log[|log| - 1])]
  }

  lemma {:induction false} EntriesSplit(sessionID: string, a: seq<Audit.Entry>, b: seq<Audit.Entry>)
    ensures EntriesOf(sessionID, a + b) == EntriesOf(sessionID, a) + EntriesOf(sessionID, b)
    decreases |b|
  {
    if b == [] {
      assert a + b == a;
    } else {
      EntriesSplit(sessionID, a, b[..|b| - 1]);
      assert (a + b)[..|a + b| - 1] == a + b[..|b| - 1];
    }
  }

  lemma {:induction false} LogsAreEntries(sessionID: string, types: seq<string>)
    requires forall t | t in types :: TypeOf(t).Some?
    ensures OpenLogs(sessionID, types) == EntriesOf(sessionID, Audit.OpensOf(TypesOf(types)))
    ensures CloseLogs(sessionID, types) == EntriesOf(sessionID, Audit.ClosesOf(TypesOf(types)))
    ensures |TypesOf(types)| == |types|
    decreases |types|
  {
    if types != [] {
      var init, last := types[..|types| - 1], types[|types| - 1];
      assert last in types && forall t | t in init :: t in types;
      LogsAreEntries(sessionID, init);
      var ts := TypesOf(types);
      assert ts[..|ts| - 1] == TypesOf(init);
      var opens, closes := Audit.OpensOf(ts), Audit.ClosesOf(ts);
      assert opens[..|opens| - 1] == Audit.OpensOf(TypesOf(init));
      assert closes[..|closes| - 1] == Audit.ClosesOf(TypesOf(init));
    }
  }

  lemma {:induction false} TypesOfAt(types: seq<string>, k: nat)
    requires forall t | t in types :: TypeOf(t).Some?
    requires k <= |types|
    ensures |TypesOf(types)| == |types| && (forall t | t in types[..k] :: TypeOf(t).Some?)
    ensures TypesOf(types)[..k] == TypesOf(types[..k])
    ensures k < |types| ==> TypesOf(types)[k] == TypeOf(types[k]).value
    decreases |types|
  {
    if types != [] {
      var init := types[..|types| - 1];
      assert forall t | t in init :: t in types;
      TypesOfAt(init, if k < |types| then k else 0);
      if k == |types| {
        assert types[..k] == types;
      } else {
        assert init[..k] == types[..k];
      }
    }
  }

  lemma {:induction false} DistinctTypes(types: seq<string>)
    requires forall t | t in types :: t == "terminal" || t == "portforward"
    requires forall i, j | 0 <= i < j < |types| :: types[i] != types[j]
    ensures Audit.Distinct(TypesOf(types))
  {
    TypesOfAt(types, |types|);
    forall i, j | 0 <= i < j < |types|
      ensures TypesOf(types)[i] != TypesOf(types)[j]
    {
      TypesOfAt(types, i);
      TypesOfAt(types, j);
      assert types[i] in types && types[j] in types;
    }
  }

  /** The message loop: the first message of a type is logged, and a failed log ends the loop, as does a
      message that cannot be published, of which there is none before `publishable` were. The session
      types are those of the messages noted. */
  method ProcessMessages(a: App, sess: Session, messages: seq<Proto>, publishable: nat)
    returns (types: seq<string>, noted: nat, published: nat, err: Option<Failure>)
    modifies a`sessions, a`log, a`failures
    ensures published <= noted <= |messages| && types == Types(messages[..noted])
    ensures a.log == old(a.log) + LogsOf(a.haveAuditLogs, sess.id, types)
    ensures a.failures == if err == Some(SubmissionFailed) then old(a.failures) + 1 else old(a.failures)
    ensures err == None ==> published == noted == |messages| <= publishable && a.sessions == old(a.sessions)
    ensures err == Some(PublishFailed) ==>
              noted == published + 1 && published == publishable && a.sessions == old(a.sessions)
    ensures err == Some(SubmissionFailed) ==>
              && noted == published < |messages| && a.haveAuditLogs && a.sessions == old(a.sessions) - {sess.id}
              && (messages[noted] == Shell || messages[noted] == PortForward) && messages[noted] !in messages[..noted]
    ensures err == None || err == Some(PublishFailed) || err == Some(SubmissionFailed)
  {
    ghost var base := a.log;
    var logTerminal, logPortForward := false, false;
    types, noted, published, err := [], 0, 0, None;
    while published < |messages|
      invariant noted == published <= |messages| && types == Types(messages[..published]) && err == None
      invariant published <= publishable
      invariant logTerminal == (TERMINAL in types) && logPortForward == (PORT_FORWARD in types)
      invariant a.log == base + LogsOf(a.haveAuditLogs, sess.id, types)
      invariant a.sessions == old(a.sessions) && a.failures == old(a.failures)
      decreases |messages| - published
    {
      TypesSnoc(messages, published);
      match messages[published] {
        case Shell =>
          if !logTerminal {
            err, types := LogType(a, sess, TERMINAL, types, base);
            logTerminal := true;
          }
        case PortForward =>
          if !logPortForward {
            err, types := LogType(a, sess, PORT_FORWARD, types, base);
            logPortForward := true;
          }
        case OtherProto =>
      }
      if err != None {
        TypesExactly(messages[..published]);
        return;
      }
      noted := noted + 1;
      if published == publishable {
        err := Some(PublishFailed);
        return;
      }
      published := published + 1;
    }
    assert messages[..published] == messages;
  }

  method LogType(a: App, sess: Session, name: string, already: seq<string>, ghost base: seq<LogEntry>)
    returns (err: Option<Failure>, types: seq<string>)
    requires TypeOf(name).Some?
    requires a.log == base + LogsOf(a.haveAuditLogs, sess.id, already)
    modifies a`sessions, a`log, a`failures
    ensures a.log == base + LogsOf(a.haveAuditLogs, sess.id, types)
    ensures err == None ==> types == already + [name] && a.sessions == old(a.sessions) && a.failures == old(a.failures)
    ensures err != None ==>
              && err == Some(SubmissionFailed) && a.haveAuditLogs && a.failures == old(a.failures) + 1
              && types == already && a.sessions == old(a.sessions) - {sess.id}
  {
    types := already;
    LogsOfSnoc(base, a.haveAuditLogs, sess.id, types, name);
    err := a.LogUserSession(sess, name);
    if err == None {
      types := types + [name];
    }
  }

  /** What a connection added to the log is the log of a complete run of module Audit, with as many failed
      submissions. */
  ghost predicate LogsRun(sessionID: string, base: seq<LogEntry>, log: seq<LogEntry>, failures: int) {
    exists run, failedOpens: nat, failedCloses: nat ::
      && Audit.IsRun(true, run, failedOpens, failedCloses)
      && log == base + EntriesOf(sessionID, run) && failures == failedOpens + failedCloses
  }

  lemma {:induction false} FailingLogsRun(sessionID: string, base: seq<LogEntry>, noted: seq<Proto>, failing: Proto)
    requires failing !in noted && failing != OtherProto
    ensures LogsRun(sessionID, base, base + OpenLogs(sessionID, Types(noted)), 1)
  {
    var types := Types(noted);
    TypesExactly(noted);
    DistinctTypes(types);
    LogsAreEntries(sessionID, types);
    FailingIsNew(types, noted, failing);
    Audit.FailingRun(TypesOf(types), if failing == Shell then Audit.Terminal else Audit.SessionType.PortForward);
    assert Audit.IsRun(true, Audit.OpensOf(TypesOf(types)), 1, 0);
  }

  lemma {:induction false} ClosingLogsRun(sessionID: string, base: seq<LogEntry>, noted: seq<Proto>, closed: nat)
    requires closed <= |Types(noted)|
    ensures var types := Types(noted);
            LogsRun(sessionID, base, base + OpenLogs(sessionID, types) + CloseLogs(sessionID, types[..closed]),
                    if closed < |types| then 1 else 0)
  {
    var types := Types(noted);
    TypesExactly(noted);
    DistinctTypes(types);
    TypesOfAt(types, closed);
    var ts := TypesOf(types);
    LogsAreEntries(sessionID, types);
    LogsAreEntries(sessionID, types[..closed]);
    var opens, closes := Audit.OpensOf(ts), Audit.ClosesOf(ts[..closed]);
    EntriesSplit(sessionID, opens, closes);
    Audit.ClosingRun(ts, closed);
    assert base + EntriesOf(sessionID, opens) + EntriesOf(sessionID, closes)
           == base + EntriesOf(sessionID, opens + closes);
    assert Audit.IsRun(true, opens + closes, 0, if closed < |types| then 1 else 0);
  }

  lemma {:induction false} FailingIsNew(types: seq<string>, noted: seq<Proto>, p: Proto)
    requires types == Types(noted) && p !in noted && p != OtherProto
    requires forall t | t in types :: TypeOf(t).Some?
    ensures (if p == Shell then Audit.Terminal else Audit.SessionType.PortForward) !in TypesOf(types)
  {
    TypesExactly(noted);
    TypesOfAt(types, |types|);
    forall i | 0 <= i < |types|
      ensures TypesOf(types)[i] != if p == Shell then Audit.Terminal else Audit.SessionType.PortForward
    {
      TypesOfAt(types, i);
      assert types[i] in types;
    }
  }

  /** A connection that never meets the byte limit. `prepared` says that the session was admitted;
      then, whatever fails, no session row is left behind. Every session type has one open log; if no
      submission failed, each has one close log too, and every message up to the first that could not be
      published was noted. */
  method Connect(a: App, request: Session, freshID: string, messages: seq<Proto>, publishable: nat)
    returns (prepared: bool, sess: Session, types: seq<string>, noted: nat, closed: nat, failed: bool)
    modifies a`sessions, a`log, a`failures
    ensures a.sessions == old(a.sessions)
    ensures sess == if request.id == "" then request.(id := freshID) else request
    ensures failed <==> a.failures > old(a.failures)
    ensures !prepared ==> a.log == old(a.log) && !failed
    ensures prepared ==> noted <= |messages| && types == Types(messages[..noted]) && closed <= |types|
    ensures prepared && a.haveAuditLogs ==>
              a.log == old(a.log) + OpenLogs(sess.id, types) + CloseLogs(sess.id, types[..closed])
    ensures prepared && a.haveAuditLogs ==>
              LogsRun(sess.id, old(a.log), a.log, a.failures - old(a.failures))
    ensures prepared <==>
              var id := if request.id == "" then freshID else request.id;
              var key := DeviceStatus.Key(request.tenantID, request.deviceID);
              && id != "" && request.userID != "" && request.deviceID != "" && request.startTS != ZERO_TIME
              && key in a.devices && a.devices[key].status == DeviceStatus.Connected && id !in old(a.sessions)
    ensures prepared && !failed ==> noted == if publishable < |messages| then publishable + 1 else |messages|
    ensures prepared && !failed && a.haveAuditLogs ==> closed == |types|
    ensures failed ==> a.haveAuditLogs && (noted < |messages| || closed < |types|)
    ensures !a.haveAuditLogs ==> a.log == old(a.log)
  {
    types, noted, closed, failed := [], 0, 0, false;
    var err;
    sess, err := a.PrepareUserSession(request, freshID);
    prepared := err == None;
    if !prepared {
      return;
    }
    var published;
    types, noted, published, err := ProcessMessages(a, sess, messages, publishable);
    failed := err == Some(SubmissionFailed);
    err, closed := a.FreeUserSession(sess.id, types);
    if failed {
      FailingLogsRun(sess.id, old(a.log), messages[..noted], messages[noted]);
      assert CloseLogs(sess.id, types[..closed]) == [];
    } else {
      ClosingLogsRun(sess.id, old(a.log), messages[..noted], closed);
    }
    failed := failed || err == Some(SubmissionFailed);
  }
}
