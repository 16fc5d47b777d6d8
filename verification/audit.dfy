/** Audit logging of sessions: the session methods of app/app.go as atomic steps of three competing
    activities of api/http/management.go, the message loop, the byte limit handler and the deferred
    free of `Connect`, over the session row of store/mongo/datastore_mongo.go. */
module Audit {
  import opened Bytes

  datatype SessionType = Terminal | PortForward

  datatype Entry = Open(sessionType: SessionType) | Close(sessionType: SessionType)

  /** Where the message loop is. Logging: about to submit an open log. Logged: about to note that it
      did. CleaningUp: about to delete the session because the submission failed. */
  datatype Loop = AtMessage | Logging(t: SessionType) | Logged(t: SessionType) | CleaningUp | Returned

  /** Where a call of `FreeUserSession` is, with the session types it was given or has left to log. */
  datatype Free = NotCalled | Called(types: seq<SessionType>) | Submitting(rest: seq<SessionType>) | Done

  datatype Who = ByLoop | ByLimit | ByDeferred

  /** `types` is `sess.Types`; `stored` says that the session row exists; `deletedBy` and `given`
      remember who deleted it and with which types; `failedOpens` and `failedCloses` count the
      submissions that failed. */
  datatype State = State(
    haveAuditLogs: bool,
    stored: bool,
    loop: Loop,
    types: seq<SessionType>,
    limit: Free,
    deferred: Free,
    log: seq<Entry>,
    deletedBy: Option<Who>,
    given: seq<SessionType>,
    failedOpens: nat,
    failedCloses: nat)

  /** After `PrepareUserSession`. */
  function Start(haveAuditLogs: bool): State {
    State(haveAuditLogs, true, AtMessage, [], NotCalled, NotCalled, [], None, [], 0, 0)
  }

  datatype Step =
    | Message(t: SessionType)        // a message of a type not logged yet
    | SubmitOpen(ok: bool)
    | NoteType
    | CleanUp
    | Return                         // the connection ended, or publishing failed
    | CallFree(who: Who)
    | DeleteRow(who: Who)
    | SubmitClose(who: Who, ok: bool)
    | FinishFree(who: Who)

  function FreeOf(s: State, who: Who): Free {
    match who
    case ByLimit => s.limit
    case ByDeferred => s.deferred
    case ByLoop => Done
  }

  function SetFree(s: State, who: Who, f: Free): State {
    match who
    case ByLimit => s.(limit := f)
    case ByDeferred => s.(deferred := f)
    case ByLoop => s
  }

  predicate Enabled(s: State, step: Step) {
    match step
    case Message(t) => s.loop.AtMessage? && t !in s.types
    case SubmitOpen(_) => s.loop.Logging?
    case NoteType => s.loop.Logged?
    case CleanUp => s.loop.CleaningUp?
    case Return => s.loop.AtMessage?
    case CallFree(who) => FreeOf(s, who).NotCalled? && (who.ByDeferred? ==> s.loop.Returned?)
    case DeleteRow(who) => FreeOf(s, who).Called?
    case SubmitClose(who, _) => FreeOf(s, who).Submitting? && FreeOf(s, who).rest != []
    case FinishFree(who) => FreeOf(s, who) == Submitting([])
  }

  function Apply(s: State, step: Step): State
    requires Enabled(s, step)
  {
    match step
    case Message(t) => s.(loop := if s.haveAuditLogs then Logging(t) else Logged(t))
    case SubmitOpen(ok) =>
      if ok then s.(log := s.log + [Open(s.loop.t)], loop := Logged(s.loop.t))
      else s.(loop := CleaningUp, failedOpens := s.failedOpens + 1)
    case NoteType => s.(types := s.types + [s.loop.t], loop := AtMessage)
    case CleanUp =>
      s.(stored := false, loop := Returned, deletedBy := if s.stored then Some(ByLoop) else s.deletedBy)
    case Return => s.(loop := Returned)
    case CallFree(who) => SetFree(s, who, Called(s.types))
    case DeleteRow(who) =>
      if !s.stored then SetFree(s, who, Done)
      else
        var types := FreeOf(s, who).types;
        SetFree(s.(stored := false, deletedBy := Some(who), given := types), who,
                Submitting(if s.haveAuditLogs then types else []))
    case SubmitClose(who, ok) =>
      var rest := FreeOf(s, who).rest;
      if ok then SetFree(s.(log := s.log + [Close(rest[0])]), who, Submitting(rest[1..]))
      else SetFree(s.(failedCloses := s.failedCloses + 1), who, Done)
    case FinishFree(who) => SetFree(s, who, Done)
  }

  function Exec(s: State, steps: seq<Step>): Option<State> {
    if steps == [] then Some(s)
    else
      match Exec(s, steps[..|steps| - 1])
      case None => None
      case Some(t) => if Enabled(t, steps[|steps| - 1]) then Some(Apply(t, steps[|steps| - 1])) else None
  }

  // What every interleaving keeps true.

  function Opens(log: seq<Entry>): seq<SessionType> {
    if log == [] then []
    else
      var e := log[|log| - 1];
      Opens(log[..|log| - 1]) + if e.Open? then [e.sessionType] else []
  }

  function Closes(log: seq<Entry>): seq<SessionType> {
    if log == [] then []
    else
      var e := log[|log| - 1];
      Closes(log[..|log| - 1]) + if e.Close? then [e.sessionType] else []
  }

  predicate Distinct(ts: seq<SessionType>) {
    forall i, j | 0 <= i < j < |ts| :: ts[i] != ts[j]
  }

  /** At every point of the log, the closes so far are among the opens so far. */
  predicate ClosesFollowOpens(log: seq<Entry>) {
    forall k | 0 <= k <= |log| :: forall t | t in Closes(log[..k]) :: t in Opens(log[..k])
  }

  /** What holds of the limit handler and of the deferred free. */
  predicate FreeInv(s: State, who: Who) {
    match FreeOf(s, who)
    case NotCalled => s.deletedBy != Some(who)
    case Called(types) => s.deletedBy != Some(who) && types <= s.types && (who.ByDeferred? ==> types == s.types)
    case Submitting(rest) =>
      && s.deletedBy == Some(who) && s.failedCloses == 0
      && (if s.haveAuditLogs then Closes(s.log) + rest == s.given else rest == [])
    case Done =>
      && !s.stored
      && (s.deletedBy == Some(who) && s.haveAuditLogs ==> (s.failedCloses == 0 <==> Closes(s.log) == s.given))
  }

  predicate LoopInv(s: State) {
    && Distinct(s.types)
    && (s.loop.Logging? || s.loop.Logged? ==> s.loop.t !in s.types)
    && (s.loop.Logging? ==> s.haveAuditLogs)
    && (s.haveAuditLogs ==> Opens(s.log) == s.types + if s.loop.Logged? then [s.loop.t] else [])
    && (!s.haveAuditLogs ==> s.log == [] && s.failedOpens == s.failedCloses == 0)
    && (s.loop.CleaningUp? || s.deletedBy == Some(ByLoop) ==> s.failedOpens > 0)
    && (!s.deferred.NotCalled? ==> s.loop.Returned?)
  }

  predicate Inv(s: State) {
    && LoopInv(s)
    && s.given <= s.types && Closes(s.log) <= s.given
    && (s.deletedBy == Some(ByDeferred) ==> s.given == s.types)
    && (s.deletedBy == None || s.deletedBy == Some(ByLoop) ==> s.given == [] && s.failedCloses == 0)
    && (s.stored <==> s.deletedBy == None)
    && ClosesFollowOpens(s.log)
    && FreeInv(s, ByLimit) && FreeInv(s, ByDeferred)
  }

  lemma {:induction false} LogSnoc(log: seq<Entry>, e: Entry)
    requires ClosesFollowOpens(log)
    ensures Opens(log + [e]) == Opens(log) + if e.Open? then [e.sessionType] else []
    ensures Closes(log + [e]) == Closes(log) + if e.Close? then [e.sessionType] else []
    ensures e.Open? || e.sessionType in Opens(log) ==> ClosesFollowOpens(log + [e])
  {
    var all := log + [e];
    assert all[..|log|] == log && log[..|log|] == log;
    if e.Open? || e.sessionType in Opens(log) {
      forall k | 0 <= k <= |all|
        ensures forall t | t in Closes(all[..k]) :: t in Opens(all[..k])
      {
        if k <= |log| {
          assert all[..k] == log[..k];
        } else {
          assert all[..k] == all;
        }
      }
    }
  }

  lemma {:induction false} SubmitOpenKeepsInv(s: State, ok: bool)
    requires Inv(s) && Enabled(s, SubmitOpen(ok))
    ensures Inv(Apply(s, SubmitOpen(ok)))
  {
    if ok {
      LogSnoc(s.log, Open(s.loop.t));
    }
  }

  lemma {:induction false} NoteTypeKeepsInv(s: State)
    requires Inv(s) && Enabled(s, NoteType)
    ensures Inv(Apply(s, NoteType))
  {
    assert s.types <= s.types + [s.loop.t];
  }

  lemma {:induction false} LoopStepKeepsInv(s: State, step: Step)
    requires Inv(s) && Enabled(s, step)
    requires step.Message? || step.CleanUp? || step.Return?
    ensures Inv(Apply(s, step))
  {
  }

  lemma {:induction false} CallFreeKeepsInv(s: State, who: Who)
    requires Inv(s) && Enabled(s, CallFree(who))
    ensures Inv(Apply(s, CallFree(who)))
  {
  }

  lemma {:induction false} DeleteRowKeepsInv(s: State, who: Who)
    requires Inv(s) && Enabled(s, DeleteRow(who))
    ensures Inv(Apply(s, DeleteRow(who)))
  {
    var t, types := Apply(s, DeleteRow(who)), FreeOf(s, who).types;
    if s.stored {
      assert Closes(s.log) == [] && s.failedCloses == 0 && s.given == [];
      assert [] + types == types && t.given == types && t.deletedBy == Some(who);
    }
    assert LoopInv(t);
    assert FreeInv(t, who);
  }

  lemma {:induction false} FinishFreeKeepsInv(s: State, who: Who)
    requires Inv(s) && Enabled(s, FinishFree(who))
    ensures Inv(Apply(s, FinishFree(who)))
  {
    assert Closes(s.log) + [] == Closes(s.log);
  }

  lemma {:induction false} OneMoreClosed(closes: seq<SessionType>, rest: seq<SessionType>, given: seq<SessionType>,
                                         types: seq<SessionType>)
    requires closes + rest == given <= types && rest != []
    ensures (closes + [rest[0]]) + rest[1..] == given
    ensures closes + [rest[0]] <= given && |closes| < |given| && rest[0] in types
  {
    assert given[|closes|] == rest[0] == types[|closes|];
  }

  lemma {:induction false} CloseKeepsInv(s: State, who: Who)
    requires Inv(s) && Enabled(s, SubmitClose(who, true))
    ensures Inv(Apply(s, SubmitClose(who, true)))
  {
    var rest, t := FreeOf(s, who).rest, Apply(s, SubmitClose(who, true));
    assert s.haveAuditLogs && s.deletedBy == Some(who);
    CloseLogged(s, who);
    assert t == SetFree(s.(log := t.log), who, Submitting(rest[1..]));
    assert LoopInv(t);
    assert FreeInv(t, who);
    assert FreeInv(t, ByLimit) && FreeInv(t, ByDeferred);
  }

  lemma {:induction false} CloseLogged(s: State, who: Who)
    requires Inv(s) && Enabled(s, SubmitClose(who, true))
    ensures var rest, log := FreeOf(s, who).rest, Apply(s, SubmitClose(who, true)).log;
            && Opens(log) == Opens(s.log) && ClosesFollowOpens(log)
            && Closes(log) <= s.given && Closes(log) + rest[1..] == s.given
  {
    var rest := FreeOf(s, who).rest;
    assert s.haveAuditLogs;
    OneMoreClosed(Closes(s.log), rest, s.given, s.types);
    LogSnoc(s.log, Close(rest[0]));
    assert Opens(s.log) + [] == Opens(s.log);
  }

  lemma {:induction false} FailedCloseKeepsInv(s: State, who: Who)
    requires Inv(s) && Enabled(s, SubmitClose(who, false))
    ensures Inv(Apply(s, SubmitClose(who, false)))
  {
    assert s.haveAuditLogs;
    OneMoreClosed(Closes(s.log), FreeOf(s, who).rest, s.given, s.types);
  }

  lemma {:induction false} StepKeepsInv(s: State, step: Step)
    requires Inv(s) && Enabled(s, step)
    ensures Inv(Apply(s, step))
  {
    match step {
      case SubmitClose(who, ok) =>
        if ok {
          CloseKeepsInv(s, who);
        } else {
          FailedCloseKeepsInv(s, who);
        }
      case CallFree(who) => CallFreeKeepsInv(s, who);
      case DeleteRow(who) => DeleteRowKeepsInv(s, who);
      case FinishFree(who) => FinishFreeKeepsInv(s, who);
      case SubmitOpen(ok) => SubmitOpenKeepsInv(s, ok);
      case NoteType => NoteTypeKeepsInv(s);
      case _ => LoopStepKeepsInv(s, step);
    }
  }

  lemma {:induction false} EveryRunKeepsInv(haveAuditLogs: bool, steps: seq<Step>)
    requires Exec(Start(haveAuditLogs), steps).Some?
    ensures Inv(Exec(Start(haveAuditLogs), steps).value)
    ensures Exec(Start(haveAuditLogs), steps).value.haveAuditLogs == haveAuditLogs
    decreases |steps|
  {
    if steps != [] {
      var earlier, last := steps[..|steps| - 1], steps[|steps| - 1];
      EveryRunKeepsInv(haveAuditLogs, earlier);
      var s := Exec(Start(haveAuditLogs), earlier).value;
      StepKeepsInv(s, last);
      StepKeepsLogging(s, last);
    }
  }

  lemma {:induction false} StepKeepsLogging(s: State, step: Step)
    requires Enabled(s, step)
    ensures Apply(s, step).haveAuditLogs == s.haveAuditLogs
  {
  }

  /** Over all interleavings each session type has at most one open log and at most one close log,
      and never a close without an earlier open. */
  lemma {:induction false} AuditPairing(haveAuditLogs: bool, steps: seq<Step>)
    requires Exec(Start(haveAuditLogs), steps).Some?
    ensures var log := Exec(Start(haveAuditLogs), steps).value.log;
            Distinct(Opens(log)) && Distinct(Closes(log)) && ClosesFollowOpens(log)
  {
    EveryRunKeepsInv(haveAuditLogs, steps);
    var s := Exec(Start(haveAuditLogs), steps).value;
    assert Closes(s.log) <= s.types;
  }

  /** All three activities are over; the limit handler may never have started. */
  predicate Over(s: State) {
    s.loop.Returned? && s.deferred.Done? && (s.limit.NotCalled? || s.limit.Done?)
  }

  predicate Matched(log: seq<Entry>) {
    forall t: SessionType :: t in Opens(log) <==> t in Closes(log)
  }

  lemma {:induction false} PrefixMisses(closes: seq<SessionType>, types: seq<SessionType>)
    requires closes < types && Distinct(types)
    ensures exists t :: t in types && t !in closes
  {
    var t := types[|closes|];
    assert t in types && forall i | 0 <= i < |closes| :: closes[i] == types[i];
  }

  lemma {:induction false} PrefixWithAll(closes: seq<SessionType>, types: seq<SessionType>)
    requires closes <= types && Distinct(types)
    requires forall t | t in types :: t in closes
    ensures closes == types
  {
    if closes != types {
      PrefixMisses(closes, types);
    }
  }

  // The run itself, without reference to the state.

  /** Who deleted the session. */
  function Deleter(steps: seq<Step>): Option<Who> {
    if steps == [] then None
    else
      var earlier := Deleter(steps[..|steps| - 1]);
      if earlier.Some? then earlier
      else
        match steps[|steps| - 1]
        case DeleteRow(who) => Some(who)
        case CleanUp => Some(ByLoop)
        case _ => None
  }

  /** How many submissions of a close log failed. */
  function FailedCloses(steps: seq<Step>): nat {
    if steps == [] then 0
    else
      var last := steps[|steps| - 1];
      FailedCloses(steps[..|steps| - 1]) + if last.SubmitClose? && !last.ok then 1 else 0
  }

  /** How many session types were noted after `who` was told to free the session. */
  function NotedSince(steps: seq<Step>, who: Who): nat {
    if steps == [] || steps[|steps| - 1] == CallFree(who) then 0
    else NotedSince(steps[..|steps| - 1], who) + if steps[|steps| - 1].NoteType? then 1 else 0
  }

  predicate TypesSince(s: State, steps: seq<Step>, who: Who) {
    && (FreeOf(s, who).Called? ==> |s.types| == |FreeOf(s, who).types| + NotedSince(steps, who))
    && (s.deletedBy == Some(who) ==> |s.types| == |s.given| + NotedSince(steps, who))
  }

  /** What a step does to the types, to the free of `who` and to what was given to it. */
  lemma {:induction false} StepForFree(s: State, step: Step, who: Who)
    requires Enabled(s, step) && who != ByLoop
    ensures var t := Apply(s, step);
            && |t.types| == |s.types| + (if step.NoteType? then 1 else 0)
            && (FreeOf(t, who).Called? ==>
                  (step == CallFree(who) && FreeOf(t, who).types == s.types)
                  || (step != CallFree(who) && FreeOf(t, who) == FreeOf(s, who)))
            && (t.deletedBy == Some(who) ==>
                  (s.deletedBy == Some(who) && t.given == s.given)
                  || (step == DeleteRow(who) && FreeOf(s, who).Called? && t.given == FreeOf(s, who).types)
                  || s.stored != (s.deletedBy == None))
            && (step == CallFree(who) ==> FreeOf(s, who).NotCalled? && t.deletedBy == s.deletedBy)
  {
  }

  lemma {:induction false} TypesSinceStep(s: State, earlier: seq<Step>, step: Step, who: Who)
    requires Enabled(s, step) && who != ByLoop && TypesSince(s, earlier, who)
    requires (FreeOf(s, who).NotCalled? ==> s.deletedBy != Some(who)) && (s.stored <==> s.deletedBy == None)
    ensures TypesSince(Apply(s, step), earlier + [step], who)
  {
    var steps := earlier + [step];
    assert steps[..|steps| - 1] == earlier;
    StepForFree(s, step, who);
  }

  lemma {:induction false} DeleterStep(s: State, earlier: seq<Step>, step: Step)
    requires Enabled(s, step) && (s.stored <==> s.deletedBy == None) && s.deletedBy == Deleter(earlier)
    ensures Apply(s, step).deletedBy == Deleter(earlier + [step])
  {
    var steps := earlier + [step];
    assert steps[..|steps| - 1] == earlier;
    DeletedByStep(s, step);
  }

  lemma {:induction false} DeletedByStep(s: State, step: Step)
    requires Enabled(s, step) && (s.stored <==> s.deletedBy == None)
    ensures Apply(s, step).deletedBy ==
            if s.deletedBy.Some? then s.deletedBy
            else if step.DeleteRow? then Some(step.who)
            else if step.CleanUp? then Some(ByLoop)
            else None
  {
  }

  lemma {:induction false} FailedClosesStep(s: State, earlier: seq<Step>, step: Step)
    requires Enabled(s, step) && s.failedCloses == FailedCloses(earlier)
    ensures Apply(s, step).failedCloses == FailedCloses(earlier + [step])
  {
    var steps := earlier + [step];
    assert steps[..|steps| - 1] == earlier;
    FailedByStep(s, step);
  }

  lemma {:induction false} FailedByStep(s: State, step: Step)
    requires Enabled(s, step)
    ensures Apply(s, step).failedCloses == s.failedCloses + if step.SubmitClose? && !step.ok then 1 else 0
  {
  }

  lemma {:induction false} StateFollowsRun(haveAuditLogs: bool, steps: seq<Step>)
    requires Exec(Start(haveAuditLogs), steps).Some?
    ensures var s := Exec(Start(haveAuditLogs), steps).value;
            && s.deletedBy == Deleter(steps) && s.failedCloses == FailedCloses(steps)
            && TypesSince(s, steps, ByLimit) && TypesSince(s, steps, ByDeferred)
    decreases |steps|
  {
    if steps != [] {
      var earlier, last := steps[..|steps| - 1], steps[|steps| - 1];
      StateFollowsRun(haveAuditLogs, earlier);
      EveryRunKeepsInv(haveAuditLogs, earlier);
      var s := Exec(Start(haveAuditLogs), earlier).value;
      assert steps == earlier + [last];
      StateFollowsStep(s, earlier, last);
    }
  }

  lemma {:induction false} StateFollowsStep(s: State, earlier: seq<Step>, step: Step)
    requires Enabled(s, step) && (s.stored <==> s.deletedBy == None)
    requires s.limit.NotCalled? ==> s.deletedBy != Some(ByLimit)
    requires s.deferred.NotCalled? ==> s.deletedBy != Some(ByDeferred)
    requires s.deletedBy == Deleter(earlier) && s.failedCloses == FailedCloses(earlier)
    requires TypesSince(s, earlier, ByLimit) && TypesSince(s, earlier, ByDeferred)
    ensures var t, steps := Apply(s, step), earlier + [step];
            && t.deletedBy == Deleter(steps) && t.failedCloses == FailedCloses(steps)
            && TypesSince(t, steps, ByLimit) && TypesSince(t, steps, ByDeferred)
  {
    DeleterStep(s, earlier, step);
    FailedClosesStep(s, earlier, step);
    TypesSinceStep(s, earlier, step, ByLimit);
    TypesSinceStep(s, earlier, step, ByDeferred);
  }

  /** The session was freed in time: by a free, with no session type noted after that was called, and
      without a failed submission. */
  predicate FreedInTime(steps: seq<Step>) {
    var who := Deleter(steps);
    who.Some? && who.value != ByLoop && NotedSince(steps, who.value) == 0 && FailedCloses(steps) == 0
  }

  /** When a session is over, its opens and closes match exactly when nothing was opened or the session
      was freed in time. */
  lemma {:induction false} MatchedExactly(haveAuditLogs: bool, steps: seq<Step>)
    requires Exec(Start(haveAuditLogs), steps).Some?
    requires Over(Exec(Start(haveAuditLogs), steps).value)
    ensures var log := Exec(Start(haveAuditLogs), steps).value.log;
            Matched(log) <==> Opens(log) == [] || FreedInTime(steps)
  {
    EveryRunKeepsInv(haveAuditLogs, steps);
    StateFollowsRun(haveAuditLogs, steps);
    var s := Exec(Start(haveAuditLogs), steps).value;
    WhoDeleted(s);
    assert s.given == s.types <==> |s.given| == |s.types|;
    if haveAuditLogs && Matched(s.log) {
      assert forall t | t in s.types :: t in Opens(s.log);
      PrefixWithAll(Closes(s.log), s.types);
    }
  }

  /** When all is over, the activity that deleted the session has logged all it was given, unless a
      submission failed. */
  lemma {:induction false} WhoDeleted(s: State)
    requires Inv(s) && Over(s)
    ensures s.haveAuditLogs ==> Opens(s.log) == s.types
    ensures s.deletedBy == Some(ByLoop) || s.deletedBy == Some(ByLimit) || s.deletedBy == Some(ByDeferred)
    ensures s.deletedBy == Some(ByLoop) ==> Closes(s.log) == [] && s.given == []
    ensures s.haveAuditLogs && s.deletedBy != Some(ByLoop) ==> (s.failedCloses == 0 <==> Closes(s.log) == s.given)
    ensures s.deletedBy == Some(ByLimit) ==> s.limit.Done?
    ensures !s.haveAuditLogs ==> Opens(s.log) == Closes(s.log) == []
    ensures |Closes(s.log)| <= |s.given| <= |s.types|
  {
    assert s.types + [] == s.types;
    assert s.deletedBy.Some?;
    match s.deletedBy.value {
      case ByLoop =>
      case ByLimit =>
      case ByDeferred =>
    }
  }

  // A failed open.

  /** What a failed open leads to: the clean-up of the loop is due until it is done, and nothing opens. */
  predicate FailedOpenInv(s: State, steps: seq<Step>) {
    if SubmitOpen(false) !in steps then s.loop != CleaningUp && CleanUp !in steps
    else if CleanUp !in steps then s.loop == CleaningUp
    else s.loop == Returned && !s.stored
  }

  lemma {:induction false} FailedOpenStep(s: State, earlier: seq<Step>, step: Step)
    requires Enabled(s, step) && FailedOpenInv(s, earlier)
    ensures FailedOpenInv(Apply(s, step), earlier + [step])
    ensures step.SubmitOpen? || step.Message? || step.CleanUp? || step.NoteType? ==>
              SubmitOpen(false) in earlier ==> step == CleanUp && CleanUp !in earlier
  {
    var steps := earlier + [step];
    assert forall e :: e in steps <==> e in earlier || e == step;
  }

  lemma {:induction false} FailedOpenRun(haveAuditLogs: bool, steps: seq<Step>)
    requires Exec(Start(haveAuditLogs), steps).Some?
    ensures FailedOpenInv(Exec(Start(haveAuditLogs), steps).value, steps)
    decreases |steps|
  {
    if steps != [] {
      var earlier, last := steps[..|steps| - 1], steps[|steps| - 1];
      FailedOpenRun(haveAuditLogs, earlier);
      assert steps == earlier + [last];
      FailedOpenStep(Exec(Start(haveAuditLogs), earlier).value, earlier, last);
    }
  }

  lemma {:induction false} ExecPrefix(s: State, steps: seq<Step>, i: nat)
    requires Exec(s, steps).Some? && i < |steps|
    ensures Exec(s, steps[..i]).Some? && Enabled(Exec(s, steps[..i]).value, steps[i])
    decreases |steps|
  {
    var earlier := steps[..|steps| - 1];
    if i < |earlier| {
      ExecPrefix(s, earlier, i);
      assert earlier[..i] == steps[..i];
    }
  }

  /** A failed open ends the session: no other type opens or is noted after it, and when the loop has
      returned it has cleaned up and the row is gone. Only a failed open makes the loop clean up. */
  lemma {:induction false} FailedOpenEndsSession(haveAuditLogs: bool, steps: seq<Step>)
    requires Exec(Start(haveAuditLogs), steps).Some?
    ensures var s := Exec(Start(haveAuditLogs), steps).value;
            SubmitOpen(false) in steps && s.loop.Returned? ==> CleanUp in steps && !s.stored
    ensures CleanUp in steps ==> SubmitOpen(false) in steps
    ensures forall i, j | 0 <= i < j < |steps| && steps[i] == SubmitOpen(false) ::
              !steps[j].SubmitOpen? && !steps[j].Message? && !steps[j].NoteType?
  {
    FailedOpenRun(haveAuditLogs, steps);
    forall i, j | 0 <= i < j < |steps| && steps[i] == SubmitOpen(false)
      ensures !steps[j].SubmitOpen? && !steps[j].Message? && !steps[j].NoteType?
    {
      ExecPrefix(Start(haveAuditLogs), steps, j);
      FailedOpenRun(haveAuditLogs, steps[..j]);
      assert steps[..j][i] == SubmitOpen(false);
      FailedOpenStep(Exec(Start(haveAuditLogs), steps[..j]).value, steps[..j], steps[j]);
    }
  }

  predicate NoDeletionBefore(steps: seq<Step>, k: nat)
    requires k <= |steps|
  {
    forall i | 0 <= i < k :: !steps[i].DeleteRow? && steps[i] != CleanUp
  }

  /** The loop deletes the session exactly when its clean-up, after a failed open, comes before any free
      deletes it. */
  lemma {:induction false} LoopDeletesExactly(haveAuditLogs: bool, steps: seq<Step>)
    requires Exec(Start(haveAuditLogs), steps).Some?
    ensures Deleter(steps) == Some(ByLoop) <==>
            exists k :: 0 <= k < |steps| && steps[k] == CleanUp && NoDeletionBefore(steps, k)
                        && SubmitOpen(false) in steps[..k]
  {
    NoFreeByLoop(haveAuditLogs, steps);
    DeleterIsFirst(steps);
    forall k | 0 <= k < |steps| && steps[k] == CleanUp
      ensures SubmitOpen(false) in steps[..k]
    {
      ExecPrefix(Start(haveAuditLogs), steps, k);
      FailedOpenRun(haveAuditLogs, steps[..k]);
    }
  }

  lemma {:induction false} DeleterIsFirst(steps: seq<Step>)
    requires DeleteRow(ByLoop) !in steps
    ensures Deleter(steps) == None <==> NoDeletionBefore(steps, |steps|)
    ensures Deleter(steps) == Some(ByLoop) <==>
            exists k :: 0 <= k < |steps| && steps[k] == CleanUp && NoDeletionBefore(steps, k)
    decreases |steps|
  {
    if steps != [] {
      var n := |steps| - 1;
      var earlier := steps[..n];
      assert steps[n] in steps && forall s | s in earlier :: s in steps;
      DeleterIsFirst(earlier);
      assert NoDeletionBefore(steps, n) <==> NoDeletionBefore(earlier, n);
      if Deleter(earlier) == Some(ByLoop) {
        var k :| 0 <= k < n && earlier[k] == CleanUp && NoDeletionBefore(earlier, k);
        assert steps[k] == CleanUp && NoDeletionBefore(steps, k);
      } else if exists k :: 0 <= k < |steps| && steps[k] == CleanUp && NoDeletionBefore(steps, k) {
        var k :| 0 <= k < |steps| && steps[k] == CleanUp && NoDeletionBefore(steps, k);
        assert k < n ==> earlier[k] == CleanUp && NoDeletionBefore(earlier, k);
      }
    }
  }

  lemma {:induction false} NoFreeByLoop(haveAuditLogs: bool, steps: seq<Step>)
    requires Exec(Start(haveAuditLogs), steps).Some?
    ensures DeleteRow(ByLoop) !in steps
  {
    forall k | 0 <= k < |steps|
      ensures steps[k] != DeleteRow(ByLoop)
    {
      ExecPrefix(Start(haveAuditLogs), steps, k);
    }
  }

  /** If no submission fails and the limit handler does not run, everything opened is closed. */
  lemma {:induction false} QuietSessionMatches(haveAuditLogs: bool, steps: seq<Step>)
    requires Exec(Start(haveAuditLogs), steps).Some?
    requires var s := Exec(Start(haveAuditLogs), steps).value;
             Over(s) && s.failedOpens == s.failedCloses == 0 && s.limit.NotCalled?
    ensures Closes(Exec(Start(haveAuditLogs), steps).value.log) == Opens(Exec(Start(haveAuditLogs), steps).value.log)
  {
    EveryRunKeepsInv(haveAuditLogs, steps);
    WhoDeleted(Exec(Start(haveAuditLogs), steps).value);
  }

  // Every run ends.

  lemma {:induction false} TwoTypes(types: seq<SessionType>, t: SessionType)
    requires Distinct(types)
    ensures |types| <= 2
    ensures t !in types ==> |types| <= 1
  {
    assert |types| > 2 ==> types[0] != types[1] && types[0] != types[2] && types[1] != types[2];
    assert |types| == 2 ==> types[0] in types && types[1] in types && types[0] != types[1];
  }

  function LoopWeight(s: State): int {
    var left := 3 * (2 - |s.types|);
    match s.loop
    case AtMessage => left + 1
    case Logging(_) => left
    case Logged(_) => left - 1
    case CleaningUp => 1
    case Returned => 0
  }

  function FreeWeight(f: Free): nat {
    match f
    case NotCalled => 5
    case Called(types) => |types| + 2
    case Submitting(rest) => |rest| + 1
    case Done => 0
  }

  /** How many steps are left at most. */
  function Weight(s: State): int {
    LoopWeight(s) + FreeWeight(s.limit) + FreeWeight(s.deferred)
  }

  lemma {:induction false} LoopPays(s: State, step: Step)
    requires LoopInv(s) && Enabled(s, step)
    ensures var t := Apply(s, step);
            && 0 <= LoopWeight(t) <= LoopWeight(s)
            && (!step.CallFree? && !step.DeleteRow? && !step.SubmitClose? && !step.FinishFree? ==>
                  LoopWeight(t) < LoopWeight(s) && t.limit == s.limit && t.deferred == s.deferred)
  {
    var t := if step.Message? then step.t else if s.loop.Logging? || s.loop.Logged? then s.loop.t else Terminal;
    TwoTypes(s.types, t);
  }

  lemma {:induction false} FreePays(s: State, step: Step)
    requires |s.types| <= 2 && Enabled(s, step)
    requires step.CallFree? || step.DeleteRow? || step.SubmitClose? || step.FinishFree?
    ensures var t := Apply(s, step);
            FreeWeight(t.limit) + FreeWeight(t.deferred) < FreeWeight(s.limit) + FreeWeight(s.deferred)
  {
  }

  lemma {:induction false} RunsAreShort(haveAuditLogs: bool, steps: seq<Step>)
    requires Exec(Start(haveAuditLogs), steps).Some?
    ensures |steps| <= |steps| + Weight(Exec(Start(haveAuditLogs), steps).value) <= 17
    decreases |steps|
  {
    if steps != [] {
      var earlier, last := steps[..|steps| - 1], steps[|steps| - 1];
      RunsAreShort(haveAuditLogs, earlier);
      EveryRunKeepsInv(haveAuditLogs, earlier);
      var s := Exec(Start(haveAuditLogs), earlier).value;
      LoopPays(s, last);
      if last.CallFree? || last.DeleteRow? || last.SubmitClose? || last.FinishFree? {
        TwoTypes(s.types, Terminal);
        FreePays(s, last);
      }
    }
  }

  /** Every run takes at most 17 steps, and one that cannot be continued has ended all three activities and
      deleted the session: none of them waits for another one, except the deferred free for the loop. */
  lemma {:induction false} EveryRunEnds(haveAuditLogs: bool, steps: seq<Step>)
    requires Exec(Start(haveAuditLogs), steps).Some?
    ensures |steps| <= 17
    ensures var s := Exec(Start(haveAuditLogs), steps).value;
            (forall step: Step :: !Enabled(s, step)) ==> Over(s) && s.limit.Done? && !s.stored
    ensures var s := Exec(Start(haveAuditLogs), steps).value;
            !s.loop.Returned? ==> exists step: Step :: Enabled(s, step) && Apply(s, step).loop != s.loop
  {
    RunsAreShort(haveAuditLogs, steps);
    EveryRunKeepsInv(haveAuditLogs, steps);
    var s := Exec(Start(haveAuditLogs), steps).value;
    LoopMoves(s);
    if forall step: Step :: !Enabled(s, step) {
      FreeMoves(s, ByLimit);
      FreeMoves(s, ByDeferred);
    }
  }

  lemma {:induction false} LoopMoves(s: State)
    ensures !s.loop.Returned? ==> exists step: Step :: Enabled(s, step) && Apply(s, step).loop != s.loop
  {
    var step := match s.loop
      case AtMessage => Return
      case Logging(_) => SubmitOpen(true)
      case Logged(_) => NoteType
      case _ => CleanUp;
    assert !s.loop.Returned? ==> Enabled(s, step) && Apply(s, step).loop != s.loop;
  }

  lemma {:induction false} FreeMoves(s: State, who: Who)
    requires who == ByLimit || s.loop.Returned?
    ensures FreeOf(s, who).Done? || exists step: Step :: Enabled(s, step)
  {
    var step := match FreeOf(s, who)
      case NotCalled => CallFree(who)
      case Called(_) => DeleteRow(who)
      case Submitting(rest) => if rest == [] then FinishFree(who) else SubmitClose(who, true)
      case Done => Return;
    assert !FreeOf(s, who).Done? ==> Enabled(s, step);
  }

  // Early frees do leave opens without closes.

  lemma {:induction false} ExecSplit(s: State, a: seq<Step>, b: seq<Step>)
    requires Exec(s, a).Some?
    ensures Exec(s, a + b) == Exec(Exec(s, a).value, b)
    decreases |b|
  {
    if b == [] {
      assert a + b == a;
    } else {
      ExecSplit(s, a, b[..|b| - 1]);
      assert (a + b)[..|a + b| - 1] == a + b[..|b| - 1];
    }
  }

  lemma {:induction false} ExecOne(s: State, step: Step, rest: seq<Step>)
    requires Enabled(s, step)
    ensures Exec(s, [step] + rest) == Exec(Apply(s, step), rest)
  {
    assert [step][..0] == [];
    assert Exec(s, [step]) == Some(Apply(s, step));
    ExecSplit(s, [step], rest);
  }

  function Opening(t: SessionType): seq<Step> {
    [Message(t), SubmitOpen(true), NoteType]
  }

  const FreeingEarly := [CallFree(ByLimit), DeleteRow(ByLimit), SubmitClose(ByLimit, true), FinishFree(ByLimit)]

  const Leaving := [Return, CallFree(ByDeferred), DeleteRow(ByDeferred)]

  lemma {:induction false} OpensType(s: State, t: SessionType)
    requires s.loop.AtMessage? && s.haveAuditLogs && t !in s.types
    ensures Exec(s, Opening(t)) == Some(s.(types := s.types + [t], log := s.log + [Open(t)]))
  {
    var s1 := s.(loop := Logging(t));
    var s2 := s.(loop := Logged(t), log := s.log + [Open(t)]);
    ExecOne(s2, NoteType, []);
    ExecOne(s1, SubmitOpen(true), [NoteType]);
    ExecOne(s, Message(t), [SubmitOpen(true), NoteType]);
    assert [Message(t)] + [SubmitOpen(true), NoteType] == Opening(t);
  }

  const TerminalOpen := Start(true).(types := [Terminal], log := [Open(Terminal)])

  lemma {:induction false} TerminalOpens()
    ensures Exec(Start(true), Opening(Terminal)) == Some(TerminalOpen)
  {
    OpensType(Start(true), Terminal);
    assert [] + [Terminal] == TerminalOpen.types && [] + [Open(Terminal)] == TerminalOpen.log;
  }

  const FreedAfter := TerminalOpen.(stored := false, limit := Done, deletedBy := Some(ByLimit), given := [Terminal],
                                    log := [Open(Terminal), Close(Terminal)])

  lemma {:induction false} FreesEarly()
    ensures Exec(TerminalOpen, FreeingEarly) == Some(FreedAfter)
  {
    var s1 := Apply(TerminalOpen, CallFree(ByLimit));
    var s2 := Apply(s1, DeleteRow(ByLimit));
    var s3 := Apply(s2, SubmitClose(ByLimit, true));
    assert s3 == FreedAfter.(limit := Submitting([])) by {
      assert [Terminal][1..] == [] && [Open(Terminal)] + [Close(Terminal)] == FreedAfter.log;
    }
    ExecOne(s3, FinishFree(ByLimit), []);
    ExecOne(s2, SubmitClose(ByLimit, true), [FinishFree(ByLimit)]);
    ExecOne(s1, DeleteRow(ByLimit), [SubmitClose(ByLimit, true), FinishFree(ByLimit)]);
    ExecOne(TerminalOpen, CallFree(ByLimit), [DeleteRow(ByLimit), SubmitClose(ByLimit, true), FinishFree(ByLimit)]);
    assert [CallFree(ByLimit)] + [DeleteRow(ByLimit), SubmitClose(ByLimit, true), FinishFree(ByLimit)] == FreeingEarly;
    assert [SubmitClose(ByLimit, true)] + [FinishFree(ByLimit)] == [SubmitClose(ByLimit, true), FinishFree(ByLimit)];
    assert [FinishFree(ByLimit)] + [] == [FinishFree(ByLimit)];
    assert [DeleteRow(ByLimit)] + [SubmitClose(ByLimit, true), FinishFree(ByLimit)]
           == [DeleteRow(ByLimit), SubmitClose(ByLimit, true), FinishFree(ByLimit)];
  }

  lemma {:induction false} Leaves(s: State)
    requires s.loop.AtMessage? && s.deferred.NotCalled? && !s.stored
    ensures Exec(s, Leaving) == Some(s.(loop := Returned, deferred := Done))
  {
    var s1 := s.(loop := Returned);
    var s2 := s1.(deferred := Called(s.types));
    ExecOne(s2, DeleteRow(ByDeferred), []);
    ExecOne(s1, CallFree(ByDeferred), [DeleteRow(ByDeferred)]);
    ExecOne(s, Return, [CallFree(ByDeferred), DeleteRow(ByDeferred)]);
    assert [Return] + [CallFree(ByDeferred), DeleteRow(ByDeferred)] == Leaving;
  }

  /** A terminal opens and the limit handler frees the session; then port forwarding opens, and is never
      logged as closed although no submission failed. */
  lemma {:induction false} EarlyFreeLeavesOpen()
    ensures var steps := Opening(Terminal) + FreeingEarly + Opening(PortForward) + Leaving;
            var r := Exec(Start(true), steps);
            && r.Some? && Over(r.value) && r.value.failedOpens == r.value.failedCloses == 0
            && !Matched(r.value.log)
  {
    var both := FreedAfter.(types := [Terminal, PortForward], log := FreedAfter.log + [Open(PortForward)]);
    TerminalOpens();
    FreesEarly();
    OpensType(FreedAfter, PortForward);
    assert [Terminal] + [PortForward] == both.types;
    Leaves(both);
    ExecSplit(Start(true), Opening(Terminal), FreeingEarly);
    ExecSplit(Start(true), Opening(Terminal) + FreeingEarly, Opening(PortForward));
    ExecSplit(Start(true), Opening(Terminal) + FreeingEarly + Opening(PortForward), Leaving);
    LastOpenUnmatched([Open(Terminal), Close(Terminal)]);
  }

  lemma {:induction false} LastOpenUnmatched(log: seq<Entry>)
    requires PortForward !in Closes(log) && ClosesFollowOpens(log)
    ensures !Matched(log + [Open(PortForward)])
  {
    LogSnoc(log, Open(PortForward));
    assert PortForward in Opens(log + [Open(PortForward)]);
  }

  function FailingToOpen(t: SessionType): seq<Step> {
    [Message(t), SubmitOpen(false), CleanUp]
  }

  const LeavingAfterwards := [CallFree(ByDeferred), DeleteRow(ByDeferred)]

  lemma {:induction false} FailsToOpen(s: State, t: SessionType)
    requires s.loop.AtMessage? && s.haveAuditLogs && t !in s.types && s.stored
    ensures Exec(s, FailingToOpen(t)) ==
            Some(s.(loop := Returned, failedOpens := s.failedOpens + 1, stored := false, deletedBy := Some(ByLoop)))
  {
    var s1 := s.(loop := Logging(t));
    var s2 := s.(loop := CleaningUp, failedOpens := s.failedOpens + 1);
    ExecOne(s2, CleanUp, []);
    ExecOne(s1, SubmitOpen(false), [CleanUp]);
    ExecOne(s, Message(t), [SubmitOpen(false), CleanUp]);
    assert [Message(t)] + [SubmitOpen(false), CleanUp] == FailingToOpen(t);
  }

  lemma {:induction false} LeavesAfterwards(s: State)
    requires s.loop.Returned? && s.deferred.NotCalled? && !s.stored
    ensures Exec(s, LeavingAfterwards) == Some(s.(deferred := Done))
  {
    var s1 := s.(deferred := Called(s.types));
    ExecOne(s1, DeleteRow(ByDeferred), []);
    ExecOne(s, CallFree(ByDeferred), [DeleteRow(ByDeferred)]);
    assert [CallFree(ByDeferred)] + [DeleteRow(ByDeferred)] == LeavingAfterwards;
  }

  const AfterFailure := TerminalOpen.(loop := Returned, failedOpens := 1, stored := false, deletedBy := Some(ByLoop))

  lemma {:induction false} FailsAfterTerminal()
    ensures Exec(Start(true), Opening(Terminal) + FailingToOpen(PortForward)) == Some(AfterFailure)
  {
    TerminalOpens();
    FailsToOpen(TerminalOpen, PortForward);
    ExecSplit(Start(true), Opening(Terminal), FailingToOpen(PortForward));
  }

  /** A terminal is open, and opening port forwarding fails: the clean-up deletes the session, so the
      deferred free logs no close, and the terminal stays open in the log. */
  lemma {:induction false} FailedOpenLeavesOpen()
    ensures var r := Exec(Start(true), (Opening(Terminal) + FailingToOpen(PortForward)) + LeavingAfterwards);
            r.Some? && Over(r.value) && r.value.log == [Open(Terminal)] && !Matched(r.value.log)
  {
    FailsAfterTerminal();
    LeavesAfterwards(AfterFailure);
    ExecSplit(Start(true), Opening(Terminal) + FailingToOpen(PortForward), LeavingAfterwards);
    TerminalUnmatched();
  }

  lemma {:induction false} TerminalUnmatched()
    ensures !Matched([Open(Terminal)])
  {
    var log := [Open(Terminal)];
    assert log[..0] == [] && Opens(log) == [Terminal] && Closes(log) == [];
    assert Terminal in Opens(log);
  }

  // The runs without the limit handler, as the program makes them one after the other.

  function OpensOf(ts: seq<SessionType>): seq<Entry> {
    if ts == [] then [] else OpensOf(ts[..|ts| - 1]) + [Open(ts[|ts| - 1])]
  }

  function ClosesOf(ts: seq<SessionType>): seq<Entry> {
    if ts == [] then [] else ClosesOf(ts[..|ts| - 1]) + [Close(ts[|ts| - 1])]
  }

  /** A complete run that leaves this log and so many failures. */
  ghost predicate IsRun(haveAuditLogs: bool, log: seq<Entry>, failedOpens: nat, failedCloses: nat) {
    exists steps ::
      var r := Exec(Start(haveAuditLogs), steps);
      r.Some? && Over(r.value) && r.value.log == log
      && r.value.failedOpens == failedOpens && r.value.failedCloses == failedCloses
  }

  lemma {:induction false} OpensAll(ts: seq<SessionType>) returns (steps: seq<Step>)
    requires Distinct(ts)
    ensures Exec(Start(true), steps) == Some(Start(true).(types := ts, log := OpensOf(ts)))
    decreases |ts|
  {
    steps := [];
    if ts != [] {
      var init, t := ts[..|ts| - 1], ts[|ts| - 1];
      var earlier := OpensAll(init);
      assert init + [t] == ts;
      OpensType(Start(true).(types := init, log := OpensOf(init)), t);
      ExecSplit(Start(true), earlier, Opening(t));
      steps := earlier + Opening(t);
    }
  }

  lemma {:induction false} ClosesSome(s: State, k: nat) returns (steps: seq<Step>)
    requires s.deferred.Submitting? && k <= |s.deferred.rest|
    ensures var rest := s.deferred.rest;
            Exec(s, steps) == Some(s.(log := s.log + ClosesOf(rest[..k]), deferred := Submitting(rest[k..])))
    decreases k
  {
    var rest := s.deferred.rest;
    steps := [];
    if k == 0 {
      assert s.log + ClosesOf(rest[..0]) == s.log && rest[0..] == rest;
    } else {
      var earlier := ClosesSome(s, k - 1);
      var t := s.(log := s.log + ClosesOf(rest[..k - 1]), deferred := Submitting(rest[k - 1..]));
      var step := SubmitClose(ByDeferred, true);
      assert rest[..k][..k - 1] == rest[..k - 1] && rest[k - 1..][1..] == rest[k..];
      assert s.log + ClosesOf(rest[..k]) == t.log + [Close(rest[k - 1])];
      steps := earlier + [step];
      assert steps[..|steps| - 1] == earlier;
    }
  }

  lemma {:induction false} StepsOn(s: State, steps: seq<Step>, step: Step)
    requires Exec(s, steps).Some? && Enabled(Exec(s, steps).value, step)
    ensures Exec(s, steps + [step]) == Some(Apply(Exec(s, steps).value, step))
  {
    assert (steps + [step])[..|steps|] == steps;
  }

  /** The message loop opens `ts`, and then fails to open another type. */
  lemma {:induction false} FailingRun(ts: seq<SessionType>, failing: SessionType)
    requires Distinct(ts) && failing !in ts
    ensures IsRun(true, OpensOf(ts), 1, 0)
  {
    var steps := OpensAll(ts);
    var s := Start(true).(types := ts, log := OpensOf(ts));
    FailsToOpen(s, failing);
    ExecSplit(Start(true), steps, FailingToOpen(failing));
    var t := s.(loop := Returned, failedOpens := 1, stored := false, deletedBy := Some(ByLoop));
    LeavesAfterwards(t);
    ExecSplit(Start(true), steps + FailingToOpen(failing), LeavingAfterwards);
    assert Over(t.(deferred := Done));
    assert Exec(Start(true), steps + FailingToOpen(failing) + LeavingAfterwards) == Some(t.(deferred := Done));
  }

  function Freeing(ts: seq<SessionType>): State {
    Start(true).(types := ts, log := OpensOf(ts), loop := Returned, deferred := Submitting(ts), stored := false,
                 deletedBy := Some(ByDeferred), given := ts)
  }

  lemma {:induction false} FreesAll(ts: seq<SessionType>) returns (steps: seq<Step>)
    requires Distinct(ts)
    ensures Exec(Start(true), steps) == Some(Freeing(ts))
  {
    var opening := OpensAll(ts);
    StepsOn(Start(true), opening, Return);
    StepsOn(Start(true), opening + [Return], CallFree(ByDeferred));
    steps := opening + [Return] + [CallFree(ByDeferred)];
    StepsOn(Start(true), steps, DeleteRow(ByDeferred));
    steps := steps + [DeleteRow(ByDeferred)];
  }

  /** The message loop opens `ts`, and the deferred free closes the first `closed`, all of them unless the
      next submission fails. */
  lemma {:induction false} ClosingRun(ts: seq<SessionType>, closed: nat)
    requires Distinct(ts) && closed <= |ts|
    ensures IsRun(true, OpensOf(ts) + ClosesOf(ts[..closed]), 0, if closed < |ts| then 1 else 0)
  {
    var freeing := FreesAll(ts);
    var closing := ClosesSome(Freeing(ts), closed);
    ExecSplit(Start(true), freeing, closing);
    var last := if closed < |ts| then SubmitClose(ByDeferred, false) else FinishFree(ByDeferred);
    StepsOn(Start(true), freeing + closing, last);
    assert Over(Exec(Start(true), freeing + closing + [last]).value);
  }
}
