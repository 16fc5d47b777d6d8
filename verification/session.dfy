/** A terminal session: what is recorded, what is forwarded and where the byte limit cuts it, in
    api/http/management.go (`websocketWriter`, `recordSession`, `handleSessLimit`,
    `connectServeWSProcessMessages`, `sendResizeMessage`) and app/limits.go. */
module Session {
  import opened Bytes
  import opened Control
  import opened ControlReader
  import opened Recorder
  import Playback

  const MESSAGE_SIZE_LIMIT := 8 * 1024 * 1024
  const KEYSTROKE_DELAY_THRESHOLD_NS := 1500 * 1_000_000
  const KEYSTROKE_MAX_DELAY_NS := 65535 * 1_000_000

  /** A message of the device. */
  datatype DeviceMessage = ShellCommand(body: seq<byte>) | StopShell | OtherShell | NotShell

  /** What the two goroutines of a session meet: a message of the device with the time it is handled and
      whether the user's connection takes it; another end of the writer (a malformed message, a timeout,
      a cancelled context); a resize message of the user with the size fields it has; the end of the
      user's messages. */
  datatype Event =
    | FromDevice(msg: DeviceMessage, now: int, sent: bool)
    | WriterEnds
    | UserResize(hasHeight: bool, hasWidth: bool)
    | UserLeaves

  /** The two goroutines of a session. `recorded` and `controls` are what went to the recorders, and
      `controlBuffer` is the state of the control recorder, which they share and both flush when they
      end. */
  datatype State = State(
    recorded: seq<byte>,
    controls: seq<Value>,
    recordedBytes: nat,
    controlBytes: nat,
    bytesRecorded: nat,
    lastKeystrokeAt: int,
    sessOverLimit: bool,
    sessOverLimitHandled: bool,
    forwarded: seq<DeviceMessage>,
    deviceStops: nat,
    frees: nat,
    running: bool,
    looping: bool,
    resizeBytes: nat,
    ignoreControlMessages: bool,
    controlBuffer: Buffered)

  function Start(now: int): State {
    State([], [], 0, 0, 0, now, false, false, [], 0, 0, true, true, 0, false, Empty)
  }

  predicate Delayed(last: int, now: int) {
    now - last >= KEYSTROKE_DELAY_THRESHOLD_NS
  }

  function DelayMs(delay: int): (ms: uint16)
    requires delay >= KEYSTROKE_DELAY_THRESHOLD_NS
    ensures 1500 <= ms <= 65535
    ensures if delay <= 65535 * 1_000_000 then 1_000_000 * ms <= delay < 1_000_000 * (ms + 1) else ms == 65535
  {
    (if delay > KEYSTROKE_MAX_DELAY_NS then KEYSTROKE_MAX_DELAY_NS else delay) / 1_000_000
  }

  /** Control messages are recorded in their binary form. */
  function AddControl(s: State, c: Value): State {
    s.(controls := s.controls + [c], controlBuffer := Written(s.controlBuffer, Encode(c)))
  }

  function AddDelay(s: State, delay: int): State
    requires delay >= KEYSTROKE_DELAY_THRESHOLD_NS
  {
    AddControl(s, Value(DELAY_MESSAGE, s.recordedBytes, DelayMs(delay), 0, 0))
      .(controlBytes := s.controlBytes + DELAY_LENGTH)
  }

  /** `recordSession`. */
  function Record(s: State, body: seq<byte>, now: int): State {
    var t := if Delayed(s.lastKeystrokeAt, now) then AddDelay(s, now - s.lastKeystrokeAt) else s;
    t.(recorded := s.recorded + body,
       lastKeystrokeAt := now,
       recordedBytes := s.recordedBytes + |body|,
       bytesRecorded := s.recordedBytes + |body|)
  }

  /** `handleSessLimit`: tells the device to stop and frees the session, once. */
  function HandleLimit(s: State): State {
    if s.sessOverLimitHandled then s
    else s.(sessOverLimitHandled := true, deviceStops := s.deviceStops + 1, frees := s.frees + 1)
  }

  /** A message is looked at before it is forwarded: a shell command is recorded or over the limit. */
  function Note(s: State, msg: DeviceMessage, now: int): State {
    if !msg.ShellCommand? then s
    else if s.recordedBytes >= MESSAGE_SIZE_LIMIT || s.controlBytes >= MESSAGE_SIZE_LIMIT
    then HandleLimit(s.(sessOverLimit := true))
    else Record(s, msg.body, now)
  }

  function EndWriter(s: State): State {
    s.(running := false, controlBuffer := Flushed(s.controlBuffer))
  }

  function EndLoop(s: State): State {
    s.(looping := false, controlBuffer := Flushed(s.controlBuffer))
  }

  /** When both goroutines have ended. */
  function Ended(s: State): State {
    EndLoop(EndWriter(s))
  }

  /** Over the limit nothing is forwarded; a failed write ends the writer. */
  function Forward(s: State, msg: DeviceMessage, sent: bool): State {
    if s.sessOverLimit then s
    else if sent then s.(forwarded := s.forwarded + [msg])
    else EndWriter(s)
  }

  function HandleDevice(s: State, msg: DeviceMessage, now: int, sent: bool): State {
    Forward(Note(s, msg, now), msg, sent)
  }

  /** A resize is recorded only if it lacks both size fields, and then its size is 0 by 0. */
  function HandleResize(s: State, hasHeight: bool, hasWidth: bool): State {
    if s.ignoreControlMessages then s
    else if s.resizeBytes >= MESSAGE_SIZE_LIMIT then s.(ignoreControlMessages := true)
    else if hasHeight || hasWidth then s
    else AddControl(s, Value(RESIZE_MESSAGE, s.bytesRecorded, 0, 0, 0)).(resizeBytes := s.resizeBytes + RESIZE_LENGTH)
  }

  function Step(s: State, e: Event): State {
    match e
    case FromDevice(msg, now, sent) => if s.running then HandleDevice(s, msg, now, sent) else s
    case WriterEnds => if s.running then EndWriter(s) else s
    case UserResize(hasHeight, hasWidth) => if s.looping then HandleResize(s, hasHeight, hasWidth) else s
    case UserLeaves => if s.looping then EndLoop(s) else s
  }

  function Run(start: int, events: seq<Event>): State {
    if events == [] then Start(start)
    else Step(Run(start, events[..|events| - 1]), events[|events| - 1])
  }

  lemma {:induction false} RunSnoc(start: int, events: seq<Event>, e: Event)
    ensures Run(start, events + [e]) == Step(Run(start, events), e)
  {
    assert (events + [e])[..|events|] == events;
  }

  lemma {:induction false} RunNext(start: int, events: seq<Event>, i: nat)
    requires i < |events|
    ensures Run(start, events[..i + 1]) == Step(Run(start, events[..i]), events[i])
    ensures events[..|events|] == events
  {
    assert events[..i + 1] == events[..i] + [events[i]];
    RunSnoc(start, events[..i], events[i]);
  }

  // What is recorded.

  predicate DelayOrZeroResize(c: Value) {
    || (c.kind == DELAY_MESSAGE && 1500 <= c.delayMs && c.width == c.height == 0)
    || (c.kind == RESIZE_MESSAGE && c.delayMs == 0 && c.width == c.height == 0)
  }

  predicate RecorderInv(s: State) {
    && s.recordedBytes == s.bytesRecorded == |s.recorded|
    && Playback.Ordered(s.controls)
    && (forall c | c in s.controls :: DelayOrZeroResize(c) && 0 <= c.offset <= |s.recorded|)
    && (forall c | c in s.controls && c.kind == DELAY_MESSAGE :: c.offset < MESSAGE_SIZE_LIMIT)
  }

  lemma {:induction false} ControlKeepsInv(s: State, t: State, c: Value)
    requires RecorderInv(s) && t.controls == s.controls + [c]
    requires t.recordedBytes == t.bytesRecorded == |t.recorded| >= |s.recorded| == c.offset
    requires DelayOrZeroResize(c) && (c.kind == DELAY_MESSAGE ==> c.offset < MESSAGE_SIZE_LIMIT)
    ensures RecorderInv(t)
  {
    forall i, j | 0 <= i < j < |t.controls|
      ensures t.controls[i].offset <= t.controls[j].offset
    {
      assert s.controls[i] in s.controls;
    }
  }

  lemma {:induction false} RecordKeepsInv(s: State, body: seq<byte>, now: int)
    requires RecorderInv(s) && s.recordedBytes < MESSAGE_SIZE_LIMIT
    ensures RecorderInv(Record(s, body, now))
  {
    var t := Record(s, body, now);
    if Delayed(s.lastKeystrokeAt, now) {
      ControlKeepsInv(s, t, t.controls[|s.controls|]);
    }
  }

  lemma {:induction false} NoteKeepsInv(s: State, msg: DeviceMessage, now: int)
    requires RecorderInv(s)
    ensures RecorderInv(Note(s, msg, now))
  {
    if msg.ShellCommand? && s.recordedBytes < MESSAGE_SIZE_LIMIT {
      RecordKeepsInv(s, msg.body, now);
    }
  }

  lemma {:induction false} DeviceKeepsInv(s: State, msg: DeviceMessage, now: int, sent: bool)
    requires RecorderInv(s)
    ensures RecorderInv(HandleDevice(s, msg, now, sent))
  {
    NoteKeepsInv(s, msg, now);
    var t := Note(s, msg, now);
    assert Forward(t, msg, sent).controls == t.controls;
  }

  lemma {:induction false} ResizeKeepsInv(s: State, hasHeight: bool, hasWidth: bool)
    requires RecorderInv(s)
    ensures RecorderInv(HandleResize(s, hasHeight, hasWidth))
  {
    var t := HandleResize(s, hasHeight, hasWidth);
    if |t.controls| > |s.controls| {
      ControlKeepsInv(s, t, t.controls[|s.controls|]);
    }
  }

  /** The control messages of every run have nondecreasing offsets that never pass the bytes recorded
      so far; delays fit in 16 bits and are at least the threshold; recorded sizes are always zero. */
  lemma {:induction false} RecorderKeepsInv(start: int, events: seq<Event>)
    ensures RecorderInv(Run(start, events))
    decreases |events|
  {
    if events != [] {
      var earlier, e := events[..|events| - 1], events[|events| - 1];
      RecorderKeepsInv(start, earlier);
      match e {
        case FromDevice(msg, now, sent) => DeviceKeepsInv(Run(start, earlier), msg, now, sent);
        case UserResize(hasHeight, hasWidth) => ResizeKeepsInv(Run(start, earlier), hasHeight, hasWidth);
        case _ =>
      }
    }
  }

  predicate BodiesAtMost(events: seq<Event>, bound: nat) {
    forall e | e in events && e.FromDevice? && e.msg.ShellCommand? :: |e.msg.body| <= bound
  }

  /** The limit is overrun by less than one message. */
  lemma {:induction false} RecordedBelow(start: int, events: seq<Event>, bound: nat)
    requires BodiesAtMost(events, bound)
    ensures |Run(start, events).recorded| < 8 * 1024 * 1024 + bound || |Run(start, events).recorded| == 0
    decreases |events|
  {
    RecorderKeepsInv(start, events);
    if events != [] {
      var earlier, e := events[..|events| - 1], events[|events| - 1];
      assert forall d | d in earlier :: d in events;
      RecordedBelow(start, earlier, bound);
      RecorderKeepsInv(start, earlier);
      assert e in events;
    }
  }

  /** With bodies of at most the limit every offset fits in 32 bits, so nothing is lost when control
      messages are encoded. */
  lemma {:induction false} RecordedCanonical(start: int, events: seq<Event>)
    requires BodiesAtMost(events, MESSAGE_SIZE_LIMIT)
    ensures AllCanonical(Run(start, events).controls)
  {
    RecorderKeepsInv(start, events);
    RecordedBelow(start, events, MESSAGE_SIZE_LIMIT);
  }

  // Where the limit cuts a session, without reference to the state.

  /** The bytes of the shell commands among the events. */
  function Shell(events: seq<Event>): seq<byte> {
    if events == [] then []
    else
      var e := events[|events| - 1];
      Shell(events[..|events| - 1]) + if e.FromDevice? && e.msg.ShellCommand? then e.msg.body else []
  }

  /** All messages of the device among the events. */
  function Messages(events: seq<Event>): seq<DeviceMessage> {
    if events == [] then []
    else
      var e := events[|events| - 1];
      Messages(events[..|events| - 1]) + if e.FromDevice? then [e.msg] else []
  }

  /** When the last shell command came. */
  function LastCommandAt(start: int, events: seq<Event>): int {
    if events == [] then start
    else
      var e := events[|events| - 1];
      if e.FromDevice? && e.msg.ShellCommand? then e.now else LastCommandAt(start, events[..|events| - 1])
  }

  /** How many shell commands came after a long pause. */
  function Pauses(start: int, events: seq<Event>): nat {
    if events == [] then 0
    else
      var earlier, e := events[..|events| - 1], events[|events| - 1];
      Pauses(start, earlier) +
      if e.FromDevice? && e.msg.ShellCommand? && Delayed(LastCommandAt(start, earlier), e.now) then 1 else 0
  }

  /** The user has not left. */
  predicate Looping(events: seq<Event>) {
    UserLeaves !in events
  }

  /** How many bytes the recorded resize messages take. */
  function ResizeBytes(events: seq<Event>): nat {
    if events == [] then 0
    else
      var earlier, e := events[..|events| - 1], events[|events| - 1];
      ResizeBytes(earlier) +
      if e.UserResize? && !e.hasHeight && !e.hasWidth && Looping(earlier) && ResizeBytes(earlier) < MESSAGE_SIZE_LIMIT
      then RESIZE_LENGTH else 0
  }

  /** The control messages the events give rise to: a delay before every shell command that comes after
      a long pause, and a resize for every resize message without sizes up to the limit, each at the
      number of bytes before it. */
  function Controls(start: int, events: seq<Event>): seq<Value> {
    if events == [] then []
    else
      var earlier, e := events[..|events| - 1], events[|events| - 1];
      Controls(start, earlier) +
      if e.FromDevice? && e.msg.ShellCommand? && Delayed(LastCommandAt(start, earlier), e.now) then
        [Value(DELAY_MESSAGE, |Shell(earlier)|, DelayMs(e.now - LastCommandAt(start, earlier)), 0, 0)]
      else if ResizeBytes(events) > ResizeBytes(earlier) then
        [Value(RESIZE_MESSAGE, |Shell(earlier)|, 0, 0, 0)]
      else []
  }

  predicate OfUser(e: Event) {
    e.UserResize? || e.UserLeaves?
  }

  /** What comes from the user among the events. */
  function UserEvents(events: seq<Event>): seq<Event> {
    if events == [] then []
    else
      var e := events[|events| - 1];
      UserEvents(events[..|events| - 1]) + if OfUser(e) then [e] else []
  }

  /** Event `i` is a shell command that comes when the limit is reached. */
  predicate OverLimitAt(start: int, events: seq<Event>, i: nat)
    requires i < |events|
  {
    && events[i].FromDevice? && events[i].msg.ShellCommand?
    && (|Shell(events[..i])| >= 8 * 1024 * 1024 || 7 * Pauses(start, events[..i]) >= 8 * 1024 * 1024)
  }

  /** Event `i` passes: it is within the limit, and the user's connection takes it. */
  predicate Passes(start: int, events: seq<Event>, i: nat)
    requires i < |events|
  {
    OfUser(events[i]) || (events[i].FromDevice? && !OverLimitAt(start, events, i) && events[i].sent)
  }

  /** What the recorders have when the events `counted` counted for them. */
  predicate Records(s: State, start: int, counted: seq<Event>) {
    && s.recorded == Shell(counted)
    && s.recordedBytes == s.bytesRecorded == |Shell(counted)|
    && s.controls == Controls(start, counted)
    && s.resizeBytes == ResizeBytes(counted)
    && (s.ignoreControlMessages ==> ResizeBytes(counted) >= MESSAGE_SIZE_LIMIT)
    && s.looping == Looping(counted)
  }

  lemma {:induction false} UserCounts(s: State, start: int, counted: seq<Event>, e: Event)
    requires Records(s, start, counted) && OfUser(e)
    ensures Records(Step(s, e), start, counted + [e])
    ensures var t := Step(s, e);
            t == s.(controls := t.controls, resizeBytes := t.resizeBytes, looping := t.looping,
                    ignoreControlMessages := t.ignoreControlMessages, controlBuffer := t.controlBuffer)
  {
    assert (counted + [e])[..|counted|] == counted;
    assert Shell(counted) + [] == Shell(counted) && Controls(start, counted) + [] == Controls(start, counted);
  }

  lemma {:induction false} CommandCounts(start: int, counted: seq<Event>, e: Event)
    requires e.FromDevice? && e.msg.ShellCommand?
    ensures var last, all := LastCommandAt(start, counted), counted + [e];
            && Shell(all) == Shell(counted) + e.msg.body
            && Controls(start, all) == Controls(start, counted) +
               (if Delayed(last, e.now) then [Value(DELAY_MESSAGE, |Shell(counted)|, DelayMs(e.now - last), 0, 0)]
                else [])
            && ResizeBytes(all) == ResizeBytes(counted) && Looping(all) == Looping(counted)
  {
    assert (counted + [e])[..|counted|] == counted;
  }

  lemma {:induction false} RecordCounts(s: State, start: int, counted: seq<Event>, e: Event)
    requires Records(s, start, counted) && e.FromDevice? && e.msg.ShellCommand?
    requires s.lastKeystrokeAt == LastCommandAt(start, counted)
    ensures Records(Record(s, e.msg.body, e.now), start, counted + [e])
  {
    CommandCounts(start, counted, e);
    var t := Record(s, e.msg.body, e.now);
    assert t.controls == Controls(start, counted + [e]) by {
      assert Controls(start, counted) + [] == Controls(start, counted);
    }
  }

  /** A message that is no shell command counts for neither recorder, nor does the end of the writer. */
  lemma {:induction false} OtherCounts(s: State, start: int, counted: seq<Event>, e: Event)
    requires Records(s, start, counted) && !OfUser(e) && (e.FromDevice? ==> !e.msg.ShellCommand?)
    ensures Records(s, start, counted + [e])
  {
    assert (counted + [e])[..|counted|] == counted;
    assert Shell(counted) + [] == Shell(counted) && Controls(start, counted) + [] == Controls(start, counted);
  }

  /** The state while everything passes. */
  predicate AllPassed(s: State, start: int, events: seq<Event>) {
    && s.running && !s.sessOverLimit && !s.sessOverLimitHandled
    && s.forwarded == Messages(events)
    && Records(s, start, events)
    && s.controlBytes == DELAY_LENGTH * Pauses(start, events)
    && s.lastKeystrokeAt == LastCommandAt(start, events)
    && s.deviceStops == s.frees == 0
  }

  lemma {:induction false} PassingStep(s: State, start: int, earlier: seq<Event>, e: Event)
    requires AllPassed(s, start, earlier)
    requires Passes(start, earlier + [e], |earlier|)
    ensures AllPassed(Step(s, e), start, earlier + [e])
  {
    assert (earlier + [e])[..|earlier|] == earlier;
    assert Messages(earlier) + [] == Messages(earlier);
    if OfUser(e) {
      UserCounts(s, start, earlier, e);
    } else if e.msg.ShellCommand? {
      RecordCounts(s, start, earlier, e);
    } else {
      OtherCounts(s, start, earlier, e);
    }
  }

  lemma {:induction false} WhileAllPasses(start: int, events: seq<Event>)
    requires forall i | 0 <= i < |events| :: Passes(start, events, i)
    ensures AllPassed(Run(start, events), start, events)
    decreases |events|
  {
    if events != [] {
      var n := |events| - 1;
      var earlier := events[..n];
      forall i | 0 <= i < n
        ensures Passes(start, earlier, i)
      {
        assert Passes(start, events, i) && earlier[..i] == events[..i];
      }
      WhileAllPasses(start, earlier);
      assert events == earlier + [events[n]];
      PassingStep(Run(start, earlier), start, earlier, events[n]);
    }
  }

  predicate IsCommand(e: Event) {
    e.FromDevice? && e.msg.ShellCommand?
  }

  /** The last shell command before event `i` came at `last`; without one, that is when the session
      started. */
  ghost predicate LastBefore(start: int, events: seq<Event>, i: nat, last: int)
    requires i <= |events|
  {
    || (last == start && forall k | 0 <= k < i :: !IsCommand(events[k]))
    || (exists j | 0 <= j < i :: IsCommand(events[j]) && events[j].now == last
                                 && forall k | j < k < i :: !IsCommand(events[k]))
  }

  lemma {:induction false} LastCommandFound(start: int, events: seq<Event>, i: nat, last: int)
    requires i <= |events| && LastBefore(start, events, i, last)
    ensures LastCommandAt(start, events[..i]) == last
    decreases i
  {
    if i > 0 {
      assert events[..i][..i - 1] == events[..i - 1];
      if !IsCommand(events[i - 1]) {
        LastCommandFound(start, events, i - 1, last);
      }
    }
  }

  /** A control message says that a pause of `d` nanoseconds came before the bytes at `offset`. */
  predicate TellsPause(c: Value, offset: nat, d: int) {
    && c == Value(2, offset, c.delayMs, 0, 0)
    && if d <= 65_535_000_000 then 1_000_000 * c.delayMs <= d < 1_000_000 * (c.delayMs + 1) else c.delayMs == 65535
  }

  lemma {:induction false} RecordLeaves(s: State, body: seq<byte>, now: int)
    requires s.recordedBytes == |s.recorded|
    ensures var t, d := Record(s, body, now), now - s.lastKeystrokeAt;
            && t.recorded == s.recorded + body && t.forwarded == s.forwarded && t.sessOverLimit == s.sessOverLimit
            && (d < 1_500_000_000 ==> t.controls == s.controls)
            && (d >= 1_500_000_000 ==>
                  && |t.controls| == |s.controls| + 1 && t.controls[..|s.controls|] == s.controls
                  && TellsPause(t.controls[|s.controls|], |s.recorded|, d))
  {
  }

  /** What a shell command leaves: its bytes, the message forwarded, and after a pause of a second and a
      half or more one control message that tells the pause. */
  lemma {:induction false} CommandRecorded(start: int, events: seq<Event>, i: nat, last: int)
    requires i < |events| && IsCommand(events[i]) && LastBefore(start, events, i, last)
    requires forall k | 0 <= k <= i :: Passes(start, events, k)
    ensures var s, t, d := Run(start, events[..i]), Run(start, events[..i + 1]), events[i].now - last;
            && t.recorded == s.recorded + events[i].msg.body && t.forwarded == s.forwarded + [events[i].msg]
            && (d < 1_500_000_000 ==> t.controls == s.controls)
            && (d >= 1_500_000_000 ==>
                  && |t.controls| == |s.controls| + 1 && t.controls[..|s.controls|] == s.controls
                  && TellsPause(t.controls[|s.controls|], |s.recorded|, d))
  {
    PassedUpTo(start, events, i);
    LastCommandFound(start, events, i, last);
    RunNext(start, events, i);
    var s := Run(start, events[..i]);
    RecordLeaves(s, events[i].msg.body, events[i].now);
    assert Passes(start, events, i);
    assert Run(start, events[..i + 1]) == Forward(Record(s, events[i].msg.body, events[i].now), events[i].msg, true);
  }

  lemma {:induction false} PassedUpTo(start: int, events: seq<Event>, i: nat)
    requires i <= |events| && forall k | 0 <= k < i :: Passes(start, events, k)
    ensures AllPassed(Run(start, events[..i]), start, events[..i])
    ensures i < |events| ==> (OverLimitAt(start, events, i) <==>
              IsCommand(events[i]) && (Run(start, events[..i]).recordedBytes >= MESSAGE_SIZE_LIMIT
                                       || Run(start, events[..i]).controlBytes >= MESSAGE_SIZE_LIMIT))
  {
    forall k | 0 <= k < i
      ensures Passes(start, events[..i], k)
    {
      assert Passes(start, events, k) && events[..i][..k] == events[..k];
    }
    WhileAllPasses(start, events[..i]);
  }

  /** What any message of the device that passes leaves: it is forwarded, and it is not recorded unless it
      is a shell command. */
  lemma {:induction false} MessageForwarded(start: int, events: seq<Event>, i: nat)
    requires i < |events| && events[i].FromDevice?
    requires forall k | 0 <= k <= i :: Passes(start, events, k)
    ensures var s, t := Run(start, events[..i]), Run(start, events[..i + 1]);
            && t.forwarded == s.forwarded + [events[i].msg]
            && t.recorded == s.recorded + (if events[i].msg.ShellCommand? then events[i].msg.body else [])
            && (!events[i].msg.ShellCommand? ==> t.controls == s.controls)
  {
    PassedUpTo(start, events, i);
    RunNext(start, events, i);
    assert Passes(start, events, i);
    assert Run(start, events[..i]).recorded + [] == Run(start, events[..i]).recorded;
  }

  /** What the run knows of the resizes, whatever else happened. */
  predicate ResizesCounted(s: State, events: seq<Event>) {
    && s.looping == (UserLeaves !in events) && s.resizeBytes == ResizeBytes(events)
    && (s.ignoreControlMessages ==> s.resizeBytes >= MESSAGE_SIZE_LIMIT)
  }

  lemma {:induction false} DeviceLeavesResizes(s: State, e: Event)
    requires !OfUser(e)
    ensures var t := Step(s, e);
            && t.looping == s.looping && t.resizeBytes == s.resizeBytes
            && t.ignoreControlMessages == s.ignoreControlMessages
  {
    if e.FromDevice? {
      NoteLeavesResizes(s, e.msg, e.now);
    }
  }

  lemma {:induction false} NoteLeavesResizes(s: State, msg: DeviceMessage, now: int)
    ensures var t := Note(s, msg, now);
            && t.looping == s.looping && t.resizeBytes == s.resizeBytes
            && t.ignoreControlMessages == s.ignoreControlMessages
  {
  }

  lemma {:induction false} CountsResizes(start: int, events: seq<Event>)
    ensures ResizesCounted(Run(start, events), events)
    decreases |events|
  {
    if events != [] {
      var earlier, e := events[..|events| - 1], events[|events| - 1];
      assert events == earlier + [e];
      CountsResizes(start, earlier);
      if !OfUser(e) {
        DeviceLeavesResizes(Run(start, earlier), e);
      }
    }
  }

  /** What a resize of the user leaves in any run: a control message without sizes at the bytes recorded so
      far, if it has neither size, the user is still there and the limit is not reached; otherwise
      nothing. */
  lemma {:induction false} ResizeRecorded(start: int, events: seq<Event>, i: nat)
    requires i < |events| && events[i].UserResize?
    ensures var s, t := Run(start, events[..i]), Run(start, events[..i + 1]);
            && t.recorded == s.recorded && t.forwarded == s.forwarded
            && t.controls == s.controls +
               if events[i] == UserResize(false, false) && UserLeaves !in events[..i]
                  && ResizeBytes(events[..i]) < 8 * 1024 * 1024
               then [Value(1, |s.recorded|, 0, 0, 0)] else []
  {
    RecorderKeepsInv(start, events[..i]);
    CountsResizes(start, events[..i]);
    RunNext(start, events, i);
    var s := Run(start, events[..i]);
    assert s.controls + [] == s.controls;
  }

  /** What is fixed once the writer is over the limit or its connection failed. */
  predicate Cut(s: State, forwarded: seq<DeviceMessage>, over: bool) {
    && s.forwarded == forwarded
    && s.sessOverLimit == s.sessOverLimitHandled == over
    && s.deviceStops == s.frees == (if over then 1 else 0)
    && (over ==> s.recordedBytes >= MESSAGE_SIZE_LIMIT || s.controlBytes >= MESSAGE_SIZE_LIMIT)
    && (!over ==> !s.running)
  }

  lemma {:induction false} CutStep(s: State, start: int, counted: seq<Event>, e: Event,
                                   forwarded: seq<DeviceMessage>, over: bool)
    requires Cut(s, forwarded, over) && Records(s, start, counted)
    ensures Cut(Step(s, e), forwarded, over)
    ensures Records(Step(s, e), start, counted + if OfUser(e) then [e] else [])
  {
    if OfUser(e) {
      UserCounts(s, start, counted, e);
    } else {
      assert counted + [] == counted;
    }
  }

  lemma {:induction false} StaysCut(start: int, events: seq<Event>, n: nat, counted: seq<Event>,
                                    forwarded: seq<DeviceMessage>, over: bool)
    requires n <= |events| && Cut(Run(start, events[..n]), forwarded, over)
    requires Records(Run(start, events[..n]), start, counted)
    ensures Cut(Run(start, events), forwarded, over)
    ensures Records(Run(start, events), start, counted + UserEvents(events[n..]))
    decreases |events|
  {
    if n == |events| {
      assert events[..n] == events && counted + [] == counted;
    } else {
      var earlier, e := events[..|events| - 1], events[|events| - 1];
      assert earlier[..n] == events[..n] && events[n..][..|events[n..]| - 1] == earlier[n..];
      StaysCut(start, earlier, n, counted, forwarded, over);
      var more := if OfUser(e) then [e] else [];
      assert counted + UserEvents(events[n..]) == counted + UserEvents(earlier[n..]) + more;
      CutStep(Run(start, earlier), start, counted + UserEvents(earlier[n..]), e, forwarded, over);
    }
  }

  /** The session limit over whole runs. Let `n` be the first event that does not pass. Exactly the
      messages before it are forwarded. If it is a shell command over the limit, no shell command is
      recorded or forwarded from it on, the prepared error included, and the device is stopped and the
      session freed exactly once. Otherwise its connection failed or ended, and one more body may be recorded.
      Resize messages of the user keep being recorded until the user leaves, at the place where the
      recording was cut. */
  lemma {:induction false} LimitCutsAt(start: int, events: seq<Event>, n: nat)
    requires n < |events| && !Passes(start, events, n)
    requires forall i | 0 <= i < n :: Passes(start, events, i)
    ensures var s := Run(start, events);
            var cut := if OverLimitAt(start, events, n) then n else n + 1;
            && s.forwarded == Messages(events[..n])
            && s.sessOverLimit == OverLimitAt(start, events, n)
            && s.deviceStops == s.frees == (if s.sessOverLimit then 1 else 0)
            && s.recorded == Shell(events[..cut] + UserEvents(events[n + 1..])) == Shell(events[..cut])
            && s.controls == Controls(start, events[..cut] + UserEvents(events[n + 1..]))
  {
    var before := events[..n];
    forall i | 0 <= i < n
      ensures Passes(start, before, i)
    {
      assert before[..i] == events[..i] && Passes(start, events, i);
    }
    WhileAllPasses(start, before);
    var over := OverLimitAt(start, events, n);
    var counted := if over then before else before + [events[n]];
    CutHere(start, before, events[n]);
    assert events[..n + 1] == before + [events[n]];
    assert OverLimitAt(start, before + [events[n]], n) == over;
    StaysCut(start, events, n + 1, counted, Messages(before), over);
    ShellIgnoresUser(counted, events[n + 1..]);
  }

  lemma {:induction false} CutHere(start: int, before: seq<Event>, e: Event)
    requires AllPassed(Run(start, before), start, before)
    requires !Passes(start, before + [e], |before|)
    ensures var over := OverLimitAt(start, before + [e], |before|);
            && Cut(Run(start, before + [e]), Messages(before), over)
            && Records(Run(start, before + [e]), start, if over then before else before + [e])
  {
    var s := Run(start, before);
    RunSnoc(start, before, e);
    assert (before + [e])[..|before|] == before;
    if e.WriterEnds? || !e.msg.ShellCommand? {
      OtherCounts(s, start, before, e);
    } else if !OverLimitAt(start, before + [e], |before|) {
      RecordCounts(s, start, before, e);
    }
  }

  lemma {:induction false} ShellIgnoresUser(counted: seq<Event>, events: seq<Event>)
    ensures Shell(counted + UserEvents(events)) == Shell(counted)
    decreases |events|
  {
    if events == [] {
      assert counted + [] == counted;
    } else {
      var init, e := events[..|events| - 1], events[|events| - 1];
      ShellIgnoresUser(counted, init);
      if OfUser(e) {
        var all := counted + UserEvents(events);
        assert all == (counted + UserEvents(init)) + [e];
        assert Shell(all) == Shell(all[..|all| - 1]) + [] && all[..|all| - 1] == counted + UserEvents(init);
      } else {
        assert UserEvents(events) == UserEvents(init);
      }
    }
  }
}
