/** How the control messages of a session are stored: the two goroutines of module Session share one
    buffered control recorder, and each of them flushes it when it ends. */
module ControlStore {
  import opened Bytes
  import opened Control
  import opened ControlReader
  import opened Recorder
  import opened Session
  import Gzip

  /** The control recorder holds exactly the encoded control messages. */
  predicate Stored(s: State) {
    && Sound(s.controlBuffer)
    && Contents(s.controlBuffer) == EncodeAll(s.controls)
    && forall c | c in s.controls :: LengthOf(c.kind) > 0
  }

  /** The state right after the first of the two goroutines ended. */
  function FirstEnd(start: int, events: seq<Event>): Option<State> {
    if events == [] then None
    else
      var earlier, s := FirstEnd(start, events[..|events| - 1]), Run(start, events);
      if earlier.Some? then earlier else if s.running && s.looping then None else Some(s)
  }

  /** The control messages fit in one buffer, and all of them were recorded on one side of the first
      end. */
  predicate OneRecord(controls: seq<Value>, first: Option<State>) {
    && |EncodeAll(controls)| <= RECORDER_BUFFER_SIZE
    && (first.Some? ==> first.value.controls == [] || first.value.controls == controls)
  }

  /** What a buffer holds after `n` bytes in small writes since it was flushed, with `base` records. */
  predicate SinceFlush(b: Buffered, base: nat, n: int) {
    if n <= RECORDER_BUFFER_SIZE then |b.stored| == base && |b.pending| == n
    else |b.stored| > base && b.pending != []
  }

  lemma {:induction false} WriteSince(b: Buffered, base: nat, n: int, p: seq<byte>)
    requires Sound(b) && SinceFlush(b, base, n) && 0 < |p| <= RECORDER_BUFFER_SIZE
    ensures SinceFlush(Written(b, p), base, n + |p|)
  {
    SmallWrite(b, p);
  }

  lemma {:induction false} FlushSince(b: Buffered, base: nat, n: int)
    requires SinceFlush(b, base, n) && n >= 0
    ensures |Flushed(b).stored| == base <==> n == 0
    ensures |Flushed(b).stored| <= base + 1 <==> n <= RECORDER_BUFFER_SIZE
    ensures |Flushed(b).stored| >= base
  {
  }

  /** What the first end left: nothing if there was nothing, one record if it fitted. */
  predicate FlushedFirst(e: State) {
    && e.controlBuffer.pending == []
    && (|e.controlBuffer.stored| == 0 <==> |EncodeAll(e.controls)| == 0)
    && (|e.controlBuffer.stored| <= 1 <==> |EncodeAll(e.controls)| <= RECORDER_BUFFER_SIZE)
  }

  function EncodedSince(s: State, e: State): int {
    |EncodeAll(s.controls)| - |EncodeAll(e.controls)|
  }

  predicate Counted(s: State, first: Option<State>) {
    match first
    case None => s.running && s.looping && SinceFlush(s.controlBuffer, 0, |EncodeAll(s.controls)|)
    case Some(e) =>
      && !(s.running && s.looping)
      && e.controls <= s.controls && FlushedFirst(e)
      && if s.running || s.looping
         then SinceFlush(s.controlBuffer, |e.controlBuffer.stored|, EncodedSince(s, e))
         else s.controlBuffer.pending == [] && (|s.controlBuffer.stored| <= 1 <==> OneRecord(s.controls, first))
  }

  /** `t` follows `s` by recording at most one control message. */
  predicate RecordsOne(s: State, t: State) {
    && t.running == s.running && t.looping == s.looping
    && ((t.controls == s.controls && t.controlBuffer == s.controlBuffer)
        || (|t.controls| > |s.controls| && t.controls == s.controls + [t.controls[|s.controls|]]
            && LengthOf(t.controls[|s.controls|].kind) > 0
            && t.controlBuffer == Written(s.controlBuffer, Encode(t.controls[|s.controls|]))))
  }

  /** `t` follows `s` by the end of a goroutine. */
  predicate EndsOne(s: State, t: State) {
    && t.controls == s.controls && t.controlBuffer == Flushed(s.controlBuffer)
    && ((s.running && t == EndWriter(s)) || (s.looping && t == EndLoop(s)))
  }

  lemma {:induction false} RecordsOneStored(s: State, t: State)
    requires Stored(s) && RecordsOne(s, t)
    ensures Stored(t)
  {
    if t.controls != s.controls {
      var c := t.controls[|s.controls|];
      EncodeSnoc(s.controls, c);
      WriteKeepsContents(s.controlBuffer, Encode(c));
    }
  }

  lemma {:induction false} RecordsOneCounted(s: State, t: State, first: Option<State>)
    requires Stored(s) && Counted(s, first) && RecordsOne(s, t) && (s.running || s.looping)
    ensures Counted(t, first)
  {
    if t.controls != s.controls {
      var c := t.controls[|s.controls|];
      EncodeSnoc(s.controls, c);
      var base := if first.None? then 0 else |first.value.controlBuffer.stored|;
      var n := |EncodeAll(s.controls)| - if first.None? then 0 else |EncodeAll(first.value.controls)|;
      WriteSince(s.controlBuffer, base, n, Encode(c));
    }
  }

  lemma {:induction false} NothingEncoded(cs: seq<Value>)
    requires forall c | c in cs :: LengthOf(c.kind) > 0
    ensures EncodeAll(cs) == [] <==> cs == []
  {
    if cs != [] {
      assert cs[0] in cs;
    }
  }

  lemma {:induction false} EncodedPart(part: seq<Value>, cs: seq<Value>)
    requires part <= cs && forall c | c in cs :: LengthOf(c.kind) > 0
    ensures |EncodeAll(part)| <= |EncodeAll(cs)|
    ensures |EncodeAll(part)| == |EncodeAll(cs)| <==> part == cs
    ensures |EncodeAll(part)| == 0 <==> part == []
  {
    var rest := cs[|part|..];
    assert cs == part + rest && forall c | c in part || c in rest :: c in cs;
    EncodeSplit(part, rest);
    NothingEncoded(part);
    NothingEncoded(rest);
  }

  lemma {:induction false} EndsOneCounted(s: State, t: State, first: Option<State>)
    requires Stored(s) && Counted(s, first) && EndsOne(s, t)
    ensures Stored(t)
    ensures Counted(t, if first.None? then Some(t) else first)
  {
    FlushKeepsContents(s.controlBuffer);
    match first {
      case None => FlushSince(s.controlBuffer, 0, |EncodeAll(s.controls)|);
      case Some(e) =>
        EncodedPart(e.controls, s.controls);
        FlushSince(s.controlBuffer, |e.controlBuffer.stored|, EncodedSince(s, e));
    }
  }

  lemma {:induction false} DeviceCounted(s: State, msg: DeviceMessage, now: int, sent: bool, first: Option<State>)
    requires Stored(s) && Counted(s, first) && s.running
    ensures var t := HandleDevice(s, msg, now, sent);
            Stored(t) && Counted(t, if first.None? && !t.running then Some(t) else first)
  {
    var t := Note(s, msg, now);
    NoteRecordsOne(s, msg, now);
    RecordsOneStored(s, t);
    RecordsOneCounted(s, t, first);
    if !t.sessOverLimit && !sent {
      EndsOneCounted(t, EndWriter(t), first);
    } else {
      RecordsOneStored(t, Forward(t, msg, sent));
      RecordsOneCounted(t, Forward(t, msg, sent), first);
    }
  }

  /** One step records at most one control message and then ends at most one goroutine. */
  lemma {:induction false} StepCounted(s: State, e: Event, first: Option<State>)
    requires Stored(s) && Counted(s, first)
    ensures var t := Step(s, e);
            Stored(t) && Counted(t, if first.None? && !(t.running && t.looping) then Some(t) else first)
  {
    match e {
      case FromDevice(msg, now, sent) =>
        if s.running {
          DeviceCounted(s, msg, now, sent, first);
        }
      case WriterEnds =>
        if s.running {
          EndsOneCounted(s, EndWriter(s), first);
        }
      case UserResize(hasHeight, hasWidth) =>
        if s.looping {
          var t := HandleResize(s, hasHeight, hasWidth);
          ResizeRecordsOne(s, hasHeight, hasWidth);
          RecordsOneStored(s, t);
          RecordsOneCounted(s, t, first);
        }
      case UserLeaves =>
        if s.looping {
          EndsOneCounted(s, EndLoop(s), first);
        }
    }
  }

  lemma {:induction false} NoteRecordsOne(s: State, msg: DeviceMessage, now: int)
    ensures RecordsOne(s, Note(s, msg, now))
  {
  }

  lemma {:induction false} ResizeRecordsOne(s: State, hasHeight: bool, hasWidth: bool)
    ensures RecordsOne(s, HandleResize(s, hasHeight, hasWidth))
  {
  }

  lemma {:induction false} RunCounted(start: int, events: seq<Event>)
    ensures Stored(Run(start, events)) && Counted(Run(start, events), FirstEnd(start, events))
    decreases |events|
  {
    if events != [] {
      var earlier := events[..|events| - 1];
      RunCounted(start, earlier);
      StepCounted(Run(start, earlier), events[|events| - 1], FirstEnd(start, earlier));
    }
  }

  /** When both goroutines have ended, the control records hold exactly the encoded control messages,
      and there is at most one of them exactly when the messages fit in one buffer and none was recorded
      on the other side of the first end. */
  lemma {:induction false} ControlRecords(start: int, events: seq<Event>)
    ensures var s := Run(start, events);
            var records := Ended(s).controlBuffer.stored;
            && Gzip.Plain(records) == EncodeAll(s.controls)
            && (forall r | r in records :: r.plain != [])
            && (|records| <= 1 <==> OneRecord(s.controls, FirstEnd(start, events)))
  {
    var s, first := Run(start, events), FirstEnd(start, events);
    RunCounted(start, events);
    FlushKeepsContents(s.controlBuffer);
    match first {
      case None => FlushSince(s.controlBuffer, 0, |EncodeAll(s.controls)|);
      case Some(e) =>
        if s.running || s.looping {
          EncodedPart(e.controls, s.controls);
          FlushSince(s.controlBuffer, |e.controlBuffer.stored|, EncodedSince(s, e));
        }
    }
  }
}
