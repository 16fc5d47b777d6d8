/** The session of module Session as the source runs it: counters updated in place, buffered
    recorders, and a store. */
module Terminal {
  import opened Bytes
  import opened Control
  import opened Recorder
  import opened Session
  import Gzip

  function WithCounts(s: State, body: seq<byte>, now: int): State {
    var n := s.recordedBytes + |body|;
    s.(lastKeystrokeAt := now, recordedBytes := n, bytesRecorded := n)
  }

  /** The order in which `recordSession` does it. */
  lemma RecordInSteps(s: State, body: seq<byte>, now: int)
    ensures var r, delay := s.(recorded := s.recorded + body), now - s.lastKeystrokeAt;
            var t := if delay >= KEYSTROKE_DELAY_THRESHOLD_NS then AddDelay(r, delay) else r;
            Record(s, body, now) == WithCounts(t, body, now)
  {
  }

  class TerminalSession {
    const sessionID: string
    const recorder: BufferedRecorder
    const controlRecorder: BufferedRecorder
    var recordedBytes: nat
    var controlBytes: nat
    var bytesRecorded: nat
    var lastKeystrokeAt: int
    var sessOverLimit: bool
    var sessOverLimitHandled: bool
    var forwarded: seq<DeviceMessage>
    var deviceStops: nat
    var frees: nat
    var running: bool
    var looping: bool
    var resizeBytes: nat
    var ignoreControlMessages: bool
    ghost var controls: seq<Value>

    ghost function Footprint(): set<object> {
      {this, recorder, controlRecorder, recorder.collection, controlRecorder.collection}
    }

    ghost predicate Valid()
      reads Footprint()
    {
      && recorder != controlRecorder && recorder.collection != controlRecorder.collection
      && recorder.sessionID == controlRecorder.sessionID == sessionID
      && recorder.Valid() && controlRecorder.Valid()
    }

    ghost function View(): State
      reads this, recorder, controlRecorder, controlRecorder.collection
    {
      State(recorder.written, controls, recordedBytes, controlBytes, bytesRecorded, lastKeystrokeAt,
            sessOverLimit, sessOverLimitHandled, forwarded, deviceStops, frees, running, looping,
            resizeBytes, ignoreControlMessages, controlRecorder.View())
    }

    constructor (sessionID: string, recordings: Collection, controlData: Collection, now: int)
      requires sessionID != [] && recordings != controlData
      requires recordings.Records(sessionID) == [] && controlData.Records(sessionID) == []
      ensures Valid() && View() == Start(now)
      ensures recorder.collection == recordings && controlRecorder.collection == controlData
      ensures this.sessionID == sessionID && fresh(recorder) && fresh(controlRecorder)
    {
      this.sessionID := sessionID;
      recorder := new BufferedRecorder(sessionID, recordings);
      controlRecorder := new BufferedRecorder(sessionID, controlData);
      recordedBytes, controlBytes, bytesRecorded, lastKeystrokeAt := 0, 0, 0, now;
      sessOverLimit, sessOverLimitHandled, forwarded, deviceStops, frees := false, false, [], 0, 0;
      running, looping, resizeBytes, ignoreControlMessages := true, true, 0, false;
      controls := [];
    }

    /** Writes a control message to the control recorder and returns its length. */
    method WriteControl(kind: byte, offset: nat, delayMs: uint16, width: uint16, height: uint16) returns (n: nat)
      requires Valid() && LengthOf(kind) > 0
      modifies this`controls, controlRecorder, controlRecorder.collection
      ensures Valid()
      ensures n == LengthOf(kind)
      ensures var c := Value(kind, offset, delayMs, width, height);
              && controls == old(controls) + [c]
              && controlRecorder.View() == Written(old(controlRecorder.View()), Encode(c))
    {
      var controlMsg := new Control();
      controlMsg.kind, controlMsg.offset, controlMsg.delayMs := kind, offset, delayMs;
      controlMsg.width, controlMsg.height := width, height;
      ghost var c := controlMsg.View();
      var b := controlMsg.MarshalBinary();
      controlRecorder.Write(b[..]);
      controls := controls + [c];
      n := b.Length;
    }

    method RecordSession(body: seq<byte>, now: int)
      requires Valid()
      modifies Footprint()
      ensures Valid() && View() == Record(old(View()), body, now)
      ensures recorder.View() == Written(old(recorder.View()), body)
    {
      RecordInSteps(View(), body, now);
      WriteBody(body);
      var keystrokeDelay := now - lastKeystrokeAt;
      if keystrokeDelay >= KEYSTROKE_DELAY_THRESHOLD_NS {
        RecordDelay(keystrokeDelay);
      }
      Count(body, now);
    }

    method WriteBody(body: seq<byte>)
      requires Valid()
      modifies recorder, recorder.collection
      ensures Valid() && View() == old(View()).(recorded := old(View()).recorded + body)
      ensures recorder.View() == Written(old(recorder.View()), body)
    {
      recorder.Write(body);
    }

    /** The counters of the writer and, under its mutex, of the session. */
    method Count(body: seq<byte>, now: int)
      requires Valid()
      modifies this`lastKeystrokeAt, this`recordedBytes, this`bytesRecorded
      ensures Valid() && recorder.View() == old(recorder.View())
      ensures View() == WithCounts(old(View()), body, now)
    {
      lastKeystrokeAt := now;
      recordedBytes := recordedBytes + |body|;
      bytesRecorded := recordedBytes;
    }

    method RecordDelay(delay: int)
      requires Valid() && delay >= KEYSTROKE_DELAY_THRESHOLD_NS
      modifies this`controls, this`controlBytes, controlRecorder, controlRecorder.collection
      ensures Valid()
      ensures View() == AddDelay(old(View()), delay) && recorder.View() == old(recorder.View())
    {
      var keystrokeDelay := delay;
      if keystrokeDelay > KEYSTROKE_MAX_DELAY_NS {
        keystrokeDelay := KEYSTROKE_MAX_DELAY_NS;
      }
      var n := WriteControl(DELAY_MESSAGE, recordedBytes, keystrokeDelay / 1_000_000, 0, 0);
      controlBytes := controlBytes + n;
    }

    /** However often it is called, it stops the device and frees the session once. */
    method HandleSessLimit()
      modifies this`deviceStops, this`frees, this`sessOverLimitHandled
      ensures sessOverLimitHandled
      ensures deviceStops == old(deviceStops) + if old(sessOverLimitHandled) then 0 else 1
      ensures frees == old(frees) + if old(sessOverLimitHandled) then 0 else 1
    {
      if !sessOverLimitHandled {
        deviceStops := deviceStops + 1;
        frees := frees + 1;
        sessOverLimitHandled := true;
      }
    }

    method NoteMessage(msg: DeviceMessage, now: int)
      requires Valid()
      modifies Footprint()
      ensures Valid() && View() == Note(old(View()), msg, now)
      ensures msg == StopShell ==> recorder.View() == Flushed(old(recorder.View()))
    {
      match msg {
        case ShellCommand(body) =>
          if recordedBytes >= MESSAGE_SIZE_LIMIT || controlBytes >= MESSAGE_SIZE_LIMIT {
            sessOverLimit := true;
            HandleSessLimit();
          } else {
            RecordSession(body, now);
          }
        case StopShell =>
          recorder.Flush();
        case _ =>
      }
    }

    method ForwardMessage(msg: DeviceMessage, sent: bool)
      requires Valid()
      modifies Footprint()
      ensures Valid() && View() == Forward(old(View()), msg, sent)
      ensures recorder.View() == old(recorder.View()) || recorder.View() == Flushed(old(recorder.View()))
    {
      if !sessOverLimit {
        if sent {
          forwarded := forwarded + [msg];
        } else {
          StopWriter();
        }
      }
    }

    /** The writer flushes both recorders when it ends. */
    method StopWriter()
      requires Valid()
      modifies Footprint()
      ensures Valid() && View() == EndWriter(old(View()))
      ensures recorder.View() == Flushed(old(recorder.View()))
    {
      running := false;
      FlushBoth();
    }

    /** So does the message loop. */
    method StopLoop()
      requires Valid()
      modifies Footprint()
      ensures Valid() && View() == EndLoop(old(View()))
      ensures recorder.View() == Flushed(old(recorder.View()))
    {
      looping := false;
      FlushBoth();
    }

    method FlushBoth()
      requires Valid()
      modifies recorder, recorder.collection, controlRecorder, controlRecorder.collection
      ensures Valid()
      ensures recorder.written == old(recorder.written)
      ensures recorder.View() == Flushed(old(recorder.View()))
      ensures controlRecorder.View() == Flushed(old(controlRecorder.View()))
    {
      recorder.Flush();
      controlRecorder.Flush();
    }

    /** One message of the device in the writer's loop. */
    method FromDevice(msg: DeviceMessage, now: int, sent: bool)
      requires Valid() && running
      modifies Footprint()
      ensures Valid() && View() == HandleDevice(old(View()), msg, now, sent)
      ensures msg == StopShell ==> recorder.View() == Flushed(old(recorder.View()))
    {
      NoteMessage(msg, now);
      ForwardMessage(msg, sent);
    }

    /** One resize message of the user in the message loop. */
    method FromUser(hasHeight: bool, hasWidth: bool)
      requires Valid()
      modifies this, controlRecorder, controlRecorder.collection
      ensures Valid() && View() == HandleResize(old(View()), hasHeight, hasWidth)
    {
      if ignoreControlMessages {
        return;
      }
      if resizeBytes >= MESSAGE_SIZE_LIMIT {
        ignoreControlMessages := true;
        return;
      }
      var n := SendResizeMessage(hasHeight, hasWidth);
      resizeBytes := resizeBytes + n;
    }

    method SendResizeMessage(hasHeight: bool, hasWidth: bool) returns (n: nat)
      requires Valid()
      modifies this`controls, controlRecorder, controlRecorder.collection
      ensures Valid()
      ensures hasHeight || hasWidth ==> n == 0 && View() == old(View())
      ensures !hasHeight && !hasWidth ==>
                n == RESIZE_LENGTH && View() == AddControl(old(View()), Value(RESIZE_MESSAGE, bytesRecorded, 0, 0, 0))
    {
      if hasHeight {
        return 0;
      }
      if hasWidth {
        return 0;
      }
      n := WriteControl(RESIZE_MESSAGE, bytesRecorded, 0, 0, 0);
    }

    method Handle(e: Event)
      requires Valid()
      modifies Footprint()
      ensures Valid() && View() == Step(old(View()), e)
    {
      match e {
        case FromDevice(msg, now, sent) =>
          if running {
            FromDevice(msg, now, sent);
          }
        case WriterEnds =>
          if running {
            StopWriter();
          }
        case UserResize(hasHeight, hasWidth) =>
          if looping {
            FromUser(hasHeight, hasWidth);
          }
        case UserLeaves =>
          if looping {
            StopLoop();
          }
      }
    }

    /** Both loops over any interleaving of what they meet, until both have ended: the store holds
        exactly what the run recorded, in nonempty records, and the control records are those of
        `Ended`. */
    method Serve(events: seq<Event>)
      requires Valid() && View() == Start(lastKeystrokeAt)
      modifies Footprint()
      ensures Valid() && View() == Ended(Run(old(lastKeystrokeAt), events))
      ensures Gzip.Plain(recorder.collection.Records(sessionID)) == View().recorded
      ensures forall r | r in recorder.collection.Records(sessionID) :: r.plain != []
      ensures controlRecorder.collection.Records(sessionID) == View().controlBuffer.stored
    {
      HandleAll(events);
      FlushKeepsContents(recorder.View());
      StopWriter();
      FlushKeepsContents(recorder.View());
      StopLoop();
    }

    method HandleAll(events: seq<Event>)
      requires Valid() && View() == Start(lastKeystrokeAt)
      modifies Footprint()
      ensures Valid() && View() == Run(old(lastKeystrokeAt), events)
    {
      ghost var start := lastKeystrokeAt;
      var i := 0;
      while i < |events|
        invariant 0 <= i <= |events|
        invariant Valid() && View() == Run(start, events[..i])
      {
        Handle(events[i]);
        RunNext(start, events, i);
        i := i + 1;
      }
      assert events[..i] == events;
    }
  }
}
