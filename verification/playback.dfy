/** Playing back a recorded session: `WriteSessionRecords` in store/mongo/datastore_mongo.go, which
    merges the recorded bytes and the control messages by offset, and its sink in
    store/mongo/recording_writer.go. */
module Playback {
  import opened Bytes
  import opened Control
  import opened RecordingReader

  datatype Message =
    | ShellCommand(sessionID: string, body: seq<byte>)
    | Delay(sessionID: string, delayMs: uint16)
    | Resize(sessionID: string, height: uint16, width: uint16)

  datatype PlaybackError = RecordingDataInconsistent | UnknownControlMessageType | WriteFailed | ShortWrite

  /** Panicked: the buffer was sliced beyond its end. */
  datatype Outcome = Returned(err: Option<PlaybackError>) | Panicked

  /** Where the messages go. A write may fail at any time, and always does if the sink is closed; then
      nothing was written. */
  class Sink {
    const closed: bool
    var messages: seq<Message>
    var failures: nat

    constructor (closed: bool)
      ensures messages == [] && failures == 0 && this.closed == closed
    {
      this.closed, messages, failures := closed, [], 0;
    }

    method Write(m: Message) returns (ok: bool)
      modifies this
      ensures ok ==> messages == old(messages) + [m] && failures == old(failures)
      ensures !ok ==> messages == old(messages) && failures == old(failures) + 1
      ensures closed ==> !ok
    {
      ok := *;
      ok := ok && !closed;
      if ok {
        messages := messages + [m];
      } else {
        failures := failures + 1;
      }
    }
  }

  method SendRecordingMessage(data: seq<byte>, sessionID: string, w: Sink) returns (n: nat, err: Option<PlaybackError>)
    modifies w
    ensures err == None ==> n == |data| && w.failures == old(w.failures)
    ensures err == None ==> w.messages == old(w.messages) + [ShellCommand(sessionID, data)]
    ensures err.Some? ==> err == Some(WriteFailed) && w.messages == old(w.messages) && w.failures > old(w.failures)
    ensures w.closed ==> err.Some?
  {
    var ok := w.Write(ShellCommand(sessionID, data));
    if ok {
      return |data|, None;
    } else {
      return 0, Some(WriteFailed);
    }
  }

  /** The message that shows a control message to the user. */
  function Shown(c: Value, sessionID: string): Message {
    if c.kind == DELAY_MESSAGE then Delay(sessionID, c.delayMs)
    else Resize(sessionID, c.height, c.width)
  }

  method SendControlMessage(control: Value, sessionID: string, w: Sink) returns (err: Option<PlaybackError>)
    modifies w
    ensures err == None ==> LengthOf(control.kind) > 0 && w.failures == old(w.failures)
    ensures err == None ==> w.messages == old(w.messages) + [Shown(control, sessionID)]
    ensures err == None && control.kind == 2 ==>
              w.messages == old(w.messages) + [Delay(sessionID, control.delayMs)]
    ensures err == None && control.kind == 1 ==>
              w.messages == old(w.messages) + [Resize(sessionID, control.height, control.width)]
    ensures err.Some? ==> w.messages == old(w.messages)
    ensures LengthOf(control.kind) == 0 ==> err == Some(UnknownControlMessageType)
    ensures err.Some? && LengthOf(control.kind) > 0 ==> err == Some(WriteFailed) && w.failures > old(w.failures)
  {
    var m: Message;
    if control.kind == DELAY_MESSAGE {
      m := Delay(sessionID, control.delayMs);
    } else if control.kind == RESIZE_MESSAGE {
      m := Resize(sessionID, control.height, control.width);
    } else {
      return Some(UnknownControlMessageType);
    }
    var ok := w.Write(m);
    return if ok then None else Some(WriteFailed);
  }

  /** The writer handed to `io.Copy`; it reports every failure, and an empty write, as short. */
  method RecordingWriterWrite(d: seq<byte>, sessionID: string, w: Sink) returns (n: nat, err: Option<PlaybackError>)
    modifies w
    ensures err == None ==> n == |d| > 0 && w.failures == old(w.failures)
    ensures err == None ==> w.messages == old(w.messages) + [ShellCommand(sessionID, d)]
    ensures err.Some? ==> n == 0 && err == Some(ShortWrite)
    ensures err.Some? && d != [] ==> w.messages == old(w.messages) && w.failures > old(w.failures)
    ensures d == [] ==>
              || (w.messages == old(w.messages) + [ShellCommand(sessionID, [])] && w.failures == old(w.failures))
              || (w.messages == old(w.messages) && w.failures > old(w.failures))
    ensures w.closed ==> err.Some?
  {
    n, err := SendRecordingMessage(d, sessionID, w);
    if n == 0 || err != None {
      return 0, Some(ShortWrite);
    }
  }

  // What was played.

  /** The recorded bytes among the messages. */
  function Body(ms: seq<Message>): seq<byte> {
    if ms == [] then []
    else
      var m := ms[|ms| - 1];
      Body(ms[..|ms| - 1]) + if m.ShellCommand? then m.body else []
  }

  /** The control messages among the messages. */
  function ControlsOf(ms: seq<Message>): seq<Message> {
    if ms == [] then []
    else
      var m := ms[|ms| - 1];
      ControlsOf(ms[..|ms| - 1]) + if m.ShellCommand? then [] else [m]
  }

  function ShownAll(cs: seq<Value>, sessionID: string): (ms: seq<Message>)
    ensures |ms| == |cs|
  {
    seq(|cs|, i requires 0 <= i < |cs| => Shown(cs[i], sessionID))
  }

  /** `sent` bytes is an admissible place for `c`: never after its offset, and less than one buffer
      before it unless the recording, of `total` bytes, is too short. */
  predicate GoodPlace(c: Value, sent: nat, total: int) {
    && c.offset - RECORDING_READ_BUFFER_SIZE <= sent <= c.offset
    && (c.offset <= total ==> c.offset - RECORDING_READ_BUFFER_SIZE < sent)
  }

  /** `m`, played after `ms`, is a chunk of the recording, or the next control message in a good
      place. */
  predicate PlacedAfter(ms: seq<Message>, m: Message, cs: seq<Value>, sessionID: string, total: int) {
    if m.ShellCommand? then m.sessionID == sessionID
    else
      var j := |ControlsOf(ms)|;
      j < |cs| && m == Shown(cs[j], sessionID) && GoodPlace(cs[j], |Body(ms)|, total)
  }

  /** `m` carries what the control message says. */
  predicate Carries(m: Message, c: Value, sessionID: string) {
    && (c.kind == 2 ==> m == Delay(sessionID, c.delayMs))
    && (c.kind == 1 ==> m == Resize(sessionID, c.height, c.width))
  }

  predicate Placed(ms: seq<Message>, cs: seq<Value>, sessionID: string, total: int) {
    ms == [] ||
    (Placed(ms[..|ms| - 1], cs, sessionID, total)
     && PlacedAfter(ms[..|ms| - 1], ms[|ms| - 1], cs, sessionID, total))
  }

  /** Every message played is a chunk of this session, or the next control message, with its delay or its
      sizes, at most 1024 bytes before its offset and not after it. */
  lemma {:induction false} PlacedEverywhere(ms: seq<Message>, cs: seq<Value>, sessionID: string, total: int, i: nat)
    requires Placed(ms, cs, sessionID, total) && i < |ms|
    ensures PlacedAfter(ms[..i], ms[i], cs, sessionID, total)
    ensures ms[i].sessionID == sessionID
    ensures !ms[i].ShellCommand? ==>
              var j, sent := |ControlsOf(ms[..i])|, |Body(ms[..i])|;
              && j < |cs| && Carries(ms[i], cs[j], sessionID)
              && sent <= cs[j].offset <= sent + 1024
              && (cs[j].offset <= total ==> cs[j].offset < sent + 1024)
    decreases |ms|
  {
    if i < |ms| - 1 {
      PlacedEverywhere(ms[..|ms| - 1], cs, sessionID, total, i);
      assert ms[..|ms| - 1][..i] == ms[..i];
    }
  }

  lemma {:induction false} PlaySnoc(ms: seq<Message>, m: Message)
    ensures Body(ms + [m]) == Body(ms) + if m.ShellCommand? then m.body else []
    ensures ControlsOf(ms + [m]) == ControlsOf(ms) + if m.ShellCommand? then [] else [m]
  {
    assert (ms + [m])[..|ms|] == ms;
  }

  lemma {:induction false} PlacedSnoc(ms: seq<Message>, m: Message, cs: seq<Value>, sessionID: string, total: int)
    ensures Placed(ms + [m], cs, sessionID, total) <==>
            Placed(ms, cs, sessionID, total) && PlacedAfter(ms, m, cs, sessionID, total)
  {
    assert (ms + [m])[..|ms|] == ms;
  }

  /** The control messages played are the first of those recorded, in order, and each lies within
      one buffer of the bytes sent. */
  lemma {:induction false} PlacedMeansPrefix(ms: seq<Message>, cs: seq<Value>, sessionID: string, total: int)
    requires Placed(ms, cs, sessionID, total)
    ensures ControlsOf(ms) <= ShownAll(cs, sessionID)
    ensures forall j | 0 <= j < |ControlsOf(ms)| :: Carries(ControlsOf(ms)[j], cs[j], sessionID)
    ensures forall j | 0 <= j < |ControlsOf(ms)| ::
              cs[j].offset - RECORDING_READ_BUFFER_SIZE <= |Body(ms)|
    decreases |ms|
  {
    if ms != [] {
      var init, m := ms[..|ms| - 1], ms[|ms| - 1];
      assert ms == init + [m];
      PlaySnoc(init, m);
      PlacedSnoc(init, m, cs, sessionID, total);
      PlacedMeansPrefix(init, cs, sessionID, total);
    }
  }

  predicate Ordered(cs: seq<Value>) {
    forall i, j | 0 <= i < j < |cs| :: cs[i].offset <= cs[j].offset
  }
}
