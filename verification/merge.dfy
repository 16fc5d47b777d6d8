/** The merge loop of `WriteSessionRecords` in store/mongo/datastore_mongo.go. */
module Merge {
  import opened Bytes
  import opened Control
  import opened ControlReader
  import opened RecordingReader
  import opened Playback
  import Gzip

  /** No empty record hides a later one, so reading to the end of file reads everything. */
  predicate ReadsWhole(records: seq<Gzip.Compressed>) {
    Playable(records) == Gzip.Plain(records)
  }

  /** The length a reader can rely on: that of the recording, if it can read the whole of it. */
  function Lasting(total: seq<byte>, whole: bool): int {
    if whole then |total| else -1
  }

  lemma {:induction false} Cancel(data: seq<byte>, a: seq<byte>, b: seq<byte>)
    ensures data + a == data + b ==> a == b
  {
    assert (data + a)[|data|..] == a && (data + b)[|data|..] == b;
  }

  /** What a playback works on: what was in the sink before it, the session, its recording and whether
      that is read as a whole, its control messages. */
  datatype Plan = Plan(base: seq<Message>, sessionID: string, total: seq<byte>, whole: bool, cs: seq<Value>)

  /** `out` may have been played: a prefix of the recording, with control messages in their places. */
  predicate SoFar(p: Plan, out: seq<Message>) {
    Body(out) <= p.total && Placed(out, p.cs, p.sessionID, Lasting(p.total, p.whole))
  }

  /** How far a playback has come: `out` was written, `pending` is still to be read and `left` still
      to be popped. */
  predicate Midway(p: Plan, out: seq<Message>, pending: seq<byte>, left: seq<Value>) {
    && SoFar(p, out) && Body(out) + pending == p.total
    && |ControlsOf(out)| <= |p.cs| && left == p.cs[|ControlsOf(out)|..]
  }

  ghost predicate Holds(p: Plan, recording: RecordingReader, w: Sink, out: seq<Message>, left: seq<Value>)
    reads recording, w
  {
    && recording.Valid() && w.messages == p.base + out
    && Midway(p, out, recording.Pending(), left)
    && (p.whole ==> recording.UntilEof() == recording.Pending())
  }

  lemma {:induction false} MidwayChunk(p: Plan, out: seq<Message>, data: seq<byte>, pending: seq<byte>,
                                       left: seq<Value>)
    requires Midway(p, out, data + pending, left)
    ensures var m := ShellCommand(p.sessionID, data);
            && Midway(p, out + [m], pending, left)
            && Body(out + [m]) == Body(out) + data && ControlsOf(out + [m]) == ControlsOf(out)
            && p.base + (out + [m]) == (p.base + out) + [m]
  {
    var m := ShellCommand(p.sessionID, data);
    PlaySnoc(out, m);
    PlacedSnoc(out, m, p.cs, p.sessionID, Lasting(p.total, p.whole));
    assert Body(out) + data + pending == Body(out) + (data + pending);
  }

  lemma {:induction false} MidwayControl(p: Plan, out: seq<Message>, pending: seq<byte>, left: seq<Value>)
    requires Midway(p, out, pending, left) && left != []
    requires GoodPlace(left[0], |Body(out)|, Lasting(p.total, p.whole))
    ensures var m := Shown(left[0], p.sessionID);
            && Midway(p, out + [m], pending, left[1..])
            && Body(out + [m]) == Body(out) && |ControlsOf(out + [m])| == |ControlsOf(out)| + 1
            && p.base + (out + [m]) == (p.base + out) + [m]
  {
    var m := Shown(left[0], p.sessionID);
    PlaySnoc(out, m);
    PlacedSnoc(out, m, p.cs, p.sessionID, Lasting(p.total, p.whole));
  }

  /** One read, with the bytes it gives. */
  method ReadChunk(recording: RecordingReader, buffer: array<byte>, length: nat)
    returns (n: nat, eof: bool, ghost data: seq<byte>)
    requires recording.Valid() && length <= buffer.Length
    modifies recording, buffer
    ensures recording.Valid()
    ensures n == |data| <= length && buffer[..n] == data
    ensures data + recording.Pending() == old(recording.Pending())
    ensures !eof && length > 0 ==> n > 0
    ensures eof ==> n == 0
    ensures n <= old(recording.Reach())
    ensures length <= old(|recording.output|) ==> n == length
    ensures old(recording.UntilEof() == recording.Pending()) ==> recording.UntilEof() == recording.Pending()
    ensures old(recording.UntilEof() == recording.Pending()) && eof ==> recording.Pending() == []
    ensures eof == old(recording.AtEof())
  {
    n, eof := recording.Read(buffer, length);
    data := buffer[..n];
    PlayableExactly(recording.cursor);
    Cancel(data, recording.UntilEof(), recording.Pending());
  }

  /** One read of the recording and the message it gives, sent by the merge loop or by `io.Copy`. */
  method ReadAndSend(recording: RecordingReader, buffer: array<byte>, length: nat, sessionID: string, w: Sink,
                     copying: bool, ghost p: Plan, ghost before: seq<Message>, ghost left: seq<Value>)
    returns (n: nat, eof: bool, err: Option<PlaybackError>, ghost out: seq<Message>)
    requires length <= buffer.Length && p.sessionID == sessionID
    requires Holds(p, recording, w, before, left)
    modifies recording, buffer, w
    ensures n <= length
    ensures eof ==> n == 0
    ensures !eof && length > 0 ==> n > 0
    ensures n <= old(recording.Reach())
    ensures length <= old(|recording.output|) ==> n == length
    ensures eof == old(recording.AtEof())
    ensures ControlsOf(out) == ControlsOf(before) && (w.closed ==> out == before)
    ensures out == before || (|out| == |before| + 1 && out[..|before|] == before)
    ensures err == None ==> Holds(p, recording, w, out, left) && w.failures == old(w.failures)
    ensures err == None ==> |Body(out)| == |Body(before)| + n
    ensures err == None && p.whole && eof ==> Body(out) == p.total
    ensures err.Some? ==> out == before && w.messages == p.base + out && w.failures > old(w.failures)
    ensures err.Some? ==> err == Some(if copying then ShortWrite else WriteFailed) && |Body(out)| < |p.total|
    ensures err == None && n > 0 ==> |recording.Pending()| < |old(recording.Pending())|
  {
    err, out := None, before;
    ghost var data;
    n, eof, data := ReadChunk(recording, buffer, length);
    if n > 0 {
      MidwayChunk(p, before, data, recording.Pending(), left);
      if copying {
        var _, e := RecordingWriterWrite(buffer[..n], sessionID, w);
        err := e;
      } else {
        var _, e := SendRecordingMessage(buffer[..n], sessionID, w);
        err := e;
      }
      if err == None {
        out := before + [ShellCommand(sessionID, data)];
      }
    }
  }

  /** `io.Copy` of what is left of the recording. */
  method CopyRest(recording: RecordingReader, sessionID: string, w: Sink,
                  ghost p: Plan, ghost before: seq<Message>, ghost left: seq<Value>)
    returns (n: nat, err: Option<PlaybackError>, ghost out: seq<Message>)
    requires p.sessionID == sessionID && Holds(p, recording, w, before, left)
    modifies recording, w
    ensures w.messages == p.base + out && ControlsOf(out) == ControlsOf(before) && SoFar(p, out)
    ensures w.closed ==> out == before
    ensures err == None ==> w.failures == old(w.failures) && (p.whole ==> Body(out) == p.total)
    ensures n == |Body(out)| - |Body(before)|
    ensures err.Some? ==> w.failures > old(w.failures) && |Body(out)| < |p.total|
  {
    n, err, out := 0, None, before;
    var buffer := new byte[32 * 1024];
    while true
      invariant fresh(buffer) && buffer.Length == 32 * 1024
      invariant Holds(p, recording, w, out, left) && w.failures == old(w.failures)
      invariant ControlsOf(out) == ControlsOf(before) && (w.closed ==> out == before)
      invariant n == |Body(out)| - |Body(before)|
      decreases |recording.Pending()|
    {
      var k, eof;
      k, eof, err, out := ReadAndSend(recording, buffer, 32 * 1024, sessionID, w, true, p, out, left);
      if err != None {
        return;
      }
      n := n + k;
      if eof {
        return;
      }
    }
  }

  // What a playback of stored records promises.

  ghost predicate PlayedBack(records: seq<Gzip.Compressed>, cs: seq<Value>, sessionID: string,
                             out: seq<Message>, r: Outcome, failed: bool)
  {
    // Nothing is played that was not recorded, and every control message carries what was recorded and
    // lies in its place.
    && Body(out) <= Gzip.Plain(records)
    && ControlsOf(out) <= ShownAll(cs, sessionID)
    && (forall j | 0 <= j < |ControlsOf(out)| :: Carries(ControlsOf(out)[j], cs[j], sessionID))
    && Placed(out, cs, sessionID, Lasting(Gzip.Plain(records), ReadsWhole(records)))
    // A nil error says that all control messages were played, but not that all bytes were: a failure
    // of the last copy is not returned, and then bytes are missing.
    && (r == Returned(None) <==> ControlsOf(out) == ShownAll(cs, sessionID))
    && (r == Returned(None) && ReadsWhole(records) ==> (Body(out) == Gzip.Plain(records) <==> !failed))
    // Every other outcome has its cause.
    && (r.Returned? && r.err.Some? ==>
          (r.err.value.WriteFailed? && failed) || (r.err.value.RecordingDataInconsistent? && !Ordered(cs)))
    && (r.Panicked? && ReadsWhole(records) ==>
          exists c :: c in cs && c.offset > |Gzip.Plain(records)| + RECORDING_READ_BUFFER_SIZE)
  }

  /** Control messages that were read back are of known types, with offsets that are not negative. */
  lemma {:induction false} MessagesCanonical(fill: seq<byte>, rest: seq<byte>)
    ensures AllCanonical(Messages(fill, rest))
    decreases |fill| + |rest|, |rest|
  {
    if fill == [] {
      if rest != [] {
        var n := if |rest| < CONTROL_READ_BUFFER_SIZE then |rest| else CONTROL_READ_BUFFER_SIZE;
        MessagesCanonical(rest[..n], rest[n..]);
      }
    } else if Whole(fill) {
      DecodeInverts(fill);
      MessagesCanonical(fill[LengthOf(fill[0])..], rest);
    }
  }

  /** One more message was sent while the offset was more than one buffer away. */
  lemma {:induction false} StillFar(before: seq<Message>, earlier: seq<Message>, out: seq<Message>, offset: int)
    requires |before| <= |earlier| && earlier[..|before|] == before
    requires out == earlier || (|out| == |earlier| + 1 && out[..|earlier|] == earlier)
    requires |Body(earlier)| + 1024 < offset
    requires forall k | |before| <= k < |earlier| :: |Body(earlier[..k])| + 1024 < offset
    ensures |before| <= |out| && out[..|before|] == before
    ensures forall k | |before| <= k < |out| :: |Body(out[..k])| + 1024 < offset
  {
    forall k | |before| <= k < |out|
      ensures |Body(out[..k])| + 1024 < offset
    {
      assert out[..k] == earlier[..k];
      assert earlier[..|earlier|] == earlier;
    }
  }

  /** The inner loop: sends whole buffers until the offset of the next control message is within one
      buffer, or the recording ends. */
  method PlayBuffers(offset: nat, recordingReader: RecordingReader, recordingBuffer: array<byte>, sent: nat,
                     sessionID: string, w: Sink, ghost p: Plan, ghost before: seq<Message>, ghost left: seq<Value>)
    returns (err: Option<PlaybackError>, recordingBytesSent: nat, ghost out: seq<Message>)
    requires recordingBuffer.Length == RECORDING_READ_BUFFER_SIZE && p.sessionID == sessionID
    requires Holds(p, recordingReader, w, before, left)
    requires sent == |Body(before)| <= offset
    modifies recordingReader, recordingBuffer, w
    ensures w.messages == p.base + out && ControlsOf(out) == ControlsOf(before) && SoFar(p, out)
    ensures err == None ==>
              && Holds(p, recordingReader, w, out, left) && w.failures == old(w.failures)
              && recordingBytesSent == |Body(out)| <= offset
    ensures err == None && offset - recordingBytesSent > RECORDING_READ_BUFFER_SIZE && p.whole ==>
              Body(out) == p.total
    ensures |before| <= |out| && out[..|before|] == before
    ensures forall k | |before| <= k < |out| :: |Body(out[..k])| + 1024 < offset
    ensures err.Some? ==> err == Some(WriteFailed) && w.failures > old(w.failures)
  {
    err, out, recordingBytesSent := None, before, sent;
    var bytesUntilControlMessage: nat := offset - recordingBytesSent;
    while bytesUntilControlMessage > recordingBuffer.Length
      invariant Holds(p, recordingReader, w, out, left) && w.failures == old(w.failures)
      invariant ControlsOf(out) == ControlsOf(before) && err == None
      invariant recordingBytesSent == |Body(out)| && recordingBytesSent + bytesUntilControlMessage == offset
      invariant |before| <= |out| && out[..|before|] == before
      invariant forall k | |before| <= k < |out| :: |Body(out[..k])| + 1024 < offset
    {
      ghost var earlier := out;
      var n, eof;
      n, eof, err, out := ReadAndSend(recordingReader, recordingBuffer, recordingBuffer.Length, sessionID, w, false,
        p, out, left);
      StillFar(before, earlier, out, offset);
      if err != None {
        return;
      }
      recordingBytesSent := recordingBytesSent + n;
      bytesUntilControlMessage := offset - recordingBytesSent;
      if eof || n == 0 {
        return;
      }
    }
  }

  lemma {:induction false} PlaceIsGood(c: Value, before: nat, n: nat, eof: bool, p: Plan, out: seq<Message>)
    requires before <= c.offset <= before + RECORDING_READ_BUFFER_SIZE && n <= c.offset - before
    requires !eof && c.offset > before ==> n > 0
    requires Body(out) <= p.total && |Body(out)| == before + n
    requires p.whole && eof ==> Body(out) == p.total
    requires eof ==> n == 0
    ensures GoodPlace(c, before + n, Lasting(p.total, p.whole))
  {
  }

  /** The last read before a control message. It is short, and the message comes early, if the bytes
      staged or the record at hand end before the offset; it is not if they are staged. */
  method PlayLast(c: Value, recordingReader: RecordingReader, recordingBuffer: array<byte>, sent: nat,
                  sessionID: string, w: Sink, ghost p: Plan, ghost before: seq<Message>, ghost left: seq<Value>)
    returns (err: Option<PlaybackError>, recordingBytesSent: nat, ghost out: seq<Message>)
    requires recordingBuffer.Length == RECORDING_READ_BUFFER_SIZE && p.sessionID == sessionID
    requires Holds(p, recordingReader, w, before, left)
    requires sent == |Body(before)| <= c.offset <= sent + recordingBuffer.Length
    modifies recordingReader, recordingBuffer, w
    ensures w.messages == p.base + out && ControlsOf(out) == ControlsOf(before) && SoFar(p, out)
    ensures err == None ==>
              && Holds(p, recordingReader, w, out, left) && w.failures == old(w.failures)
              && recordingBytesSent == |Body(out)| <= c.offset
              && GoodPlace(c, |Body(out)|, Lasting(p.total, p.whole))
    ensures err == None && old(|recordingReader.output|) >= c.offset - sent ==> recordingBytesSent == c.offset
    ensures err == None && old(recordingReader.output) != [] ==>
              (recordingBytesSent == c.offset <==> old(|recordingReader.output|) >= c.offset - sent)
    ensures err == None && old(recordingReader.Reach()) < c.offset - sent ==> recordingBytesSent < c.offset
    ensures err == None && !old(recordingReader.AtEof()) && c.offset > sent ==> recordingBytesSent > sent
    ensures err.Some? ==> err == Some(WriteFailed) && w.failures > old(w.failures)
  {
    var n, eof;
    n, eof, err, out := ReadAndSend(recordingReader, recordingBuffer, c.offset - sent, sessionID, w, false,
      p, before, left);
    recordingBytesSent := sent + n;
    if err == None {
      PlaceIsGood(c, sent, n, eof, p, out);
    }
  }

  /** Plays the recording up to the control message `c` and then the message itself. The slice of the
      buffer is out of range only when the recording ended more than one buffer before the offset. */
  method PlayUpTo(c: Value, recordingReader: RecordingReader, recordingBuffer: array<byte>, sent: nat,
                  sessionID: string, w: Sink, ghost p: Plan, ghost before: seq<Message>, ghost left: seq<Value>)
    returns (r: Outcome, recordingBytesSent: nat, ghost out: seq<Message>)
    requires recordingBuffer.Length == RECORDING_READ_BUFFER_SIZE && p.sessionID == sessionID
    requires Holds(p, recordingReader, w, before, left)
    requires left != [] && left[0] == c && Canonical(c)
    requires sent == |Body(before)| <= c.offset
    modifies recordingReader, recordingBuffer, w
    ensures w.messages == p.base + out && SoFar(p, out)
    ensures r == Returned(None) ==>
              && Holds(p, recordingReader, w, out, left[1..]) && w.failures == old(w.failures)
              && recordingBytesSent == |Body(out)| <= c.offset
              && |ControlsOf(out)| == |ControlsOf(before)| + 1
    ensures r != Returned(None) ==> ControlsOf(out) == ControlsOf(before)
    ensures r.Returned? && r.err.Some? ==> r.err == Some(WriteFailed) && w.failures > old(w.failures)
    ensures r.Panicked? && p.whole ==> c.offset > |p.total| + RECORDING_READ_BUFFER_SIZE
  {
    var err;
    err, recordingBytesSent, out :=
      PlayBuffers(c.offset, recordingReader, recordingBuffer, sent, sessionID, w, p, before, left);
    if err != None {
      r := Returned(err);
      return;
    }
    if c.offset - recordingBytesSent > recordingBuffer.Length {
      r := Panicked;
      return;
    }
    err, recordingBytesSent, out :=
      PlayLast(c, recordingReader, recordingBuffer, recordingBytesSent, sessionID, w, p, out, left);
    if err != None {
      r := Returned(err);
      return;
    }
    r, out := PlayControl(c, recordingReader, sessionID, w, p, out, left);
  }

  method PlayControl(c: Value, ghost recordingReader: RecordingReader, sessionID: string, w: Sink,
                     ghost p: Plan, ghost before: seq<Message>, ghost left: seq<Value>)
    returns (r: Outcome, ghost out: seq<Message>)
    requires p.sessionID == sessionID && Holds(p, recordingReader, w, before, left)
    requires left != [] && left[0] == c && Canonical(c)
    requires GoodPlace(c, |Body(before)|, Lasting(p.total, p.whole))
    modifies w
    ensures w.messages == p.base + out && SoFar(p, out)
    ensures r == Returned(None) ==>
              && Holds(p, recordingReader, w, out, left[1..]) && w.failures == old(w.failures)
              && Body(out) == Body(before) && |ControlsOf(out)| == |ControlsOf(before)| + 1
              && |out| == |before| + 1 && out[..|before|] == before && Carries(out[|before|], c, sessionID)
    ensures r != Returned(None) ==> r == Returned(Some(WriteFailed)) && out == before && w.failures > old(w.failures)
  {
    MidwayControl(p, before, recordingReader.Pending(), left);
    out := before;
    var err := SendControlMessage(c, sessionID, w);
    r := Returned(err);
    if err == None {
      out := before + [Shown(c, sessionID)];
    }
  }

  /** Plays up to the control message that was popped, unless its offset was passed already. */
  method PlayNext(c: Value, recordingReader: RecordingReader, recordingBuffer: array<byte>, sent: nat,
                  sessionID: string, w: Sink, ghost p: Plan, ghost before: seq<Message>, ghost left: seq<Value>)
    returns (r: Outcome, recordingBytesSent: nat, ghost out: seq<Message>)
    requires recordingBuffer.Length == RECORDING_READ_BUFFER_SIZE && p.sessionID == sessionID
    requires Holds(p, recordingReader, w, before, left)
    requires left != [] && left[0] == c && AllCanonical(p.cs)
    requires sent == |Body(before)| && SentByLast(sent, before, p.cs)
    modifies recordingReader, recordingBuffer, w
    ensures w.messages == p.base + out && SoFar(p, out)
    ensures r == Returned(None) ==>
              && Holds(p, recordingReader, w, out, left[1..]) && w.failures == old(w.failures)
              && recordingBytesSent == |Body(out)| && SentByLast(recordingBytesSent, out, p.cs)
    ensures r != Returned(None) ==> StopsEarly(p, out, r, w.failures > old(w.failures))
  {
    assert c == p.cs[|ControlsOf(before)|] && c in p.cs;
    if sent > c.offset {
      r, recordingBytesSent, out := Returned(Some(RecordingDataInconsistent)), sent, before;
      return;
    }
    r, recordingBytesSent, out :=
      PlayUpTo(c, recordingReader, recordingBuffer, sent, sessionID, w, p, before, left);
  }

  /** The loop over the control messages. */
  method PlayControls(controlReader: ControlMessageReader, recordingReader: RecordingReader, sessionID: string,
                      w: Sink, ghost p: Plan)
    returns (r: Outcome, ghost out: seq<Message>)
    requires p.sessionID == sessionID && AllCanonical(p.cs)
    requires controlReader.Valid() && controlReader.Left() == p.cs
    requires Holds(p, recordingReader, w, [], p.cs)
    modifies controlReader, controlReader.output, recordingReader, w
    ensures w.messages == p.base + out && SoFar(p, out)
    ensures r == Returned(None) ==> AllSent(p, out, w.failures > old(w.failures))
    ensures r != Returned(None) ==> StopsEarly(p, out, r, w.failures > old(w.failures))
    ensures w.closed && p.cs == [] ==> out == []
  {
    var recordingBuffer := new byte[RECORDING_READ_BUFFER_SIZE];
    var recordingBytesSent: nat := 0;
    r, out := Returned(None), [];
    while true
      invariant controlReader.Valid() && fresh(recordingBuffer) && recordingBuffer.Length == RECORDING_READ_BUFFER_SIZE
      invariant Holds(p, recordingReader, w, out, controlReader.Left()) && w.failures == old(w.failures)
      invariant recordingBytesSent == |Body(out)| && SentByLast(recordingBytesSent, out, p.cs)
      invariant p.cs == [] ==> out == []
      decreases |controlReader.Left()|
    {
      ghost var left := controlReader.Left();
      var control := controlReader.Pop();
      if control == null {
        var n, err;
        n, err, out := CopyRest(recordingReader, sessionID, w, p, out, left);
        r := Returned(None);
        return;
      }
      r, recordingBytesSent, out := PlayNext(control.View(), recordingReader, recordingBuffer, recordingBytesSent,
        sessionID, w, p, out, left);
      if r != Returned(None) {
        return;
      }
    }
  }

  /** Plays back a stored session; `out` is what it wrote to the sink. */
  method WriteSessionRecords(recordings: seq<Gzip.Compressed>, controls: seq<Gzip.Compressed>,
                             sessionID: string, w: Sink)
    returns (r: Outcome, ghost out: seq<Message>)
    modifies w
    ensures w.messages == old(w.messages) + out
    ensures PlayedBack(recordings, Recorded(controls), sessionID, out, r, w.failures > old(w.failures))
    ensures w.closed && Recorded(controls) == [] ==> out == []
  {
    ghost var p := Plan(w.messages, sessionID, Gzip.Plain(recordings), ReadsWhole(recordings), Recorded(controls));
    var controlReader := new ControlMessageReader.New(controls);
    var recordingReader := new RecordingReader(recordings);
    assert p.base + [] == p.base;
    if controls != [] {
      MessagesCanonical([], controls[0].plain);
    }
    r, out := PlayControls(controlReader, recordingReader, sessionID, w, p);
    if r == Returned(None) {
      AllPlayed(recordings, p, out, w.failures > old(w.failures));
    } else {
      StoppedEarly(recordings, p, out, r, w.failures > old(w.failures));
    }
  }

  /** The bytes sent so far do not pass the offset of the last control message played. */
  predicate SentByLast(sent: nat, out: seq<Message>, cs: seq<Value>) {
    sent == 0 || (0 < |ControlsOf(out)| <= |cs| && sent <= cs[|ControlsOf(out)| - 1].offset)
  }

  /** A playback that came to its end: bytes are missing if and only if its copy failed. */
  predicate AllSent(p: Plan, out: seq<Message>, failed: bool) {
    && |ControlsOf(out)| == |p.cs|
    && (failed ==> |Body(out)| < |p.total|)
    && (!failed && p.whole ==> Body(out) == p.total)
  }

  /** A playback that ends before its last control message has one of three causes. */
  predicate StopsEarly(p: Plan, out: seq<Message>, r: Outcome, failed: bool) {
    var j := |ControlsOf(out)|;
    j < |p.cs| &&
    match r
    case Panicked => p.whole ==> p.cs[j].offset > |p.total| + RECORDING_READ_BUFFER_SIZE
    case Returned(err) =>
      || (err == Some(WriteFailed) && failed)
      || (err == Some(RecordingDataInconsistent) && AllCanonical(p.cs)
          && SentByLast(|Body(out)|, out, p.cs) && |Body(out)| > p.cs[j].offset)
  }

  /** The playback of these records. */
  predicate PlanFor(records: seq<Gzip.Compressed>, p: Plan) {
    p.total == Gzip.Plain(records) && p.whole == ReadsWhole(records)
  }

  lemma {:induction false} AllPlayed(records: seq<Gzip.Compressed>, p: Plan, out: seq<Message>, failed: bool)
    requires PlanFor(records, p) && SoFar(p, out) && AllSent(p, out, failed)
    ensures PlayedBack(records, p.cs, p.sessionID, out, Returned(None), failed)
  {
    PlacedMeansPrefix(out, p.cs, p.sessionID, Lasting(p.total, p.whole));
  }

  lemma {:induction false} StoppedEarly(records: seq<Gzip.Compressed>, p: Plan, out: seq<Message>, r: Outcome,
                                        failed: bool)
    requires PlanFor(records, p) && SoFar(p, out)
    requires r != Returned(None) && StopsEarly(p, out, r, failed)
    ensures PlayedBack(records, p.cs, p.sessionID, out, r, failed)
  {
    PlacedMeansPrefix(out, p.cs, p.sessionID, Lasting(p.total, p.whole));
    var c := p.cs[|ControlsOf(out)|];
    assert c in p.cs;
  }

  /** With ordered control messages and a sink that accepts every write, a playback panics exactly
      when a control message lies more than one buffer beyond the end of the recording. Otherwise it
      returns nil, having sent exactly the recorded bytes and all control messages in order. */
  lemma {:induction false} PlaybackExactly(records: seq<Gzip.Compressed>, cs: seq<Value>, sessionID: string,
                                           out: seq<Message>, r: Outcome)
    requires PlayedBack(records, cs, sessionID, out, r, false)
    requires ReadsWhole(records) && Ordered(cs)
    ensures r.Panicked? <==> exists c :: c in cs && c.offset > |Gzip.Plain(records)| + RECORDING_READ_BUFFER_SIZE
    ensures !r.Panicked? ==>
              && r == Returned(None)
              && Body(out) == Gzip.Plain(records)
              && ControlsOf(out) == ShownAll(cs, sessionID)
              && forall j | 0 <= j < |cs| :: Carries(ControlsOf(out)[j], cs[j], sessionID)
  {
    PlacedMeansPrefix(out, cs, sessionID, Lasting(Gzip.Plain(records), ReadsWhole(records)));
    if !r.Panicked? {
      forall c | c in cs
        ensures c.offset <= |Gzip.Plain(records)| + RECORDING_READ_BUFFER_SIZE
      {
        var j :| 0 <= j < |cs| && cs[j] == c;
      }
    }
  }

  /** A recording without control messages played to a closed sink: nil is returned, and nothing was
      played. */
  method LostCopy(records: seq<Gzip.Compressed>, sessionID: string) returns (r: Outcome, ghost out: seq<Message>)
    ensures r == Returned(None) && out == []
  {
    var w := new Sink(true);
    r, out := WriteSessionRecords(records, [], sessionID, w);
  }

  lemma {:induction false} TwoBytes(a: byte, b: byte)
    ensures var records := [Gzip.Compressed([a]), Gzip.Compressed([b])];
            Gzip.Plain(records) == Playable(records) == [a, b]
  {
    var one, two := Gzip.Compressed([a]), Gzip.Compressed([b]);
    assert [one, two][1..] == [two] && [two][1..] == [];
    assert Gzip.Plain([two]) == [b] + Gzip.Plain([]) == [b];
    assert Playable([two]) == [b] + Playable([]) == [b];
    assert Gzip.Plain([one, two]) == [a] + Gzip.Plain([two]) && Playable([one, two]) == [a] + Playable([two]);
  }

  /** Two records of one byte each and a delay at offset 2: the last read stops at the end of the first
      record, so the delay is shown after one byte. */
  method EarlyDelay(a: byte, b: byte, sessionID: string, w: Sink) returns (r: Outcome, ghost out: seq<Message>)
    modifies w
    ensures r == Returned(None) ==> Body(out) == [a] && |ControlsOf(out)| == 1 && w.messages == old(w.messages) + out
    ensures r != Returned(None) ==> w.failures > old(w.failures)
  {
    var records := [Gzip.Compressed([a]), Gzip.Compressed([b])];
    TwoBytes(a, b);
    var delay := Value(DELAY_MESSAGE, 2, 1500, 0, 0);
    ghost var p := Plan(w.messages, sessionID, Gzip.Plain(records), true, [delay]);
    var recordingReader := new RecordingReader(records);
    var recordingBuffer := new byte[RECORDING_READ_BUFFER_SIZE];
    assert p.base + [] == p.base && records[0].plain == [a];
    var err, sent;
    err, sent, out := PlayLast(delay, recordingReader, recordingBuffer, 0, sessionID, w, p, [], [delay]);
    r := Returned(err);
    if err == None {
      assert Body(out) == p.total[..1];
      r, out := PlayControl(delay, recordingReader, sessionID, w, p, out, [delay]);
    }
  }
}
