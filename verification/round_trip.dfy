/** Recording a session and playing it back, end to end. */
module RoundTrip {
  import opened Bytes
  import opened Control
  import opened ControlReader
  import opened Playback
  import opened Merge
  import ControlStore
  import Recorder
  import Session
  import Terminal
  import Gzip

  predicate NoneEmpty(records: seq<Gzip.Compressed>) {
    forall r | r in records :: r.plain != []
  }

  lemma {:induction false} NonemptyReadsWhole(records: seq<Gzip.Compressed>)
    requires NoneEmpty(records)
    ensures ReadsWhole(records)
    decreases |records|
  {
    if records != [] {
      assert records[0] in records && forall r | r in records[1..] :: r in records;
      NonemptyReadsWhole(records[1..]);
    }
  }

  /** What is popped was in the bytes: its encoding is no longer than they are. */
  lemma {:induction false} NoLongerThanRead(fill: seq<byte>, rest: seq<byte>)
    ensures |EncodeAll(Messages(fill, rest))| <= |fill| + |rest|
    decreases |fill| + |rest|, |rest|
  {
    if fill == [] {
      if rest != [] {
        var n := if |rest| < CONTROL_READ_BUFFER_SIZE then |rest| else CONTROL_READ_BUFFER_SIZE;
        NoLongerThanRead(rest[..n], rest[n..]);
      }
    } else if Whole(fill) {
      DecodeInverts(fill);
      MessagesWhole(fill, rest);
      NoLongerThanRead(fill[LengthOf(fill[0])..], rest);
    }
  }

  lemma {:induction false} PlainLength(records: seq<Gzip.Compressed>)
    requires NoneEmpty(records)
    ensures |Gzip.Plain(records)| >= |records|
    decreases |records|
  {
    if records != [] {
      assert records[0] in records && forall r | r in records[1..] :: r in records;
      PlainLength(records[1..]);
    }
  }

  /** Control messages cut into nonempty records in any way: a prefix of them is read back, and all of
      them exactly when there is at most one record and no message straddles the end of a fill. */
  lemma {:induction false} RecordedExactly(cs: seq<Value>, controls: seq<Gzip.Compressed>)
    requires AllCanonical(cs) && NoneEmpty(controls) && Gzip.Plain(controls) == EncodeAll(cs)
    ensures Recorded(controls) <= cs
    ensures Recorded(controls) == cs <==> |controls| <= 1 && FillsAligned(cs)
  {
    ReadsBackExactly(cs);
    if controls == [] {
      assert Messages([], EncodeAll(cs)) == [];
    } else {
      var first, more := controls[0].plain, controls[1..];
      assert controls[0] in controls && forall r | r in more :: r in controls;
      assert [] + first == first;
      PrefixReadsPrefix(cs, [], first);
      if |controls| == 1 {
        assert more == [] && first + [] == first;
      } else {
        PlainLength(more);
        NoLongerThanRead([], first);
      }
    }
  }

  /** Two control messages, stored as one record each: neither straddles a fill, and only the first
      comes back. */
  lemma {:induction false} SecondRecordIsLost(a: Value, b: Value)
    requires Canonical(a) && Canonical(b)
    ensures var controls := [Gzip.Compressed(Encode(a)), Gzip.Compressed(Encode(b))];
            && Gzip.Plain(controls) == EncodeAll([a, b]) && FillsAligned([a, b])
            && Recorded(controls) == [a]
  {
    var one, two := Gzip.Compressed(Encode(a)), Gzip.Compressed(Encode(b));
    assert [one, two][1..] == [two] && [two][1..] == [];
    assert [a, b] == [a] + [b] && [a] == [] + [a];
    EncodeSnoc([a], b);
    EncodeSnoc([], a);
    assert EncodeAll([a]) == [] + Encode(a) == Encode(a);
    assert Gzip.Plain([two]) == Encode(b) + [] == Encode(b);
    OneFillIsAligned([a, b]);
    OneFillReadsBack([a]);
  }

  lemma {:induction false} ShownPrefix(a: seq<Value>, cs: seq<Value>, sessionID: string)
    requires a <= cs
    ensures ShownAll(a, sessionID) <= ShownAll(cs, sessionID)
    ensures ShownAll(a, sessionID) == ShownAll(cs, sessionID) <==> a == cs
  {
  }

  /** For every run of a session with messages of at most the limit, and for every way its bytes were
      cut into nonempty records, the playback of the stored records to a sink that accepts every
      write returns nil, sends exactly the recorded bytes, and sends a prefix of the recorded control
      messages, each within one buffer before its offset. It sends all of them exactly when they were
      stored as one record and none straddles a multiple of 4096 bytes. */
  lemma {:induction false} RecordedSessionPlaysBack(start: int, events: seq<Session.Event>, sessionID: string,
                                                    recordings: seq<Gzip.Compressed>,
                                                    controls: seq<Gzip.Compressed>,
                                                    out: seq<Message>, r: Outcome)
    requires Session.BodiesAtMost(events, Session.MESSAGE_SIZE_LIMIT)
    requires NoneEmpty(recordings) && Gzip.Plain(recordings) == Session.Run(start, events).recorded
    requires NoneEmpty(controls) && Gzip.Plain(controls) == EncodeAll(Session.Run(start, events).controls)
    requires PlayedBack(recordings, Recorded(controls), sessionID, out, r, false)
    ensures var s := Session.Run(start, events);
            && r == Returned(None)
            && Body(out) == s.recorded
            && ControlsOf(out) <= ShownAll(s.controls, sessionID)
            && Placed(out, s.controls, sessionID, |s.recorded|)
            && (forall j | 0 <= j < |ControlsOf(out)| :: Carries(ControlsOf(out)[j], s.controls[j], sessionID))
            && (ControlsOf(out) == ShownAll(s.controls, sessionID) <==>
                  |controls| <= 1 && FillsAligned(s.controls))
  {
    var s := Session.Run(start, events);
    var cs := Recorded(controls);
    RecordedFits(start, events, controls);
    NonemptyReadsWhole(recordings);
    PlaybackExactly(recordings, cs, sessionID, out, r);
    ShownPrefix(cs, s.controls, sessionID);
    PlacedInLonger(out, cs, s.controls, sessionID, |s.recorded|);
  }

  /** The control messages read back from a recorded run. */
  lemma {:induction false} RecordedFits(start: int, events: seq<Session.Event>, controls: seq<Gzip.Compressed>)
    requires Session.BodiesAtMost(events, Session.MESSAGE_SIZE_LIMIT)
    requires NoneEmpty(controls) && Gzip.Plain(controls) == EncodeAll(Session.Run(start, events).controls)
    ensures var s, cs := Session.Run(start, events), Recorded(controls);
            && cs <= s.controls && Ordered(cs)
            && (forall c | c in cs :: c.offset <= |s.recorded|)
            && (cs == s.controls <==> |controls| <= 1 && FillsAligned(s.controls))
  {
    var s, cs := Session.Run(start, events), Recorded(controls);
    Session.RecorderKeepsInv(start, events);
    Session.RecordedCanonical(start, events);
    RecordedExactly(s.controls, controls);
    assert forall c | c in cs :: c in s.controls;
  }

  lemma {:induction false} PlacedInLonger(out: seq<Message>, a: seq<Value>, cs: seq<Value>, sessionID: string,
                                          total: int)
    requires a <= cs && Placed(out, a, sessionID, total)
    ensures Placed(out, cs, sessionID, total)
    decreases |out|
  {
    if out != [] {
      PlacedInLonger(out[..|out| - 1], a, cs, sessionID, total);
    }
  }

  /** In particular, control messages stored as one record of at most one fill all come back. */
  lemma {:induction false} ShortSessionPlaysBack(start: int, events: seq<Session.Event>, sessionID: string,
                                                 recordings: seq<Gzip.Compressed>, controls: seq<Gzip.Compressed>,
                                                 out: seq<Message>, r: Outcome)
    requires Session.BodiesAtMost(events, Session.MESSAGE_SIZE_LIMIT)
    requires NoneEmpty(recordings) && Gzip.Plain(recordings) == Session.Run(start, events).recorded
    requires NoneEmpty(controls) && Gzip.Plain(controls) == EncodeAll(Session.Run(start, events).controls)
    requires |controls| <= 1 && |Gzip.Plain(controls)| <= CONTROL_READ_BUFFER_SIZE
    requires PlayedBack(recordings, Recorded(controls), sessionID, out, r, false)
    ensures var s := Session.Run(start, events);
            && r == Returned(None)
            && Body(out) == s.recorded
            && ControlsOf(out) == ShownAll(s.controls, sessionID)
            && forall j | 0 <= j < |s.controls| :: Carries(ControlsOf(out)[j], s.controls[j], sessionID)
  {
    RecordedSessionPlaysBack(start, events, sessionID, recordings, controls, out, r);
    OneFillIsAligned(Session.Run(start, events).controls);
  }

  /** The control messages of a run all come back: they are stored as one record, and none straddles
      the end of a fill. */
  ghost predicate ControlsComeBack(start: int, events: seq<Session.Event>) {
    var cs := Session.Run(start, events).controls;
    ControlStore.OneRecord(cs, ControlStore.FirstEnd(start, events)) && FillsAligned(cs)
  }

  /** In particular, they do if they fit in one fill and were all recorded before, or all after, the
      first end of a goroutine. */
  lemma {:induction false} ShortSessionComesBack(start: int, events: seq<Session.Event>)
    requires var cs := Session.Run(start, events).controls;
             var first := ControlStore.FirstEnd(start, events);
             && |EncodeAll(cs)| <= CONTROL_READ_BUFFER_SIZE
             && (first.Some? ==> first.value.controls == [] || first.value.controls == cs)
    ensures ControlsComeBack(start, events)
  {
    OneFillIsAligned(Session.Run(start, events).controls);
  }

  /** The smallest run that loses one: the user resizes, the writer ends, the user resizes again. */
  lemma {:induction false} LateResizeIsLost(start: int)
    ensures var resize := Session.UserResize(false, false);
            !ControlsComeBack(start, [resize, Session.WriterEnds, resize])
  {
    var resize := Session.UserResize(false, false);
    var one, two, three := [resize], [resize, Session.WriterEnds], [resize, Session.WriterEnds, resize];
    assert one == [] + [resize] && two == one + [Session.WriterEnds] && three == two + [resize];
    Session.RunSnoc(start, [], resize);
    Session.RunSnoc(start, one, Session.WriterEnds);
    Session.RunSnoc(start, two, resize);
    assert three[..2] == two && two[..1] == one && one[..0] == [];
    var c := Value(RESIZE_MESSAGE, 0, 0, 0, 0);
    assert Session.Run(start, one).controls == [c] && Session.Run(start, three).controls == [c] + [c];
    assert Session.Run(start, one).running && Session.Run(start, one).looping;
    assert ControlStore.FirstEnd(start, one) == None;
    assert two[..|two| - 1] == one && three[..|three| - 1] == two;
    assert ControlStore.FirstEnd(start, two) == Some(Session.Run(start, two));
  }

  /** A session served until both its goroutines have ended, with the records it left in the store. */
  method ServeAndStore(sessionID: string, events: seq<Session.Event>, now: int)
    returns (recordings: seq<Gzip.Compressed>, controls: seq<Gzip.Compressed>)
    requires sessionID != []
    ensures NoneEmpty(recordings) && Gzip.Plain(recordings) == Session.Run(now, events).recorded
    ensures controls == Session.Ended(Session.Run(now, events)).controlBuffer.stored
  {
    var recordingData := new Recorder.Collection();
    var controlData := new Recorder.Collection();
    var session := new Terminal.TerminalSession(sessionID, recordingData, controlData, now);
    session.Serve(events);
    recordings, controls := recordingData.Records(sessionID), controlData.Records(sessionID);
  }

  /** A session served, stored, and played back from the store. Unless the sink fails, the recorded bytes
      are shown exactly, and of the control messages a prefix; all of them are shown exactly when
      `ControlsComeBack`. */
  method RecordAndPlayBack(sessionID: string, events: seq<Session.Event>, now: int, w: Sink)
    returns (r: Outcome, ghost out: seq<Message>)
    requires sessionID != [] && Session.BodiesAtMost(events, Session.MESSAGE_SIZE_LIMIT)
    modifies w
    ensures w.messages == old(w.messages) + out
    ensures w.failures == old(w.failures) ==>
              var s := Session.Run(now, events);
              && r == Returned(None)
              && Body(out) == s.recorded
              && ControlsOf(out) <= ShownAll(s.controls, sessionID)
              && Placed(out, s.controls, sessionID, |s.recorded|)
              && (forall j | 0 <= j < |ControlsOf(out)| :: Carries(ControlsOf(out)[j], s.controls[j], sessionID))
              && (ControlsOf(out) == ShownAll(s.controls, sessionID) <==> ControlsComeBack(now, events))
  {
    var recordings, controls := ServeAndStore(sessionID, events, now);
    ControlStore.ControlRecords(now, events);
    r, out := WriteSessionRecords(recordings, controls, sessionID, w);
    if w.failures == old(w.failures) {
      RecordedSessionPlaysBack(now, events, sessionID, recordings, controls, out, r);
    }
  }
}
