/** The repository's sender composed with its own receiver: an upload whose device answers with the
    acknowledgement policy of `downloadFile`. Nothing in this system times out or fails. */
module Transfer {
  import opened Bytes
  import opened Download
  import opened Upload
  import opened Server

  /** `delivered` counts the published messages the device has consumed. */
  datatype System = System(server: State, device: Receiver, delivered: nat)

  function StartSystem(pieces: seq<Piece>): System {
    System(Start(pieces, Eof), Initial, 0)
  }

  /** A file as it is read: pieces of at most one buffer, with room for the window below
      the largest offset. */
  predicate Uploadable(pieces: seq<Piece>) {
    && (forall p | p in pieces :: |p| <= FILE_TRANSFER_BUFFER_SIZE)
    && |Concat(pieces)| + WINDOW <= MAX_INT64
  }

  datatype Move = ServerMove(step: Step) | DeviceMove

  /** Server steps other than timeouts, errors and acknowledgements out of nowhere. */
  predicate Progress(s: State, step: Step) {
    match step
    case WriterSelect(a) => a.Ack? || (a.Silence? && s.writer.phase.Polling?)
    case Arrive(_) => false
    case _ => true
  }

  predicate CanMove(sys: System, m: Move) {
    match m
    case ServerMove(step) => Enabled(sys.server, step) && Progress(sys.server, step)
    case DeviceMove => sys.delivered < |sys.server.writer.published| && sys.device.status.Running?
  }

  function MoveOn(sys: System, m: Move): System
    requires CanMove(sys, m)
  {
    match m
    case ServerMove(step) => sys.(server := Apply(sys.server, step))
    case DeviceMove =>
      var device := Receive(sys.device, sys.server.writer.published[sys.delivered]);
      var acks := if |device.acks| > |sys.device.acks| then [device.acks[|sys.device.acks|]] else [];
      System(sys.server.(inbox := sys.server.inbox + acks), device, sys.delivered + 1)
  }

  function RunSystem(sys: System, moves: seq<Move>): Option<System> {
    if moves == [] then Some(sys)
    else
      match RunSystem(sys, moves[..|moves| - 1])
      case None => None
      case Some(t) => if CanMove(t, moves[|moves| - 1]) then Some(MoveOn(t, moves[|moves| - 1])) else None
  }

  /** What the closed loop keeps true: the device is the receiver after a prefix of the published
      messages, and the acknowledgements processed and pending are exactly those it sent. */
  predicate SystemInv(sys: System, pieces: seq<Piece>) {
    var s := sys.server;
    && WriterInv(s.writer, pieces, Eof)
    && !s.writer.phase.Aborted?
    && ChannelInv(s)
    && sys.delivered <= |s.writer.published|
    && sys.device == Run(s.writer.published[..sys.delivered])
    && s.seen + s.inbox == sys.device.acks
  }

  lemma {:induction false} WriterMoveKeepsInv(w: Writer, step: Step, s: State, pieces: seq<Piece>)
    requires w == s.writer && WriterInv(w, pieces, Eof) && !w.phase.Aborted?
    requires Enabled(s, step) && Progress(s, step)
    ensures var v := Apply(s, step).writer;
            && WriterInv(v, pieces, Eof) && !v.phase.Aborted?
            && w.published <= v.published
  {
    match step {
      case WriterRead => PublishKeepsInv(w, pieces, Eof);
      case WriterSelect(a) => SelectKeepsInv(w, a, pieces, Eof);
      case _ =>
    }
  }

  lemma {:induction false} ServerMoveKeepsInv(sys: System, step: Step, pieces: seq<Piece>)
    requires SystemInv(sys, pieces) && CanMove(sys, ServerMove(step))
    ensures SystemInv(MoveOn(sys, ServerMove(step)), pieces)
  {
    var s := sys.server;
    var t := Apply(s, step);
    StepKeepsChannelInv(s, step);
    WriterMoveKeepsInv(s.writer, step, s, pieces);
    StepProcesses(s, step);
    assert t.writer.published[..sys.delivered] == s.writer.published[..sys.delivered];
  }

  /** A message makes the receiver send at most one acknowledgement. */
  lemma OneAckAtMost(r: Receiver, m: Message)
    ensures Receive(r, m).acks == r.acks || Receive(r, m).acks == r.acks + [Receive(r, m).latestOffset]
  {
  }

  lemma {:induction false} AcksReachInbox(sys: System, m: Message, device: Receiver, acks: seq<int>)
    requires device == Receive(sys.device, m)
    requires acks == if |device.acks| > |sys.device.acks| then [device.acks[|sys.device.acks|]] else []
    ensures device.acks == sys.device.acks + acks
    ensures sys.server.seen + (sys.server.inbox + acks) == (sys.server.seen + sys.server.inbox) + acks
  {
    OneAckAtMost(sys.device, m);
  }

  lemma {:induction false} DeviceMoveKeepsInv(sys: System, pieces: seq<Piece>)
    requires SystemInv(sys, pieces) && CanMove(sys, DeviceMove)
    ensures SystemInv(MoveOn(sys, DeviceMove), pieces)
    ensures |MoveOn(sys, DeviceMove).server.inbox| <= |sys.server.inbox| + 1
  {
    var published := sys.server.writer.published;
    var m := published[sys.delivered];
    assert published[..sys.delivered + 1] == published[..sys.delivered] + [m];
    RunSnoc(published[..sys.delivered], m);
    var device := Receive(sys.device, m);
    var acks := if |device.acks| > |sys.device.acks| then [device.acks[|sys.device.acks|]] else [];
    AcksReachInbox(sys, m, device, acks);
    var s, t := sys.server, MoveOn(sys, DeviceMove).server;
    assert t == s.(inbox := s.inbox + acks) && ChannelInv(t);
  }

  lemma {:induction false} SystemKeepsInv(pieces: seq<Piece>, moves: seq<Move>)
    requires RunSystem(StartSystem(pieces), moves).Some?
    ensures SystemInv(RunSystem(StartSystem(pieces), moves).value, pieces)
    decreases |moves|
  {
    if moves == [] {
      BeginHasInv(pieces, Eof);
    } else {
      var earlier, last := moves[..|moves| - 1], moves[|moves| - 1];
      SystemKeepsInv(pieces, earlier);
      var sys := RunSystem(StartSystem(pieces), earlier).value;
      match last {
        case ServerMove(step) => ServerMoveKeepsInv(sys, step, pieces);
        case DeviceMove => DeviceMoveKeepsInv(sys, pieces);
      }
    }
  }

  // Termination.

  function PhaseWeight(p: Phase): nat {
    if p.Polling? then 1 else 0
  }

  function InboundWeight(i: Inbound): nat {
    match i
    case Idle => 0
    case Offering => 3
    case Resending => 2
  }

  function WriterWeight(w: Writer): int {
    7 * (|w.unread| + if EndsWithEnd(w.published) then 0 else 1) + PhaseWeight(w.phase)
  }

  /** How many moves are left at most: a piece becomes a chunk, a chunk may become an
      acknowledgement, and an acknowledgement passes the inbound goroutine and the channel. */
  function Measure(sys: System): int {
    var s := sys.server;
    WriterWeight(s.writer)
    + 5 * (|s.writer.published| - sys.delivered)
    + 4 * |s.inbox|
    + InboundWeight(s.inbound)
    + if s.channel.Some? then 1 else 0
  }

  lemma {:induction false} PublishPays(w: Writer, pieces: seq<Piece>)
    requires WriterInv(w, pieces, Eof) && w.phase.Reading?
    ensures WriterWeight(Publish(w)) + 5 * |Publish(w).published| < WriterWeight(w) + 5 * |w.published|
  {
    PublishKeepsInv(w, pieces, Eof);
  }

  lemma {:induction false} SelectPays(s: State, a: Answer)
    requires Enabled(s, WriterSelect(a)) && Progress(s, WriterSelect(a))
    ensures Select(s.writer, a).published == s.writer.published
    ensures WriterWeight(Select(s.writer, a)) + (if a.Ack? then 0 else 1) <= WriterWeight(s.writer)
  {
  }

  lemma {:induction false} MeasureDecreases(sys: System, m: Move, pieces: seq<Piece>)
    requires SystemInv(sys, pieces) && CanMove(sys, m)
    ensures Measure(MoveOn(sys, m)) < Measure(sys)
  {
    match m {
      case ServerMove(step) =>
        match step {
          case WriterRead => PublishPays(sys.server.writer, pieces);
          case WriterSelect(a) => SelectPays(sys.server, a);
          case _ =>
        }
      case DeviceMove => DeviceMoveKeepsInv(sys, pieces);
    }
  }

  lemma {:induction false} RunsAreShort(pieces: seq<Piece>, moves: seq<Move>)
    requires RunSystem(StartSystem(pieces), moves).Some?
    ensures |moves| <= |moves| + Measure(RunSystem(StartSystem(pieces), moves).value) <= 7 * (|pieces| + 1)
    decreases |moves|
  {
    SystemKeepsInv(pieces, moves);
    if moves != [] {
      var earlier, last := moves[..|moves| - 1], moves[|moves| - 1];
      SystemKeepsInv(pieces, earlier);
      RunsAreShort(pieces, earlier);
      MeasureDecreases(RunSystem(StartSystem(pieces), earlier).value, last, pieces);
    }
  }

  // Deadlock freedom.

  /** A move that is possible whenever one is needed. */
  function NextMove(sys: System): Move {
    var s := sys.server;
    if s.writer.phase.Reading? then ServerMove(WriterRead)
    else if s.writer.phase.Polling? then ServerMove(WriterSelect(Silence))
    else if s.inbound.Offering? then ServerMove(InboundOffer)
    else if s.inbound.Resending? then ServerMove(InboundResend)
    else if s.inbox != [] then ServerMove(InboundReceive)
    else if s.channel.Some? && !s.writer.phase.Created? then ServerMove(WriterSelect(Ack(s.channel.value)))
    else DeviceMove
  }

  function LastOr0(xs: seq<int>): int {
    if xs == [] then 0 else xs[|xs| - 1]
  }

  /** The chunks after the last scheduled acknowledgement are too few to fill the window. */
  lemma {:induction false} UnscheduledRest(bodies: seq<seq<byte>>)
    requires forall p | p in bodies :: |p| <= FILE_TRANSFER_BUFFER_SIZE
    ensures |Concat(bodies)| - LastOr0(AckSchedule(bodies))
            <= (|bodies| % ACK_SLIDING_WINDOW_SEND) * FILE_TRANSFER_BUFFER_SIZE
    decreases |bodies|
  {
    if bodies != [] {
      UnscheduledRest(bodies[..|bodies| - 1]);
      NextCount(|bodies| - 1);
    }
  }

  /** A receiver that runs has acknowledged all but its last nine chunks at least. */
  lemma {:induction false} AcknowledgementLag(ms: seq<Message>)
    requires Run(ms).status.Running?
    requires forall p | p in Bodies(ms) :: |p| <= FILE_TRANSFER_BUFFER_SIZE
    ensures |Run(ms).written| - LastOr0(Run(ms).acks) <= (ACK_SLIDING_WINDOW_SEND - 1) * FILE_TRANSFER_BUFFER_SIZE
  {
    RunningExactlyInOrder(ms);
    UnscheduledRest(Bodies(ms));
  }

  lemma {:induction false} MaximumIsLast(x: int, xs: seq<int>, bound: nat)
    requires IsMaximum(x, xs) && Ascending(xs, bound)
    ensures x == LastOr0(xs) <= bound
  {
    if xs != [] {
      assert xs[|xs| - 1] in xs;
    }
  }

  /** Once no acknowledgement is pending, the server has seen the last one, which is the largest. */
  lemma {:induction false} LatestIsLast(sys: System, pieces: seq<Piece>)
    requires SystemInv(sys, pieces) && sys.server.inbox == []
    ensures sys.server.latest == LastOr0(sys.device.acks) <= |sys.device.written|
  {
    AcksNondecreasing(sys.server.writer.published[..sys.delivered]);
    assert sys.server.seen + [] == sys.server.seen;
    MaximumIsLast(sys.server.latest, sys.device.acks, |sys.device.written|);
  }

  lemma {:induction false} WaitingMeansBehind(w: Writer, pieces: seq<Piece>)
    requires Uploadable(pieces) && WriterInv(w, pieces, Eof)
    requires w.phase.Waiting? && 0 <= w.latestAckOffset <= w.offset
    ensures w.offset - w.latestAckOffset > WINDOW
  {
    ConcatSplit(Bodies(w.published), w.unread);
  }

  lemma {:induction false} RunningDeviceLag(w: Writer, pieces: seq<Piece>)
    requires Uploadable(pieces) && WriterInv(w, pieces, Eof) && !EndsWithEnd(w.published)
    ensures var r := Run(w.published);
            |r.written| == w.offset && w.offset - LastOr0(r.acks) <= WINDOW
  {
    RunningExactlyInOrder(w.published);
    assert forall p | p in Bodies(w.published) :: p in pieces;
    AcknowledgementLag(w.published);
  }

  /** Once the device has consumed everything and nothing is on its way, the writer has no reason
      to wait: its window is open, and after the end chunk everything is acknowledged. */
  lemma {:induction false} NothingToWaitFor(sys: System, pieces: seq<Piece>)
    requires Uploadable(pieces) && SystemInv(sys, pieces)
    requires sys.server.inbox == [] && sys.server.inbound.Idle? && sys.server.channel.None?
    requires sys.delivered == |sys.server.writer.published|
    ensures !sys.server.writer.phase.Waiting? && !sys.server.writer.phase.Draining?
  {
    var w := sys.server.writer;
    LatestIsLast(sys, pieces);
    assert w.published[..sys.delivered] == w.published;
    assert w.latestAckOffset == sys.server.latest;
    if w.phase.Draining? {
      CompleteStreamReceived(w, pieces, Eof);
    } else if w.phase.Waiting? {
      RunningDeviceLag(w, pieces);
      WaitingMeansBehind(w, pieces);
    }
  }

  lemma {:induction false} ServerMoveIsPossible(sys: System)
    requires ChannelInv(sys.server) && !sys.server.writer.phase.Aborted? && !NextMove(sys).DeviceMove?
    ensures CanMove(sys, NextMove(sys))
  {
  }

  lemma {:induction false} NextMoveIsPossible(sys: System, pieces: seq<Piece>)
    requires Uploadable(pieces) && SystemInv(sys, pieces)
    requires !sys.server.writer.phase.Created?
    ensures CanMove(sys, NextMove(sys))
  {
    var w := sys.server.writer;
    if !NextMove(sys).DeviceMove? {
      ServerMoveIsPossible(sys);
    } else {
      if sys.delivered < |w.published| {
        DeviceStopsAtEnd(w, pieces, sys.delivered);
      } else {
        NothingToWaitFor(sys, pieces);
      }
    }
  }

  /** The device runs until it has the end chunk. */
  lemma {:induction false} DeviceStopsAtEnd(w: Writer, pieces: seq<Piece>, delivered: nat)
    requires WriterInv(w, pieces, Eof) && delivered < |w.published|
    ensures Run(w.published[..delivered]).status.Running?
  {
    var data := DataChunks(w.published);
    var seen := w.published[..delivered];
    assert seen == data[..delivered];
    forall i | 0 <= i < |seen|
      ensures InOrder(seen, i)
    {
      assert seen[..i] == data[..i];
      assert InOrder(data, i);
    }
    RunningExactlyInOrder(seen);
  }

  /** No reachable state of the closed loop is stuck before 201: some move other than a timeout is
      always possible. */
  lemma {:induction false} NoDeadlock(pieces: seq<Piece>, moves: seq<Move>)
    requires Uploadable(pieces) && RunSystem(StartSystem(pieces), moves).Some?
    ensures var sys := RunSystem(StartSystem(pieces), moves).value;
            sys.server.writer.phase.Created? || CanMove(sys, NextMove(sys))
  {
    SystemKeepsInv(pieces, moves);
    var sys := RunSystem(StartSystem(pieces), moves).value;
    if !sys.server.writer.phase.Created? {
      NextMoveIsPossible(sys, pieces);
    }
  }

  /** The writer never holds more than the device wrote. */
  lemma {:induction false} AcknowledgedIsWritten(sys: System, pieces: seq<Piece>)
    requires SystemInv(sys, pieces)
    ensures sys.server.writer.latestAckOffset <= |sys.device.written|
  {
    AcksNondecreasing(sys.server.writer.published[..sys.delivered]);
    var w, s := sys.server.writer, sys.server;
    if w.taken != [] {
      var o := w.taken[|w.taken| - 1];
      assert o in w.taken && o in s.seen;
      var i :| 0 <= i < |s.seen| && s.seen[i] == o;
      assert (s.seen + s.inbox)[i] == sys.device.acks[i];
    }
  }

  /** Before the end chunk the device has a prefix of what was published. */
  lemma {:induction false} DeviceHasPrefix(w: Writer, pieces: seq<Piece>, delivered: nat)
    requires WriterInv(w, pieces, Eof) && delivered < |w.published|
    ensures Run(w.published[..delivered]).written <= Payload(DataChunks(w.published))
  {
    var data := DataChunks(w.published);
    DeviceStopsAtEnd(w, pieces, delivered);
    RunningExactlyInOrder(w.published[..delivered]);
    assert w.published[..delivered] == data[..delivered];
    PayloadOfPrefix(data, delivered);
  }

  /** 201 in the closed loop: everything was published, and the device holds the identical file. */
  lemma {:induction false} CreatedMeansReassembled(pieces: seq<Piece>, moves: seq<Move>)
    requires RunSystem(StartSystem(pieces), moves).Some?
    requires RunSystem(StartSystem(pieces), moves).value.server.writer.phase.Created?
    ensures var sys := RunSystem(StartSystem(pieces), moves).value;
            && sys.device.written == Concat(pieces)
            && DeliversWholeFile(sys.server.writer.published, pieces)
  {
    SystemKeepsInv(pieces, moves);
    CreatedHasFile(RunSystem(StartSystem(pieces), moves).value, pieces);
  }

  lemma {:induction false} CreatedHasFile(sys: System, pieces: seq<Piece>)
    requires SystemInv(sys, pieces) && sys.server.writer.phase.Created?
    ensures sys.device.written == Concat(pieces) && DeliversWholeFile(sys.server.writer.published, pieces)
  {
    var w := sys.server.writer;
    InvMeansPrefix(w, pieces, Eof);
    if sys.delivered < |w.published| {
      AcknowledgedIsWritten(sys, pieces);
      assert Bodies(DataChunks(w.published)) + [] == Bodies(DataChunks(w.published));
      DeviceHasPrefix(w, pieces, sys.delivered);
    } else {
      assert w.published[..sys.delivered] == w.published;
      CompleteStreamReceived(w, pieces, Eof);
    }
  }

  lemma {:induction false} PayloadOfPrefix(ms: seq<Message>, i: nat)
    requires i <= |ms|
    ensures Payload(ms[..i]) <= Payload(ms)
    decreases |ms|
  {
    if i == |ms| {
      assert ms[..i] == ms;
    } else {
      var init := ms[..|ms| - 1];
      PayloadOfPrefix(init, i);
      assert init[..i] == ms[..i] && ms == init + [ms[|ms| - 1]];
      BodiesSnoc(init, ms[|ms| - 1]);
    }
  }

  /** Every run of the closed loop takes at most seven moves per piece and seven more, and a run that
      cannot be continued has ended in 201, with the identical file on a device that saw its end. */
  lemma {:induction false} EveryRunEndsInCreated(pieces: seq<Piece>, moves: seq<Move>)
    requires Uploadable(pieces) && RunSystem(StartSystem(pieces), moves).Some?
    ensures |moves| <= 7 * (|pieces| + 1)
    ensures var sys := RunSystem(StartSystem(pieces), moves).value;
            (forall m: Move :: !CanMove(sys, m)) ==>
              && sys.server.writer.phase.Created?
              && sys.device.status.Finished?
              && sys.device.written == Concat(pieces)
  {
    RunsAreShort(pieces, moves);
    NoDeadlock(pieces, moves);
    SystemKeepsInv(pieces, moves);
    var sys := RunSystem(StartSystem(pieces), moves).value;
    if forall m: Move :: !CanMove(sys, m) {
      assert !CanMove(sys, NextMove(sys)) && !CanMove(sys, DeviceMove);
      CreatedMeansReassembled(pieces, moves);
      var w := sys.server.writer;
      if sys.delivered < |w.published| {
        DeviceStopsAtEnd(w, pieces, sys.delivered);
      } else {
        assert w.published[..sys.delivered] == w.published;
        CompleteStreamReceived(w, pieces, Eof);
      }
    }
  }
}
