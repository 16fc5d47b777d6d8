/** The two goroutines of an upload and the channel of capacity one between them, as a transition
    system: the writer of module Upload, the goroutine that keeps only the latest acknowledgement,
    and a device that may send any acknowledgements at any time. */
module Server {
  import opened Bytes
  import opened Upload
  import opened Window

  /** Idle: at the receive of the next message. Offering: at the inner select. Resending: after
      that select drained the channel. */
  datatype Inbound = Idle | Offering | Resending

  datatype State = State(
    writer: Writer,
    inbox: seq<int>,
    inbound: Inbound,
    latest: int,
    seen: seq<int>,
    channel: Option<int>)

  function Start(pieces: seq<Piece>, ending: Ending): State {
    State(Begin(pieces, ending), [], Idle, 0, [], None)
  }

  datatype Step =
    | WriterRead
    | WriterSelect(answer: Answer)
    | Arrive(offset: int)
    | InboundReceive
    | InboundOffer
    | InboundResend

  predicate Enabled(s: State, step: Step) {
    match step
    case WriterRead => s.writer.phase.Reading?
    case WriterSelect(a) => (
      match a
      case Ack(o) => (s.writer.phase.Waiting? || s.writer.phase.Draining?) && s.channel == Some(o)
      case Failure(_) => s.writer.phase.Polling? || s.writer.phase.Waiting?
      case Silence => Selecting(s.writer))
    case Arrive(o) => -MAX_INT64 - 1 <= o <= MAX_INT64
    case InboundReceive => s.inbound.Idle? && s.inbox != []
    case InboundOffer => s.inbound.Offering?
    case InboundResend => s.inbound.Resending? && s.channel.None?
  }

  function Apply(s: State, step: Step): State
    requires Enabled(s, step)
  {
    match step
    case WriterRead => s.(writer := Publish(s.writer))
    case WriterSelect(a) =>
      s.(writer := Select(s.writer, a), channel := if a.Ack? then None else s.channel)
    case Arrive(o) => s.(inbox := s.inbox + [o])
    case InboundReceive =>
      var o := s.inbox[0];
      var t := s.(inbox := s.inbox[1..], seen := s.seen + [o]);
      if o > s.latest then t.(latest := o, inbound := Offering) else t
    case InboundOffer =>
      if s.channel.None? then s.(channel := Some(s.latest), inbound := Idle)
      else s.(channel := None, inbound := Resending)
    case InboundResend => s.(channel := Some(s.latest), inbound := Idle)
  }

  /** The state after the steps, if each was enabled in its turn. */
  function Exec(s: State, steps: seq<Step>): Option<State> {
    if steps == [] then Some(s)
    else
      match Exec(s, steps[..|steps| - 1])
      case None => None
      case Some(t) => if Enabled(t, steps[|steps| - 1]) then Some(Apply(t, steps[|steps| - 1])) else None
  }

  /** Every acknowledgement the device sent in a run. */
  function Sent(steps: seq<Step>): seq<int> {
    if steps == [] then []
    else
      var last := steps[|steps| - 1];
      Sent(steps[..|steps| - 1]) + if last.Arrive? then [last.offset] else []
  }

  /** What the selects of the writer found in a run. */
  function Found(steps: seq<Step>): seq<Answer> {
    if steps == [] then []
    else
      var last := steps[|steps| - 1];
      Found(steps[..|steps| - 1]) + if last.WriterSelect? then [last.answer] else []
  }

  predicate StrictlyIncreasing(xs: seq<int>) {
    forall i, j | 0 <= i < j < |xs| :: xs[i] < xs[j]
  }

  /** `x` is the largest positive element of `xs`, or 0. */
  predicate IsMaximum(x: int, xs: seq<int>) {
    && x >= 0
    && (forall y | y in xs :: y <= x)
    && (x == 0 || x in xs)
  }

  /** What the channel and its two ends keep true. */
  predicate ChannelInv(s: State) {
    && IsMaximum(s.latest, s.seen)
    && StrictlyIncreasing(s.writer.taken)
    && (forall o | o in s.writer.taken :: o > 0 && o in s.seen)
    && s.writer.latestAckOffset == (if s.writer.taken == [] then 0 else s.writer.taken[|s.writer.taken| - 1])
    && (s.channel.Some? ==> s.writer.latestAckOffset < s.channel.value <= s.latest && s.channel.value in s.seen)
    && match s.inbound
       case Idle => s.latest == if s.channel.Some? then s.channel.value else s.writer.latestAckOffset
       case Offering => s.writer.latestAckOffset < s.latest && (s.channel.Some? ==> s.channel.value < s.latest)
       case Resending => s.writer.latestAckOffset < s.latest && s.channel.None?
  }

  lemma {:induction false} StepKeepsChannelInv(s: State, step: Step)
    requires ChannelInv(s) && Enabled(s, step)
    ensures ChannelInv(Apply(s, step))
  {
    var t := Apply(s, step);
    assert s.writer.taken != [] ==> s.writer.taken[|s.writer.taken| - 1] in s.writer.taken;
    assert s.writer.latestAckOffset >= 0;
    match step {
      case WriterRead =>
        assert t.writer.taken == s.writer.taken && t.writer.latestAckOffset == s.writer.latestAckOffset;
      case WriterSelect(a) =>
        if a.Ack? {
          assert t.writer.taken == s.writer.taken + [a.offset];
        }
      case InboundReceive =>
        assert s.inbox[0] in t.seen && forall o | o in s.seen :: o in t.seen;
      case _ =>
    }
  }

  /** Over all interleavings: the acknowledgements processed and pending are exactly those the device
      sent; the writer received strictly increasing ones among them; and whenever the inbound
      goroutine is idle, the largest it processed sits in the channel, or, when that is empty, is the
      one the writer holds. Nothing newer than the writer's offset is ever lost. */
  lemma {:induction false} ConflationLosesNothing(pieces: seq<Piece>, ending: Ending, steps: seq<Step>)
    requires Exec(Start(pieces, ending), steps).Some?
    ensures var s := Exec(Start(pieces, ending), steps).value;
            && ChannelInv(s)
            && s.seen + s.inbox == Sent(steps)
    decreases |steps|
  {
    if steps != [] {
      var earlier, last := steps[..|steps| - 1], steps[|steps| - 1];
      ConflationLosesNothing(pieces, ending, earlier);
      var s := Exec(Start(pieces, ending), earlier).value;
      StepKeepsChannelInv(s, last);
      StepProcesses(s, last);
    }
  }

  lemma {:induction false} StepProcesses(s: State, step: Step)
    requires Enabled(s, step)
    ensures var t := Apply(s, step);
            t.seen + t.inbox == s.seen + s.inbox + if step.Arrive? then [step.offset] else []
  {
  }

  /** The send after draining the channel never blocks: only the writer could have filled it. */
  lemma {:induction false} ResendNeverBlocks(pieces: seq<Piece>, ending: Ending, steps: seq<Step>)
    requires Exec(Start(pieces, ending), steps).Some?
    ensures var s := Exec(Start(pieces, ending), steps).value;
            s.inbound.Resending? ==> Enabled(s, InboundResend)
  {
    ConflationLosesNothing(pieces, ending, steps);
  }

  /** In every interleaving the writer behaves as the sequential writer that finds the same answers. */
  lemma {:induction false} WriterRefines(pieces: seq<Piece>, ending: Ending, steps: seq<Step>)
    requires Exec(Start(pieces, ending), steps).Some?
    ensures Settled(Exec(Start(pieces, ending), steps).value.writer) == WriterAfter(pieces, ending, Found(steps))
    decreases |steps|
  {
    if steps != [] {
      var earlier, last := steps[..|steps| - 1], steps[|steps| - 1];
      WriterRefines(pieces, ending, earlier);
      var s := Exec(Start(pieces, ending), earlier).value;
      SettledAfter(s, last);
      if last.WriterSelect? {
        WriterAfterSnoc(pieces, ending, Found(earlier), last.answer);
      } else {
        assert Found(steps) == Found(earlier);
      }
    }
  }

  /** Only the selects of the writer change where it will be at its next select. */
  lemma {:induction false} SettledAfter(s: State, step: Step)
    requires Enabled(s, step)
    ensures step.WriterSelect? ==>
              Selecting(s.writer) && Settled(Apply(s, step).writer) == Settled(Select(s.writer, step.answer))
    ensures !step.WriterSelect? ==> Settled(Apply(s, step).writer) == Settled(s.writer)
  {
  }

  /** 201 means full delivery in every interleaving: the chunks are contiguous and complete, one end
      chunk follows, and the device did send an acknowledgement of at least the length of the file. */
  lemma {:induction false} UploadSuccessMeansFullDelivery(pieces: seq<Piece>, ending: Ending, steps: seq<Step>)
    requires Exec(Start(pieces, ending), steps).Some?
    requires Exec(Start(pieces, ending), steps).value.writer.phase.Created?
    ensures DeliversWholeFile(Exec(Start(pieces, ending), steps).value.writer.published, pieces)
    ensures Concat(pieces) != [] ==> exists o :: o in Sent(steps) && o >= |Concat(pieces)|
  {
    var s := Exec(Start(pieces, ending), steps).value;
    WriterRefines(pieces, ending, steps);
    assert WriterAfter(pieces, ending, Found(steps)) == s.writer;
    CreatedMeansDelivered(pieces, ending, Found(steps));
    if Concat(pieces) != [] {
      LastTakenWasSent(pieces, ending, steps);
    }
  }

  lemma {:induction false} LastTakenWasSent(pieces: seq<Piece>, ending: Ending, steps: seq<Step>)
    requires Exec(Start(pieces, ending), steps).Some?
    requires Exec(Start(pieces, ending), steps).value.writer.taken != []
    ensures var taken := Exec(Start(pieces, ending), steps).value.writer.taken;
            taken[|taken| - 1] in Sent(steps)
  {
    ConflationLosesNothing(pieces, ending, steps);
    var s := Exec(Start(pieces, ending), steps).value;
    var o := s.writer.taken[|s.writer.taken| - 1];
    assert o in s.writer.taken && o in s.seen + s.inbox;
  }

  lemma {:induction false} SentInRange(pieces: seq<Piece>, ending: Ending, steps: seq<Step>)
    requires Exec(Start(pieces, ending), steps).Some?
    ensures forall o | o in Sent(steps) :: -MAX_INT64 - 1 <= o <= MAX_INT64
    decreases |steps|
  {
    if steps != [] {
      SentInRange(pieces, ending, steps[..|steps| - 1]);
    }
  }

  /** The device may send any acknowledgements of 64 bits, whatever the server does. */
  lemma {:induction false} SentExactly(pieces: seq<Piece>, ending: Ending, sent: seq<int>)
    ensures (forall o | o in sent :: -0x8000_0000_0000_0000 <= o <= 0x7fff_ffff_ffff_ffff) <==>
            exists steps :: Exec(Start(pieces, ending), steps).Some? && Sent(steps) == sent
  {
    if forall o | o in sent :: -0x8000_0000_0000_0000 <= o <= 0x7fff_ffff_ffff_ffff {
      var steps := Sending(pieces, ending, sent);
      assert Exec(Start(pieces, ending), steps).Some? && Sent(steps) == sent;
    }
    forall steps | Exec(Start(pieces, ending), steps).Some? && Sent(steps) == sent
      ensures forall o | o in sent :: -0x8000_0000_0000_0000 <= o <= 0x7fff_ffff_ffff_ffff
    {
      SentInRange(pieces, ending, steps);
    }
  }

  lemma {:induction false} Sending(pieces: seq<Piece>, ending: Ending, sent: seq<int>) returns (steps: seq<Step>)
    requires forall o | o in sent :: -MAX_INT64 - 1 <= o <= MAX_INT64
    ensures Exec(Start(pieces, ending), steps).Some? && Sent(steps) == sent
    decreases |sent|
  {
    steps := [];
    if sent != [] {
      var init, o := sent[..|sent| - 1], sent[|sent| - 1];
      assert sent == init + [o] && o in sent && forall x | x in init :: x in sent;
      var earlier := Sending(pieces, ending, init);
      steps := earlier + [Arrive(o)];
      assert steps[..|steps| - 1] == earlier;
    }
  }

  /** An answer that the goroutine and the device can give to the select of `w`: an acknowledgement where one
      is awaited, above the one held and in 64 bits; an error after a chunk; or nothing. */
  predicate Possible(w: Writer, a: Answer) {
    && Selecting(w)
    && (a.Ack? ==> !w.phase.Polling? && w.latestAckOffset < a.offset <= 0x7fff_ffff_ffff_ffff)
    && (a.Failure? ==> !w.phase.Draining?)
  }

  predicate AllPossible(pieces: seq<Piece>, ending: Ending, answers: seq<Answer>) {
    forall k | 0 <= k < |answers| :: Possible(WriterAfter(pieces, ending, answers[..k]), answers[k])
  }

  /** The interleavings lead the writer through exactly the possible answers: what is proved of the
      sequential writer for all of those says neither more nor less than what the goroutines can do. */
  lemma {:induction false} FoundExactly(pieces: seq<Piece>, ending: Ending, answers: seq<Answer>)
    ensures AllPossible(pieces, ending, answers) <==>
            exists steps :: Exec(Start(pieces, ending), steps).Some? && Found(steps) == answers
  {
    if AllPossible(pieces, ending, answers) {
      var steps := QuietRun(pieces, ending, answers);
      assert Exec(Start(pieces, ending), steps).Some? && Found(steps) == answers;
    }
    forall steps | Exec(Start(pieces, ending), steps).Some? && Found(steps) == answers
      ensures AllPossible(pieces, ending, answers)
    {
      FoundPossible(pieces, ending, steps);
    }
  }

  lemma {:induction false} FoundPossible(pieces: seq<Piece>, ending: Ending, steps: seq<Step>)
    requires Exec(Start(pieces, ending), steps).Some?
    ensures AllPossible(pieces, ending, Found(steps))
    decreases |steps|
  {
    if steps != [] {
      var earlier, last := steps[..|steps| - 1], steps[|steps| - 1];
      FoundPossible(pieces, ending, earlier);
      if last.WriterSelect? {
        WriterRefines(pieces, ending, earlier);
        ConflationLosesNothing(pieces, ending, earlier);
        SentInRange(pieces, ending, earlier);
        PossibleSelect(Exec(Start(pieces, ending), earlier).value, last.answer);
        PossibleSnoc(pieces, ending, Found(earlier), last.answer);
      } else {
        assert Found(steps) == Found(earlier);
      }
    }
  }

  lemma {:induction false} PossibleSelect(s: State, a: Answer)
    requires ChannelInv(s) && Enabled(s, WriterSelect(a))
    requires forall o | o in s.seen + s.inbox :: o <= MAX_INT64
    ensures Possible(s.writer, a) && Settled(s.writer) == s.writer
  {
    assert s.channel.Some? ==> s.channel.value in s.seen + s.inbox;
  }

  lemma {:induction false} PossibleSnoc(pieces: seq<Piece>, ending: Ending, answers: seq<Answer>, a: Answer)
    ensures AllPossible(pieces, ending, answers + [a]) <==>
            AllPossible(pieces, ending, answers) && Possible(WriterAfter(pieces, ending, answers), a)
  {
    var all := answers + [a];
    assert all[..|answers|] == answers && all[|answers|] == a;
    assert forall k | 0 <= k < |answers| :: all[..k] == answers[..k] && all[k] == answers[k];
  }

  /** A run that found `answers` and left nothing under way: the writer is at its next select. */
  predicate Quiet(pieces: seq<Piece>, ending: Ending, answers: seq<Answer>, steps: seq<Step>) {
    var end := Exec(Start(pieces, ending), steps);
    && end.Some? && Found(steps) == answers
    && var w := WriterAfter(pieces, ending, answers);
       && w.latestAckOffset >= 0
       && end.value == State(w, [], Idle, w.latestAckOffset, end.value.seen, None)
  }

  lemma {:induction false} QuietRun(pieces: seq<Piece>, ending: Ending, answers: seq<Answer>)
    returns (steps: seq<Step>)
    requires AllPossible(pieces, ending, answers)
    ensures Quiet(pieces, ending, answers, steps)
    decreases |answers|
  {
    if answers == [] {
      steps := [WriterRead];
      ExecSnoc(Start(pieces, ending), [], Start(pieces, ending), WriterRead);
    } else {
      var earlier, a := answers[..|answers| - 1], answers[|answers| - 1];
      assert answers == earlier + [a];
      PossibleSnoc(pieces, ending, earlier, a);
      var quiet := QuietRun(pieces, ending, earlier);
      steps := QuietSnoc(pieces, ending, earlier, quiet, a);
    }
  }

  /** An acknowledgement is first sent by the device and put into the empty channel. */
  lemma {:induction false} QuietSnoc(pieces: seq<Piece>, ending: Ending, answers: seq<Answer>, quiet: seq<Step>,
                                     a: Answer)
    returns (steps: seq<Step>)
    requires Quiet(pieces, ending, answers, quiet) && Possible(WriterAfter(pieces, ending, answers), a)
    ensures Quiet(pieces, ending, answers + [a], steps)
  {
    var start := Start(pieces, ending);
    var s := Exec(start, quiet).value;
    steps := quiet;
    if a.Ack? {
      steps, s := Offered(start, quiet, s, a.offset);
    }
    ExecSnoc(start, steps, s, WriterSelect(a));
    SelectFrom(s, a);
    steps, s := steps + [WriterSelect(a)], Apply(s, WriterSelect(a));
    WriterAfterSnoc(pieces, ending, answers, a);
    if s.writer.phase.Reading? {
      ExecSnoc(start, steps, s, WriterRead);
      steps := steps + [WriterRead];
    }
  }

  lemma {:induction false} SelectFrom(s: State, a: Answer)
    requires Possible(s.writer, a) && Enabled(s, WriterSelect(a)) && (a.Ack? <==> s.channel.Some?)
    ensures var t := Apply(s, WriterSelect(a));
            && t == s.(writer := Select(s.writer, a), channel := None)
            && t.writer.latestAckOffset == Settled(t.writer).latestAckOffset
            && t.writer.latestAckOffset == if a.Ack? then a.offset else s.writer.latestAckOffset
  {
  }

  lemma {:induction false} Offered(start: State, steps: seq<Step>, s: State, offset: int)
    returns (more: seq<Step>, t: State)
    requires Exec(start, steps) == Some(s) && s.inbox == [] && s.inbound.Idle? && s.channel.None?
    requires 0 <= s.latest < offset <= MAX_INT64
    ensures Exec(start, more) == Some(t) && Found(more) == Found(steps)
    ensures t == State(s.writer, [], Idle, offset, s.seen + [offset], Some(offset))
  {
    ExecSnoc(start, steps, s, Arrive(offset));
    assert [] + [offset] == [offset] && [offset][1..] == [];
    more, t := steps + [Arrive(offset)], s.(inbox := [offset]);
    ExecSnoc(start, more, t, InboundReceive);
    more, t := more + [InboundReceive], State(s.writer, [], Offering, offset, s.seen + [offset], None);
    ExecSnoc(start, more, t, InboundOffer);
    more, t := more + [InboundOffer], State(s.writer, [], Idle, offset, s.seen + [offset], Some(offset));
  }

  lemma {:induction false} ExecSnoc(start: State, steps: seq<Step>, s: State, step: Step)
    requires Exec(start, steps) == Some(s) && Enabled(s, step)
    ensures Exec(start, steps + [step]) == Some(Apply(s, step))
    ensures Found(steps + [step]) == Found(steps) + if step.WriterSelect? then [step.answer] else []
  {
    assert (steps + [step])[..|steps|] == steps;
  }

  /** The acknowledgements the writer finds in any interleaving are increasing 64-bit offsets, so the
      window results of module Window apply. */
  lemma {:induction false} FoundIncreasing(pieces: seq<Piece>, ending: Ending, steps: seq<Step>)
    requires Exec(Start(pieces, ending), steps).Some?
    ensures Increasing(pieces, ending, Found(steps))
  {
    FoundPossible(pieces, ending, steps);
  }

  /** If in an interleaving every acknowledgement that ends a wait brings the writer back inside its
      window or is at least one buffer further, unacknowledged bytes never exceed the window by more than
      one buffer. */
  lemma {:induction false} WindowBoundOverRuns(pieces: seq<Piece>, ending: Ending, steps: seq<Step>)
    requires Exec(Start(pieces, ending), steps).Some?
    requires PiecesFit(pieces) && AllReopenOrAdvance(pieces, ending, Found(steps))
    ensures Unacknowledged(Exec(Start(pieces, ending), steps).value.writer) <= BOUND
  {
    var found := Found(steps);
    FoundIncreasing(pieces, ending, steps);
    assert Unacknowledged(WriterAfter(pieces, ending, found)) <= BOUND by {
      WindowBound(pieces, ending, found);
      assert found[..|found|] == found;
    }
    WriterRefines(pieces, ending, steps);
    SettledUnacknowledged(Exec(Start(pieces, ending), steps).value.writer);
  }

  lemma {:induction false} SettledUnacknowledged(w: Writer)
    ensures Unacknowledged(w) <= Unacknowledged(Settled(w))
  {
  }
}
