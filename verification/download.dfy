/** The receiving side of a file transfer: `downloadFile` in
    api/http/management_filetransfer.go. */
module Download {
  import opened Bytes

  const ACK_SLIDING_WINDOW_SEND := 10
  const INTERNAL_SERVER_ERROR := 500

  /** A message of the session topic, after decoding. A chunk whose body is nil ends the file. */
  datatype Message =
    | Malformed
    | Error(code: int)
    | Chunk(offset: int, body: Option<seq<byte>>)
    | Ping
    | Other

  datatype Failure = Undecodable | Remote(code: int) | WrongOffset(code: int) | TimedOut | Cancelled | NotPublished

  datatype Status = Running | Finished | Failed(failure: Failure)

  /** The local variables of `downloadFile`, what it wrote, and the offsets it acknowledged. */
  datatype Receiver = Receiver(
    latestOffset: nat,
    numberOfChunks: nat,
    written: seq<byte>,
    acks: seq<nat>,
    pongs: nat,
    status: Status)

  const Initial := Receiver(0, 0, [], [], 0, Running)

  /** One iteration of the receiving loop. */
  function Receive(r: Receiver, m: Message): Receiver {
    match m
    case Malformed => r.(status := Failed(Undecodable))
    case Error(code) => r.(status := Failed(Remote(if code > 0 then code else INTERNAL_SERVER_ERROR)))
    case Chunk(offset, body) =>
      if body.None? then r.(acks := r.acks + [r.latestOffset], status := Finished)
      else if offset != r.latestOffset then r.(status := Failed(WrongOffset(INTERNAL_SERVER_ERROR)))
      else
        var latest := r.latestOffset + |body.value|;
        var chunks := r.numberOfChunks + 1;
        var stored := r.(latestOffset := latest, written := r.written + body.value);
        if chunks >= ACK_SLIDING_WINDOW_SEND
        then stored.(acks := r.acks + [latest], numberOfChunks := 0)
        else stored.(numberOfChunks := chunks)
    case Ping => r.(pongs := r.pongs + 1)
    case Other => r
  }

  /** The receiver after the messages `ms`; once stopped it reads nothing more. */
  function Run(ms: seq<Message>): Receiver {
    if ms == [] then Initial
    else
      var r := Run(ms[..|ms| - 1]);
      if r.status.Running? then Receive(r, ms[|ms| - 1]) else r
  }

  lemma {:induction false} RunSnoc(ms: seq<Message>, m: Message)
    ensures Run(ms + [m]) == if Run(ms).status.Running? then Receive(Run(ms), m) else Run(ms)
  {
    assert (ms + [m])[..|ms|] == ms;
  }

  /** What `status`, `written`, `acks` and `pongs` may be when `handled` messages were handled and at most
      `publishable` messages can be published: what `Run` says, unless the last message handled needed
      one publication more. */
  predicate DownloadedAs(inbound: seq<Message>, cancelled: bool, publishable: nat, handled: nat,
                         status: Status, written: seq<byte>, acks: seq<nat>, pongs: nat)
    requires handled <= |inbound|
  {
    var r := Run(inbound[..handled]);
    if 1 + |r.acks| + r.pongs <= publishable then
      && written == r.written && acks == r.acks && pongs == r.pongs
      && (status == if r.status.Running? then Failed(if cancelled then Cancelled else TimedOut) else r.status)
      && (r.status.Running? ==> handled == |inbound|)
    else
      && status == Failed(NotPublished) && written == r.written
      && if handled == 0 then acks == [] && pongs == 0
         else
           var s := Run(inbound[..handled - 1]);
           s.status.Running? && 1 + |s.acks| + s.pongs <= publishable && acks == s.acks && pongs == s.pongs
  }

  /** `cancelled` says how the wait for another message ends when there is none: by the context or by the
      timeout that closes the channel. */
  method DownloadFile(inbound: seq<Message>, cancelled: bool, publishable: nat)
    returns (status: Status, written: seq<byte>, acks: seq<nat>, pongs: nat, handled: nat)
    ensures handled <= |inbound|
    ensures DownloadedAs(inbound, cancelled, publishable, handled, status, written, acks, pongs)
  {
    var latestOffset: nat, numberOfChunks: nat := 0, 0;
    written, acks, pongs, handled, status := [], [], 0, 0, Running;
    if publishable == 0 {
      status := Failed(NotPublished);
      return;
    }
    while handled < |inbound|
      invariant handled <= |inbound| && status.Running?
      invariant Run(inbound[..handled]) == Receiver(latestOffset, numberOfChunks, written, acks, pongs, Running)
      invariant 1 + |acks| + pongs <= publishable
    {
      var m := inbound[handled];
      assert inbound[..handled + 1] == inbound[..handled] + [m];
      assert inbound[..handled + 1][..handled] == inbound[..handled];
      RunSnoc(inbound[..handled], m);
      handled := handled + 1;
      match m {
        case Malformed =>
          status := Failed(Undecodable);
        case Error(code) =>
          var errCode := INTERNAL_SERVER_ERROR;
          if code > 0 {
            errCode := code;
          }
          status := Failed(Remote(errCode));
        case Chunk(offset, body) =>
          if body.None? {
            if 1 + |acks| + pongs == publishable {
              status := Failed(NotPublished);
            } else {
              acks := acks + [latestOffset];
              status := Finished;
            }
          } else if offset != latestOffset {
            status := Failed(WrongOffset(INTERNAL_SERVER_ERROR));
          } else {
            latestOffset := latestOffset + |body.value|;
            written := written + body.value;
            numberOfChunks := numberOfChunks + 1;
            if numberOfChunks >= ACK_SLIDING_WINDOW_SEND {
              if 1 + |acks| + pongs == publishable {
                status := Failed(NotPublished);
              } else {
                acks := acks + [latestOffset];
                numberOfChunks := 0;
              }
            }
          }
        case Ping =>
          if 1 + |acks| + pongs == publishable {
            status := Failed(NotPublished);
          } else {
            pongs := pongs + 1;
          }
        case Other =>
      }
      if !status.Running? {
        return;
      }
    }
    status := Failed(if cancelled then Cancelled else TimedOut);
  }

  lemma {:induction false} RunStopped(ms: seq<Message>, i: nat)
    requires i <= |ms| && !Run(ms[..i]).status.Running?
    ensures Run(ms) == Run(ms[..i])
    decreases |ms|
  {
    if i == |ms| {
      assert ms[..i] == ms;
    } else {
      var init := ms[..|ms| - 1];
      assert init[..i] == ms[..i];
      RunStopped(init, i);
    }
  }

  // What a download means, without reference to the loop.

  /** The bodies of the data chunks of `ms`, in order. */
  function Bodies(ms: seq<Message>): seq<seq<byte>> {
    if ms == [] then []
    else
      var m := ms[|ms| - 1];
      Bodies(ms[..|ms| - 1]) + if m.Chunk? && m.body.Some? then [m.body.value] else []
  }

  function Payload(ms: seq<Message>): seq<byte> {
    Concat(Bodies(ms))
  }

  lemma {:induction false} BodiesSnoc(ms: seq<Message>, m: Message)
    ensures Bodies(ms + [m]) == Bodies(ms) + if m.Chunk? && m.body.Some? then [m.body.value] else []
    ensures Payload(ms + [m]) == Payload(ms) + if m.Chunk? && m.body.Some? then m.body.value else []
  {
    assert (ms + [m])[..|ms|] == ms;
    if m.Chunk? && m.body.Some? {
      ConcatSnoc(Bodies(ms), m.body.value);
    } else {
      assert Bodies(ms) + [] == Bodies(ms);
    }
  }

  /** After `length` bytes, the message keeps the transfer going: it is no chunk, or the next chunk. */
  predicate KeepsGoing(m: Message, length: nat) {
    match m
    case Chunk(offset, body) => body.Some? && offset == length
    case Ping => true
    case Other => true
    case _ => false
  }

  predicate InOrder(ms: seq<Message>, i: nat)
    requires i < |ms|
  {
    KeepsGoing(ms[i], |Payload(ms[..i])|)
  }

  predicate AllInOrder(ms: seq<Message>) {
    forall i | 0 <= i < |ms| :: InOrder(ms, i)
  }

  predicate IsEnd(m: Message) {
    m.Chunk? && m.body.None?
  }

  /** One acknowledgement after every tenth chunk, each naming the length at that moment. */
  function AckSchedule(bodies: seq<seq<byte>>): seq<nat> {
    if bodies == [] then []
    else
      AckSchedule(bodies[..|bodies| - 1]) +
      if |bodies| % ACK_SLIDING_WINDOW_SEND == 0 then [|Concat(bodies)|] else []
  }

  lemma {:induction false} AckScheduleSnoc(bodies: seq<seq<byte>>, b: seq<byte>)
    ensures AckSchedule(bodies + [b]) ==
            AckSchedule(bodies) + if (|bodies| + 1) % ACK_SLIDING_WINDOW_SEND == 0 then [|Concat(bodies + [b])|] else []
  {
    assert (bodies + [b])[..|bodies|] == bodies;
  }

  /** The `j`-th acknowledgement names the length of the first ten times `j` plus one chunks. */
  lemma {:induction false} AckScheduleAt(bodies: seq<seq<byte>>, j: nat)
    requires j < |bodies| / 10
    ensures j < |AckSchedule(bodies)| && AckSchedule(bodies)[j] == |Concat(bodies[..10 * (j + 1)])|
    decreases |bodies|
  {
    var init := bodies[..|bodies| - 1];
    AckScheduleLength(init);
    if j < |init| / 10 {
      AckScheduleAt(init, j);
      assert init[..10 * (j + 1)] == bodies[..10 * (j + 1)];
    } else {
      assert bodies[..10 * (j + 1)] == bodies;
    }
  }

  lemma {:induction false} AckScheduleLength(bodies: seq<seq<byte>>)
    ensures |AckSchedule(bodies)| == |bodies| / ACK_SLIDING_WINDOW_SEND
    decreases |bodies|
  {
    if bodies != [] {
      AckScheduleLength(bodies[..|bodies| - 1]);
    }
  }

  /** A prefix of an in-order sequence is in order, and order only looks back. */
  lemma {:induction false} InOrderSnoc(ms: seq<Message>, m: Message)
    ensures AllInOrder(ms + [m]) <==> AllInOrder(ms) && InOrder(ms + [m], |ms|)
  {
    var all := ms + [m];
    forall i | 0 <= i < |ms|
      ensures InOrder(all, i) <==> InOrder(ms, i)
    {
      assert all[..i] == ms[..i];
    }
  }

  /** What the receiver has after chunks with these bodies: it wrote exactly them, and it sent exactly
      the scheduled acknowledgements. */
  predicate HasReceived(r: Receiver, bodies: seq<seq<byte>>) {
    && r.written == Concat(bodies)
    && r.latestOffset == |Concat(bodies)|
    && r.numberOfChunks == |bodies| % ACK_SLIDING_WINDOW_SEND
    && r.acks == AckSchedule(bodies)
  }

  /** The receiver keeps running exactly while everything is in order, and then it has received exactly
      the chunk bodies. */
  lemma {:induction false} RunningExactlyInOrder(ms: seq<Message>)
    ensures Run(ms).status.Running? <==> AllInOrder(ms)
    ensures AllInOrder(ms) ==> HasReceived(Run(ms), Bodies(ms))
    decreases |ms|
  {
    if ms != [] {
      var init, m := ms[..|ms| - 1], ms[|ms| - 1];
      assert ms == init + [m];
      RunningExactlyInOrder(init);
      InOrderSnoc(init, m);
      if AllInOrder(init) {
        RunningStep(init, m);
      }
    }
  }

  lemma {:induction false} ChunkStep(r: Receiver, bodies: seq<seq<byte>>, b: seq<byte>)
    requires HasReceived(r, bodies)
    ensures HasReceived(Receive(r, Chunk(r.latestOffset, Some(b))), bodies + [b])
  {
    AckScheduleSnoc(bodies, b);
    ConcatSnoc(bodies, b);
    NextCount(|bodies|);
    assert AckSchedule(bodies) + [] == AckSchedule(bodies);
  }

  lemma NextCount(n: nat)
    ensures var next := n % ACK_SLIDING_WINDOW_SEND + 1;
            (n + 1) % ACK_SLIDING_WINDOW_SEND == if next >= ACK_SLIDING_WINDOW_SEND then 0 else next
  {
  }

  lemma {:induction false} ReceiveStep(r: Receiver, bodies: seq<seq<byte>>, m: Message)
    requires r.status.Running? && HasReceived(r, bodies)
    ensures Receive(r, m).status.Running? <==> KeepsGoing(m, |Concat(bodies)|)
    ensures KeepsGoing(m, |Concat(bodies)|) ==>
              HasReceived(Receive(r, m), if m.Chunk? then bodies + [m.body.value] else bodies)
  {
    if m.Chunk? && m.body.Some? {
      ChunkStep(r, bodies, m.body.value);
    }
  }

  lemma {:induction false} RunningStep(init: seq<Message>, m: Message)
    requires Run(init).status.Running? && HasReceived(Run(init), Bodies(init))
    ensures Run(init + [m]).status.Running? <==> InOrder(init + [m], |init|)
    ensures InOrder(init + [m], |init|) ==> HasReceived(Run(init + [m]), Bodies(init + [m]))
  {
    RunSnoc(init, m);
    BodiesSnoc(init, m);
    assert (init + [m])[..|init|] == init;
    ReceiveStep(Run(init), Bodies(init), m);
    if KeepsGoing(m, |Payload(init)|) {
      assert Bodies(init + [m]) == if m.Chunk? then Bodies(init) + [m.body.value] else Bodies(init);
    }
  }

  /** The download succeeds exactly when an end chunk arrives after nothing but in-order messages;
      then the file is the concatenation of the chunks, and one more acknowledgement, for the whole
      length, follows the scheduled ones. */
  lemma {:induction false} FinishedExactly(ms: seq<Message>, n: nat)
    requires n < |ms| && AllInOrder(ms[..n]) && !InOrder(ms, n)
    ensures Run(ms).status.Finished? <==> IsEnd(ms[n])
    ensures var r := Run(ms);
            && !r.status.Running?
            && r.written == Payload(ms[..n])
            && r.acks == AckSchedule(Bodies(ms[..n])) + (if IsEnd(ms[n]) then [|r.written|] else [])
            && r.pongs == multiset(ms[..n])[Ping]
    ensures IsEnd(ms[n]) ==> |Run(ms).acks| == |Bodies(ms[..n])| / ACK_SLIDING_WINDOW_SEND + 1
    ensures !ms[n].Ping? && !ms[n].Other?
    ensures ms[n].Error? ==> Run(ms).status == Failed(Remote(if ms[n].code > 0 then ms[n].code else 500))
    ensures ms[n].Malformed? ==> Run(ms).status == Failed(Undecodable)
    ensures ms[n].Chunk? && ms[n].body.Some? ==>
              ms[n].offset != |Payload(ms[..n])| && Run(ms).status == Failed(WrongOffset(500))
  {
    var good := ms[..n];
    RunningExactlyInOrder(good);
    AckScheduleLength(Bodies(good));
    PongPerPing(good);
    assert ms[..n + 1] == good + [ms[n]];
    RunSnoc(good, ms[n]);
    assert AckSchedule(Bodies(good)) + [] == AckSchedule(Bodies(good));
    RunStopped(ms, n + 1);
  }

  /** Every run stops at a first message that is out of order, or is all in order: with the two
      lemmas above this describes `DownloadFile` on every inbound sequence. */
  lemma {:induction false} FirstOutOfOrder(ms: seq<Message>) returns (n: nat)
    ensures n <= |ms| && AllInOrder(ms[..n])
    ensures n < |ms| ==> !InOrder(ms, n)
    decreases |ms|
  {
    if ms == [] {
      n := 0;
    } else {
      var init := ms[..|ms| - 1];
      n := FirstOutOfOrder(init);
      assert init[..n] == ms[..n];
      if n == |init| {
        if InOrder(ms, n) {
          n := |ms|;
          InOrderSnoc(init, ms[|init|]);
          assert ms == init + [ms[|init|]] && ms[..n] == ms && init[..|init|] == init;
        }
      }
    }
  }

  /** Every ping before the end is answered. */
  lemma {:induction false} PongPerPing(ms: seq<Message>)
    requires AllInOrder(ms)
    ensures Run(ms).pongs == multiset(ms)[Ping]
    decreases |ms|
  {
    if ms != [] {
      var init := ms[..|ms| - 1];
      assert ms == init + [ms[|ms| - 1]];
      InOrderSnoc(init, ms[|ms| - 1]);
      RunningExactlyInOrder(init);
      PongPerPing(init);
    }
  }

  /** Offsets that never decrease and never exceed `bound`. */
  predicate Ascending(xs: seq<int>, bound: int) {
    && (forall i, j | 0 <= i <= j < |xs| :: xs[i] <= xs[j])
    && (forall i | 0 <= i < |xs| :: 0 <= xs[i] <= bound)
  }

  lemma {:induction false} AckScheduleAscending(bodies: seq<seq<byte>>)
    ensures Ascending(AckSchedule(bodies), |Concat(bodies)|)
    decreases |bodies|
  {
    if bodies != [] {
      var init := bodies[..|bodies| - 1];
      AckScheduleAscending(init);
      AscendingSnoc(AckSchedule(init), |Concat(init)|, |Concat(bodies)|);
    }
  }

  lemma {:induction false} AscendingSnoc(xs: seq<int>, bound: nat, more: nat)
    requires Ascending(xs, bound) && bound <= more
    ensures Ascending(xs + [more], more)
    ensures Ascending(xs + [], more)
  {
    assert xs + [] == xs;
  }

  /** The acknowledged offsets never decrease and never exceed what was written. */
  lemma {:induction false} AcksNondecreasing(ms: seq<Message>)
    ensures Ascending(Run(ms).acks, |Run(ms).written|)
  {
    var n := FirstOutOfOrder(ms);
    var bodies := Bodies(ms[..n]);
    AckScheduleAscending(bodies);
    AscendingSnoc(AckSchedule(bodies), |Concat(bodies)|, |Concat(bodies)|);
    if n < |ms| {
      FinishedExactly(ms, n);
    } else {
      assert ms[..n] == ms;
      RunningExactlyInOrder(ms);
    }
  }
}
