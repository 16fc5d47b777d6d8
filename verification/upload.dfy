/** The sending side of a file transfer: the upload writer, the goroutine that handles inbound
    acknowledgements, and the one-element channel between them, in
    api/http/management_filetransfer.go. */
module Upload {
  import opened Bytes
  import opened Download

  const FILE_TRANSFER_BUFFER_SIZE := 4096
  const ACK_SLIDING_WINDOW_RECV := 20
  const WINDOW := FILE_TRANSFER_BUFFER_SIZE * ACK_SLIDING_WINDOW_RECV
  const MAX_INT64 := 0x7fff_ffff_ffff_ffff
  const BAD_REQUEST := 400
  const REQUEST_TIMEOUT := 408

  /** A sum of an int64 and a positive one, as int64 arithmetic computes it: it wraps around. */
  function Int64(sum: int): int {
    if sum > MAX_INT64 then sum - 2 * (MAX_INT64 + 1) else sum
  }

  /** The wrapped sum fits in 64 bits and differs by a multiple of 2^64. */
  lemma {:induction false} Int64Wraps(sum: int)
    requires -0x8000_0000_0000_0000 <= sum < 0x1_8000_0000_0000_0000
    ensures -0x8000_0000_0000_0000 <= Int64(sum) <= 0x7fff_ffff_ffff_ffff
    ensures Int64(sum) == sum || Int64(sum) == sum - 0x1_0000_0000_0000_0000
  {
  }

  /** What a read of the uploaded file gives before its end. A read that gives nothing ends the file. */
  type Piece = p: seq<byte> | p != [] witness [0]

  /** How the reads of the uploaded file end, after its last piece: with a read of nothing, whether or not
      it reports the end of the file, or with an error. */
  datatype Ending = Eof | UnexpectedEof | ReadError

  /** Reading: about to read a piece. Polling and Waiting: at one of the two selects after a piece.
      Draining: at the select of the loop after the end chunk. */
  datatype Phase = Reading | Polling | Waiting | Draining | Created | Aborted(code: int)

  /** What a select of the writer finds: an acknowledgement in the channel, an error in the error
      channel, or neither before the timer. */
  datatype Answer = Ack(offset: int) | Failure(code: int) | Silence

  /** The state of `uploadFileResponseWriter`, with everything it published and every
      acknowledgement it took from the channel. */
  datatype Writer = Writer(
    phase: Phase,
    unread: seq<Piece>,
    ending: Ending,
    offset: nat,
    latestAckOffset: int,
    published: seq<Message>,
    taken: seq<int>)

  function Begin(pieces: seq<Piece>, ending: Ending): Writer {
    Writer(Reading, pieces, ending, 0, 0, [], [])
  }

  predicate WindowOver(offset: int, latestAckOffset: int) {
    offset > Int64(latestAckOffset + WINDOW)
  }

  /** After the end chunk and after every acknowledgement taken then. */
  function Drained(w: Writer): Writer {
    w.(phase := if w.offset > w.latestAckOffset then Draining else Created)
  }

  /** One read of the file and the publishing of the chunk it gives. */
  function Publish(w: Writer): Writer
    requires w.phase.Reading?
  {
    if w.unread == [] then
      match w.ending
      case Eof => Drained(w.(published := w.published + [Chunk(w.offset, None)]))
      case UnexpectedEof => w.(phase := Aborted(BAD_REQUEST))
      case ReadError => w.(phase := Aborted(INTERNAL_SERVER_ERROR))
    else
      var offset := w.offset + |w.unread[0]|;
      w.(unread := w.unread[1..],
         offset := offset,
         published := w.published + [Chunk(w.offset, Some(w.unread[0]))],
         phase := if WindowOver(offset, w.latestAckOffset) then Waiting else Polling)
  }

  predicate Selecting(w: Writer) {
    w.phase.Polling? || w.phase.Waiting? || w.phase.Draining?
  }

  /** One select. The poll does not look at the acknowledgements; the last loop does not look at
      the errors. */
  function Select(w: Writer, a: Answer): Writer
    requires Selecting(w)
  {
    match w.phase
    case Polling => w.(phase := if a.Failure? then Aborted(a.code) else Reading)
    case Waiting => (
      match a
      case Ack(o) => w.(latestAckOffset := o, taken := w.taken + [o], phase := Reading)
      case Failure(code) => w.(phase := Aborted(code))
      case Silence => w.(phase := Aborted(REQUEST_TIMEOUT)))
    case _ =>
      if a.Ack? then Drained(w.(latestAckOffset := a.offset, taken := w.taken + [a.offset]))
      else w.(phase := Aborted(REQUEST_TIMEOUT))
  }

  /** The writer up to its next select. */
  function Settled(w: Writer): Writer {
    if w.phase.Reading? then Publish(w) else w
  }

  /** The writer after its selects found `answers`. */
  function WriterAfter(pieces: seq<Piece>, ending: Ending, answers: seq<Answer>): Writer {
    if answers == [] then Settled(Begin(pieces, ending))
    else
      var w := WriterAfter(pieces, ending, answers[..|answers| - 1]);
      if Selecting(w) then Settled(Select(w, answers[|answers| - 1])) else w
  }

  lemma {:induction false} WriterAfterSnoc(pieces: seq<Piece>, ending: Ending, answers: seq<Answer>, a: Answer)
    ensures var w := WriterAfter(pieces, ending, answers);
            WriterAfter(pieces, ending, answers + [a]) == if Selecting(w) then Settled(Select(w, a)) else w
  {
    assert (answers + [a])[..|answers|] == answers;
  }

  /** The channels' content as the selects meet it: after the given answers, nothing more comes. */
  function AnswerAt(answers: seq<Answer>, k: nat): Answer {
    if k < |answers| then answers[k] else Silence
  }

  function Given(answers: seq<Answer>, k: nat): (g: seq<Answer>)
    ensures |g| == k
  {
    if k == 0 then [] else Given(answers, k - 1) + [AnswerAt(answers, k - 1)]
  }

  /** The outcome when only `publishable` messages can be published: the failure to publish another one
      ends the upload. */
  function Outcome(w: Writer, publishable: nat): Phase {
    if |w.published| > publishable then Aborted(INTERNAL_SERVER_ERROR) else w.phase
  }

  function Delivered(w: Writer, publishable: nat): seq<Message> {
    if |w.published| > publishable then w.published[..publishable] else w.published
  }

  /** What the selects find: the answers, and then nothing more. */
  lemma {:induction false} GivenAnswers(answers: seq<Answer>, k: nat, i: nat)
    requires i < k
    ensures Given(answers, k)[i] == if i < |answers| then answers[i] else Silence
    decreases k
  {
    if i < k - 1 {
      GivenAnswers(answers, k - 1, i);
    }
  }

  /** `selects` counts the selects made. The last loop ends because each of its selects uses up an answer
      or times out. */
  method UploadFileResponseWriter(pieces: seq<Piece>, ending: Ending, answers: seq<Answer>, publishable: nat)
    returns (phase: Phase, published: seq<Message>, taken: seq<int>, selects: nat)
    ensures phase.Created? || phase.Aborted?
    ensures var w := WriterAfter(pieces, ending, Given(answers, selects));
            phase == Outcome(w, publishable) && published == Delivered(w, publishable) && taken == w.taken
  {
    var offset: nat, latestAckOffset := 0, 0;
    published, taken, selects := [], [], 0;
    var i := 0;
    ghost var reading := Begin(pieces, ending);
    while true
      invariant 0 <= i <= |pieces|
      invariant reading.phase.Reading? && reading.unread == pieces[i..] && reading.ending == ending
      invariant reading.offset == offset && reading.latestAckOffset == latestAckOffset
      invariant reading.published == published && reading.taken == taken
      invariant WriterAfter(pieces, ending, Given(answers, selects)) == Publish(reading)
      invariant |published| <= publishable
      decreases |pieces| - i
    {
      if i == |pieces| && ending != Eof {
        NotRead(reading, publishable);
        phase := Aborted(if ending == UnexpectedEof then BAD_REQUEST else INTERNAL_SERVER_ERROR);
        return;
      }
      if |published| == publishable {
        NotPublished(reading);
        phase := Aborted(INTERNAL_SERVER_ERROR);
        return;
      }
      if i == |pieces| {
        published := published + [Chunk(offset, None)];
        break;
      }
      var data := pieces[i];
      assert reading.unread[0] == data && reading.unread[1..] == pieces[i + 1..];
      PublishPiece(reading);
      reading := Publish(reading);
      published := published + [Chunk(offset, Some(data))];
      offset := offset + |data|;
      i := i + 1;
      var a := AnswerAt(answers, selects);
      SelectOnce(pieces, ending, answers, selects, reading);
      selects := selects + 1;
      phase, latestAckOffset, taken := AfterChunk(reading, a, offset, latestAckOffset, taken);
      reading := reading.(phase := phase, latestAckOffset := latestAckOffset, taken := taken);
      assert WriterAfter(pieces, ending, Given(answers, selects)) == Settled(reading);
      if phase.Aborted? {
        return;
      }
    }
    ghost var w := reading.(published := published);
    while offset > latestAckOffset
      invariant w.offset == offset && w.latestAckOffset == latestAckOffset
      invariant w.published == published && w.taken == taken
      invariant WriterAfter(pieces, ending, Given(answers, selects)) == Drained(w)
      decreases |answers| - selects
    {
      var a := AnswerAt(answers, selects);
      DrainOnce(pieces, ending, answers, selects, w);
      selects := selects + 1;
      if !a.Ack? {
        phase := Aborted(REQUEST_TIMEOUT);
        return;
      }
      latestAckOffset := a.offset;
      taken := taken + [a.offset];
      w := w.(latestAckOffset := latestAckOffset, taken := taken);
    }
    phase := Created;
  }

  /** The select after a chunk: a wait for an acknowledgement if the window is over, otherwise a poll
      of the error channel. */
  method AfterChunk(ghost w: Writer, a: Answer, offset: nat, acknowledged: int, already: seq<int>)
    returns (phase: Phase, latestAckOffset: int, taken: seq<int>)
    requires w.phase == if WindowOver(offset, acknowledged) then Waiting else Polling
    requires w.latestAckOffset == acknowledged && w.taken == already
    ensures Select(w, a) == w.(phase := phase, latestAckOffset := latestAckOffset, taken := taken)
    ensures phase.Reading? || phase.Aborted?
  {
    phase, latestAckOffset, taken := Reading, acknowledged, already;
    if offset > Int64(latestAckOffset + FILE_TRANSFER_BUFFER_SIZE * ACK_SLIDING_WINDOW_RECV) {
      match a {
        case Failure(code) =>
          phase := Aborted(code);
        case Ack(o) =>
          latestAckOffset := o;
          taken := taken + [o];
        case Silence =>
          phase := Aborted(REQUEST_TIMEOUT);
      }
    } else {
      if a.Failure? {
        phase := Aborted(a.code);
      }
    }
  }

  lemma {:induction false} NotRead(w: Writer, publishable: nat)
    requires w.phase.Reading? && w.unread == [] && !w.ending.Eof? && |w.published| <= publishable
    ensures var v := Publish(w);
            && Outcome(v, publishable) ==
               Aborted(if w.ending == UnexpectedEof then BAD_REQUEST else INTERNAL_SERVER_ERROR)
            && Delivered(v, publishable) == w.published && v.taken == w.taken
  {
  }

  lemma {:induction false} NotPublished(w: Writer)
    requires w.phase.Reading? && (w.unread == [] ==> w.ending.Eof?)
    ensures var v := Publish(w);
            && Outcome(v, |w.published|) == Aborted(INTERNAL_SERVER_ERROR)
            && Delivered(v, |w.published|) == w.published && v.taken == w.taken
  {
  }

  lemma {:induction false} PublishPiece(w: Writer)
    requires w.phase.Reading? && w.unread != []
    ensures var v := Publish(w);
            && v == Writer(v.phase, w.unread[1..], w.ending, w.offset + |w.unread[0]|, w.latestAckOffset,
                           w.published + [Chunk(w.offset, Some(w.unread[0]))], w.taken)
            && v.phase == if v.offset > Int64(w.latestAckOffset + WINDOW) then Waiting else Polling
  {
  }

  lemma {:induction false} SelectOnce(pieces: seq<Piece>, ending: Ending, answers: seq<Answer>, k: nat, w: Writer)
    requires WriterAfter(pieces, ending, Given(answers, k)) == w && Selecting(w)
    ensures WriterAfter(pieces, ending, Given(answers, k + 1)) == Settled(Select(w, AnswerAt(answers, k)))
  {
    WriterAfterSnoc(pieces, ending, Given(answers, k), AnswerAt(answers, k));
  }

  lemma {:induction false} DrainOnce(pieces: seq<Piece>, ending: Ending, answers: seq<Answer>, k: nat, w: Writer)
    requires WriterAfter(pieces, ending, Given(answers, k)) == Drained(w) && w.offset > w.latestAckOffset
    ensures var a := AnswerAt(answers, k);
            WriterAfter(pieces, ending, Given(answers, k + 1)) ==
            if a.Ack? then Drained(w.(latestAckOffset := a.offset, taken := w.taken + [a.offset]))
            else w.(phase := Aborted(REQUEST_TIMEOUT))
  {
    SelectOnce(pieces, ending, answers, k, Drained(w));
  }

  // What the writer keeps true, whatever it is answered.

  predicate EndsWithEnd(ms: seq<Message>) {
    ms != [] && IsEnd(ms[|ms| - 1])
  }

  /** The published data chunks, that is, everything but a closing end chunk. */
  function DataChunks(ms: seq<Message>): seq<Message> {
    if EndsWithEnd(ms) then ms[..|ms| - 1] else ms
  }

  predicate AllData(ms: seq<Message>) {
    forall m | m in ms :: m.Chunk? && m.body.Some?
  }

  /** The data chunks published so far: in order, and with the unread pieces the whole file. */
  predicate SentSoFar(data: seq<Message>, unread: seq<Piece>, offset: nat, pieces: seq<Piece>) {
    && AllData(data)
    && AllInOrder(data)
    && Bodies(data) + unread == pieces
    && |Payload(data)| == offset
  }

  predicate WriterInv(w: Writer, pieces: seq<Piece>, ending: Ending) {
    && w.ending == ending
    && SentSoFar(DataChunks(w.published), w.unread, w.offset, pieces)
    && (EndsWithEnd(w.published) ==>
          && w.published == DataChunks(w.published) + [Chunk(w.offset, None)]
          && w.unread == [] && ending.Eof?)
    && (w.phase.Reading? || w.phase.Polling? || w.phase.Waiting? ==> !EndsWithEnd(w.published))
    && (w.phase.Draining? || w.phase.Created? ==> EndsWithEnd(w.published))
    && (w.phase.Draining? ==> w.offset > w.latestAckOffset)
    && (w.phase.Created? ==> w.offset <= w.latestAckOffset)
    && (w.phase.Waiting? ==> WindowOver(w.offset, w.latestAckOffset))
    && (w.phase.Polling? ==> !WindowOver(w.offset, w.latestAckOffset))
    && w.latestAckOffset == if w.taken == [] then 0 else w.taken[|w.taken| - 1]
  }

  lemma {:induction false} SendPiece(data: seq<Message>, unread: seq<Piece>, offset: nat, pieces: seq<Piece>)
    requires SentSoFar(data, unread, offset, pieces) && unread != []
    ensures var m := Chunk(offset, Some(unread[0]));
            && SentSoFar(data + [m], unread[1..], offset + |unread[0]|, pieces)
            && DataChunks(data + [m]) == data + [m]
  {
    var m := Chunk(offset, Some(unread[0]));
    assert (data + [m])[..|data|] == data;
    InOrderSnoc(data, m);
    BodiesSnoc(data, m);
    assert Bodies(data) + unread == Bodies(data + [m]) + unread[1..];
  }

  lemma {:induction false} PublishKeepsInv(w: Writer, pieces: seq<Piece>, ending: Ending)
    requires WriterInv(w, pieces, ending) && w.phase.Reading?
    ensures WriterInv(Publish(w), pieces, ending)
  {
    if w.unread != [] {
      PieceKeepsInv(w, pieces, ending);
    } else if ending.Eof? {
      EndKeepsInv(w, pieces, ending);
    }
  }

  lemma {:induction false} PieceKeepsInv(w: Writer, pieces: seq<Piece>, ending: Ending)
    requires WriterInv(w, pieces, ending) && w.phase.Reading? && w.unread != []
    ensures WriterInv(Publish(w), pieces, ending)
  {
    SendPiece(w.published, w.unread, w.offset, pieces);
    var v, data := Publish(w), w.published + [Chunk(w.offset, Some(w.unread[0]))];
    assert v.published == data && DataChunks(data) == data && !EndsWithEnd(data);
    assert SentSoFar(data, v.unread, v.offset, pieces);
  }

  lemma {:induction false} EndKeepsInv(w: Writer, pieces: seq<Piece>, ending: Ending)
    requires WriterInv(w, pieces, ending) && w.phase.Reading? && w.unread == [] && ending.Eof?
    ensures WriterInv(Publish(w), pieces, ending)
  {
    var v, all := Publish(w), w.published + [Chunk(w.offset, None)];
    assert all[..|w.published|] == w.published;
    assert v.published == all && DataChunks(all) == w.published;
  }

  lemma {:induction false} SelectKeepsInv(w: Writer, a: Answer, pieces: seq<Piece>, ending: Ending)
    requires WriterInv(w, pieces, ending) && Selecting(w)
    ensures WriterInv(Select(w, a), pieces, ending)
  {
    assert Select(w, a).published == w.published;
  }

  lemma {:induction false} WriterKeepsInv(pieces: seq<Piece>, ending: Ending, answers: seq<Answer>)
    ensures WriterInv(WriterAfter(pieces, ending, answers), pieces, ending)
    decreases |answers|
  {
    if answers == [] {
      BeginHasInv(pieces, ending);
      PublishKeepsInv(Begin(pieces, ending), pieces, ending);
    } else {
      var earlier, a := answers[..|answers| - 1], answers[|answers| - 1];
      WriterKeepsInv(pieces, ending, earlier);
      var w := WriterAfter(pieces, ending, earlier);
      if Selecting(w) {
        SelectKeepsInv(w, a, pieces, ending);
        if Select(w, a).phase.Reading? {
          PublishKeepsInv(Select(w, a), pieces, ending);
        }
      }
    }
  }

  lemma {:induction false} BeginHasInv(pieces: seq<Piece>, ending: Ending)
    ensures WriterInv(Begin(pieces, ending), pieces, ending)
  {
    assert Bodies([]) + pieces == pieces;
  }

  /** The published chunks deliver the whole file: contiguous offsets from 0, the bodies in order,
      and then exactly one end chunk at the length of the file. */
  predicate DeliversWholeFile(published: seq<Message>, pieces: seq<Piece>) {
    && |published| == |pieces| + 1
    && (forall i | 0 <= i < |pieces| :: published[i] == Chunk(|Concat(pieces[..i])|, Some(pieces[i])))
    && published[|pieces|] == Chunk(|Concat(pieces)|, None)
  }

  lemma {:induction false} BodyAt(data: seq<Message>, i: nat)
    requires AllData(data) && i <= |data|
    ensures |Bodies(data)| == |data| && Bodies(data)[..i] == Bodies(data[..i])
    ensures i < |data| ==> Bodies(data)[i] == data[i].body.value
    decreases |data|
  {
    if data != [] {
      var init := data[..|data| - 1];
      BodyAt(init, if i == |data| then 0 else i);
      if i == |data| {
        assert data[..i] == data;
      } else {
        assert init[..i] == data[..i] && Bodies(data)[..i] == Bodies(init)[..i];
      }
    }
  }

  /** Data chunks in order are determined by their bodies. */
  lemma {:induction false} BodiesOfData(data: seq<Message>, pieces: seq<seq<byte>>)
    requires AllData(data) && AllInOrder(data) && Bodies(data) == pieces
    ensures |data| == |pieces|
    ensures forall i | 0 <= i < |data| :: data[i] == Chunk(|Concat(pieces[..i])|, Some(pieces[i]))
  {
    BodyAt(data, 0);
    forall i | 0 <= i < |data|
      ensures data[i] == Chunk(|Concat(pieces[..i])|, Some(pieces[i]))
    {
      BodyAt(data, i);
      assert InOrder(data, i) && data[i] in data;
    }
  }

  /** Whatever acknowledgements arrive, 201 means full delivery and an acknowledgement for at least
      the length of the file. */
  lemma {:induction false} CreatedMeansDelivered(pieces: seq<Piece>, ending: Ending, answers: seq<Answer>)
    ensures var w := WriterAfter(pieces, ending, answers);
            w.phase.Created? ==>
              && ending.Eof?
              && DeliversWholeFile(w.published, pieces)
              && (Concat(pieces) != [] ==> w.taken != [] && w.taken[|w.taken| - 1] >= |Concat(pieces)|)
  {
    WriterKeepsInv(pieces, ending, answers);
    var w := WriterAfter(pieces, ending, answers);
    if w.phase.Created? {
      InvMeansPrefix(w, pieces, ending);
      CreatedMeansAcknowledged(w, pieces, ending);
    }
  }

  /** Where only `publishable` messages can be published: what is delivered is as much of the stream as
      can be published, and 201 still means that the whole file was. */
  lemma {:induction false} DeliveredExactly(pieces: seq<Piece>, ending: Ending, answers: seq<Answer>, publishable: nat)
    ensures var w := WriterAfter(pieces, ending, answers);
            var sent := Delivered(w, publishable);
            && sent <= w.published && |sent| <= publishable
            && (|sent| < publishable ==> sent == w.published)
            && (Outcome(w, publishable).Created? <==> w.phase.Created? && |w.published| <= publishable)
            && (Outcome(w, publishable).Created? ==> DeliversWholeFile(sent, pieces))
  {
    CreatedMeansDelivered(pieces, ending, answers);
  }

  lemma {:induction false} CreatedMeansAcknowledged(w: Writer, pieces: seq<Piece>, ending: Ending)
    requires WriterInv(w, pieces, ending) && w.phase.Created?
    ensures ending.Eof?
    ensures w.offset == |Concat(pieces)|
    ensures w.offset > 0 ==> w.taken != [] && w.taken[|w.taken| - 1] >= w.offset
  {
    assert Bodies(DataChunks(w.published)) + [] == Bodies(DataChunks(w.published));
  }

  /** The select of `w` finds a reason to give up, with status `code`: an error at one of the selects
      after a chunk, or nothing where an acknowledgement was awaited. */
  predicate GivesUp(w: Writer, a: Answer, code: int) {
    || (a == Failure(code) && (w.phase.Polling? || w.phase.Waiting?))
    || (code == 408 && w.phase.Waiting? && a.Silence?)
    || (code == 408 && w.phase.Draining? && !a.Ack?)
  }

  /** One of the selects did. */
  predicate GivenUp(pieces: seq<Piece>, ending: Ending, answers: seq<Answer>, code: int) {
    answers != [] &&
    var earlier := answers[..|answers| - 1];
    (GivenUp(pieces, ending, earlier, code)
     || GivesUp(WriterAfter(pieces, ending, earlier), answers[|answers| - 1], code))
  }

  /** All pieces were published, but the reading of the file did not end well. */
  predicate ReadingFailed(w: Writer, pieces: seq<Piece>, code: int) {
    && !EndsWithEnd(w.published) && Bodies(w.published) == pieces
    && !w.ending.Eof? && code == if w.ending.UnexpectedEof? then 400 else 500
  }

  lemma {:induction false} ReadingFails(w: Writer, pieces: seq<Piece>, ending: Ending, code: int)
    requires WriterInv(w, pieces, ending) && w.phase.Reading? && Publish(w).phase == Aborted(code)
    ensures ReadingFailed(Publish(w), pieces, code)
  {
    assert Bodies(w.published) + [] == Bodies(w.published);
  }

  lemma {:induction false} AbortingSelect(w: Writer, a: Answer, code: int)
    requires Selecting(w)
    ensures Select(w, a).phase == Aborted(code) <==> GivesUp(w, a, code)
  {
  }

  lemma {:induction false} AbortingStep(w: Writer, a: Answer, pieces: seq<Piece>, ending: Ending, code: int)
    requires WriterInv(w, pieces, ending) && Selecting(w)
    ensures GivesUp(w, a, code) ==> Settled(Select(w, a)).phase == Aborted(code)
    ensures Settled(Select(w, a)).phase == Aborted(code) ==>
              GivesUp(w, a, code) || ReadingFailed(Settled(Select(w, a)), pieces, code)
  {
    AbortingSelect(w, a, code);
    SelectKeepsInv(w, a, pieces, ending);
    var v := Select(w, a);
    if v.phase.Reading? && Publish(v).phase == Aborted(code) {
      ReadingFails(v, pieces, ending, code);
    }
  }

  /** After a chunk the writer waits exactly when more than twenty buffers are unacknowledged, as long as the
      sum does not overflow. */
  lemma {:induction false} WaitsExactly(pieces: seq<Piece>, ending: Ending, answers: seq<Answer>)
    ensures var w := WriterAfter(pieces, ending, answers);
            (w.phase.Waiting? || w.phase.Polling?) && w.latestAckOffset + 20 * 4096 <= 0x7fff_ffff_ffff_ffff ==>
              (w.phase.Waiting? <==> w.offset - w.latestAckOffset > 20 * 4096)
  {
    WriterKeepsInv(pieces, ending, answers);
  }

  /** The acknowledgements found where the writer awaits one. */
  function Awaited(pieces: seq<Piece>, ending: Ending, answers: seq<Answer>): seq<int> {
    if answers == [] then []
    else
      var earlier, a := answers[..|answers| - 1], answers[|answers| - 1];
      var w := WriterAfter(pieces, ending, earlier);
      Awaited(pieces, ending, earlier) + if (w.phase.Waiting? || w.phase.Draining?) && a.Ack? then [a.offset] else []
  }

  /** The writer takes exactly those, and holds the last one. */
  lemma {:induction false} TakenExactly(pieces: seq<Piece>, ending: Ending, answers: seq<Answer>)
    ensures var w, found := WriterAfter(pieces, ending, answers), Awaited(pieces, ending, answers);
            w.taken == found && w.latestAckOffset == if found == [] then 0 else found[|found| - 1]
    decreases |answers|
  {
    WriterKeepsInv(pieces, ending, answers);
    if answers != [] {
      var earlier, a := answers[..|answers| - 1], answers[|answers| - 1];
      TakenExactly(pieces, ending, earlier);
      var w := WriterAfter(pieces, ending, earlier);
      assert w.taken + [] == w.taken;
      if Selecting(w) {
        SettledTakes(w, a);
      }
    }
  }

  lemma {:induction false} SettledTakes(w: Writer, a: Answer)
    requires Selecting(w)
    ensures Settled(Select(w, a)).taken ==
            w.taken + if (w.phase.Waiting? || w.phase.Draining?) && a.Ack? then [a.offset] else []
  {
    assert w.taken + [] == w.taken;
  }

  /** An upload that runs out of publications is aborted. Otherwise a select that finds a reason to give
      up aborts it with its status, and an upload that was aborted either was given up so or failed to
      read the file. */
  lemma {:induction false} AbortedHasCause(pieces: seq<Piece>, ending: Ending, answers: seq<Answer>, publishable: nat,
                                           code: int)
    ensures var w := WriterAfter(pieces, ending, answers);
            var phase := Outcome(w, publishable);
            if |w.published| > publishable then phase == Aborted(500)
            else
              && (GivenUp(pieces, ending, answers, code) ==> phase == Aborted(code))
              && (phase == Aborted(code) ==> GivenUp(pieces, ending, answers, code) || ReadingFailed(w, pieces, code))
  {
    WriterAborts(pieces, ending, answers, code);
  }

  lemma {:induction false} WriterAborts(pieces: seq<Piece>, ending: Ending, answers: seq<Answer>, code: int)
    ensures GivenUp(pieces, ending, answers, code) ==> WriterAfter(pieces, ending, answers).phase == Aborted(code)
    ensures WriterAfter(pieces, ending, answers).phase == Aborted(code) ==>
              || GivenUp(pieces, ending, answers, code)
              || ReadingFailed(WriterAfter(pieces, ending, answers), pieces, code)
    decreases |answers|
  {
    if answers == [] {
      BeginHasInv(pieces, ending);
      if Publish(Begin(pieces, ending)).phase == Aborted(code) {
        ReadingFails(Begin(pieces, ending), pieces, ending, code);
      }
    } else {
      var earlier, a := answers[..|answers| - 1], answers[|answers| - 1];
      WriterAborts(pieces, ending, earlier, code);
      WriterKeepsInv(pieces, ending, earlier);
      var w := WriterAfter(pieces, ending, earlier);
      if Selecting(w) {
        AbortingStep(w, a, pieces, ending, code);
      }
    }
  }

  /** At any moment, what is published is a prefix of the full delivery. */
  lemma {:induction false} PublishedIsPrefix(pieces: seq<Piece>, ending: Ending, answers: seq<Answer>)
    ensures var w := WriterAfter(pieces, ending, answers);
            && |DataChunks(w.published)| <= |pieces|
            && (forall i | 0 <= i < |DataChunks(w.published)| ::
                  w.published[i] == Chunk(|Concat(pieces[..i])|, Some(pieces[i])))
            && (EndsWithEnd(w.published) ==> DeliversWholeFile(w.published, pieces))
  {
    WriterKeepsInv(pieces, ending, answers);
    InvMeansPrefix(WriterAfter(pieces, ending, answers), pieces, ending);
  }

  lemma {:induction false} InvMeansPrefix(w: Writer, pieces: seq<Piece>, ending: Ending)
    requires WriterInv(w, pieces, ending)
    ensures |DataChunks(w.published)| <= |pieces|
    ensures forall i | 0 <= i < |DataChunks(w.published)| ::
              w.published[i] == Chunk(|Concat(pieces[..i])|, Some(pieces[i]))
    ensures EndsWithEnd(w.published) ==> DeliversWholeFile(w.published, pieces)
  {
    var data := DataChunks(w.published);
    DataIsPrefix(data, w.unread, w.offset, pieces);
    assert forall i | 0 <= i < |data| :: w.published[i] == data[i];
  }

  lemma {:induction false} DataIsPrefix(data: seq<Message>, unread: seq<Piece>, offset: nat, pieces: seq<Piece>)
    requires SentSoFar(data, unread, offset, pieces)
    ensures |data| <= |pieces|
    ensures forall i | 0 <= i < |data| :: data[i] == Chunk(|Concat(pieces[..i])|, Some(pieces[i]))
    ensures unread == [] ==> |data| == |pieces| && offset == |Concat(pieces)|
  {
    var sent := Bodies(data);
    BodiesOfData(data, sent);
    forall i | 0 <= i < |data|
      ensures data[i] == Chunk(|Concat(pieces[..i])|, Some(pieces[i]))
    {
      assert pieces[..i] == sent[..i];
    }
    if unread == [] {
      assert sent + [] == sent;
    }
  }

  /** A complete stream passes every offset check of the receiver, which writes the identical file
      and acknowledges its whole length last. */
  lemma {:induction false} CompleteStreamReceived(w: Writer, pieces: seq<Piece>, ending: Ending)
    requires WriterInv(w, pieces, ending) && EndsWithEnd(w.published)
    ensures var r := Run(w.published);
            && r.status.Finished?
            && r.written == Concat(pieces) && |r.written| == w.offset
            && |r.acks| == |pieces| / ACK_SLIDING_WINDOW_SEND + 1
            && r.acks[|r.acks| - 1] == w.offset
  {
    var data := DataChunks(w.published);
    assert Bodies(data) + [] == Bodies(data);
    assert w.published[..|data|] == data;
    FinishedExactly(w.published, |data|);
  }

  /** The chunk stream of a finished upload is received as the identical file. */
  lemma {:induction false} SenderReceiverRoundTrip(pieces: seq<Piece>, ending: Ending, answers: seq<Answer>)
    requires WriterAfter(pieces, ending, answers).phase.Created?
    ensures var r := Run(WriterAfter(pieces, ending, answers).published);
            && r.status.Finished?
            && r.written == Concat(pieces)
            && |r.acks| == |pieces| / ACK_SLIDING_WINDOW_SEND + 1
            && r.acks[|r.acks| - 1] == |Concat(pieces)|
  {
    WriterKeepsInv(pieces, ending, answers);
    CompleteStreamReceived(WriterAfter(pieces, ending, answers), pieces, ending);
  }
}
