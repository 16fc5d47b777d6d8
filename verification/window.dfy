/** The sliding window of an upload: how many published bytes may be unacknowledged. The writer waits
    for one acknowledgement when the window is over, not until it is back inside the window. */
module Window {
  import opened Upload

  const BOUND := (ACK_SLIDING_WINDOW_RECV + 1) * FILE_TRANSFER_BUFFER_SIZE

  function Unacknowledged(w: Writer): int {
    w.offset - w.latestAckOffset
  }

  predicate PiecesFit(pieces: seq<Piece>) {
    forall p | p in pieces :: |p| <= FILE_TRANSFER_BUFFER_SIZE
  }

  predicate PiecesFull(pieces: seq<Piece>) {
    forall p | p in pieces :: |p| == FILE_TRANSFER_BUFFER_SIZE
  }

  /** The acknowledgements are increasing 64-bit offsets, as the channel delivers them. */
  predicate Increasing(pieces: seq<Piece>, ending: Ending, answers: seq<Answer>) {
    forall k | 0 <= k < |answers| && answers[k].Ack? ::
      WriterAfter(pieces, ending, answers[..k]).latestAckOffset < answers[k].offset <= MAX_INT64
  }

  /** The acknowledgement `answers[k]` ends a wait, and another piece follows. */
  predicate EndsWait(pieces: seq<Piece>, ending: Ending, answers: seq<Answer>, k: nat)
    requires k < |answers|
  {
    var w := WriterAfter(pieces, ending, answers[..k]);
    w.phase.Waiting? && answers[k].Ack? && w.unread != []
  }

  /** If it does, it leaves room for that piece within the bound. */
  predicate LeavesRoom(pieces: seq<Piece>, ending: Ending, answers: seq<Answer>, k: nat)
    requires k < |answers|
  {
    var w := WriterAfter(pieces, ending, answers[..k]);
    EndsWait(pieces, ending, answers, k) ==> w.offset + |w.unread[0]| <= answers[k].offset + BOUND
  }

  /** If it does, it brings the writer back inside its window. */
  predicate Reopens(pieces: seq<Piece>, ending: Ending, answers: seq<Answer>, k: nat)
    requires k < |answers|
  {
    var w := WriterAfter(pieces, ending, answers[..k]);
    EndsWait(pieces, ending, answers, k) ==> answers[k].offset >= w.offset - WINDOW
  }

  /** If it does, it is at least one buffer further than the one before. */
  predicate AdvancesByBuffer(pieces: seq<Piece>, ending: Ending, answers: seq<Answer>, k: nat)
    requires k < |answers|
  {
    var w := WriterAfter(pieces, ending, answers[..k]);
    EndsWait(pieces, ending, answers, k) ==> answers[k].offset >= w.latestAckOffset + FILE_TRANSFER_BUFFER_SIZE
  }

  predicate AllLeaveRoom(pieces: seq<Piece>, ending: Ending, answers: seq<Answer>) {
    forall k | 0 <= k < |answers| :: LeavesRoom(pieces, ending, answers, k)
  }

  predicate AllReopen(pieces: seq<Piece>, ending: Ending, answers: seq<Answer>) {
    forall k | 0 <= k < |answers| :: Reopens(pieces, ending, answers, k)
  }

  predicate AllReopenOrAdvance(pieces: seq<Piece>, ending: Ending, answers: seq<Answer>) {
    forall k | 0 <= k < |answers| ::
      Reopens(pieces, ending, answers, k) || AdvancesByBuffer(pieces, ending, answers, k)
  }

  /** At every select the unacknowledged bytes are within the bound. */
  predicate BoundKept(pieces: seq<Piece>, ending: Ending, answers: seq<Answer>) {
    forall k | 0 <= k <= |answers| :: Unacknowledged(WriterAfter(pieces, ending, answers[..k])) <= BOUND
  }

  lemma {:induction false} PrefixOf(pieces: seq<Piece>, ending: Ending, answers: seq<Answer>, k: nat)
    requires k < |answers|
    ensures WriterAfter(pieces, ending, answers[..k + 1])
            == var w := WriterAfter(pieces, ending, answers[..k]);
               if Selecting(w) then Settled(Select(w, answers[k])) else w
  {
    assert answers[..k + 1] == answers[..k] + [answers[k]];
    WriterAfterSnoc(pieces, ending, answers[..k], answers[k]);
  }

  /** What the window check leaves true before the next piece is read. */
  predicate Inside(w: Writer) {
    && -WINDOW <= w.latestAckOffset <= MAX_INT64
    && PiecesFit(w.unread)
    && Unacknowledged(w) <= BOUND
    && (w.phase.Polling? ==> Unacknowledged(w) <= WINDOW)
  }

  lemma {:induction false} PublishInside(w: Writer)
    requires w.phase.Reading? && PiecesFit(w.unread) && -WINDOW <= w.latestAckOffset <= MAX_INT64
    requires Unacknowledged(w) <= BOUND
    requires w.unread != [] ==> Unacknowledged(w) + |w.unread[0]| <= BOUND
    ensures Inside(Publish(w))
  {
    assert forall p | p in Publish(w).unread :: p in w.unread;
  }

  lemma {:induction false} SelectInside(w: Writer, a: Answer)
    requires Inside(w) && Selecting(w)
    requires a.Ack? ==> w.latestAckOffset < a.offset <= MAX_INT64
    requires w.phase.Waiting? && a.Ack? && w.unread != [] ==>
               || w.offset + |w.unread[0]| <= a.offset + BOUND
               || a.offset >= w.latestAckOffset + FILE_TRANSFER_BUFFER_SIZE
    ensures Inside(Settled(Select(w, a)))
  {
    var v := Select(w, a);
    if v.phase.Reading? {
      assert v.unread != [] ==> v.unread[0] in w.unread;
      PublishInside(v);
    }
  }

  lemma {:induction false} BoundStep(pieces: seq<Piece>, ending: Ending, answers: seq<Answer>, k: nat)
    requires PiecesFit(pieces) && Increasing(pieces, ending, answers)
    requires forall i | 0 <= i < |answers| ::
               LeavesRoom(pieces, ending, answers, i) || AdvancesByBuffer(pieces, ending, answers, i)
    requires k <= |answers|
    ensures Inside(WriterAfter(pieces, ending, answers[..k]))
    decreases k
  {
    if k == 0 {
      PublishInside(Begin(pieces, ending));
    } else {
      BoundStep(pieces, ending, answers, k - 1);
      PrefixOf(pieces, ending, answers, k - 1);
      var w := WriterAfter(pieces, ending, answers[..k - 1]);
      if Selecting(w) {
        assert LeavesRoom(pieces, ending, answers, k - 1) || AdvancesByBuffer(pieces, ending, answers, k - 1);
        SelectInside(w, answers[k - 1]);
      }
    }
  }

  /** The window bound if acknowledgements keep up: each one that ends a wait brings the writer back
      inside its window or is at least one buffer further. */
  lemma {:induction false} WindowBound(pieces: seq<Piece>, ending: Ending, answers: seq<Answer>)
    requires PiecesFit(pieces) && Increasing(pieces, ending, answers)
    requires AllReopenOrAdvance(pieces, ending, answers)
    ensures BoundKept(pieces, ending, answers)
  {
    forall k | 0 <= k < |answers|
      ensures LeavesRoom(pieces, ending, answers, k) || AdvancesByBuffer(pieces, ending, answers, k)
    {
      UnreadFits(pieces, ending, answers[..k]);
      assert Reopens(pieces, ending, answers, k) || AdvancesByBuffer(pieces, ending, answers, k);
    }
    forall k | 0 <= k <= |answers|
      ensures Unacknowledged(WriterAfter(pieces, ending, answers[..k])) <= BOUND
    {
      BoundStep(pieces, ending, answers, k);
    }
  }

  lemma {:induction false} UnreadFits(pieces: seq<Piece>, ending: Ending, answers: seq<Answer>)
    ensures forall p | p in WriterAfter(pieces, ending, answers).unread :: p in pieces
    decreases |answers|
  {
    if answers != [] {
      UnreadFits(pieces, ending, answers[..|answers| - 1]);
      var w := WriterAfter(pieces, ending, answers[..|answers| - 1]);
      if Selecting(w) {
        UnreadAfter(w, answers[|answers| - 1]);
      }
    } else {
      UnreadSettled(Begin(pieces, ending));
    }
  }

  lemma {:induction false} UnreadSettled(w: Writer)
    ensures forall p | p in Settled(w).unread :: p in w.unread
  {
  }

  lemma {:induction false} UnreadAfter(w: Writer, a: Answer)
    requires Selecting(w)
    ensures forall p | p in Settled(Select(w, a)).unread :: p in w.unread
  {
    UnreadSettled(Select(w, a));
  }

  /** For every file the bound holds exactly when each acknowledgement that ends a wait before another
      piece leaves room for that piece. */
  lemma {:induction false} WindowBoundExactly(pieces: seq<Piece>, ending: Ending, answers: seq<Answer>)
    requires PiecesFit(pieces) && Increasing(pieces, ending, answers)
    ensures BoundKept(pieces, ending, answers) <==> AllLeaveRoom(pieces, ending, answers)
  {
    if AllLeaveRoom(pieces, ending, answers) {
      forall k | 0 <= k <= |answers|
        ensures Unacknowledged(WriterAfter(pieces, ending, answers[..k])) <= BOUND
      {
        BoundStep(pieces, ending, answers, k);
      }
    }
    if BoundKept(pieces, ending, answers) {
      forall k | 0 <= k < |answers|
        ensures LeavesRoom(pieces, ending, answers, k)
      {
        PrefixOf(pieces, ending, answers, k);
        assert Unacknowledged(WriterAfter(pieces, ending, answers[..k + 1])) <= BOUND;
      }
    }
  }

  /** For a file read in full buffers that is when each of them brings the writer back inside its
      window. */
  lemma {:induction false} FullBuffersBoundExactly(pieces: seq<Piece>, ending: Ending, answers: seq<Answer>)
    requires PiecesFull(pieces) && Increasing(pieces, ending, answers)
    ensures BoundKept(pieces, ending, answers) <==> AllReopen(pieces, ending, answers)
  {
    WindowBoundExactly(pieces, ending, answers);
    forall k | 0 <= k < |answers|
      ensures LeavesRoom(pieces, ending, answers, k) <==> Reopens(pieces, ending, answers, k)
    {
      UnreadFits(pieces, ending, answers[..k]);
    }
  }

  // The bound is not kept in general: 22 full buffers and one acknowledgement of a single byte.

  function Buffers(n: nat): (pieces: seq<Piece>)
    ensures |pieces| == n && PiecesFull(pieces)
  {
    seq(n, i => seq(FILE_TRANSFER_BUFFER_SIZE, j => 0))
  }

  function Silences(n: nat): (answers: seq<Answer>)
    ensures |answers| == n && forall a | a in answers :: a.Silence?
  {
    seq(n, i => Silence)
  }

  lemma {:induction false} PublishBuffer(w: Writer, n: nat, k: nat)
    requires k < n && k <= ACK_SLIDING_WINDOW_RECV
    requires w.phase.Reading? && w.unread == Buffers(n)[k..]
    requires w.offset == k * FILE_TRANSFER_BUFFER_SIZE && w.latestAckOffset == 0
    ensures var v := Publish(w);
            && v.unread == Buffers(n)[k + 1..]
            && v.offset == (k + 1) * FILE_TRANSFER_BUFFER_SIZE && v.latestAckOffset == 0
            && v.phase == if k < ACK_SLIDING_WINDOW_RECV then Polling else Waiting
  {
    assert w.unread[0] == Buffers(n)[k] && Buffers(n)[k] in Buffers(n);
  }

  lemma {:induction false} UnansweredBuffers(n: nat, k: nat)
    requires k < n && k <= ACK_SLIDING_WINDOW_RECV
    ensures var w := WriterAfter(Buffers(n), Eof, Silences(k));
            && w.unread == Buffers(n)[k + 1..]
            && w.offset == (k + 1) * FILE_TRANSFER_BUFFER_SIZE && w.latestAckOffset == 0
            && w.phase == if k < ACK_SLIDING_WINDOW_RECV then Polling else Waiting
    decreases k
  {
    if k == 0 {
      PublishBuffer(Begin(Buffers(n), Eof), n, 0);
    } else {
      UnansweredBuffers(n, k - 1);
      assert Silences(k)[..k - 1] == Silences(k - 1);
      var w := WriterAfter(Buffers(n), Eof, Silences(k - 1));
      PublishBuffer(Select(w, Silence), n, k);
    }
  }

  lemma WindowBoundCanFail()
    ensures !BoundKept(Buffers(22), Eof, Silences(20) + [Ack(1)])
    ensures Increasing(Buffers(22), Eof, Silences(20) + [Ack(1)])
  {
    var answers := Silences(20) + [Ack(1)];
    UnansweredBuffers(22, 20);
    assert answers[..20] == Silences(20);
    PrefixOf(Buffers(22), Eof, answers, 20);
    var w := WriterAfter(Buffers(22), Eof, answers[..21]);
    assert Unacknowledged(w) == 22 * FILE_TRANSFER_BUFFER_SIZE - 1;
  }
}
