/** Storing a session: the recorders in app/recorder.go and app/control_recorder.go behind their
    buffered writers, and the collections they insert into. */
module Recorder {
  import opened Bytes
  import Gzip

  const RECORDER_BUFFER_SIZE := 4 * 4096

  /** A buffered recorder: the records it stored and the bytes it holds back. */
  datatype Buffered = Buffered(stored: seq<Gzip.Compressed>, pending: seq<byte>)

  const Empty := Buffered([], [])

  /** Everything written. */
  function Contents(b: Buffered): seq<byte> {
    Gzip.Plain(b.stored) + b.pending
  }

  function Flushed(b: Buffered): Buffered {
    if b.pending == [] then b else Buffered(b.stored + [Gzip.Compressed(b.pending)], [])
  }

  function Available(b: Buffered): nat {
    if |b.pending| < RECORDER_BUFFER_SIZE then RECORDER_BUFFER_SIZE - |b.pending| else 0
  }

  /** A buffered write: what does not fit fills the buffer, which is stored, or is stored at once if
      nothing is held back. */
  function Written(b: Buffered, p: seq<byte>): Buffered
    decreases |p|, |b.pending|
  {
    var n := Available(b);
    if |p| <= n then b.(pending := b.pending + p)
    else if b.pending == [] then Buffered(b.stored + [Gzip.Compressed(p)], [])
    else Written(Flushed(b.(pending := b.pending + p[..n])), p[n..])
  }

  /** The buffer is not overfull, and no stored record is empty. */
  predicate Sound(b: Buffered) {
    && |b.pending| <= RECORDER_BUFFER_SIZE
    && forall r | r in b.stored :: r.plain != []
  }

  lemma {:induction false} FlushKeepsContents(b: Buffered)
    requires Sound(b)
    ensures Sound(Flushed(b)) && Contents(Flushed(b)) == Contents(b) == Gzip.Plain(Flushed(b).stored)
  {
    if b.pending != [] {
      var record := Gzip.Compressed(b.pending);
      Gzip.PlainSplit(b.stored, [record]);
      assert Gzip.Plain([record]) == b.pending + Gzip.Plain([]);
    }
  }

  /** Nothing written is lost or moved, however the writes are cut into records. */
  lemma {:induction false} WriteKeepsContents(b: Buffered, p: seq<byte>)
    requires Sound(b)
    ensures Sound(Written(b, p)) && Contents(Written(b, p)) == Contents(b) + p
    decreases |p|, |b.pending|
  {
    var n := Available(b);
    if |p| <= n {
      assert Contents(b) + p == Gzip.Plain(b.stored) + (b.pending + p);
    } else if b.pending == [] {
      FlushKeepsContents(b.(pending := []));
      Gzip.PlainSplit(b.stored, [Gzip.Compressed(p)]);
      assert Gzip.Plain([Gzip.Compressed(p)]) == p + Gzip.Plain([]);
    } else {
      var full := b.(pending := b.pending + p[..n]);
      FlushKeepsContents(full);
      WriteKeepsContents(Flushed(full), p[n..]);
      assert Contents(b) + p == Contents(full) + p[n..];
    }
  }

  /** A write of at most one buffer stores nothing if it fits, and otherwise one record and holds
      back a rest. */
  lemma {:induction false} SmallWrite(b: Buffered, p: seq<byte>)
    requires Sound(b) && 0 < |p| <= RECORDER_BUFFER_SIZE
    ensures var t := Written(b, p);
            if |b.pending| + |p| <= RECORDER_BUFFER_SIZE
            then t.stored == b.stored && |t.pending| == |b.pending| + |p|
            else |t.stored| == |b.stored| + 1 && t.pending != []
  {
  }

  /** A write stores at most two records: a full buffer, if something was held back, and then what is larger
      than a buffer. */
  lemma {:induction false} RecordsOfWrite(b: Buffered, p: seq<byte>)
    requires Sound(b)
    ensures var t := Written(b, p);
            && |b.stored| <= |t.stored| <= |b.stored| + 2 && t.stored[..|b.stored|] == b.stored
            && (|t.stored| > |b.stored| && b.pending != [] ==> |t.stored[|b.stored|].plain| == 4 * 4096)
            && (|t.stored| == |b.stored| <==> |b.pending| + |p| <= 4 * 4096)
            && (b.pending == [] && |p| > 4 * 4096 ==> t == Buffered(b.stored + [Gzip.Compressed(p)], []))
  {
    var n := Available(b);
    if |p| > n && b.pending != [] {
      var full := Flushed(b.(pending := b.pending + p[..n]));
      assert Written(b, p) == Written(full, p[n..]);
      assert full.stored == b.stored + [Gzip.Compressed(b.pending + p[..n])];
    }
  }

  /** One of the two collections of records, of terminal bytes or of control messages. */
  class Collection {
    var documents: map<string, seq<Gzip.Compressed>>

    constructor ()
      ensures forall sessionID :: Records(sessionID) == []
    {
      documents := map[];
    }

    /** The records of a session, in the order of their insertion. */
    function Records(sessionID: string): seq<Gzip.Compressed>
      reads this
    {
      if sessionID in documents then documents[sessionID] else []
    }

    method Insert(sessionID: string, record: Gzip.Compressed)
      modifies this
      ensures Records(sessionID) == old(Records(sessionID)) + [record]
      ensures forall s | s != sessionID :: Records(s) == old(Records(s))
    {
      documents := documents[sessionID := Records(sessionID) + [record]];
    }
  }

  /** A recorder behind the buffered writer of a session; the two recorders differ only in their
      collection. `pending` is what is buffered and `written` everything ever written. */
  class BufferedRecorder {
    const sessionID: string
    const collection: Collection
    var gzipBuffer: seq<byte>
    var pending: seq<byte>
    ghost var written: seq<byte>

    function View(): Buffered
      reads this, collection
    {
      Buffered(collection.Records(sessionID), pending)
    }

    ghost predicate Valid()
      reads this, collection
    {
      sessionID != [] && Sound(View()) && Contents(View()) == written
    }

    constructor (sessionID: string, collection: Collection)
      requires sessionID != [] && collection.Records(sessionID) == []
      ensures Valid() && written == [] && View() == Empty
      ensures this.sessionID == sessionID && this.collection == collection
    {
      this.sessionID, this.collection := sessionID, collection;
      gzipBuffer, pending, written := [], [], [];
    }

    /** `Write` of the recorder: one stored record a call, whatever an earlier call left behind. */
    method StoreRecord(d: seq<byte>) returns (n: nat)
      modifies this`gzipBuffer, collection
      ensures sessionID == [] ==> n == 0 && collection.documents == old(collection.documents)
      ensures sessionID != [] ==> n == |d|
      ensures sessionID != [] ==>
                collection.Records(sessionID) == old(collection.Records(sessionID)) + [Gzip.Compressed(d)]
      ensures forall s | s != sessionID :: collection.Records(s) == old(collection.Records(s))
    {
      if |sessionID| < 1 {
        return 0;
      }
      gzipBuffer := [];
      gzipBuffer := gzipBuffer + d;
      assert gzipBuffer == d;
      var output := Gzip.Compressed(gzipBuffer);
      collection.Insert(sessionID, output);
      return |d|;
    }

    /** Stores what is buffered, if anything. */
    method Flush()
      requires Valid()
      modifies this`gzipBuffer, this`pending, collection
      ensures Valid() && View() == Flushed(old(View()))
      ensures Gzip.Plain(collection.Records(sessionID)) == written
    {
      FlushKeepsContents(View());
      StorePending();
    }

    method StorePending()
      requires sessionID != []
      modifies this`gzipBuffer, this`pending, collection
      ensures View() == Flushed(old(View()))
    {
      if pending != [] {
        var _ := StoreRecord(pending);
        pending := [];
      }
    }

    /** A write to the buffered writer, of 16384 bytes. */
    method Write(d: seq<byte>)
      requires Valid()
      modifies this, collection
      ensures Valid() && View() == Written(old(View()), d) && written == old(written) + d
    {
      WriteKeepsContents(View(), d);
      ghost var after := Written(View(), d);
      var p := d;
      while |p| > RECORDER_BUFFER_SIZE - |pending|
        invariant |pending| <= RECORDER_BUFFER_SIZE && written == old(written)
        invariant Written(View(), p) == after
        decreases |p|, |pending|
      {
        if |pending| == 0 {
          var _ := StoreRecord(p);
          p := [];
        } else {
          var n := RECORDER_BUFFER_SIZE - |pending|;
          pending := pending + p[..n];
          StorePending();
          p := p[n..];
        }
      }
      pending := pending + p;
      written := written + d;
    }
  }
}
