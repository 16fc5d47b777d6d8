/** Reading back the recorded bytes of a session: store/mongo/recording_reader.go. */
module RecordingReader {
  import opened Bytes
  import Gzip

  const RECORDING_READ_BUFFER_SIZE := 1024

  lemma {:induction false} Regroup(decoded: seq<byte>, n: nat, rest: seq<byte>, more: seq<byte>)
    requires n <= |decoded|
    ensures decoded[..n] + (decoded[n..] + rest + more) == decoded + rest + more
    ensures [] + (decoded + rest) + more == decoded + rest + more
  {
  }

  /** Streams the decompressed records of a cursor through a staging buffer. */
  class RecordingReader {
    var cursor: seq<Gzip.Compressed>
    var output: seq<byte>
    var gzipReader: Option<seq<byte>>  // of the open record, what is not decompressed yet

    ghost function Undecoded(): seq<byte>
      reads this
    {
      if gzipReader == None then [] else gzipReader.value
    }

    /** What is left to read: the staged bytes, the rest of the open record, the unread records. */
    ghost function Pending(): seq<byte>
      reads this
    {
      output + Undecoded() + Gzip.Plain(cursor)
    }

    /** What is read before the next end of file. */
    ghost function UntilEof(): seq<byte>
      reads this
    {
      output + Undecoded() + Playable(cursor)
    }

    /** Nothing is staged or left of the open record, and the next record, if any, is empty. */
    ghost predicate AtEof()
      reads this
    {
      output == [] && Undecoded() == [] && (cursor == [] || cursor[0].plain == [])
    }

    /** The most the next read can give: it never passes from the staged bytes to those not decompressed
        yet, nor from one record to the next. */
    ghost function Reach(): nat
      reads this
    {
      if output != [] then |output|
      else if Undecoded() != [] then |Undecoded()|
      else if cursor != [] then |cursor[0].plain|
      else 0
    }

    ghost predicate Valid()
      reads this
    {
      |output| <= RECORDING_READ_BUFFER_SIZE
    }

    constructor (cursor: seq<Gzip.Compressed>)
      ensures Valid() && Pending() == Gzip.Plain(cursor) && UntilEof() == Playable(cursor)
      ensures this.cursor == cursor && output == [] && gzipReader == None
    {
      this.cursor := cursor;
      output := [];
      gzipReader := None;
    }

    /** Fills at most the first `length` bytes of `buffer`. */
    method Read(buffer: array<byte>, length: nat) returns (n: nat, eof: bool)
      requires Valid() && length <= buffer.Length
      modifies this, buffer
      ensures Valid()
      ensures n <= length && n <= RECORDING_READ_BUFFER_SIZE
      ensures buffer[..n] + Pending() == old(Pending())
      ensures buffer[length..] == old(buffer[length..])
      ensures !eof ==> buffer[..n] + UntilEof() == old(UntilEof())
      ensures eof == old(AtEof())
      ensures eof ==> n == 0
      ensures !eof && length > 0 ==> n > 0
      ensures n <= old(Reach())
      ensures old(output) != [] ==>
                n == (if length > old(|output|) then old(|output|) else length) && output == old(output)[n..]
      decreases gzipReader != None
    {
      if |output| < 1 {
        if gzipReader != None {
          var data, e, left := Gzip.Read(gzipReader.value, RECORDING_READ_BUFFER_SIZE, false);
          if data == [] || e {
            output := [];
            gzipReader := None;
            n, eof := Read(buffer, length);
            return;
          }
          gzipReader := Some(left);
          n := Deliver(data, buffer, length);
          Regroup(data, n, left, Gzip.Plain(cursor));
          Regroup(data, n, left, Playable(cursor));
          return n, false;
        }
        if cursor == [] {
          return 0, true;
        }
        var record := cursor[0];
        cursor := cursor[1..];
        var data, e, left := Gzip.Read(record.plain, RECORDING_READ_BUFFER_SIZE, false);
        if data == [] {
          output := [];
          gzipReader := None;
          return 0, true;
        }
        gzipReader := Some(left);
        n := Deliver(data, buffer, length);
        Regroup(data, n, left, Gzip.Plain(cursor));
        Regroup(data, n, left, Playable(cursor));
        return n, false;
      }
      ghost var staged := output;
      n := Deliver(output, buffer, length);
      Regroup(staged, n, Undecoded(), Gzip.Plain(cursor));
      Regroup(staged, n, Undecoded(), Playable(cursor));
      eof := false;
    }

    /** Copies what fits of the decoded bytes and stages the others. */
    method Deliver(decoded: seq<byte>, buffer: array<byte>, length: nat) returns (n: nat)
      requires length <= buffer.Length
      modifies this`output, buffer
      ensures n == if length > |decoded| then |decoded| else length
      ensures buffer[..n] == decoded[..n] && output == decoded[n..]
      ensures buffer[length..] == old(buffer[length..])
    {
      if length > |decoded| {
        n := |decoded|;
        forall i | 0 <= i < n {
          buffer[i] := decoded[i];
        }
        output := [];
      } else {
        n := length;
        forall i | 0 <= i < n {
          buffer[i] := decoded[i];
        }
        output := decoded[length..];
      }
    }
  }

  /** What a reader gives when it is read until the first end of file. */
  function Playable(records: seq<Gzip.Compressed>): seq<byte> {
    if records == [] || records[0].plain == [] then [] else records[0].plain + Playable(records[1..])
  }

  /** Read until its first end of file, a recording is whole exactly when no empty record precedes a
      nonempty one. */
  lemma {:induction false} PlayableExactly(records: seq<Gzip.Compressed>)
    ensures Playable(records) <= Gzip.Plain(records)
    ensures Playable(records) == Gzip.Plain(records) <==>
            forall i, j | 0 <= i < j < |records| :: records[i].plain == [] ==> records[j].plain == []
    decreases |records|
  {
    if records != [] {
      PlayableExactly(records[1..]);
      AllEmpty(records);
      if records[0].plain != [] {
        if Playable(records) == Gzip.Plain(records) {
          assert Playable(records) == records[0].plain + Playable(records[1..]);
          assert Playable(records)[|records[0].plain|..] == Playable(records[1..]);
          assert Gzip.Plain(records)[|records[0].plain|..] == Gzip.Plain(records[1..]);
          forall i, j | 0 <= i < j < |records|
            ensures records[i].plain == [] ==> records[j].plain == []
          {
            if i > 0 {
              assert records[1..][i - 1] == records[i] && records[1..][j - 1] == records[j];
            }
          }
        }
        if forall i, j | 0 <= i < j < |records| :: records[i].plain == [] ==> records[j].plain == [] {
          forall i, j | 0 <= i < j < |records[1..]|
            ensures records[1..][i].plain == [] ==> records[1..][j].plain == []
          {
            assert records[1..][i] == records[i + 1] && records[1..][j] == records[j + 1];
          }
        }
      }
    }
  }

  /** What is played is the records before the first empty one. */
  lemma {:induction false} PlayableUpTo(records: seq<Gzip.Compressed>, n: nat)
    requires n <= |records| && (n < |records| ==> records[n].plain == [])
    requires forall i | 0 <= i < n :: records[i].plain != []
    ensures Playable(records) == Gzip.Plain(records[..n])
    decreases n
  {
    if n > 0 {
      assert records[..n][1..] == records[1..][..n - 1];
      PlayableUpTo(records[1..], n - 1);
    }
  }

  lemma {:induction false} AllEmpty(records: seq<Gzip.Compressed>)
    ensures Gzip.Plain(records) == [] <==> forall i | 0 <= i < |records| :: records[i].plain == []
    decreases |records|
  {
    if records != [] {
      AllEmpty(records[1..]);
      assert forall i | 1 <= i < |records| :: records[i] == records[1..][i - 1];
    }
  }
}
