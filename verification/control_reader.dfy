/** Reading back the control messages of a session: store/mongo/control_reader.go. */
module ControlReader {
  import opened Bytes
  import opened Control
  import Gzip

  const CONTROL_READ_BUFFER_SIZE := 4096

  /** `fill` starts with a whole message of a known type. */
  predicate Whole(fill: seq<byte>) {
    fill != [] && DecodeError(fill) == None
  }

  /** The messages that successive pops return, from what is left of the current fill and of the
      compressed record: the next fill is taken only when the current one is used up exactly. */
  function Messages(fill: seq<byte>, rest: seq<byte>): seq<Value>
    decreases |fill| + |rest|, |rest|
  {
    if fill == [] then
      if rest == [] then []
      else
        var n := if |rest| < CONTROL_READ_BUFFER_SIZE then |rest| else CONTROL_READ_BUFFER_SIZE;
        Messages(rest[..n], rest[n..])
    else if Whole(fill) then [Decode(Zero, fill)] + Messages(fill[LengthOf(fill[0])..], rest)
    else []
  }

  lemma {:induction false} MessagesWhole(fill: seq<byte>, rest: seq<byte>)
    requires Whole(fill)
    ensures Messages(fill, rest) == [Decode(Zero, fill)] + Messages(fill[LengthOf(fill[0])..], rest)
  {
  }

  /** Only the first control record of a session is ever read. */
  function Recorded(records: seq<Gzip.Compressed>): seq<Value> {
    if records == [] then [] else Messages([], records[0].plain)
  }

  class ControlMessageReader {
    var currentOffset: nat
    const output: array<byte>
    var outputLength: nat
    var hasCursor: bool
    var gzipReader: seq<byte>  // what is still to come of the compressed record

    ghost predicate Valid()
      reads this
    {
      && output.Length == CONTROL_READ_BUFFER_SIZE
      && outputLength <= output.Length
      && (currentOffset < outputLength || currentOffset == outputLength == 0)
      && (hasCursor && 0 < outputLength < 3 ==> currentOffset == 0 && gzipReader == [])
    }

    /** The messages still to be popped. */
    ghost function Left(): seq<Value>
      requires Valid()
      reads this, output
    {
      if hasCursor then Messages(output[currentOffset..outputLength], gzipReader) else []
    }

    constructor New(records: seq<Gzip.Compressed>)
      ensures Valid() && fresh(output)
      ensures Left() == Recorded(records)
    {
      currentOffset := 0;
      output := new byte[CONTROL_READ_BUFFER_SIZE];
      outputLength := 0;
      hasCursor := false;
      gzipReader := [];
      new;
      if records == [] {
        return;
      }
      hasCursor := true;
      gzipReader := records[0].plain;
      Refill();
    }

    /** Reads into what follows the filled region. */
    method Refill()
      requires Valid() && hasCursor && outputLength < 3
      modifies this`outputLength, this`gzipReader, output
      ensures Valid()
      ensures Left() == old(Left())
      ensures outputLength < 3 ==> gzipReader == []
    {
      var before := output[..outputLength];
      var data, eof, left := Gzip.Read(gzipReader, output.Length - outputLength, true);
      forall i | 0 <= i < |data| {
        output[outputLength + i] := data[i];
      }
      assert output[..outputLength + |data|] == before + data;
      outputLength := outputLength + |data|;
      gzipReader := left;
      assert before == [] ==> old(gzipReader)[..|data|] == data && old(gzipReader)[|data|..] == left;
      assert output[0..outputLength] == before + data;
    }

    /** Returns the next message, or null when there is none; null is absorbing. */
    method Pop() returns (m: Control?)
      requires Valid()
      modifies this, output
      ensures Valid()
      ensures (m == null) == (old(Left()) == [])
      ensures m != null ==> fresh(m) && [m.View()] + Left() == old(Left())
      ensures m == null ==> Left() == []
    {
      if !hasCursor {
        return null;
      }
      if outputLength < 3 {
        Refill();
      }
      if outputLength < 3 {
        return null;
      }
      m := Parse();
    }

    method Parse() returns (m: Control?)
      requires Valid() && hasCursor && outputLength >= 3
      modifies this
      ensures Valid()
      ensures (m == null) == (old(Left()) == [])
      ensures m != null ==> fresh(m) && [m.View()] + Left() == old(Left())
      ensures m == null ==> Left() == []
    {
      m := new Control();
      var offset := currentOffset;
      var controlMessageBuffer := output[..outputLength];
      var fill := controlMessageBuffer[offset..];
      assert fill == output[currentOffset..outputLength];
      ghost var rest := gzipReader;
      assert Left() == Messages(fill, rest);
      if controlMessageBuffer[offset] == DELAY_MESSAGE {
        if offset + 7 > outputLength {
          return null;
        }
        var e := m.UnmarshalBinary(fill);
        if e != None {
          return null;
        }
        offset := offset + 7;
      } else if controlMessageBuffer[offset] == RESIZE_MESSAGE {
        if offset + 9 > outputLength {
          return null;
        }
        var e := m.UnmarshalBinary(fill);
        if e != None {
          return null;
        }
        offset := offset + 9;
      } else {
        return null;
      }
      assert output[offset..outputLength] == fill[LengthOf(fill[0])..];
      MessagesWhole(fill, rest);
      currentOffset := offset;
      if currentOffset >= outputLength {
        outputLength := 0;
        currentOffset := 0;
      }
    }
  }

  // What the reader makes of an encoded stream.

  function EncodeAll(cs: seq<Value>): seq<byte> {
    if cs == [] then [] else Encode(cs[0]) + EncodeAll(cs[1..])
  }

  predicate AllCanonical(cs: seq<Value>) {
    forall c | c in cs :: Canonical(c)
  }

  lemma {:induction false} EncodeSplit(a: seq<Value>, b: seq<Value>)
    ensures EncodeAll(a + b) == EncodeAll(a) + EncodeAll(b)
    decreases |a|
  {
    if a == [] {
      assert a + b == b;
    } else {
      assert (a + b)[1..] == a[1..] + b;
      EncodeSplit(a[1..], b);
    }
  }

  lemma {:induction false} EncodeSnoc(cs: seq<Value>, c: Value)
    ensures EncodeAll(cs + [c]) == EncodeAll(cs) + Encode(c)
  {
    EncodeSplit(cs, [c]);
    assert EncodeAll([c]) == Encode(c) + EncodeAll([]);
  }

  /** A whole message boundary of the stream lies at `at`. */
  ghost predicate Boundary(cs: seq<Value>, at: nat) {
    exists i | 0 <= i <= |cs| :: |EncodeAll(cs[..i])| == at
  }

  /** No message straddles the end of a fill. */
  ghost predicate FillsAligned(cs: seq<Value>) {
    forall k: nat | CONTROL_READ_BUFFER_SIZE * k <= |EncodeAll(cs)| :: Boundary(cs, CONTROL_READ_BUFFER_SIZE * k)
  }

  lemma {:induction false} EncodeHead(c: Value, more: seq<byte>)
    requires Canonical(c)
    ensures var fill := Encode(c) + more;
            Whole(fill) && Decode(Zero, fill) == c && fill[LengthOf(fill[0])..] == more
  {
    RoundTripExactly(c, more);
    assert (Encode(c) + more)[|Encode(c)|..] == more;
  }

  lemma {:induction false} Regroup(cs: seq<Value>, more: seq<Value>)
    requires cs != []
    ensures [cs[0]] + (cs[1..] + more) == cs + more
  {
  }

  /** Whole messages at the front of a fill are popped one by one. */
  lemma {:induction false} PopsWhole(cs: seq<Value>, tail: seq<byte>, rest: seq<byte>)
    requires AllCanonical(cs)
    ensures Messages(EncodeAll(cs) + tail, rest) == cs + Messages(tail, rest)
    decreases |cs|
  {
    if cs == [] {
      assert EncodeAll(cs) + tail == tail;
    } else {
      var head, more := Encode(cs[0]), EncodeAll(cs[1..]) + tail;
      assert cs[0] in cs && EncodeAll(cs) + tail == head + more;
      EncodeHead(cs[0], more);
      MessagesWhole(head + more, rest);
      assert forall c | c in cs[1..] :: c in cs;
      PopsWhole(cs[1..], tail, rest);
      Regroup(cs, Messages(tail, rest));
    }
  }

  /** The messages that lie wholly in the first fill. */
  lemma {:induction false} FirstFill(cs: seq<Value>, room: nat) returns (i: nat)
    ensures i <= |cs| && |EncodeAll(cs[..i])| <= room
    ensures i < |cs| ==> |EncodeAll(cs[..i])| + |Encode(cs[i])| > room
    decreases |cs|
  {
    if cs == [] || |Encode(cs[0])| > room {
      i := 0;
    } else {
      var j := FirstFill(cs[1..], room - |Encode(cs[0])|);
      i := j + 1;
      assert cs[..i][1..] == cs[1..][..j];
    }
  }

  lemma {:induction false} EncodedPrefix(cs: seq<Value>, i: nat, j: nat)
    requires i <= j <= |cs| && AllCanonical(cs)
    ensures |EncodeAll(cs[..i])| + 7 * (j - i) <= |EncodeAll(cs[..j])|
    decreases j
  {
    if i < j {
      EncodedPrefix(cs, i, j - 1);
      EncodedUpTo(cs, j - 1);
      assert cs[j - 1] in cs;
    }
  }

  /** After a fill that ends on a boundary, the rest is aligned exactly when the whole is. */
  lemma {:induction false} AlignedRest(cs: seq<Value>, i: nat)
    requires i <= |cs| && |EncodeAll(cs[..i])| == CONTROL_READ_BUFFER_SIZE
    requires AllCanonical(cs)
    ensures FillsAligned(cs) <==> FillsAligned(cs[i..])
  {
    var a, b := cs[..i], cs[i..];
    var size := CONTROL_READ_BUFFER_SIZE;
    assert cs == a + b;
    EncodeSplit(a, b);
    if FillsAligned(cs) {
      forall k: nat | size * k <= |EncodeAll(b)|
        ensures Boundary(b, size * k)
      {
        assert Boundary(cs, size * (k + 1));
        var j :| 0 <= j <= |cs| && |EncodeAll(cs[..j])| == size * (k + 1);
        if j < i {
          EncodedPrefix(cs, j, i);
        }
        assert cs[..j] == a + b[..j - i];
        EncodeSplit(a, b[..j - i]);
      }
    }
    if FillsAligned(b) {
      forall k: nat | size * k <= |EncodeAll(cs)|
        ensures Boundary(cs, size * k)
      {
        if k == 0 {
          assert |EncodeAll(cs[..0])| == 0;
        } else {
          assert Boundary(b, size * (k - 1));
          var j :| 0 <= j <= |b| && |EncodeAll(b[..j])| == size * (k - 1);
          assert cs[..i + j] == a + b[..j];
          EncodeSplit(a, b[..j]);
          assert |EncodeAll(cs[..i + j])| == size * k;
        }
      }
    }
  }

  lemma {:induction false} OneFillIsAligned(cs: seq<Value>)
    requires |EncodeAll(cs)| <= CONTROL_READ_BUFFER_SIZE
    ensures FillsAligned(cs)
  {
    forall k: nat | CONTROL_READ_BUFFER_SIZE * k <= |EncodeAll(cs)|
      ensures Boundary(cs, CONTROL_READ_BUFFER_SIZE * k)
    {
      if k == 0 {
        assert |EncodeAll(cs[..0])| == 0;
      } else {
        assert k == 1 && cs[..|cs|] == cs;
      }
    }
  }

  /** A fill that ends inside a message ends the reading for good. */
  lemma {:induction false} StopsInsideMessage(cs: seq<Value>, i: nat)
    requires AllCanonical(cs) && i < |cs|
    requires |EncodeAll(cs[..i])| < CONTROL_READ_BUFFER_SIZE < |EncodeAll(cs[..i])| + |Encode(cs[i])|
    ensures Messages([], EncodeAll(cs)) == cs[..i]
    ensures !FillsAligned(cs)
  {
    var size := CONTROL_READ_BUFFER_SIZE;
    var a, b := cs[..i], cs[i..];
    assert cs == a + b && b[0] == cs[i] && cs[i] in cs;
    EncodeSplit(a, b);
    var s := EncodeAll(cs);
    var tail := EncodeAll(b)[..size - |EncodeAll(a)|];
    assert s[..size] == EncodeAll(a) + tail;
    assert tail[0] == Encode(b[0])[0] == b[0].kind;
    assert forall c | c in a :: c in cs;
    PopsWhole(a, tail, s[size..]);
    assert !Whole(tail);
    assert a + [] == a;
    if FillsAligned(cs) {
      assert Boundary(cs, size * 1);
      var j :| 0 <= j <= |cs| && |EncodeAll(cs[..j])| == size;
      EncodedUpTo(cs, i);
      if j <= i {
        EncodedPrefix(cs, j, i);
      } else {
        EncodedPrefix(cs, i + 1, j);
      }
    }
  }

  lemma {:induction false} EncodedUpTo(cs: seq<Value>, i: nat)
    requires i < |cs|
    ensures |EncodeAll(cs[..i + 1])| == |EncodeAll(cs[..i])| + |Encode(cs[i])|
  {
    assert cs[..i + 1] == cs[..i] + [cs[i]];
    EncodeSnoc(cs[..i], cs[i]);
  }

  /** Canonical messages whose encoding fits one fill are returned unchanged. */
  lemma {:induction false} OneFillReadsBack(cs: seq<Value>)
    requires AllCanonical(cs) && |EncodeAll(cs)| <= CONTROL_READ_BUFFER_SIZE
    ensures Messages([], EncodeAll(cs)) == cs
  {
    var s := EncodeAll(cs);
    PopsWhole(cs, [], []);
    assert s + [] == s && s[..|s|] == s && s[|s|..] == [];
    assert cs + Messages([], []) == cs;
  }

  /** A fill that ends on a boundary is popped whole, and the next fill follows. */
  lemma {:induction false} FullFill(cs: seq<Value>, i: nat)
    requires AllCanonical(cs) && i <= |cs| && |EncodeAll(cs[..i])| == CONTROL_READ_BUFFER_SIZE
    ensures Messages([], EncodeAll(cs)) == cs[..i] + Messages([], EncodeAll(cs[i..]))
  {
    var a, b, s := cs[..i], cs[i..], EncodeAll(cs);
    assert cs == a + b && forall c | c in a :: c in cs;
    EncodeSplit(a, b);
    assert s[..CONTROL_READ_BUFFER_SIZE] == EncodeAll(a) + [] && s[CONTROL_READ_BUFFER_SIZE..] == EncodeAll(b);
    PopsWhole(a, [], EncodeAll(b));
  }

  /** What is read back is always a prefix of what was recorded, and it is everything exactly when no
      message straddles a multiple of the fill size. */
  lemma {:induction false} ReadsBackExactly(cs: seq<Value>)
    requires AllCanonical(cs)
    ensures Messages([], EncodeAll(cs)) <= cs
    ensures Messages([], EncodeAll(cs)) == cs <==> FillsAligned(cs)
    decreases |cs|
  {
    var size := CONTROL_READ_BUFFER_SIZE;
    var i := FirstFill(cs, size);
    if i == |cs| {
      assert cs[..i] == cs;
      OneFillIsAligned(cs);
      OneFillReadsBack(cs);
    } else if |EncodeAll(cs[..i])| < size {
      StopsInsideMessage(cs, i);
    } else {
      assert cs == cs[..i] + cs[i..] && forall c | c in cs[i..] :: c in cs;
      FullFill(cs, i);
      ReadsBackExactly(cs[i..]);
      AlignedRest(cs, i);
      SamePrefix(cs[..i], Messages([], EncodeAll(cs[i..])), cs[i..]);
    }
  }

  lemma {:induction false} SamePrefix(a: seq<Value>, b: seq<Value>, c: seq<Value>)
    requires b <= c
    ensures a + b <= a + c
    ensures a + b == a + c <==> b == c
  {
    assert (a + b)[|a|..] == b && (a + c)[|a|..] == c;
  }

  /** From any prefix of an encoded stream, however it is cut, only a prefix of the messages is read. */
  lemma {:induction false} PrefixReadsPrefix(cs: seq<Value>, fill: seq<byte>, rest: seq<byte>)
    requires AllCanonical(cs) && fill + rest <= EncodeAll(cs)
    ensures Messages(fill, rest) <= cs
    decreases |fill| + |rest|, |rest|
  {
    if fill == [] {
      if rest != [] {
        var n := if |rest| < CONTROL_READ_BUFFER_SIZE then |rest| else CONTROL_READ_BUFFER_SIZE;
        assert rest[..n] + rest[n..] == fill + rest;
        PrefixReadsPrefix(cs, rest[..n], rest[n..]);
      }
    } else if Whole(fill) {
      PrefixHead(cs, fill, rest);
      assert forall c | c in cs[1..] :: c in cs;
      PrefixReadsPrefix(cs[1..], fill[LengthOf(fill[0])..], rest);
      MessagesWhole(fill, rest);
      ConsPrefix(Messages(fill[LengthOf(fill[0])..], rest), cs);
    }
  }

  lemma {:induction false} ConsPrefix(more: seq<Value>, cs: seq<Value>)
    requires cs != [] && more <= cs[1..]
    ensures [cs[0]] + more <= cs
  {
    assert more == cs[1..][..|more|];
    assert [cs[0]] + more == cs[..|more| + 1];
  }

  lemma {:induction false} PrefixHead(cs: seq<Value>, fill: seq<byte>, rest: seq<byte>)
    requires AllCanonical(cs) && fill + rest <= EncodeAll(cs) && Whole(fill)
    ensures cs != [] && Decode(Zero, fill) == cs[0]
    ensures fill[LengthOf(fill[0])..] + rest <= EncodeAll(cs[1..])
  {
    var head, more := Encode(cs[0]), EncodeAll(cs[1..]);
    assert cs[0] in cs && head[0] == cs[0].kind;
    assert fill[0] == (fill + rest)[0] == EncodeAll(cs)[0] == head[0];
    SplitPrefix(fill, rest, head, more);
    RoundTripExactly(cs[0], fill[|head|..]);
  }

  lemma {:induction false} SplitPrefix(fill: seq<byte>, rest: seq<byte>, head: seq<byte>, more: seq<byte>)
    requires fill + rest <= head + more && |head| <= |fill|
    ensures fill == head + fill[|head|..]
    ensures fill[|head|..] + rest <= more
  {
    var all := fill + rest;
    assert all[..|head|] == head && fill[..|head|] == all[..|head|];
    assert fill[|head|..] + rest == all[|head|..];
    assert more[..|all| - |head|] == (head + more)[|head|..|all|];
  }

  /** A stream of delay messages alone is read back in full only up to 585 of them, because no
      boundary of 7-byte messages is a multiple of 4096 below 28672. */
  lemma {:induction false} DelaysReadBack(cs: seq<Value>)
    requires AllCanonical(cs) && forall c | c in cs :: c.kind == DELAY_MESSAGE
    ensures Messages([], EncodeAll(cs)) == cs <==> |cs| <= 585
  {
    ReadsBackExactly(cs);
    DelayLengths(cs, |cs|);
    assert cs[..|cs|] == cs;
    if |cs| <= 585 {
      OneFillIsAligned(cs);
    } else {
      DelaysNotAligned(cs);
    }
  }

  lemma {:induction false} DelaysNotAligned(cs: seq<Value>)
    requires forall c | c in cs :: c.kind == DELAY_MESSAGE
    requires |EncodeAll(cs)| >= CONTROL_READ_BUFFER_SIZE
    ensures !FillsAligned(cs)
  {
    if FillsAligned(cs) {
      assert Boundary(cs, CONTROL_READ_BUFFER_SIZE * 1);
      var j :| 0 <= j <= |cs| && |EncodeAll(cs[..j])| == CONTROL_READ_BUFFER_SIZE;
      DelayLengths(cs, j);
    }
  }

  lemma {:induction false} DelayLengths(cs: seq<Value>, i: nat)
    requires i <= |cs| && forall c | c in cs :: c.kind == DELAY_MESSAGE
    ensures |EncodeAll(cs[..i])| == 7 * i
    decreases i
  {
    if i > 0 {
      DelayLengths(cs, i - 1);
      EncodedUpTo(cs, i - 1);
      assert cs[i - 1] in cs;
    }
  }
}
