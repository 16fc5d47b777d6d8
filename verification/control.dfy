/** The binary form of control messages: app/control.go. */
module Control {
  import opened Bytes

  const RESIZE_MESSAGE: byte := 1
  const DELAY_MESSAGE: byte := 2
  const RESIZE_LENGTH := 9
  const DELAY_LENGTH := 7
  const TWO_TO_THE_32 := 0x1_0000_0000

  /** The fields of `Control`. */
  datatype Value = Value(kind: byte, offset: int, delayMs: uint16, width: uint16, height: uint16)

  datatype Error = ShortBuffer | UnknownMessage

  function Le16(v: uint16): (b: seq<byte>)
    ensures |b| == 2
  {
    [v % 0x100, v / 0x100]
  }

  /** PutUint32 of the offset, which Go truncates to 32 bits first. */
  function Le32(v: int): (b: seq<byte>)
    ensures |b| == 4
  {
    var u := v % TWO_TO_THE_32;
    [u % 0x100, u / 0x100 % 0x100, u / 0x1_0000 % 0x100, u / 0x100_0000]
  }

  function Un16(b: seq<byte>): (v: uint16)
    requires |b| >= 2
  {
    b[0] as int + 0x100 * b[1] as int
  }

  function Un32(b: seq<byte>): (v: nat)
    requires |b| >= 4
  {
    b[0] as int + 0x100 * b[1] as int + 0x1_0000 * b[2] as int + 0x100_0000 * b[3] as int
  }

  /** How many bytes a message of this type takes; 0 for an unknown type. */
  function LengthOf(kind: byte): nat {
    if kind == DELAY_MESSAGE then DELAY_LENGTH
    else if kind == RESIZE_MESSAGE then RESIZE_LENGTH
    else 0
  }

  function Encode(c: Value): (b: seq<byte>)
    ensures |b| == LengthOf(c.kind)
  {
    if c.kind == RESIZE_MESSAGE then [c.kind] + Le32(c.offset) + Le16(c.width) + Le16(c.height)
    else if c.kind == DELAY_MESSAGE then [c.kind] + Le32(c.offset) + Le16(c.delayMs)
    else []
  }

  /** The fields `UnmarshalBinary` leaves in a receiver that held `c`: it sets only those its
      message type carries, and it sets none when it fails. */
  function Decode(c: Value, b: seq<byte>): Value
    requires b != []
  {
    if b[0] == DELAY_MESSAGE && |b| >= DELAY_LENGTH then
      c.(kind := DELAY_MESSAGE, offset := Un32(b[1..]), delayMs := Un16(b[5..]))
    else if b[0] == RESIZE_MESSAGE && |b| >= RESIZE_LENGTH then
      c.(kind := RESIZE_MESSAGE, offset := Un32(b[1..]), width := Un16(b[5..]), height := Un16(b[7..]))
    else c
  }

  function DecodeError(b: seq<byte>): Option<Error>
    requires b != []
  {
    if LengthOf(b[0]) == 0 then Some(UnknownMessage)
    else if |b| < LengthOf(b[0]) then Some(ShortBuffer)
    else None
  }

  const Zero := Value(0, 0, 0, 0, 0)

  /** A control message of the recorder: a known type, an offset that fits, no foreign fields. */
  predicate Canonical(c: Value) {
    && (c.kind == DELAY_MESSAGE ==> c.width == c.height == 0)
    && (c.kind == RESIZE_MESSAGE ==> c.delayMs == 0)
    && (c.kind == DELAY_MESSAGE || c.kind == RESIZE_MESSAGE)
    && 0 <= c.offset < TWO_TO_THE_32
  }

  lemma {:induction false} RoundTrip16(v: uint16, rest: seq<byte>)
    ensures Un16(Le16(v) + rest) == v
  {
  }

  lemma {:induction false} RoundTrip32(v: int, rest: seq<byte>)
    ensures Un32(Le32(v) + rest) == v % TWO_TO_THE_32
  {
    var u := v % TWO_TO_THE_32;
    assert u / 0x100 == u / 0x1_0000 * 0x100 + u / 0x100 % 0x100;
    assert u / 0x1_0000 == u / 0x100_0000 * 0x100 + u / 0x1_0000 % 0x100;
  }

  /** The bytes of a message: its type, its offset modulo 2^32 and its numbers, least byte first. */
  lemma {:induction false} EncodedBytes(c: Value)
    ensures var b := Encode(c);
            && (c.kind == 1 ==>
                  && |b| == 9 && b[0] == 1
                  && b[1] as int + 0x100 * b[2] as int + 0x1_0000 * b[3] as int + 0x100_0000 * b[4] as int
                     == c.offset % 0x1_0000_0000
                  && b[5] as int + 0x100 * b[6] as int == c.width && b[7] as int + 0x100 * b[8] as int == c.height)
            && (c.kind == 2 ==>
                  && |b| == 7 && b[0] == 2
                  && b[1] as int + 0x100 * b[2] as int + 0x1_0000 * b[3] as int + 0x100_0000 * b[4] as int
                     == c.offset % 0x1_0000_0000
                  && b[5] as int + 0x100 * b[6] as int == c.delayMs)
            && (c.kind != 1 && c.kind != 2 ==> b == [])
  {
    var b := Encode(c);
    if b != [] {
      RoundTrip32(c.offset, b[5..]);
      assert b[1..5] == Le32(c.offset);
      assert b[1..] == Le32(c.offset) + b[5..];
    }
  }

  /** What a message reads back as, whatever follows it: itself if canonical, otherwise with its
      offset truncated and its foreign fields lost. */
  lemma {:induction false} RoundTrip(c: Value, rest: seq<byte>)
    requires LengthOf(c.kind) > 0
    ensures var b := Encode(c) + rest;
            && b[0] == c.kind
            && DecodeError(b) == None
            && Decode(Zero, b) ==
               if c.kind == DELAY_MESSAGE then Value(c.kind, c.offset % TWO_TO_THE_32, c.delayMs, 0, 0)
               else Value(c.kind, c.offset % TWO_TO_THE_32, 0, c.width, c.height)
  {
    var b := Encode(c) + rest;
    RoundTrip32(c.offset, b[5..]);
    assert b[1..] == Le32(c.offset) + b[5..];
    if c.kind == DELAY_MESSAGE {
      RoundTrip16(c.delayMs, rest);
      assert b[5..] == Le16(c.delayMs) + rest;
    } else {
      RoundTrip16(c.width, Le16(c.height) + rest);
      RoundTrip16(c.height, rest);
      assert b[5..] == Le16(c.width) + (Le16(c.height) + rest);
      assert b[7..] == Le16(c.height) + rest;
    }
  }

  /** A message survives the round trip exactly when it is canonical. */
  lemma {:induction false} RoundTripExactly(c: Value, rest: seq<byte>)
    requires LengthOf(c.kind) > 0
    ensures DecodeError(Encode(c) + rest) == None
    ensures Decode(Zero, Encode(c) + rest) == c <==> Canonical(c)
  {
    RoundTrip(c, rest);
  }

  /** The other direction: bytes that decode are the encoding of what they decode to. */
  lemma {:induction false} DecodeInverts(b: seq<byte>)
    requires b != [] && DecodeError(b) == None
    ensures var c := Decode(Zero, b);
            && Canonical(c)
            && Encode(c) == b[..LengthOf(b[0])]
  {
    var c := Decode(Zero, b);
    var o := b[1..5];
    assert Un32(b[1..]) == Un32(o);
    Un32Inverts(o);
    assert b[..LengthOf(b[0])] == [b[0]] + o + b[5..LengthOf(b[0])];
    Un16Inverts(b[5..7]);
    if b[0] == RESIZE_MESSAGE {
      Un16Inverts(b[7..9]);
    }
  }

  lemma {:induction false} Un32Inverts(b: seq<byte>)
    requires |b| == 4
    ensures Un32(b) < TWO_TO_THE_32 && Le32(Un32(b)) == b
  {
    var u, two := Un32(b), b[2] as int + 0x100 * b[3] as int;
    var three := b[1] as int + 0x100 * two;
    assert u == b[0] as int + 0x100 * three && three < 0x100_0000;
    Digit(b[0], three);
    Digit(b[1], two);
    Digit(b[2], b[3]);
    assert u / 0x100 == three && three / 0x100 == two && two / 0x100 == b[3];
    ByDigits(u);
    LeDigits(u, b[0], b[1], b[2], b[3]);
  }

  lemma {:induction false} LeDigits(u: nat, b0: byte, b1: byte, b2: byte, b3: byte)
    requires u < TWO_TO_THE_32
    requires b0 == u % 0x100 && b1 == u / 0x100 % 0x100 && b2 == u / 0x1_0000 % 0x100 && b3 == u / 0x100_0000
    ensures Le32(u) == [b0, b1, b2, b3]
  {
  }

  lemma {:induction false} Digit(low: byte, high: nat)
    ensures (low as int + 0x100 * high) % 0x100 == low && (low as int + 0x100 * high) / 0x100 == high
  {
  }

  lemma {:induction false} ByDigits(u: nat)
    ensures u / 0x1_0000 == u / 0x100 / 0x100 && u / 0x100_0000 == u / 0x100 / 0x100 / 0x100
  {
  }

  lemma {:induction false} Un16Inverts(b: seq<byte>)
    requires |b| == 2
    ensures Le16(Un16(b)) == b
  {
  }

  /** A control message held by reference, as the source does with a `*Control`. */
  class Control {
    var kind: byte
    var offset: int
    var delayMs: uint16
    var width: uint16
    var height: uint16

    function View(): Value
      reads this
    {
      Value(kind, offset, delayMs, width, height)
    }

    constructor ()
      ensures View() == Zero
    {
      kind, offset, delayMs, width, height := 0, 0, 0, 0, 0;
    }

    method MarshalBinary() returns (b: array<byte>)
      ensures fresh(b) && b[..] == Encode(View())
    {
      if kind == RESIZE_MESSAGE {
        b := new byte[1 + 4 + 2 + 2];
        var at := 0;
        b[at] := kind;
        at := at + 1;
        assert b[..at] == [kind];
        PutUint32(b, at, offset);
        at := at + 4;
        PutUint16(b, at, width);
        at := at + 2;
        PutUint16(b, at, height);
        assert b[..9] == b[..];
      } else if kind == DELAY_MESSAGE {
        b := new byte[1 + 4 + 2];
        var at := 0;
        b[at] := kind;
        at := at + 1;
        assert b[..at] == [kind];
        PutUint32(b, at, offset);
        at := at + 4;
        PutUint16(b, at, delayMs);
        assert b[..7] == b[..];
      } else {
        b := new byte[0];
      }
    }

    /** The source indexes the first byte before it looks at the length. */
    method UnmarshalBinary(buffer: seq<byte>) returns (err: Option<Error>)
      requires buffer != []
      modifies this
      ensures err == DecodeError(buffer)
      ensures View() == Decode(old(View()), buffer)
      ensures err == Some(UnknownMessage) <==> buffer[0] != 1 && buffer[0] != 2
      ensures err == Some(ShortBuffer) <==> (buffer[0] == 1 && |buffer| < 9) || (buffer[0] == 2 && |buffer| < 7)
      ensures err.Some? ==> View() == old(View())
      ensures err == None && buffer[0] == 1 ==> delayMs == old(delayMs)
      ensures err == None && buffer[0] == 2 ==> width == old(width) && height == old(height)
    {
      var at := 0;
      if buffer[0] == DELAY_MESSAGE {
        if |buffer| < 7 {
          return Some(ShortBuffer);
        }
        at := at + 1;
        var recordingOffset := Un32(buffer[at..]);
        at := at + 4;
        var delayMilliSeconds := Un16(buffer[at..]);
        kind := DELAY_MESSAGE;
        offset := recordingOffset;
        delayMs := delayMilliSeconds;
        return None;
      } else if buffer[0] == RESIZE_MESSAGE {
        if |buffer| < 9 {
          return Some(ShortBuffer);
        }
        at := at + 1;
        var recordingOffset := Un32(buffer[at..]);
        at := at + 4;
        var w := Un16(buffer[at..]);
        at := at + 2;
        var h := Un16(buffer[at..]);
        kind := RESIZE_MESSAGE;
        offset := recordingOffset;
        width := w;
        height := h;
        return None;
      }
      return Some(UnknownMessage);
    }
  }

  method PutUint16(b: array<byte>, at: nat, v: uint16)
    requires at + 2 <= b.Length
    modifies b
    ensures b[..at + 2] == old(b[..at]) + Le16(v)
  {
    b[at], b[at + 1] := v % 0x100, v / 0x100;
  }

  method PutUint32(b: array<byte>, at: nat, v: int)
    requires at + 4 <= b.Length
    modifies b
    ensures b[..at + 4] == old(b[..at]) + Le32(v)
  {
    var le := Le32(v);
    b[at], b[at + 1], b[at + 2], b[at + 3] := le[0], le[1], le[2], le[3];
  }
}
