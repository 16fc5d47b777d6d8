/** The gzip streams of the stored records, abstractly: compressing and decompressing are inverse,
    and a reader hands out the plain bytes in portions of its own choosing. */
module Gzip {
  import opened Bytes

  datatype Compressed = Compressed(plain: seq<byte>)

  function Plain(records: seq<Compressed>): seq<byte>
  {
    if records == [] then [] else records[0].plain + Plain(records[1..])
  }

  lemma {:induction false} PlainSplit(a: seq<Compressed>, b: seq<Compressed>)
    ensures Plain(a + b) == Plain(a) + Plain(b)
    decreases |a|
  {
    if a == [] {
      assert a + b == b;
    } else {
      assert (a + b)[1..] == a[1..] + b;
      PlainSplit(a[1..], b);
    }
  }

  /** One read of the decompressor of a record, of which `rest` is still to come. A greedy one fills
      the slice it is given, of `room` bytes, or drains the record; any other returns at least one
      byte while there is one. The end of the record is reported by a read of its own. */
  method Read(rest: seq<byte>, room: nat, greedy: bool) returns (data: seq<byte>, eof: bool, left: seq<byte>)
    requires room > 0
    ensures data + left == rest && |data| <= room
    ensures eof == (rest == []) == (data == [])
    ensures greedy ==> left == [] || |data| == room
  {
    if rest == [] {
      return [], true, [];
    }
    var most := if |rest| < room then |rest| else room;
    var n :| 1 <= n <= most && (greedy ==> n == most);
    data, eof, left := rest[..n], false, rest[n..];
  }
}
