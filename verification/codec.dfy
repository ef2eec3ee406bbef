/** The length-prefixed binary codec of the storage engine
    (`write_string`/`read_string`, `write_vector_string`/`read_vector_string`)
    and the raw scalar writes the record serializers use.

    Scalars are written in the machine's native layout, modelled here as
    little-endian: `size_t` and `time_t` take 8 bytes, `int` and the enums 4,
    `bool` 1, and `float` is an opaque block of 4 bytes. Reading a truncated
    input leaves the C++ variables unspecified, so every reader is partial and
    returns `None` when the input runs out. */
module Codec {
  import opened Wrappers
  import opened ByteStrings

  const TWO32: int := 0x1_0000_0000
  const TWO64: int := 0x1_0000_0000_0000_0000

  /** `read_string` keeps a length only when `0 < len < 1000000`. */
  const MAX_STRING_LEN: nat := 1000000
  /** `read_vector_string` keeps a count only when `count < 10000`. */
  const MAX_LIST_COUNT: nat := 10000

  newtype int32 = x: int | -0x8000_0000 <= x < 0x8000_0000
  newtype int64 = x: int | -0x8000_0000_0000_0000 <= x < 0x8000_0000_0000_0000

  /** An IEEE-754 single, kept as its 4 raw bytes. */
  type Float32 = b: Bytes | |b| == 4 witness [0, 0, 0, 0]

  /** A decoder consumes a prefix of its input and returns the value and the rest. */
  type Decoded<T> = Option<(T, Bytes)>

  function Pow256(width: nat): (r: nat)
    ensures r >= 1
  {
    if width == 0 then 1 else 256 * Pow256(width - 1)
  }

  /** The low `width` bytes of `n`, least significant first. */
  function LittleEndian(n: nat, width: nat): (r: Bytes)
    ensures |r| == width
  {
    if width == 0 then [] else [(n % 256) as byte] + LittleEndian(n / 256, width - 1)
  }

  function FromLittleEndian(b: Bytes): (r: nat)
    ensures r < Pow256(|b|)
  {
    if |b| == 0 then 0 else b[0] as int + 256 * FromLittleEndian(b[1..])
  }

  lemma {:induction false} LittleEndianRoundTrip(n: nat, width: nat)
    requires n < Pow256(width)
    ensures FromLittleEndian(LittleEndian(n, width)) == n
  {
    if width > 0 {
      var r := LittleEndian(n, width);
      assert r[1..] == LittleEndian(n / 256, width - 1);
      LittleEndianRoundTrip(n / 256, width - 1);
    }
  }

  // ---------------------------------------------------------------- scalars

  /** `os.write(&count, sizeof(size_t))`: the value modulo 2^64. */
  function WriteU64(n: nat): (r: Bytes)
    ensures |r| == 8
  {
    LittleEndian(n % TWO64, 8)
  }

  function ReadU64(bs: Bytes): (r: Decoded<nat>)
    ensures r.Some? <==> |bs| >= 8
    ensures r.Some? ==> r.value.0 < TWO64 && r.value.1 == bs[8..]
  {
    if |bs| < 8 then None else Some((FromLittleEndian(bs[..8]), bs[8..]))
  }

  lemma U64RoundTrip(n: nat, rest: Bytes)
    requires n < TWO64
    ensures ReadU64(WriteU64(n) + rest) == Some((n, rest))
  {
    var w := WriteU64(n) + rest;
    assert w[..8] == WriteU64(n);
    assert w[8..] == rest;
    LittleEndianRoundTrip(n, 8);
  }

  /** Two's complement of a 32-bit `int`. */
  function WriteI32(x: int32): (r: Bytes)
    ensures |r| == 4
  {
    LittleEndian(if x < 0 then x as int + TWO32 else x as int, 4)
  }

  function ReadI32(bs: Bytes): (r: Decoded<int32>)
    ensures r.Some? <==> |bs| >= 4
    ensures r.Some? ==> r.value.1 == bs[4..]
  {
    if |bs| < 4 then None
    else
      var u := FromLittleEndian(bs[..4]);
      Some(((if u >= 0x8000_0000 then u - TWO32 else u) as int32, bs[4..]))
  }

  lemma I32RoundTrip(x: int32, rest: Bytes)
    ensures ReadI32(WriteI32(x) + rest) == Some((x, rest))
  {
    var w := WriteI32(x) + rest;
    assert w[..4] == WriteI32(x);
    assert w[4..] == rest;
    LittleEndianRoundTrip(if x < 0 then x as int + TWO32 else x as int, 4);
  }

  /** Two's complement of a 64-bit `time_t`. */
  function WriteI64(x: int64): (r: Bytes)
    ensures |r| == 8
  {
    LittleEndian(if x < 0 then x as int + TWO64 else x as int, 8)
  }

  function ReadI64(bs: Bytes): (r: Decoded<int64>)
    ensures r.Some? <==> |bs| >= 8
    ensures r.Some? ==> r.value.1 == bs[8..]
  {
    if |bs| < 8 then None
    else
      var u := FromLittleEndian(bs[..8]);
      Some(((if u >= 0x8000_0000_0000_0000 then u - TWO64 else u) as int64, bs[8..]))
  }

  lemma I64RoundTrip(x: int64, rest: Bytes)
    ensures ReadI64(WriteI64(x) + rest) == Some((x, rest))
  {
    var w := WriteI64(x) + rest;
    assert w[..8] == WriteI64(x);
    assert w[8..] == rest;
    LittleEndianRoundTrip(if x < 0 then x as int + TWO64 else x as int, 8);
  }

  function WriteBool(b: bool): (r: Bytes)
    ensures |r| == 1
  {
    if b then [1] else [0]
  }

  /** A `bool` read from any byte other than 0 or 1 has no defined value. */
  function ReadBool(bs: Bytes): (r: Decoded<bool>)
    ensures r.Some? <==> |bs| >= 1 && bs[0] <= 1
    ensures r.Some? ==> r.value == (bs[0] == 1, bs[1..])
  {
    if |bs| < 1 || bs[0] > 1 then None else Some((bs[0] == 1, bs[1..]))
  }

  lemma BoolRoundTrip(b: bool, rest: Bytes)
    ensures ReadBool(WriteBool(b) + rest) == Some((b, rest))
  {
    assert (WriteBool(b) + rest)[1..] == rest;
  }

  function WriteFloat(f: Float32): (r: Bytes)
    ensures |r| == 4
  {
    f
  }

  function ReadFloat(bs: Bytes): (r: Decoded<Float32>)
    ensures r.Some? <==> |bs| >= 4
    ensures r.Some? ==> WriteFloat(r.value.0) + r.value.1 == bs
  {
    if |bs| < 4 then None else Some((bs[..4], bs[4..]))
  }

  lemma FloatRoundTrip(f: Float32, rest: Bytes)
    ensures ReadFloat(WriteFloat(f) + rest) == Some((f, rest))
  {
    var w := WriteFloat(f) + rest;
    assert w[..4] == f && w[4..] == rest;
  }

  // ---------------------------------------------------------------- strings

  /** A string the reader accepts back. */
  predicate ShortString(s: Bytes)
  {
    |s| < MAX_STRING_LEN
  }

  /** A list the reader accepts back, with every element short. */
  predicate ShortList(ss: seq<Bytes>)
  {
    |ss| < MAX_LIST_COUNT && forall i :: 0 <= i < |ss| ==> ShortString(ss[i])
  }

  /** `write_string`: the 8-byte length, then the bytes. */
  function WriteString(s: Bytes): (r: Bytes)
    ensures |r| == 8 + |s|
    ensures r[..8] == WriteU64(|s|) && r[8..] == s
  {
    WriteU64(|s|) + s
  }

  /** `read_string`: a length outside `1 .. 999999` yields the empty string and
      consumes only the 8-byte header. */
  function ReadString(bs: Bytes): (r: Decoded<Bytes>)
    ensures |bs| < 8 ==> r.None?
  {
    var h :- ReadU64(bs);
    var len := h.0;
    if 0 < len < MAX_STRING_LEN then
      if |h.1| < len then None else Some((h.1[..len], h.1[len..]))
    else
      Some(([], h.1))
  }

  lemma StringRoundTrip(s: Bytes, rest: Bytes)
    requires ShortString(s)
    ensures ReadString(WriteString(s) + rest) == Some((s, rest))
  {
    U64RoundTrip(|s|, s + rest);
    assert WriteString(s) + rest == WriteU64(|s|) + (s + rest);
    assert (s + rest)[..|s|] == s && (s + rest)[|s|..] == rest;
  }

  /** An over-long string reads back as empty, and the reader stops right after
      the header: its bytes are left in the stream. */
  lemma LongStringReadsEmpty(s: Bytes, rest: Bytes)
    requires MAX_STRING_LEN <= |s| < TWO64
    ensures ReadString(WriteString(s) + rest) == Some(([], s + rest))
  {
    U64RoundTrip(|s|, s + rest);
    assert WriteString(s) + rest == WriteU64(|s|) + (s + rest);
  }

  function WriteStrings(ss: seq<Bytes>): (r: Bytes)
    ensures |ss| == 0 ==> r == []
  {
    if |ss| == 0 then [] else WriteString(ss[0]) + WriteStrings(ss[1..])
  }

  /** `write_vector_string`: the 8-byte count, then each string. */
  function WriteStringList(ss: seq<Bytes>): (r: Bytes)
    ensures |r| >= 8 && r[8..] == WriteStrings(ss)
  {
    WriteU64(|ss|) + WriteStrings(ss)
  }

  /** `count` consecutive strings. */
  function ReadStrings(bs: Bytes, count: nat): (r: Decoded<seq<Bytes>>)
    ensures r.Some? ==> |r.value.0| == count
  {
    if count == 0 then Some(([], bs))
    else
      var first :- ReadString(bs);
      var others :- ReadStrings(first.1, count - 1);
      Some(([first.0] + others.0, others.1))
  }

  /** `read_vector_string`: a count of 10000 or more yields the empty list and
      consumes only the 8-byte header. */
  function ReadStringList(bs: Bytes): (r: Decoded<seq<Bytes>>)
    ensures |bs| < 8 ==> r.None?
  {
    var h :- ReadU64(bs);
    if h.0 < MAX_LIST_COUNT then ReadStrings(h.1, h.0) else Some(([], h.1))
  }

  lemma {:induction false} StringsRoundTrip(ss: seq<Bytes>, rest: Bytes)
    requires forall i :: 0 <= i < |ss| ==> ShortString(ss[i])
    ensures ReadStrings(WriteStrings(ss) + rest, |ss|) == Some((ss, rest))
  {
    if |ss| > 0 {
      var tail := WriteStrings(ss[1..]) + rest;
      assert WriteStrings(ss) + rest == WriteString(ss[0]) + tail;
      StringRoundTrip(ss[0], tail);
      assert ReadString(WriteStrings(ss) + rest) == Some((ss[0], tail));
      StringsRoundTrip(ss[1..], rest);
      assert ReadStrings(tail, |ss| - 1) == Some((ss[1..], rest));
      assert ReadStrings(WriteStrings(ss) + rest, |ss|) == Some(([ss[0]] + ss[1..], rest));
      assert [ss[0]] + ss[1..] == ss;
    } else {
      assert WriteStrings(ss) + rest == rest;
    }
  }

  lemma StringListRoundTrip(ss: seq<Bytes>, rest: Bytes)
    requires ShortList(ss)
    ensures ReadStringList(WriteStringList(ss) + rest) == Some((ss, rest))
  {
    U64RoundTrip(|ss|, WriteStrings(ss) + rest);
    assert WriteStringList(ss) + rest == WriteU64(|ss|) + (WriteStrings(ss) + rest);
    StringsRoundTrip(ss, rest);
  }

  /** An over-long list reads back as empty, leaving its strings in the stream. */
  lemma LongStringListReadsEmpty(ss: seq<Bytes>, rest: Bytes)
    requires MAX_LIST_COUNT <= |ss| < TWO64
    ensures ReadStringList(WriteStringList(ss) + rest) == Some(([], WriteStrings(ss) + rest))
  {
    var tail := WriteStrings(ss) + rest;
    U64RoundTrip(|ss|, tail);
    assert WriteStringList(ss) + rest == WriteU64(|ss|) + tail;
    assert ReadU64(WriteStringList(ss) + rest) == Some((|ss|, tail));
  }
}
