/**
  A model of the object serializer the dumper relies on (dill in the
  original). Only its contract matters to the dumper: every value has an
  encoding, encodings are self-delimiting, so a concatenation of them reads
  back value by value, and reading an empty stream is told apart from reading
  malformed bytes. The concrete format below (a tag byte, a LEB128 length or
  zig-zag integer, then the payload) is the model's own; it is not dill's.
*/
module Codec {
  import opened Base

  /** The values a caller can dump: integers, byte strings and lists. */
  datatype Value = Int(i: int) | Bytes(data: seq<byte>) | List(items: seq<Value>)

  const IntTag: byte := 0x49
  const BytesTag: byte := 0x42
  const ListTag: byte := 0x4c

  /** Outcome of reading one value from the front of a stream. */
  datatype Decoded =
    | Decoded(value: Value, rest: seq<byte>)
    | EndOfInput   // the stream was empty: the caller sees EOFError
    | Malformed    // bytes that are no complete encoding: UnpicklingError

  function ZigZag(i: int): nat
  {
    if i >= 0 then 2 * i else -2 * i - 1
  }

  function UnZigZag(n: nat): int
  {
    if n % 2 == 0 then n / 2 else -(n + 1) / 2
  }

  lemma UnZigZagZigZag(i: int)
    ensures UnZigZag(ZigZag(i)) == i
  {
  }

  /** Little-endian base-128 encoding; the high bit marks "more bytes follow". */
  function Varint(n: nat): (r: seq<byte>)
    ensures r != []
    decreases n
  {
    if n < 128 then [n] else [128 + n % 128] + Varint(n / 128)
  }

  function ReadVarint(s: seq<byte>): (r: Option<(nat, seq<byte>)>)
    ensures r.Some? ==> |r.value.1| < |s|
  {
    if s == [] then None
    else if s[0] < 128 then Some((s[0], s[1..]))
    else match ReadVarint(s[1..])
      case None => None
      case Some((m, rest)) => Some((s[0] - 128 + 128 * m, rest))
  }

  function Encode(v: Value): (r: seq<byte>)
    ensures r != []
    decreases v
  {
    match v
    case Int(i) => [IntTag] + Varint(ZigZag(i))
    case Bytes(d) => [BytesTag] + Varint(|d|) + d
    case List(items) => [ListTag] + Varint(|items|) + EncodeAll(items)
  }

  /** The concatenated encodings of `vs`, first value first. */
  function EncodeAll(vs: seq<Value>): seq<byte>
    decreases vs
  {
    if vs == [] then [] else Encode(vs[0]) + EncodeAll(vs[1..])
  }

  /** Reads one value from the front of `s` (dill.load). */
  function DecodeOne(s: seq<byte>): (r: Decoded)
    ensures r.Decoded? ==> |r.rest| < |s|
    ensures r.EndOfInput? <==> s == []
    decreases |s|, 2, 0
  {
    if s == [] then EndOfInput
    else if s[0] == IntTag then DecodeInt(s[1..])
    else if s[0] == BytesTag then DecodeBytes(s[1..])
    else if s[0] == ListTag then DecodeList(s[1..])
    else Malformed
  }

  /** The body of an integer: its zig-zag varint. */
  function DecodeInt(body: seq<byte>): (r: Decoded)
    ensures r.Decoded? ==> |r.rest| < |body|
    ensures !r.EndOfInput?
  {
    match ReadVarint(body)
    case None => Malformed
    case Some((n, rest)) => Decoded(Int(UnZigZag(n)), rest)
  }

  /** The body of a byte string: its length, then that many bytes. */
  function DecodeBytes(body: seq<byte>): (r: Decoded)
    ensures r.Decoded? ==> |r.rest| < |body|
    ensures !r.EndOfInput?
  {
    match ReadVarint(body)
    case None => Malformed
    case Some((n, rest)) =>
      if n <= |rest| then Decoded(Bytes(rest[..n]), rest[n..]) else Malformed
  }

  /** The body of a list: its length, then that many values. */
  function DecodeList(body: seq<byte>): (r: Decoded)
    ensures r.Decoded? ==> |r.rest| < |body|
    ensures !r.EndOfInput?
    decreases |body|, 1, 0
  {
    match ReadVarint(body)
    case None => Malformed
    case Some((n, rest)) =>
      match DecodeItems(rest, n)
      case None => Malformed
      case Some((items, rest')) => Decoded(List(items), rest')
  }

  /** Reads exactly `n` values from the front of `s`; running out is an error. */
  function DecodeItems(s: seq<byte>, n: nat): (r: Option<(seq<Value>, seq<byte>)>)
    ensures r.Some? ==> |r.value.0| == n && |r.value.1| <= |s|
    decreases |s|, 3, n
  {
    if n == 0 then Some(([], s))
    else match DecodeOne(s)
      case Decoded(v, rest) =>
        (match DecodeItems(rest, n - 1)
         case None => None
         case Some((vs, rest')) => Some(([v] + vs, rest')))
      case _ => None
  }

  lemma {:induction false} EncodeAllConcat(a: seq<Value>, b: seq<Value>)
    ensures EncodeAll(a + b) == EncodeAll(a) + EncodeAll(b)
    decreases a
  {
    if a == [] {
      assert a + b == b;
    } else {
      assert (a + b)[0] == a[0];
      assert (a + b)[1..] == a[1..] + b;
      EncodeAllConcat(a[1..], b);
    }
  }

  /** Encoding one more value appends its encoding. */
  lemma EncodeAllSnoc(vs: seq<Value>, v: Value)
    ensures EncodeAll(vs + [v]) == EncodeAll(vs) + Encode(v)
  {
    EncodeAllConcat(vs, [v]);
    assert EncodeAll([v]) == Encode(v) + EncodeAll([]);
  }

  lemma {:induction false} ReadVarintOfVarint(n: nat, rest: seq<byte>)
    ensures ReadVarint(Varint(n) + rest) == Some((n, rest))
    decreases n
  {
    var s := Varint(n) + rest;
    if n < 128 {
      assert s[1..] == rest;
    } else {
      assert s[1..] == Varint(n / 128) + rest;
      ReadVarintOfVarint(n / 128, rest);
    }
  }

  /** Decoding an encoding gives the value back and leaves what follows it. */
  lemma {:induction false} DecodeOneEncode(v: Value, rest: seq<byte>)
    ensures DecodeOne(Encode(v) + rest) == Decoded(v, rest)
    decreases v, 2
  {
    match v
    case Int(i) => DecodeIntEncode(i, rest);
    case Bytes(d) => DecodeBytesEncode(d, rest);
    case List(items) => DecodeListEncode(items, rest);
  }

  lemma DecodeIntEncode(i: int, rest: seq<byte>)
    ensures DecodeOne(Encode(Int(i)) + rest) == Decoded(Int(i), rest)
  {
    TagThenBody(IntTag, Varint(ZigZag(i)), rest);
    ReadVarintOfVarint(ZigZag(i), rest);
    UnZigZagZigZag(i);
  }

  lemma DecodeBytesEncode(d: seq<byte>, rest: seq<byte>)
    ensures DecodeOne(Encode(Bytes(d)) + rest) == Decoded(Bytes(d), rest)
  {
    AppendAssoc([BytesTag] + Varint(|d|), d, rest);
    AppendAssoc([BytesTag], Varint(|d|), d + rest);
    TagThenBody(BytesTag, Varint(|d|), d + rest);
    ReadVarintOfVarint(|d|, d + rest);
    assert (d + rest)[..|d|] == d && (d + rest)[|d|..] == rest;
  }

  lemma {:induction false} DecodeListEncode(items: seq<Value>, rest: seq<byte>)
    ensures DecodeOne(Encode(List(items)) + rest) == Decoded(List(items), rest)
    decreases items, 1
  {
    var body := EncodeAll(items) + rest;
    AppendAssoc([ListTag] + Varint(|items|), EncodeAll(items), rest);
    AppendAssoc([ListTag], Varint(|items|), body);
    TagThenBody(ListTag, Varint(|items|), body);
    ReadVarintOfVarint(|items|, body);
    DecodeItemsEncodeAll(items, rest);
  }

  /** A tag byte in front of `body + rest`: the tag is read first, the rest follows it. */
  lemma TagThenBody(tag: byte, body: seq<byte>, rest: seq<byte>)
    ensures ([tag] + body + rest)[0] == tag
    ensures ([tag] + body + rest)[1..] == body + rest
  {
  }

  lemma {:induction false} DecodeItemsEncodeAll(items: seq<Value>, rest: seq<byte>)
    ensures DecodeItems(EncodeAll(items) + rest, |items|) == Some((items, rest))
    decreases items, 0
  {
    if items == [] {
      assert EncodeAll(items) + rest == rest;
    } else {
      var tail := EncodeAll(items[1..]) + rest;
      assert EncodeAll(items) + rest == Encode(items[0]) + tail;
      DecodeOneEncode(items[0], tail);
      DecodeItemsEncodeAll(items[1..], rest);
      assert [items[0]] + items[1..] == items;
    }
  }

  lemma {:induction false} ReadVarintExtends(s: seq<byte>, t: seq<byte>)
    requires ReadVarint(s).Some?
    ensures ReadVarint(s + t) == Some((ReadVarint(s).value.0, ReadVarint(s).value.1 + t))
  {
    assert (s + t)[0] == s[0];
    if s[0] < 128 {
      assert (s + t)[1..] == s[1..] + t;
    } else {
      assert (s + t)[1..] == s[1..] + t;
      ReadVarintExtends(s[1..], t);
    }
  }

  /**
    Prefix property: bytes appended after a complete encoding do not change
    what is decoded, they only follow it.
  */
  lemma {:induction false} DecodeOneExtends(s: seq<byte>, t: seq<byte>)
    requires DecodeOne(s).Decoded?
    ensures DecodeOne(s + t) == Decoded(DecodeOne(s).value, DecodeOne(s).rest + t)
    decreases |s|, 2, 0
  {
    assert (s + t)[0] == s[0];
    assert (s + t)[1..] == s[1..] + t;
    ReadVarintExtends(s[1..], t);
    var (n, rest) := ReadVarint(s[1..]).value;
    if s[0] == BytesTag {
      assert (rest + t)[..n] == rest[..n];
      assert (rest + t)[n..] == rest[n..] + t;
    } else if s[0] == ListTag {
      DecodeItemsExtends(rest, t, n);
    }
  }

  lemma {:induction false} DecodeItemsExtends(s: seq<byte>, t: seq<byte>, n: nat)
    requires DecodeItems(s, n).Some?
    ensures DecodeItems(s + t, n) == Some((DecodeItems(s, n).value.0, DecodeItems(s, n).value.1 + t))
    decreases |s|, 3, n
  {
    if n > 0 {
      DecodeOneExtends(s, t);
      DecodeItemsExtends(DecodeOne(s).rest, t, n - 1);
    }
  }
}
