/**
  The bincode encoding under `bincode::config::standard()`: little-endian, variable-length
  integers. An unsigned value up to 250 is one byte; larger values take a marker byte
  (251, 252, 253) followed by 2, 4 or 8 little-endian bytes. An `i32` is zigzagged to a
  `u32` first; a `String` is its length (as a `u64` varint) followed by its bytes.
  The decoder exists as the encoder's partner: it shows the encoding is unambiguous.
 */
module Bincode {
  import opened Basics
  import opened Datums

  const SINGLE_BYTE_MAX: nat := 250
  const U16_BYTE: byte := 251
  const U32_BYTE: byte := 252
  const U64_BYTE: byte := 253

  function Pow256(k: nat): (r: nat)
    ensures r >= 1
  {
    if k == 0 then 1 else 256 * Pow256(k - 1)
  }

  /** The `k` lowest bytes of `n`, least significant first. */
  function LittleEndian(n: nat, k: nat): (bs: seq<byte>)
    ensures |bs| == k
  {
    if k == 0 then [] else [(n % 256) as byte] + LittleEndian(n / 256, k - 1)
  }

  function FromLittleEndian(bs: seq<byte>): nat {
    if |bs| == 0 then 0 else bs[0] as nat + 256 * FromLittleEndian(bs[1..])
  }

  lemma {:induction false} LittleEndianRoundTrip(n: nat, k: nat)
    requires n < Pow256(k)
    ensures FromLittleEndian(LittleEndian(n, k)) == n
  {
    if k > 0 {
      var bs := LittleEndian(n, k);
      assert bs[1..] == LittleEndian(n / 256, k - 1);
      assert n / 256 < Pow256(k - 1);
      LittleEndianRoundTrip(n / 256, k - 1);
    }
  }

  /** bincode's `varint_encode_u64` (and `varint_encode_u32`, which agrees below 2^32). */
  function Varint(n: nat): (bs: seq<byte>)
    requires n < 0x1_0000_0000_0000_0000
  {
    if n <= SINGLE_BYTE_MAX then [n as byte]
    else if n < 0x1_0000 then [U16_BYTE] + LittleEndian(n, 2)
    else if n < 0x1_0000_0000 then [U32_BYTE] + LittleEndian(n, 4)
    else [U64_BYTE] + LittleEndian(n, 8)
  }

  /** The width of a varint, stated by value range alone. */
  function VarintWidth(n: nat): nat {
    if n <= SINGLE_BYTE_MAX then 1
    else if n < 0x1_0000 then 3
    else if n < 0x1_0000_0000 then 5
    else 9
  }

  /** Reads one varint: the value and the number of bytes it occupied. */
  function DecodeVarint(bs: seq<byte>): (r: Option<(nat, nat)>)
    ensures r.Some? ==> 1 <= r.value.1 <= |bs|
  {
    if |bs| == 0 then None
    else if bs[0] as nat <= SINGLE_BYTE_MAX then Some((bs[0] as nat, 1))
    else if bs[0] == U16_BYTE && |bs| >= 3 then Some((FromLittleEndian(bs[1..3]), 3))
    else if bs[0] == U32_BYTE && |bs| >= 5 then Some((FromLittleEndian(bs[1..5]), 5))
    else if bs[0] == U64_BYTE && |bs| >= 9 then Some((FromLittleEndian(bs[1..9]), 9))
    else None
  }

  lemma VarintRoundTrip(n: nat, rest: seq<byte>)
    requires n < 0x1_0000_0000_0000_0000
    ensures |Varint(n)| == VarintWidth(n)
    ensures DecodeVarint(Varint(n) + rest) == Some((n, VarintWidth(n)))
  {
    var bs := Varint(n) + rest;
    if n <= SINGLE_BYTE_MAX {
    } else if n < 0x1_0000 {
      assert bs[1..3] == LittleEndian(n, 2);
      LittleEndianRoundTrip(n, 2);
    } else if n < 0x1_0000_0000 {
      assert bs[1..5] == LittleEndian(n, 4);
      LittleEndianRoundTrip(n, 4);
    } else {
      assert Pow256(8) == 0x1_0000_0000_0000_0000;
      assert bs[1..9] == LittleEndian(n, 8);
      LittleEndianRoundTrip(n, 8);
    }
  }

  /** Zigzag: 0, -1, 1, -2, 2, ... map to 0, 1, 2, 3, 4, ... */
  function ZigZag(n: i32): (z: nat)
    ensures z < 0x1_0000_0000
  {
    if n >= 0 then 2 * n as nat else (-2 * n as int - 1) as nat
  }

  function UnZigZag(z: nat): int {
    if z % 2 == 0 then z / 2 else -(z + 1) / 2
  }

  lemma ZigZagRoundTrip(n: i32)
    ensures UnZigZag(ZigZag(n)) == n as int
  {
  }

  /** `bincode::serde::encode_to_vec(&d, standard())`. */
  function Encode(d: Datum): seq<byte> {
    match d
    case I32(n) => Varint(ZigZag(n))
    case Str(b) => Varint(|b|) + b
  }

  /** The encoded size by value range alone: a varint's width, plus a string's bytes. */
  function EncodedLen(d: Datum): nat {
    match d
    case I32(n) => VarintWidth(ZigZag(n))
    case Str(b) => VarintWidth(|b|) + |b|
  }

  /** Reads one datum of the expected kind; bincode decoding is driven by the type. */
  function DecodeDatum(kind: DatumKind, bs: seq<byte>): (r: Option<(Datum, nat)>)
    ensures r.Some? ==> r.value.1 <= |bs|
  {
    match DecodeVarint(bs)
    case None => None
    case Some((v, used)) =>
      match kind
      case I32Kind =>
        if v < 0x1_0000_0000 then Some((I32(UnZigZag(v) as i32), used)) else None
      case StrKind =>
        if v < 0x1_0000_0000_0000_0000 && used + v <= |bs| then Some((Str(bs[used..used + v]), used + v)) else None
  }

  /**
    Encoding a datum and reading it back, with anything after it, yields the datum and
    the exact number of bytes it took.
   */
  lemma EncodeRoundTrip(d: Datum, rest: seq<byte>)
    ensures |Encode(d)| == EncodedLen(d) >= 1
    ensures DecodeDatum(KindOf(d), Encode(d) + rest) == Some((d, |Encode(d)|))
  {
    match d
    case I32(n) =>
      VarintRoundTrip(ZigZag(n), rest);
      ZigZagRoundTrip(n);
    case Str(b) =>
      assert Encode(d) + rest == Varint(|b|) + (b + rest);
      VarintRoundTrip(|b|, b + rest);
      var w := VarintWidth(|b|);
      assert (Varint(|b|) + (b + rest))[w..w + |b|] == b;
  }
}
