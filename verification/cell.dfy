/**
  A cell: one key-value record, its byte encoding, and the memoised encoded size
  (src/lib/storage/cell.rs). The key and value are private and never change after
  `new`, so the size cache can only ever hold the encoding's length.
 */
module Cells {
  import opened Basics
  import opened Datums
  import opened Bincode

  datatype Cell = Cell(key: Datum, value: Datum, cachedSize: Option<nat>)

  /** The bytes `_serialize` produces. */
  function Serialize(c: Cell): (bytes: seq<byte>)
    ensures |bytes| == EncodedLen(c.key) + EncodedLen(c.value)
    ensures |bytes| >= 2
  {
    EncodeRoundTrip(c.key, []);
    EncodeRoundTrip(c.value, []);
    Encode(c.key) + Encode(c.value)
  }

  /** The number of bytes a cell occupies in a page, by value range alone. */
  function SerializedSize(c: Cell): (n: nat)
    ensures n >= 2
  {
    EncodedLen(c.key) + EncodedLen(c.value)
  }

  /** The cache is empty or holds the encoding's length. */
  predicate CacheConsistent(c: Cell) {
    c.cachedSize.None? || c.cachedSize.value == SerializedSize(c)
  }

  /** `Cell::new`: the record with an empty size cache. */
  function NewCell(key: Datum, value: Datum): (c: Cell)
    ensures c.key == key && c.value == value
    ensures c.cachedSize.None? && CacheConsistent(c)
  {
    Cell(key, value, None)
  }

  /**
    `Cell::size`: the size, and the cell as it is after the call. The first call fills the
    cache with the encoding's length; a filled cache is returned as it is.
   */
  function Size(c: Cell): (r: (nat, Cell))
    ensures r.1.key == c.key && r.1.value == c.value
    ensures r.1.cachedSize == Some(r.0)
    ensures c.cachedSize.None? ==> r.0 == SerializedSize(c)
    ensures c.cachedSize.Some? ==> r == (c.cachedSize.value, c)
    ensures CacheConsistent(c) ==> r.0 == SerializedSize(c) && CacheConsistent(r.1)
  {
    match c.cachedSize
    case None =>
      var n := |Serialize(c)|;
      (n, c.(cachedSize := Some(n)))
    case Some(n) => (n, c)
  }

  /** Reads a cell of the given key and value kinds; every byte must be consumed. */
  function DecodeCell(keyKind: DatumKind, valueKind: DatumKind, bytes: seq<byte>): Option<(Datum, Datum)> {
    match DecodeDatum(keyKind, bytes)
    case None => None
    case Some((key, used)) =>
      match DecodeDatum(valueKind, bytes[used..])
      case None => None
      case Some((value, used2)) =>
        if used + used2 == |bytes| then Some((key, value)) else None
  }

  /**
    The serialisation is the key's encoding followed directly by the value's encoding:
    reading the key back leaves exactly the value's encoding, with no header between them.
   */
  lemma SerializeRoundTrip(c: Cell)
    ensures Serialize(c)[..|Encode(c.key)|] == Encode(c.key)
    ensures DecodeCell(KindOf(c.key), KindOf(c.value), Serialize(c)) == Some((c.key, c.value))
  {
    var kb, vb := Encode(c.key), Encode(c.value);
    EncodeRoundTrip(c.key, vb);
    assert (kb + vb)[|kb|..] == vb + [];
    EncodeRoundTrip(c.value, []);
  }

  /** Two consecutive `size()` calls agree, and the second leaves the cell as the first did. */
  lemma SizeStable(c: Cell)
    ensures Size(Size(c).1) == Size(c)
  {
  }

  /**
    Every cell that client code can hold, one made by `new` and then asked for its size
    any number of times, reports the length of its serialisation.
   */
  lemma {:induction false} SizeAfterCalls(key: Datum, value: Datum, calls: nat)
    ensures Size(Repeat(NewCell(key, value), calls)).0 == |Encode(key)| + |Encode(value)|
  {
    RepeatConsistent(NewCell(key, value), calls);
  }

  /** The cell after `calls` calls of `size()`. */
  function Repeat(c: Cell, calls: nat): Cell
    decreases calls
  {
    if calls == 0 then c else Repeat(Size(c).1, calls - 1)
  }

  lemma {:induction false} RepeatConsistent(c: Cell, calls: nat)
    requires CacheConsistent(c)
    ensures CacheConsistent(Repeat(c, calls))
    ensures Repeat(c, calls).key == c.key && Repeat(c, calls).value == c.value
    decreases calls
  {
    if calls > 0 {
      RepeatConsistent(Size(c).1, calls - 1);
    }
  }
}
