/**
  Places where the draft in src/lib/storage/slotted_page.rs does arithmetic on `u16` that
  the evident intent does not survive. Each is modelled as written, with an input that
  shows the discrepancy, next to the definition the rest of the model uses.
  `Panic` is what a debug build does on `u16` overflow or underflow. A release build wraps
  instead: in `find_key` the wrapped `right` indexes past the directory and panics there
  too; in the tail check the wrapped difference (27 - 28 becomes 65535) grants the tail,
  and `header.offset -= size + 1` then moves the boundary below the directory or wraps it,
  with no panic. The `as u16` cast of the size truncates silently in both builds.
 */
module PageFindings {
  import opened Basics
  import opened Datums
  import opened Bincode
  import opened Cells
  import opened SlottedPage
  import opened InsertProofs

  /** An arithmetic step that either panics or yields a value. */
  datatype Outcome<+T> = Panic | Done(value: T)

  // ---------------------------------------------------------------------------
  // find_key as written: `len() as u16 - 1` and `mid - 1` underflow

  /**
    `find_key` as written, over the directory's keys: `right` starts at `len - 1` and
    moves to `mid - 1`, both in `u16`. It panics exactly when the intended answer is
    `None`: on an empty page, and whenever every key lies above the searched one.
   */
  method FindKeyAsWritten(keys: seq<Datum>, key: Datum) returns (r: Outcome<Option<nat>>)
    requires StrictlySorted(keys)
    ensures r == Panic <==> LastAtMost(keys, key).None?
    ensures r.Done? ==> r.value == LastAtMost(keys, key)
  {
    if |keys| == 0 {
      return Panic;
    }
    var left := 0;
    var right := |keys| - 1;
    var result: Option<nat> := None;
    while left <= right
      invariant 0 <= left <= |keys| && 0 <= right < |keys|
      invariant forall j :: 0 <= j < left ==> Less(keys[j], key)
      invariant forall j :: right < j < |keys| ==> Less(key, keys[j])
      invariant left == 0 ==> result == None
      invariant left > 0 ==> result == Some(left - 1)
      decreases right - left
    {
      var mid := (left + right) / 2;
      if keys[mid] == key {
        LastAtMostExact(keys, key, mid);
        return Done(Some(mid));
      } else if Less(keys[mid], key) {
        SortedBelow(keys, key, mid);
        result := Some(mid);
        left := mid + 1;
      } else {
        SortedAbove(keys, key, mid);
        if mid == 0 {
          LastAtMostSplit(keys, key, 0);
          return Panic;
        }
        right := mid - 1;
      }
    }
    LastAtMostSplit(keys, key, left);
    return Done(result);
  }

  /** Over the single key 5, a search for 2 reaches `mid = 0` with a larger key and panics. */
  method FindKeyBelowAll() returns (r: Outcome<Option<nat>>)
    ensures r == Panic
  {
    r := FindKeyAsWritten([I32(5)], I32(2));
  }

  /** On an empty page `len() as u16 - 1` underflows at once. */
  method FindKeyEmpty() returns (r: Outcome<Option<nat>>)
    ensures r == Panic
  {
    r := FindKeyAsWritten([], I32(2));
  }

  // ---------------------------------------------------------------------------
  // can_insert as written: `cell.size() as u16` truncates

  /** The size `can_insert` reserves as written: the cell's size cut to 16 bits. */
  function RequiredAsWritten(size: nat): (r: nat)
    ensures r < 0x1_0000
    ensures size < 0x1_0000 ==> r == size
  {
    size % 0x1_0000
  }

  /** With the full size, whatever `can_insert` grants fits inside the page. */
  lemma CanInsertBounded(p: Page, size: nat)
    requires InBounds(p)
    ensures CanInsert(p, size).Ok? ==> size <= PAGE_SIZE
  {
    if CanInsert(p, size).Ok? && !TailFits(p, size) {
      var i := CanInsert(p, size).value.block;
      assert p.freeblocks[i].offset + p.freeblocks[i].size <= PAGE_SIZE;
    }
  }

  // ---------------------------------------------------------------------------
  // The tail check as written: `offset - header_side` underflows, `required + 2` overflows

  /** A `u16` sum or product as a debug build computes it. */
  function U16(n: nat): Outcome<nat> {
    if n < 0x1_0000 then Done(n) else Panic
  }

  /**
    The tail check as written, in `u16`: `header_side = HDR + (len as u16 + 1) * 2`, then
    `header.offset - header_side >= required + 2`. The left side is evaluated first, so a
    boundary below the directory side panics before the sum is formed; the sum panics for
    a (truncated) size of 65534 or 65535.
   */
  function TailCheckAsWritten(offset: nat, entries: nat, required: nat): (r: Outcome<bool>)
    requires offset < 0x1_0000 && required < 0x1_0000
  {
    var slots := U16(entries % 0x1_0000 + 1);
    if slots.Panic? then Panic
    else
      var dir := U16(slots.value * SLOT_BYTES);
      if dir.Panic? then Panic
      else
        var headerSide := U16(HDR + dir.value);
        if headerSide.Panic? || offset < headerSide.value then Panic
        else
          var need := U16(required + 2);
          if need.Panic? then Panic else Done(offset - headerSide.value >= need.value)
  }

  /**
    `can_insert` as written: the tail check on the truncated size, and the free-list scan
    (with the block placement the rest of the model uses) when the tail is refused.
   */
  function CanInsertAsWritten(p: Page, size: nat): Outcome<Result<Position, PageError>>
    requires p.header.offset < 0x1_0000
  {
    var required := RequiredAsWritten(size);
    match TailCheckAsWritten(p.header.offset, |p.offsets|, required)
    case Panic => Panic
    case Done(true) => Done(Ok(Free(required)))
    case Done(false) => Done(CanInsert(p, required))
  }

  /**
    Where the tail check as written does not panic it agrees with `TailFits`; where it
    panics for any reason but the `+ 2` overflow, `TailFits` is false. The directory of a
    page in `u16` arithmetic has fewer than 65536 entries.
   */
  lemma TailCheckAgrees(p: Page, required: nat)
    requires p.header.offset < 0x1_0000 && |p.offsets| < 0x1_0000 && required < 0x1_0000
    ensures TailCheckAsWritten(p.header.offset, |p.offsets|, required) != Panic ==>
      TailCheckAsWritten(p.header.offset, |p.offsets|, required) == Done(TailFits(p, required))
    ensures TailCheckAsWritten(p.header.offset, |p.offsets|, required) == Panic && required + 2 < 0x1_0000 ==>
      !TailFits(p, required)
  {
  }

  /** Below the overflow and with room for the directory side, `can_insert` as written is `CanInsert`. */
  lemma CanInsertAgrees(p: Page, size: nat)
    requires p.header.offset < 0x1_0000 && |p.offsets| < 0x1_0000 && size + 2 < 0x1_0000
    requires p.header.offset >= HDR + SLOT_BYTES * (|p.offsets| + 1)
    ensures CanInsertAsWritten(p, size) == Done(CanInsert(p, size))
  {
    TailCheckAgrees(p, size);
  }

  /** A key of 65533 bytes and the value 0: their cell is 65537 bytes long. */
  function HugeCell(): (c: Cell)
    ensures SerializedSize(c) == 0x1_0001
  {
    Cell(Str(seq(65533, _ => 0)), I32(0), None)
  }

  /**
    A new page, whose free boundary is at 4095, reports room at its tail for the 65537-byte
    cell, because the truncated size is 1; the full size is refused.
   */
  lemma TruncatedSizeFits()
    ensures CanInsertAsWritten(NewPage(0, None, Leaf), SerializedSize(HugeCell())) == Done(Ok(Free(1)))
    ensures CanInsert(NewPage(0, None, Leaf), SerializedSize(HugeCell())) == Err(NotEnoughSpace)
  {
  }

  /** A key of 65530 bytes and the value 0: their cell is 65534 bytes long. */
  function OverflowCell(): (c: Cell)
    ensures SerializedSize(c) == 0xFFFE
  {
    Cell(Str(seq(65530, _ => 0)), I32(0), None)
  }

  /** On a new page, `required + 2` overflows for the 65534-byte cell; the full-size check refuses it. */
  lemma RequiredOverflows()
    ensures CanInsertAsWritten(NewPage(0, None, Leaf), SerializedSize(OverflowCell())) == Panic
    ensures CanInsert(NewPage(0, None, Leaf), SerializedSize(OverflowCell())) == Err(NotEnoughSpace)
  {
  }

  /** A key of 4063 bytes and the value 0: their cell is 4067 bytes long. */
  const LARGE_KEY: Datum := Str(seq(4063, _ => 0))

  /**
    After one insert of a 4067-byte cell into a new page the boundary is at 27, and the
    directory side of the next tail check is 28: any further insert, as written, panics.
   */
  lemma TailCheckUnderflows(q: Page, required: nat)
    requires Insert(NewPage(0, None, Leaf), LARGE_KEY, I32(0)) == Ok(q)
    ensures q.header.offset == 27 && |q.offsets| == 1
    ensures required < 0x1_0000 ==> TailCheckAsWritten(q.header.offset, |q.offsets|, required) == Panic
    ensures CanInsertAsWritten(q, required) == Panic
    ensures !TailFits(q, required)
  {
    var p := NewPage(0, None, Leaf);
    assert NewCellSize(LARGE_KEY, I32(0)) == 4067;
    TailInsertFacts(p, LARGE_KEY, I32(0), q);
    InsertFilesKey(p, LARGE_KEY, I32(0), q);
  }

  /** The insert that sets up `TailCheckUnderflows` succeeds. */
  lemma LargeInsertSucceeds()
    ensures Insert(NewPage(0, None, Leaf), LARGE_KEY, I32(0)).Ok?
  {
    assert NewCellSize(LARGE_KEY, I32(0)) == 4067;
    TailInsert(NewPage(0, None, Leaf), LARGE_KEY, I32(0));
  }
}
