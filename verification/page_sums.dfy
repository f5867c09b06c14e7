/**
  Sums over a page's directory and free list, and what `TakeBlock` does to the free list.
 */
module PageSums {
  import opened Basics
  import opened Cells
  import opened SlottedPage

  lemma {:induction false} CellBytesAppend(a: seq<nat>, b: seq<nat>, cells: map<nat, Cell>)
    requires Indexed(a + b, cells)
    ensures Indexed(a, cells) && Indexed(b, cells)
    ensures CellBytes(a + b, cells) == CellBytes(a, cells) + CellBytes(b, cells)
    decreases |a|
  {
    assert forall i :: 0 <= i < |a| ==> a[i] == (a + b)[i];
    assert forall i :: 0 <= i < |b| ==> b[i] == (a + b)[|a| + i];
    if |a| == 0 {
      assert a + b == b;
    } else {
      assert (a + b)[1..] == a[1..] + b;
      CellBytesAppend(a[1..], b, cells);
    }
  }

  lemma {:induction false} CellBytesFrame(offsets: seq<nat>, c1: map<nat, Cell>, c2: map<nat, Cell>)
    requires Indexed(offsets, c1) && Indexed(offsets, c2)
    requires forall i :: 0 <= i < |offsets| ==> c1[offsets[i]] == c2[offsets[i]]
    ensures CellBytes(offsets, c1) == CellBytes(offsets, c2)
    decreases |offsets|
  {
    if |offsets| > 0 {
      CellBytesFrame(offsets[1..], c1, c2);
    }
  }

  /** Every cell takes at least two bytes, one per encoded field. */
  lemma {:induction false} CellBytesAtLeast(offsets: seq<nat>, cells: map<nat, Cell>)
    requires Indexed(offsets, cells)
    ensures CellBytes(offsets, cells) >= 2 * |offsets|
    decreases |offsets|
  {
    if |offsets| > 0 {
      CellBytesAtLeast(offsets[1..], cells);
    }
  }

  lemma {:induction false} FreeBytesAppend(a: seq<FreeBlock>, b: seq<FreeBlock>)
    ensures FreeBytes(a + b) == FreeBytes(a) + FreeBytes(b)
    decreases |a|
  {
    if |a| == 0 {
      assert a + b == b;
    } else {
      assert (a + b)[1..] == a[1..] + b;
      FreeBytesAppend(a[1..], b);
    }
  }

  lemma FreeBytesAt(blocks: seq<FreeBlock>, i: nat)
    requires i < |blocks|
    ensures FreeBytes(blocks) == FreeBytes(blocks[..i]) + blocks[i].size + FreeBytes(blocks[i + 1..])
  {
    assert blocks == blocks[..i] + ([blocks[i]] + blocks[i + 1..]);
    FreeBytesAppend(blocks[..i], [blocks[i]] + blocks[i + 1..]);
    FreeBytesAppend([blocks[i]], blocks[i + 1..]);
  }

  // ---------------------------------------------------------------------------
  // Taking bytes out of a free block

  /** Which block of the old list the `j`-th block of `TakeBlock`'s result comes from. */
  function BlockSource(blocks: seq<FreeBlock>, i: nat, required: nat, j: nat): nat
    requires i < |blocks| && required <= blocks[i].size
  {
    if blocks[i].size - required >= MIN_FRAGMENT || j < i then j else j + 1
  }

  /**
    The free total drops by the bytes taken when the block keeps its remainder, and by the
    whole block when the remainder is below 4 and the block leaves the list.
   */
  lemma TakeBlockSums(blocks: seq<FreeBlock>, i: nat, required: nat, r: seq<FreeBlock>)
    requires i < |blocks| && required <= blocks[i].size && r == TakeBlock(blocks, i, required)
    ensures blocks[i].size - required >= MIN_FRAGMENT ==>
      |r| == |blocks| && FreeBytes(r) + required == FreeBytes(blocks)
    ensures blocks[i].size - required < MIN_FRAGMENT ==>
      |r| + 1 == |blocks| && FreeBytes(r) + blocks[i].size == FreeBytes(blocks)
  {
    FreeBytesAt(blocks, i);
    if blocks[i].size - required >= MIN_FRAGMENT {
      FreeBytesAt(r, i);
      assert r[..i] == blocks[..i] && r[i + 1..] == blocks[i + 1..];
    } else {
      FreeBytesAppend(blocks[..i], blocks[i + 1..]);
    }
  }

  /**
    Every block `TakeBlock` leaves comes from a distinct old block, in the old order, at the
    same offset and no larger; all but the chosen one are kept as they were, and the chosen
    one keeps exactly the remainder.
   */
  lemma TakeBlockSources(blocks: seq<FreeBlock>, i: nat, required: nat, r: seq<FreeBlock>)
    requires i < |blocks| && required <= blocks[i].size && r == TakeBlock(blocks, i, required)
    ensures forall j :: 0 <= j < |r| ==> BlockSource(blocks, i, required, j) < |blocks|
    ensures forall j :: 0 <= j < |r| ==>
      r[j].offset == blocks[BlockSource(blocks, i, required, j)].offset &&
      r[j].size <= blocks[BlockSource(blocks, i, required, j)].size
    ensures forall j :: 0 <= j < |r| && BlockSource(blocks, i, required, j) != i ==>
      r[j] == blocks[BlockSource(blocks, i, required, j)]
    ensures forall j :: 0 <= j < |r| && BlockSource(blocks, i, required, j) == i ==>
      r[j].size == blocks[i].size - required
    ensures forall j1, j2 :: 0 <= j1 < j2 < |r| ==>
      BlockSource(blocks, i, required, j1) < BlockSource(blocks, i, required, j2)
  {
  }
}
