/**
  The two placements `insert` can make, a cell below the boundary or in the top bytes of a
  free block, each keep a valid page valid when the cell is new and its size is cached.
 */
module PlacementProofs {
  import opened Basics
  import opened Datums
  import opened Cells
  import opened SlottedPage
  import opened PageSums
  import opened DirectoryProofs

  // ---------------------------------------------------------------------------
  // What each placement changes

  /** A tail placement adds the cell just below the old boundary, which drops by one more byte. */
  lemma TailShape(p: Page, cell: Cell, n: nat, r: Page)
    requires Indexed(p.offsets, p.cells) && TailFits(p, n) && r == PlaceAtTail(p, cell, n)
    ensures r.offsets == p.offsets[..InsertPos(Keys(p), cell.key)] + [p.header.offset - n]
                         + p.offsets[InsertPos(Keys(p), cell.key)..]
    ensures r.cells == p.cells[p.header.offset - n := cell]
    ensures r.freeblocks == p.freeblocks
    ensures r.header.offset + 1 == p.header.offset - n
    ensures r.header.pageSize == p.header.pageSize + n + 1
  {
  }

  /** A block placement adds the cell at `at`, keeps the boundary and takes from block `i`. */
  lemma BlockShape(p: Page, cell: Cell, n: nat, at: nat, i: nat, r: Page)
    requires Indexed(p.offsets, p.cells) && i < |p.freeblocks| && n <= p.freeblocks[i].size
    requires r == PlaceInBlock(p, cell, n, at, i)
    ensures r.offsets == p.offsets[..InsertPos(Keys(p), cell.key)] + [at]
                         + p.offsets[InsertPos(Keys(p), cell.key)..]
    ensures r.cells == p.cells[at := cell]
    ensures r.freeblocks == TakeBlock(p.freeblocks, i, n)
    ensures r.header.offset == p.header.offset
    ensures r.header.pageSize == p.header.pageSize + n + 1
  {
  }

  // ---------------------------------------------------------------------------
  // Geometry

  /** A cell whose cache is filled, added to a page whose caches hold, keeps every cache true. */
  lemma AddedCacheOk(p: Page, r: Page, at: nat, cell: Cell)
    requires CachesOk(p) && r.cells == p.cells[at := cell]
    requires cell.cachedSize == Some(SerializedSize(cell))
    ensures CachesOk(r)
  {
  }

  /** A cell placed between the new and the old boundary overlaps nothing that was there. */
  lemma TailGeometry(p: Page, r: Page, at: nat, cell: Cell)
    requires InBounds(p) && NoOverlap(p)
    requires r.cells == p.cells[at := cell] && r.freeblocks == p.freeblocks
    requires r.header.offset < at && at + SerializedSize(cell) == p.header.offset
    ensures InBounds(r) && NoOverlap(r)
  {
    assert at !in p.cells;
    forall o1, o2 | o1 in r.cells && o2 in r.cells && o1 != o2
      ensures Apart(o1, SerializedSize(r.cells[o1]), o2, SerializedSize(r.cells[o2]))
    {
      if o1 != at && o2 != at {
        assert Apart(o1, SerializedSize(p.cells[o1]), o2, SerializedSize(p.cells[o2]));
      }
    }
    forall o, j | o in r.cells && 0 <= j < |r.freeblocks|
      ensures Apart(o, SerializedSize(r.cells[o]), r.freeblocks[j].offset, r.freeblocks[j].size)
    {
      if o != at {
        assert Apart(o, SerializedSize(p.cells[o]), p.freeblocks[j].offset, p.freeblocks[j].size);
      }
    }
  }

  /** The blocks left by `TakeBlock` lie inside the page and do not overlap one another. */
  lemma TakenBlocksApart(p: Page, fb: seq<FreeBlock>, i: nat, n: nat)
    requires InBounds(p) && NoOverlap(p)
    requires i < |p.freeblocks| && n <= p.freeblocks[i].size
    requires fb == TakeBlock(p.freeblocks, i, n)
    ensures forall j :: 0 <= j < |fb| ==>
      p.header.offset < fb[j].offset && fb[j].offset + fb[j].size <= PAGE_SIZE
    ensures forall j1, j2 :: 0 <= j1 < j2 < |fb| ==>
      Apart(fb[j1].offset, fb[j1].size, fb[j2].offset, fb[j2].size)
  {
    var blocks := p.freeblocks;
    TakeBlockSources(blocks, i, n, fb);
    forall j | 0 <= j < |fb|
      ensures p.header.offset < fb[j].offset && fb[j].offset + fb[j].size <= PAGE_SIZE
    {
      var k := BlockSource(blocks, i, n, j);
      assert fb[j].offset == blocks[k].offset && fb[j].size <= blocks[k].size;
    }
    forall j1, j2 | 0 <= j1 < j2 < |fb|
      ensures Apart(fb[j1].offset, fb[j1].size, fb[j2].offset, fb[j2].size)
    {
      var k1, k2 := BlockSource(blocks, i, n, j1), BlockSource(blocks, i, n, j2);
      assert fb[j1].offset == blocks[k1].offset && fb[j1].size <= blocks[k1].size;
      assert fb[j2].offset == blocks[k2].offset && fb[j2].size <= blocks[k2].size;
      assert Apart(blocks[k1].offset, blocks[k1].size, blocks[k2].offset, blocks[k2].size);
    }
  }

  /** The top bytes of a free block hold no cell start, and every cell lies apart from them. */
  lemma BlockTopFresh(p: Page, n: nat, i: nat)
    requires NoOverlap(p) && i < |p.freeblocks| && n <= p.freeblocks[i].size
    ensures forall o :: o in p.cells ==>
      Apart(o, SerializedSize(p.cells[o]), TopBytes(p.freeblocks[i], n), n)
    ensures n > 0 ==> TopBytes(p.freeblocks[i], n) !in p.cells
  {
    var b := p.freeblocks[i];
    forall o | o in p.cells
      ensures Apart(o, SerializedSize(p.cells[o]), TopBytes(b, n), n)
      ensures n > 0 ==> o != TopBytes(b, n)
    {
      assert Apart(o, SerializedSize(p.cells[o]), b.offset, b.size);
    }
  }

  /**
    A cell placed in the top bytes of block `i` overlaps no other cell and none of the
    blocks `TakeBlock` leaves.
   */
  lemma BlockCellApart(p: Page, r: Page, cell: Cell, i: nat)
    requires NoOverlap(p)
    requires i < |p.freeblocks| && SerializedSize(cell) <= p.freeblocks[i].size
    requires r.cells == p.cells[TopBytes(p.freeblocks[i], SerializedSize(cell)) := cell]
    requires r.freeblocks == TakeBlock(p.freeblocks, i, SerializedSize(cell))
    ensures forall o1, o2 :: o1 in r.cells && o2 in r.cells && o1 != o2 ==>
      Apart(o1, SerializedSize(r.cells[o1]), o2, SerializedSize(r.cells[o2]))
    ensures forall o, j :: o in r.cells && 0 <= j < |r.freeblocks| ==>
      Apart(o, SerializedSize(r.cells[o]), r.freeblocks[j].offset, r.freeblocks[j].size)
  {
    var blocks := p.freeblocks;
    var b := blocks[i];
    var n := SerializedSize(cell);
    var at := TopBytes(b, n);
    var fb := r.freeblocks;
    BlockTopFresh(p, n, i);
    forall o1, o2 | o1 in r.cells && o2 in r.cells && o1 != o2
      ensures Apart(o1, SerializedSize(r.cells[o1]), o2, SerializedSize(r.cells[o2]))
    {
      if o1 != at && o2 != at {
        assert Apart(o1, SerializedSize(p.cells[o1]), o2, SerializedSize(p.cells[o2]));
      } else if o1 == at {
        assert Apart(o2, SerializedSize(p.cells[o2]), at, n);
      } else {
        assert Apart(o1, SerializedSize(p.cells[o1]), at, n);
      }
    }
    TakeBlockSources(blocks, i, n, fb);
    forall o, j | o in r.cells && 0 <= j < |fb|
      ensures Apart(o, SerializedSize(r.cells[o]), fb[j].offset, fb[j].size)
    {
      var k := BlockSource(blocks, i, n, j);
      assert fb[j].offset == blocks[k].offset && fb[j].size <= blocks[k].size;
      if o == at {
        if k != i {
          assert Apart(blocks[k].offset, blocks[k].size, b.offset, b.size) ||
                 Apart(b.offset, b.size, blocks[k].offset, blocks[k].size);
        }
      } else {
        assert Apart(o, SerializedSize(p.cells[o]), blocks[k].offset, blocks[k].size);
      }
    }
  }

  /** The cell placed in block `i`, and the blocks left, lie inside the page above the boundary. */
  lemma BlockGeometry(p: Page, r: Page, cell: Cell, i: nat)
    requires InBounds(p) && NoOverlap(p)
    requires i < |p.freeblocks| && SerializedSize(cell) <= p.freeblocks[i].size
    requires r.header.offset == p.header.offset
    requires r.cells == p.cells[TopBytes(p.freeblocks[i], SerializedSize(cell)) := cell]
    requires r.freeblocks == TakeBlock(p.freeblocks, i, SerializedSize(cell))
    ensures InBounds(r) && NoOverlap(r)
  {
    BlockCellApart(p, r, cell, i);
    TakenBlocksApart(p, r.freeblocks, i, SerializedSize(cell));
  }

  // ---------------------------------------------------------------------------
  // Validity

  /** A tail placement of a new, sized cell keeps the page valid. */
  lemma TailPlacementValid(p: Page, cell: Cell, n: nat, r: Page)
    requires Valid(p) && cell.key !in Keys(p)
    requires cell.cachedSize == Some(n) && n == SerializedSize(cell)
    requires TailFits(p, n) && r == PlaceAtTail(p, cell, n)
    ensures Valid(r)
  {
    var at := p.header.offset - n;
    TailShape(p, cell, n, r);
    assert at !in p.cells;
    AddCellFacts(p, at, cell, InsertPos(Keys(p), cell.key), r);
    AddedCacheOk(p, r, at, cell);
    TailGeometry(p, r, at, cell);
    assert Accounted(r);
  }

  /** A placement of a new, sized cell in the top bytes of block `i` keeps the page valid. */
  lemma BlockPlacementValid(p: Page, cell: Cell, n: nat, i: nat, r: Page)
    requires Valid(p) && cell.key !in Keys(p)
    requires cell.cachedSize == Some(n) && n == SerializedSize(cell)
    requires i < |p.freeblocks| && n <= p.freeblocks[i].size
    requires r == PlaceInBlock(p, cell, n, TopBytes(p.freeblocks[i], n), i)
    ensures Valid(r)
  {
    var at := TopBytes(p.freeblocks[i], n);
    BlockShape(p, cell, n, at, i, r);
    BlockTopFresh(p, n, i);
    AddCellFacts(p, at, cell, InsertPos(Keys(p), cell.key), r);
    AddedCacheOk(p, r, at, cell);
    BlockGeometry(p, r, cell, i);
    TakeBlockSums(p.freeblocks, i, n, r.freeblocks);
    assert Accounted(r);
  }
}
