/**
  What `remove` does to a page: it fails exactly for an absent key, and otherwise drops the
  key's entry and cell, turns the cell's bytes into a free block and keeps the page valid.
 */
module RemoveProofs {
  import opened Basics
  import opened Datums
  import opened Cells
  import opened SlottedPage
  import opened PageSums
  import opened DirectoryProofs

  /**
    Removing an absent key fails with "No such key"; removing a present key drops exactly
    its directory entry and its cell, appends one free block covering the cell's bytes,
    lowers the used-bytes counter by the size plus one and leaves the boundary alone.
   */
  lemma RemoveShape(p: Page, key: Datum)
    requires Indexed(p.offsets, p.cells) && CachesOk(p) && Accounted(p)
    ensures Remove(p, key).Err? <==> key !in Keys(p)
    ensures Remove(p, key).Err? ==> Remove(p, key).error == NoSuchKey
    ensures Remove(p, key).Ok? ==>
      var i := IndexOf(Keys(p), key).value;
      var o := p.offsets[i];
      var q := Remove(p, key).value;
      && q.offsets == p.offsets[..i] + p.offsets[i + 1..]
      && q.cells == p.cells - {o}
      && q.freeblocks == p.freeblocks + [FreeBlock(o, SerializedSize(p.cells[o]))]
      && q.header.pageSize + SerializedSize(p.cells[o]) + 1 == p.header.pageSize
      && q.header.offset == p.header.offset
  {
  }

  /** A successful removal of the key at position `i`: what `RemoveShape` says, with `i` named. */
  lemma RemoveAt(p: Page, key: Datum, i: nat, q: Page)
    requires Indexed(p.offsets, p.cells) && CachesOk(p) && Accounted(p)
    requires IndexOf(Keys(p), key) == Some(i) && Remove(p, key) == Ok(q)
    ensures i < |p.offsets| && Keys(p)[i] == key
    ensures q.offsets == p.offsets[..i] + p.offsets[i + 1..]
    ensures q.cells == p.cells - {p.offsets[i]}
    ensures q.freeblocks == p.freeblocks + [FreeBlock(p.offsets[i], SerializedSize(p.cells[p.offsets[i]]))]
    ensures q.header.pageSize + SerializedSize(p.cells[p.offsets[i]]) + 1 == p.header.pageSize
    ensures q.header.offset == p.header.offset
  {
  }

  /** Only a present key can be removed. */
  lemma RemovedKeyPresent(p: Page, key: Datum, q: Page)
    requires Indexed(p.offsets, p.cells) && CachesOk(p) && Accounted(p) && Remove(p, key) == Ok(q)
    ensures IndexOf(Keys(p), key).Some?
  {
  }

  /** Turning a stored cell into a free block of its own bytes keeps every range apart and in bounds. */
  lemma CellToBlockGeometry(p: Page, q: Page, o: nat)
    requires InBounds(p) && NoOverlap(p) && o in p.cells
    requires q.header.offset == p.header.offset
    requires q.cells == p.cells - {o}
    requires q.freeblocks == p.freeblocks + [FreeBlock(o, SerializedSize(p.cells[o]))]
    ensures InBounds(q) && NoOverlap(q)
  {
    var n := SerializedSize(p.cells[o]);
    var k := |p.freeblocks|;
    assert q.freeblocks[k] == FreeBlock(o, n);
    forall j | 0 <= j < |q.freeblocks|
      ensures p.header.offset < q.freeblocks[j].offset
      ensures q.freeblocks[j].offset + q.freeblocks[j].size <= PAGE_SIZE
    {
      if j < k {
        assert q.freeblocks[j] == p.freeblocks[j];
      }
    }
    forall i, j | 0 <= i < j < |q.freeblocks|
      ensures Apart(q.freeblocks[i].offset, q.freeblocks[i].size,
                    q.freeblocks[j].offset, q.freeblocks[j].size)
    {
      assert q.freeblocks[i] == p.freeblocks[i];
      if j < k {
        assert q.freeblocks[j] == p.freeblocks[j];
      } else {
        assert Apart(o, n, p.freeblocks[i].offset, p.freeblocks[i].size);
      }
    }
    forall c, j | c in q.cells && 0 <= j < |q.freeblocks|
      ensures Apart(c, SerializedSize(q.cells[c]), q.freeblocks[j].offset, q.freeblocks[j].size)
    {
      if j < k {
        assert q.freeblocks[j] == p.freeblocks[j];
        assert Apart(c, SerializedSize(p.cells[c]), p.freeblocks[j].offset, p.freeblocks[j].size);
      } else {
        assert Apart(c, SerializedSize(p.cells[c]), o, n);
      }
    }
  }

  /** Dropping entry `i` of a valid page leaves a sorted directory that covers the remaining cells. */
  lemma DropEntryDirectory(p: Page, i: nat, q: Page)
    requires DirectoryOk(p) && i < |p.offsets|
    requires q.offsets == p.offsets[..i] + p.offsets[i + 1..]
    requires q.cells == p.cells - {p.offsets[i]}
    ensures DirectoryOk(q) && Keys(q) == Keys(p)[..i] + Keys(p)[i + 1..]
    ensures forall k :: k in Keys(q) <==> k in Keys(p) && k != Keys(p)[i]
  {
    DropEntryIndexed(p.offsets, p.cells, i, q.offsets, q.cells);
    DropKeySorted(Keys(p), i);
    DropKeyMembers(Keys(p), i);
    DropEntryCovers(p.offsets, p.cells, i);
  }

  /** A page that differs from a valid one by dropping entry `i` as `remove` does is valid. */
  lemma DropEntryValid(p: Page, i: nat, q: Page)
    requires Valid(p) && i < |p.offsets|
    requires q.offsets == p.offsets[..i] + p.offsets[i + 1..]
    requires q.cells == p.cells - {p.offsets[i]}
    requires q.freeblocks == p.freeblocks + [FreeBlock(p.offsets[i], SerializedSize(p.cells[p.offsets[i]]))]
    requires q.header.pageSize + SerializedSize(p.cells[p.offsets[i]]) + 1 == p.header.pageSize
    requires q.header.offset == p.header.offset
    ensures Valid(q)
  {
    var o := p.offsets[i];
    DropEntryDirectory(p, i, q);
    DropEntryBytes(p.offsets, p.cells, i, q.offsets, q.cells);
    CellToBlockGeometry(p, q, o);
    FreeBytesAppend(p.freeblocks, [FreeBlock(o, SerializedSize(p.cells[o]))]);
    assert Accounted(q);
  }

  /** Removing a present key from a valid page succeeds and keeps the page valid. */
  lemma RemovePreservesValid(p: Page, key: Datum)
    requires Valid(p) && key in Keys(p)
    ensures Remove(p, key).Ok? && Valid(Remove(p, key).value)
  {
    RemoveShape(p, key);
    var i := IndexOf(Keys(p), key).value;
    RemoveAt(p, key, i, Remove(p, key).value);
    DropEntryValid(p, i, Remove(p, key).value);
  }

  /** After a removal every other key is still present, in order, and the removed key is gone. */
  lemma RemoveDropsKey(p: Page, key: Datum, q: Page)
    requires DirectoryOk(p) && CachesOk(p) && Accounted(p) && Remove(p, key) == Ok(q)
    ensures key in Keys(p) && DirectoryOk(q)
    ensures Keys(q) == Keys(p)[..IndexOf(Keys(p), key).value] + Keys(p)[IndexOf(Keys(p), key).value + 1..]
    ensures forall k :: k in Keys(q) <==> k in Keys(p) && k != key
    ensures IndexOf(Keys(q), key).None?
  {
    RemovedKeyPresent(p, key, q);
    var i := IndexOf(Keys(p), key).value;
    RemoveAt(p, key, i, q);
    DropEntryDirectory(p, i, q);
  }

  /**
    Every other key is still found after a removal, and lower-bound search for it returns
    the very cell it returned before.
   */
  lemma RemoveKeepsFound(p: Page, key: Datum, q: Page)
    requires DirectoryOk(p) && CachesOk(p) && Accounted(p) && Remove(p, key) == Ok(q)
    ensures DirectoryOk(q)
    ensures forall k :: k in Keys(p) && k != key ==>
      IndexOf(Keys(q), k).Some? && LowerBound(q, k) == LowerBound(p, k)
  {
    RemovedKeyPresent(p, key, q);
    var i := IndexOf(Keys(p), key).value;
    RemoveAt(p, key, i, q);
    DropEntryDirectory(p, i, q);
    DroppedStillFound(p, q, i);
  }
}
