/**
  What `insert` does to a page: when it fails and why, where the cell goes, that the page
  stays valid, that the key can be found afterwards, and that inserts use up room.
 */
module InsertProofs {
  import opened Basics
  import opened Datums
  import opened Cells
  import opened SlottedPage
  import opened PageSums
  import opened DirectoryProofs
  import opened PlacementProofs

  /** The size `insert` asks of its new cell. */
  function NewCellSize(key: Datum, value: Datum): nat {
    Size(NewCell(key, value)).0
  }

  /** The new cell as it is after `insert` has asked for its size. */
  function SizedCell(key: Datum, value: Datum): Cell {
    Size(NewCell(key, value)).1
  }

  /** The sized cell holds the key and value, and caches its true size. */
  lemma SizedCellFacts(key: Datum, value: Datum)
    ensures SizedCell(key, value).key == key && SizedCell(key, value).value == value
    ensures NewCellSize(key, value) == SerializedSize(SizedCell(key, value))
    ensures SizedCell(key, value).cachedSize == Some(NewCellSize(key, value))
  {
  }

  // ---------------------------------------------------------------------------
  // The four outcomes

  lemma InsertDuplicate(p: Page, key: Datum, value: Datum)
    requires Indexed(p.offsets, p.cells) && key in Keys(p)
    ensures Insert(p, key, value) == Err(DuplicateKey)
  {
  }

  lemma InsertTailCase(p: Page, key: Datum, value: Datum)
    requires Indexed(p.offsets, p.cells) && key !in Keys(p)
    requires TailFits(p, NewCellSize(key, value))
    ensures Insert(p, key, value)
      == Ok(PlaceAtTail(p, SizedCell(key, value), NewCellSize(key, value)))
  {
  }

  lemma InsertBlockCase(p: Page, key: Datum, value: Datum, i: nat)
    requires Indexed(p.offsets, p.cells) && key !in Keys(p)
    requires !TailFits(p, NewCellSize(key, value))
    requires FirstFit(p.freeblocks, NewCellSize(key, value)) == Some(i)
    ensures Insert(p, key, value) == Ok(PlaceInBlock(p, SizedCell(key, value), NewCellSize(key, value),
                                                     TopBytes(p.freeblocks[i], NewCellSize(key, value)), i))
  {
  }

  lemma InsertNoRoom(p: Page, key: Datum, value: Datum)
    requires Indexed(p.offsets, p.cells) && key !in Keys(p)
    requires !TailFits(p, NewCellSize(key, value))
    requires FirstFit(p.freeblocks, NewCellSize(key, value)).None?
    ensures Insert(p, key, value) == Err(NotEnoughSpace)
  {
  }

  /** A successful insert had a new key, and made one of the two placements. */
  lemma InsertOkShape(p: Page, key: Datum, value: Datum, q: Page)
    requires Indexed(p.offsets, p.cells) && Insert(p, key, value) == Ok(q)
    ensures key !in Keys(p)
    ensures TailFits(p, NewCellSize(key, value)) ==>
      q == PlaceAtTail(p, SizedCell(key, value), NewCellSize(key, value))
    ensures !TailFits(p, NewCellSize(key, value)) ==>
      FirstFit(p.freeblocks, NewCellSize(key, value)).Some?
    ensures !TailFits(p, NewCellSize(key, value)) ==>
      var i := FirstFit(p.freeblocks, NewCellSize(key, value)).value;
      q == PlaceInBlock(p, SizedCell(key, value), NewCellSize(key, value),
                        TopBytes(p.freeblocks[i], NewCellSize(key, value)), i)
  {
  }

  /** A new key can only be refused for lack of room. */
  lemma InsertNewKeyError(p: Page, key: Datum, value: Datum)
    requires Indexed(p.offsets, p.cells) && key !in Keys(p) && Insert(p, key, value).Err?
    ensures Insert(p, key, value).error == NotEnoughSpace
  {
  }

  /** Insert fails only for a present key, or when neither the tail nor any free block fits. */
  lemma InsertFailure(p: Page, key: Datum, value: Datum)
    requires Indexed(p.offsets, p.cells)
    ensures Insert(p, key, value).Err? ==>
      Insert(p, key, value).error == DuplicateKey || Insert(p, key, value).error == NotEnoughSpace
    ensures Insert(p, key, value) == Err(DuplicateKey) <==> key in Keys(p)
    ensures Insert(p, key, value) == Err(NotEnoughSpace) <==>
      && key !in Keys(p)
      && !TailFits(p, NewCellSize(key, value))
      && forall j :: 0 <= j < |p.freeblocks| ==> p.freeblocks[j].size < NewCellSize(key, value)
  {
    var n := NewCellSize(key, value);
    if key in Keys(p) {
      InsertDuplicate(p, key, value);
    } else if TailFits(p, n) {
      InsertTailCase(p, key, value);
    } else if FirstFit(p.freeblocks, n).Some? {
      InsertBlockCase(p, key, value, FirstFit(p.freeblocks, n).value);
    } else {
      InsertNoRoom(p, key, value);
    }
  }

  // ---------------------------------------------------------------------------
  // Success

  /** Inserting into a valid page keeps it valid. */
  lemma InsertPreservesValid(p: Page, key: Datum, value: Datum, q: Page)
    requires Valid(p) && Insert(p, key, value) == Ok(q)
    ensures Valid(q)
  {
    var n, cell := NewCellSize(key, value), SizedCell(key, value);
    SizedCellFacts(key, value);
    InsertOkShape(p, key, value, q);
    if TailFits(p, n) {
      TailPlacementValid(p, cell, n, q);
    } else {
      BlockPlacementValid(p, cell, n, FirstFit(p.freeblocks, n).value, q);
    }
  }

  /** Where a successful insert stores its cell. */
  function InsertedAt(p: Page, key: Datum, value: Datum): nat {
    var n := NewCellSize(key, value);
    if TailFits(p, n) then p.header.offset - n
    else match FirstFit(p.freeblocks, n)
      case Some(i) => TopBytes(p.freeblocks[i], n)
      case None => 0
  }

  /** A successful insert stores the sized cell at a fresh offset and splices it into the directory. */
  lemma InsertPlacement(p: Page, key: Datum, value: Datum, q: Page)
    requires Valid(p) && Insert(p, key, value) == Ok(q)
    ensures key !in Keys(p) && InsertedAt(p, key, value) !in p.cells
    ensures q.offsets == p.offsets[..InsertPos(Keys(p), key)] + [InsertedAt(p, key, value)]
                         + p.offsets[InsertPos(Keys(p), key)..]
    ensures q.cells == p.cells[InsertedAt(p, key, value) := SizedCell(key, value)]
    ensures q.header.pageSize == p.header.pageSize + NewCellSize(key, value) + 1
  {
    var n, cell := NewCellSize(key, value), SizedCell(key, value);
    SizedCellFacts(key, value);
    InsertOkShape(p, key, value, q);
    if TailFits(p, n) {
      TailShape(p, cell, n, q);
    } else {
      var i := FirstFit(p.freeblocks, n).value;
      BlockShape(p, cell, n, TopBytes(p.freeblocks[i], n), i, q);
      BlockTopFresh(p, n, i);
    }
  }

  /**
    A successful insert files the new key at its sorted position and addresses a cell
    holding the key and value there.
   */
  lemma InsertFilesKey(p: Page, key: Datum, value: Datum, q: Page)
    requires Valid(p) && Insert(p, key, value) == Ok(q)
    ensures DirectoryOk(q) && |q.offsets| == |p.offsets| + 1
    ensures Keys(q) == Keys(p)[..InsertPos(Keys(p), key)] + [key] + Keys(p)[InsertPos(Keys(p), key)..]
    ensures q.cells[q.offsets[InsertPos(Keys(p), key)]].key == key
    ensures q.cells[q.offsets[InsertPos(Keys(p), key)]].value == value
  {
    SizedCellFacts(key, value);
    InsertPlacement(p, key, value, q);
    AddCellFacts(p, InsertedAt(p, key, value), SizedCell(key, value), InsertPos(Keys(p), key), q);
  }

  /** A successful insert leaves every old cell where and as it was. */
  lemma InsertKeepsCells(p: Page, key: Datum, value: Datum, q: Page)
    requires Valid(p) && Insert(p, key, value) == Ok(q)
    ensures forall o :: o in p.cells ==> o in q.cells && q.cells[o] == p.cells[o]
  {
    InsertPlacement(p, key, value, q);
  }

  /**
    After a successful insert the key is found at its sorted position by exact search,
    lower-bound search returns its cell, and the keys are the old ones plus the new key.
   */
  lemma InsertThenFind(p: Page, key: Datum, value: Datum, q: Page)
    requires Valid(p) && Insert(p, key, value) == Ok(q)
    ensures Valid(q)
    ensures IndexOf(Keys(q), key) == Some(InsertPos(Keys(p), key))
    ensures LowerBound(q, key).Some?
    ensures LowerBound(q, key).value.key == key && LowerBound(q, key).value.value == value
    ensures forall k :: k in Keys(q) <==> k in Keys(p) || k == key
  {
    InsertPreservesValid(p, key, value, q);
    InsertFilesKey(p, key, value, q);
    var pos := InsertPos(Keys(p), key);
    SplicedKeys(Keys(p), key, pos, Keys(q));
    LastAtMostExact(Keys(q), key, pos);
  }

  /**
    Every key present before a successful insert is still found afterwards, and lower-bound
    search for it returns the very cell it returned before.
   */
  lemma InsertKeepsFound(p: Page, key: Datum, value: Datum, q: Page)
    requires Valid(p) && Insert(p, key, value) == Ok(q)
    ensures Valid(q)
    ensures forall k :: k in Keys(p) ==> IndexOf(Keys(q), k).Some? && LowerBound(q, k) == LowerBound(p, k)
  {
    InsertPreservesValid(p, key, value, q);
    InsertPlacement(p, key, value, q);
    InsertKeepsCells(p, key, value, q);
    SplicedStillFound(p, q, InsertedAt(p, key, value), InsertPos(Keys(p), key));
  }

  /** When the tail check passes, a new key is stored. */
  lemma TailInsert(p: Page, key: Datum, value: Datum)
    requires Indexed(p.offsets, p.cells) && key !in Keys(p) && TailFits(p, NewCellSize(key, value))
    ensures Insert(p, key, value).Ok?
  {
    InsertTailCase(p, key, value);
  }

  /**
    A tail insert puts the cell right below the old boundary, which drops by exactly the
    size plus one; the cell lies above the new boundary, the free list is untouched and
    the cell overlaps no cell that was there.
   */
  lemma TailInsertFacts(p: Page, key: Datum, value: Datum, q: Page)
    requires Valid(p) && TailFits(p, NewCellSize(key, value)) && Insert(p, key, value) == Ok(q)
    ensures q.header.offset + NewCellSize(key, value) + 1 == p.header.offset
    ensures p.header.offset - NewCellSize(key, value) in q.cells
    ensures q.cells[p.header.offset - NewCellSize(key, value)].key == key
    ensures q.cells[p.header.offset - NewCellSize(key, value)].value == value
    ensures q.freeblocks == p.freeblocks
    ensures forall o :: o in p.cells ==>
      && o in q.cells && q.cells[o] == p.cells[o]
      && Apart(p.header.offset - NewCellSize(key, value), NewCellSize(key, value),
               o, SerializedSize(p.cells[o]))
  {
    var n := NewCellSize(key, value);
    SizedCellFacts(key, value);
    InsertOkShape(p, key, value, q);
    TailShape(p, SizedCell(key, value), n, q);
    forall o | o in p.cells
      ensures o != p.header.offset - n
    {
      assert p.header.offset < o;
    }
  }

  /** When the tail check fails but some free block is large enough, a new key is stored. */
  lemma BlockInsert(p: Page, key: Datum, value: Datum)
    requires Indexed(p.offsets, p.cells) && key !in Keys(p)
    requires !TailFits(p, NewCellSize(key, value))
    requires exists j :: 0 <= j < |p.freeblocks| && NewCellSize(key, value) <= p.freeblocks[j].size
    ensures Insert(p, key, value).Ok?
  {
    var i := FirstFit(p.freeblocks, NewCellSize(key, value)).value;
    InsertBlockCase(p, key, value, i);
  }

  /**
    A block insert takes the top bytes of the first free block large enough: the boundary
    stays, the block shrinks to its remainder (or leaves the list when fewer than 4 bytes
    remain), and the cell overlaps no remaining free block and no cell that was there.
   */
  lemma BlockInsertFacts(p: Page, key: Datum, value: Datum, i: nat, q: Page)
    requires Valid(p) && !TailFits(p, NewCellSize(key, value))
    requires FirstFit(p.freeblocks, NewCellSize(key, value)) == Some(i)
    requires Insert(p, key, value) == Ok(q)
    ensures q.header.offset == p.header.offset
    ensures TopBytes(p.freeblocks[i], NewCellSize(key, value)) in q.cells
    ensures q.cells[TopBytes(p.freeblocks[i], NewCellSize(key, value))].key == key
    ensures q.cells[TopBytes(p.freeblocks[i], NewCellSize(key, value))].value == value
    ensures q.freeblocks == TakeBlock(p.freeblocks, i, NewCellSize(key, value))
    ensures p.freeblocks[i].size - NewCellSize(key, value) >= MIN_FRAGMENT ==>
      q.freeblocks[i] == FreeBlock(p.freeblocks[i].offset, p.freeblocks[i].size - NewCellSize(key, value))
    ensures p.freeblocks[i].size - NewCellSize(key, value) < MIN_FRAGMENT ==>
      |q.freeblocks| + 1 == |p.freeblocks|
  {
    var n, cell := NewCellSize(key, value), SizedCell(key, value);
    SizedCellFacts(key, value);
    InsertOkShape(p, key, value, q);
    BlockShape(p, cell, n, TopBytes(p.freeblocks[i], n), i, q);
    TakeBlockSums(p.freeblocks, i, n, q.freeblocks);
  }

  /** The cell a block insert places overlaps no remaining free block and no cell that was there. */
  lemma BlockInsertApart(p: Page, key: Datum, value: Datum, i: nat, q: Page)
    requires Valid(p) && !TailFits(p, NewCellSize(key, value))
    requires FirstFit(p.freeblocks, NewCellSize(key, value)) == Some(i)
    requires Insert(p, key, value) == Ok(q)
    ensures forall j :: 0 <= j < |q.freeblocks| ==>
      Apart(TopBytes(p.freeblocks[i], NewCellSize(key, value)), NewCellSize(key, value),
            q.freeblocks[j].offset, q.freeblocks[j].size)
    ensures forall o :: o in p.cells ==>
      Apart(o, SerializedSize(p.cells[o]), TopBytes(p.freeblocks[i], NewCellSize(key, value)),
            NewCellSize(key, value))
  {
    var n, cell := NewCellSize(key, value), SizedCell(key, value);
    var at := TopBytes(p.freeblocks[i], n);
    SizedCellFacts(key, value);
    InsertOkShape(p, key, value, q);
    BlockShape(p, cell, n, at, i, q);
    BlockTopFresh(p, n, i);
    BlockCellApart(p, q, cell, i);
    forall j | 0 <= j < |q.freeblocks|
      ensures Apart(at, n, q.freeblocks[j].offset, q.freeblocks[j].size)
    {
      assert at in q.cells && q.cells[at] == cell;
    }
  }

  // ---------------------------------------------------------------------------
  // Counters and termination

  /** Both `u16` header counters, and the directory's length, stay in `u16` range on every valid page. */
  lemma CountersFitU16(p: Page)
    requires Valid(p)
    ensures p.header.pageSize < 0x1_0000 && p.header.offset < 0x1_0000
    ensures |p.offsets| < 0x1_0000
  {
    CellBytesAtLeast(p.offsets, p.cells);
  }

  /** The room an insert can still use: the boundary plus the free-list total. */
  function Room(p: Page): nat {
    p.header.offset + FreeBytes(p.freeblocks)
  }

  /** Every successful insert uses up room: a tail insert lowers the boundary, a reuse shrinks the free list. */
  lemma InsertUsesRoom(p: Page, key: Datum, value: Datum, q: Page)
    requires Indexed(p.offsets, p.cells) && Insert(p, key, value) == Ok(q)
    ensures Room(q) < Room(p)
  {
    var n, cell := NewCellSize(key, value), SizedCell(key, value);
    SizedCellFacts(key, value);
    InsertOkShape(p, key, value, q);
    if TailFits(p, n) {
      TailShape(p, cell, n, q);
    } else {
      var i := FirstFit(p.freeblocks, n).value;
      BlockShape(p, cell, n, TopBytes(p.freeblocks[i], n), i, q);
      TakeBlockSums(p.freeblocks, i, n, q.freeblocks);
    }
  }

  /** `insert` applied to each entry in turn, stopping at the first failure. */
  function InsertAll(p: Page, entries: seq<(Datum, Datum)>): (r: Result<Page, PageError>)
    requires Valid(p)
    ensures r.Ok? ==> Valid(r.value)
    decreases |entries|
  {
    if |entries| == 0 then Ok(p)
    else
      match Insert(p, entries[0].0, entries[0].1)
      case Err(e) => Err(e)
      case Ok(q) =>
        InsertPreservesValid(p, entries[0].0, entries[0].1, q);
        InsertAll(q, entries[1..])
  }

  /** One successful insert: the page stays valid, loses room, and gains exactly the new key. */
  lemma InsertStep(p: Page, key: Datum, value: Datum, q: Page)
    requires Valid(p) && Insert(p, key, value) == Ok(q)
    ensures Valid(q) && Room(q) < Room(p)
    ensures forall k :: k in Keys(q) <==> k in Keys(p) || k == key
  {
    InsertThenFind(p, key, value, q);
    InsertUsesRoom(p, key, value, q);
  }

  /**
    Inserting more distinct new keys than the page has room for ends in "Not enough
    space": repeated inserts cannot go on for ever.
   */
  lemma {:induction false} RepeatedInsertsFail(p: Page, entries: seq<(Datum, Datum)>)
    requires Valid(p)
    requires |entries| > Room(p)
    requires forall i, j :: 0 <= i < j < |entries| ==> entries[i].0 != entries[j].0
    requires forall i :: 0 <= i < |entries| ==> entries[i].0 !in Keys(p)
    ensures InsertAll(p, entries) == Err(NotEnoughSpace)
    decreases |entries|
  {
    var (key, value) := entries[0];
    match Insert(p, key, value)
    case Err(_) =>
      InsertNewKeyError(p, key, value);
    case Ok(q) =>
      InsertStep(p, key, value, q);
      var rest := entries[1..];
      forall i | 0 <= i < |rest|
        ensures rest[i].0 !in Keys(q)
      {
        assert rest[i] == entries[i + 1];
      }
      forall i, j | 0 <= i < j < |rest|
        ensures rest[i].0 != rest[j].0
      {
        assert rest[i] == entries[i + 1] && rest[j] == entries[j + 1];
      }
      RepeatedInsertsFail(q, rest);
  }
}
