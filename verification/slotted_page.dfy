/**
  The slotted page (src/lib/storage/slotted_page.rs): a header with the free boundary
  and a used-bytes counter, a slot directory of cell offsets kept sorted by key, the
  cells themselves keyed by offset, and a list of free blocks reclaimed from removed
  cells. Cells are carved downwards from the end of the page; a cell that no longer
  fits there goes into the first free block large enough to hold it.
 */
module SlottedPage {
  import opened Basics
  import opened Datums
  import opened Cells

  /** The initial free boundary (`PAGE_SIZE`, a `u16`). */
  const PAGE_SIZE: nat := 4095
  /**
    `size_of::<PageHeader<K, V>>()` on a 64-bit target: a `u64` page id, an
    `Option<Box<..>>` pointer, three `u16` fields and a one-byte enum, padded to 24.
   */
  const HDR: nat := 24
  /** Bytes one directory entry is charged in the tail check. */
  const SLOT_BYTES: nat := 2
  /** A free block left with fewer bytes than this is dropped from the free list. */
  const MIN_FRAGMENT: nat := 4

  datatype PageType = Leaf | Internal

  /**
    `pageSize` counts used bytes (each cell's size plus one); `offset` is the free
    boundary: every cell and free block starts above it. The right sibling is kept as
    a page id, not as an owned page.
   */
  datatype PageHeader = PageHeader(
    pageType: PageType,
    pageId: nat,
    right: Option<nat>,
    pageSize: nat,
    offset: nat,
    firstFreeblock: nat)

  datatype FreeBlock = FreeBlock(offset: nat, size: nat)

  datatype Page = Page(
    header: PageHeader,
    offsets: seq<nat>,
    cells: map<nat, Cell>,
    freeblocks: seq<FreeBlock>)

  /** Where `can_insert` places a cell: from the tail, or at `at` inside free block `block`. */
  datatype Position = Free(size: nat) | Occupied(at: nat, block: nat)

  datatype PageError = NotEnoughSpace | NoSuchKey | DuplicateKey

  // ---------------------------------------------------------------------------
  // The directory and its keys

  /** Every directory entry addresses a cell. */
  predicate Indexed(offsets: seq<nat>, cells: map<nat, Cell>) {
    forall i :: 0 <= i < |offsets| ==> offsets[i] in cells
  }

  /** The keys of the cells, in directory order. */
  function KeysOf(offsets: seq<nat>, cells: map<nat, Cell>): (keys: seq<Datum>)
    requires Indexed(offsets, cells)
    ensures |keys| == |offsets|
    ensures forall i :: 0 <= i < |offsets| ==> keys[i] == cells[offsets[i]].key
  {
    seq(|offsets|, i requires 0 <= i < |offsets| => cells[offsets[i]].key)
  }

  function Keys(p: Page): seq<Datum>
    requires Indexed(p.offsets, p.cells)
  {
    KeysOf(p.offsets, p.cells)
  }

  /** What a binary search over the directory relies on. */
  predicate Searchable(p: Page) {
    Indexed(p.offsets, p.cells) && StrictlySorted(Keys(p))
  }

  // ---------------------------------------------------------------------------
  // Space accounting

  /** Total size of the cells the directory addresses. */
  function CellBytes(offsets: seq<nat>, cells: map<nat, Cell>): nat
    requires Indexed(offsets, cells)
  {
    if |offsets| == 0 then 0
    else SerializedSize(cells[offsets[0]]) + CellBytes(offsets[1..], cells)
  }

  /** Total size of the free blocks. */
  function FreeBytes(blocks: seq<FreeBlock>): nat {
    if |blocks| == 0 then 0 else blocks[0].size + FreeBytes(blocks[1..])
  }

  /** The byte ranges `[a, a + asize)` and `[b, b + bsize)` do not overlap. */
  predicate Apart(a: nat, asize: nat, b: nat, bsize: nat) {
    a + asize <= b || b + bsize <= a
  }

  // ---------------------------------------------------------------------------
  // The page invariant

  /** The directory is sorted by key and addresses exactly the stored cells. */
  predicate DirectoryOk(p: Page) {
    && Searchable(p)
    && (forall o :: o in p.cells ==> o in p.offsets)
  }

  /** Every stored cell has asked for its size, and the cache holds the true size. */
  predicate CachesOk(p: Page) {
    forall o :: o in p.cells ==> p.cells[o].cachedSize == Some(SerializedSize(p.cells[o]))
  }

  /** Cells and free blocks lie strictly above the free boundary and inside the page. */
  predicate InBounds(p: Page) {
    && p.header.offset <= PAGE_SIZE
    && (forall o :: o in p.cells ==>
          p.header.offset < o && o + SerializedSize(p.cells[o]) <= PAGE_SIZE)
    && (forall i :: 0 <= i < |p.freeblocks| ==>
          p.header.offset < p.freeblocks[i].offset &&
          p.freeblocks[i].offset + p.freeblocks[i].size <= PAGE_SIZE)
  }

  /** No two cells, no two free blocks, and no cell and free block overlap. */
  predicate NoOverlap(p: Page) {
    && (forall o1, o2 :: o1 in p.cells && o2 in p.cells && o1 != o2 ==>
          Apart(o1, SerializedSize(p.cells[o1]), o2, SerializedSize(p.cells[o2])))
    && (forall i, j :: 0 <= i < j < |p.freeblocks| ==>
          Apart(p.freeblocks[i].offset, p.freeblocks[i].size,
                p.freeblocks[j].offset, p.freeblocks[j].size))
    && (forall o, i :: o in p.cells && 0 <= i < |p.freeblocks| ==>
          Apart(o, SerializedSize(p.cells[o]), p.freeblocks[i].offset, p.freeblocks[i].size))
  }

  /**
    The used-bytes counter is the sum of each live cell's size plus one, and cells and
    free blocks together never need more room than lies above the boundary.
   */
  predicate Accounted(p: Page)
    requires Indexed(p.offsets, p.cells)
  {
    && p.header.pageSize == CellBytes(p.offsets, p.cells) + |p.offsets|
    && CellBytes(p.offsets, p.cells) + FreeBytes(p.freeblocks) + p.header.offset <= PAGE_SIZE
  }

  predicate Valid(p: Page) {
    && DirectoryOk(p)
    && CachesOk(p)
    && InBounds(p)
    && NoOverlap(p)
    && Accounted(p)
  }

  // ---------------------------------------------------------------------------
  // Construction

  /** `SlottedPage::new` with `PageHeader::new`: empty, boundary at `PAGE_SIZE`. */
  function NewPage(pageId: nat, right: Option<nat>, pageType: PageType): (p: Page)
    ensures Valid(p)
    ensures Keys(p) == [] && p.freeblocks == []
    ensures p.header.offset == PAGE_SIZE && p.header.pageSize == 0
  {
    Page(PageHeader(pageType, pageId, right, 0, PAGE_SIZE, 0), [], map[], [])
  }

  // ---------------------------------------------------------------------------
  // Allocation

  /** The tail check: room for the cell, its slot and two more bytes below the boundary. */
  predicate TailFits(p: Page, required: nat) {
    p.header.offset >= HDR + SLOT_BYTES * (|p.offsets| + 1) + required + 2
  }

  /** The index of the first free block that can hold `required` bytes. */
  function FirstFit(blocks: seq<FreeBlock>, required: nat): (r: Option<nat>)
    ensures r.Some? ==>
      r.value < |blocks| && required <= blocks[r.value].size &&
      forall j :: 0 <= j < r.value ==> blocks[j].size < required
    ensures r.None? ==> forall j :: 0 <= j < |blocks| ==> blocks[j].size < required
  {
    if |blocks| == 0 then None
    else if required <= blocks[0].size then Some(0)
    else match FirstFit(blocks[1..], required)
      case Some(i) => Some(i + 1)
      case None => None
  }

  /**
    `can_insert`: the tail if it fits; otherwise the top `required` bytes of the first
    free block that is large enough; otherwise "Not enough space".
   */
  function CanInsert(p: Page, required: nat): (r: Result<Position, PageError>)
    ensures r.Ok? && r.value.Free? <==> TailFits(p, required)
    ensures r.Ok? && r.value.Free? ==> r.value.size == required
    ensures r.Ok? && r.value.Occupied? ==>
      var i := r.value.block;
      && i < |p.freeblocks|
      && required <= p.freeblocks[i].size
      && (forall j :: 0 <= j < i ==> p.freeblocks[j].size < required)
      && r.value.at == TopBytes(p.freeblocks[i], required)
    ensures r.Err? <==>
      !TailFits(p, required) && forall j :: 0 <= j < |p.freeblocks| ==> p.freeblocks[j].size < required
    ensures r.Err? ==> r.error == NotEnoughSpace
  {
    if TailFits(p, required) then Ok(Free(required))
    else match FirstFit(p.freeblocks, required)
      case Some(i) => Ok(Occupied(TopBytes(p.freeblocks[i], required), i))
      case None => Err(NotEnoughSpace)
  }

  /** Where the top `n` bytes of a block start. */
  function TopBytes(b: FreeBlock, n: nat): (at: nat)
    requires n <= b.size
    ensures at + n == b.offset + b.size
  {
    b.offset + b.size - n
  }

  /** Shrinks block `i` to its unused low part, or drops it when that part is too small. */
  function TakeBlock(blocks: seq<FreeBlock>, i: nat, required: nat): seq<FreeBlock>
    requires i < |blocks| && required <= blocks[i].size
  {
    var remaining := blocks[i].size - required;
    if remaining >= MIN_FRAGMENT then blocks[i := FreeBlock(blocks[i].offset, remaining)]
    else blocks[..i] + blocks[i + 1..]
  }

  /** Where a new key goes: after every key below it. */
  function InsertPos(keys: seq<Datum>, key: Datum): (pos: nat)
    ensures pos <= |keys|
    ensures forall i :: 0 <= i < pos ==> Less(keys[i], key)
    ensures pos < |keys| ==> !Less(keys[pos], key)
  {
    if |keys| == 0 || !Less(keys[0], key) then 0 else 1 + InsertPos(keys[1..], key)
  }

  /** Stores `cell` at `at` and files its offset in the directory by key. */
  function AddCell(p: Page, at: nat, cell: Cell): Page
    requires Indexed(p.offsets, p.cells)
  {
    var pos := InsertPos(Keys(p), cell.key);
    p.(offsets := p.offsets[..pos] + [at] + p.offsets[pos..], cells := p.cells[at := cell])
  }

  /** The `Position::Free` arm of `insert`: the cell ends at the old boundary. */
  function PlaceAtTail(p: Page, cell: Cell, n: nat): Page
    requires Indexed(p.offsets, p.cells) && TailFits(p, n)
  {
    var at := p.header.offset - n;
    var q := AddCell(p, at, cell);
    q.(header := q.header.(offset := at - 1, pageSize := p.header.pageSize + n + 1))
  }

  /** The `Position::Occupied` arm of `insert`: the cell takes the top bytes of block `i`. */
  function PlaceInBlock(p: Page, cell: Cell, n: nat, at: nat, i: nat): Page
    requires Indexed(p.offsets, p.cells) && i < |p.freeblocks| && n <= p.freeblocks[i].size
  {
    var q := AddCell(p, at, cell);
    q.(header := q.header.(pageSize := p.header.pageSize + n + 1),
       freeblocks := TakeBlock(p.freeblocks, i, n))
  }

  /**
    `insert`: makes the cell, asks for its size, and places it where `can_insert` says.
    A tail cell lands just below the old boundary, which drops by the size plus one; a
    reused block gives up its top bytes. The used-bytes counter grows by the size plus
    one. A key already present is refused.
   */
  function Insert(p: Page, key: Datum, value: Datum): (r: Result<Page, PageError>)
    requires Indexed(p.offsets, p.cells)
  {
    if key in Keys(p) then Err(DuplicateKey)
    else
      var (size, cell) := Size(NewCell(key, value));
      match CanInsert(p, size)
      case Err(e) => Err(e)
      case Ok(Free(n)) => Ok(PlaceAtTail(p, cell, n))
      case Ok(Occupied(at, i)) => Ok(PlaceInBlock(p, cell, size, at, i))
  }

  // ---------------------------------------------------------------------------
  // Search

  /** Reference definition of exact search: the first position holding `key`. */
  function IndexOf(keys: seq<Datum>, key: Datum): (r: Option<nat>)
    ensures r.Some? ==> r.value < |keys| && keys[r.value] == key
    ensures r.Some? ==> forall j :: 0 <= j < r.value ==> keys[j] != key
    ensures r.None? <==> key !in keys
  {
    if |keys| == 0 then None
    else if keys[0] == key then Some(0)
    else match IndexOf(keys[1..], key)
      case Some(i) => Some(i + 1)
      case None => None
  }

  /** Reference definition of lower-bound search: the last position whose key is not above `key`. */
  function LastAtMost(keys: seq<Datum>, key: Datum): (r: Option<nat>)
    ensures r.Some? ==>
      r.value < |keys| && !Less(key, keys[r.value]) &&
      forall j :: r.value < j < |keys| ==> Less(key, keys[j])
    ensures r.None? ==> forall j :: 0 <= j < |keys| ==> Less(key, keys[j])
  {
    if |keys| == 0 then None
    else if !Less(key, keys[|keys| - 1]) then Some(|keys| - 1)
    else LastAtMost(keys[..|keys| - 1], key)
  }

  /** The cell `find_key` should return. */
  function LowerBound(p: Page, key: Datum): Option<Cell>
    requires Indexed(p.offsets, p.cells)
  {
    match LastAtMost(Keys(p), key)
    case Some(i) => Some(p.cells[p.offsets[i]])
    case None => None
  }

  /** In a sorted directory the key's position is the only one holding it. */
  lemma IndexOfSorted(keys: seq<Datum>, key: Datum, i: nat)
    requires StrictlySorted(keys) && i < |keys| && keys[i] == key
    ensures IndexOf(keys, key) == Some(i)
  {
    var r := IndexOf(keys, key);
    if r.value != i {
      SortedDistinct(keys, r.value, i);
    }
  }

  /** In a sorted directory an exact match is the lower bound. */
  lemma LastAtMostExact(keys: seq<Datum>, key: Datum, i: nat)
    requires StrictlySorted(keys) && i < |keys| && keys[i] == key
    ensures LastAtMost(keys, key) == Some(i)
  {
    LessIrreflexive(key);
  }

  /** If the keys below position `k` are smaller and the rest larger, the lower bound is `k - 1`. */
  lemma LastAtMostSplit(keys: seq<Datum>, key: Datum, k: nat)
    requires k <= |keys|
    requires forall j :: 0 <= j < k ==> Less(keys[j], key)
    requires forall j :: k <= j < |keys| ==> Less(key, keys[j])
    ensures LastAtMost(keys, key) == if k == 0 then None else Some(k - 1)
  {
    var r := LastAtMost(keys, key);
    if r.Some? {
      if r.value < k - 1 {
        LessAsymmetric(keys[k - 1], key);
      }
    } else if k > 0 {
      LessAsymmetric(keys[0], key);
    }
  }

  /**
    `find_key_index`: binary search for the exact key. It answers with the directory
    position holding the key, and with `None` exactly when no live cell has it.
   */
  method FindKeyIndex(p: Page, key: Datum) returns (r: Option<nat>)
    requires Searchable(p)
    ensures r.Some? ==> r.value < |p.offsets| && p.cells[p.offsets[r.value]].key == key
    ensures r.None? <==> key !in Keys(p)
    ensures r == IndexOf(Keys(p), key)
  {
    ghost var keys := Keys(p);
    var left := 0;
    var right := |p.offsets| - 1;
    while left <= right
      invariant 0 <= left <= |p.offsets| && -1 <= right < |p.offsets|
      invariant forall j :: 0 <= j < left ==> Less(keys[j], key)
      invariant forall j :: right < j < |p.offsets| ==> Less(key, keys[j])
      decreases right - left
    {
      var mid := (left + right) / 2;
      var cell := p.cells[p.offsets[mid]];
      if cell.key == key {
        IndexOfSorted(keys, key, mid);
        return Some(mid);
      } else if Less(cell.key, key) {
        SortedBelow(keys, key, mid);
        left := mid + 1;
      } else {
        SortedAbove(keys, key, mid);
        right := mid - 1;
      }
    }
    forall j | 0 <= j < |keys|
      ensures keys[j] != key
    {
      LessIrreflexive(key);
    }
    return None;
  }

  /** In a sorted sequence, a key below `key` has every earlier key below `key` too. */
  lemma SortedBelow(keys: seq<Datum>, key: Datum, mid: nat)
    requires StrictlySorted(keys) && mid < |keys| && Less(keys[mid], key)
    ensures forall j :: 0 <= j <= mid ==> Less(keys[j], key)
  {
    forall j | 0 <= j < mid
      ensures Less(keys[j], key)
    {
      LessTransitive(keys[j], keys[mid], key);
    }
  }

  /** In a sorted sequence, a key neither equal to nor below `key` has every later key above `key`. */
  lemma SortedAbove(keys: seq<Datum>, key: Datum, mid: nat)
    requires StrictlySorted(keys) && mid < |keys| && keys[mid] != key && !Less(keys[mid], key)
    ensures forall j :: mid <= j < |keys| ==> Less(key, keys[j])
  {
    LessTotal(keys[mid], key);
    forall j | mid < j < |keys|
      ensures Less(key, keys[j])
    {
      LessTransitive(key, keys[mid], keys[j]);
    }
  }

  /**
    `find_key`: binary search that returns the cell with the key when present, otherwise
    the cell with the greatest key below it, otherwise `None` (see `LowerBoundShape`).
   */
  method FindKey(p: Page, key: Datum) returns (r: Option<Cell>)
    requires Searchable(p)
    ensures r == LowerBound(p, key)
    ensures key in Keys(p) ==> r.Some? && r.value.key == key
  {
    ghost var keys := Keys(p);
    var left := 0;
    var right := |p.offsets| - 1;
    var result: Option<Cell> := None;
    while left <= right
      invariant 0 <= left <= |p.offsets| && -1 <= right < |p.offsets|
      invariant forall j :: 0 <= j < left ==> Less(keys[j], key)
      invariant forall j :: right < j < |p.offsets| ==> Less(key, keys[j])
      invariant left == 0 ==> result == None
      invariant left > 0 ==> result == Some(p.cells[p.offsets[left - 1]])
      decreases right - left
    {
      var mid := (left + right) / 2;
      var cell := p.cells[p.offsets[mid]];
      if cell.key == key {
        LastAtMostExact(keys, key, mid);
        LowerBoundShape(p, key);
        return Some(cell);
      } else if Less(cell.key, key) {
        SortedBelow(keys, key, mid);
        result := Some(cell);
        left := mid + 1;
      } else {
        SortedAbove(keys, key, mid);
        right := mid - 1;
      }
    }
    LastAtMostSplit(keys, key, left);
    LowerBoundShape(p, key);
    return result;
  }

  /** What the lower-bound cell means in a sorted directory. */
  lemma LowerBoundShape(p: Page, key: Datum)
    requires Searchable(p)
    ensures key in Keys(p) ==> LowerBound(p, key).Some? && LowerBound(p, key).value.key == key
    ensures LowerBound(p, key).Some? ==>
      var c := LowerBound(p, key).value;
      && (c.key == key || Less(c.key, key))
      && forall j :: 0 <= j < |Keys(p)| && Less(Keys(p)[j], key) ==>
           Keys(p)[j] == c.key || Less(Keys(p)[j], c.key)
    ensures LowerBound(p, key).None? <==> forall j :: 0 <= j < |Keys(p)| ==> Less(key, Keys(p)[j])
  {
    var keys := Keys(p);
    if key in keys {
      var i :| 0 <= i < |keys| && keys[i] == key;
      LastAtMostExact(keys, key, i);
    }
    var r := LastAtMost(keys, key);
    if r.Some? {
      LessTotal(keys[r.value], key);
      forall j | 0 <= j < |keys| && Less(keys[j], key)
        ensures keys[j] == keys[r.value] || Less(keys[j], keys[r.value])
      {
        if j > r.value {
          LessAsymmetric(keys[j], key);
        }
      }
    } else if |keys| > 0 {
      assert Less(key, keys[0]);
    }
  }

  // ---------------------------------------------------------------------------
  // Removal

  /**
    `remove`: drops the key's directory entry and cell, returns the cell's bytes to the
    free list and lowers the used-bytes counter by the size plus one.
   */
  function Remove(p: Page, key: Datum): (r: Result<Page, PageError>)
    requires Indexed(p.offsets, p.cells) && CachesOk(p) && Accounted(p)
  {
    match IndexOf(Keys(p), key)
    case None => Err(NoSuchKey)
    case Some(i) =>
      var o := p.offsets[i];
      var (size, _) := Size(p.cells[o]);
      CellBytesAt(p.offsets, p.cells, i);
      Ok(p.(header := p.header.(pageSize := p.header.pageSize - size - 1),
            offsets := p.offsets[..i] + p.offsets[i + 1..],
            cells := p.cells - {o},
            freeblocks := p.freeblocks + [FreeBlock(o, size)]))
  }

  /** One cell's share of the directory's total. */
  lemma {:induction false} CellBytesAt(offsets: seq<nat>, cells: map<nat, Cell>, i: nat)
    requires Indexed(offsets, cells) && i < |offsets|
    ensures CellBytes(offsets, cells)
      == CellBytes(offsets[..i], cells) + SerializedSize(cells[offsets[i]]) + CellBytes(offsets[i + 1..], cells)
    decreases i
  {
    var head := SerializedSize(cells[offsets[0]]);
    var tail := offsets[1..];
    assert CellBytes(offsets, cells) == head + CellBytes(tail, cells);
    if i == 0 {
      assert offsets[..0] == [] && offsets[1..] == tail;
    } else {
      CellBytesAt(tail, cells, i - 1);
      assert tail[..i - 1] == offsets[..i][1..];
      assert tail[i - 1] == offsets[i];
      assert tail[i..] == offsets[i + 1..];
      assert CellBytes(offsets[..i], cells) == head + CellBytes(offsets[..i][1..], cells);
    }
  }
}
