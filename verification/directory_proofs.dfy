/**
  The slot directory under insertion and removal: splicing an entry in at the key's sorted
  position, or dropping one, keeps the directory sorted, keeps every other entry addressing
  its old cell, and moves the directory's byte total by exactly one cell's size.
 */
module DirectoryProofs {
  import opened Basics
  import opened Datums
  import opened Cells
  import opened SlottedPage
  import opened PageSums

  // ---------------------------------------------------------------------------
  // Splicing an entry in

  /** Every key from the insert position on lies above the new key. */
  lemma InsertPosAbove(keys: seq<Datum>, key: Datum)
    requires StrictlySorted(keys) && key !in keys
    ensures forall j :: InsertPos(keys, key) <= j < |keys| ==> Less(key, keys[j])
  {
    var pos := InsertPos(keys, key);
    if pos < |keys| {
      LessTotal(keys[pos], key);
      forall j | pos < j < |keys|
        ensures Less(key, keys[j])
      {
        LessTransitive(key, keys[pos], keys[j]);
      }
    }
  }

  /** A key between the two halves of a sorted sequence can be spliced in between them. */
  lemma SortedSplice(keys: seq<Datum>, key: Datum, pos: nat)
    requires StrictlySorted(keys) && pos <= |keys|
    requires forall i :: 0 <= i < pos ==> Less(keys[i], key)
    requires forall j :: pos <= j < |keys| ==> Less(key, keys[j])
    ensures StrictlySorted(keys[..pos] + [key] + keys[pos..])
  {
    var s := keys[..pos] + [key] + keys[pos..];
    forall a, b | 0 <= a < b < |s|
      ensures Less(s[a], s[b])
    {
      var x := if a < pos then keys[a] else if a == pos then key else keys[a - 1];
      var y := if b < pos then keys[b] else if b == pos then key else keys[b - 1];
      assert s[a] == x && s[b] == y;
      if a < pos && pos < b {
        LessTransitive(keys[a], key, keys[b - 1]);
      }
    }
  }

  /** Inserting an absent key at its position keeps a strictly sorted sequence strictly sorted. */
  lemma InsertSortedKeys(keys: seq<Datum>, key: Datum)
    requires StrictlySorted(keys) && key !in keys
    ensures StrictlySorted(keys[..InsertPos(keys, key)] + [key] + keys[InsertPos(keys, key)..])
  {
    InsertPosAbove(keys, key);
    SortedSplice(keys, key, InsertPos(keys, key));
  }

  /** Splicing an offset into the directory: the old entries keep their cells. */
  lemma SpliceIndexed(offs: seq<nat>, cells: map<nat, Cell>, at: nat, cell: Cell, pos: nat,
                      o2: seq<nat>, c2: map<nat, Cell>)
    requires Indexed(offs, cells) && at !in cells && pos <= |offs|
    requires o2 == offs[..pos] + [at] + offs[pos..] && c2 == cells[at := cell]
    ensures Indexed(o2, c2)
    ensures forall j :: 0 <= j < |o2| && j != pos ==> o2[j] != at && c2[o2[j]] == cells[o2[j]]
    ensures KeysOf(o2, c2) == KeysOf(offs, cells)[..pos] + [cell.key] + KeysOf(offs, cells)[pos..]
  {
    var keys := KeysOf(offs, cells);
    forall j | 0 <= j < |o2|
      ensures o2[j] in c2
      ensures j != pos ==> o2[j] != at && c2[o2[j]] == cells[o2[j]]
      ensures c2[o2[j]].key == (keys[..pos] + [cell.key] + keys[pos..])[j]
    {
      if j < pos {
        assert o2[j] == offs[j];
      } else if j > pos {
        assert o2[j] == offs[j - 1];
      }
    }
  }

  /** Splicing an offset into the directory adds its cell's size to the total. */
  lemma SpliceBytes(offs: seq<nat>, cells: map<nat, Cell>, at: nat, cell: Cell, pos: nat,
                    o2: seq<nat>, c2: map<nat, Cell>)
    requires Indexed(offs, cells) && at !in cells && pos <= |offs|
    requires o2 == offs[..pos] + [at] + offs[pos..] && c2 == cells[at := cell]
    ensures Indexed(o2, c2) && CellBytes(o2, c2) == CellBytes(offs, cells) + SerializedSize(cell)
  {
    SpliceIndexed(offs, cells, at, cell, pos, o2, c2);
    assert offs == offs[..pos] + offs[pos..];
    CellBytesAppend(offs[..pos] + [at], offs[pos..], c2);
    CellBytesAppend(offs[..pos], [at], c2);
    CellBytesFrame(offs[..pos], c2, cells);
    CellBytesFrame(offs[pos..], c2, cells);
    CellBytesAppend(offs[..pos], offs[pos..], cells);
  }

  /** Splicing an offset into the directory keeps every stored cell filed, and adds only it. */
  lemma SpliceCovers(offs: seq<nat>, cells: map<nat, Cell>, at: nat, cell: Cell, pos: nat,
                     o2: seq<nat>, c2: map<nat, Cell>)
    requires pos <= |offs| && forall o :: o in cells ==> o in offs
    requires o2 == offs[..pos] + [at] + offs[pos..] && c2 == cells[at := cell]
    ensures forall o :: o in c2 ==> o in o2
    ensures multiset(o2) == multiset(offs) + multiset{at}
  {
    assert offs == offs[..pos] + offs[pos..];
    forall o | o in c2
      ensures o in o2
    {
      if o != at {
        var j :| 0 <= j < |offs| && offs[j] == o;
        assert o2[if j < pos then j else j + 1] == o;
      }
    }
    calc {
      multiset(o2);
      multiset(offs[..pos]) + multiset{at} + multiset(offs[pos..]);
      multiset(offs[..pos] + offs[pos..]) + multiset{at};
    }
  }

  /**
    Storing a cell at a fresh offset under an absent key, with its offset spliced in at the
    key's sorted position: the key lands at that position, the directory stays sorted and
    covers every cell, the entry addresses the new cell, and the total grows by its size.
   */
  lemma AddCellFacts(p: Page, at: nat, cell: Cell, pos: nat, r: Page)
    requires DirectoryOk(p) && at !in p.cells && cell.key !in Keys(p)
    requires pos == InsertPos(Keys(p), cell.key)
    requires r.offsets == p.offsets[..pos] + [at] + p.offsets[pos..]
    requires r.cells == p.cells[at := cell]
    ensures Indexed(r.offsets, r.cells)
    ensures Keys(r) == Keys(p)[..pos] + [cell.key] + Keys(p)[pos..]
    ensures DirectoryOk(r) && |r.offsets| == |p.offsets| + 1
    ensures r.offsets[pos] == at && r.cells[at] == cell
    ensures multiset(r.offsets) == multiset(p.offsets) + multiset{at}
    ensures CellBytes(r.offsets, r.cells) == CellBytes(p.offsets, p.cells) + SerializedSize(cell)
  {
    SpliceIndexed(p.offsets, p.cells, at, cell, pos, r.offsets, r.cells);
    SpliceBytes(p.offsets, p.cells, at, cell, pos, r.offsets, r.cells);
    SpliceCovers(p.offsets, p.cells, at, cell, pos, r.offsets, r.cells);
    InsertSortedKeys(Keys(p), cell.key);
  }

  /** A key spliced into a sorted sequence is found at its position, and is the only new key. */
  lemma SplicedKeys(keys: seq<Datum>, key: Datum, pos: nat, spliced: seq<Datum>)
    requires pos <= |keys| && spliced == keys[..pos] + [key] + keys[pos..]
    requires StrictlySorted(spliced)
    ensures IndexOf(spliced, key) == Some(pos)
    ensures forall k :: k in spliced <==> k in keys || k == key
  {
    IndexOfSorted(spliced, key, pos);
    assert keys == keys[..pos] + keys[pos..];
  }

  // ---------------------------------------------------------------------------
  // Dropping an entry

  /** Dropping entry `i` and its cell: the other entries keep their cells. */
  lemma DropEntryIndexed(offs: seq<nat>, cells: map<nat, Cell>, i: nat,
                         o2: seq<nat>, c2: map<nat, Cell>)
    requires Indexed(offs, cells) && StrictlySorted(KeysOf(offs, cells)) && i < |offs|
    requires o2 == offs[..i] + offs[i + 1..] && c2 == cells - {offs[i]}
    ensures Indexed(o2, c2)
    ensures forall j :: 0 <= j < |o2| ==> c2[o2[j]] == cells[o2[j]]
    ensures KeysOf(o2, c2) == KeysOf(offs, cells)[..i] + KeysOf(offs, cells)[i + 1..]
  {
    var keys := KeysOf(offs, cells);
    forall j | 0 <= j < |o2|
      ensures o2[j] in c2 && c2[o2[j]] == cells[o2[j]]
      ensures c2[o2[j]].key == (keys[..i] + keys[i + 1..])[j]
    {
      var src := if j < i then j else j + 1;
      assert o2[j] == offs[src];
      SortedDistinct(keys, i, src);
    }
  }

  /** Dropping one key from a strictly sorted sequence keeps it sorted. */
  lemma DropKeySorted(keys: seq<Datum>, i: nat)
    requires StrictlySorted(keys) && i < |keys|
    ensures StrictlySorted(keys[..i] + keys[i + 1..])
  {
    var s := keys[..i] + keys[i + 1..];
    forall a, b | 0 <= a < b < |s|
      ensures Less(s[a], s[b])
    {
      var x := if a < i then a else a + 1;
      var y := if b < i then b else b + 1;
      assert s[a] == keys[x] && s[b] == keys[y];
    }
  }

  /** Dropping position `i` from a sorted sequence removes exactly the key there. */
  lemma DropKeyMembers(keys: seq<Datum>, i: nat)
    requires StrictlySorted(keys) && i < |keys|
    ensures forall k :: k in keys[..i] + keys[i + 1..] <==> k in keys && k != keys[i]
  {
    var s := keys[..i] + keys[i + 1..];
    forall k
      ensures k in s <==> k in keys && k != keys[i]
    {
      if k in keys && k != keys[i] {
        var j :| 0 <= j < |keys| && keys[j] == k;
        assert s[if j < i then j else j - 1] == k;
      }
      if k in s {
        var j :| 0 <= j < |s| && s[j] == k;
        var src := if j < i then j else j + 1;
        assert keys[src] == k;
        SortedDistinct(keys, i, src);
      }
    }
  }

  /** Dropping entry `i` keeps every remaining cell filed. */
  lemma DropEntryCovers(offs: seq<nat>, cells: map<nat, Cell>, i: nat)
    requires i < |offs| && forall o :: o in cells ==> o in offs
    ensures forall o :: o in cells - {offs[i]} ==> o in offs[..i] + offs[i + 1..]
  {
    var o2 := offs[..i] + offs[i + 1..];
    forall o | o in cells - {offs[i]}
      ensures o in o2
    {
      var j :| 0 <= j < |offs| && offs[j] == o;
      assert o2[if j < i then j else j - 1] == o;
    }
  }

  /** Dropping entry `i` takes exactly that cell's size off the directory's total. */
  lemma DropEntryBytes(offs: seq<nat>, cells: map<nat, Cell>, i: nat,
                       o2: seq<nat>, c2: map<nat, Cell>)
    requires Indexed(offs, cells) && StrictlySorted(KeysOf(offs, cells)) && i < |offs|
    requires o2 == offs[..i] + offs[i + 1..] && c2 == cells - {offs[i]}
    ensures Indexed(o2, c2) && CellBytes(o2, c2) + SerializedSize(cells[offs[i]]) == CellBytes(offs, cells)
  {
    DropEntryIndexed(offs, cells, i, o2, c2);
    CellBytesAt(offs, cells, i);
    CellBytesAppend(offs[..i], offs[i + 1..], c2);
    CellBytesFrame(offs[..i], c2, cells);
    CellBytesFrame(offs[i + 1..], c2, cells);
  }

  // ---------------------------------------------------------------------------
  // Keys that stay

  /** A key whose cell sits in both directories is found in both, as the same cell. */
  lemma SameCellFound(p: Page, q: Page, k: Datum, j: nat, j2: nat)
    requires Searchable(p) && Searchable(q)
    requires j < |p.offsets| && j2 < |q.offsets| && q.offsets[j2] == p.offsets[j]
    requires q.cells[p.offsets[j]] == p.cells[p.offsets[j]] && Keys(p)[j] == k
    ensures IndexOf(Keys(q), k).Some? && LowerBound(q, k) == LowerBound(p, k)
  {
    assert Keys(q)[j2] == k;
    LastAtMostExact(Keys(q), k, j2);
    LastAtMostExact(Keys(p), k, j);
  }

  /** After splicing an entry in, every old key is still found, as the same cell. */
  lemma SplicedStillFound(p: Page, q: Page, at: nat, pos: nat)
    requires Searchable(p) && Searchable(q) && pos <= |p.offsets|
    requires q.offsets == p.offsets[..pos] + [at] + p.offsets[pos..]
    requires forall o :: o in p.cells ==> o in q.cells && q.cells[o] == p.cells[o]
    ensures forall k :: k in Keys(p) ==> IndexOf(Keys(q), k).Some? && LowerBound(q, k) == LowerBound(p, k)
  {
    forall k | k in Keys(p)
      ensures IndexOf(Keys(q), k).Some? && LowerBound(q, k) == LowerBound(p, k)
    {
      var j :| 0 <= j < |Keys(p)| && Keys(p)[j] == k;
      var j2 := if j < pos then j else j + 1;
      assert q.offsets[j2] == p.offsets[j];
      SameCellFound(p, q, k, j, j2);
    }
  }

  /** After dropping entry `i`, every other key is still found, as the same cell. */
  lemma DroppedStillFound(p: Page, q: Page, i: nat)
    requires Searchable(p) && Searchable(q) && i < |p.offsets|
    requires q.offsets == p.offsets[..i] + p.offsets[i + 1..]
    requires q.cells == p.cells - {p.offsets[i]}
    ensures forall k :: k in Keys(p) && k != Keys(p)[i] ==>
      IndexOf(Keys(q), k).Some? && LowerBound(q, k) == LowerBound(p, k)
  {
    forall k | k in Keys(p) && k != Keys(p)[i]
      ensures IndexOf(Keys(q), k).Some? && LowerBound(q, k) == LowerBound(p, k)
    {
      var j :| 0 <= j < |Keys(p)| && Keys(p)[j] == k;
      var j2 := if j < i then j else j - 1;
      assert q.offsets[j2] == p.offsets[j];
      assert p.offsets[j] != p.offsets[i];
      SameCellFound(p, q, k, j, j2);
    }
  }
}
