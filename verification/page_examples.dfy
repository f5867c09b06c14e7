/**
  The expected behaviour the repository's tests describe, computed on concrete pages and
  cells: sizes under the standard bincode configuration, the directory order after three
  inserts, and a lower-bound search.
 */
module PageExamples {
  import opened Basics
  import opened Datums
  import opened Bincode
  import opened Cells
  import opened SlottedPage

  /** A string key or value, written as its byte codes. */
  function Text(bytes: seq<byte>): Datum
    requires |bytes| < 0x1_0000_0000_0000_0000
  {
    Str(bytes)
  }

  const KEY1: Datum := Text([107, 101, 121, 49])           // "key1"
  const KEY12: Datum := Text([107, 101, 121, 49, 50])      // "key12"
  const VALUE1: Datum := Text([118, 97, 108, 117, 101, 49]) // "value1"
  const VALUE2: Datum := Text([118, 97, 108, 117, 101, 50]) // "value2"
  const VALUE3: Datum := Text([118, 97, 108, 117, 101, 51]) // "value3"
  const A: Datum := Text([97])                              // "a"
  const B: Datum := Text([98])                              // "b"
  const C: Datum := Text([99])                              // "c"

  /** ("key12", "value1") takes 13 bytes and (1, 1) takes 2. */
  lemma CellSizeExamples()
    ensures Size(NewCell(KEY12, VALUE1)).0 == 13
    ensures Size(NewCell(I32(1), I32(1))).0 == 2
  {
    VarintRoundTrip(5, []);
    VarintRoundTrip(6, []);
  }

  /** The serialisation of a pair of strings is not empty. */
  lemma SerializationNonEmpty()
    ensures |Serialize(NewCell(KEY1, VALUE1))| > 0
  {
  }

  /** The page after inserting ("b", "value1") into a new page. */
  const PAGE_B: Page := Page(PageHeader(Internal, 0, None, 10, 4085, 0), [4086],
                             map[4086 := Cell(B, VALUE1, Some(9))], [])

  /** ... then ("c", "value2"). */
  const PAGE_BC: Page := Page(PageHeader(Internal, 0, None, 20, 4075, 0), [4086, 4076],
                              map[4086 := Cell(B, VALUE1, Some(9)), 4076 := Cell(C, VALUE2, Some(9))], [])

  /** ... then ("a", "value3"). */
  const PAGE_BCA: Page := Page(PageHeader(Internal, 0, None, 30, 4065, 0), [4066, 4086, 4076],
                               map[4086 := Cell(B, VALUE1, Some(9)), 4076 := Cell(C, VALUE2, Some(9)),
                                   4066 := Cell(A, VALUE3, Some(9))], [])

  lemma InsertFirst()
    ensures Insert(NewPage(0, None, Internal), B, VALUE1) == Ok(PAGE_B)
  {
    var p := NewPage(0, None, Internal);
    assert Size(NewCell(B, VALUE1)) == (9, Cell(B, VALUE1, Some(9)));
    assert TailFits(p, 9);
    assert PlaceAtTail(p, Cell(B, VALUE1, Some(9)), 9) == PAGE_B;
  }

  lemma InsertSecond()
    ensures Indexed(PAGE_B.offsets, PAGE_B.cells)
    ensures Insert(PAGE_B, C, VALUE2) == Ok(PAGE_BC)
  {
    assert Keys(PAGE_B) == [B];
    assert Less(B, C);
    assert InsertPos(Keys(PAGE_B), C) == 1;
    assert Size(NewCell(C, VALUE2)) == (9, Cell(C, VALUE2, Some(9)));
    assert TailFits(PAGE_B, 9);
    assert PlaceAtTail(PAGE_B, Cell(C, VALUE2, Some(9)), 9) == PAGE_BC;
  }

  lemma InsertThird()
    ensures Indexed(PAGE_BC.offsets, PAGE_BC.cells)
    ensures Insert(PAGE_BC, A, VALUE3) == Ok(PAGE_BCA)
  {
    assert Keys(PAGE_BC) == [B, C];
    assert !Less(B, A);
    assert InsertPos(Keys(PAGE_BC), A) == 0;
    assert Size(NewCell(A, VALUE3)) == (9, Cell(A, VALUE3, Some(9)));
    assert TailFits(PAGE_BC, 9);
    assert PlaceAtTail(PAGE_BC, Cell(A, VALUE3, Some(9)), 9) == PAGE_BCA;
  }

  /**
    Inserting "b", "c", "a" into a new page places the cells at 4086, 4076 and 4066, and
    the directory lists them by key: 4066 ("a"), 4086 ("b"), 4076 ("c").
   */
  lemma OffsetOrderExample()
    ensures Insert(NewPage(0, None, Internal), B, VALUE1) == Ok(PAGE_B)
    ensures Indexed(PAGE_B.offsets, PAGE_B.cells) && Insert(PAGE_B, C, VALUE2) == Ok(PAGE_BC)
    ensures Indexed(PAGE_BC.offsets, PAGE_BC.cells) && Insert(PAGE_BC, A, VALUE3) == Ok(PAGE_BCA)
    ensures PAGE_BCA.offsets == [4066, 4086, 4076]
  {
    InsertFirst();
    InsertSecond();
    InsertThird();
  }

  /** A page holding the integer keys 1, 3, 5 and 6, each with itself as value. */
  function OddPage(): (p: Page)
    ensures Searchable(p)
    ensures Keys(p) == [I32(1), I32(3), I32(5), I32(6)]
  {
    var cells := map[4093 := Cell(I32(1), I32(1), Some(2)), 4090 := Cell(I32(3), I32(3), Some(2)),
                     4087 := Cell(I32(5), I32(5), Some(2)), 4084 := Cell(I32(6), I32(6), Some(2))];
    var p := Page(PageHeader(Internal, 0, None, 12, 4083, 0), [4093, 4090, 4087, 4084], cells, []);
    assert Keys(p) == [I32(1), I32(3), I32(5), I32(6)];
    p
  }

  /** Over the keys 1, 3, 5, 6, a search for 2 returns the cell of 1. */
  method FindKeyExample() returns (r: Option<Cell>)
    ensures r.Some? && r.value.key == I32(1)
  {
    var p := OddPage();
    LastAtMostSplit(Keys(p), I32(2), 1);
    r := FindKey(p, I32(2));
  }
}
