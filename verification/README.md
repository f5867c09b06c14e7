# Slotted page storage, modelled in Dafny

This project models the page storage layer of a small disk-backed key-value store. It has three parts:

- **Cells** (`src/lib/storage/cell.rs`). A cell is one key-value record. Its byte form is the key's bincode encoding (standard configuration: varint integers, zigzag for signed ones, length-prefixed strings) followed by the value's. The cell memoises its encoded size.
- **The slotted page** (`src/lib/storage/slotted_page.rs`). A page has a header and a directory of cell offsets, kept sorted by key. It also has the cells, keyed by offset, and a list of free blocks reclaimed from removed cells.
  - `insert` places a cell at the page's tail: cells grow downward from the free boundary. When the tail is full, it uses the first free block large enough.
  - `remove` returns a cell's bytes to the free list.
  - `find_key_index` is exact binary search. `find_key` is lower-bound binary search: the cell with the key, else the one with the greatest smaller key.
- **The page file** (`src/lib/io/file.rs`, `src/lib/memory.rs`). Page `id` lives at byte `16 + id * 4096`, after the database header. A read copies the page's 4096-byte window. A write copies the whole buffer it is given, whatever its length, starting at the page's offset.

Keys and values are `Datum`s: a 32-bit integer or a byte string. These are the two instantiations the repository's tests use. Integers order before strings, and strings order lexicographically by byte.

The page is modelled as an immutable value. Each operation returns the new page or an error. The model keeps all the state the Rust struct keeps: the header counters, the directory, the cell map and the free list. The central invariant is `SlottedPage.Valid`, which has five parts:

- the directory addresses exactly the stored cells, in strictly increasing key order;
- every size cache holds the true size;
- every cell and free block lies between the free boundary and the page end;
- no two of them overlap;
- the used-bytes counter equals the sum over cells of the size plus one.

The slotted-page source is a draft that is commented out in full. It also refers to names it never defines (`free_list`, `f`). The model follows its evident intent. Every place where the model settles a point the draft leaves open is listed under "Left out", and four arithmetic faults are listed under "Findings".

Files:

- `basics.dfy`: bytes, `Option`, `Result`.
- `datum.dfy`: keys and their order.
- `bincode.dfy`: the encoding.
- `cell.dfy`: cells.
- `slotted_page.dfy`: the page and its operations.
- `page_sums.dfy`, `directory_proofs.dfy`, `placement_proofs.dfy`: supporting lemmas.
- `insert_proofs.dfy`, `remove_proofs.dfy`: the properties of insert and remove.
- `page_examples.dfy`: the repository's test scenarios, computed.
- `page_findings.dfy`: the faults, as written and corrected.
- `file.dfy`: the page file.

## Model

| member | source | states |
|---|---|---|
| Bincode.VarintRoundTrip | src/lib/storage/cell.rs:33-34 | A varint-encoded unsigned integer decodes back to itself, and trailing bytes are left unread. The width is 1, 3, 5 or 9 bytes according to the value's range. |
| Bincode.ZigZagRoundTrip | src/lib/storage/cell.rs:33-34 | Zigzag mapping of a signed 32-bit key is undone exactly, so signed keys survive encoding. |
| Bincode.EncodeRoundTrip | src/lib/storage/cell.rs:33-34 | Decoding the encoding of any key or value, given its kind, returns that datum and consumes exactly its encoding, whatever bytes follow. |
| Cells.Serialize | src/lib/storage/cell.rs:32-42 | A cell's bytes are as long as its key's and value's encodings together, never fewer than two. No length header separates them. |
| Cells.NewCell | src/lib/storage/cell.rs:24-30 | A new cell holds the given key and value and has an empty size cache. |
| Cells.Size | src/lib/storage/cell.rs:44-52 | With an empty cache the answer is the serialisation's length, and the cache is filled with it. A filled cache is answered without change. Key and value never change. |
| Cells.SerializeRoundTrip | src/lib/storage/cell.rs:32-42 | The serialisation starts with the key's encoding. Reading a key and then a value of the cell's kinds recovers the cell's key and value and consumes every byte. |
| Cells.SizeStable | src/lib/storage/cell.rs:44-52 | Calling `size` twice gives the same answer and leaves the cell as the first call left it. |
| Cells.SizeAfterCalls | src/lib/storage/cell.rs:10-30 | However many times a new cell is asked for its size, the answer is the length of its key's and value's encodings. |
| Datums.LessTotal | src/lib/storage/slotted_page.rs:164-168 | The key order used to sort the directory is total: of two distinct keys, one is below the other. |
| Datums.LessTransitive | src/lib/storage/slotted_page.rs:164-168 | The key order is transitive, as `Ord` requires. |
| Datums.SortedDistinct | src/lib/storage/slotted_page.rs:164-168 | A strictly sorted key sequence holds no key twice. |
| SlottedPage.NewPage | src/lib/storage/slotted_page.rs:39-48 | A new page is valid and empty: no keys, no free blocks, boundary at 4095, no bytes used. |
| SlottedPage.FirstFit | src/lib/storage/slotted_page.rs:99-106 | The chosen block is large enough and every earlier block is too small. No block is chosen only when every block is too small. |
| SlottedPage.CanInsert | src/lib/storage/slotted_page.rs:91-120 | The tail is chosen exactly when the boundary leaves room for the header, one more slot, the cell and two bytes. Otherwise the top bytes of the first large-enough block are chosen. "Not enough space" comes exactly when neither fits. |
| SlottedPage.InsertPos | src/lib/storage/slotted_page.rs:164-168 | The new key's directory position comes after every smaller key and before every key not smaller. |
| SlottedPage.IndexOf | src/lib/storage/slotted_page.rs:200-219 | Reference exact search: a position holding the key, and none exactly when the key is absent. |
| SlottedPage.LastAtMost | src/lib/storage/slotted_page.rs:172-198 | Reference lower bound: the last position whose key is not above the searched key. Every later key is above it. None means every key is above. |
| SlottedPage.FindKeyIndex | src/lib/storage/slotted_page.rs:200-219 | The binary search returns a position whose cell holds the key, and returns None exactly when no cell does. It agrees with `IndexOf`. |
| SlottedPage.FindKey | src/lib/storage/slotted_page.rs:172-198 | The binary search returns the lower-bound cell, and a present key's own cell. |
| SlottedPage.LowerBoundShape | src/lib/storage/slotted_page.rs:172-198 | The lower-bound cell's key is the searched key or below it, and no key below the searched key lies above it. There is no cell exactly when every key is above the searched one. A present key gives its own cell. |
| SlottedPage.IndexOfSorted | src/lib/storage/slotted_page.rs:200-219 | In a sorted directory, the position holding a key is the one exact search returns. |
| InsertProofs.InsertFailure | src/lib/storage/slotted_page.rs:137-161 | Insert fails only with "duplicate key" or "not enough space". It reports a duplicate exactly when the key is present, and no space exactly when the key is new and neither the tail nor any free block fits the cell. |
| InsertProofs.InsertNewKeyError | src/lib/storage/slotted_page.rs:160 | A new key can only be refused for lack of space. |
| InsertProofs.InsertPreservesValid | src/lib/storage/slotted_page.rs:137-170 | Inserting into a valid page yields a valid page: sorted directory, true size caches, ranges in bounds and apart, and counter equal to the bytes used. |
| InsertProofs.InsertPlacement | src/lib/storage/slotted_page.rs:141-163 | A successful insert stores the cell at an offset no cell used and files that offset at the key's sorted position. Nothing else changes in the directory, and the used-bytes counter grows by the size plus one. |
| InsertProofs.InsertFilesKey | src/lib/storage/slotted_page.rs:163-168 | After an insert the directory is still sorted, has one more entry, and its keys are the old keys with the new one spliced in at its position. That entry addresses a cell holding the inserted key and value. |
| InsertProofs.InsertKeepsCells | src/lib/storage/slotted_page.rs:137-170 | An insert moves and alters no existing cell. |
| InsertProofs.InsertThenFind | src/lib/storage/slotted_page.rs:253-279 | After an insert, exact search finds the key at its sorted position, and lower-bound search returns a cell with the inserted value. The keys are the old ones plus the new one. |
| InsertProofs.InsertKeepsFound | src/lib/storage/slotted_page.rs:262-279 | Every key present before an insert is still found after it, and lower-bound search for it returns the same cell as before. |
| InsertProofs.TailInsert | src/lib/storage/slotted_page.rs:96-97 | When the tail check passes, a new key is always stored. |
| InsertProofs.TailInsertFacts | src/lib/storage/slotted_page.rs:141-147 | A tail insert puts the cell directly below the old boundary, and the boundary drops by the size plus one. The free list is untouched, and the cell overlaps no old cell. |
| InsertProofs.BlockInsert | src/lib/storage/slotted_page.rs:99-115 | When the tail is full but some free block is large enough, a new key is always stored. |
| InsertProofs.BlockInsertFacts | src/lib/storage/slotted_page.rs:108-115 | A block insert takes the top bytes of the first large-enough block and leaves the boundary alone. The block shrinks to its remainder, or leaves the list when fewer than 4 bytes remain. |
| InsertProofs.BlockInsertApart | src/lib/storage/slotted_page.rs:108-115 | The cell a block insert places overlaps no remaining free block and no old cell. |
| InsertProofs.CountersFitU16 | src/lib/storage/slotted_page.rs:23-31 | On a valid page, the `u16` used-bytes counter and boundary, and the directory's length, never leave the `u16` range. |
| InsertProofs.InsertUsesRoom | src/lib/storage/slotted_page.rs:141-158 | Every successful insert strictly shrinks the room left: the boundary plus the free-list total. |
| InsertProofs.InsertAll | src/lib/storage/slotted_page.rs:296-309 | Inserting a sequence of entries into a valid page, stopping at the first failure, yields a valid page when every insert succeeds. |
| InsertProofs.InsertStep | src/lib/storage/slotted_page.rs:296-309 | One successful insert keeps the page valid, uses up room, and adds exactly the new key. |
| InsertProofs.RepeatedInsertsFail | src/lib/storage/slotted_page.rs:296-315 | Inserting more distinct new keys than the page has room for ends in "not enough space". A page fills up and refuses further keys. |
| RemoveProofs.RemoveShape | src/lib/storage/slotted_page.rs:122-135 | Removing an absent key fails with "no such key". Removing a present key drops exactly its entry and cell, appends one free block covering the cell's bytes, and lowers the counter by the size plus one. The boundary is unchanged. |
| RemoveProofs.RemovePreservesValid | src/lib/storage/slotted_page.rs:122-135 | Removing a present key from a valid page succeeds and yields a valid page. |
| RemoveProofs.RemoveDropsKey | src/lib/storage/slotted_page.rs:122-135 | After a removal the removed key is absent, and the other keys keep their order. |
| RemoveProofs.RemoveKeepsFound | src/lib/storage/slotted_page.rs:122-135 | Every other key is still found after a removal, and lower-bound search for it returns the same cell as before. |
| PageExamples.CellSizeExamples | src/lib/storage/slotted_page.rs:234-245 | The cell ("key12", "value1") is 13 bytes and the cell (1, 1) is 2 bytes. |
| PageExamples.SerializationNonEmpty | src/lib/storage/slotted_page.rs:227-232 | The serialisation of ("key1", "value1") is not empty. |
| PageExamples.OffsetOrderExample | src/lib/storage/slotted_page.rs:281-293 | Inserting "b", "c" and "a" into a new page gives the directory 4066, 4086, 4076, which is the order by key. |
| PageExamples.FindKeyExample | src/lib/storage/slotted_page.rs:172 | Over the keys 1, 3, 5 and 6, a search for 2 returns the cell of 1. |
| PageFindings.FindKeyAsWritten | src/lib/storage/slotted_page.rs:173-198 | The `u16` search as written panics exactly when the lower bound is None. Otherwise it returns the lower bound. |
| PageFindings.FindKeyBelowAll | src/lib/storage/slotted_page.rs:190 | Over the single key 5, a search for 2 panics at `mid - 1`. |
| PageFindings.FindKeyEmpty | src/lib/storage/slotted_page.rs:175 | On an empty page, `len() as u16 - 1` panics. |
| PageFindings.RequiredAsWritten | src/lib/storage/slotted_page.rs:92 | The reserved size as written is below 65536, and equals the cell size whenever that size is below 65536. |
| PageFindings.TruncatedSizeFits | src/lib/storage/slotted_page.rs:92-97 | As written, a 65537-byte cell is granted one tail byte on a new page. The corrected check refuses it. |
| PageFindings.RequiredOverflows | src/lib/storage/slotted_page.rs:92-96 | As written, a 65534-byte cell makes `required_bytes + 2` overflow on a new page, and a debug build panics. The corrected check refuses the cell. |
| PageFindings.CanInsertAgrees | src/lib/storage/slotted_page.rs:91-120 | When the size is below 65534 and the boundary is not below the directory side, `can_insert` as written decides exactly as `CanInsert`. |
| PageFindings.CanInsertBounded | src/lib/storage/slotted_page.rs:91-120 | With the full size, anything granted fits inside the page. |
| PageFindings.TailCheckAgrees | src/lib/storage/slotted_page.rs:93-96 | Where the `u16` tail check as written does not panic it agrees with `TailFits`. Where it panics for any reason other than the `+ 2` overflow, `TailFits` refuses. |
| PageFindings.TailCheckUnderflows | src/lib/storage/slotted_page.rs:93-96 | One insert of a 4067-byte cell leaves the boundary at 27, below the next check's header side of 28, so the next `can_insert` as written panics, for a cell of any size. |
| PageFile.ReadPage | src/lib/io/file.rs:21-28 | A read succeeds exactly when the file holds the page's whole window, and it returns that window. Otherwise it fails with an unexpected end of file. |
| PageFile.WritePage | src/lib/io/file.rs:30-40 | A non-empty buffer lands byte for byte at the page's offset, and the file grows to hold it if needed. Bytes before the offset are unchanged, or zero where the file was too short. Bytes after the buffer are unchanged. An empty buffer leaves the file as it was. |
| PageFile.WriteNothing | src/lib/io/file.rs:30-33 | Writing an empty buffer changes nothing, even at a page past the end of the file: the seek alone does not grow it. |
| PageFile.PageOffsetStep | src/lib/io/file.rs:42-43 | Consecutive pages are exactly 4096 bytes apart, and later ids start later. |
| PageFile.WindowsDisjoint | src/lib/io/file.rs:42-43 | Distinct page ids have disjoint windows. |
| PageFile.ReadAfterWrite | src/lib/io/file.rs:21-40 | Reading a page just written returns the page written. |
| PageFile.WriteFrame | src/lib/io/file.rs:30-33 | A write changes no byte of the old file outside the written range. |
| PageFile.WriteKeepsOtherPages | src/lib/io/file.rs:30-33 | Writing at most a page leaves every other readable page reading the same. |
| PageFile.WriteSpills | src/lib/io/file.rs:30-33 | A buffer longer than a page overwrites the start of the next page. |
| PageFile.WritePastEnd | src/lib/io/file.rs:30-47 | Writing past the end of the file succeeds and extends the file to the page's end. The gap reads as zeros, and the page then reads back as written. |
| PageFile.ShortFileFails | src/lib/io/file.rs:21-25 | A file that ends before a page's window cannot be read there. |

## Left out

- `src/lib/storage/btree.rs` and `src/lib/io/file_manager.rs`, the tree controller and the file registry, are not part of this model.
- **Draft gaps.** The slotted-page draft names `free_list` and a closure `f` that it never defines.
  - `Remove` appends a `FreeBlock` covering the removed cell's bytes. The draft pushes a bare size.
  - The Occupied arm of `Insert` uses the position `can_insert` returns. The draft looks the cell's position up in the list.
- **Placement offsets.** The draft returns `required_bytes - block.offset`, which underflows. `CanInsert` instead places the cell in the top `required` bytes of the block, `offset + size - required`, so the block keeps its low part as its remainder.
- **Used-bytes counter.** The draft's Occupied arm adds the offset `at` to the counter. The model adds the cell size plus one, as the Free arm does.
- **Exhausted blocks.** A block with fewer than 4 bytes left is removed from the free list. The draft leaves it there unchanged.
- **Duplicate keys.** `Insert` refuses a key already present with `DuplicateKey`. The draft has no check: it would hold two cells with one key and break exact search. Another policy would overwrite a duplicate in place when the new cell fits. The draft does not do that, and neither does the model.
- **Header size.** `HDR = 24`, the size of `PageHeader` on a 64-bit target. `DB_HEADER_SIZE = 16`, the size of a `&'static str`. Both are compiler-dependent.
- **Free-block coalescing.** Adjacent free blocks are never merged, and `first_freeblock` is carried but unused, as in the draft. Merging neighbouring free blocks on removal would limit fragmentation. The code does not merge, and the model follows the code.
- **Space accounting.** An exact equality between the page size and the bytes of header, directory, cells, free blocks and slack does not hold in the code. The code charges one byte per cell to the used-bytes counter, and it keeps two spare bytes in the tail check. The model also drops fragments under 4 bytes from the free list. `SlottedPage.Accounted` therefore states the counter exactly and the total as an upper bound.
- **Page layout.** The on-disk layout of a page (its serde encoding into a frame) is not modelled. The directory, cells and free list are abstract values.
- **Right sibling.** The right-sibling link is kept as a page id, not as an owned page.
- **Key and value types.** Only `i32` and `String` are modelled. Other `Serialize + Ord` types are not.
- **Block placement as written.** `PageFindings.CanInsertAsWritten` models the draft's tail check and size cast. Its free-list branch uses the model's placement, not the underflowing `required_bytes - block.offset`.
- **Failure leaves the page unchanged.** This is immediate in a functional model: an error carries no page.
- **test_insert_in_freelist.** Its numeric assertions are not modelled. Under the draft's own arithmetic the five removed cells hold 64 bytes, not 27.
- **File I/O.** `sync_all`, seek failures and operating-system errors other than a short read are not modelled. The `forced_sync` flag therefore has no effect in the model.
- PageFile.PageOffset: page offsets are unbounded integers. The `u64` product in `seek` would overflow only for ids above 2^52, which no file can reach.
- SlottedPage.FindKey: its contract states agreement with `LowerBound` and the present-key case. What the lower-bound cell means is stated once, in `SlottedPage.LowerBoundShape`.

## Findings

"Panics" below is what a debug build does on `u16` overflow. A release build wraps instead. In `find_key` the wrapped index then fails at the directory lookup. In the tail check the wrapped difference grants the tail, and `header.offset -= size + 1` then moves the boundary below the directory or wraps it, with no panic. The truncating cast never panics in either build.

| source | as written | input that shows it | evidently intended | confidence | as-written member | corrected member |
|---|---|---|---|---|---|---|
| src/lib/storage/slotted_page.rs:175-190 | `right` is a `u16` set to `len() - 1` and then `mid - 1`, which underflows | an empty page, or the single key 5 searched for 2 | return `None` when no key is at or below the target | not executed; high | PageFindings.FindKeyAsWritten | SlottedPage.FindKey |
| src/lib/storage/slotted_page.rs:92 | `cell.size() as u16` truncates the cell size | a cell of 65537 bytes (a 65533-byte key and the value 0) is granted 1 byte of tail on a new page | reserve the full size; refuse a cell larger than the page | not executed; high | PageFindings.TruncatedSizeFits | PageFindings.CanInsertBounded |
| src/lib/storage/slotted_page.rs:96 | `required_bytes + 2` overflows in `u16` for a (truncated) size of 65534 or 65535 | a cell of 65534 bytes (a 65530-byte key and the value 0) offered to a new page | refuse the cell for lack of space | not executed; high | PageFindings.RequiredOverflows | PageFindings.CanInsertBounded |
| src/lib/storage/slotted_page.rs:93-96 | `header.offset - header_side` underflows once the directory side passes the boundary | insert a 4063-byte key with the value 0 into a new page; the boundary is then 27 and the next header side 28 | compare without subtracting: the tail fits when the boundary is at least header side plus size plus 2 | not executed; high | PageFindings.TailCheckUnderflows | PageFindings.TailCheckAgrees |
