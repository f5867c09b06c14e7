/**
  The page file (src/lib/io/file.rs): page `id` lives at byte `H + id * 4096`, after the
  database header. The file is its sequence of bytes; reading a page copies its window,
  writing a page overwrites its window and, past the end of the file, extends the file
  (a seek beyond the end leaves a gap that reads back as zeros).
 */
module PageFile {
  import opened Basics

  /** `PageSize` in file.rs. */
  const PAGE_BYTES: nat := 4096
  /**
    `size_of::<DBHeader>()`: the header holds one `&'static str`, a pointer and a length,
    16 bytes on a 64-bit target.
   */
  const DB_HEADER_SIZE: nat := 16

  /** `Frame`: a boxed byte buffer. */
  datatype Frame = Frame(mem: seq<byte>)

  /** `read_exact` found fewer bytes than a page before the end of the file. */
  datatype FileError = UnexpectedEof

  /** `seek`: the byte offset of page `id`. */
  function PageOffset(id: nat): nat {
    DB_HEADER_SIZE + id * PAGE_BYTES
  }

  /**
    The file after writing `data` at `at`. A seek past the end does not grow the file by
    itself: only a write does, and the gap it leaves before `at` reads as zeros. An empty
    buffer writes nothing, so the file is unchanged.
   */
  function WriteAt(file: seq<byte>, at: nat, data: seq<byte>): (r: seq<byte>)
    ensures |data| == 0 ==> r == file
    ensures |data| > 0 ==> |r| == if at + |data| <= |file| then |file| else at + |data|
    ensures forall k :: 0 <= k < |data| ==> r[at + k] == data[k]
    ensures forall k :: 0 <= k < |r| && !(at <= k < at + |data|) ==>
      r[k] == if k < |file| then file[k] else 0
  {
    if |data| == 0 then file
    else
      var padded := if at <= |file| then file else file + seq(at - |file|, _ => 0);
      var tail := if at + |data| < |padded| then padded[at + |data|..] else [];
      padded[..at] + data + tail
  }

  /** `read_page`: the page's window, or an error when the file ends inside or before it. */
  function ReadPage(file: seq<byte>, id: nat): (r: Result<Frame, FileError>)
    ensures r.Ok? <==> PageOffset(id) + PAGE_BYTES <= |file|
    ensures r.Ok? ==> |r.value.mem| == PAGE_BYTES
    ensures r.Ok? ==> forall k :: 0 <= k < PAGE_BYTES ==> r.value.mem[k] == file[PageOffset(id) + k]
    ensures r.Err? ==> r.error == UnexpectedEof
  {
    var at := PageOffset(id);
    if at + PAGE_BYTES <= |file| then Ok(Frame(file[at..at + PAGE_BYTES])) else Err(UnexpectedEof)
  }

  /**
    `write_page`: the buffer written at the page's offset. Its length is not checked, so a
    buffer longer than a page runs on into the next page's window.
   */
  function WritePage(file: seq<byte>, id: nat, data: seq<byte>): (r: seq<byte>)
    ensures |data| == 0 ==> r == file
    ensures |data| > 0 ==> |r| >= PageOffset(id) + |data| && r[PageOffset(id)..PageOffset(id) + |data|] == data
    ensures |r| >= |file|
    ensures forall k :: 0 <= k < |r| && k < PageOffset(id) ==> r[k] == if k < |file| then file[k] else 0
    ensures forall k :: PageOffset(id) + |data| <= k < |r| ==> k < |file| && r[k] == file[k]
  {
    WriteAt(file, PageOffset(id), data)
  }

  /** An empty buffer leaves the file as it was, even when the page lies past its end. */
  lemma WriteNothing(file: seq<byte>, id: nat)
    ensures WritePage(file, id, []) == file
  {
  }

  // ---------------------------------------------------------------------------
  // Page windows

  /** Consecutive pages are exactly one page apart, and later pages start later. */
  lemma PageOffsetStep(a: nat, b: nat)
    ensures PageOffset(a + 1) == PageOffset(a) + PAGE_BYTES
    ensures a < b ==> PageOffset(a) + PAGE_BYTES <= PageOffset(b)
  {
    if a < b {
      assert (b - a) * PAGE_BYTES >= PAGE_BYTES;
      assert PageOffset(b) == PageOffset(a) + (b - a) * PAGE_BYTES;
    }
  }

  /** Distinct pages occupy disjoint windows. */
  lemma WindowsDisjoint(a: nat, b: nat)
    requires a != b
    ensures PageOffset(a) + PAGE_BYTES <= PageOffset(b) || PageOffset(b) + PAGE_BYTES <= PageOffset(a)
  {
    if a < b {
      PageOffsetStep(a, b);
    } else {
      PageOffsetStep(b, a);
    }
  }

  // ---------------------------------------------------------------------------
  // Reading back

  /** Reading a page just written returns the bytes written. */
  lemma ReadAfterWrite(file: seq<byte>, id: nat, data: seq<byte>)
    requires |data| == PAGE_BYTES
    ensures ReadPage(WritePage(file, id, data), id) == Ok(Frame(data))
  {
    var r := ReadPage(WritePage(file, id, data), id);
    assert r.Ok?;
    assert r.value.mem == data;
  }

  /** Writing a page leaves every byte of the old file outside the written range as it was. */
  lemma WriteFrame(file: seq<byte>, id: nat, data: seq<byte>)
    ensures forall k :: 0 <= k < |file| && !(PageOffset(id) <= k < PageOffset(id) + |data|) ==>
      WritePage(file, id, data)[k] == file[k]
  {
  }

  /** Writing at most a page leaves every other page that could be read reading the same. */
  lemma WriteKeepsOtherPages(file: seq<byte>, id: nat, other: nat, data: seq<byte>)
    requires |data| <= PAGE_BYTES && other != id && ReadPage(file, other).Ok?
    ensures ReadPage(WritePage(file, id, data), other) == ReadPage(file, other)
  {
    WindowsDisjoint(id, other);
    var w := WritePage(file, id, data);
    var before, after := ReadPage(file, other).value.mem, ReadPage(w, other).value.mem;
    forall k | 0 <= k < PAGE_BYTES
      ensures after[k] == before[k]
    {
      assert after[k] == w[PageOffset(other) + k];
    }
    assert after == before;
  }

  /** A buffer longer than a page overwrites the first bytes of the next page. */
  lemma WriteSpills(file: seq<byte>, id: nat, data: seq<byte>)
    requires |data| > PAGE_BYTES
    ensures forall k :: PAGE_BYTES <= k < |data| ==> WritePage(file, id, data)[PageOffset(id + 1) + k - PAGE_BYTES] == data[k]
  {
    PageOffsetStep(id, id + 1);
  }

  /**
    Page ids are not checked against the file's length: writing past the end succeeds,
    the file grows to end at the page's window, and the gap reads as zeros.
   */
  lemma WritePastEnd(file: seq<byte>, id: nat, data: seq<byte>)
    requires |data| == PAGE_BYTES && |file| <= PageOffset(id)
    ensures |WritePage(file, id, data)| == PageOffset(id) + PAGE_BYTES
    ensures forall k :: |file| <= k < PageOffset(id) ==> WritePage(file, id, data)[k] == 0
    ensures ReadPage(WritePage(file, id, data), id) == Ok(Frame(data))
  {
    ReadAfterWrite(file, id, data);
  }

  /** A file that ends before a page's window cannot be read there. */
  lemma ShortFileFails(file: seq<byte>, id: nat)
    requires |file| < PageOffset(id) + PAGE_BYTES
    ensures ReadPage(file, id) == Err(UnexpectedEof)
  {
  }
}
