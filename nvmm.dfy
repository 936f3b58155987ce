/**
 * The engine of nvmm.c as the source runs it: the module statics become
 * the fields of class Nvmm, the two flash pages are arrays updated in
 * place, and every routine keeps the loop of the source. Each method is
 * proved to compute exactly the function of module Engine that specifies
 * it, on the snapshot of the fields and both pages.
 *
 * The three flash callbacks are the arrays themselves: read_nvbytes reads
 * the array, write_nvwords programs it bytewise with AND, erase_nvpage
 * fills it with 0xFF. Their status codes are ignored by the source and do
 * not appear here.
 */
module Driver {
  import opened Layout
  import opened FlashImage
  import opened LineLog
  import opened LineWrite
  import opened Compaction
  import opened Engine

  class Nvmm {
    /** The two flash pages assigned to the engine. */
    const flashA: array<byte>
    const flashB: array<byte>
    /** The value the uninitialised `dummy.len` of active_page's stack header happens to hold. */
    const stackLen: nat

    var activedPage: nat
    var ctIndex: nat
    var pageAId: nat
    var pageBId: nat
    var pageSize: nat

    /** The engine state the fields and the flash stand for. */
    ghost function Snapshot(): State
      reads this, flashA, flashB
    {
      State(Geometry(pageAId, pageBId, pageSize), flashA[..], flashB[..], activedPage, ctIndex)
    }

    /** The array FLASH_ADDRESS(id, 0) addresses. */
    function Flash(id: nat): array<byte>
      reads this
    {
      if id == pageAId then flashA else flashB
    }

    /** The geometry is legal and both arrays are pages of that size; programming a page keeps this. */
    ghost predicate Valid()
      reads this
    {
      flashA != flashB && Geometry(pageAId, pageBId, pageSize).Valid() &&
      flashA.Length == pageSize && flashB.Length == pageSize && stackLen < 0x1_0000
    }

    /** The page defrag_page copies into: the one that is not activedpage. */
    function OtherPage(): nat
      reads this
    {
      if activedPage == pageAId then pageBId else pageAId
    }

    predicate IsPage(id: nat)
      reads this
    {
      id == pageAId || id == pageBId
    }

    /** The statics before g_init_nvmm: no active page, the default geometry. */
    constructor (a: array<byte>, b: array<byte>, dummyLen: nat)
      requires a != b && dummyLen < 0x1_0000
      ensures flashA == a && flashB == b && stackLen == dummyLen
      ensures activedPage == 0xFFFF && ctIndex == 0
      ensures pageAId == PAGE_A_ID_DEFAULT && pageBId == PAGE_B_ID_DEFAULT && pageSize == PAGE_SIZE_DEFAULT
    {
      flashA, flashB, stackLen := a, b, dummyLen;
      activedPage, ctIndex := 0xFFFF, 0;
      pageAId, pageBId, pageSize := PAGE_A_ID_DEFAULT, PAGE_B_ID_DEFAULT, PAGE_SIZE_DEFAULT;
    }

    /** locate_ctindex: scan the active page downward for the delimiter word. */
    method LocateCtindex()
      requires Valid() && IsPage(activedPage)
      modifies this
      ensures Valid() && Snapshot() == Locate(old(Snapshot()))
    {
      var page := Flash(activedPage);
      var index: nat := pageSize - 4;
      while index > PAGE_HEADER_SIZE
        invariant index + 4 <= pageSize
        invariant LocateFrom(page[..], index) == LocateIndex(page[..])
        decreases index
      {
        var delimiter := U32At(page[..], index);
        if IsLineDelimiterLegal(delimiter) {
          break;
        }
        index := index - 4;
      }
      ctIndex := index + 4;
    }

    /** erase_page: erase, then read every byte back; the check finds nothing to report. */
    method ErasePage(id: nat) returns (rc: int)
      requires Valid() && IsPage(id)
      modifies Flash(id)
      ensures Valid() && Snapshot() == Engine.ErasePage(old(Snapshot()), id) && rc == 0
    {
      var page := Flash(id);
      forall i | 0 <= i < page.Length {
        page[i] := ERASED;
      }
      var offset := 0;
      while offset < pageSize && page[offset] == ERASED
        invariant offset <= pageSize
        invariant forall k :: 0 <= k < offset ==> page[k] == ERASED
      {
        offset := offset + 1;
      }
      rc := if offset < pageSize then -1 else 0;
      assert page[..] == Erased(pageSize);
    }

    /** clean_page: erase the page only if some byte of it is not 0xFF. */
    method CleanPage(id: nat)
      requires Valid() && IsPage(id)
      modifies Flash(id)
      ensures Valid() && Snapshot() == Engine.CleanPage(old(Snapshot()), id)
    {
      var page := Flash(id);
      var offset := 0;
      while offset < pageSize && page[offset] == ERASED
        invariant offset <= pageSize
        invariant forall i :: 0 <= i < offset ==> page[i] == ERASED
      {
        offset := offset + 1;
      }
      if offset < pageSize {
        var _ := ErasePage(id);
      } else {
        assert page[..] == Erased(pageSize);
      }
    }

    /**
     * verify_words: compare `count` words of the page at `offset` with
     * `reference`, stopping at the first difference. It returns 0 exactly
     * when all of them are equal.
     */
    method VerifyWords(id: nat, offset: nat, reference: seq<byte>, count: nat) returns (rc: int)
      requires Valid() && offset + 4 * count <= pageSize && 4 * count <= |reference|
      ensures rc == 0 || rc == -1
      ensures rc == 0 <==> Flash(id)[offset..offset + 4 * count] == reference[..4 * count]
    {
      var page := Flash(id);
      ghost var image := page[..];
      var k := 0;
      while k < count
        invariant k <= count
        invariant image[offset..offset + 4 * k] == reference[..4 * k]
      {
        var tmp := page[offset + 4 * k..offset + 4 * k + 4];
        assert tmp == image[offset + 4 * k..offset + 4 * k + 4];
        if tmp != reference[4 * k..4 * k + 4] {
          SliceOfSlice(image, offset, offset + 4 * count, 4 * k, 4 * k + 4);
          SliceOfSlice(reference, 0, 4 * count, 4 * k, 4 * k + 4);
          assert page[offset..offset + 4 * count] == image[offset..offset + 4 * count];
          return -1;
        }
        assert image[offset..offset + 4 * (k + 1)] == image[offset..offset + 4 * k] + tmp;
        assert reference[..4 * (k + 1)] == reference[..4 * k] + reference[4 * k..4 * k + 4];
        k := k + 1;
      }
      assert page[offset..offset + 4 * count] == image[offset..offset + 4 * count];
      return 0;
    }

    /** write_words: program `count` words at `offset` (write_nvwords), then verify_words, whose result is dropped. */
    method WriteWords(id: nat, offset: nat, words: seq<byte>, count: nat)
      requires Valid() && IsPage(id) && offset + 4 * count <= pageSize && 4 * count <= |words|
      modifies Flash(id)
      ensures Valid() && Flash(id)[..] == Program(old(Flash(id)[..]), offset, words[..4 * count])
    {
      var page := Flash(id);
      ghost var before := page[..];
      var i := 0;
      while i < 4 * count
        invariant i <= 4 * count
        invariant forall k :: 0 <= k < page.Length ==>
          page[k] == if offset <= k < offset + i then And(before[k], words[k - offset]) else before[k]
      {
        page[offset + i] := And(page[offset + i], words[i]);
        i := i + 1;
      }
      ProgramBytes(before, offset, words[..4 * count]);
      assert page[..] == Program(before, offset, words[..4 * count]);
      var _ := VerifyWords(id, offset, words, count);
    }

    /** write_word: write_words of a single word. */
    method WriteWord(id: nat, offset: nat, word: seq<byte>)
      requires Valid() && IsPage(id) && offset + 4 <= pageSize && |word| == 4
      modifies Flash(id)
      ensures Valid() && Flash(id)[..] == Program(old(Flash(id)[..]), offset, word)
    {
      WriteWords(id, offset, word, 1);
      assert word[..4] == word;
    }

    /** active_page: program the Active page header and make the page activedpage. */
    method ActivePage(id: nat)
      requires Valid() && IsPage(id)
      modifies this, Flash(id)
      ensures Valid() && Snapshot() == ActivatePage(old(Snapshot()), id, stackLen)
    {
      var header := PageHeaderBytes(ACTIVE_PAGE_STATE, stackLen);
      WriteWords(id, 0, header, PadLength(PAGE_HEADER_SIZE) / 4);
      assert header[..PAGE_HEADER_SIZE] == header;
      activedPage := id;
    }

    /** dummy_activedpage: program the Dummy marker over the marker of the active page. */
    method DummyActivedPage()
      requires Valid() && IsPage(activedPage)
      modifies Flash(activedPage)
      ensures Valid() && Snapshot() == MarkDummy(old(Snapshot()))
    {
      WriteWord(activedPage, 0, LE32(DUMMY_PAGE_STATE));
    }

    /** find_line_address: walk the headers below `offset` until one carries `lineid`. */
    method FindLineAddress(id: nat, offset: nat, lineid: nat) returns (r: int)
      requires Valid() && LINE_HEADER_SIZE <= offset <= pageSize
      ensures r == LineAddress(Flash(id)[..], offset, lineid)
    {
      var page := Flash(id);
      var cursor: nat := offset - LINE_HEADER_SIZE;
      while cursor >= PAGE_HEADER_SIZE
        invariant cursor + LINE_HEADER_SIZE <= page.Length
        invariant FindLine(page[..], cursor, lineid) == LineAddress(page[..], offset, lineid)
        decreases cursor
      {
        var header := HeaderAt(page[..], cursor);
        if header.id == lineid {
          return cursor - header.len;
        } else if !IsLineLengthLegal(header.len) {
          cursor := cursor - LINE_HEADER_SIZE;
        } else if header.len + LINE_HEADER_SIZE <= cursor {
          cursor := cursor - (header.len + LINE_HEADER_SIZE);
        } else {
          return 0;
        }
      }
      return 0;
    }

    /** copy_line: copy `len` bytes from the active page to `tgtId`, one word at a time through write_word. */
    method CopyLine(tgtId: nat, offsetTgt: nat, len: nat, offsetSrc: nat)
      requires Valid() && IsPage(activedPage) && tgtId == OtherPage()
      requires len % 4 == 0 && offsetSrc + len <= pageSize && offsetTgt + len <= pageSize
      modifies Flash(tgtId)
      ensures Valid() && Flash(activedPage)[..] == old(Flash(activedPage)[..])
      ensures Flash(tgtId)[..] == Compaction.CopyLine(Flash(activedPage)[..], old(Flash(tgtId)[..]), offsetTgt, offsetSrc, len)
    {
      var src, tgt := Flash(activedPage), Flash(tgtId);
      ghost var before, image := tgt[..], src[..];
      ghost var n, k := len / 4, 0;
      assert len == 4 * n;
      var i := 0;
      while i < len
        invariant i == 4 * k && k <= n && Valid() && Flash(tgtId) == tgt
        invariant src[..] == image
        invariant tgt[..] == Program(before, offsetTgt, image[offsetSrc..offsetSrc + i])
      {
        var tmp := src[offsetSrc + i..offsetSrc + i + 4];
        ghost var cur := tgt[..];
        ProgramExtend(before, offsetTgt, image, offsetSrc, i, cur, tmp);
        WriteWord(tgtId, offsetTgt + i, tmp);
        i, k := i + 4, k + 1;
      }
    }

    /**
     * write_line: the header with id 0xFFFF and the length, the data, the
     * header again with the id, and again with the delimiter, each through
     * write_words.
     */
    method WriteLine(pageId: nat, offset: nat, lineid: nat, len: nat, dat: seq<byte>)
      requires Valid() && IsPage(pageId) && offset + len + LINE_HEADER_SIZE <= pageSize
      requires |dat| == len && len % 4 == 0 && lineid < 0x1_0000 && len < 0x1_0000
      modifies Flash(pageId)
      ensures Valid() && Flash(pageId)[..] == LineWrite.WriteLine(old(Flash(pageId)[..]), offset, lineid, len, dat)
    {
      ghost var p := Flash(pageId)[..];
      var header := LineHeader(NO_LINE_ID, len, ERASED_WORD);
      WriteWords(pageId, offset + len, HeaderBytes(header), PadLength(LINE_HEADER_SIZE) / 4);
      assert HeaderBytes(header)[..8] == HeaderBytes(header);
      assert Flash(pageId)[..] == WriteLinePass(p, offset, lineid, len, dat, 1);
      WriteWords(pageId, offset, dat, len / 4);
      assert dat[..4 * (len / 4)] == dat;
      assert Flash(pageId)[..] == WriteLinePass(p, offset, lineid, len, dat, 2);
      header := header.(id := lineid);
      WriteWords(pageId, offset + len, HeaderBytes(header), PadLength(LINE_HEADER_SIZE) / 4);
      assert HeaderBytes(header)[..8] == HeaderBytes(header);
      assert Flash(pageId)[..] == WriteLinePass(p, offset, lineid, len, dat, 3);
      header := header.(delimiter := LINE_DELIMITER);
      WriteWords(pageId, offset + len, HeaderBytes(header), PadLength(LINE_HEADER_SIZE) / 4);
      assert HeaderBytes(header)[..8] == HeaderBytes(header);
    }

    /**
     * One pass of the loop of defrag_page, at the line header that ends at
     * `cursor` (offset_src + 8) on the active page. A header that is not
     * committed is stepped over, with the record its length names when
     * that length is legal; `ok` is false when that record would run past
     * the page header. A committed record whose id differs from `last` and
     * is not yet in page `tgtId` is copied to `offsetTgt`. `next`, `end`
     * and `id` are the cursor, the target offset and the history id after
     * the pass.
     */
    method ScanRecord(tgtId: nat, cursor: nat, offsetTgt: nat, last: nat) returns (ok: bool, next: nat, end: nat, id: nat)
      requires Valid() && IsPage(activedPage) && tgtId == OtherPage()
      requires PAGE_HEADER_SIZE + LINE_HEADER_SIZE <= cursor <= pageSize && LINE_HEADER_SIZE <= offsetTgt <= pageSize
      requires !DefragScan(Flash(activedPage)[..], cursor, Flash(tgtId)[..], offsetTgt, last).OutOfModel?
      modifies Flash(tgtId)
      ensures Valid() && Flash(activedPage)[..] == old(Flash(activedPage)[..])
      ensures next < cursor && LINE_HEADER_SIZE <= end <= pageSize
      ensures DefragScan(Flash(activedPage)[..], cursor, old(Flash(tgtId)[..]), offsetTgt, last) ==
        if ok then DefragScan(Flash(activedPage)[..], next, Flash(tgtId)[..], end, id) else Corrupt(Flash(tgtId)[..], offsetTgt)
    {
      var src, tgt := Flash(activedPage), Flash(tgtId);
      ghost var image, t := src[..], tgt[..];
      ghost var goal := DefragScan(image, cursor, t, offsetTgt, last);
      var h := HeaderAt(src[..], cursor - LINE_HEADER_SIZE);
      if !IsLineIdLegal(h.id) || !IsLineDelimiterLegal(h.delimiter) {
        if !IsLineLengthLegal(h.len) {
          next := cursor - LINE_HEADER_SIZE;
          ScanPassesHeader(image, cursor, t, offsetTgt, last, h, goal, next);
        } else if h.len + LINE_HEADER_SIZE <= cursor - LINE_HEADER_SIZE {
          next := cursor - LINE_HEADER_SIZE - h.len;
          ScanPassesRecord(image, cursor, t, offsetTgt, last, h, goal, next);
        } else {
          ScanStops(image, cursor, t, offsetTgt, last, h, goal);
          return false, 0, offsetTgt, last;
        }
        return true, next, offsetTgt, last;
      }
      ok := true;
      next, end, id := ScanCommittedRecord(tgtId, cursor, offsetTgt, last, h);
    }

    /** One pass of the defrag_page loop over a committed header `h` just below `cursor`. */
    method ScanCommittedRecord(tgtId: nat, cursor: nat, offsetTgt: nat, last: nat, h: LineHeader) returns (next: nat, end: nat, id: nat)
      requires Valid() && IsPage(activedPage) && tgtId == OtherPage()
      requires PAGE_HEADER_SIZE + LINE_HEADER_SIZE <= cursor <= pageSize && LINE_HEADER_SIZE <= offsetTgt <= pageSize
      requires h == HeaderAt(Flash(activedPage)[..], cursor - LINE_HEADER_SIZE) && h.IsCommitted()
      requires !DefragScan(Flash(activedPage)[..], cursor, Flash(tgtId)[..], offsetTgt, last).OutOfModel?
      modifies Flash(tgtId)
      ensures Valid() && Flash(activedPage)[..] == old(Flash(activedPage)[..])
      ensures next < cursor && LINE_HEADER_SIZE <= end <= pageSize && id == h.id
      ensures DefragScan(Flash(activedPage)[..], cursor, old(Flash(tgtId)[..]), offsetTgt, last) ==
        DefragScan(Flash(activedPage)[..], next, Flash(tgtId)[..], end, id)
    {
      var src, tgt := Flash(activedPage), Flash(tgtId);
      ghost var image, t := src[..], tgt[..];
      ghost var goal := DefragScan(image, cursor, t, offsetTgt, last);
      ScanCommitted(image, cursor, t, offsetTgt, last, h);
      next, end, id := cursor - LINE_HEADER_SIZE - h.len, offsetTgt, h.id;
      if h.id != last {
        var found := FindLineAddress(tgtId, offsetTgt, h.id);
        if found == 0 {
          ScanCopyFits(image, cursor, t, offsetTgt, last, h);
          WordsWithHeader(h.len);
          end := offsetTgt + h.len + LINE_HEADER_SIZE;
          CopyLine(tgtId, offsetTgt, h.len + LINE_HEADER_SIZE, next);
          ScanCopies(image, cursor, t, offsetTgt, last, h, tgt[..], goal, next, end);
          return;
        }
      }
      ScanKeeps(image, cursor, t, offsetTgt, last, h, goal, next);
    }

    /**
     * The loop of defrag_page: scan the active page downward from ctindex
     * and copy the newest committed record of every id into page `tgtId`
     * after its page header. It ends with `ok` when the scan reaches the
     * page header, and without it when a skipped header's length runs past
     * the cursor; `offsetTgt` is the end of the copies either way.
     */
    method CopyRecords(tgtId: nat) returns (ok: bool, offsetTgt: nat)
      requires Valid() && IsPage(activedPage) && tgtId == OtherPage() && LINE_HEADER_SIZE <= ctIndex <= pageSize
      requires !Defrag(Flash(activedPage)[..], ctIndex, Flash(tgtId)[..]).OutOfModel?
      modifies Flash(tgtId)
      ensures Valid()
      ensures Defrag(Flash(activedPage)[..], ctIndex, old(Flash(tgtId)[..])) ==
        if ok then Done(Flash(tgtId)[..], offsetTgt) else Corrupt(Flash(tgtId)[..], offsetTgt)
    {
      var src, tgt := Flash(activedPage), Flash(tgtId);
      ghost var image, goal := src[..], Defrag(src[..], ctIndex, tgt[..]);
      offsetTgt := PAGE_HEADER_SIZE;
      var cursor: nat := ctIndex;
      var last := NO_LINE_ID;
      while cursor >= PAGE_HEADER_SIZE + LINE_HEADER_SIZE
        invariant LINE_HEADER_SIZE <= offsetTgt <= pageSize && cursor <= pageSize
        invariant Valid() && Flash(tgtId) == tgt && src[..] == image
        invariant DefragScan(image, cursor, tgt[..], offsetTgt, last) == goal
        decreases cursor
      {
        var more, next, end, id := ScanRecord(tgtId, cursor, offsetTgt, last);
        if !more {
          return false, offsetTgt;
        }
        cursor, offsetTgt, last := next, end, id;
      }
      ok := true;
    }

    /**
     * defrag_page(activedpage): the records are copied into the other page;
     * when the scan completes, that page is activated with ctindex at the
     * end of the copies and the source page is erased (0). A scan stopped
     * by a corrupt header leaves the registers as they were (-1).
     */
    method DefragPage(srcId: nat) returns (rc: int)
      requires Valid() && srcId == activedPage && IsPage(srcId) && LINE_HEADER_SIZE <= ctIndex <= pageSize
      requires !Defrag(Flash(srcId)[..], ctIndex, Flash(OtherPage())[..]).OutOfModel?
      modifies this, flashA, flashB
      ensures Valid() && Engine.DefragPage(old(Snapshot()), stackLen) == Next(Snapshot(), rc)
    {
      var tgtId := if srcId == pageAId then pageBId else pageAId;
      var ok, offsetTgt := CopyRecords(tgtId);
      if !ok {
        return -1;
      }
      ActivePage(tgtId);
      ctIndex := offsetTgt;
      rc := ErasePage(srcId);
    }

    /**
     * The first half of check_nvmm: page A, then page B, are classified by
     * their marker, what is unrecognised or doubly Active is cleaned, and
     * activedpage is set to the Active page that remains.
     */
    method ClassifyPages() returns (dummyPage: nat)
      requires Valid()
      modifies this, flashA, flashB
      ensures Valid() && Classified(Snapshot(), dummyPage) == Engine.ClassifyPages(old(Snapshot()))
    {
      ghost var st := Snapshot();
      dummyPage := PAGE_NULL;
      activedPage := PAGE_NULL;
      var sa := StateOf(Flash(pageAId)[..]);
      if sa == Active {
        activedPage := pageAId;
      } else if sa == Dummy {
        dummyPage := pageAId;
      } else {
        CleanPage(pageAId);
      }
      ghost var st1 := if sa == Unrecognised then Engine.CleanPage(st, pageAId) else st;
      assert Snapshot() == st1.(active := activedPage);
      var sb := StateOf(Flash(pageBId)[..]);
      if sb == Active {
        if activedPage == PAGE_NULL {
          activedPage := pageBId;
        } else {
          CleanPage(activedPage);
          CleanPage(pageBId);
          activedPage := PAGE_NULL;
        }
      } else if sb == Dummy {
        dummyPage := pageBId;
      } else {
        CleanPage(pageBId);
      }
    }

    /**
     * check_nvmm: classify both pages, then activate page A, or finish an
     * interrupted compaction from the Dummy page, or erase the Dummy page
     * and locate ctindex on the Active one. It returns 0.
     */
    method CheckNvmm() returns (rc: int)
      requires Valid() && Engine.CheckNvmm(Snapshot(), stackLen).Next?
      modifies this, flashA, flashB
      ensures Valid() && Engine.CheckNvmm(old(Snapshot()), stackLen) == Next(Snapshot(), rc)
    {
      var dummyPage := ClassifyPages();
      ghost var st := Snapshot();
      if activedPage == PAGE_NULL {
        if dummyPage == PAGE_NULL {
          ActivePage(pageAId);
          ctIndex := PAGE_HEADER_SIZE;
          return 0;
        }
        activedPage := dummyPage;
        LocateCtindex();
        assert Snapshot() == Locate(st.(active := dummyPage));
        var _ := DefragPage(dummyPage);
      } else {
        if dummyPage != PAGE_NULL {
          var _ := ErasePage(dummyPage);
        }
        LocateCtindex();
      }
      return 0;
    }

    /**
     * g_init_nvmm: -1 when a flash callback is missing; otherwise the page
     * ids and the page size that are not 0xFFFF replace the configured
     * ones, and check_nvmm runs.
     */
    method Init(haveRead: bool, haveWrite: bool, haveErase: bool, pageA: nat, pageB: nat, size: nat) returns (rc: int)
      requires flashA != flashB && stackLen < 0x1_0000
      requires InitNvmm(Snapshot(), haveRead, haveWrite, haveErase, pageA, pageB, size, stackLen).Next?
      modifies this, flashA, flashB
      ensures InitNvmm(old(Snapshot()), haveRead, haveWrite, haveErase, pageA, pageB, size, stackLen) == Next(Snapshot(), rc)
      ensures rc == 0 ==> Valid()
    {
      if !haveRead || !haveWrite || !haveErase {
        return -1;
      }
      if pageA != USE_DEFAULT {
        pageAId := pageA;
      }
      if pageB != USE_DEFAULT {
        pageBId := pageB;
      }
      if size != USE_DEFAULT {
        pageSize := size;
      }
      ghost var st := old(Snapshot()).(g := Geometry(pageAId, pageBId, pageSize));
      assert Snapshot() == st && st.Fits();
      rc := CheckNvmm();
    }

    /**
     * The comparison loop of g_write_nvmm: the bytes of the active page
     * from `offset` on are compared with `dat` until the first difference.
     * `overrun` reports a comparison that reaches the end of the page with
     * no difference and bytes still to compare, where the source goes on
     * reading the flash after the page.
     */
    method SameData(offset: nat, len: nat, dat: seq<byte>) returns (same: bool, overrun: bool)
      requires Valid() && IsPage(activedPage) && offset <= pageSize && len <= |dat|
      ensures same <==> SameBytes(Flash(activedPage)[..], offset, dat, len)
      ensures overrun <==> Overruns(Flash(activedPage)[..], offset, dat, len)
      ensures !(same && overrun)
    {
      var page := Flash(activedPage);
      var i, at := 0, offset;
      while i < len && at < pageSize && page[at] == dat[i]
        invariant i <= len && at == offset + i <= pageSize
        invariant page[offset..at] == dat[..i]
      {
        i, at := i + 1, at + 1;
      }
      same := i == len;
      overrun := i < len && at == pageSize;
    }

    /** The compaction g_write_nvmm starts with when the record does not fit. */
    method MakeRoom(len: nat)
      requires Valid() && IsPage(activedPage) && LINE_HEADER_SIZE <= ctIndex <= pageSize
      requires Engine.MakeRoom(Snapshot(), len, stackLen).Next?
      modifies this, flashA, flashB
      ensures Valid() && Snapshot() == Engine.MakeRoom(old(Snapshot()), len, stackLen).st
    {
      if ctIndex + PadLength(len) + PAGE_HEADER_SIZE > pageSize {
        DummyActivedPage();
        var _ := DefragPage(activedPage);
      }
    }

    /**
     * g_write_nvmm: nothing is written when the newest record of `id`
     * starts with the `len` bytes of `dat`; otherwise the active page is
     * compacted first when the padded record does not fit, and the record
     * is appended at ctindex. It returns 0.
     */
    method Write(id: nat, len: nat, dat: seq<byte>) returns (rc: int)
      requires Valid() && IsPage(activedPage) && LINE_HEADER_SIZE <= ctIndex <= pageSize
      requires id < 0x1_0000 && |dat| == PadLength(len)
      requires WriteNvmm(Snapshot(), id, len, dat, stackLen).Next?
      modifies this, flashA, flashB
      ensures Valid() && WriteNvmm(old(Snapshot()), id, len, dat, stackLen) == Next(Snapshot(), rc)
    {
      ghost var st := Snapshot();
      var offset := FindLineAddress(activedPage, ctIndex, id);
      if offset > 0 {
        var same, overrun := SameData(offset, len, dat);
        if same {
          return 0;
        }
        // a comparison past the page end is outside the model, which the requires rules out
        assert !overrun;
      }
      assert !IsNoOp(st, id, len, dat);
      var padded := PadLength(len);
      MakeRoom(len);
      AppendRecord(id, padded, dat);
      return 0;
    }

    /** The end of g_write_nvmm: write_line at ctindex in the active page, and ctindex moved past the record. */
    method AppendRecord(id: nat, len: nat, dat: seq<byte>)
      requires Valid() && IsPage(activedPage) && ctIndex + len + LINE_HEADER_SIZE <= pageSize
      requires |dat| == len && len % 4 == 0 && id < 0x1_0000 && len < 0x1_0000
      modifies this, Flash(activedPage)
      ensures Valid() && Snapshot() == AppendLine(old(Snapshot()), id, len, dat)
    {
      ghost var st := Snapshot();
      WriteLine(activedPage, ctIndex, id, len, dat);
      ctIndex := ctIndex + len + LINE_HEADER_SIZE;
      AppendLineFacts(st, id, len, dat);
    }

    /**
     * g_read_nvmm: -1 for a null buffer, a zero length or size, a buffer
     * shorter than `len`, or an id with no record; otherwise 0 and the
     * `len` bytes of the active page from the start of the newest record of
     * `id`, past its end when `len` exceeds its length. The requires leaves
     * out the reads `Engine.ReadNvmm` does not model.
     */
    method Read(id: nat, len: nat, bufNull: bool, bufsize: nat) returns (rc: int, buf: seq<byte>)
      requires Valid() && IsPage(activedPage) && LINE_HEADER_SIZE <= ctIndex <= pageSize
      requires !ReadNvmm(Snapshot(), id, len, bufNull, bufsize).ReadUnmodelled?
      ensures rc == 0 || rc == -1
      ensures ReadNvmm(Snapshot(), id, len, bufNull, bufsize) == if rc == 0 then Data(buf) else Failed
    {
      if bufNull || len == 0 || bufsize == 0 || bufsize < len {
        return -1, [];
      }
      var offset := FindLineAddress(activedPage, ctIndex, id);
      if offset != 0 {
        return 0, Flash(activedPage)[offset..offset + len];
      }
      return -1, [];
    }
  }
}
