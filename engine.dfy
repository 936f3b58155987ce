/**
 * The engine of nvmm.c on snapshots: the two flash pages, the registers
 * activedpage and ctindex, the geometry g_init_nvmm sets, and each routine
 * of the engine as a function from the state before to the state after.
 * The class in nvmm.dfy runs the loops of the source and is proved to
 * compute exactly these functions; the lemmas in engine_props.dfy prove
 * what the engine promises about them.
 */
module Engine {
  import opened Layout
  import opened FlashImage
  import opened LineLog
  import opened LineWrite
  import opened Compaction

  /** The configuration g_init_nvmm sets: the flash page ids of pages A and B and the page size. */
  datatype Geometry = Geometry(aId: nat, bId: nat, size: nat)
  {
    /**
     * The configurations the engine works with: two distinct page ids that
     * are not NVMM_PAGE_NULL and fit the uint8_t parameter of clean_page,
     * and a word-aligned uint16 page size with room for a page header and
     * one word.
     */
    predicate Valid() {
      aId != PAGE_NULL && bId != PAGE_NULL && aId != bId && aId < 256 && bId < 256 &&
      size % 4 == 0 && PAGE_HEADER_SIZE + 4 <= size < 0x1_0000
    }

    /** The page defrag_page copies into. */
    function Other(id: nat): nat {
      if id == aId then bId else aId
    }
  }

  /** Both flash pages, activedpage and ctindex. */
  datatype State = State(g: Geometry, a: seq<byte>, b: seq<byte>, active: nat, ct: nat)
  {
    /** A valid geometry whose pages have the configured size. */
    predicate Fits() {
      g.Valid() && |a| == g.size && |b| == g.size
    }

    predicate IsPage(id: nat) {
      id == g.aId || id == g.bId
    }

    /** FLASH_ADDRESS(id, 0): the page the id names. */
    function Page(id: nat): seq<byte> {
      if id == g.aId then a else b
    }

    function SetPage(id: nat, p: seq<byte>): State {
      if id == g.aId then this.(a := p) else this.(b := p)
    }
  }

  /** Replacing one page: that page reads back as the new image, the other page and the registers stay. */
  lemma SetPageFacts(st: State, id: nat, p: seq<byte>)
    requires st.Fits() && st.IsPage(id) && |p| == st.g.size
    ensures var r := st.SetPage(id, p);
      r.Fits() && r.g == st.g && r.active == st.active && r.ct == st.ct &&
      r.Page(id) == p && r.Page(st.g.Other(id)) == st.Page(st.g.Other(id))
  {
  }

  /** The result of a routine: the new state and its return code, or a path the model leaves out. */
  datatype Step = Next(st: State, rc: int) | Unmodelled

  /** erase_page: the page reads back as 0xFF everywhere. */
  function ErasePage(st: State, id: nat): (r: State)
    requires st.Fits() && st.IsPage(id)
    ensures r.Fits()
  {
    st.SetPage(id, Erased(st.g.size))
  }

  /** active_page: the Active page header programmed at offset 0, and the page becomes activedpage. */
  function ActivatePage(st: State, id: nat, stackLen: nat): (r: State)
    requires st.Fits() && st.IsPage(id) && stackLen < 0x1_0000
    ensures r.Fits()
  {
    st.SetPage(id, Program(st.Page(id), 0, PageHeaderBytes(ACTIVE_PAGE_STATE, stackLen))).(active := id)
  }

  /** dummy_activedpage: the Dummy marker 0 programmed over the marker of the active page. */
  function MarkDummy(st: State): (r: State)
    requires st.Fits() && st.IsPage(st.active)
    ensures r.Fits()
  {
    st.SetPage(st.active, Program(st.Page(st.active), 0, LE32(DUMMY_PAGE_STATE)))
  }

  /** locate_ctindex on the active page. */
  function Locate(st: State): (r: State)
    requires st.Fits() && st.IsPage(st.active)
    ensures r.Fits() && PAGE_HEADER_SIZE + 4 <= r.ct <= r.g.size
  {
    LocateIndexIsHighestDelimiter(st.Page(st.active));
    st.(ct := LocateIndex(st.Page(st.active)))
  }

  /**
   * defrag_page(activedpage): the scan copies into the other page; when it
   * completes, that page is activated with ctindex at the end of the copies
   * and the source page is erased (return 0). A corrupt chain stops it with
   * the copies made so far and the registers unchanged (return -1).
   */
  function DefragPage(st: State, stackLen: nat): (r: Step)
    requires st.Fits() && st.IsPage(st.active) && LINE_HEADER_SIZE <= st.ct <= st.g.size && stackLen < 0x1_0000
    ensures r.Next? ==> r.st.Fits() && r.st.g == st.g && (r.rc == 0 || r.rc == -1)
    ensures r.Next? && r.rc == 0 ==>
      r.st.active == st.g.Other(st.active) && PAGE_HEADER_SIZE <= r.st.ct <= r.st.g.size &&
      r.st.Page(st.active) == Erased(st.g.size)
    ensures r.Next? && r.rc == -1 ==>
      r.st.active == st.active && r.st.ct == st.ct && r.st.Page(st.active) == st.Page(st.active)
  {
    var src, tgt := st.active, st.g.Other(st.active);
    match Defrag(st.Page(src), st.ct, st.Page(tgt))
    case Done(t, e) =>
      var s := ActivatePage(st.SetPage(tgt, t), tgt, stackLen).(ct := e);
      Next(ErasePage(s, src), 0)
    case Corrupt(t, _) => Next(st.SetPage(tgt, t), -1)
    case OutOfModel => Unmodelled
  }

  /** write_line at ctindex in the active page, then ctindex moved past the record. */
  function AppendLine(st: State, id: nat, len: nat, dat: seq<byte>): (r: State)
    requires st.Fits() && st.IsPage(st.active) && st.ct + len + LINE_HEADER_SIZE <= st.g.size
    requires |dat| == len && id < 0x1_0000 && len < 0x1_0000
    ensures r.Fits()
  {
    st.SetPage(st.active, WriteLine(st.Page(st.active), st.ct, id, len, dat)).(ct := st.ct + len + LINE_HEADER_SIZE)
  }

  /** After an append, the active page holds the written record and nothing else of the state changes but ctindex. */
  lemma AppendLineFacts(st: State, id: nat, len: nat, dat: seq<byte>)
    requires st.Fits() && st.IsPage(st.active) && st.ct + len + LINE_HEADER_SIZE <= st.g.size
    requires |dat| == len && id < 0x1_0000 && len < 0x1_0000
    ensures var r := AppendLine(st, id, len, dat);
      r.Fits() && r.g == st.g && r.active == st.active && r.ct == st.ct + len + LINE_HEADER_SIZE &&
      r.Page(r.active) == WriteLine(st.Page(st.active), st.ct, id, len, dat) &&
      r.Page(r.g.Other(r.active)) == st.Page(st.g.Other(st.active))
  {
  }

  /** The comparison loop of g_write_nvmm: the `len` bytes of the page at `r` are the first `len` bytes of `dat`. */
  predicate SameBytes(p: seq<byte>, r: int, dat: seq<byte>, len: nat)
    requires len <= |dat|
  {
    0 <= r && r + len <= |p| && p[r..r + len] == dat[..len]
  }

  /** The lookup g_write_nvmm and g_read_nvmm start with: find_line_address(activedpage, ctindex, id). */
  function Lookup(st: State, id: nat): int
    requires st.Fits() && st.IsPage(st.active) && LINE_HEADER_SIZE <= st.ct <= st.g.size
  {
    LineAddress(st.Page(st.active), st.ct, id)
  }

  /**
   * The comparison loop of g_write_nvmm reaches the end of the page with
   * every byte so far equal and bytes of `dat` still to compare: the source
   * goes on reading the flash after the page.
   */
  predicate Overruns(p: seq<byte>, r: int, dat: seq<byte>, len: nat)
    requires len <= |dat|
  {
    0 <= r <= |p| < r + len && p[r..] == dat[..|p| - r]
  }

  /** g_write_nvmm finds a record of `id` whose first `len` bytes are `dat`: it writes nothing. */
  predicate IsNoOp(st: State, id: nat, len: nat, dat: seq<byte>)
    requires st.Fits() && st.IsPage(st.active) && LINE_HEADER_SIZE <= st.ct <= st.g.size && len <= |dat|
  {
    var r := Lookup(st, id);
    r > 0 && SameBytes(st.Page(st.active), r, dat, len)
  }

  /** g_write_nvmm's comparison with the record it found runs past the end of the active page. */
  predicate ComparisonOverruns(st: State, id: nat, len: nat, dat: seq<byte>)
    requires st.Fits() && st.IsPage(st.active) && LINE_HEADER_SIZE <= st.ct <= st.g.size && len <= |dat|
  {
    var r := Lookup(st, id);
    r > 0 && Overruns(st.Page(st.active), r, dat, len)
  }

  /** g_write_nvmm compacts first when the padded record and a page header's worth of room do not fit. */
  predicate NeedsCompaction(st: State, len: nat) {
    st.ct + PadLength(len) + PAGE_HEADER_SIZE > st.g.size
  }

  /** The room g_write_nvmm makes before an append: the active page is marked Dummy and compacted when the record does not fit. */
  function MakeRoom(st: State, len: nat, stackLen: nat): (r: Step)
    requires st.Fits() && st.IsPage(st.active) && LINE_HEADER_SIZE <= st.ct <= st.g.size && stackLen < 0x1_0000
    ensures r.Next? ==> r.st.Fits() && r.st.g == st.g && r.st.IsPage(r.st.active) && LINE_HEADER_SIZE <= r.st.ct <= r.st.g.size
    ensures !NeedsCompaction(st, len) ==> r == Next(st, 0)
  {
    if NeedsCompaction(st, len) then DefragPage(MarkDummy(st), stackLen) else Next(st, 0)
  }

  /**
   * g_write_nvmm(id, len, dat): nothing when the lookup finds the same
   * bytes; otherwise, when the padded record does not fit, the active page
   * is marked Dummy and compacted, and the record is appended at ctindex.
   * `dat` holds the PAD_LENGTH(len) bytes write_line reads from the
   * caller's buffer. The model stops where the source would wrap the
   * lookup result, compare bytes past the end of the page, write a length
   * field that is not legal or write past the end of the page.
   */
  function WriteNvmm(st: State, id: nat, len: nat, dat: seq<byte>, stackLen: nat): (r: Step)
    requires st.Fits() && st.IsPage(st.active) && LINE_HEADER_SIZE <= st.ct <= st.g.size
    requires id < 0x1_0000 && |dat| == PadLength(len) && stackLen < 0x1_0000
    ensures r.Next? ==> (r.rc == 0 && r.st.Fits() && r.st.g == st.g && r.st.IsPage(r.st.active) &&
                         LINE_HEADER_SIZE <= r.st.ct <= r.st.g.size)
    ensures r.Next? && !IsNoOp(st, id, len, dat) ==> r.st.ct >= PadLength(len) + 2 * LINE_HEADER_SIZE
  {
    if Lookup(st, id) < 0 then Unmodelled
    else if IsNoOp(st, id, len, dat) then Next(st, 0)
    else if ComparisonOverruns(st, id, len, dat) then Unmodelled
    else
      var padded := PadLength(len);
      var s1 := MakeRoom(st, len, stackLen);
      if s1.Unmodelled? || !IsLineLengthLegal(padded) then Unmodelled
      else if s1.st.ct + padded + LINE_HEADER_SIZE > s1.st.g.size || !s1.st.IsPage(s1.st.active) then Unmodelled
      else Next(AppendLine(s1.st, id, padded, dat), 0)
  }

  /** What g_read_nvmm hands back: the bytes read (return 0), or -1. */
  datatype ReadResult = Data(bytes: seq<byte>) | Failed | ReadUnmodelled

  /**
   * g_read_nvmm(id, len, buf, bufsize): -1 for a null buffer, a zero length
   * or size, or a buffer shorter than `len`; -1 when the lookup gives 0;
   * otherwise the `len` bytes of the active page at the offset found, which
   * run on past the record when `len` exceeds its length. A negative lookup
   * result, or `len` bytes that run past the end of the page, are not
   * modelled.
   */
  function ReadNvmm(st: State, id: nat, len: nat, bufNull: bool, bufsize: nat): (r: ReadResult)
    requires st.Fits() && st.IsPage(st.active) && LINE_HEADER_SIZE <= st.ct <= st.g.size
    ensures r.Data? ==> !bufNull && 0 < len <= bufsize && |r.bytes| == len && Lookup(st, id) > 0
    ensures Lookup(st, id) == 0 ==> r == Failed
  {
    if bufNull || len == 0 || bufsize == 0 || bufsize < len then Failed
    else
      var r := Lookup(st, id);
      if r == 0 then Failed
      else if r < 0 || r + len > st.g.size then ReadUnmodelled
      else Data(st.Page(st.active)[r..r + len])
  }

  /** clean_page: erased afterwards, whether or not it needed the erase. */
  function CleanPage(st: State, id: nat): (r: State)
    requires st.Fits() && st.IsPage(id)
    ensures r.Fits()
  {
    ErasePage(st, id)
  }

  /** What check_nvmm has found after looking at both pages: the state with activedpage set, and the Dummy page (or NVMM_PAGE_NULL). */
  datatype Classified = Classified(st: State, dummy: nat)

  /**
   * The first half of check_nvmm: page A, then page B, are classified by
   * their marker; an unrecognised page is cleaned, and a second Active
   * page makes both be cleaned. activedpage is the Active page that
   * remains, or NVMM_PAGE_NULL.
   */
  function ClassifyPages(st: State): (r: Classified)
    requires st.Fits()
    ensures r.st.Fits() && r.st.g == st.g && r.st.ct == st.ct
    ensures r.st.active == PAGE_NULL || r.st.IsPage(r.st.active)
    ensures r.dummy == PAGE_NULL || (r.st.IsPage(r.dummy) && r.dummy != r.st.active)
  {
    var g := st.g;
    var sa := StateOf(st.a);
    var st1 := if sa == Unrecognised then CleanPage(st, g.aId) else st;
    var act1 := if sa == Active then g.aId else PAGE_NULL;
    var dummy1 := if sa == Dummy then g.aId else PAGE_NULL;
    var sb := StateOf(st.b);
    var st2 :=
      if sb == Active && act1 != PAGE_NULL then CleanPage(CleanPage(st1, act1), g.bId)
      else if sb == Unrecognised then CleanPage(st1, g.bId)
      else st1;
    var act2 := if sb == Active then (if act1 == PAGE_NULL then g.bId else PAGE_NULL) else act1;
    var dummy2 := if sb == Dummy then g.bId else dummy1;
    Classified(st2.(active := act2), dummy2)
  }

  /**
   * The second half of check_nvmm: with no Active page and no Dummy page,
   * page A is activated with ctindex 12; with only a Dummy page, that page
   * is located and compacted; with an Active page, a Dummy page is erased
   * and ctindex is located. It returns 0.
   */
  function Resume(st: State, dummy: nat, stackLen: nat): (r: Step)
    requires st.Fits() && stackLen < 0x1_0000
    requires st.active == PAGE_NULL || st.IsPage(st.active)
    requires dummy == PAGE_NULL || st.IsPage(dummy)
    ensures r.Next? ==> (r.rc == 0 && r.st.Fits() && r.st.g == st.g && r.st.IsPage(r.st.active) &&
                         LINE_HEADER_SIZE <= r.st.ct <= r.st.g.size)
  {
    if st.active == PAGE_NULL then
      if dummy == PAGE_NULL then Next(ActivatePage(st, st.g.aId, stackLen).(ct := PAGE_HEADER_SIZE), 0)
      else
        match DefragPage(Locate(st.(active := dummy)), stackLen)
        case Next(s, _) => Next(s, 0)
        case Unmodelled => Unmodelled
    else
      var st3 := if dummy != PAGE_NULL then ErasePage(st, dummy) else st;
      Next(Locate(st3), 0)
  }

  /** check_nvmm: classify the pages, then resume from what was found. */
  function CheckNvmm(st: State, stackLen: nat): (r: Step)
    requires st.Fits() && stackLen < 0x1_0000
    ensures r.Next? ==> (r.rc == 0 && r.st.Fits() && r.st.g == st.g && r.st.IsPage(r.st.active) &&
                         LINE_HEADER_SIZE <= r.st.ct <= r.st.g.size)
  {
    var c := ClassifyPages(st);
    Resume(c.st, c.dummy, stackLen)
  }

  /**
   * g_init_nvmm: -1 when a callback is missing; otherwise the page ids and
   * the page size (0xFFFF keeps the one configured before) and then
   * check_nvmm. `|st.a|` is the size of the flash pages the model holds.
   */
  function InitNvmm(st: State, haveRead: bool, haveWrite: bool, haveErase: bool,
                    pageA: nat, pageB: nat, pageSize: nat, stackLen: nat): (r: Step)
    requires stackLen < 0x1_0000
    ensures r.Next? ==> r.rc == if haveRead && haveWrite && haveErase then 0 else -1
    ensures r.Next? && r.rc == 0 ==> r.st.Fits() && r.st.IsPage(r.st.active) && LINE_HEADER_SIZE <= r.st.ct <= r.st.g.size
    ensures r.Next? && r.rc == -1 ==> r.st == st
  {
    if !haveRead || !haveWrite || !haveErase then Next(st, -1)
    else
      var g := Geometry(if pageA != USE_DEFAULT then pageA else st.g.aId,
                        if pageB != USE_DEFAULT then pageB else st.g.bId,
                        if pageSize != USE_DEFAULT then pageSize else st.g.size);
      var s := st.(g := g);
      if s.Fits() then CheckNvmm(s, stackLen) else Unmodelled
  }

  // -------------------------------------------------- the abstraction

  /**
   * The state every API call leaves behind: the active page carries the
   * Active marker and a well-formed chain of records up to ctindex with
   * only erased bytes above it, and the other page is erased.
   */
  predicate Steady(st: State) {
    st.Fits() && st.IsPage(st.active) &&
    StateOf(st.Page(st.active)) == Active &&
    WellFormed(st.Page(st.active), st.ct) && ErasedFrom(st.Page(st.active), st.ct) &&
    IsErased(st.Page(st.g.Other(st.active)))
  }

  /** The records the engine holds: the newest data of every id on the active page. */
  function Contents(st: State): map<nat, seq<byte>>
    requires Steady(st)
  {
    Store(st.Page(st.active), st.ct)
  }
}
