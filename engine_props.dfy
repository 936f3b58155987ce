/**
 * What the engine promises, proved on the functions of module Engine:
 * compaction keeps the newest record of every legal id, g_write_nvmm keeps
 * the engine steady and updates the contents, g_read_nvmm returns what the
 * last write of an id stored.
 */
module EngineProps {
  import opened Layout
  import opened FlashImage
  import opened LineLog
  import opened LineWrite
  import opened Compaction
  import opened Append
  import opened Engine

  /** An erased page is the page erase_page produces. */
  lemma ErasedIsErase(p: seq<byte>)
    requires IsErased(p)
    ensures p == Erased(|p|)
  {
  }

  /**
   * Programming the Active page header over an erased page header keeps the
   * record chain, its store and the erased tail, and makes the marker read
   * Active.
   */
  lemma ActivateChain(t: seq<byte>, e: nat, stackLen: nat)
    requires WellFormed(t, e) && ErasedFrom(t, e) && stackLen < 0x1_0000
    requires forall i :: 0 <= i < PAGE_HEADER_SIZE ==> t[i] == ERASED
    ensures var q := Program(t, 0, PageHeaderBytes(ACTIVE_PAGE_STATE, stackLen));
      StateOf(q) == Active && WellFormed(q, e) && Store(q, e) == Store(t, e) && ErasedFrom(q, e)
  {
    var h := PageHeaderBytes(ACTIVE_PAGE_STATE, stackLen);
    var q := Program(t, 0, h);
    ProgramOnErasedBytes(t, 0, h);
    U32AtSame(q, 0, h, 0);
    WellFormedFrame(t, q, e);
  }

  /** Programming the Dummy marker keeps the record chain, its store and the erased tail. */
  lemma MarkDummyChain(p: seq<byte>, c: nat)
    requires WellFormed(p, c) && ErasedFrom(p, c)
    ensures var q := Program(p, 0, LE32(DUMMY_PAGE_STATE));
      StateOf(q) == Dummy && WellFormed(q, c) && Store(q, c) == Store(p, c) && ErasedFrom(q, c)
  {
    var w := LE32(DUMMY_PAGE_STATE);
    var q := Program(p, 0, w);
    ProgramBytes(p, 0, w);
    assert w == [0, 0, 0, 0];
    forall i | 0 <= i < 4
      ensures q[i] == 0
    {
      AndIdentities(p[i]);
    }
    WellFormedFrame(p, q, c);
  }

  /**
   * The scan of defrag_page from a well-formed chain into an erased page,
   * then the Active header programmed over the target: the target is an
   * Active page whose chain holds the newest record of every legal id of
   * the source, no longer than the source chain, with an erased tail.
   */
  lemma DefragImage(src: seq<byte>, c: nat, tgt: seq<byte>, stackLen: nat)
    requires WellFormed(src, c) && IsErased(tgt) && c <= |tgt| && stackLen < 0x1_0000
    ensures var d := Defrag(src, c, tgt);
      d.Done? && d.end <= c &&
      var q := Program(d.tgt, 0, PageHeaderBytes(ACTIVE_PAGE_STATE, stackLen));
      StateOf(q) == Active && WellFormed(q, d.end) && ErasedFrom(q, d.end) && Store(q, d.end) == Legal(Store(src, c))
  {
    assert WellFormed(tgt, PAGE_HEADER_SIZE) && ErasedFrom(tgt, PAGE_HEADER_SIZE) && Store(tgt, PAGE_HEADER_SIZE) == map[];
    DefragScanCorrect(src, c, tgt, PAGE_HEADER_SIZE, NO_LINE_ID);
    var d := Defrag(src, c, tgt);
    assert d.Done? && WellFormed(d.tgt, d.end) && ErasedFrom(d.tgt, d.end) && d.end <= c;
    assert d.tgt[..PAGE_HEADER_SIZE] == tgt[..PAGE_HEADER_SIZE];
    assert Store(d.tgt, d.end) == Legal(Store(src, c));
    forall i | 0 <= i < PAGE_HEADER_SIZE
      ensures d.tgt[i] == ERASED
    {
      assert d.tgt[..PAGE_HEADER_SIZE][i] == tgt[..PAGE_HEADER_SIZE][i];
    }
    ActivateChain(d.tgt, d.end, stackLen);
  }

  /**
   * defrag_page from a well-formed active page into an erased page: the
   * scan completes, the other page becomes the active one holding the
   * newest record of every legal id and nothing else, ctindex does not
   * grow, the source page is erased, and it returns 0.
   */
  lemma DefragSteady(st: State, stackLen: nat)
    requires st.Fits() && st.IsPage(st.active) && WellFormed(st.Page(st.active), st.ct)
    requires IsErased(st.Page(st.g.Other(st.active))) && stackLen < 0x1_0000
    ensures var r := DefragPage(st, stackLen);
      r.Next? && r.rc == 0 && Steady(r.st) && r.st.active == st.g.Other(st.active) && r.st.ct <= st.ct &&
      Contents(r.st) == Legal(Store(st.Page(st.active), st.ct))
  {
    DefragImage(st.Page(st.active), st.ct, st.Page(st.g.Other(st.active)), stackLen);
  }

  /** Marking the active page Dummy and compacting it, from a steady state: the steady state of the compacted contents. */
  lemma CompactSteady(st: State, stackLen: nat)
    requires Steady(st) && stackLen < 0x1_0000
    ensures var r := DefragPage(MarkDummy(st), stackLen);
      r.Next? && r.rc == 0 && Steady(r.st) && r.st.ct <= st.ct && Contents(r.st) == Legal(Contents(st))
  {
    MarkDummyChain(st.Page(st.active), st.ct);
    DefragSteady(MarkDummy(st), stackLen);
  }

  /** An append at or above the page header leaves the marker alone. */
  lemma AppendMarker(p: seq<byte>, c: nat, id: nat, len: nat, dat: seq<byte>)
    requires PAGE_HEADER_SIZE <= c && ErasedFrom(p, c) && c + len + LINE_HEADER_SIZE <= |p|
    requires |dat| == len && id < 0x1_0000 && len < 0x1_0000
    ensures StateOf(WriteLine(p, c, id, len, dat)) == StateOf(p)
  {
    WriteLineFrame(p, c, id, len, dat);
    U32AtSame(WriteLine(p, c, id, len, dat), 0, p, 0);
  }

  /** An append on a page keeps its marker, extends its chain and keeps the tail erased. */
  lemma AppendPage(p: seq<byte>, c: nat, id: nat, len: nat, dat: seq<byte>)
    requires WellFormed(p, c) && ErasedFrom(p, c) && c + len + LINE_HEADER_SIZE <= |p|
    requires |dat| == len && id < 0x1_0000 && IsLineLengthLegal(len) && len % 4 == 0
    ensures var q := WriteLine(p, c, id, len, dat);
      StateOf(q) == StateOf(p) && WellFormed(q, c + len + LINE_HEADER_SIZE) &&
      ErasedFrom(q, c + len + LINE_HEADER_SIZE) && Store(q, c + len + LINE_HEADER_SIZE) == Store(p, c)[id := dat]
  {
    AppendRecord(p, c, id, len, dat);
    AppendMarker(p, c, id, len, dat);
  }

  /** Appending a record to a steady state that has room for it: still steady, and the record is the newest of its id. */
  lemma AppendSteady(st: State, id: nat, len: nat, dat: seq<byte>)
    requires Steady(st) && st.ct + len + LINE_HEADER_SIZE <= st.g.size
    requires |dat| == len && id < 0x1_0000 && IsLineLengthLegal(len) && len % 4 == 0
    ensures Steady(AppendLine(st, id, len, dat))
    ensures Contents(AppendLine(st, id, len, dat)) == Contents(st)[id := dat]
  {
    var r := AppendLine(st, id, len, dat);
    var p, c := st.Page(st.active), st.ct;
    var q, c2 := WriteLine(p, c, id, len, dat), c + len + LINE_HEADER_SIZE;
    AppendLineFacts(st, id, len, dat);
    assert r.Fits() && r.IsPage(r.active) && r.Page(r.active) == q && r.ct == c2 && IsErased(r.Page(r.g.Other(r.active)));
    assert WellFormed(p, c) && ErasedFrom(p, c) && StateOf(p) == Active && Contents(st) == Store(p, c);
    AppendPage(p, c, id, len, dat);
  }

  /**
   * g_write_nvmm from a steady state, wherever the model covers it: it
   * returns 0, leaves a steady state, and the contents are unchanged for a
   * no-op write; otherwise they map `id` to the padded data, after the
   * records of illegal ids were dropped if the write compacted first.
   */
  lemma WriteSteady(st: State, id: nat, len: nat, dat: seq<byte>, stackLen: nat)
    requires Steady(st) && id < 0x1_0000 && |dat| == PadLength(len) && stackLen < 0x1_0000
    requires WriteNvmm(st, id, len, dat, stackLen).Next?
    ensures var r := WriteNvmm(st, id, len, dat, stackLen);
      r.rc == 0 && Steady(r.st) &&
      Contents(r.st) ==
        if IsNoOp(st, id, len, dat) then Contents(st)
        else (if NeedsCompaction(st, len) then Legal(Contents(st)) else Contents(st))[id := dat]
  {
    if !IsNoOp(st, id, len, dat) {
      var padded := PadLength(len);
      if NeedsCompaction(st, len) {
        CompactSteady(st, stackLen);
        AppendSteady(DefragPage(MarkDummy(st), stackLen).st, id, padded, dat);
      } else {
        AppendSteady(st, id, padded, dat);
      }
    }
  }

  /**
   * Without compaction, g_write_nvmm of a legal padded length is covered by
   * the model exactly when its comparison with the id's newest record stays
   * inside the page.
   */
  lemma WriteCovered(st: State, id: nat, len: nat, dat: seq<byte>, stackLen: nat)
    requires Steady(st) && id < 0x1_0000 && |dat| == PadLength(len) && stackLen < 0x1_0000
    requires IsLineLengthLegal(PadLength(len)) && !NeedsCompaction(st, len)
    ensures WriteNvmm(st, id, len, dat, stackLen).Next? <==> !ComparisonOverruns(st, id, len, dat)
  {
    FindLineNewest(st.Page(st.active), st.ct, id);
  }

  /**
   * g_read_nvmm on a steady state: -1 for bad arguments and for an id with
   * no record; otherwise the first `len` bytes of the newest record of the
   * id, when the record has that many.
   */
  lemma ReadContents(st: State, id: nat, len: nat, bufNull: bool, bufsize: nat)
    requires Steady(st)
    ensures bufNull || len == 0 || bufsize == 0 || bufsize < len ==> ReadNvmm(st, id, len, bufNull, bufsize) == Failed
    ensures id !in Contents(st) ==> ReadNvmm(st, id, len, bufNull, bufsize) == Failed
    ensures !bufNull && 0 < len <= bufsize && id in Contents(st) && len <= |Contents(st)[id]| ==>
      ReadNvmm(st, id, len, bufNull, bufsize) == Data(Contents(st)[id][..len])
  {
    var p := st.Page(st.active);
    FindLineNewest(p, st.ct, id);
    var r := Lookup(st, id);
    assert r >= 0 && (r > 0 <==> id in Contents(st));
    if id in Contents(st) && len <= |Contents(st)[id]| {
      var v := Contents(st)[id];
      assert r + |v| <= st.g.size && p[r..r + |v|] == v;
      assert p[r..r + len] == v[..len];
    }
  }

  /**
   * A read after a write of the same id returns the bytes written: when the
   * write was a no-op the stored bytes already were those, otherwise the
   * new record is the newest one of the id.
   */
  lemma ReadAfterWrite(st: State, id: nat, len: nat, dat: seq<byte>, stackLen: nat, bufsize: nat)
    requires Steady(st) && id < 0x1_0000 && |dat| == PadLength(len) && stackLen < 0x1_0000
    requires WriteNvmm(st, id, len, dat, stackLen).Next? && 0 < len <= bufsize
    ensures ReadNvmm(WriteNvmm(st, id, len, dat, stackLen).st, id, len, false, bufsize) == Data(dat[..len])
  {
    WriteSteady(st, id, len, dat, stackLen);
    var r := WriteNvmm(st, id, len, dat, stackLen).st;
    ReadContents(r, id, len, false, bufsize);
  }

  /**
   * A write that is not a no-op appends one record: ctindex advances by
   * the padded length and a line header, from where it stood or, after a
   * compaction onto the other page, from the end of the copies, which is no
   * higher. Without compaction a word of the page stays free above it.
   */
  lemma WriteAdvance(st: State, id: nat, len: nat, dat: seq<byte>, stackLen: nat)
    requires Steady(st) && id < 0x1_0000 && |dat| == PadLength(len) && stackLen < 0x1_0000
    requires WriteNvmm(st, id, len, dat, stackLen).Next? && !IsNoOp(st, id, len, dat)
    ensures var r := WriteNvmm(st, id, len, dat, stackLen).st;
      (!NeedsCompaction(st, len) ==>
         r.active == st.active && r.ct == st.ct + PadLength(len) + LINE_HEADER_SIZE && r.ct + 4 <= st.g.size) &&
      (NeedsCompaction(st, len) ==>
         r.active == st.g.Other(st.active) && r.ct <= st.ct + PadLength(len) + LINE_HEADER_SIZE)
  {
    var padded := PadLength(len);
    if NeedsCompaction(st, len) {
      CompactSteady(st, stackLen);
      var s1 := DefragPage(MarkDummy(st), stackLen).st;
      AppendLineFacts(s1, id, padded, dat);
    } else {
      AppendLineFacts(st, id, padded, dat);
    }
  }

  /** After a write, the newest record of the id starts with the bytes written: the same write again is a no-op. */
  lemma WriteFindsItself(st: State, id: nat, len: nat, dat: seq<byte>, stackLen: nat)
    requires Steady(st) && id < 0x1_0000 && |dat| == PadLength(len) && stackLen < 0x1_0000
    requires WriteNvmm(st, id, len, dat, stackLen).Next?
    ensures var r := WriteNvmm(st, id, len, dat, stackLen).st;
      Steady(r) && IsNoOp(r, id, len, dat)
  {
    WriteSteady(st, id, len, dat, stackLen);
    var r := WriteNvmm(st, id, len, dat, stackLen).st;
    if IsNoOp(st, id, len, dat) {
      assert r == st;
    } else {
      assert Contents(r)[id] == dat;
      StoredIsNoOp(r, id, len, dat);
    }
  }

  /** A write of the bytes a steady state already holds as the newest record of the id is a no-op. */
  lemma StoredIsNoOp(r: State, id: nat, len: nat, dat: seq<byte>)
    requires Steady(r) && id in Contents(r) && Contents(r)[id] == dat && len <= |dat|
    ensures IsNoOp(r, id, len, dat)
  {
    var p := r.Page(r.active);
    FindLineNewest(p, r.ct, id);
    var a := LineAddress(p, r.ct, id);
    assert p[a..a + |dat|] == dat;
    assert p[a..a + len] == p[a..a + |dat|][..len];
  }

  /**
   * Writing the same bytes to the same id twice: the second write finds
   * them as the newest record and is a no-op, leaving flash and ctindex as
   * the first one left them.
   */
  lemma WriteTwice(st: State, id: nat, len: nat, dat: seq<byte>, stackLen: nat)
    requires Steady(st) && id < 0x1_0000 && |dat| == PadLength(len) && stackLen < 0x1_0000
    requires WriteNvmm(st, id, len, dat, stackLen).Next?
    ensures var r := WriteNvmm(st, id, len, dat, stackLen).st;
      Steady(r) && WriteNvmm(r, id, len, dat, stackLen) == Next(r, 0)
  {
    var r := WriteNvmm(st, id, len, dat, stackLen).st;
    WriteFindsItself(st, id, len, dat, stackLen);
    assert Steady(r) && IsNoOp(r, id, len, dat);
  }

  // ----------------------------------------------------------- recovery

  /** A chain with no record may end at 12 or at 16: the locator gives 16. */
  lemma EmptyChainAt16(p: seq<byte>, c: nat)
    requires WellFormed(p, c) && c < PAGE_HEADER_SIZE + 4 && PAGE_HEADER_SIZE + 4 <= |p|
    ensures WellFormed(p, PAGE_HEADER_SIZE + 4) && Store(p, PAGE_HEADER_SIZE + 4) == Store(p, c) == map[]
  {
  }

  /**
   * check_nvmm with page `x` Active and the other page not: the other page
   * ends up erased (cleaned when unrecognised, erased when Dummy), `x`
   * becomes activedpage untouched, and ctindex is located on it.
   */
  lemma RecoverWithActive(st: State, x: nat, stackLen: nat)
    requires st.Fits() && st.IsPage(x) && stackLen < 0x1_0000
    requires StateOf(st.Page(x)) == Active && StateOf(st.Page(st.g.Other(x))) != Active
    ensures var r := CheckNvmm(st, stackLen);
      r.Next? && r.rc == 0 && r.st.g == st.g && r.st.active == x && r.st.Page(x) == st.Page(x) &&
      IsErased(r.st.Page(st.g.Other(x))) && r.st.ct == LocateIndex(st.Page(x))
  {
  }

  /**
   * Start-up with page `x` Active, holding a well-formed chain up to `c`
   * with an erased tail, and the other page Dummy or unrecognised: the
   * engine is steady on `x` with the records of that chain, and ctindex is
   * `c` (16 when the chain is empty).
   */
  lemma RecoverActive(st: State, x: nat, c: nat, stackLen: nat)
    requires st.Fits() && st.IsPage(x) && stackLen < 0x1_0000
    requires StateOf(st.Page(x)) == Active && StateOf(st.Page(st.g.Other(x))) != Active
    requires WellFormed(st.Page(x), c) && ErasedFrom(st.Page(x), c)
    ensures var r := CheckNvmm(st, stackLen);
      r.Next? && r.rc == 0 && Steady(r.st) && r.st.active == x && r.st.Page(x) == st.Page(x) &&
      r.st.ct == (if c < PAGE_HEADER_SIZE + 4 then PAGE_HEADER_SIZE + 4 else c) &&
      Contents(r.st) == Store(st.Page(x), c)
  {
    RecoverWithActive(st, x, stackLen);
    LocateWellFormed(st.Page(x), c);
    if c < PAGE_HEADER_SIZE + 4 {
      EmptyChainAt16(st.Page(x), c);
    }
  }

  /** Start-up from a steady state (a reset between API calls) changes no record and no byte of flash. */
  lemma RecoverSteady(st: State, stackLen: nat)
    requires Steady(st) && stackLen < 0x1_0000
    ensures var r := CheckNvmm(st, stackLen);
      r.Next? && r.rc == 0 && Steady(r.st) && r.st.a == st.a && r.st.b == st.b && r.st.active == st.active &&
      Contents(r.st) == Contents(st)
  {
    var o := st.Page(st.g.Other(st.active));
    U32AtSame(o, 0, LE32(ERASED_WORD), 0);
    RecoverActive(st, st.active, st.ct, stackLen);
    ErasedIsErase(o);
    if st.ct < PAGE_HEADER_SIZE + 4 {
      EmptyChainAt16(st.Page(st.active), st.ct);
    }
  }

  /** The state check_nvmm builds when it starts afresh: both pages erased, page A activated, ctindex 12. */
  function FreshState(st: State, stackLen: nat): (r: State)
    requires st.Fits() && stackLen < 0x1_0000
    ensures Steady(r) && r.active == st.g.aId && r.ct == PAGE_HEADER_SIZE && Contents(r) == map[]
  {
    ActivateChain(Erased(st.g.size), PAGE_HEADER_SIZE, stackLen);
    ActivatePage(st.(a := Erased(st.g.size), b := Erased(st.g.size)), st.g.aId, stackLen).(ct := PAGE_HEADER_SIZE)
  }

  /**
   * Start-up with no page in use (neither marker Active nor Dummy), or
   * with both pages Active: both pages are cleaned and page A is
   * activated, empty, with ctindex 12.
   */
  lemma RecoverFresh(st: State, stackLen: nat)
    requires st.Fits() && stackLen < 0x1_0000
    requires (StateOf(st.a) == Unrecognised && StateOf(st.b) == Unrecognised) ||
             (StateOf(st.a) == Active && StateOf(st.b) == Active)
    ensures var r := CheckNvmm(st, stackLen);
      r.Next? && r.rc == 0 && Steady(r.st) && r.st.active == st.g.aId && r.st.ct == PAGE_HEADER_SIZE &&
      Contents(r.st) == map[]
  {
    assert CheckNvmm(st, stackLen) == Next(FreshState(st, stackLen), 0);
  }

  /** A steady chain marked Dummy: the locator finds the same records on it. */
  lemma MarkDummyLocate(p: seq<byte>, c: nat)
    requires |p| >= PAGE_HEADER_SIZE + 4 && |p| % 4 == 0 && WellFormed(p, c) && ErasedFrom(p, c)
    ensures var d := Program(p, 0, LE32(DUMMY_PAGE_STATE));
      StateOf(d) == Dummy && WellFormed(d, LocateIndex(d)) && Store(d, LocateIndex(d)) == Store(p, c)
  {
    var d := Program(p, 0, LE32(DUMMY_PAGE_STATE));
    MarkDummyChain(p, c);
    LocateWellFormed(d, c);
    if c < PAGE_HEADER_SIZE + 4 {
      EmptyChainAt16(d, c);
    }
  }

  /**
   * check_nvmm with page `x` Dummy and the other page unrecognised: the
   * other page is cleaned, then `x` becomes activedpage, ctindex is located
   * on it and it is compacted; the result is 0 whatever defrag_page returns.
   */
  lemma RecoverWithDummy(st: State, x: nat, stackLen: nat)
    requires st.Fits() && st.IsPage(x) && stackLen < 0x1_0000
    requires StateOf(st.Page(x)) == Dummy && StateOf(st.Page(st.g.Other(x))) == Unrecognised
    ensures CheckNvmm(st, stackLen) ==
      match DefragPage(Locate(CleanPage(st, st.g.Other(x)).(active := x)), stackLen)
      case Next(s, _) => Next(s, 0)
      case Unmodelled => Unmodelled
  {
  }

  /**
   * Start-up after a power loss inside a compaction that had marked the
   * active page Dummy but not yet activated the target (whose marker is
   * still unrecognised, whatever was copied into it): the target is
   * cleaned, the Dummy page is compacted again, and the engine is steady on
   * the other page with the records of every legal id.
   */
  lemma RecoverInterruptedCompaction(st: State, x: seq<byte>, stackLen: nat)
    requires Steady(st) && stackLen < 0x1_0000
    requires |x| == st.g.size && StateOf(x) == Unrecognised
    ensures var r := CheckNvmm(MarkDummy(st).SetPage(st.g.Other(st.active), x), stackLen);
      r.Next? && r.rc == 0 && Steady(r.st) && r.st.active == st.g.Other(st.active) &&
      Contents(r.st) == Legal(Contents(st))
  {
    var o := st.g.Other(st.active);
    var p := st.Page(st.active);
    var d := Program(p, 0, LE32(DUMMY_PAGE_STATE));
    MarkDummyLocate(p, st.ct);
    SetPageFacts(st, st.active, d);
    var s1 := MarkDummy(st).SetPage(o, x);
    SetPageFacts(MarkDummy(st), o, x);
    assert s1.g == st.g && s1.Page(st.active) == d && s1.Page(o) == x;
    RecoverDummyChain(s1, st.active, stackLen);
  }

  /**
   * Start-up with page `x` Dummy, holding a well-formed chain up to where
   * the locator stops, and the other page unrecognised: the other page is
   * cleaned, `x` is compacted onto it, and the engine is steady there with
   * the records of every legal id of that chain.
   */
  lemma RecoverDummyChain(st: State, x: nat, stackLen: nat)
    requires st.Fits() && st.IsPage(x) && stackLen < 0x1_0000
    requires StateOf(st.Page(x)) == Dummy && StateOf(st.Page(st.g.Other(x))) == Unrecognised
    requires WellFormed(st.Page(x), LocateIndex(st.Page(x)))
    ensures var r := CheckNvmm(st, stackLen);
      r.Next? && r.rc == 0 && Steady(r.st) && r.st.active == st.g.Other(x) &&
      Contents(r.st) == Legal(Store(st.Page(x), LocateIndex(st.Page(x))))
  {
    var o := st.g.Other(x);
    RecoverWithDummy(st, x, stackLen);
    SetPageFacts(st, o, Erased(st.g.size));
    var s2 := CleanPage(st, o).(active := x);
    assert s2.Fits() && s2.g == st.g && s2.Page(x) == st.Page(x) && s2.Page(o) == Erased(st.g.size);
    var s3 := Locate(s2);
    assert s3.Fits() && s3.active == x && s3.Page(x) == st.Page(x) && s3.ct == LocateIndex(st.Page(x));
    assert IsErased(s3.Page(o));
    DefragSteady(s3, stackLen);
  }

  /**
   * Start-up after a power loss inside a compaction after the target was
   * activated and before the Dummy source page was erased: the target is
   * the Active page, the Dummy page is erased, and the engine is steady on
   * the target with the records of every legal id.
   */
  lemma RecoverAfterActivation(st: State, stackLen: nat)
    requires Steady(st) && stackLen < 0x1_0000
    ensures var m := MarkDummy(st);
      var tgt := st.g.Other(st.active);
      var d := Defrag(m.Page(st.active), st.ct, m.Page(tgt));
      d.Done? &&
      var r := CheckNvmm(ActivatePage(m.SetPage(tgt, d.tgt), tgt, stackLen).(ct := d.end), stackLen);
      r.Next? && r.rc == 0 && Steady(r.st) && r.st.active == tgt && Contents(r.st) == Legal(Contents(st))
  {
    var m := MarkDummy(st);
    var src, tgt := st.active, st.g.Other(st.active);
    var p := st.Page(src);
    MarkDummyChain(p, st.ct);
    assert m.Page(src) == Program(p, 0, LE32(DUMMY_PAGE_STATE)) && m.Page(tgt) == st.Page(tgt);
    DefragImage(m.Page(src), st.ct, m.Page(tgt), stackLen);
    var d := Defrag(m.Page(src), st.ct, m.Page(tgt));
    var s := ActivatePage(m.SetPage(tgt, d.tgt), tgt, stackLen).(ct := d.end);
    assert s.Fits() && s.Page(src) == m.Page(src) &&
      s.Page(tgt) == Program(d.tgt, 0, PageHeaderBytes(ACTIVE_PAGE_STATE, stackLen));
    RecoverActive(s, tgt, d.end, stackLen);
  }

  /** Before the delimiter pass, the locator finds the old chain on the torn page. */
  lemma TornChain(p: seq<byte>, q: seq<byte>, c: nat, id: nat, len: nat, dat: seq<byte>, passes: nat)
    requires |p| >= PAGE_HEADER_SIZE + 4 && |p| % 4 == 0
    requires WellFormed(p, c) && ErasedFrom(p, c) && c + len + LINE_HEADER_SIZE <= |p|
    requires |dat| == len && NoDelimiterWords(dat) && id < 0x1_0000 && IsLineLengthLegal(len) && len % 4 == 0
    requires passes < 4 && PassImage(p, q, c, id, len, dat, passes)
    ensures StateOf(q) == StateOf(p) && WellFormed(q, LocateIndex(q)) && Store(q, LocateIndex(q)) == Store(p, c)
  {
    TornLocate(p, q, c, id, len, dat, passes);
    assert q[0] == PassByte(p, c, id, len, dat, passes, 0) && q[1] == PassByte(p, c, id, len, dat, passes, 1);
    assert q[2] == PassByte(p, c, id, len, dat, passes, 2) && q[3] == PassByte(p, c, id, len, dat, passes, 3);
    U32AtSame(q, 0, p, 0);
    LocateWellFormed(p, c);
    forall i | PAGE_HEADER_SIZE <= i < c
      ensures q[i] == p[i]
    {
      assert q[i] == PassByte(p, c, id, len, dat, passes, i);
    }
    WellFormedFrame(p, q, c);
    if c < PAGE_HEADER_SIZE + 4 {
      EmptyChainAt16(q, c);
    }
  }

  /** After the delimiter pass, the locator finds the chain extended by the new record. */
  lemma TornComplete(p: seq<byte>, c: nat, id: nat, len: nat, dat: seq<byte>)
    requires |p| >= PAGE_HEADER_SIZE + 4 && |p| % 4 == 0
    requires WellFormed(p, c) && ErasedFrom(p, c) && c + len + LINE_HEADER_SIZE <= |p|
    requires |dat| == len && NoDelimiterWords(dat) && id < 0x1_0000 && IsLineLengthLegal(len) && len % 4 == 0
    ensures var q := WriteLine(p, c, id, len, dat);
      StateOf(q) == StateOf(p) && WellFormed(q, LocateIndex(q)) && Store(q, LocateIndex(q)) == Store(p, c)[id := dat]
  {
    TornWriteLocate(p, c, id, len, dat, 4);
    AppendPage(p, c, id, len, dat);
  }

  /**
   * A page after the first `passes` passes of an append at the end of its
   * chain: the marker is unchanged, and the chain the locator finds holds
   * the old records before the last pass and the new one after it.
   */
  lemma TornPage(p: seq<byte>, c: nat, id: nat, len: nat, dat: seq<byte>, passes: nat)
    requires |p| >= PAGE_HEADER_SIZE + 4 && |p| % 4 == 0
    requires WellFormed(p, c) && ErasedFrom(p, c) && c + len + LINE_HEADER_SIZE <= |p|
    requires |dat| == len && NoDelimiterWords(dat) && id < 0x1_0000 && IsLineLengthLegal(len) && len % 4 == 0
    requires passes <= 4
    ensures var q := WriteLinePass(p, c, id, len, dat, passes);
      StateOf(q) == StateOf(p) && WellFormed(q, LocateIndex(q)) &&
      Store(q, LocateIndex(q)) == if passes < 4 then Store(p, c) else Store(p, c)[id := dat]
  {
    if passes < 4 {
      WriteLinePassBytes(p, c, id, len, dat, passes);
      TornChain(p, WriteLinePass(p, c, id, len, dat, passes), c, id, len, dat, passes);
    } else {
      TornComplete(p, c, id, len, dat);
    }
  }

  /**
   * Start-up after a power loss inside g_write_nvmm's append, after any
   * number of its four program passes: the records found are the old ones
   * until the delimiter pass, and the old ones with the new record after
   * it. A record whose delimiter was not programmed is never seen.
   */
  lemma RecoverTornWrite(st: State, id: nat, len: nat, dat: seq<byte>, passes: nat, stackLen: nat)
    requires Steady(st) && st.ct + len + LINE_HEADER_SIZE <= st.g.size && stackLen < 0x1_0000
    requires |dat| == len && NoDelimiterWords(dat) && id < 0x1_0000 && IsLineLengthLegal(len) && len % 4 == 0
    requires passes <= 4
    ensures var q := WriteLinePass(st.Page(st.active), st.ct, id, len, dat, passes);
      var r := CheckNvmm(st.SetPage(st.active, q), stackLen);
      r.Next? && r.rc == 0 && r.st.active == st.active && r.st.Page(st.active) == q &&
      WellFormed(q, r.st.ct) &&
      Store(q, r.st.ct) == if passes < 4 then Contents(st) else Contents(st)[id := dat]
  {
    var p := st.Page(st.active);
    var q := WriteLinePass(p, st.ct, id, len, dat, passes);
    TornPage(p, st.ct, id, len, dat, passes);
    var o := st.Page(st.g.Other(st.active));
    U32AtSame(o, 0, LE32(ERASED_WORD), 0);
    RecoverWithActive(st.SetPage(st.active, q), st.active, stackLen);
  }
}
