/**
 * defrag_page on snapshots: the backward scan of the source page that
 * copies the newest committed record of every id into the other page,
 * and the proof that on a well-formed chain it copies exactly the store
 * restricted to legal ids.
 */
module Compaction {
  import opened Layout
  import opened FlashImage
  import opened LineLog

  /** How the scan of defrag_page ends. */
  datatype DefragOutcome =
    /** The scan reached the page header: the target holds the copies up to `end`. */
    | Done(tgt: seq<byte>, end: nat)
    /** A skipped header's length runs past the cursor: defrag_page returns -1 here. */
    | Corrupt(tgt: seq<byte>, end: nat)
    /**
     * The source would wrap its uint16 cursor, copy a record whose length
     * is not word-aligned, or copy past the end of the target page.
     */
    | OutOfModel

  /** copy_line: the `n` bytes at `from` in the source, programmed at `at` in the target. */
  function CopyLine(src: seq<byte>, tgt: seq<byte>, at: nat, from: nat, n: nat): (r: seq<byte>)
    requires from + n <= |src| && at + n <= |tgt|
    ensures |r| == |tgt|
  {
    Program(tgt, at, src[from..from + n])
  }

  /**
   * The loop of defrag_page with the cursor just above the header it reads
   * next (`c` = offset_src + 8), the target end `end` (offset_tgt) and the
   * last id met (lineid_tmp). A header that is not committed (illegal id or
   * no delimiter) is skipped like find_line_address does; a committed one
   * is copied, header included, unless its id is the last one met or is
   * already in the target.
   */
  function DefragScan(src: seq<byte>, c: nat, tgt: seq<byte>, end: nat, last: nat): (r: DefragOutcome)
    requires c <= |src| && LINE_HEADER_SIZE <= end <= |tgt|
    ensures !r.OutOfModel? ==> |r.tgt| == |tgt| && end <= r.end <= |tgt|
    decreases c
  {
    if c < PAGE_HEADER_SIZE + LINE_HEADER_SIZE then Done(tgt, end)
    else
      var h := HeaderAt(src, c - LINE_HEADER_SIZE);
      if !h.IsCommitted() then
        if !IsLineLengthLegal(h.len) then DefragScan(src, c - LINE_HEADER_SIZE, tgt, end, last)
        else if h.len + LINE_HEADER_SIZE <= c - LINE_HEADER_SIZE then
          DefragScan(src, c - LINE_HEADER_SIZE - h.len, tgt, end, last)
        else Corrupt(tgt, end)
      else if c - LINE_HEADER_SIZE < h.len + LINE_HEADER_SIZE then OutOfModel
      else
        var s := c - LINE_HEADER_SIZE - h.len;
        if h.id != last && LineAddress(tgt, end, h.id) == 0 then
          if h.len % 4 != 0 || end + h.len + LINE_HEADER_SIZE > |tgt| then OutOfModel
          else DefragScan(src, s, CopyLine(src, tgt, end, s, h.len + LINE_HEADER_SIZE),
                          end + h.len + LINE_HEADER_SIZE, h.id)
        else DefragScan(src, s, tgt, end, h.id)
  }

  /** The whole scan of defrag_page: from the content index into the target, starting after its page header. */
  function Defrag(src: seq<byte>, c: nat, tgt: seq<byte>): (r: DefragOutcome)
    requires c <= |src| && PAGE_HEADER_SIZE <= |tgt|
    ensures !r.OutOfModel? ==> |r.tgt| == |tgt| && PAGE_HEADER_SIZE <= r.end <= |tgt|
  {
    DefragScan(src, c, tgt, PAGE_HEADER_SIZE, NO_LINE_ID)
  }

  /** The entries of a store whose ids are legal: the records compaction keeps. */
  function Legal(m: map<nat, seq<byte>>): (r: map<nat, seq<byte>>)
    ensures forall id :: id in r <==> id in m && IsLineIdLegal(id)
    ensures forall id :: id in r ==> r[id] == m[id]
  {
    map id | id in m && IsLineIdLegal(id) :: m[id]
  }

  /**
   * Copying a committed record (data at `s`, header at `s + len`) to the
   * erased end of a well-formed chain extends that chain by the record.
   */
  lemma CopyRecord(src: seq<byte>, s: nat, id: nat, len: nat, tgt: seq<byte>, end: nat)
    requires s + len + LINE_HEADER_SIZE <= |src| && IsLineLengthLegal(len) && len % 4 == 0
    requires HeaderAt(src, s + len) == LineHeader(id, len, LINE_DELIMITER)
    requires WellFormed(tgt, end) && ErasedFrom(tgt, end) && end + len + LINE_HEADER_SIZE <= |tgt|
    ensures var t, e := CopyLine(src, tgt, end, s, len + LINE_HEADER_SIZE), end + len + LINE_HEADER_SIZE;
      WellFormed(t, e) && ErasedFrom(t, e) && t[..end] == tgt[..end] &&
      Store(t, e) == Store(tgt, end)[id := src[s..s + len]]
  {
    var t := CopyLine(src, tgt, end, s, len + LINE_HEADER_SIZE);
    CopiedRecordBytes(src, s, len, tgt, end);
    ExtendChain(tgt, t, end, id, len);
  }

  /** The bytes a record copy leaves: the header and data of the source record above the old target. */
  lemma CopiedRecordBytes(src: seq<byte>, s: nat, len: nat, tgt: seq<byte>, end: nat)
    requires s + len + LINE_HEADER_SIZE <= |src| && ErasedFrom(tgt, end) && end + len + LINE_HEADER_SIZE <= |tgt|
    ensures var t, o := CopyLine(src, tgt, end, s, len + LINE_HEADER_SIZE), end + len;
      |t| == |tgt| && HeaderAt(t, o) == HeaderAt(src, s + len) && t[end..o] == src[s..s + len] &&
      t[..end] == tgt[..end] && SameRecords(tgt, t, end) && ErasedFrom(t, o + LINE_HEADER_SIZE)
  {
    var n := len + LINE_HEADER_SIZE;
    var t := CopyLine(src, tgt, end, s, n);
    CopiedWindow(src, s, n, tgt, end);
    assert t[end..end + n] == src[s..s + n];
    SubSlice(t, end, src, s, n, 0, len);
    assert t[end..end + len] == src[s..s + len];
    SubSlice(t, end, src, s, n, len, LINE_HEADER_SIZE);
    HeaderOfSameBytes(t, end + len, src, s + len);
  }

  /** A copy into the erased end of the target: the window holds the source bytes, below it nothing changes, above it the target stays erased. */
  lemma CopiedWindow(src: seq<byte>, s: nat, n: nat, tgt: seq<byte>, end: nat)
    requires s + n <= |src| && ErasedFrom(tgt, end) && end + n <= |tgt|
    ensures var t := CopyLine(src, tgt, end, s, n);
      |t| == |tgt| && t[end..end + n] == src[s..s + n] && t[..end] == tgt[..end] &&
      SameRecords(tgt, t, end) && ErasedFrom(t, end + n)
  {
    var t, w := CopyLine(src, tgt, end, s, n), src[s..s + n];
    assert IsErased(tgt[end..end + n]);
    ProgramOnErased(tgt, end, w);
    forall i | end + n <= i < |t|
      ensures t[i] == ERASED
    {
      assert t[i] == t[end + n..][i - (end + n)];
    }
    forall i | PAGE_HEADER_SIZE <= i < end
      ensures tgt[i] == t[i]
    {
      assert t[i] == t[..end][i];
    }
  }

  /** Equal windows have equal sub-windows. */
  lemma SubSlice(x: seq<byte>, a: nat, y: seq<byte>, b: nat, n: nat, k: nat, m: nat)
    requires a + n <= |x| && b + n <= |y| && k + m <= n && x[a..a + n] == y[b..b + n]
    ensures x[a + k..a + k + m] == y[b + k..b + k + m]
  {
    SliceOfSlice(x, a, a + n, k, k + m);
    SliceOfSlice(y, b, b + n, k, k + m);
  }

  /** Two line headers stored in the same eight bytes decode to the same header. */
  lemma HeaderOfSameBytes(p: seq<byte>, o: nat, q: seq<byte>, so: nat)
    requires o + LINE_HEADER_SIZE <= |p| && so + LINE_HEADER_SIZE <= |q|
    requires p[o..o + LINE_HEADER_SIZE] == q[so..so + LINE_HEADER_SIZE]
    ensures HeaderAt(p, o) == HeaderAt(q, so)
  {
    HeaderBytesOfDecoded(q, so);
    HeaderRoundTrip(HeaderAt(q, so), p, o);
  }

  /** A record of an illegal id is dropped by compaction. */
  lemma LegalSkips(m: map<nat, seq<byte>>, id: nat, d: seq<byte>)
    requires !IsLineIdLegal(id)
    ensures Legal(m[id := d]) == Legal(m)
  {
  }

  /** A record whose id the target already holds is not copied: the newer copy wins. */
  lemma MergeKeeps(a: map<nat, seq<byte>>, t: map<nat, seq<byte>>, id: nat, d: seq<byte>)
    requires id in t
    ensures Legal(a[id := d]) + t == Legal(a) + t
  {
  }

  /** A record of a legal id the target lacks is copied. */
  lemma MergeCopies(a: map<nat, seq<byte>>, t: map<nat, seq<byte>>, id: nat, d: seq<byte>)
    requires id !in t && IsLineIdLegal(id)
    ensures Legal(a[id := d]) + t == Legal(a) + t[id := d]
  {
  }

  /** One step of the scan over a committed-looking header whose id is illegal: it is skipped. */
  lemma DefragStepSkip(src: seq<byte>, c: nat, tgt: seq<byte>, end: nat, last: nat, id: nat, len: nat, s: nat)
    requires c <= |src| && LINE_HEADER_SIZE <= end <= |tgt| && PAGE_HEADER_SIZE <= s && s + len + LINE_HEADER_SIZE == c
    requires HeaderAt(src, c - LINE_HEADER_SIZE) == LineHeader(id, len, LINE_DELIMITER)
    requires !IsLineIdLegal(id) && IsLineLengthLegal(len)
    ensures DefragScan(src, c, tgt, end, last) == DefragScan(src, s, tgt, end, last)
  {
  }

  /** One step of the scan over a committed header whose id the target lacks: the record is copied. */
  lemma DefragStepCopy(src: seq<byte>, c: nat, tgt: seq<byte>, end: nat, last: nat, id: nat, len: nat, s: nat)
    requires c <= |src| && LINE_HEADER_SIZE <= end <= |tgt| && PAGE_HEADER_SIZE <= s && s + len + LINE_HEADER_SIZE == c
    requires HeaderAt(src, c - LINE_HEADER_SIZE) == LineHeader(id, len, LINE_DELIMITER)
    requires IsLineIdLegal(id) && id != last && LineAddress(tgt, end, id) == 0
    requires len % 4 == 0 && end + len + LINE_HEADER_SIZE <= |tgt|
    ensures DefragScan(src, c, tgt, end, last) ==
      DefragScan(src, s, CopyLine(src, tgt, end, s, len + LINE_HEADER_SIZE), end + len + LINE_HEADER_SIZE, id)
  {
  }

  /** One step of the scan over a committed header whose id was met before: nothing is copied. */
  lemma DefragStepKeep(src: seq<byte>, c: nat, tgt: seq<byte>, end: nat, last: nat, id: nat, len: nat, s: nat)
    requires c <= |src| && LINE_HEADER_SIZE <= end <= |tgt| && PAGE_HEADER_SIZE <= s && s + len + LINE_HEADER_SIZE == c
    requires HeaderAt(src, c - LINE_HEADER_SIZE) == LineHeader(id, len, LINE_DELIMITER)
    requires IsLineIdLegal(id) && (id == last || LineAddress(tgt, end, id) != 0)
    ensures DefragScan(src, c, tgt, end, last) == DefragScan(src, s, tgt, end, id)
  {
  }

  // The steps of the scan as the loop of defrag_page takes them: each
  // carries the outcome `r` of the scan from one cursor to the next.

  /** A header that is not committed and whose length is illegal: the scan moves down one header. */
  lemma ScanPassesHeader(src: seq<byte>, c: nat, tgt: seq<byte>, end: nat, last: nat, h: LineHeader, r: DefragOutcome, s: nat)
    requires PAGE_HEADER_SIZE + LINE_HEADER_SIZE <= c <= |src| && LINE_HEADER_SIZE <= end <= |tgt|
    requires h == HeaderAt(src, c - LINE_HEADER_SIZE) && !h.IsCommitted() && !IsLineLengthLegal(h.len)
    requires DefragScan(src, c, tgt, end, last) == r && s == c - LINE_HEADER_SIZE
    ensures DefragScan(src, s, tgt, end, last) == r
  {
  }

  /** A header that is not committed and whose record fits below it: the scan moves past the record. */
  lemma ScanPassesRecord(src: seq<byte>, c: nat, tgt: seq<byte>, end: nat, last: nat, h: LineHeader, r: DefragOutcome, s: nat)
    requires PAGE_HEADER_SIZE + LINE_HEADER_SIZE <= c <= |src| && LINE_HEADER_SIZE <= end <= |tgt|
    requires h == HeaderAt(src, c - LINE_HEADER_SIZE) && !h.IsCommitted() && IsLineLengthLegal(h.len)
    requires h.len + LINE_HEADER_SIZE <= c - LINE_HEADER_SIZE && s + h.len + LINE_HEADER_SIZE == c
    requires DefragScan(src, c, tgt, end, last) == r
    ensures DefragScan(src, s, tgt, end, last) == r
  {
  }

  /** A header that is not committed and whose record would reach below the page header: the scan stops. */
  lemma ScanStops(src: seq<byte>, c: nat, tgt: seq<byte>, end: nat, last: nat, h: LineHeader, r: DefragOutcome)
    requires PAGE_HEADER_SIZE + LINE_HEADER_SIZE <= c <= |src| && LINE_HEADER_SIZE <= end <= |tgt|
    requires h == HeaderAt(src, c - LINE_HEADER_SIZE) && !h.IsCommitted() && IsLineLengthLegal(h.len)
    requires h.len + LINE_HEADER_SIZE > c - LINE_HEADER_SIZE && DefragScan(src, c, tgt, end, last) == r
    ensures r == Corrupt(tgt, end)
  {
  }

  /** On a scan the model covers, a committed header's record lies above the page header. */
  lemma ScanCommitted(src: seq<byte>, c: nat, tgt: seq<byte>, end: nat, last: nat, h: LineHeader)
    requires PAGE_HEADER_SIZE + LINE_HEADER_SIZE <= c <= |src| && LINE_HEADER_SIZE <= end <= |tgt|
    requires h == HeaderAt(src, c - LINE_HEADER_SIZE) && h.IsCommitted() && !DefragScan(src, c, tgt, end, last).OutOfModel?
    ensures h.len + LINE_HEADER_SIZE <= c - LINE_HEADER_SIZE
  {
  }

  /** A committed record whose id is new to the scan and to the target is word-aligned and fits in the target. */
  lemma ScanCopyFits(src: seq<byte>, c: nat, tgt: seq<byte>, end: nat, last: nat, h: LineHeader)
    requires PAGE_HEADER_SIZE + LINE_HEADER_SIZE <= c <= |src| && LINE_HEADER_SIZE <= end <= |tgt|
    requires h == HeaderAt(src, c - LINE_HEADER_SIZE) && h.IsCommitted() && !DefragScan(src, c, tgt, end, last).OutOfModel?
    requires h.id != last && LineAddress(tgt, end, h.id) == 0
    ensures h.len % 4 == 0 && end + h.len + LINE_HEADER_SIZE <= |tgt|
  {
  }

  /** A record of whole words stays whole words with its header. */
  lemma WordsWithHeader(n: nat)
    requires n % 4 == 0
    ensures (n + LINE_HEADER_SIZE) % 4 == 0
  {
  }

  /** The copy step of the scan, with the target after the copy named `t`. */
  lemma ScanCopies(src: seq<byte>, c: nat, tgt: seq<byte>, end: nat, last: nat, h: LineHeader, t: seq<byte>, r: DefragOutcome, s: nat, e: nat)
    requires PAGE_HEADER_SIZE + LINE_HEADER_SIZE <= c <= |src| && LINE_HEADER_SIZE <= end <= |tgt|
    requires h == HeaderAt(src, c - LINE_HEADER_SIZE) && h.IsCommitted()
    requires h.len + LINE_HEADER_SIZE <= c - LINE_HEADER_SIZE && s + h.len + LINE_HEADER_SIZE == c
    requires h.id != last && LineAddress(tgt, end, h.id) == 0 && h.len % 4 == 0
    requires e == end + h.len + LINE_HEADER_SIZE && e <= |tgt|
    requires t == CopyLine(src, tgt, end, s, h.len + LINE_HEADER_SIZE)
    requires DefragScan(src, c, tgt, end, last) == r
    ensures DefragScan(src, s, t, e, h.id) == r
  {
  }

  /** A committed record whose id the scan met last, or the target holds, is passed over. */
  lemma ScanKeeps(src: seq<byte>, c: nat, tgt: seq<byte>, end: nat, last: nat, h: LineHeader, r: DefragOutcome, s: nat)
    requires PAGE_HEADER_SIZE + LINE_HEADER_SIZE <= c <= |src| && LINE_HEADER_SIZE <= end <= |tgt|
    requires h == HeaderAt(src, c - LINE_HEADER_SIZE) && h.IsCommitted()
    requires h.len + LINE_HEADER_SIZE <= c - LINE_HEADER_SIZE && s + h.len + LINE_HEADER_SIZE == c
    requires (h.id == last || LineAddress(tgt, end, h.id) != 0) && DefragScan(src, c, tgt, end, last) == r
    ensures DefragScan(src, s, tgt, end, h.id) == r
  {
  }

  /** What a completed scan guarantees about the target, relative to where it started. */
  predicate CopiedNewest(r: DefragOutcome, src: seq<byte>, c: nat, tgt: seq<byte>, end: nat)
    requires WellFormed(src, c) && WellFormed(tgt, end)
  {
    r.Done? && WellFormed(r.tgt, r.end) && ErasedFrom(r.tgt, r.end) && r.end + PAGE_HEADER_SIZE <= end + c &&
    |r.tgt| == |tgt| && r.tgt[..end] == tgt[..end] &&
    Store(r.tgt, r.end) == Legal(Store(src, c)) + Store(tgt, end)
  }

  /** The preconditions the loop of defrag_page keeps. */
  predicate ScanReady(src: seq<byte>, c: nat, tgt: seq<byte>, end: nat, last: nat) {
    WellFormed(src, c) && WellFormed(tgt, end) && ErasedFrom(tgt, end) && end + c <= |tgt| + PAGE_HEADER_SIZE &&
    (last == NO_LINE_ID || last in Store(tgt, end))
  }

  /**
   * The loop invariant of defrag_page on a well-formed source chain: the
   * scan completes, the target stays a well-formed chain with an erased
   * tail, only its tail changes, the copies fit in the bytes the source
   * chain occupies, and the target ends up holding, for every legal id of
   * the source, the newest record of that id, unless the target already
   * had one. `last` is an id the target holds, or 0xFFFF initially.
   */
  lemma {:induction false} DefragScanCorrect(src: seq<byte>, c: nat, tgt: seq<byte>, end: nat, last: nat)
    requires ScanReady(src, c, tgt, end, last)
    ensures CopiedNewest(DefragScan(src, c, tgt, end, last), src, c, tgt, end)
    decreases c, 1
  {
    if c >= PAGE_HEADER_SIZE + LINE_HEADER_SIZE {
      var id, len, s := ChainTop(src, c);
      if !IsLineIdLegal(id) {
        ScanSkip(src, c, tgt, end, last, id, len, s);
      } else if id != last && LineAddress(tgt, end, id) == 0 {
        ScanCopy(src, c, tgt, end, last, id, len, s);
      } else {
        ScanKeep(src, c, tgt, end, last, id, len, s);
      }
    }
  }

  lemma {:induction false} ScanSkip(src: seq<byte>, c: nat, tgt: seq<byte>, end: nat, last: nat, id: nat, len: nat, s: nat)
    requires ScanReady(src, c, tgt, end, last) && c >= PAGE_HEADER_SIZE + LINE_HEADER_SIZE
    requires HeaderAt(src, c - LINE_HEADER_SIZE) == LineHeader(id, len, LINE_DELIMITER)
    requires IsLineLengthLegal(len) && s + len + LINE_HEADER_SIZE == c && PAGE_HEADER_SIZE <= s && WellFormed(src, s)
    requires Store(src, c) == Store(src, s)[id := src[s..s + len]]
    requires !IsLineIdLegal(id)
    ensures CopiedNewest(DefragScan(src, c, tgt, end, last), src, c, tgt, end)
    decreases c, 0
  {
    DefragStepSkip(src, c, tgt, end, last, id, len, s);
    DefragScanCorrect(src, s, tgt, end, last);
    LegalSkips(Store(src, s), id, src[s..s + len]);
  }

  lemma {:induction false} ScanCopy(src: seq<byte>, c: nat, tgt: seq<byte>, end: nat, last: nat, id: nat, len: nat, s: nat)
    requires ScanReady(src, c, tgt, end, last) && c >= PAGE_HEADER_SIZE + LINE_HEADER_SIZE
    requires HeaderAt(src, c - LINE_HEADER_SIZE) == LineHeader(id, len, LINE_DELIMITER)
    requires IsLineLengthLegal(len) && len % 4 == 0 && s + len + LINE_HEADER_SIZE == c && PAGE_HEADER_SIZE <= s && WellFormed(src, s)
    requires Store(src, c) == Store(src, s)[id := src[s..s + len]]
    requires IsLineIdLegal(id) && id != last && LineAddress(tgt, end, id) == 0
    ensures CopiedNewest(DefragScan(src, c, tgt, end, last), src, c, tgt, end)
    decreases c, 0
  {
    FindLineNewest(tgt, end, id);
    CopyRecord(src, s, id, len, tgt, end);
    DefragStepCopy(src, c, tgt, end, last, id, len, s);
    var t, e := CopyLine(src, tgt, end, s, len + LINE_HEADER_SIZE), end + len + LINE_HEADER_SIZE;
    DefragScanCorrect(src, s, t, e, id);
    CopiedAfterCopy(DefragScan(src, s, t, e, id), src, c, s, tgt, end, t, e, id, src[s..s + len]);
  }

  /** The result of the scan after a copy, seen from before the copy. */
  lemma CopiedAfterCopy(r: DefragOutcome, src: seq<byte>, c: nat, s: nat, tgt: seq<byte>, end: nat,
                        t: seq<byte>, e: nat, id: nat, d: seq<byte>)
    requires WellFormed(src, c) && WellFormed(src, s) && WellFormed(tgt, end) && WellFormed(t, e)
    requires end <= e && e + s == end + c && |t| == |tgt| && t[..end] == tgt[..end]
    requires Store(src, c) == Store(src, s)[id := d] && Store(t, e) == Store(tgt, end)[id := d]
    requires id !in Store(tgt, end) && IsLineIdLegal(id)
    requires CopiedNewest(r, src, s, t, e)
    ensures CopiedNewest(r, src, c, tgt, end)
  {
    MergeCopies(Store(src, s), Store(tgt, end), id, d);
    assert r.tgt[..end] == r.tgt[..e][..end];
  }

  lemma {:induction false} ScanKeep(src: seq<byte>, c: nat, tgt: seq<byte>, end: nat, last: nat, id: nat, len: nat, s: nat)
    requires ScanReady(src, c, tgt, end, last) && c >= PAGE_HEADER_SIZE + LINE_HEADER_SIZE
    requires HeaderAt(src, c - LINE_HEADER_SIZE) == LineHeader(id, len, LINE_DELIMITER)
    requires IsLineLengthLegal(len) && s + len + LINE_HEADER_SIZE == c && PAGE_HEADER_SIZE <= s && WellFormed(src, s)
    requires Store(src, c) == Store(src, s)[id := src[s..s + len]]
    requires IsLineIdLegal(id) && (id == last || LineAddress(tgt, end, id) != 0)
    ensures CopiedNewest(DefragScan(src, c, tgt, end, last), src, c, tgt, end)
    decreases c, 0
  {
    FindLineNewest(tgt, end, id);
    DefragStepKeep(src, c, tgt, end, last, id, len, s);
    DefragScanCorrect(src, s, tgt, end, id);
    MergeKeeps(Store(src, s), Store(tgt, end), id, src[s..s + len]);
  }
}
