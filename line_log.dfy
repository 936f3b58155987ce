/**
 * The record log inside one page, on snapshots: the backward lookup
 * (find_line_address), the content-index locator (locate_ctindex), the
 * four-pass line write (write_line), and the abstraction that makes "the
 * newest record of an id wins" statable: a well-formed chain of committed
 * records below the content index and the map from id to newest data.
 *
 * A record is `[data, len bytes][id u16 | len u16 | delimiter u32]`, so a
 * page is read backwards from the content index, one header at a time.
 */
module LineLog {
  import opened Layout
  import opened FlashImage

  // ------------------------------------------------------------- lookup

  /**
   * The loop of find_line_address, from the header cursor `cursor` (the
   * source's `offset` after its first `offset -= 8`). A header whose id
   * matches is compared before its length is read; the delimiter is never looked at.
   * 0 means "not found", and also "chain broken". A match whose `len`
   * exceeds the cursor gives a negative value here, where the source's
   * uint16 subtraction wraps.
   */
  function FindLine(p: seq<byte>, cursor: nat, lineid: nat): (r: int)
    requires cursor + LINE_HEADER_SIZE <= |p|
    ensures r <= cursor
    decreases cursor
  {
    if cursor < PAGE_HEADER_SIZE then 0
    else
      var h := HeaderAt(p, cursor);
      if h.id == lineid then cursor - h.len
      else if !IsLineLengthLegal(h.len) then FindLine(p, cursor - LINE_HEADER_SIZE, lineid)
      else if h.len + LINE_HEADER_SIZE <= cursor then FindLine(p, cursor - (h.len + LINE_HEADER_SIZE), lineid)
      else 0
  }

  /** find_line_address(page, offset, lineid): the scan starts at the header just below `offset`. */
  function LineAddress(p: seq<byte>, offset: nat, lineid: nat): (r: int)
    requires LINE_HEADER_SIZE <= offset <= |p|
    ensures r + LINE_HEADER_SIZE <= offset
  {
    FindLine(p, offset - LINE_HEADER_SIZE, lineid)
  }

  // ------------------------------------------------------------ locator

  /** The loop of locate_ctindex from word offset `index` downwards (exclusive of the page header). */
  function LocateFrom(p: seq<byte>, index: nat): (r: nat)
    requires index + 4 <= |p|
    ensures r <= index + 4 && r % 4 == index % 4
    ensures PAGE_HEADER_SIZE <= index && index % 4 == 0 ==> PAGE_HEADER_SIZE + 4 <= r
    ensures r > PAGE_HEADER_SIZE + 4 ==> IsLineDelimiterLegal(U32At(p, r - 4))
    decreases index
  {
    if index <= PAGE_HEADER_SIZE then index + 4
    else if IsLineDelimiterLegal(U32At(p, index)) then index + 4
    else LocateFrom(p, index - 4)
  }

  /** locate_ctindex: 4 past the highest delimiter word above the page header, 16 if there is none. */
  function LocateIndex(p: seq<byte>): (r: nat)
    requires |p| >= PAGE_HEADER_SIZE + 4
    ensures r <= |p| && (|p| % 4 == 0 ==> PAGE_HEADER_SIZE + 4 <= r)
    ensures r > PAGE_HEADER_SIZE + 4 ==> IsLineDelimiterLegal(U32At(p, r - 4))
  {
    LocateFrom(p, |p| - 4)
  }

  /** Scanning down past words that are not the delimiter does not change the result. */
  lemma {:induction false} LocateSkips(p: seq<byte>, i: nat, j: nat)
    requires PAGE_HEADER_SIZE <= j <= i && i + 4 <= |p| && (i - j) % 4 == 0
    requires forall k :: j < k <= i && (i - k) % 4 == 0 ==> U32At(p, k) != LINE_DELIMITER
    ensures LocateFrom(p, i) == LocateFrom(p, j)
    decreases i
  {
    if i > j {
      LocateSkips(p, i - 4, j);
    }
  }

  /**
   * The located index is 4 past the highest word-aligned delimiter at or
   * above offset 16, or 16 when there is none: it never points into the
   * page header, and no delimiter word lies at or above it.
   */
  lemma {:induction false} LocateIndexIsHighestDelimiter(p: seq<byte>)
    requires |p| >= PAGE_HEADER_SIZE + 4 && |p| % 4 == 0
    ensures var c := LocateIndex(p);
      PAGE_HEADER_SIZE + 4 <= c <= |p| && c % 4 == 0 &&
      (c > PAGE_HEADER_SIZE + 4 ==> IsLineDelimiterLegal(U32At(p, c - 4))) &&
      (forall i :: c <= i <= |p| - 4 && i % 4 == 0 ==> U32At(p, i) != LINE_DELIMITER)
  {
    LocateFromFacts(p, |p| - 4);
  }

  lemma {:induction false} LocateFromFacts(p: seq<byte>, index: nat)
    requires PAGE_HEADER_SIZE <= index && index + 4 <= |p| && index % 4 == 0
    requires forall i :: index < i <= |p| - 4 && i % 4 == 0 ==> U32At(p, i) != LINE_DELIMITER
    ensures var c := LocateFrom(p, index);
      PAGE_HEADER_SIZE + 4 <= c <= index + 4 && c % 4 == 0 &&
      (c > PAGE_HEADER_SIZE + 4 ==> IsLineDelimiterLegal(U32At(p, c - 4))) &&
      (forall i :: c <= i <= |p| - 4 && i % 4 == 0 ==> U32At(p, i) != LINE_DELIMITER)
    decreases index
  {
    if index > PAGE_HEADER_SIZE && !IsLineDelimiterLegal(U32At(p, index)) {
      LocateFromFacts(p, index - 4);
    }
  }

  /**
   * If no word at or above `c` is the delimiter and the word just below `c`
   * is (or `c` is the bottom of the record area), the locator returns `c`,
   * moved up to 16 when the page holds no record.
   */
  lemma LocateFindsTop(p: seq<byte>, c: nat)
    requires |p| >= PAGE_HEADER_SIZE + 4 && |p| % 4 == 0
    requires PAGE_HEADER_SIZE <= c <= |p| && c % 4 == 0
    requires c >= PAGE_HEADER_SIZE + LINE_HEADER_SIZE ==> IsLineDelimiterLegal(U32At(p, c - 4))
    requires forall i :: c <= i <= |p| - 4 && i % 4 == 0 ==> U32At(p, i) != LINE_DELIMITER
    ensures LocateIndex(p) == if c < PAGE_HEADER_SIZE + 4 then PAGE_HEADER_SIZE + 4 else c
  {
    var j := if c < PAGE_HEADER_SIZE + 8 then PAGE_HEADER_SIZE else c - 4;
    LocateSkips(p, |p| - 4, j);
  }

  // ---------------------------------------------------- record chain

  /**
   * The bytes [12, c) of page `p` are a chain of records that every scan
   * reads the same way: each header, found just below the previous
   * record's data, has a legal word-aligned length, the delimiter set, and
   * its data above the page header. With no record, `c` is 12 or 16.
   */
  predicate WellFormed(p: seq<byte>, c: nat)
    decreases c
  {
    PAGE_HEADER_SIZE <= c <= |p| && c % 4 == 0 &&
    (c < PAGE_HEADER_SIZE + LINE_HEADER_SIZE ||
      (var h := HeaderAt(p, c - LINE_HEADER_SIZE);
       IsLineLengthLegal(h.len) && h.len % 4 == 0 && IsLineDelimiterLegal(h.delimiter) &&
       c - LINE_HEADER_SIZE - h.len >= PAGE_HEADER_SIZE &&
       WellFormed(p, c - LINE_HEADER_SIZE - h.len)))
  }

  /** The newest data of every id in a well-formed chain. */
  function Store(p: seq<byte>, c: nat): map<nat, seq<byte>>
    requires WellFormed(p, c)
    decreases c
  {
    if c < PAGE_HEADER_SIZE + LINE_HEADER_SIZE then map[]
    else
      var h := HeaderAt(p, c - LINE_HEADER_SIZE);
      var s := c - LINE_HEADER_SIZE - h.len;
      Store(p, s)[h.id := p[s..c - LINE_HEADER_SIZE]]
  }

  /** The top record of a well-formed chain with at least one record, and the chain below it. */
  lemma ChainTop(p: seq<byte>, c: nat) returns (id: nat, len: nat, s: nat)
    requires WellFormed(p, c) && c >= PAGE_HEADER_SIZE + LINE_HEADER_SIZE
    ensures HeaderAt(p, c - LINE_HEADER_SIZE) == LineHeader(id, len, LINE_DELIMITER)
    ensures IsLineLengthLegal(len) && len % 4 == 0 && s + len + LINE_HEADER_SIZE == c
    ensures PAGE_HEADER_SIZE <= s && WellFormed(p, s)
    ensures Store(p, c) == Store(p, s)[id := p[s..s + len]]
  {
    var h := HeaderAt(p, c - LINE_HEADER_SIZE);
    id, len, s := h.id, h.len, c - LINE_HEADER_SIZE - h.len;
  }

  /** `p` and `q` hold the same bytes in the record area [12, c); the page headers may differ. */
  predicate SameRecords(p: seq<byte>, q: seq<byte>, c: nat) {
    c <= |p| && c <= |q| && forall i :: PAGE_HEADER_SIZE <= i < c ==> p[i] == q[i]
  }

  /** The chain and its store depend only on the bytes below `c`. */
  lemma {:induction false} WellFormedFrame(p: seq<byte>, q: seq<byte>, c: nat)
    requires WellFormed(p, c) && SameRecords(p, q, c)
    ensures WellFormed(q, c) && Store(q, c) == Store(p, c)
    decreases c
  {
    if c >= PAGE_HEADER_SIZE + LINE_HEADER_SIZE {
      var o := c - LINE_HEADER_SIZE;
      assert q[o] == p[o] && q[o + 1] == p[o + 1] && q[o + 2] == p[o + 2] && q[o + 3] == p[o + 3];
      assert q[o + 4] == p[o + 4] && q[o + 5] == p[o + 5] && q[o + 6] == p[o + 6] && q[o + 7] == p[o + 7];
      assert HeaderAt(q, o) == HeaderAt(p, o);
      var s := c - LINE_HEADER_SIZE - HeaderAt(p, o).len;
      WellFormedFrame(p, q, s);
      assert q[s..o] == p[s..o];
    }
  }

  /** Every record of a well-formed chain lies inside [12, c). */
  lemma {:induction false} StoreBounds(p: seq<byte>, c: nat, id: nat)
    requires WellFormed(p, c) && id in Store(p, c)
    ensures PAGE_HEADER_SIZE + |Store(p, c)[id]| + LINE_HEADER_SIZE <= c
    decreases c
  {
    var h := HeaderAt(p, c - LINE_HEADER_SIZE);
    var s := c - LINE_HEADER_SIZE - h.len;
    if h.id != id {
      StoreBounds(p, s, id);
    }
  }

  /**
   * On a well-formed chain the lookup finds exactly the ids of the store,
   * and for each the offset of its newest data: the first matching header
   * met scanning down from `c` wins. 0 means the id has no record.
   */
  lemma {:induction false} FindLineNewest(p: seq<byte>, c: nat, lineid: nat)
    requires WellFormed(p, c)
    ensures var r := LineAddress(p, c, lineid);
      r >= 0 &&
      (r > 0 <==> lineid in Store(p, c)) &&
      (r > 0 ==> PAGE_HEADER_SIZE <= r && r + |Store(p, c)[lineid]| + LINE_HEADER_SIZE <= c &&
                 p[r..r + |Store(p, c)[lineid]|] == Store(p, c)[lineid])
    decreases c
  {
    if c >= PAGE_HEADER_SIZE + LINE_HEADER_SIZE {
      var h := HeaderAt(p, c - LINE_HEADER_SIZE);
      var s := c - LINE_HEADER_SIZE - h.len;
      if h.id != lineid {
        FindLineNewest(p, s, lineid);
        if lineid in Store(p, s) {
          StoreBounds(p, s, lineid);
        }
      }
    }
  }

  /**
   * A record whose data and committed header sit directly above a
   * well-formed chain extends the chain: the store maps its id to the data
   * and keeps every other id.
   */
  lemma ExtendChain(p: seq<byte>, q: seq<byte>, c: nat, lineid: nat, len: nat)
    requires WellFormed(p, c) && SameRecords(p, q, c)
    requires c + len + LINE_HEADER_SIZE <= |q| && IsLineLengthLegal(len) && len % 4 == 0
    requires HeaderAt(q, c + len) == LineHeader(lineid, len, LINE_DELIMITER)
    ensures WellFormed(q, c + len + LINE_HEADER_SIZE)
    ensures Store(q, c + len + LINE_HEADER_SIZE) == Store(p, c)[lineid := q[c..c + len]]
  {
    WellFormedFrame(p, q, c);
  }

  /** No word-aligned 4 bytes of `dat` read as the delimiter. */
  predicate NoDelimiterWords(dat: seq<byte>) {
    forall j :: 0 <= j && j + 4 <= |dat| && j % 4 == 0 ==> U32At(dat, j) != LINE_DELIMITER
  }

  /** A word reads as the delimiter only if each of its bytes is 0xAA. */
  lemma DelimiterBytes(p: seq<byte>, i: nat)
    requires i + 4 <= |p| && U32At(p, i) == LINE_DELIMITER
    ensures p[i] == 0xAA && p[i + 1] == 0xAA && p[i + 2] == 0xAA && p[i + 3] == 0xAA
  {
  }

  /** On a well-formed chain with an erased tail the locator finds the end of the chain (16 when it is empty). */
  lemma LocateWellFormed(p: seq<byte>, c: nat)
    requires |p| >= PAGE_HEADER_SIZE + 4 && |p| % 4 == 0
    requires WellFormed(p, c) && forall i :: c <= i < |p| ==> p[i] == ERASED
    ensures LocateIndex(p) == if c < PAGE_HEADER_SIZE + 4 then PAGE_HEADER_SIZE + 4 else c
  {
    if c >= PAGE_HEADER_SIZE + LINE_HEADER_SIZE {
      HeaderBytesOfDecoded(p, c - LINE_HEADER_SIZE);
    }
    forall i | c <= i <= |p| - 4 && i % 4 == 0
      ensures U32At(p, i) != LINE_DELIMITER
    {
      if U32At(p, i) == LINE_DELIMITER {
        DelimiterBytes(p, i);
      }
    }
    LocateFindsTop(p, c);
  }
}
