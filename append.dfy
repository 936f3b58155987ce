/**
 * Appending records to a page: a completed write_line extends the record
 * chain, and a write_line cut short by a power loss leaves a record that
 * the locator, and so every later scan, does not see.
 */
module Append {
  import opened Layout
  import opened FlashImage
  import opened LineLog
  import opened LineWrite

  /** A completed write_line leaves the flash above the new record erased. */
  lemma AppendKeepsTail(p: seq<byte>, c: nat, lineid: nat, len: nat, dat: seq<byte>)
    requires forall i :: c <= i < |p| ==> p[i] == ERASED
    requires c + len + LINE_HEADER_SIZE <= |p| && |dat| == len && lineid < 0x1_0000 && len < 0x1_0000
    ensures forall i :: c + len + LINE_HEADER_SIZE <= i < |p| ==> WriteLine(p, c, lineid, len, dat)[i] == ERASED
  {
    WriteLineImage(p, c, lineid, len, dat);
  }

  /**
   * Appending a record at the end of a well-formed chain whose tail is
   * erased extends the chain by that record: the store maps its id to the
   * data and keeps every other id, and the tail above it is still erased.
   */
  lemma AppendRecord(p: seq<byte>, c: nat, lineid: nat, len: nat, dat: seq<byte>)
    requires WellFormed(p, c) && forall i :: c <= i < |p| ==> p[i] == ERASED
    requires c + len + LINE_HEADER_SIZE <= |p| && |dat| == len
    requires lineid < 0x1_0000 && IsLineLengthLegal(len) && len % 4 == 0
    ensures WellFormed(WriteLine(p, c, lineid, len, dat), c + len + LINE_HEADER_SIZE)
    ensures Store(WriteLine(p, c, lineid, len, dat), c + len + LINE_HEADER_SIZE) == Store(p, c)[lineid := dat]
    ensures forall i :: c + len + LINE_HEADER_SIZE <= i < |p| ==> WriteLine(p, c, lineid, len, dat)[i] == ERASED
  {
    var q := WriteLine(p, c, lineid, len, dat);
    WriteLineImage(p, c, lineid, len, dat);
    ExtendChain(p, q, c, lineid, len);
    AppendKeepsTail(p, c, lineid, len, dat);
  }

  // -------------------------------------------------------- torn writes

  /** `q` is the page `p` after the first `passes` passes of write_line into an erased window at `c`. */
  predicate PassImage(p: seq<byte>, q: seq<byte>, c: nat, lineid: nat, len: nat, dat: seq<byte>, passes: nat)
    requires c + len + LINE_HEADER_SIZE <= |p| && |dat| == len && lineid < 0x1_0000 && len < 0x1_0000
  {
    |q| == |p| && forall k {:trigger PassByte(p, c, lineid, len, dat, passes, k)} :: 0 <= k < |p| ==> q[k] == PassByte(p, c, lineid, len, dat, passes, k)
  }

  /** Above the new record, a torn write leaves the erased bytes as they were: no word there is a delimiter. */
  lemma TornWordOutside(p: seq<byte>, q: seq<byte>, c: nat, lineid: nat, len: nat, dat: seq<byte>, passes: nat, i: nat)
    requires c + len + LINE_HEADER_SIZE <= |p| && |dat| == len && lineid < 0x1_0000 && len < 0x1_0000
    requires PassImage(p, q, c, lineid, len, dat, passes)
    requires forall k :: c <= k < |p| ==> p[k] == ERASED
    requires c + len + LINE_HEADER_SIZE <= i && i + 4 <= |p|
    ensures U32At(q, i) != LINE_DELIMITER
  {
    assert q[i] == PassByte(p, c, lineid, len, dat, passes, i);
    if U32At(q, i) == LINE_DELIMITER {
      DelimiterBytes(q, i);
    }
  }

  /** A data word after a torn write is either erased or a word of the data. */
  lemma TornWordData(p: seq<byte>, q: seq<byte>, c: nat, lineid: nat, len: nat, dat: seq<byte>, passes: nat, i: nat)
    requires c + len + LINE_HEADER_SIZE <= |p| && |dat| == len && lineid < 0x1_0000 && len < 0x1_0000
    requires PassImage(p, q, c, lineid, len, dat, passes) && NoDelimiterWords(dat)
    requires c % 4 == 0 && c <= i && i + 4 <= c + len && i % 4 == 0
    ensures U32At(q, i) != LINE_DELIMITER
  {
    assert q[i] == PassByte(p, c, lineid, len, dat, passes, i);
    assert q[i + 1] == PassByte(p, c, lineid, len, dat, passes, i + 1);
    assert q[i + 2] == PassByte(p, c, lineid, len, dat, passes, i + 2);
    assert q[i + 3] == PassByte(p, c, lineid, len, dat, passes, i + 3);
    if passes < 2 {
      if U32At(q, i) == LINE_DELIMITER {
        DelimiterBytes(q, i);
      }
    } else {
      U32AtSame(q, i, dat, i - c);
    }
  }

  /**
   * The two header words after a torn write: the first (id and length)
   * never reads as the delimiter, because the length is either 0xFFFF or
   * below 0x8000; the second is the delimiter only after the last pass.
   */
  lemma TornWordHeader(p: seq<byte>, q: seq<byte>, c: nat, lineid: nat, len: nat, dat: seq<byte>, passes: nat)
    requires c + len + LINE_HEADER_SIZE <= |p| && |dat| == len && lineid < 0x1_0000 && IsLineLengthLegal(len)
    requires PassImage(p, q, c, lineid, len, dat, passes)
    ensures U32At(q, c + len) != LINE_DELIMITER
    ensures U32At(q, c + len + 4) == LINE_DELIMITER <==> passes >= 4
  {
    var h := c + len;
    var hd := HeaderAfterPass(lineid, len, passes);
    var hb := HeaderBytes(hd);
    forall k | 0 <= k < LINE_HEADER_SIZE
      ensures q[h + k] == hb[k]
    {
      assert q[h + k] == PassByte(p, c, lineid, len, dat, passes, h + k);
    }
    U32AtSame(q, h, hb, 0);
    U32AtSame(q, h + 4, hb, 4);
    HeaderBytesFields(hd);
    assert hd.len == NO_LINE_ID || hd.len < LINE_MAXLENGTH;
  }

  /** Every word at or above `c` after a torn or completed write of a record at `c`. */
  lemma TornWriteWords(p: seq<byte>, q: seq<byte>, c: nat, lineid: nat, len: nat, dat: seq<byte>, passes: nat, i: nat)
    requires c + len + LINE_HEADER_SIZE <= |p| && |dat| == len && lineid < 0x1_0000 && IsLineLengthLegal(len)
    requires PassImage(p, q, c, lineid, len, dat, passes) && NoDelimiterWords(dat)
    requires forall k :: c <= k < |p| ==> p[k] == ERASED
    requires c % 4 == 0 && len % 4 == 0 && c <= i && i + 4 <= |p| && i % 4 == 0
    ensures U32At(q, i) == LINE_DELIMITER <==> passes >= 4 && i == c + len + 4
  {
    var h := c + len;
    if i < h {
      TornWordData(p, q, c, lineid, len, dat, passes, i);
    } else if i == h {
      TornWordHeader(p, q, c, lineid, len, dat, passes);
    } else if i == h + 4 {
      TornWordHeader(p, q, c, lineid, len, dat, passes);
    } else {
      TornWordOutside(p, q, c, lineid, len, dat, passes, i);
    }
  }

  /** The delimiter words at and above `c` after a torn or completed write of a record at `c`. */
  lemma TornDelimiters(p: seq<byte>, q: seq<byte>, c: nat, lineid: nat, len: nat, dat: seq<byte>, passes: nat)
    requires |p| >= PAGE_HEADER_SIZE + 4 && |p| % 4 == 0
    requires WellFormed(p, c) && forall i :: c <= i < |p| ==> p[i] == ERASED
    requires c + len + LINE_HEADER_SIZE <= |p| && |dat| == len && NoDelimiterWords(dat)
    requires lineid < 0x1_0000 && IsLineLengthLegal(len) && len % 4 == 0
    requires PassImage(p, q, c, lineid, len, dat, passes)
    ensures forall i :: c <= i <= |q| - 4 && i % 4 == 0 ==>
      (U32At(q, i) == LINE_DELIMITER <==> passes >= 4 && i == c + len + 4)
  {
    forall i | c <= i <= |q| - 4 && i % 4 == 0
      ensures U32At(q, i) == LINE_DELIMITER <==> passes >= 4 && i == c + len + 4
    {
      TornWriteWords(p, q, c, lineid, len, dat, passes, i);
    }
  }

  /** A torn write keeps the delimiter of the last record below it. */
  lemma TornKeepsTop(p: seq<byte>, q: seq<byte>, c: nat, lineid: nat, len: nat, dat: seq<byte>, passes: nat)
    requires |p| >= PAGE_HEADER_SIZE + 4 && |p| % 4 == 0
    requires WellFormed(p, c) && forall i :: c <= i < |p| ==> p[i] == ERASED
    requires c + len + LINE_HEADER_SIZE <= |p| && |dat| == len && NoDelimiterWords(dat)
    requires lineid < 0x1_0000 && IsLineLengthLegal(len) && len % 4 == 0
    requires PassImage(p, q, c, lineid, len, dat, passes)
    requires c >= PAGE_HEADER_SIZE + LINE_HEADER_SIZE
    ensures IsLineDelimiterLegal(U32At(q, c - 4))
  {
    HeaderBytesOfDecoded(p, c - LINE_HEADER_SIZE);
    forall k | c - 4 <= k < c
      ensures q[k] == p[k]
    {
      assert q[k] == PassByte(p, c, lineid, len, dat, passes, k);
    }
    U32AtSame(q, c - 4, p, c - 4);
    assert U32At(p, c - 4) == HeaderAt(p, c - LINE_HEADER_SIZE).delimiter;
  }

  /** The locator over a write torn before its last pass finds the content index of the chain below the record. */
  lemma TornHidesRecord(p: seq<byte>, q: seq<byte>, c: nat, lineid: nat, len: nat, dat: seq<byte>, passes: nat)
    requires |p| >= PAGE_HEADER_SIZE + 4 && |p| % 4 == 0
    requires WellFormed(p, c) && forall i :: c <= i < |p| ==> p[i] == ERASED
    requires c + len + LINE_HEADER_SIZE <= |p| && |dat| == len && NoDelimiterWords(dat)
    requires lineid < 0x1_0000 && IsLineLengthLegal(len) && len % 4 == 0
    requires PassImage(p, q, c, lineid, len, dat, passes) && passes < 4
    ensures LocateIndex(q) == LocateIndex(p)
  {
    TornDelimiters(p, q, c, lineid, len, dat, passes);
    LocateWellFormed(p, c);
    if c >= PAGE_HEADER_SIZE + LINE_HEADER_SIZE {
      TornKeepsTop(p, q, c, lineid, len, dat, passes);
    }
    LocateFindsTop(q, c);
  }

  /** The locator over a completed write finds the index just past the record. */
  lemma CompletedShowsRecord(p: seq<byte>, q: seq<byte>, c: nat, lineid: nat, len: nat, dat: seq<byte>, passes: nat)
    requires |p| >= PAGE_HEADER_SIZE + 4 && |p| % 4 == 0
    requires WellFormed(p, c) && forall i :: c <= i < |p| ==> p[i] == ERASED
    requires c + len + LINE_HEADER_SIZE <= |p| && |dat| == len && NoDelimiterWords(dat)
    requires lineid < 0x1_0000 && IsLineLengthLegal(len) && len % 4 == 0
    requires PassImage(p, q, c, lineid, len, dat, passes) && passes >= 4
    ensures LocateIndex(q) == c + len + LINE_HEADER_SIZE
  {
    assert PAGE_HEADER_SIZE <= c && c % 4 == 0;
    CompletedTop(p, q, c, lineid, len, dat, passes);
  }

  /** CompletedShowsRecord, from only the alignment of the chain's end. */
  lemma CompletedTop(p: seq<byte>, q: seq<byte>, c: nat, lineid: nat, len: nat, dat: seq<byte>, passes: nat)
    requires |p| >= PAGE_HEADER_SIZE + 4 && |p| % 4 == 0 && PAGE_HEADER_SIZE <= c && c % 4 == 0
    requires forall i :: c <= i < |p| ==> p[i] == ERASED
    requires c + len + LINE_HEADER_SIZE <= |p| && |dat| == len && NoDelimiterWords(dat)
    requires lineid < 0x1_0000 && IsLineLengthLegal(len) && len % 4 == 0
    requires PassImage(p, q, c, lineid, len, dat, passes) && passes >= 4
    ensures LocateIndex(q) == c + len + LINE_HEADER_SIZE
  {
    var e := c + len + LINE_HEADER_SIZE;
    assert |q| == |p|;
    TornWriteWords(p, q, c, lineid, len, dat, passes, e - 4);
    assert IsLineDelimiterLegal(U32At(q, e - 4));
    TornAbove(p, q, c, lineid, len, dat, passes);
    LocateFindsTop(q, e);
  }

  /** TornWordOutside for every word above the new record. */
  lemma TornAbove(p: seq<byte>, q: seq<byte>, c: nat, lineid: nat, len: nat, dat: seq<byte>, passes: nat)
    requires c + len + LINE_HEADER_SIZE <= |p| && |dat| == len && lineid < 0x1_0000 && len < 0x1_0000
    requires PassImage(p, q, c, lineid, len, dat, passes)
    requires forall k :: c <= k < |p| ==> p[k] == ERASED
    ensures forall i :: c + len + LINE_HEADER_SIZE <= i <= |q| - 4 && i % 4 == 0 ==> U32At(q, i) != LINE_DELIMITER
  {
    forall i | c + len + LINE_HEADER_SIZE <= i <= |q| - 4 && i % 4 == 0
      ensures U32At(q, i) != LINE_DELIMITER
    {
      TornWordOutside(p, q, c, lineid, len, dat, passes, i);
    }
  }

  /**
   * The locator over a torn or completed write: before the last pass it
   * finds the content index of the chain below the record, after it the
   * index just past the record.
   */
  lemma TornLocate(p: seq<byte>, q: seq<byte>, c: nat, lineid: nat, len: nat, dat: seq<byte>, passes: nat)
    requires |p| >= PAGE_HEADER_SIZE + 4 && |p| % 4 == 0
    requires WellFormed(p, c) && forall i :: c <= i < |p| ==> p[i] == ERASED
    requires c + len + LINE_HEADER_SIZE <= |p| && |dat| == len && NoDelimiterWords(dat)
    requires lineid < 0x1_0000 && IsLineLengthLegal(len) && len % 4 == 0
    requires PassImage(p, q, c, lineid, len, dat, passes)
    ensures LocateIndex(q) == if passes < 4 then LocateIndex(p) else c + len + LINE_HEADER_SIZE
  {
    if passes < 4 {
      TornHidesRecord(p, q, c, lineid, len, dat, passes);
    } else {
      CompletedShowsRecord(p, q, c, lineid, len, dat, passes);
    }
  }

  /**
   * A power loss during write_line, then the locator: before the last pass
   * the located content index is the one before the write (the torn record
   * is invisible to every scan, which all start there), and after the last
   * pass it is just past the new record. The data must not itself contain
   * the delimiter word.
   */
  lemma TornWriteLocate(p: seq<byte>, c: nat, lineid: nat, len: nat, dat: seq<byte>, passes: nat)
    requires |p| >= PAGE_HEADER_SIZE + 4 && |p| % 4 == 0
    requires WellFormed(p, c) && forall i :: c <= i < |p| ==> p[i] == ERASED
    requires c + len + LINE_HEADER_SIZE <= |p| && |dat| == len && NoDelimiterWords(dat)
    requires lineid < 0x1_0000 && IsLineLengthLegal(len) && len % 4 == 0 && passes <= 4
    ensures LocateIndex(WriteLinePass(p, c, lineid, len, dat, passes)) ==
      if passes < 4 then LocateIndex(p) else c + len + LINE_HEADER_SIZE
  {
    WriteLinePassBytes(p, c, lineid, len, dat, passes);
    TornLocate(p, WriteLinePass(p, c, lineid, len, dat, passes), c, lineid, len, dat, passes);
  }
}
