/**
 * write_line on snapshots: the four program passes that put a record into
 * the flash (length, data, id, delimiter), what each pass leaves behind,
 * and what the locator and the scans see after a power loss between
 * passes.
 */
module LineWrite {
  import opened Layout
  import opened FlashImage
  import opened LineLog

  // ---------------------------------------------------- write protocol

  /**
   * The line header as it stands in flash after the first `passes` program
   * operations of write_line over an erased window: 0xFF everywhere, then
   * the length (pass 1), the data (pass 2, header unchanged), the id
   * (pass 3) and finally the delimiter (pass 4).
   */
  function HeaderAfterPass(lineid: nat, len: nat, passes: nat): (h: LineHeader)
    requires lineid < 0x1_0000 && len < 0x1_0000
    ensures h.Encodable()
    ensures passes < 4 ==> h.delimiter == ERASED_WORD
    ensures passes >= 4 ==> h.delimiter == LINE_DELIMITER
    ensures passes >= 1 ==> h.len == len
    ensures passes >= 3 ==> h.id == lineid
  {
    if passes == 0 then LineHeader(NO_LINE_ID, NO_LINE_ID, ERASED_WORD)
    else if passes <= 2 then LineHeader(NO_LINE_ID, len, ERASED_WORD)
    else if passes == 3 then LineHeader(lineid, len, ERASED_WORD)
    else LineHeader(lineid, len, LINE_DELIMITER)
  }

  /** write_line after its first `passes` program operations. */
  function WriteLinePass(p: seq<byte>, offset: nat, lineid: nat, len: nat, dat: seq<byte>, passes: nat): (q: seq<byte>)
    requires offset + len + LINE_HEADER_SIZE <= |p| && |dat| == len
    requires lineid < 0x1_0000 && len < 0x1_0000 && passes <= 4
    ensures |q| == |p|
    decreases passes
  {
    if passes == 0 then p
    else
      var q := WriteLinePass(p, offset, lineid, len, dat, passes - 1);
      if passes == 2 then Program(q, offset, dat)
      else Program(q, offset + len, HeaderBytes(HeaderAfterPass(lineid, len, passes)))
  }

  function WriteLine(p: seq<byte>, offset: nat, lineid: nat, len: nat, dat: seq<byte>): (q: seq<byte>)
    requires offset + len + LINE_HEADER_SIZE <= |p| && |dat| == len
    requires lineid < 0x1_0000 && len < 0x1_0000
    ensures |q| == |p|
  {
    WriteLinePass(p, offset, lineid, len, dat, 4)
  }

  /**
   * Each header pass programs an image that only clears bits of the one
   * before it, and all of them carry the same length.
   */
  lemma HeaderPassesOnlyClear(lineid: nat, len: nat, passes: nat)
    requires lineid < 0x1_0000 && len < 0x1_0000 && 1 <= passes <= 4
    ensures var before, after := HeaderBytes(HeaderAfterPass(lineid, len, passes - 1)),
                                 HeaderBytes(HeaderAfterPass(lineid, len, passes));
      forall j :: 0 <= j < LINE_HEADER_SIZE ==> And(before[j], after[j]) == after[j]
  {
    var before, after := HeaderBytes(HeaderAfterPass(lineid, len, passes - 1)),
                         HeaderBytes(HeaderAfterPass(lineid, len, passes));
    forall j | 0 <= j < LINE_HEADER_SIZE
      ensures And(before[j], after[j]) == after[j]
    {
      AndIdentities(after[j]);
      if passes == 1 {
        assert before[j] == ERASED;
      } else if passes == 2 {
        assert before[j] == after[j];
      } else if passes == 3 {
        assert j >= 2 ==> before[j] == after[j];
        assert j < 2 ==> before[j] == ERASED;
      } else {
        assert j < 4 ==> before[j] == after[j];
        assert j >= 4 ==> before[j] == ERASED;
      }
    }
  }

  /** The byte at `i` after `passes` passes of write_line into an erased window. */
  function PassByte(p: seq<byte>, offset: nat, lineid: nat, len: nat, dat: seq<byte>, passes: nat, i: nat): byte
    requires offset + len + LINE_HEADER_SIZE <= |p| && |dat| == len && i < |p|
    requires lineid < 0x1_0000 && len < 0x1_0000
  {
    var h := offset + len;
    if i < offset || h + LINE_HEADER_SIZE <= i then p[i]
    else if i < h then (if passes >= 2 then dat[i - offset] else ERASED)
    else HeaderBytes(HeaderAfterPass(lineid, len, passes))[i - h]
  }

  /** Pass 2 programs the data into the erased data window. */
  lemma DataPassBytes(p: seq<byte>, q: seq<byte>, offset: nat, lineid: nat, len: nat, dat: seq<byte>)
    requires offset + len + LINE_HEADER_SIZE <= |p| == |q| && |dat| == len
    requires lineid < 0x1_0000 && len < 0x1_0000
    requires forall i :: 0 <= i < |p| ==> q[i] == PassByte(p, offset, lineid, len, dat, 1, i)
    ensures forall i :: 0 <= i < |p| ==> Program(q, offset, dat)[i] == PassByte(p, offset, lineid, len, dat, 2, i)
  {
    var r := Program(q, offset, dat);
    forall i | 0 <= i < |p|
      ensures r[i] == PassByte(p, offset, lineid, len, dat, 2, i)
    {
      ProgramAt(q, offset, dat, i);
      assert q[i] == PassByte(p, offset, lineid, len, dat, 1, i);
      if offset <= i < offset + len {
        AndIdentities(dat[i - offset]);
      }
    }
  }

  /** Passes 1, 3 and 4 program the next header image over the previous one. */
  lemma HeaderPassBytes(p: seq<byte>, q: seq<byte>, offset: nat, lineid: nat, len: nat, dat: seq<byte>, passes: nat)
    requires offset + len + LINE_HEADER_SIZE <= |p| == |q| && |dat| == len
    requires lineid < 0x1_0000 && len < 0x1_0000 && 1 <= passes <= 4 && passes != 2
    requires forall i :: 0 <= i < |p| ==> q[i] == PassByte(p, offset, lineid, len, dat, passes - 1, i)
    ensures var w := HeaderBytes(HeaderAfterPass(lineid, len, passes));
      forall i :: 0 <= i < |p| ==> Program(q, offset + len, w)[i] == PassByte(p, offset, lineid, len, dat, passes, i)
  {
    var h := offset + len;
    var w := HeaderBytes(HeaderAfterPass(lineid, len, passes));
    var r := Program(q, h, w);
    HeaderPassesOnlyClear(lineid, len, passes);
    forall i | 0 <= i < |p|
      ensures r[i] == PassByte(p, offset, lineid, len, dat, passes, i)
    {
      ProgramAt(q, h, w, i);
      assert q[i] == PassByte(p, offset, lineid, len, dat, passes - 1, i);
    }
  }

  /**
   * The flash contents after each pass of write_line into an erased window:
   * nothing outside [offset, offset + len + 8) changes, the data is in
   * place from pass 2 on, and the header holds HeaderAfterPass. In
   * particular the delimiter word stays 0xFFFFFFFF until the last pass.
   */
  lemma {:induction false} WriteLinePassBytes(p: seq<byte>, offset: nat, lineid: nat, len: nat, dat: seq<byte>, passes: nat)
    requires offset + len + LINE_HEADER_SIZE <= |p| && |dat| == len
    requires lineid < 0x1_0000 && len < 0x1_0000 && passes <= 4
    requires forall i :: offset <= i < offset + len + LINE_HEADER_SIZE ==> p[i] == ERASED
    ensures forall i :: 0 <= i < |p| ==>
      WriteLinePass(p, offset, lineid, len, dat, passes)[i] == PassByte(p, offset, lineid, len, dat, passes, i)
    decreases passes
  {
    if passes == 0 {
      assert HeaderBytes(HeaderAfterPass(lineid, len, 0)) == Erased(LINE_HEADER_SIZE);
    } else {
      WriteLinePassBytes(p, offset, lineid, len, dat, passes - 1);
      var q := WriteLinePass(p, offset, lineid, len, dat, passes - 1);
      if passes == 2 {
        DataPassBytes(p, q, offset, lineid, len, dat);
      } else {
        HeaderPassBytes(p, q, offset, lineid, len, dat, passes);
      }
    }
  }

  /** write_line, byte by byte, once all four passes are done. */
  lemma WriteLineBytes(p: seq<byte>, offset: nat, lineid: nat, len: nat, dat: seq<byte>)
    requires offset + len + LINE_HEADER_SIZE <= |p| && |dat| == len
    requires lineid < 0x1_0000 && len < 0x1_0000
    requires forall i :: offset <= i < offset + len + LINE_HEADER_SIZE ==> p[i] == ERASED
    ensures forall i :: 0 <= i < |p| ==>
      WriteLine(p, offset, lineid, len, dat)[i] == PassByte(p, offset, lineid, len, dat, 4, i)
  {
    WriteLinePassBytes(p, offset, lineid, len, dat, 4);
  }

  /** write_line changes nothing outside the record it writes. */
  lemma WriteLineFrame(p: seq<byte>, offset: nat, lineid: nat, len: nat, dat: seq<byte>)
    requires offset + len + LINE_HEADER_SIZE <= |p| && |dat| == len
    requires lineid < 0x1_0000 && len < 0x1_0000
    requires forall i :: offset <= i < offset + len + LINE_HEADER_SIZE ==> p[i] == ERASED
    ensures forall i :: 0 <= i < |p| && (i < offset || offset + len + LINE_HEADER_SIZE <= i) ==>
      WriteLine(p, offset, lineid, len, dat)[i] == p[i]
  {
    WriteLineBytes(p, offset, lineid, len, dat);
  }

  /** After write_line the data window holds the data. */
  lemma WriteLineData(p: seq<byte>, offset: nat, lineid: nat, len: nat, dat: seq<byte>)
    requires offset + len + LINE_HEADER_SIZE <= |p| && |dat| == len
    requires lineid < 0x1_0000 && len < 0x1_0000
    requires forall i :: offset <= i < offset + len + LINE_HEADER_SIZE ==> p[i] == ERASED
    ensures WriteLine(p, offset, lineid, len, dat)[offset..offset + len] == dat
  {
    var q := WriteLine(p, offset, lineid, len, dat);
    WriteLineBytes(p, offset, lineid, len, dat);
    forall i | offset <= i < offset + len
      ensures q[i] == dat[i - offset]
    {
      assert q[i] == PassByte(p, offset, lineid, len, dat, 4, i);
    }
  }

  /** After write_line the header window holds the committed header. */
  lemma WriteLineHeader(p: seq<byte>, offset: nat, lineid: nat, len: nat, dat: seq<byte>)
    requires offset + len + LINE_HEADER_SIZE <= |p| && |dat| == len
    requires lineid < 0x1_0000 && len < 0x1_0000
    requires forall i :: offset <= i < offset + len + LINE_HEADER_SIZE ==> p[i] == ERASED
    ensures HeaderAt(WriteLine(p, offset, lineid, len, dat), offset + len) == LineHeader(lineid, len, LINE_DELIMITER)
  {
    var q, h := WriteLine(p, offset, lineid, len, dat), offset + len;
    var hb := HeaderBytes(HeaderAfterPass(lineid, len, 4));
    WriteLineBytes(p, offset, lineid, len, dat);
    forall i | h <= i < h + LINE_HEADER_SIZE
      ensures q[i] == hb[i - h]
    {
      assert q[i] == PassByte(p, offset, lineid, len, dat, 4, i);
    }
    assert q[h..h + LINE_HEADER_SIZE] == hb;
    HeaderRoundTrip(LineHeader(lineid, len, LINE_DELIMITER), q, h);
  }

  /** A completed write_line into an erased window stores the data followed by the committed header. */
  lemma WriteLineImage(p: seq<byte>, offset: nat, lineid: nat, len: nat, dat: seq<byte>)
    requires offset + len + LINE_HEADER_SIZE <= |p| && |dat| == len
    requires lineid < 0x1_0000 && len < 0x1_0000
    requires forall i :: offset <= i < offset + len + LINE_HEADER_SIZE ==> p[i] == ERASED
    ensures var q, h := WriteLine(p, offset, lineid, len, dat), offset + len;
      SameRecords(p, q, offset) &&
      (forall i :: h + LINE_HEADER_SIZE <= i < |p| ==> q[i] == p[i]) &&
      q[offset..h] == dat && HeaderAt(q, h) == LineHeader(lineid, len, LINE_DELIMITER)
  {
    WriteLineFrame(p, offset, lineid, len, dat);
    WriteLineData(p, offset, lineid, len, dat);
    WriteLineHeader(p, offset, lineid, len, dat);
  }
}
