/**
 * On-flash layout of the NVMM record log: the constants of nvmm.c, the
 * legality tests on line headers, the padding rule, and the little-endian
 * codec for the 8-byte line header and the 12-byte page header.
 *
 * Byte order is little-endian, as on the STM32 target. It matters only for
 * the 16-bit `id` and `len` fields: the marker and delimiter values
 * (0xAAAAAAAA, 0x00000000, 0xFFFFFFFF) read the same in either order.
 */
module Layout {

  /** One flash byte. */
  newtype byte = x: int | 0 <= x < 256

  const ERASED: byte := 0xFF

  const PAGE_NULL: int := 0
  const ACTIVE_PAGE_STATE: nat := 0xAAAA_AAAA
  const DUMMY_PAGE_STATE: nat := 0
  const PAGE_SIZE_DEFAULT: nat := 2048
  const PAGE_A_ID_DEFAULT: nat := 1
  const PAGE_B_ID_DEFAULT: nat := 2
  /** A configuration argument of 0xFFFF means "keep the default". */
  const USE_DEFAULT: nat := 0xFFFF

  const LINE_DELIMITER: nat := 0xAAAA_AAAA
  const ERASED_WORD: nat := 0xFFFF_FFFF
  const LINE_MAXID: nat := 0x8000
  const LINE_MAXLENGTH: nat := 0x8000
  /** The id written in the first header pass, and the initial history id of a compaction. */
  const NO_LINE_ID: nat := 0xFFFF
  const DUMMY_LINE_ID: nat := 0xCAFE

  /** sizeof(nvmm_lineheader_t) and sizeof(nvmm_pageheader_t). */
  const LINE_HEADER_SIZE: nat := 8
  const PAGE_HEADER_SIZE: nat := 12

  predicate IsLineIdLegal(id: int) { id < LINE_MAXID }
  predicate IsLineLengthLegal(len: int) { len < LINE_MAXLENGTH }
  predicate IsLineDelimiterLegal(delimiter: int) { delimiter == LINE_DELIMITER }

  /** PAD_LENGTH: round a length up to the next multiple of the word size. */
  function PadLength(len: nat): (r: nat)
    ensures r % 4 == 0 && len <= r < len + 4
    ensures len % 4 == 0 ==> r == len
  {
    (len + 3) / 4 * 4
  }

  // ---------------------------------------------------------------- codec

  function U16At(p: seq<byte>, o: nat): (v: nat)
    requires o + 2 <= |p|
    ensures v < 0x1_0000
  {
    p[o] as nat + 256 * p[o + 1] as nat
  }

  function U32At(p: seq<byte>, o: nat): (v: nat)
    requires o + 4 <= |p|
    ensures v < 0x1_0000_0000
  {
    U16At(p, o) + 0x1_0000 * U16At(p, o + 2)
  }

  function LE16(v: nat): (s: seq<byte>)
    requires v < 0x1_0000
    ensures |s| == 2 && U16At(s, 0) == v
  {
    [(v % 256) as byte, (v / 256) as byte]
  }

  function LE32(v: nat): (s: seq<byte>)
    requires v < 0x1_0000_0000
    ensures |s| == 4 && U32At(s, 0) == v
  {
    var lo, hi := LE16(v % 0x1_0000), LE16(v / 0x1_0000);
    assert U16At(lo + hi, 0) == U16At(lo, 0);
    assert U16At(lo + hi, 2) == U16At(hi, 0);
    lo + hi
  }

  /** Decoding two bytes and encoding the value again gives the same bytes. */
  lemma LE16OfU16(p: seq<byte>, o: nat)
    requires o + 2 <= |p|
    ensures LE16(U16At(p, o)) == p[o..o + 2]
  {
  }

  /** The line header nvmm_lineheader_t: id u16, len u16, delimiter u32. */
  datatype LineHeader = LineHeader(id: nat, len: nat, delimiter: nat)
  {
    predicate Encodable() {
      id < 0x1_0000 && len < 0x1_0000 && delimiter < 0x1_0000_0000
    }

    /** A header every scan may trust: a legal id and the delimiter in place. */
    predicate IsCommitted() {
      IsLineIdLegal(id) && IsLineDelimiterLegal(delimiter)
    }
  }

  function HeaderBytes(h: LineHeader): (s: seq<byte>)
    requires h.Encodable()
    ensures |s| == LINE_HEADER_SIZE
  {
    LE16(h.id) + LE16(h.len) + LE32(h.delimiter)
  }

  function HeaderAt(p: seq<byte>, o: nat): (h: LineHeader)
    requires o + LINE_HEADER_SIZE <= |p|
    ensures h.Encodable()
  {
    LineHeader(U16At(p, o), U16At(p, o + 2), U32At(p, o + 4))
  }

  /** Decoding the bytes of an encoded header gives the header back. */
  lemma HeaderRoundTrip(h: LineHeader, p: seq<byte>, o: nat)
    requires h.Encodable() && o + LINE_HEADER_SIZE <= |p|
    requires p[o..o + LINE_HEADER_SIZE] == HeaderBytes(h)
    ensures HeaderAt(p, o) == h
  {
    var s := HeaderBytes(h);
    assert p[o] == s[0] && p[o + 1] == s[1] && p[o + 2] == s[2] && p[o + 3] == s[3];
    assert p[o + 4] == s[4] && p[o + 5] == s[5] && p[o + 6] == s[6] && p[o + 7] == s[7];
    var d := LE32(h.delimiter);
    assert s[4..8] == d;
    assert d[0] == s[4] && d[1] == s[5] && d[2] == s[6] && d[3] == s[7];
  }

  /** The fields of an encoded header, read back word by word. */
  lemma HeaderBytesFields(h: LineHeader)
    requires h.Encodable()
    ensures U16At(HeaderBytes(h), 0) == h.id && U16At(HeaderBytes(h), 2) == h.len
    ensures U32At(HeaderBytes(h), 4) == h.delimiter
  {
    var s := HeaderBytes(h);
    assert s[0..LINE_HEADER_SIZE] == s;
    HeaderRoundTrip(h, s, 0);
  }

  /** Four equal bytes read as the same word. */
  lemma U32AtSame(p: seq<byte>, i: nat, q: seq<byte>, j: nat)
    requires i + 4 <= |p| && j + 4 <= |q|
    requires p[i] == q[j] && p[i + 1] == q[j + 1] && p[i + 2] == q[j + 2] && p[i + 3] == q[j + 3]
    ensures U32At(p, i) == U32At(q, j)
  {
  }

  /** Encoding a decoded header reproduces the 8 bytes it was read from. */
  lemma HeaderBytesOfDecoded(p: seq<byte>, o: nat)
    requires o + LINE_HEADER_SIZE <= |p|
    ensures HeaderBytes(HeaderAt(p, o)) == p[o..o + LINE_HEADER_SIZE]
  {
    var h := HeaderAt(p, o);
    LE16OfU16(p, o);
    LE16OfU16(p, o + 2);
    LE16OfU16(p, o + 4);
    LE16OfU16(p, o + 6);
    var lo, hi := U16At(p, o + 4), U16At(p, o + 6);
    assert h.delimiter == lo + 0x1_0000 * hi;
    assert h.delimiter % 0x1_0000 == lo && h.delimiter / 0x1_0000 == hi;
    assert LE32(h.delimiter) == LE16(lo) + LE16(hi);
    assert p[o..o + 8] == p[o..o + 2] + p[o + 2..o + 4] + p[o + 4..o + 6] + p[o + 6..o + 8];
  }

  // ---------------------------------------------------------- page header

  /** Page lifecycle, decoded from the first word of a page. */
  datatype PageState = Active | Dummy | Unrecognised

  function StateOf(p: seq<byte>): (st: PageState)
    requires |p| >= 4
    ensures st == Active <==> U32At(p, 0) == ACTIVE_PAGE_STATE
    ensures st == Dummy <==> U32At(p, 0) == DUMMY_PAGE_STATE
  {
    var w := U32At(p, 0);
    if w == ACTIVE_PAGE_STATE then Active
    else if w == DUMMY_PAGE_STATE then Dummy
    else Unrecognised
  }

  /**
   * The image active_page programs at offset 0: the marker word followed by
   * the dummy line header (id 0xCAFE, delimiter set). Its `len` is an
   * uninitialised stack value in the source, so it is a parameter here.
   */
  function PageHeaderBytes(state: nat, dummyLen: nat): (s: seq<byte>)
    requires state < 0x1_0000_0000 && dummyLen < 0x1_0000
    ensures |s| == PAGE_HEADER_SIZE
    ensures U32At(s, 0) == state
  {
    LE32(state) + HeaderBytes(LineHeader(DUMMY_LINE_ID, dummyLen, LINE_DELIMITER))
  }

  /** A window of a window is a window of the whole. */
  lemma SliceOfSlice<T>(s: seq<T>, a: nat, b: nat, i: nat, j: nat)
    requires a <= b <= |s| && i <= j <= b - a
    ensures s[a..b][i..j] == s[a + i..a + j]
  {
    var w, v := s[a..b][i..j], s[a + i..a + j];
    assert |w| == |v|;
    forall k | 0 <= k < |w|
      ensures w[k] == v[k]
    {
    }
  }
}
