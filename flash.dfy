/**
 * Flash semantics on page snapshots. A program operation can only clear
 * bits: every programmed byte becomes `old & new`. An erase sets the whole
 * page back to 0xFF. The physical callbacks of the source are replaced by
 * these two functions on values; the engine applies them to its arrays.
 */
module FlashImage {
  import opened Layout

  function Pow2(n: nat): (r: nat)
    ensures r >= 1
  {
    if n == 0 then 1 else 2 * Pow2(n - 1)
  }

  /** Bitwise AND of two naturals, one bit at a time from the lowest; it never exceeds either operand. */
  function AndNat(a: nat, b: nat): (r: nat)
    ensures r <= a && r <= b
  {
    if a == 0 || b == 0 then 0
    else
      var r := AndNat(a / 2, b / 2);
      r + r + (if a % 2 == 1 && b % 2 == 1 then 1 else 0)
  }

  /** A mask of `n` one bits keeps every value below 2^n whole. */
  lemma {:induction false} AndNatWithOnes(a: nat, n: nat)
    requires a < Pow2(n)
    ensures AndNat(a, Pow2(n) - 1) == a && AndNat(Pow2(n) - 1, a) == a
    decreases n
  {
    if n > 0 && a > 0 {
      AndNatWithOnes(a / 2, n - 1);
      assert (Pow2(n) - 1) / 2 == Pow2(n - 1) - 1 && (Pow2(n) - 1) % 2 == 1;
    }
  }

  lemma {:induction false} AndNatSelf(a: nat)
    ensures AndNat(a, a) == a
  {
    if a > 0 {
      AndNatSelf(a / 2);
    }
  }

  lemma {:induction false} AndNatAbsorb(a: nat, b: nat)
    ensures AndNat(AndNat(a, b), a) == AndNat(a, b)
  {
    if a > 0 && b > 0 {
      AndNatAbsorb(a / 2, b / 2);
    }
  }

  /** One programmed byte: the bits of the current value `cur` that the programmed value `val` leaves set. */
  function And(cur: byte, val: byte): byte
  {
    AndNat(cur as nat, val as nat) as byte
  }

  /** Programming over an erased byte stores the new value; programming 0xFF changes nothing; programming a value over itself keeps it. */
  lemma AndIdentities(x: byte)
    ensures And(ERASED, x) == x && And(x, ERASED) == x && And(x, x) == x && And(x, 0) == 0
  {
    assert Pow2(8) - 1 == ERASED as nat;
    AndNatWithOnes(x as nat, 8);
    AndNatSelf(x as nat);
  }

  /** Programming only clears bits: the result has no bit the old byte lacked. */
  lemma AndOnlyClears(cur: byte, val: byte)
    ensures And(And(cur, val), cur) == And(cur, val)
  {
    AndNatAbsorb(cur as nat, val as nat);
  }

  /**
   * write_nvwords: program the bytes `w` at offset `off`, one after the
   * other. Every programmed byte becomes the AND of what it held and the
   * value written; the rest of the page is untouched.
   */
  function Program(p: seq<byte>, off: nat, w: seq<byte>): (r: seq<byte>)
    requires off + |w| <= |p|
    ensures |r| == |p|
    decreases |w|
  {
    if |w| == 0 then p else Program(p[off := And(p[off], w[0])], off + 1, w[1..])
  }

  /** The byte at `i` after a program: the AND inside the window, the old byte outside it. */
  lemma {:induction false} ProgramAt(p: seq<byte>, off: nat, w: seq<byte>, i: nat)
    requires off + |w| <= |p| && i < |p|
    ensures Program(p, off, w)[i] == if off <= i < off + |w| then And(p[i], w[i - off]) else p[i]
    decreases |w|
  {
    if |w| > 0 {
      ProgramAt(p[off := And(p[off], w[0])], off + 1, w[1..], i);
    }
  }

  /** ProgramAt for every byte of the page. */
  lemma ProgramBytes(p: seq<byte>, off: nat, w: seq<byte>)
    requires off + |w| <= |p|
    ensures forall i :: 0 <= i < |p| ==>
      Program(p, off, w)[i] == if off <= i < off + |w| then And(p[i], w[i - off]) else p[i]
  {
    forall i | 0 <= i < |p|
      ensures Program(p, off, w)[i] == if off <= i < off + |w| then And(p[i], w[i - off]) else p[i]
    {
      ProgramAt(p, off, w, i);
    }
  }

  /** erase_nvpage: a page of `n` erased bytes. */
  function Erased(n: nat): (r: seq<byte>)
    ensures |r| == n
  {
    seq(n, _ => ERASED)
  }

  predicate IsErased(s: seq<byte>) {
    forall i :: 0 <= i < |s| ==> s[i] == ERASED
  }

  /** Every byte of `p` from offset `c` on is erased. */
  predicate ErasedFrom(p: seq<byte>, c: nat) {
    forall i :: c <= i < |p| ==> p[i] == ERASED
  }

  /** Programming into an erased window stores exactly `w` there and nothing changes elsewhere. */
  lemma ProgramOnErased(p: seq<byte>, off: nat, w: seq<byte>)
    requires off + |w| <= |p| && IsErased(p[off..off + |w|])
    ensures Program(p, off, w)[off..off + |w|] == w
    ensures Program(p, off, w)[..off] == p[..off]
    ensures Program(p, off, w)[off + |w|..] == p[off + |w|..]
  {
    var r := Program(p, off, w);
    ProgramBytes(p, off, w);
    forall i | off <= i < off + |w|
      ensures r[i] == w[i - off]
    {
      assert p[off..off + |w|][i - off] == ERASED;
      AndIdentities(w[i - off]);
    }
  }

  /** Programming into an erased window, byte by byte. */
  lemma ProgramOnErasedBytes(p: seq<byte>, off: nat, w: seq<byte>)
    requires off + |w| <= |p| && forall i :: off <= i < off + |w| ==> p[i] == ERASED
    ensures forall i :: 0 <= i < |p| ==>
      Program(p, off, w)[i] == if off <= i < off + |w| then w[i - off] else p[i]
  {
    ProgramBytes(p, off, w);
    forall i | off <= i < off + |w|
      ensures And(p[i], w[i - off]) == w[i - off]
    {
      AndIdentities(w[i - off]);
    }
  }

  /**
   * Programming over a window that already holds `v` stores `w` exactly when
   * `w` has no bit that `v` lacks (each byte of `w` is `v & w`).
   */
  lemma ProgramOverImage(p: seq<byte>, off: nat, w: seq<byte>)
    requires off + |w| <= |p|
    requires forall j :: 0 <= j < |w| ==> And(p[off + j], w[j]) == w[j]
    ensures Program(p, off, w)[off..off + |w|] == w
    ensures Program(p, off, w)[..off] == p[..off]
    ensures Program(p, off, w)[off + |w|..] == p[off + |w|..]
  {
    ProgramBytes(p, off, w);
  }

  /** Every byte after a program holds a subset of the bits it held before, and of the bits programmed. */
  lemma ProgramOnlyClears(p: seq<byte>, off: nat, w: seq<byte>, i: nat)
    requires off + |w| <= |p| && i < |p|
    ensures And(Program(p, off, w)[i], p[i]) == Program(p, off, w)[i]
  {
    ProgramAt(p, off, w, i);
    if off <= i < off + |w| {
      AndOnlyClears(p[i], w[i - off]);
    } else {
      AndIdentities(p[i]);
    }
  }

  /** Two programs of adjacent windows are one program of the joined window. */
  lemma ProgramAdjacent(p: seq<byte>, off: nat, w1: seq<byte>, w2: seq<byte>)
    requires off + |w1| + |w2| <= |p|
    ensures Program(Program(p, off, w1), off + |w1|, w2) == Program(p, off, w1 + w2)
  {
    var a := Program(Program(p, off, w1), off + |w1|, w2);
    var b := Program(p, off, w1 + w2);
    ProgramBytes(p, off, w1);
    ProgramBytes(Program(p, off, w1), off + |w1|, w2);
    ProgramBytes(p, off, w1 + w2);
    forall i | 0 <= i < |p|
      ensures a[i] == b[i]
    {
      if off <= i < off + |w1| {
        assert (w1 + w2)[i - off] == w1[i - off];
      } else if off + |w1| <= i < off + |w1| + |w2| {
        assert (w1 + w2)[i - off] == w2[i - off - |w1|];
      }
    }
  }

  /** Copying a window word by word: once the first `i` bytes of `s` at `from` are programmed, programming the next four gives the first `i + 4`. */
  lemma ProgramExtend(p: seq<byte>, off: nat, s: seq<byte>, from: nat, i: nat, cur: seq<byte>, word: seq<byte>)
    requires off + i + 4 <= |p| && from + i + 4 <= |s|
    requires cur == Program(p, off, s[from..from + i]) && word == s[from + i..from + i + 4]
    ensures Program(cur, off + i, word) == Program(p, off, s[from..from + i + 4])
  {
    ProgramAdjacent(p, off, s[from..from + i], s[from + i..from + i + 4]);
    assert s[from..from + i] + s[from + i..from + i + 4] == s[from..from + i + 4];
  }
}
