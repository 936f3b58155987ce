/**
 * Sequences of API calls on a steady engine: what a write leaves readable,
 * for the id written and for every other id, and the call sequence of the
 * test program in test/STM32F103VE/Src/main.c.
 */
module Session {
  import opened Layout
  import opened LineLog
  import opened Compaction
  import opened Engine
  import opened EngineProps

  /** The record of `id` in `m` starts with the first `len` bytes of `dat`. */
  predicate Holds(m: map<nat, seq<byte>>, id: nat, len: nat, dat: seq<byte>) {
    id in m && len <= |m[id]| && len <= |dat| && m[id][..len] == dat[..len]
  }

  /**
   * After a write of `id`, its record is the padded data written or, for a
   * no-op write, the record that was already there.
   */
  lemma WriteRecord(st: State, id: nat, len: nat, dat: seq<byte>, stackLen: nat)
    requires Steady(st) && id < 0x1_0000 && |dat| == PadLength(len) && stackLen < 0x1_0000
    requires WriteNvmm(st, id, len, dat, stackLen).Next?
    ensures var r := WriteNvmm(st, id, len, dat, stackLen).st;
      Steady(r) && id in Contents(r) &&
      (Contents(r)[id] == dat || (id in Contents(st) && Contents(r)[id] == Contents(st)[id]))
  {
    WriteSteady(st, id, len, dat, stackLen);
    if IsNoOp(st, id, len, dat) {
      FindLineNewest(st.Page(st.active), st.ct, id);
    }
  }

  /**
   * After a write of `id`, its record starts with the bytes written, as
   * long as any old record of `id` is at least `len` bytes long: the
   * comparison of g_write_nvmm does not stop at the end of the record it
   * found.
   */
  lemma WriteHolds(st: State, id: nat, len: nat, dat: seq<byte>, stackLen: nat)
    requires Steady(st) && id < 0x1_0000 && |dat| == PadLength(len) && stackLen < 0x1_0000
    requires WriteNvmm(st, id, len, dat, stackLen).Next?
    requires id in Contents(st) ==> len <= |Contents(st)[id]|
    ensures var r := WriteNvmm(st, id, len, dat, stackLen).st;
      Steady(r) && Holds(Contents(r), id, len, dat)
  {
    WriteSteady(st, id, len, dat, stackLen);
    if IsNoOp(st, id, len, dat) {
      var p, c := st.Page(st.active), st.ct;
      FindLineNewest(p, c, id);
      var r := LineAddress(p, c, id);
      var rec := Store(p, c)[id];
      assert p[r..r + len] == dat[..len];
      assert rec[..len] == p[r..r + |rec|][..len] == p[r..r + len];
    }
  }

  /** A write of `id` keeps the record of every other legal id as it was, and adds none. */
  lemma WriteKeeps(st: State, id: nat, len: nat, dat: seq<byte>, stackLen: nat, other: nat)
    requires Steady(st) && id < 0x1_0000 && |dat| == PadLength(len) && stackLen < 0x1_0000
    requires WriteNvmm(st, id, len, dat, stackLen).Next? && other != id && IsLineIdLegal(other)
    ensures var r := WriteNvmm(st, id, len, dat, stackLen).st;
      Steady(r) && (other in Contents(r) <==> other in Contents(st)) &&
      (other in Contents(r) ==> Contents(r)[other] == Contents(st)[other])
  {
    WriteSteady(st, id, len, dat, stackLen);
  }

  /** One call of g_write_nvmm(id, len, dat). */
  datatype WriteCall = WriteCall(id: nat, len: nat, dat: seq<byte>)

  /** The calls in order, each from the state the one before left; a call the model does not cover ends the run. */
  function Run(st: State, calls: seq<WriteCall>, stackLen: nat): Step
    requires stackLen < 0x1_0000
    decreases |calls|
  {
    if |calls| == 0 then Next(st, 0)
    else
      var w := calls[0];
      if !(st.Fits() && st.IsPage(st.active) && LINE_HEADER_SIZE <= st.ct <= st.g.size) then Unmodelled
      else if !(w.id < 0x1_0000 && |w.dat| == PadLength(w.len)) then Unmodelled
      else
        match WriteNvmm(st, w.id, w.len, w.dat, stackLen)
        case Next(s, _) => Run(s, calls[1..], stackLen)
        case Unmodelled => Unmodelled
  }

  /** A covered run starts with a covered call of g_write_nvmm, and goes on from the state it leaves. */
  lemma RunFirst(st: State, calls: seq<WriteCall>, stackLen: nat)
    requires Steady(st) && stackLen < 0x1_0000 && |calls| > 0 && Run(st, calls, stackLen).Next?
    ensures var w := calls[0];
      w.id < 0x1_0000 && |w.dat| == PadLength(w.len) && WriteNvmm(st, w.id, w.len, w.dat, stackLen).Next? &&
      Run(WriteNvmm(st, w.id, w.len, w.dat, stackLen).st, calls[1..], stackLen) == Run(st, calls, stackLen)
  {
  }

  /**
   * The first call of a covered run from a steady state: it leaves a
   * steady state `s` from which the rest of the run continues; the id it
   * writes has the record WriteRecord and WriteHolds describe, and every
   * other legal id keeps its record.
   */
  lemma RunStep(st: State, calls: seq<WriteCall>, stackLen: nat) returns (s: State)
    requires Steady(st) && stackLen < 0x1_0000 && |calls| > 0 && Run(st, calls, stackLen).Next?
    ensures calls[0].id < 0x1_0000 && |calls[0].dat| == PadLength(calls[0].len)
    ensures var w := WriteNvmm(st, calls[0].id, calls[0].len, calls[0].dat, stackLen); w.Next? && w.st == s
    ensures Steady(s) && Run(s, calls[1..], stackLen) == Run(st, calls, stackLen)
    ensures var w := calls[0];
      w.id in Contents(s) && |w.dat| == PadLength(w.len) &&
      (Contents(s)[w.id] == w.dat || (w.id in Contents(st) && Contents(s)[w.id] == Contents(st)[w.id])) &&
      ((w.id in Contents(st) ==> w.len <= |Contents(st)[w.id]|) ==> Holds(Contents(s), w.id, w.len, w.dat))
    ensures forall other: nat :: IsLineIdLegal(other) && other != calls[0].id ==>
      (other in Contents(s) <==> other in Contents(st)) && (other in Contents(s) ==> Contents(s)[other] == Contents(st)[other])
  {
    var w := calls[0];
    RunFirst(st, calls, stackLen);
    s := WriteNvmm(st, w.id, w.len, w.dat, stackLen).st;
    WriteRecord(st, w.id, w.len, w.dat, stackLen);
    if w.id in Contents(st) ==> w.len <= |Contents(st)[w.id]| {
      WriteHolds(st, w.id, w.len, w.dat, stackLen);
    }
    forall other: nat | IsLineIdLegal(other) && other != w.id
      ensures (other in Contents(s) <==> other in Contents(st)) && (other in Contents(s) ==> Contents(s)[other] == Contents(st)[other])
    {
      WriteKeeps(st, w.id, w.len, w.dat, stackLen, other);
    }
  }

  /**
   * A covered run of writes from a steady state leaves a steady state,
   * and the records of the legal ids it does not write stay as they were.
   */
  lemma {:induction false} RunKeeps(st: State, calls: seq<WriteCall>, stackLen: nat, other: nat)
    requires Steady(st) && stackLen < 0x1_0000 && Run(st, calls, stackLen).Next? && IsLineIdLegal(other)
    requires forall k :: 0 <= k < |calls| ==> calls[k].id != other
    ensures var r := Run(st, calls, stackLen).st;
      Steady(r) && (other in Contents(r) <==> other in Contents(st)) &&
      (other in Contents(r) ==> Contents(r)[other] == Contents(st)[other])
    decreases |calls|
  {
    if |calls| > 0 {
      var s := RunStep(st, calls, stackLen);
      assert calls[0].id != other;
      forall k | 0 <= k < |calls[1..]|
        ensures calls[1..][k].id != other
      {
        assert calls[1..][k] == calls[k + 1];
      }
      RunKeeps(s, calls[1..], stackLen, other);
    }
  }

  /**
   * The sequence of the test program: on a steady engine that holds no
   * record of id 0 or 1, as check_nvmm leaves blank flash, a read of id 0
   * fails; then id 0, id 1, id 0 and id 0 are written. When the model
   * covers the writes and every rewrite of id 0 is no longer than the
   * padded record it may match, id 0 reads back the bytes of its last
   * write and id 1 those of its only write.
   */
  lemma TestProgram(st: State, d1: seq<byte>, d2: seq<byte>, d3: seq<byte>, d4: seq<byte>,
                    l1: nat, l2: nat, l3: nat, l4: nat, stackLen: nat, bufsize: nat)
    requires Steady(st) && 0 !in Contents(st) && 1 !in Contents(st) && stackLen < 0x1_0000
    requires |d1| == PadLength(l1) && |d2| == PadLength(l2) && |d3| == PadLength(l3) && |d4| == PadLength(l4)
    requires 0 < l2 <= bufsize && 0 < l4 <= bufsize
    requires l3 <= PadLength(l1) && l4 <= PadLength(l1) && l4 <= PadLength(l3)
    requires Run(st, [WriteCall(0, l1, d1), WriteCall(1, l2, d2), WriteCall(0, l3, d3), WriteCall(0, l4, d4)], stackLen).Next?
    ensures ReadNvmm(st, 0, bufsize, false, bufsize) == Failed
    ensures var r := Run(st, [WriteCall(0, l1, d1), WriteCall(1, l2, d2), WriteCall(0, l3, d3), WriteCall(0, l4, d4)], stackLen).st;
      Steady(r) && ReadNvmm(r, 0, l4, false, bufsize) == Data(d4[..l4]) && ReadNvmm(r, 1, l2, false, bufsize) == Data(d2[..l2])
  {
    ReadContents(st, 0, bufsize, false, bufsize);
    var c4 := [WriteCall(0, l1, d1), WriteCall(1, l2, d2), WriteCall(0, l3, d3), WriteCall(0, l4, d4)];
    var s1 := RunStep(st, c4, stackLen);
    assert Contents(s1)[0] == d1;
    var c3 := c4[1..];
    var s2 := RunStep(s1, c3, stackLen);
    assert Contents(s2)[0] == d1 && Contents(s2)[1] == d2;
    var c2 := c3[1..];
    var s3 := RunStep(s2, c2, stackLen);
    assert |Contents(s3)[0]| >= l4 && Contents(s3)[1] == d2;
    var c1 := c2[1..];
    var s4 := RunStep(s3, c1, stackLen);
    assert Holds(Contents(s4), 0, l4, d4) && Contents(s4)[1] == d2;
    assert c1[1..] == [];
    ReadContents(s4, 0, l4, false, bufsize);
    ReadContents(s4, 1, l2, false, bufsize);
  }

  /**
   * The reads the test program makes after each of its writes, of the id
   * just written: when the model covers the writes, each returns the bytes
   * that write stored.
   */
  lemma TestProgramReads(st: State, d1: seq<byte>, d2: seq<byte>, d3: seq<byte>, d4: seq<byte>,
                         l1: nat, l2: nat, l3: nat, l4: nat, stackLen: nat, bufsize: nat)
    requires Steady(st) && stackLen < 0x1_0000
    requires |d1| == PadLength(l1) && |d2| == PadLength(l2) && |d3| == PadLength(l3) && |d4| == PadLength(l4)
    requires Run(st, [WriteCall(0, l1, d1), WriteCall(1, l2, d2), WriteCall(0, l3, d3), WriteCall(0, l4, d4)], stackLen).Next?
    ensures var w1 := WriteNvmm(st, 0, l1, d1, stackLen);
      w1.Next? && (0 < l1 <= bufsize ==> ReadNvmm(w1.st, 0, l1, false, bufsize) == Data(d1[..l1])) &&
      var w2 := WriteNvmm(w1.st, 1, l2, d2, stackLen);
      w2.Next? && (0 < l2 <= bufsize ==> ReadNvmm(w2.st, 1, l2, false, bufsize) == Data(d2[..l2])) &&
      var w3 := WriteNvmm(w2.st, 0, l3, d3, stackLen);
      w3.Next? && (0 < l3 <= bufsize ==> ReadNvmm(w3.st, 0, l3, false, bufsize) == Data(d3[..l3])) &&
      var w4 := WriteNvmm(w3.st, 0, l4, d4, stackLen);
      w4.Next? && (0 < l4 <= bufsize ==> ReadNvmm(w4.st, 0, l4, false, bufsize) == Data(d4[..l4]))
  {
    var c4 := [WriteCall(0, l1, d1), WriteCall(1, l2, d2), WriteCall(0, l3, d3), WriteCall(0, l4, d4)];
    var s1 := RunStep(st, c4, stackLen);
    var s2 := RunStep(s1, c4[1..], stackLen);
    var s3 := RunStep(s2, c4[1..][1..], stackLen);
    var s4 := RunStep(s3, c4[1..][1..][1..], stackLen);
    if 0 < l1 <= bufsize {
      ReadAfterWrite(st, 0, l1, d1, stackLen, bufsize);
    }
    if 0 < l2 <= bufsize {
      ReadAfterWrite(s1, 1, l2, d2, stackLen, bufsize);
    }
    if 0 < l3 <= bufsize {
      ReadAfterWrite(s2, 0, l3, d3, stackLen, bufsize);
    }
    if 0 < l4 <= bufsize {
      ReadAfterWrite(s3, 0, l4, d4, stackLen, bufsize);
    }
  }
}
