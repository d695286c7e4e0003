/** Pairs of instructions that undo or refine one another. */
module RoundTrips {
  import opened Words
  import opened Csrs
  import opened Cpu
  import opened Ram
  import opened Instructions
  import opened Execute
  import opened Step
  import opened CommitLog
  import opened Runs
  import Isa
  import Fields

  // ---- Memory.

  /**
   * After a store, a later load of the same width at the same address from the same memory commits the low bytes of
   * the register stored, extended as the load says.
   */
  lemma StoreThenLoad(c: CoreState, m: Image, store: Insn, c1: CoreState, m1: Image, k: Commit,
                      later: CoreState, load: Insn, c2: CoreState, m2: Image, l: Commit)
    requires store.StoreInsn? && Sound(c) && StepOf(c, m, store) == Committed(c1, m1, k)
    requires load.LoadInsn? && StepOf(later, m1, load) == Committed(c2, m2, l)
    requires SizeOf(load.access) == SizeOf(store.access) && load.rd != 0
    requires Wrap(later.gprs[load.rs1] + load.imm) == Wrap(c.gprs[store.rs1] + store.imm)
    ensures LoadedAs(load.access, LowBytes(c.gprs[store.rs2], SizeOf(store.access)), c2.gprs[load.rd]) && m2 == m1
  {
    hide Effects, StepOf, LoadedAs, Accessible, Read;
    StoredBytes(c, m, store, c1, m1, k);
    var v := Isa.LoadLands(later, m1, load, c2, m2, l);
  }

  lemma StoredBytes(c: CoreState, m: Image, store: Insn, c1: CoreState, m1: Image, k: Commit)
    requires store.StoreInsn? && Sound(c) && StepOf(c, m, store) == Committed(c1, m1, k)
    ensures var addr, n := Wrap(c.gprs[store.rs1] + store.imm), SizeOf(store.access);
            Accessible(m1, addr, n) && Read(m1, addr, n) == LowBytes(c.gprs[store.rs2], n)
  {
    hide Sound, IsDiff, Accessible, Read, Complete;
    var n := SizeOf(store.access);
    var w := MemAccess(Wrap(c.gprs[store.rs1] + store.imm), LowBytes(c.gprs[store.rs2], n), n);
    CommitIsTheDiff(c, m, store, c1, m1, k);
    assert Effects(c, m, store).memWrites == [w];
    CommitNamesStores(c, m, store, c1, m1, k);
    assert w in k.memWrites;
  }

  function LowBytes(v: u64, n: nat): (low: u64)
    requires Width(n)
    ensures low < Base(n)
  {
    BaseOfWidth();
    v % Base(n)
  }

  lemma CommitNamesStores(c: CoreState, m: Image, insn: Insn, c1: CoreState, m1: Image, k: Commit)
    requires StepOf(c, m, insn) == Committed(c1, m1, k)
    ensures Effects(c, m, insn).NormalStep? && k.memWrites == Effects(c, m, insn).memWrites
  {
    hide Effects, Rewritten, ApplyAll, WriteAll, Accessible, Fetched;
  }

  /** A floating-point store and load carry the word unchanged, NaNs included. */
  lemma StoreFpThenLoadFp(c: CoreState, m: Image, imm: i64, rs1: Num, rs2: Num,
                          c1: CoreState, m1: Image, k: Commit, rd: Num)
    requires Sound(c) && StepOf(c, m, StoreFpInsn(imm, rs1, rs2)) == Committed(c1, m1, k)
    ensures var r := LoadFpOf(m1, Wrap(c.gprs[rs1] + imm), rd);
            r.NormalStep? && r.regWrites == [F(rd, c.fprs[rs2])]
  {
    hide Sound, IsDiff, Accessible, Read, Complete;
    var insn := StoreFpInsn(imm, rs1, rs2);
    var w := MemAccess(Wrap(c.gprs[rs1] + imm), c.fprs[rs2], 4);
    CommitIsTheDiff(c, m, insn, c1, m1, k);
    assert Effects(c, m, insn).memWrites == [w];
    CommitNamesStores(c, m, insn, c1, m1, k);
    assert w in k.memWrites;
  }

  // ---- CSR instructions.

  /** A CSR instruction reads before it writes: rd receives the old value, whatever is written. */
  lemma CsrReadsFirst(c: CoreState, m: Image, insn: Insn, c1: CoreState, m1: Image, k: Commit)
    requires Sound(c) && StepOf(c, m, insn) == Committed(c1, m1, k)
    requires insn.SystemInsn? && IsCsrInsn(insn.system) && insn.rd != 0
    ensures CsrOf(insn.csr).Some? && c1.gprs[insn.rd] == Get(c.csrs, CsrOf(insn.csr).value)
  {
    hide Sound, Get, WritesCsr, NewCsrValue, CsrOf, Accessible, Fetched, DirtyStatus, Value, AnyFp, ApplyAll;
    var r := Effects(c, m, insn);
    var a := Advanced(c, r);
    var ws := Rewritten(c, r.regWrites);
    var w := X(insn.rd, Get(c.csrs, CsrOf(insn.csr).value));
    EffectsShaped(c, m, insn);
    RewrittenIsDisjoint(c, r.regWrites);
    SoundIgnoresPc(c, a);
    assert r.regWrites[0] == w;
    FirstStaysFirst(c, r.regWrites);
    FirstRegisterStands(a, ws, w);
  }

  lemma FirstStaysFirst(c: CoreState, ws: seq<RegWrite>)
    requires ws != [] && ws[0].X? && ws[0].num != 0
    ensures Rewritten(c, ws) != [] && Rewritten(c, ws)[0] == ws[0]
  {
    hide DirtyStatus, Value, AnyFp;
    assert ExpandAll(WithoutZero(ws))[0] == ws[0];
  }

  lemma FirstRegisterStands(c: CoreState, ws: seq<RegWrite>, w: RegWrite)
    requires Sound(c) && ws != [] && ws[0] == w && w.X? && w.num != 0 && Disjoint(ws) && ApplyAll(c, ws).Some?
    ensures ApplyAll(c, ws).value.0.gprs[w.num] == w.value
  {
    hide Sound, Disjoint, Untouched;
    var d := Apply(c, w).value.0;
    ApplyKeepsSound(c, w);
    SharesBackwards(ws);
    AllFrame(d, ws[1..], GprOf(w.num));
    assert ReadReg(d, GprOf(w.num)) == w.value;
  }

  function Joined(a: bv64, b: bv64): bv64 { a | b }

  function Without(a: bv64, b: bv64): bv64 { a & !b }

  lemma OrBits(a: u64, b: u64)
    ensures Bits(BitOr(a, b)) == Joined(Bits(a), Bits(b))
  {
    hide Bits, Value;
    ValueBits(Bits(a) | Bits(b));
  }

  lemma AndNotBits(a: u64, b: u64)
    ensures BitAndNot(a, b) == Value(Without(Bits(a), Bits(b)))
    ensures Bits(BitAndNot(a, b)) == Without(Bits(a), Bits(b))
  {
    hide Bits, Value;
    ValueBits(Bits(a) & !Bits(b));
  }

  lemma Distributes(a: bv64, b: bv64, c: bv64)
    ensures (a | b) & c == (a & c) | (b & c)
  {
  }

  lemma Cancels(b: bv64)
    ensures b & !b == 0
  {
  }

  lemma JoinsNothing(a: bv64, z: bv64)
    requires z == 0
    ensures a | z == a
  {
  }

  lemma WithoutJoined(a: bv64, b: bv64)
    ensures Without(Joined(a, b), b) == Without(a, b)
  {
    Distributes(a, b, !b);
    Cancels(b);
    JoinsNothing(a & !b, b & !b);
  }

  lemma JoinedHolds(a: bv64, b: bv64)
    ensures Joined(a, b) & b == b
  {
  }

  lemma WithoutLacks(a: bv64, b: bv64)
    ensures Without(a, b) & b == 0
  {
  }

  /**
   * csrrs sets the bits of its operand and no others, csrrc clears them and no others, and clearing after setting is
   * clearing.
   */
  lemma SetAndClear(before: u64, mask: u64)
    ensures var raised, cleared := NewCsrValue(Csrrs, before, mask, 0), NewCsrValue(Csrrc, before, mask, 0);
            && Bits(raised) & Bits(mask) == Bits(mask) && Bits(cleared) & Bits(mask) == 0
            && Without(Bits(raised), Bits(mask)) == Without(Bits(before), Bits(mask))
            && Without(Bits(cleared), Bits(mask)) == Without(Bits(before), Bits(mask))
            && NewCsrValue(Csrrc, raised, mask, 0) == cleared
  {
    hide Bits, Value, BitOr, BitAndNot, Joined, Without;
    OrBits(before, mask);
    AndNotBits(BitOr(before, mask), mask);
    AndNotBits(before, mask);
    WithoutJoined(Bits(before), Bits(mask));
    WithoutTwice(Bits(before), Bits(mask));
    JoinedHolds(Bits(before), Bits(mask));
    WithoutLacks(Bits(before), Bits(mask));
  }

  lemma WithoutTwice(a: bv64, b: bv64)
    ensures Without(Without(a, b), b) == Without(a, b)
  {
  }

  /** csrrsi sets the bits of its immediate and no others. */
  lemma SetImmediate(before: u64, uimm: Num)
    ensures var raised := NewCsrValue(Csrrsi, before, 0, uimm);
            && Bits(raised) & Bits(uimm) == Bits(uimm)
            && Without(Bits(raised), Bits(uimm)) == Without(Bits(before), Bits(uimm))
  {
    hide Bits, Value, BitOr, Joined, Without;
    OrBits(before, uimm);
    WithoutJoined(Bits(before), Bits(uimm));
    JoinedHolds(Bits(before), Bits(uimm));
  }

  // csrrci takes the complement of its immediate in 32 bits.

  function LowHalf(b: bv64): bv64 { b & 0xffff_ffff }

  lemma NarrowComplement(b: bv64, u: bv32)
    ensures WithoutWord(b, u) == LowHalf(Without(b, u as bv64))
  {
  }

  lemma SmallImmediate(uimm: Num)
    ensures WordBits(uimm) as bv64 == Bits(uimm)
  {
  }

  lemma HighOfImmediate(uimm: Num)
    ensures Bits(uimm) >> 32 == 0
  {
    assert Bits(uimm) <= 31;
  }

  lemma ClearedInWord(b: bv64, uimm: Num)
    ensures WithoutWord(b, WordBits(uimm)) == LowHalf(Without(b, Bits(uimm)))
  {
    hide Bits, WordBits, WithoutWord, Without, LowHalf;
    SmallImmediate(uimm);
    NarrowComplement(b, WordBits(uimm));
  }

  lemma HighKept(b: bv64, u: bv64)
    requires u >> 32 == 0
    ensures Without(b, u) >> 32 == b >> 32
  {
  }

  lemma LowIsAll(b: bv64)
    ensures LowHalf(b) == b <==> b >> 32 == 0
  {
  }

  // How the value of a pattern tells its high half, by way of patterns of 32 bits.

  function WordValue(w: bv32): nat { w as nat }

  lemma WordValueFits(w: bv32)
    ensures WordValue(w) < B32
  {
  }

  lemma WidenedValue(w: bv32)
    ensures Value(w as bv64) == WordValue(w)
  {
  }

  lemma Widens(b: bv64)
    requires b >> 32 == 0
    ensures (LowHalf(b) as bv32) as bv64 == b
  {
  }

  lemma LowValue(b: bv64)
    requires b >> 32 == 0
    ensures Value(b) < B32
  {
    hide Value, WordValue;
    Widens(b);
    WidenedValue(LowHalf(b) as bv32);
    WordValueFits(LowHalf(b) as bv32);
  }

  lemma HighValue(b: bv64)
    requires b >> 32 != 0
    ensures Value(b) >= 0x1_0000_0000
  {
  }

  lemma DistinctValues(a: bv64, b: bv64)
    ensures Value(a) == Value(b) <==> a == b
  {
    hide Bits, Value;
    ValueBits(a);
    ValueBits(b);
  }

  /** What csrrci writes over the bit pattern b: it clears the bits of its immediate, and the whole high half. */
  lemma ClearImmediateWrites(b: bv64, uimm: Num)
    ensures NewCsrValue(Csrrci, Value(b), 0, uimm) == Value(LowHalf(Without(b, Bits(uimm))))
    ensures BitAndNot(Value(b), uimm) == Value(Without(b, Bits(uimm)))
  {
    hide Bits, Value, Without, WordBits, WithoutWord, LowHalf;
    ValueBits(b);
    ClearedInWord(b, uimm);
    AndNotBits(Value(b), uimm);
  }

  /** The value that csrrci hands to the setter is the right one if and only if the old value is below 2^32. */
  lemma ClearImmediateValue(b: bv64, uimm: Num)
    ensures NewCsrValue(Csrrci, Value(b), 0, uimm) == BitAndNot(Value(b), uimm) <==> Value(b) < B32
  {
    hide Bits, Value, Without, NewCsrValue, BitAndNot, LowHalf;
    var x := Without(b, Bits(uimm));
    ClearImmediateWrites(b, uimm);
    DistinctValues(LowHalf(x), x);
    LowIsAll(x);
    HighOfImmediate(uimm);
    HighKept(b, Bits(uimm));
    if b >> 32 == 0 {
      LowValue(b);
    } else {
      HighValue(b);
    }
  }

  lemma LowHasNoHigh(b: bv64)
    ensures LowHalf(b) >> 32 == 0
  {
  }

  lemma LowHoldsWritable(b: bv64)
    ensures LowHalf(b) & WRITABLE == b & WRITABLE
  {
  }

  /** The setter does not see the difference in mstatus, whose writable bits are all in the low half. */
  lemma ClearImmediateOfStatus(f: File, b: bv64, uimm: Num)
    ensures Set(f, Mstatus, NewCsrValue(Csrrci, Value(b), 0, uimm)) == Set(f, Mstatus, BitAndNot(Value(b), uimm))
  {
    hide Bits, Value, Without, NewCsrValue, BitAndNot, LowHalf, NewStatus;
    var x := Without(b, Bits(uimm));
    ClearImmediateWrites(b, uimm);
    LowHoldsWritable(x);
    OnlyWritable(f.mstatus, LowHalf(x), x);
    ValueBits(LowHalf(x));
    ValueBits(x);
  }

  /** In every other register that can hold them, it does. */
  lemma SetTellsHalves(f: File, csr: Csr, v: u64, w: u64)
    requires Canonical(f) && csr !in {Mstatus, Mhartid} && Get(f, csr) >= B32 && v < B32 <= w
    ensures Set(f, csr, v) != Set(f, csr, w)
  {
    hide StatusOk, NewStatus, Bits, Value, Fields.WithFlags, Fields.WithMode;
  }

  /** The setter makes the same of both if and only if the register is mstatus or its old value is below 2^32. */
  lemma ClearImmediateSets(f: File, csr: Csr, b: bv64, uimm: Num)
    requires Canonical(f) && csr != Mhartid && Get(f, csr) == Value(b)
    ensures Set(f, csr, NewCsrValue(Csrrci, Value(b), 0, uimm)) == Set(f, csr, BitAndNot(Value(b), uimm))
            <==> csr == Mstatus || Value(b) < B32
  {
    hide Bits, Value, Without, NewCsrValue, BitAndNot, LowHalf, Set, Get, Canonical;
    ClearImmediateValue(b, uimm);
    if csr == Mstatus {
      ClearImmediateOfStatus(f, b, uimm);
    } else if Value(b) >= B32 {
      var x := Without(b, Bits(uimm));
      ClearImmediateWrites(b, uimm);
      if b >> 32 == 0 {
        LowValue(b);
      }
      HighOfImmediate(uimm);
      HighKept(b, Bits(uimm));
      HighValue(x);
      LowHasNoHigh(x);
      LowValue(LowHalf(x));
      SetTellsHalves(f, csr, Value(LowHalf(x)), Value(x));
    }
  }

  // ---- What a CSR instruction leaves in the register.

  /** The rewriting of a read and a CSR write: the read may go, and a write of mstatus may follow. */
  lemma RewrittenCsr(c: CoreState, x: RegWrite, w: RegWrite) returns (post: seq<RegWrite>)
    requires x.X? && w.C?
    ensures Rewritten(c, [x, w]) == ((if x.num == 0 then [] else [x]) + Expanded(w)) + post
    ensures forall p :: p in post ==> Target(p) == CsrReg(Mstatus)
    ensures w.csr == Mstatus ==> post == []
  {
    hide DirtyStatus, Value;
    var pre: seq<RegWrite> := if x.num == 0 then [] else [x];
    var es := pre + Expanded(w);
    OneRewritten(w);
    TwoRewritten(x, w);
    assert WithoutZero([x, w]) == pre + [w];
    assert pre + [w] == if x.num == 0 then [w] else [x, w];
    assert ExpandAll(pre + [w]) == es;
    if w.csr == Mstatus {
      assert !AnyFp(es);
    }
    post := MarkedDirty(c, es)[|es|..];
    assert MarkedDirty(c, es) == es + post;
  }

  /** A write of a register other than fcsr, or of fcsr by its halves, keeps what the setter keeps of it. */
  lemma ExpandedLands(d: CoreState, w: RegWrite)
    requires Sound(d) && w.C? && ApplyAll(d, Expanded(w)).Some?
    ensures Set(d.csrs, w.csr, w.value).Some?
    ensures Get(ApplyAll(d, Expanded(w)).value.0.csrs, w.csr) == Set(d.csrs, w.csr, w.value).value.1
  {
    hide Set, Get, Canonical;
    if w.csr == Fcsr {
      FcsrLands(d, w.value);
    } else {
      assert [w][1..] == [];
      SetReadsBack(d.csrs, w.csr, w.value);
    }
  }

  lemma FcsrLands(d: CoreState, value: u64)
    requires Sound(d) && ApplyAll(d, Expanded(C(Fcsr, value))).Some?
    ensures Set(d.csrs, Fcsr, value).Some?
    ensures Get(ApplyAll(d, Expanded(C(Fcsr, value))).value.0.csrs, Fcsr) == Set(d.csrs, Fcsr, value).value.1
  {
    hide StatusOk, Fields.WithFlags, Fields.WithMode, Fields.Byte;
    var ws := Expanded(C(Fcsr, value));
    assert ws[1..] == [ws[1]] && ws[1..][1..] == [];
    var e := Apply(d, ws[0]).value.0;
    assert ApplyAll(e, ws[1..]).value.0.csrs.fcsr == Fields.WithMode(e.csrs.fcsr, value / 32 % 8);
    Fields.HalvesMakeByte(d.csrs.fcsr, value);
  }

  /** A committed CSR instruction that writes leaves in the register what the setter keeps of the new value. */
  lemma CsrWriteLands(c: CoreState, m: Image, insn: Insn, c1: CoreState, m1: Image, k: Commit, csr: Csr)
    requires Sound(c) && StepOf(c, m, insn) == Committed(c1, m1, k)
    requires insn.SystemInsn? && IsCsrInsn(insn.system) && WritesCsr(insn.system, insn.rs1, insn.uimm)
    requires CsrOf(insn.csr) == Some(csr)
    ensures var value := NewCsrValue(insn.system, Get(c.csrs, csr), c.gprs[insn.rs1], insn.uimm);
            Set(c.csrs, csr, value).Some? && Get(c1.csrs, csr) == Set(c.csrs, csr, value).value.1
  {
    hide Sound, Get, Set, NewCsrValue, WritesCsr, CsrOf, Accessible, Fetched, Rewritten, ApplyAll;
    var r := Effects(c, m, insn);
    var x := X(insn.rd, Get(c.csrs, csr));
    var w := C(csr, NewCsrValue(insn.system, Get(c.csrs, csr), c.gprs[insn.rs1], insn.uimm));
    assert r.regWrites == [x, w];
    SoundIgnoresPc(c, Advanced(c, r));
    ListLands(c, Advanced(c, r), x, w);
  }

  lemma ListLands(c: CoreState, a: CoreState, x: RegWrite, w: RegWrite)
    requires x.X? && w.C? && Sound(a) && ApplyAll(a, Rewritten(c, [x, w])).Some?
    ensures Set(a.csrs, w.csr, w.value).Some?
    ensures Get(ApplyAll(a, Rewritten(c, [x, w])).value.0.csrs, w.csr) == Set(a.csrs, w.csr, w.value).value.1
  {
    hide Sound, Get, Set, Rewritten, Expanded;
    var post := RewrittenCsr(c, x, w);
    var pre: seq<RegWrite> := if x.num == 0 then [] else [x];
    AllAppendSome(a, pre + Expanded(w), post);
    AllAppend(a, pre + Expanded(w), post);
    AllAppendSome(a, pre, Expanded(w));
    AllAppend(a, pre, Expanded(w));
    RegisterLeavesCsrs(a, pre);
    AllKeepSound(a, pre);
    var d := ApplyAll(a, pre).value.0;
    ExpandedLands(d, w);
    var e := ApplyAll(d, Expanded(w)).value.0;
    AllKeepSound(d, Expanded(w));
    PostLeaves(e, post, w.csr);
  }

  lemma RegisterLeavesCsrs(a: CoreState, pre: seq<RegWrite>)
    requires pre == [] || (|pre| == 1 && pre[0].X?)
    ensures ApplyAll(a, pre).Some? && ApplyAll(a, pre).value.0.csrs == a.csrs
  {
    if pre != [] {
      assert pre[1..] == [];
    }
  }

  lemma PostLeaves(e: CoreState, post: seq<RegWrite>, csr: Csr)
    requires Sound(e) && ApplyAll(e, post).Some?
    requires forall p :: p in post ==> Target(p) == CsrReg(Mstatus)
    requires csr == Mstatus ==> post == []
    ensures Get(ApplyAll(e, post).value.0.csrs, csr) == Get(e.csrs, csr)
  {
    hide Sound, Get, ApplyAll, Target;
    AllFrame(e, post, CsrReg(csr));
    assert ReadReg(e, CsrReg(csr)) == Get(e.csrs, csr);
    assert ReadReg(ApplyAll(e, post).value.0, CsrReg(csr)) == Get(ApplyAll(e, post).value.0.csrs, csr);
  }

  /**
   * A committed csrrci with a nonzero immediate leaves the old value with the bits of the immediate cleared, as the
   * setter keeps it, if and only if the register is mstatus or its old value is below 2^32. The old value is any
   * 64-bit pattern b; with an immediate of zero the instruction does not write.
   */
  lemma ClearImmediate(c: CoreState, m: Image, insn: Insn, c1: CoreState, m1: Image, k: Commit, csr: Csr, b: bv64)
    requires Sound(c) && StepOf(c, m, insn) == Committed(c1, m1, k)
    requires insn.SystemInsn? && insn.system == Csrrci && insn.uimm != 0
    requires CsrOf(insn.csr) == Some(csr) && Get(c.csrs, csr) == Value(b)
    ensures var cleared := Set(c.csrs, csr, BitAndNot(Get(c.csrs, csr), insn.uimm));
            cleared.Some? && (Get(c1.csrs, csr) == cleared.value.1 <==> csr == Mstatus || Get(c.csrs, csr) < B32)
  {
    hide Get, Set, Canonical, StepOf, CsrOf, BitAndNot, BitAndNotWord, Value;
    CsrWriteLands(c, m, insn, c1, m1, k, csr);
    var value, cleared := NewCsrValue(Csrrci, Value(b), 0, insn.uimm), BitAndNot(Value(b), insn.uimm);
    SetFails(c.csrs, csr, value, cleared);
    ClearImmediateSets(c.csrs, csr, b, insn.uimm);
    SetReplays(c.csrs, csr, value);
    SetReplays(c.csrs, csr, cleared);
  }

  /** Whether a write throws depends on the register alone. */
  lemma SetFails(f: File, csr: Csr, v: u64, w: u64)
    ensures Set(f, csr, v).None? <==> csr == Mhartid
    ensures Set(f, csr, w).None? <==> csr == Mhartid
  {
    hide NewStatus, Bits, Value;
  }

  /** A csrrci of mscratch with a nonzero immediate commits where its word can be fetched, and leaves that value. */
  lemma ClearImmediateStep(c: CoreState, m: Image, insn: Insn)
    requires insn.SystemInsn? && insn.system == Csrrci && insn.csr == Number(Mscratch) && insn.uimm != 0
    requires Accessible(m, c.pc, 4)
    ensures var o := StepOf(c, m, insn);
            o.Committed? && o.core.csrs.mscratch == NewCsrValue(Csrrci, c.csrs.mscratch, c.gprs[insn.rs1], insn.uimm)
  {
    hide NewCsrValue, Accessible, Fetched, DirtyStatus, Value, Rewritten, ApplyAll, Apply;
    var r := Effects(c, m, insn);
    var x := X(insn.rd, c.csrs.mscratch);
    var w := C(Mscratch, NewCsrValue(Csrrci, c.csrs.mscratch, c.gprs[insn.rs1], insn.uimm));
    assert CsrOf(insn.csr) == Some(Mscratch);
    assert r.regWrites == [x, w] && r.memWrites == [];
    RewrittenPair(c, x, w);
    AppliedScratch(Advanced(c, r), x, w);
    assert WriteAll(m, r.memWrites) == Some(m);
  }

  lemma RewrittenPair(c: CoreState, x: RegWrite, w: RegWrite)
    requires x.X? && w.C? && w.csr == Mscratch
    ensures Rewritten(c, [x, w]) == if x.num == 0 then [w] else [x, w]
  {
    hide DirtyStatus, Value;
    OneRewritten(w);
    TwoRewritten(x, w);
    assert !AnyFp([w]) && !AnyFp([x, w]);
    assert WithoutZero([x, w]) == if x.num == 0 then [w] else [x, w];
    assert Expanded(x) + Expanded(w) == [x, w];
  }

  lemma AppliedScratch(c: CoreState, x: RegWrite, w: RegWrite)
    requires x.X? && w.C? && w.csr == Mscratch
    ensures var r := ApplyAll(c, if x.num == 0 then [w] else [x, w]);
            r.Some? && r.value.0.csrs.mscratch == w.value
  {
    OneScratch(c, w);
    OneScratch(Apply(c, x).value.0, w);
    assert [x, w][1..] == [w];
  }

  lemma OneScratch(c: CoreState, w: RegWrite)
    requires w.C? && w.csr == Mscratch
    ensures ApplyAll(c, [w]).Some? && ApplyAll(c, [w]).value.0.csrs.mscratch == w.value
  {
    assert [w][1..] == [];
  }

  /** So a csrrci of bit 0 on an mscratch of 2^32 + 1 leaves zero, where clearing that bit leaves 2^32. */
  lemma ClearImmediateClearsHigh(c: CoreState, m: Image, rd: Num)
    requires c.csrs.mscratch == 0x1_0000_0001 && Accessible(m, c.pc, 4)
    ensures var o := StepOf(c, m, SystemInsn(Csrrci, Number(Mscratch), 0, 1, rd));
            o.Committed? && o.core.csrs.mscratch == 0
    ensures BitAndNot(c.csrs.mscratch, 1) == B32
  {
    hide StepOf, Accessible;
    ClearImmediateStep(c, m, SystemInsn(Csrrci, Number(Mscratch), 0, 1, rd));
    Example();
  }

  lemma Example()
    ensures NewCsrValue(Csrrci, 0x1_0000_0001, 0, 1) == 0 && BitAndNot(0x1_0000_0001, 1) == B32
  {
    assert Value(0x1_0000_0001) == 0x1_0000_0001;
    assert Bits(1) == 1;
    assert Without(0x1_0000_0001, 1) == 0x1_0000_0000;
    ClearImmediateWrites(0x1_0000_0001, 1);
  }

  // ---- The word forms of the integer instructions refine the doubleword forms.

  lemma WordAdd(a: u64, b: u64, shamt: nat)
    ensures AluWord(OpType.Add, a % B32, b % B32, shamt) == Some(SignExtendWord(Alu(OpType.Add, a, b) % B32))
    ensures AluWord(OpType.Sub, a % B32, b % B32, shamt) == Some(SignExtendWord(Alu(OpType.Sub, a, b) % B32))
  {
    hide SignExtendWord;
    LowWord(a + b);
    LowWord(a - b);
    DropHigh(a % B32 + b % B32, a / B32 + b / B32, a + b);
    DropHigh(a % B32 - b % B32, a / B32 - b / B32, a - b);
  }

  /** Multiples of 2^32 do not reach the low word. */
  lemma DropHigh(low: int, high: int, sum: int)
    requires sum == low + high * B32
    ensures sum % B32 == low % B32
  {
    DivModUnique(sum, B32, low / B32 + high, low % B32);
  }

  /** A shift of the word forms, by the low bits of the same register. */
  lemma WordShiftLeft(a: u64, b: u64)
    requires b % 64 < 32
    ensures AluWord(OpType.Sll, a % B32, b % B32, b % 64) == Some(SignExtendWord(Alu(OpType.Sll, a, b) % B32))
  {
    hide SignExtendWord, Pow2;
    var p := Pow2(b % 64);
    LowWord(a * p);
    Spread(a, p);
    DropHigh(a % B32 * p, a / B32 * p, a * p);
  }

  lemma Spread(a: nat, p: nat)
    ensures a * p == a % B32 * p + a / B32 * p * B32
  {
    Regrouped(a / B32, p, a % B32, a);
  }

  lemma Regrouped(h: nat, p: nat, l: nat, a: nat)
    requires a == l + h * B32
    ensures a * p == l * p + h * p * B32
  {
  }

  lemma WordShiftRightSigned(a: u64, b: u64)
    requires b % 64 < 32
    ensures AluWord(OpType.Sra, a % B32, b % B32, b % 64)
            == Some(Alu(OpType.Sra, SignExtendWord(a % B32), b))
  {
    hide ShiftRightSigned;
    ExtendReads(a % B32);
  }
}
