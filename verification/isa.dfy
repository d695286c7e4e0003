/**
 * What a step does for each instruction, in terms of the state before and after it alone: the target of every jump, the
 * value of every destination, the contents of memory, the cause of every exception.
 */
module Isa {
  import opened Words
  import opened Csrs
  import opened Cpu
  import opened Ram
  import opened Instructions
  import opened Execute
  import opened Step
  import opened CommitLog
  import opened Runs
  import MulDiv

  // ---- From the effects of a step to the state after it.

  function GprsAfter(g: Gprs, ws: seq<RegWrite>): Gprs
    decreases |ws|
  {
    if ws == [] then g
    else GprsAfter(if ws[0].X? && ws[0].num != 0 then g[ws[0].num := ws[0].value] else g, ws[1..])
  }

  function FprsAfter(f: Fprs, ws: seq<RegWrite>): Fprs
    decreases |ws|
  {
    if ws == [] then f
    else FprsAfter(if ws[0].F? then f[ws[0].num := ws[0].value % B32] else f, ws[1..])
  }

  lemma {:induction false} AppliedRegisters(c: CoreState, ws: seq<RegWrite>)
    requires ApplyAll(c, ws).Some?
    ensures var d := ApplyAll(c, ws).value.0;
            d.gprs == GprsAfter(c.gprs, ws) && d.fprs == FprsAfter(c.fprs, ws) && d.pc == c.pc && d.priv == c.priv
    decreases |ws|
  {
    hide Set;
    if ws != [] {
      AppliedRegisters(Apply(c, ws[0]).value.0, ws[1..]);
    }
  }

  lemma {:induction false} AfterAppend(g: Gprs, f: Fprs, xs: seq<RegWrite>, ys: seq<RegWrite>)
    ensures GprsAfter(g, xs + ys) == GprsAfter(GprsAfter(g, xs), ys)
    ensures FprsAfter(f, xs + ys) == FprsAfter(FprsAfter(f, xs), ys)
    decreases |xs|
  {
    if xs == [] {
      assert [] + ys == ys;
    } else {
      assert (xs + ys)[1..] == xs[1..] + ys;
      var g' := if xs[0].X? && xs[0].num != 0 then g[xs[0].num := xs[0].value] else g;
      var f' := if xs[0].F? then f[xs[0].num := xs[0].value % B32] else f;
      AfterAppend(g', f', xs[1..], ys);
    }
  }

  lemma {:induction false} CsrWritesAside(g: Gprs, f: Fprs, ws: seq<RegWrite>)
    requires forall w :: w in ws ==> w.C?
    ensures GprsAfter(g, ws) == g && FprsAfter(f, ws) == f
    decreases |ws|
  {
    if ws != [] {
      assert ws[0] in ws;
      CsrWritesAside(g, f, ws[1..]);
    }
  }

  /** The rewriting changes nothing for the register files. */
  lemma {:induction false} ZeroWritesAside(g: Gprs, f: Fprs, ws: seq<RegWrite>)
    ensures GprsAfter(g, WithoutZero(ws)) == GprsAfter(g, ws) && FprsAfter(f, WithoutZero(ws)) == FprsAfter(f, ws)
    decreases |ws|
  {
    if ws != [] {
      var g' := if ws[0].X? && ws[0].num != 0 then g[ws[0].num := ws[0].value] else g;
      var f' := if ws[0].F? then f[ws[0].num := ws[0].value % B32] else f;
      ZeroWritesAside(g', f', ws[1..]);
      if !IsZeroWrite(ws[0]) {
        assert ([ws[0]] + WithoutZero(ws[1..]))[1..] == WithoutZero(ws[1..]);
      } else {
        assert [] + WithoutZero(ws[1..]) == WithoutZero(ws[1..]);
      }
    }
  }

  lemma {:induction false} HalvesAside(g: Gprs, f: Fprs, ws: seq<RegWrite>)
    ensures GprsAfter(g, ExpandAll(ws)) == GprsAfter(g, ws) && FprsAfter(f, ExpandAll(ws)) == FprsAfter(f, ws)
    decreases |ws|
  {
    if ws != [] {
      var g' := if ws[0].X? && ws[0].num != 0 then g[ws[0].num := ws[0].value] else g;
      var f' := if ws[0].F? then f[ws[0].num := ws[0].value % B32] else f;
      HalvesAside(g', f', ws[1..]);
      AfterAppend(g, f, Expanded(ws[0]), ExpandAll(ws[1..]));
      if ws[0].C? {
        CsrWritesAside(g, f, Expanded(ws[0]));
      } else {
        assert [ws[0]][1..] == [];
      }
    }
  }

  lemma RewritingAside(c: CoreState, g: Gprs, f: Fprs, ws: seq<RegWrite>)
    ensures GprsAfter(g, Rewritten(c, ws)) == GprsAfter(g, ws) && FprsAfter(f, Rewritten(c, ws)) == FprsAfter(f, ws)
  {
    hide AnyFp, DirtyStatus, Value;
    var es := ExpandAll(WithoutZero(ws));
    ZeroWritesAside(g, f, ws);
    HalvesAside(g, f, WithoutZero(ws));
    var post := Rewritten(c, ws)[|es|..];
    assert Rewritten(c, ws) == es + post;
    AfterAppend(g, f, es, post);
    CsrWritesAside(GprsAfter(g, es), FprsAfter(f, es), post);
  }

  lemma {:induction false} StatusWritesOnly(c: CoreState, ws: seq<RegWrite>)
    requires ApplyAll(c, ws).Some? && forall w :: w in ws && w.C? ==> w.csr == Mstatus
    ensures var d := ApplyAll(c, ws).value.0.csrs; d == c.csrs.(mstatus := d.mstatus)
    ensures (forall w :: w in ws ==> !w.C?) ==> ApplyAll(c, ws).value.0.csrs == c.csrs
    decreases |ws|
  {
    hide NewStatus, Bits, Value;
    if ws != [] {
      StatusWritesOnly(Apply(c, ws[0]).value.0, ws[1..]);
    }
  }

  /** The rewriting of writes to the register files alone adds at most the mark in mstatus. */
  lemma RewrittenRegisters(c: CoreState, ws: seq<RegWrite>)
    requires forall w :: w in ws ==> !w.C?
    ensures forall w :: w in Rewritten(c, ws) && w.C? ==> w.csr == Mstatus
    ensures (forall w :: w in ws ==> w.X?) ==> forall w :: w in Rewritten(c, ws) ==> !w.C?
  {
    hide DirtyStatus, Value;
    KeptFrom(ws);
    ExpandedKept(WithoutZero(ws));
  }

  lemma {:induction false} KeptFrom(ws: seq<RegWrite>)
    ensures forall w :: w in WithoutZero(ws) ==> w in ws
    decreases |ws|
  {
    if ws != [] {
      KeptFrom(ws[1..]);
    }
  }

  lemma {:induction false} ExpandedKept(ws: seq<RegWrite>)
    requires forall w :: w in ws ==> !w.C?
    ensures ExpandAll(ws) == ws
    decreases |ws|
  {
    if ws != [] {
      ExpandedKept(ws[1..]);
    }
  }

  /** Everything a committed step does, from its effects. */
  lemma CommitUnfolds(c: CoreState, m: Image, insn: Insn, c1: CoreState, m1: Image, k: Commit)
    requires StepOf(c, m, insn) == Committed(c1, m1, k)
    ensures var r := Effects(c, m, insn);
            && r.NormalStep?
            && c1.pc == (if r.nextPc.Some? then r.nextPc.value else Wrap(c.pc + 4))
            && c1.priv == (if r.nextPriv.Some? then r.nextPriv.value else c.priv)
            && c1.gprs == GprsAfter(c.gprs, r.regWrites) && c1.fprs == FprsAfter(c.fprs, r.regWrites)
            && ((forall w :: w in r.regWrites ==> !w.C?) ==> c1.csrs == c.csrs.(mstatus := c1.csrs.mstatus))
            && ((forall w :: w in r.regWrites ==> w.X?) ==> c1.csrs == c.csrs)
            && WriteAll(m, r.memWrites) == Some(m1)
            && k.memReads == r.memReads && k.memWrites == r.memWrites
  {
    hide Effects, Rewritten, ApplyAll, WriteAll, Accessible, Fetched, GprsAfter, FprsAfter;
    var r := Effects(c, m, insn);
    var a := Advanced(c, r);
    AppliedRegisters(a, Rewritten(c, r.regWrites));
    RewritingAside(c, a.gprs, a.fprs, r.regWrites);
    if forall w :: w in r.regWrites ==> !w.C? {
      RewrittenRegisters(c, r.regWrites);
      StatusWritesOnly(a, Rewritten(c, r.regWrites));
    }
  }

  /** The core after an instruction that goes on to the next one and writes v to rd. */
  predicate Writes1(c: CoreState, c1: CoreState, rd: Num, v: u64) {
    c1 == c.(pc := (c.pc + 4) % B64, gprs := if rd == 0 then c.gprs else c.gprs[rd := v])
  }

  /** A committed step whose one effect is an integer register. */
  lemma OneRegister(c: CoreState, m: Image, insn: Insn, c1: CoreState, m1: Image, k: Commit, rd: Num, v: u64)
    requires StepOf(c, m, insn) == Committed(c1, m1, k)
    requires var r := Effects(c, m, insn);
             r.NormalStep? && r.nextPriv.None? && r.regWrites == [X(rd, v)] && r.memWrites == []
    ensures c1 == c.(pc := c1.pc, gprs := if rd == 0 then c.gprs else c.gprs[rd := v]) && m1 == m
    ensures Effects(c, m, insn).nextPc.None? ==> Writes1(c, c1, rd, v)
  {
    hide Effects, StepOf;
    CommitUnfolds(c, m, insn, c1, m1, k);
    var ws := [X(rd, v)];
    assert ws[1..] == [];
    assert forall w :: w in ws ==> w.X?;
  }

  lemma NoRegister(c: CoreState, m: Image, insn: Insn, c1: CoreState, m1: Image, k: Commit)
    requires StepOf(c, m, insn) == Committed(c1, m1, k)
    requires var r := Effects(c, m, insn); r.NormalStep? && r.nextPriv.None? && r.regWrites == []
    ensures c1 == c.(pc := c1.pc)
  {
    hide Effects, StepOf;
    CommitUnfolds(c, m, insn, c1, m1, k);
  }

  // ---- Where the next instruction is.

  predicate Jumps(insn: Insn) {
    insn.JalInsn? || insn.JalrInsn? || insn.BranchInsn? || (insn.SystemInsn? && insn.system == Mret)
  }

  /** Every other instruction goes on to the next word with the same privilege. */
  lemma GoesOn(c: CoreState, m: Image, insn: Insn, c1: CoreState, m1: Image, k: Commit)
    requires StepOf(c, m, insn) == Committed(c1, m1, k) && !Jumps(insn)
    ensures c1.pc == (c.pc + 4) % B64 && c1.priv == c.priv
  {
    hide StepOf, FpResultOf, FpOf, FlagWrites, Accessible, Read, Alu, AluWord, NewCsrValue, CsrOf, Get, Extended,
      WriteAll, GprsAfter, FprsAfter;
    CommitUnfolds(c, m, insn, c1, m1, k);
  }

  /** jal: the target is relative to pc, and rd receives the next address. */
  lemma JalLands(c: CoreState, m: Image, insn: Insn, c1: CoreState, m1: Image, k: Commit)
    requires insn.JalInsn? && StepOf(c, m, insn) == Committed(c1, m1, k)
    ensures c1 == c.(pc := (c.pc + insn.imm) % B64,
                     gprs := if insn.rd == 0 then c.gprs else c.gprs[insn.rd := (c.pc + 4) % B64]) && m1 == m
  {
    hide StepOf, GprsAfter, FprsAfter;
    CommitUnfolds(c, m, insn, c1, m1, k);
    OneRegister(c, m, insn, c1, m1, k, insn.rd, Wrap(c.pc + 4));
  }

  /** jalr: the target is relative to a register, read before rd is written. */
  lemma JalrLands(c: CoreState, m: Image, insn: Insn, c1: CoreState, m1: Image, k: Commit)
    requires insn.JalrInsn? && StepOf(c, m, insn) == Committed(c1, m1, k)
    ensures c1 == c.(pc := (c.gprs[insn.rs1] + insn.imm) % B64,
                     gprs := if insn.rd == 0 then c.gprs else c.gprs[insn.rd := (c.pc + 4) % B64]) && m1 == m
  {
    hide StepOf, GprsAfter, FprsAfter;
    CommitUnfolds(c, m, insn, c1, m1, k);
    OneRegister(c, m, insn, c1, m1, k, insn.rd, Wrap(c.pc + 4));
  }

  /** Branches compare the two registers, signed or unsigned as they say, and change nothing but pc. */
  lemma BranchLands(c: CoreState, m: Image, insn: Insn, c1: CoreState, m1: Image, k: Commit)
    requires insn.BranchInsn? && StepOf(c, m, insn) == Committed(c1, m1, k)
    ensures var a, b := c.gprs[insn.rs1], c.gprs[insn.rs2];
            var taken := match insn.branch
              case Eq => a == b
              case Ne => a != b
              case Lt => Signed(a) < Signed(b)
              case Ge => Signed(b) <= Signed(a)
              case Ltu => a < b
              case Geu => b <= a;
            c1 == c.(pc := (c.pc + if taken then insn.imm else 4) % B64) && m1 == m
  {
    hide StepOf, GprsAfter, FprsAfter;
    CommitUnfolds(c, m, insn, c1, m1, k);
    NoRegister(c, m, insn, c1, m1, k);
  }

  // ---- Integer instructions.

  lemma LuiLands(c: CoreState, m: Image, insn: Insn, c1: CoreState, m1: Image, k: Commit)
    requires insn.LuiInsn? && StepOf(c, m, insn) == Committed(c1, m1, k)
    ensures Writes1(c, c1, insn.rd, insn.imm % B64) && m1 == m
  {
    hide StepOf;
    OneRegister(c, m, insn, c1, m1, k, insn.rd, Wrap(insn.imm));
  }

  lemma AuipcLands(c: CoreState, m: Image, insn: Insn, c1: CoreState, m1: Image, k: Commit)
    requires insn.AuipcInsn? && StepOf(c, m, insn) == Committed(c1, m1, k)
    ensures Writes1(c, c1, insn.rd, (c.pc + insn.imm) % B64) && m1 == m
  {
    hide StepOf;
    OneRegister(c, m, insn, c1, m1, k, insn.rd, Wrap(c.pc + insn.imm));
  }

  lemma FenceLands(c: CoreState, m: Image, insn: Insn, c1: CoreState, m1: Image, k: Commit)
    requires insn.MiscMemInsn? && StepOf(c, m, insn) == Committed(c1, m1, k)
    ensures c1 == c.(pc := (c.pc + 4) % B64) && m1 == m
  {
    hide StepOf;
    NoRegister(c, m, insn, c1, m1, k);
    CommitUnfolds(c, m, insn, c1, m1, k);
  }

  /** v is the result of an operation on doublewords. The multiplications and divisions have their own theorems. */
  predicate Computes(op: OpType, a: u64, b: u64, v: u64) {
    var s := b % 64;
    match op
    case Add => (v - (a + b)) % B64 == 0
    case Sub => (v - (a - b)) % B64 == 0
    case Sll => v == a * Pow2(s) % B64
    case Slt => v == if Signed(a) < Signed(b) then 1 else 0
    case Sltu => v == if a < b then 1 else 0
    case Xor => Bits(v) == Bits(a) ^ Bits(b)
    case Or => Bits(v) == Bits(a) | Bits(b)
    case And => Bits(v) == Bits(a) & Bits(b)
    case Srl => v == a / Pow2(s)
    case Sra => Signed(v) * Pow2(s) <= Signed(a) < (Signed(v) + 1) * Pow2(s)
    case M(m) => v == MulDiv.Execute(m, a, b)
  }

  lemma Congruent(v: int, i: int, n: nat)
    requires n > 0 && v % n == i % n
    ensures (v - i) % n == 0
  {
    DivModUnique(v - i, n, v / n - i / n, 0);
  }

  /** Division by a power of two rounds down, and what it gives still fits. */
  lemma FloorBounds(i: int, p: nat, q: int)
    requires p > 0 && q == i / p && -0x8000_0000_0000_0000 <= i < 0x8000_0000_0000_0000
    ensures q * p <= i < (q + 1) * p
    ensures -0x8000_0000_0000_0000 <= q < 0x8000_0000_0000_0000
  {
    assert i == q * p + i % p;
    assert (q + 1) * p == q * p + p;
    if q < -0x8000_0000_0000_0000 {
      MulMono(q + 1, -0x8000_0000_0000_0000, p);
    } else if q >= 0x8000_0000_0000_0000 {
      MulMono(0x8000_0000_0000_0000, q, p);
    }
  }

  lemma ShiftedRightSigned(i: int, s: nat)
    requires -0x8000_0000_0000_0000 <= i < 0x8000_0000_0000_0000
    ensures var q := Signed(ShiftRightSigned(i, s)); q * Pow2(s) <= i < (q + 1) * Pow2(s)
  {
    hide Pow2, Signed;
    var q := i / Pow2(s);
    FloorBounds(i, Pow2(s), q);
    WrapReads(q);
  }

  lemma AluComputes(op: OpType, a: u64, b: u64)
    ensures Computes(op, a, b, Alu(op, a, b))
  {
    if op == Xor || op == Or || op == And {
      BitwiseComputes(op, a, b);
    } else if op == Srl || op == Sra || op == Sll {
      ShiftComputes(op, a, b);
    } else {
      SumComputes(op, a, b);
    }
    hide Alu, Computes;
  }

  lemma BitwiseComputes(op: OpType, a: u64, b: u64)
    requires op == Xor || op == Or || op == And
    ensures Computes(op, a, b, Alu(op, a, b))
  {
    hide Bits, Value;
    ValueBits(Bits(a) ^ Bits(b));
    ValueBits(Bits(a) | Bits(b));
    ValueBits(Bits(a) & Bits(b));
  }

  lemma ShiftComputes(op: OpType, a: u64, b: u64)
    requires op == Srl || op == Sra || op == Sll
    ensures Computes(op, a, b, Alu(op, a, b))
  {
    hide Pow2, Signed, Shr, ShiftRightSigned;
    ShrIsDivision(a, b % 64);
    ShiftedRightSigned(Signed(a), b % 64);
  }

  lemma SumComputes(op: OpType, a: u64, b: u64)
    requires op == Add || op == Sub || op == Slt || op == Sltu || op.M?
    ensures Computes(op, a, b, Alu(op, a, b))
  {
    hide Signed, MulDiv.Execute;
    Congruent(Wrap(a + b), a + b, B64);
    Congruent(Wrap(a - b), a - b, B64);
  }

  /** Register-register instructions write the result of their operation. */
  lemma OpLands(c: CoreState, m: Image, insn: Insn, c1: CoreState, m1: Image, k: Commit) returns (v: u64)
    requires insn.OpInsn? && StepOf(c, m, insn) == Committed(c1, m1, k)
    ensures Computes(insn.op, c.gprs[insn.rs1], c.gprs[insn.rs2], v) && Writes1(c, c1, insn.rd, v) && m1 == m
  {
    hide StepOf, Alu, Computes;
    v := Alu(insn.op, c.gprs[insn.rs1], c.gprs[insn.rs2]);
    AluComputes(insn.op, c.gprs[insn.rs1], c.gprs[insn.rs2]);
    OneRegister(c, m, insn, c1, m1, k, insn.rd, v);
  }

  /** Register-immediate instructions, which have no subtraction and no multiplication. */
  lemma OpImmLands(c: CoreState, m: Image, insn: Insn, c1: CoreState, m1: Image, k: Commit) returns (v: u64)
    requires insn.OpImmInsn? && StepOf(c, m, insn) == Committed(c1, m1, k)
    ensures insn.op != Sub && !insn.op.M?
    ensures Computes(insn.op, c.gprs[insn.rs1], insn.imm % B64, v) && Writes1(c, c1, insn.rd, v) && m1 == m
  {
    hide Complete, Alu, Computes;
    v := Alu(insn.op, c.gprs[insn.rs1], Wrap(insn.imm));
    AluComputes(insn.op, c.gprs[insn.rs1], Wrap(insn.imm));
    OneRegister(c, m, insn, c1, m1, k, insn.rd, v);
  }

  /** v is the sign-extended result of an operation on words. */
  predicate ComputesWord(op: OpType, a: u32, b: u32, s: nat, v: u64) {
    match op
    case M(m) =>
      m != MulDiv.Mulh && m != MulDiv.Mulhsu && m != MulDiv.Mulhu && v == MulDiv.ExecuteWord(m, a, b)
    case Add => IsWord(v, a + b)
    case Sub => IsWord(v, a - b)
    case Sll => s < 32 && IsWord(v, a * Pow2(s))
    case Srl => s < 32 && IsWord(v, a / Pow2(s))
    case Sra => s < 32 && Signed(v) * Pow2(s) <= Signed32(a) < (Signed(v) + 1) * Pow2(s)
    case _ => false
  }

  /** v is a sign-extended word that agrees with i in its low 32 bits. */
  predicate IsWord(v: u64, i: int) { -0x8000_0000 <= Signed(v) < 0x8000_0000 && (v - i) % B32 == 0 }

  lemma ExtendedIsWord(i: int)
    ensures IsWord(SignExtendWord(Wrap32(i)), i)
  {
    hide Signed, SignExtendWord;
    ExtendReads(Wrap32(i));
    Congruent(SignExtendWord(Wrap32(i)), i, B32);
  }

  lemma AluWordComputes(op: OpType, a: u32, b: u32, s: nat)
    requires AluWord(op, a, b, s).Some?
    ensures ComputesWord(op, a, b, s, AluWord(op, a, b, s).value)
  {
    hide Pow2, Signed, Signed32, Shr, SignExtendWord, IsWord, ShiftRightSigned, MulDiv.ExecuteWord;
    match op {
      case Add => ExtendedIsWord(a + b);
      case Sub => ExtendedIsWord(a - b);
      case Sll => ExtendedIsWord(a * Pow2(s));
      case Srl =>
        ShrIsDivision(a, s);
        DivModUnique(Shr(a, s), B32, 0, Shr(a, s));
        ExtendedIsWord(Shr(a, s));
      case Sra => ShiftedRightSigned(Signed32(a), s);
      case M(_) =>
    }
  }

  /** The word instructions take the low words of their operands, and shift by the low bits of the second. */
  lemma WordOpLands(c: CoreState, m: Image, insn: Insn, c1: CoreState, m1: Image, k: Commit) returns (v: u64)
    requires insn.Op32Insn? && StepOf(c, m, insn) == Committed(c1, m1, k)
    ensures ComputesWord(insn.op, c.gprs[insn.rs1] % B32, c.gprs[insn.rs2] % B32, c.gprs[insn.rs2] % 64, v)
    ensures Writes1(c, c1, insn.rd, v) && m1 == m
  {
    hide Complete, AluWord, ComputesWord;
    var r := AluWord(insn.op, c.gprs[insn.rs1] % B32, c.gprs[insn.rs2] % B32, c.gprs[insn.rs2] % 64);
    assert r.Some?;
    v := r.value;
    AluWordComputes(insn.op, c.gprs[insn.rs1] % B32, c.gprs[insn.rs2] % B32, c.gprs[insn.rs2] % 64);
    OneRegister(c, m, insn, c1, m1, k, insn.rd, v);
  }

  lemma WordOpImmLands(c: CoreState, m: Image, insn: Insn, c1: CoreState, m1: Image, k: Commit) returns (v: u64)
    requires insn.OpImm32Insn? && StepOf(c, m, insn) == Committed(c1, m1, k)
    ensures insn.op != Sub && !insn.op.M?
    ensures ComputesWord(insn.op, c.gprs[insn.rs1] % B32, insn.imm % B32, insn.imm % 32, v)
    ensures Writes1(c, c1, insn.rd, v) && m1 == m
  {
    hide Complete, AluWord, ComputesWord;
    var r := AluWord(insn.op, c.gprs[insn.rs1] % B32, Wrap32(insn.imm), insn.imm % 32);
    assert r.Some?;
    v := r.value;
    AluWordComputes(insn.op, c.gprs[insn.rs1] % B32, Wrap32(insn.imm), insn.imm % 32);
    OneRegister(c, m, insn, c1, m1, k, insn.rd, v);
  }

  // ---- Loads and stores.

  function Bytes(access: MemAccessType): nat {
    if access.B? || access.Bu? then 1 else if access.H? || access.Hu? then 2 else if access.D? then 8 else 4
  }

  /** A load leaves the bytes at its address in rd, extended as its type says, and logs them. */
  lemma LoadLands(c: CoreState, m: Image, insn: Insn, c1: CoreState, m1: Image, k: Commit) returns (v: u64)
    requires insn.LoadInsn? && StepOf(c, m, insn) == Committed(c1, m1, k)
    ensures var addr, n := (c.gprs[insn.rs1] + insn.imm) % B64, Bytes(insn.access);
            && Width(n) && Accessible(m, addr, n) && LoadedAs(insn.access, Read(m, addr, n), v)
            && Writes1(c, c1, insn.rd, v) && m1 == m && k.memReads == [MemAccess(addr, v, n)] && k.memWrites == []
  {
    hide Complete, Accessible, Read, Extended, LoadedAs, GprsAfter, FprsAfter, WriteAll;
    var addr, n := Wrap(c.gprs[insn.rs1] + insn.imm), SizeOf(insn.access);
    v := Extended(insn.access, Read(m, addr, n));
    ExtendedAs(insn.access, Read(m, addr, n));
    OneRegister(c, m, insn, c1, m1, k, insn.rd, v);
    CommitUnfolds(c, m, insn, c1, m1, k);
  }

  /** A store leaves the low bytes of its register at its address, logs them, and changes no register. */
  lemma StoreLands(c: CoreState, m: Image, insn: Insn, c1: CoreState, m1: Image, k: Commit)
    requires insn.StoreInsn? && Sound(c) && StepOf(c, m, insn) == Committed(c1, m1, k)
    ensures var addr, n := (c.gprs[insn.rs1] + insn.imm) % B64, Bytes(insn.access);
            var w := MemAccess(addr, c.gprs[insn.rs2] % Base(n), n);
            && c1 == c.(pc := (c.pc + 4) % B64) && k.memWrites == [w] && k.memReads == []
            && Writable(m1, w) && Read(m1, addr, n) == w.value && MemoryIsLogged(m, m1, [w])
            && insn.access in {B, H, W, D}
  {
    hide Complete, Accessible, Read, Sound, MemoryIsLogged, GprsAfter, FprsAfter, WriteAll;
    BaseOfWidth();
    NoRegister(c, m, insn, c1, m1, k);
    CommitUnfolds(c, m, insn, c1, m1, k);
    CommitIsTheDiff(c, m, insn, c1, m1, k);
    LoggedIsRead(m, m1, k.memWrites[0], k.memWrites);
  }

  lemma LoggedIsRead(m: Image, m1: Image, w: MemAccess, ws: seq<MemAccess>)
    requires MemoryIsLogged(m, m1, ws) && w in ws
    ensures Writable(m1, w) && Read(m1, w.addr, w.size) == w.value
  {
    hide Accessible, Read;
  }

  lemma LoadFpLands(c: CoreState, m: Image, insn: Insn, c1: CoreState, m1: Image, k: Commit)
    requires insn.LoadFpInsn? && Sound(c) && StepOf(c, m, insn) == Committed(c1, m1, k)
    ensures var addr := (c.gprs[insn.rs1] + insn.imm) % B64;
            && Accessible(m, addr, 4) && Read(m, addr, 4) < B32 && m1 == m
            && k.memReads == [MemAccess(addr, Read(m, addr, 4), 4)] && k.memWrites == []
            && c1 == c.(pc := (c.pc + 4) % B64, fprs := c.fprs[insn.rd := Read(m, addr, 4)],
                        csrs := c.csrs.(mstatus := Marked(c.csrs.mstatus)))
  {
    hide Complete, Accessible, Read, Sound, Marked;
    BaseOfWidth();
    CommitUnfolds(c, m, insn, c1, m1, k);
    var w := F(insn.rd, Read(m, Wrap(c.gprs[insn.rs1] + insn.imm), 4));
    assert [w][1..] == [];
    assert w in Effects(c, m, insn).regWrites;
    EffectMarksDirty(c, m, insn, c1, m1, k, w);
    SmallMod(w.value, B32);
  }

  lemma StoreFpLands(c: CoreState, m: Image, insn: Insn, c1: CoreState, m1: Image, k: Commit)
    requires insn.StoreFpInsn? && Sound(c) && StepOf(c, m, insn) == Committed(c1, m1, k)
    ensures var w := MemAccess((c.gprs[insn.rs1] + insn.imm) % B64, c.fprs[insn.rs2], 4);
            && c1 == c.(pc := (c.pc + 4) % B64) && k.memWrites == [w] && k.memReads == []
            && Writable(m1, w) && Read(m1, w.addr, 4) == w.value && MemoryIsLogged(m, m1, [w])
  {
    hide Complete, Accessible, Read, Sound, MemoryIsLogged, GprsAfter, FprsAfter, WriteAll;
    NoRegister(c, m, insn, c1, m1, k);
    CommitUnfolds(c, m, insn, c1, m1, k);
    CommitIsTheDiff(c, m, insn, c1, m1, k);
    LoggedIsRead(m, m1, k.memWrites[0], k.memWrites);
  }
}
