/** Exception flags accrue over runs, and the rounding mode stays put. */
module Accrual {
  import opened Words
  import opened Csrs
  import opened Cpu
  import opened Ram
  import opened Instructions
  import opened Execute
  import opened Step
  import opened CommitLog
  import opened Runs
  import FpuUnit
  import Fma
  import Fields

  function Widened(flags: bv32): bv64 { flags as bv64 }

  /** All flags of either word. */
  function Union(a: bv64, b: bv64): bv64 { a | b }

  /** The flags of the floating-point operation that an instruction performs. */
  ghost function RaisedBy(c: CoreState, insn: Insn): bv64 {
    match FpResultOf(c, insn)
    case None => 0
    case Some(r) => Widened(r.flags)
  }

  ghost function Accrued(c: CoreState, m: Image, insns: seq<Insn>): bv64
    requires After(c, m, insns).Some?
    decreases |insns|
  {
    if insns == [] then 0
    else var p := Next(c, m, insns[0]).value; Union(RaisedBy(c, insns[0]), Accrued(p.0, p.1, insns[1..]))
  }

  function FlagBits(c: CoreState): bv64 { Bits(Get(c.csrs, Fflags)) }

  // ---- Facts about flag words.

  lemma OrZero(b: bv64)
    ensures Union(b, 0) == b
  {
  }

  lemma OrAssociates(a: bv64, b: bv64, c: bv64)
    ensures Union(Union(a, b), c) == Union(a, Union(b, c))
  {
  }

  lemma SmallBits(n: u64)
    requires n < 32
    ensures Bits(n) & !0x1f == 0
  {
    assert Bits(n) <= 31;
  }

  lemma SmallValue(b: bv64)
    requires b & !0x1f == 0
    ensures Value(b) < 32
  {
    assert b <= 31;
  }

  lemma WideFlags(flags: bv32)
    requires FpuUnit.FlagsOk(flags)
    ensures (flags as bv64) & !0x1f == 0
    ensures flags as bv64 == 0 <==> flags == 0
  {
  }

  lemma OrFlags(a: bv64, b: bv64)
    requires a & !0x1f == 0 && b & !0x1f == 0
    ensures (a | b) & !0x1f == 0
  {
  }

  lemma FlagsFit(before: u64, flags: bv32)
    requires before < 32 && FpuUnit.FlagsOk(flags)
    ensures Value(Bits(before) | (flags as bv64)) < 32
  {
    hide FpuUnit.FlagsOk, Bits, Value;
    SmallBits(before);
    WideFlags(flags);
    OrFlags(Bits(before), flags as bv64);
    SmallValue(Bits(before) | (flags as bv64));
  }

  // ---- Which writes reach fflags and frm.

  lemma FpResultFits(c: CoreState, insn: Insn)
    ensures FpResultOf(c, insn).Some? ==> FpuUnit.FlagsOk(FpResultOf(c, insn).value.flags)
  {
    hide FpOf, Fma.FusedOf, FpuUnit.FlagsOk;
    match insn {
      case OpFpInsn(op, rm, rs1, rs2, _) =>
        if Resolved(c, rm).Some? {
          FpFits(c, op, rs1, rs2, Resolved(c, rm).value);
        }
      case FmaFpInsn(op, rm, rs1, rs2, rs3, _) =>
        if Resolved(c, rm).Some? {
          FpuUnit.FusedOk(op, c.fprs[rs1], c.fprs[rs2], c.fprs[rs3], Resolved(c, rm).value);
        }
      case _ =>
    }
  }

  /** The CSR writes of an instruction: its own operand, the flags it raises, or the status of a return. */
  lemma CsrEffects(c: CoreState, m: Image, insn: Insn, w: RegWrite)
    requires Effects(c, m, insn).NormalStep? && w in Effects(c, m, insn).regWrites && w.C?
    ensures WritesAny(insn, {w.csr}) || w.csr == Mstatus
            || (w.csr == Fflags && FpResultOf(c, insn).Some? && FpResultOf(c, insn).value.flags != 0)
  {
    hide FpOf, FpResultOf, Accessible, Read, Alu, AluWord, NewCsrValue, Get, Taken, Extended, Bits, Value, CsrOf;
  }

  /** Writes that avoid a half of fcsr still avoid it after the rewriting. */
  lemma RewrittenAvoids(c: CoreState, ws: seq<RegWrite>, r: Csr)
    requires r == Fflags || r == Frm
    requires Shaped(ws) && forall w :: w in ws && w.C? ==> w.csr != r && w.csr != Fcsr
    ensures Untouched(Rewritten(c, ws), CsrReg(r))
  {
    hide DirtyStatus, Value, AnyFp;
    DropKeepsShape(ws);
    ExpandedFrom(WithoutZero(ws));
  }

  /** The accumulated flags come first among the effects, and the rewriting keeps them there. */
  lemma FlagsComeFirst(c: CoreState, ws: seq<RegWrite>)
    requires Shaped(ws) && |ws| == 2 && ws[0].C? && ws[0].csr == Fflags
    ensures |Rewritten(c, ws)| > 0 && Rewritten(c, ws)[0] == ws[0]
  {
    hide DirtyStatus, Value, AnyFp;
    assert ExpandAll(WithoutZero(ws))[0] == ws[0];
  }

  lemma FirstWriteStands(c: CoreState, ws: seq<RegWrite>)
    requires Sound(c) && ws != [] && Disjoint(ws) && ApplyAll(c, ws).Some?
    requires ws[0].C? && ws[0].csr == Fflags && ws[0].value < 32
    ensures Get(ApplyAll(c, ws).value.0.csrs, Fflags) == ws[0].value
  {
    hide Disjoint, Untouched, Sound, FlagBits, Fields.WithFlags, Fields.FlagsOf;
    var d := Apply(c, ws[0]).value.0;
    Fields.FlagsWritten(c.csrs.fcsr, ws[0].value);
    SmallMod(ws[0].value, 32);
    ApplyKeepsSound(c, ws[0]);
    SharesBackwards(ws);
    AllFrame(d, ws[1..], CsrReg(Fflags));
    assert ReadReg(d, CsrReg(Fflags)) == ws[0].value;
  }

  // ---- One step.

  /** fflags with the flags of a result added. */
  function Added(c: CoreState, flags: bv32): u64 { Value(Union(FlagBits(c), Widened(flags))) }

  lemma RaisedBits(c: CoreState, insn: Insn, before: bv64)
    ensures Union(before, RaisedBy(c, insn))
            == if FpResultOf(c, insn).None? then before else Union(before, Widened(FpResultOf(c, insn).value.flags))
  {
    OrZero(before);
    hide FpResultOf, Widened, Union;
  }

  lemma UnionWithNone(before: bv64)
    ensures Union(before, Widened(0)) == before
  {
  }

  lemma CommitAccrues(c: CoreState, m: Image, insn: Insn, c': CoreState, m': Image, k: Commit)
    requires Sound(c) && StepOf(c, m, insn) == Committed(c', m', k) && !WritesAny(insn, {Fflags, Fcsr})
    ensures FlagBits(c') == Union(FlagBits(c), RaisedBy(c, insn))
  {
    hide StepOf, Sound, FpResultOf, Bits, Value, Get, WritesAny, Union, Widened, RaisedBy;
    var raised := FpResultOf(c, insn);
    RaisedBits(c, insn, FlagBits(c));
    UnionWithNone(FlagBits(c));
    if raised.Some? && raised.value.flags != 0 {
      CommitAdds(c, m, insn, c', m', k);
      ValueBits(Union(FlagBits(c), Widened(raised.value.flags)));
    } else {
      AvoidedStays(c, m, insn, c', m', k, Fflags);
    }
  }

  lemma CommitAdds(c: CoreState, m: Image, insn: Insn, c': CoreState, m': Image, k: Commit)
    requires Sound(c) && StepOf(c, m, insn) == Committed(c', m', k)
    requires FpResultOf(c, insn).Some? && FpResultOf(c, insn).value.flags != 0
    ensures Get(c'.csrs, Fflags) == Added(c, FpResultOf(c, insn).value.flags)
  {
    hide Effects, Rewritten, ApplyAll, WriteAll, Accessible, Fetched, Shaped, Sound, Disjoint, AllLoggable, FpResultOf,
      Added, Get, FpuUnit.FlagsOk;
    var r := Effects(c, m, insn);
    var flags := FpResultOf(c, insn).value.flags;
    EffectsShaped(c, m, insn);
    RewrittenIsDisjoint(c, r.regWrites);
    SoundIgnoresPc(c, Advanced(c, r));
    FlagEffects(c, m, insn);
    FpResultFits(c, insn);
    AddedFits(c, flags);
    assert Shaped(r.regWrites);
    FlagsComeFirst(c, r.regWrites);
    FirstWriteStands(Advanced(c, r), Rewritten(c, r.regWrites));
  }

  lemma AddedFits(c: CoreState, flags: bv32)
    requires FpuUnit.FlagsOk(flags)
    ensures Added(c, flags) < 32
  {
    hide FpuUnit.FlagsOk, Bits, Value;
    FlagsBelow(c);
    FlagsFit(Get(c.csrs, Fflags), flags);
  }

  /** A half of fcsr that an instruction neither writes nor raises flags into is unchanged. */
  lemma AvoidedStays(c: CoreState, m: Image, insn: Insn, c': CoreState, m': Image, k: Commit, half: Csr)
    requires half == Fflags || half == Frm
    requires Sound(c) && StepOf(c, m, insn) == Committed(c', m', k) && !WritesAny(insn, {half, Fcsr})
    requires half == Fflags && FpResultOf(c, insn).Some? ==> FpResultOf(c, insn).value.flags == 0
    ensures Get(c'.csrs, half) == Get(c.csrs, half)
  {
    hide Effects, Rewritten, ApplyAll, WriteAll, Accessible, Fetched, Shaped, Sound, Untouched, FpResultOf, Get, CsrOf;
    var r := Effects(c, m, insn);
    var a := Advanced(c, r);
    EffectsShaped(c, m, insn);
    SoundIgnoresPc(c, a);
    forall w | w in r.regWrites && w.C?
      ensures w.csr != half && w.csr != Fcsr
    {
      CsrEffects(c, m, insn, w);
    }
    RewrittenAvoids(c, r.regWrites, half);
    AllFrame(a, Rewritten(c, r.regWrites), CsrReg(half));
    assert ReadReg(c', CsrReg(half)) == ReadReg(a, CsrReg(half));
  }

  lemma FlagsBelow(c: CoreState)
    ensures Get(c.csrs, Fflags) < 32
  {
  }

  lemma FlagEffects(c: CoreState, m: Image, insn: Insn)
    requires FpResultOf(c, insn).Some? && FpResultOf(c, insn).value.flags != 0
    ensures var r := Effects(c, m, insn);
            && r.NormalStep? && |r.regWrites| == 2
            && r.regWrites[0] == C(Fflags, Added(c, FpResultOf(c, insn).value.flags))
  {
    hide FpOf, Fma.FusedOf, Bits, Value, Get;
  }

  lemma NextAccrues(c: CoreState, m: Image, insn: Insn)
    requires Sound(c) && Next(c, m, insn).Some? && !WritesAny(insn, {Fflags, Fcsr})
    ensures FlagBits(Next(c, m, insn).value.0) == Union(FlagBits(c), RaisedBy(c, insn))
  {
    hide WritesAny, Effects, Complete, Sound, FpResultOf, Get, Bits, Trap, Union;
    match StepOf(c, m, insn) {
      case Committed(c', m', k) => CommitAccrues(c, m, insn, c', m', k);
      case Trapped(c') =>
        TrapChangesLittle(c, m, insn, c');
        ExceptionRaisesNothing(c, m, insn);
        OrZero(FlagBits(c));
    }
  }

  lemma ExceptionRaisesNothing(c: CoreState, m: Image, insn: Insn)
    requires Effects(c, m, insn).Exception?
    ensures FpResultOf(c, insn).None?
  {
    hide FpOf, Fma.FusedOf;
  }

  lemma NextKeepsMode(c: CoreState, m: Image, insn: Insn)
    requires Sound(c) && Next(c, m, insn).Some? && !WritesAny(insn, {Frm, Fcsr})
    ensures Get(Next(c, m, insn).value.0.csrs, Frm) == Get(c.csrs, Frm)
  {
    hide Effects, Complete, Sound, FpResultOf, Get, Trap, CsrOf;
    match StepOf(c, m, insn) {
      case Committed(c', m', k) => AvoidedStays(c, m, insn, c', m', k, Frm);
      case Trapped(c') => TrapChangesLittle(c, m, insn, c');
    }
  }

  // ---- Whole runs.

  /** Without CSR writes to fflags or fcsr, the flags at the end are the first ones and every flag raised. */
  lemma {:induction false} FlagsAccrue(c: CoreState, m: Image, insns: seq<Insn>)
    requires Sound(c)
    requires forall i :: 0 <= i < |insns| ==> !WritesAny(insns[i], {Fflags, Fcsr})
    ensures After(c, m, insns).Some?
            ==> FlagBits(After(c, m, insns).value.0) == Union(FlagBits(c), Accrued(c, m, insns))
    decreases |insns|
  {
    hide Next, Sound, FlagBits, RaisedBy, WritesAny, Union;
    if insns == [] {
      OrZero(FlagBits(c));
    } else if After(c, m, insns).Some? {
      var p := Next(c, m, insns[0]).value;
      NextKeepsSound(c, m, insns[0]);
      NextAccrues(c, m, insns[0]);
      FlagsAccrue(p.0, p.1, insns[1..]);
      OrAssociates(FlagBits(c), RaisedBy(c, insns[0]), Accrued(p.0, p.1, insns[1..]));
    }
  }

  /** Without CSR writes to frm or fcsr, the rounding mode is the first one. */
  lemma {:induction false} ModeStays(c: CoreState, m: Image, insns: seq<Insn>)
    requires Sound(c)
    requires forall i :: 0 <= i < |insns| ==> !WritesAny(insns[i], {Frm, Fcsr})
    ensures After(c, m, insns).Some?
            ==> Get(After(c, m, insns).value.0.csrs, Frm) == Get(c.csrs, Frm)
    decreases |insns|
  {
    hide Next, Sound, Get, WritesAny;
    if insns != [] && Next(c, m, insns[0]).Some? {
      var p := Next(c, m, insns[0]).value;
      NextKeepsSound(c, m, insns[0]);
      NextKeepsMode(c, m, insns[0]);
      ModeStays(p.0, p.1, insns[1..]);
    }
  }
}
