/** Properties of whole runs of the machine, over any instruction sequence. */
module Runs {
  import opened Words
  import opened Csrs
  import opened Cpu
  import opened Ram
  import opened Instructions
  import opened Execute
  import opened Step
  import opened CommitLog
  import Fields

  // ---- Runs.

  ghost function Next(c: CoreState, m: Image, insn: Insn): Option<(CoreState, Image)> {
    match StepOf(c, m, insn)
    case Committed(c', m', _) => Some((c', m'))
    case Trapped(c') => Some((c', m))
    case Stuck => None
  }

  /** The state after a run, unless a step throws. */
  ghost function After(c: CoreState, m: Image, insns: seq<Insn>): Option<(CoreState, Image)>
    decreases |insns|
  {
    if insns == [] then Some((c, m))
    else
      match Next(c, m, insns[0])
      case None => None
      case Some(p) => After(p.0, p.1, insns[1..])
  }

  /** A run in which no step takes an exception. */
  ghost predicate Commits(c: CoreState, m: Image, insns: seq<Insn>)
    decreases |insns|
  {
    insns == [] || (StepOf(c, m, insns[0]).Committed?
                    && var o := StepOf(c, m, insns[0]); Commits(o.core, o.mem, insns[1..]))
  }

  // ---- What every run keeps.

  lemma NextKeepsSound(c: CoreState, m: Image, insn: Insn)
    requires Sound(c) && Next(c, m, insn).Some?
    ensures Sound(Next(c, m, insn).value.0)
  {
    hide StepOf, Sound, IsDiff, MemoryIsLogged, ReadsAreLogged;
    match StepOf(c, m, insn) {
      case Committed(c', m', k) => CommitIsTheDiff(c, m, insn, c', m', k);
      case Trapped(c') => TrapChangesLittle(c, m, insn, c');
    }
  }

  lemma {:induction false} RunKeepsSound(c: CoreState, m: Image, insns: seq<Insn>)
    requires Sound(c)
    ensures After(c, m, insns).Some? ==> Sound(After(c, m, insns).value.0)
    decreases |insns|
  {
    hide Next, Sound;
    if insns != [] && Next(c, m, insns[0]).Some? {
      NextKeepsSound(c, m, insns[0]);
      var p := Next(c, m, insns[0]).value;
      RunKeepsSound(p.0, p.1, insns[1..]);
    }
  }

  lemma RunFromReset(pc: u64, m: Image, insns: seq<Insn>)
    ensures var end := After(ResetState(pc), m, insns);
            end.Some? ==>
              var c := end.value.0;
              && c.gprs[0] == 0
              && c.csrs.fcsr <= 0xff && c.csrs.mepc % 4 == 0 && c.csrs.mtvec % 4 == 0
              && StatusOk(c.csrs.mstatus)
  {
    hide After, StatusOk, ResetState;
    ResetIsSound(pc);
    RunKeepsSound(ResetState(pc), m, insns);
  }

  lemma ResetIsSound(pc: u64)
    ensures Sound(ResetState(pc))
  {
    hide Canonical, Reset;
    ResetIsCanonical();
  }

  // ---- Floating-point state is marked dirty.

  lemma {:induction false} AllAppend(c: CoreState, xs: seq<RegWrite>, ys: seq<RegWrite>)
    requires ApplyAll(c, xs).Some?
    ensures ApplyAll(c, xs + ys) == Prepend(ApplyAll(c, xs).value.1, ApplyAll(ApplyAll(c, xs).value.0, ys))
    decreases |xs|
  {
    hide Apply;
    if xs == [] {
      assert [] + ys == ys;
      PrependNothing(ApplyAll(c, ys));
    } else {
      var p := Apply(c, xs[0]).value;
      assert (xs + ys)[1..] == xs[1..] + ys;
      AllAppend(p.0, xs[1..], ys);
      PrependList([p.1], ApplyAll(p.0, xs[1..]).value.1, ApplyAll(ApplyAll(p.0, xs[1..]).value.0, ys));
    }
  }

  lemma PrependList<T>(xs: seq<RegWrite>, ys: seq<RegWrite>, r: Option<(T, seq<RegWrite>)>)
    ensures Prepend(xs, Prepend(ys, r)) == Prepend(xs + ys, r)
  {
    if r.Some? {
      assert xs + (ys + r.value.1) == (xs + ys) + r.value.1;
    }
  }

  lemma {:induction false} AllAppendSome(c: CoreState, xs: seq<RegWrite>, ys: seq<RegWrite>)
    requires ApplyAll(c, xs + ys).Some?
    ensures ApplyAll(c, xs).Some?
    decreases |xs|
  {
    hide Apply;
    if xs != [] {
      assert (xs + ys)[1..] == xs[1..] + ys;
      AllAppendSome(Apply(c, xs[0]).value.0, xs[1..], ys);
    }
  }

  lemma DirtyIsDirty(status: bv64, before: bv64)
    ensures IsDirty(NewStatus(status, DirtyStatus(before)))
  {
  }

  lemma AlreadyDirty(status: bv64)
    requires DirtyStatus(status) == status
    ensures IsDirty(status)
  {
  }

  lemma MarkedIsDirty(c: CoreState, status: bv64, es: seq<RegWrite>, marked: CoreState)
    requires Sound(c) && Sparse(es) && AnyFp(es) && status == c.csrs.mstatus
    requires var ws := if DirtyStatus(status) != status then es + [C(Mstatus, Value(DirtyStatus(status)))] else es;
             ApplyAll(c, ws).Some? && ApplyAll(c, ws).value.0 == marked
    ensures IsDirty(marked.csrs.mstatus)
    ensures marked.csrs.mstatus
            == if DirtyStatus(status) != status then NewStatus(status, DirtyStatus(status)) else status
  {
    hide DirtyStatus, IsDirty, NewStatus, Bits, Value, Sound, WritesFp, Get;
    if DirtyStatus(status) != status {
      AllAppendSome(c, es, [C(Mstatus, Value(DirtyStatus(status)))]);
      SparseLeavesStatus(c, es);
      ValueBits(status);
      ValueBits(ApplyAll(c, es).value.0.csrs.mstatus);
    }
    if DirtyStatus(status) != status {
      var w := C(Mstatus, Value(DirtyStatus(status)));
      AllAppendSome(c, es, [w]);
      AllAppend(c, es, [w]);
      var d := ApplyAll(c, es).value.0;
      ValueBits(DirtyStatus(status));
      DirtyIsDirty(d.csrs.mstatus, status);
      OneWrite(d, w);
    } else {
      AlreadyDirty(status);
      SparseLeavesStatus(c, es);
      ValueBits(status);
      ValueBits(marked.csrs.mstatus);
    }
  }

  lemma OneWrite(d: CoreState, w: RegWrite)
    requires w.C? && w.csr == Mstatus
    ensures ApplyAll(d, [w]).Some?
    ensures ApplyAll(d, [w]).value.0.csrs.mstatus == NewStatus(d.csrs.mstatus, Bits(w.value))
  {
    hide NewStatus, Bits, Value;
    assert [w][1..] == [];
  }

  lemma SparseLeavesStatus(c: CoreState, es: seq<RegWrite>)
    requires Sound(c) && Sparse(es) && AnyFp(es) && ApplyAll(c, es).Some?
    ensures Value(ApplyAll(c, es).value.0.csrs.mstatus) == Value(c.csrs.mstatus)
  {
    hide Sound, WritesFp, ApplyAll, Value;
    AllFrame(c, es, CsrReg(Mstatus));
  }

  /** A step that writes an F register, fflags or frm leaves FS dirty. */
  lemma StepMarksDirty(c: CoreState, m: Image, insn: Insn, c': CoreState, m': Image, k: Commit)
    requires Sound(c) && StepOf(c, m, insn) == Committed(c', m', k) && AnyFp(k.regWrites)
    ensures IsDirty(c'.csrs.mstatus) && c'.csrs.mstatus & SD != 0
    ensures c'.csrs.mstatus == Marked(c.csrs.mstatus)
  {
    hide Effects, IsDirty, StatusOk, ApplyAll, WriteAll, Value, Accessible, Fetched, DirtyStatus, NewStatus, Marked,
      WithoutZero, ExpandAll;
    var r := Effects(c, m, insn);
    var a := Advanced(c, r);
    var es := ExpandAll(WithoutZero(r.regWrites));
    var ws := Rewritten(c, r.regWrites);
    EffectsShaped(c, m, insn);
    DropKeepsShape(r.regWrites);
    ExpandedShape(WithoutZero(r.regWrites));
    AllTargets(a, ws);
    FpFromLog(ws, k.regWrites);
    FpUnmarked(c, es);
    MarkedIsDirty(a, c.csrs.mstatus, es, c');
    AllKeepSound(a, ws);
    assert StatusOk(c'.csrs.mstatus);
    DirtyHasSd(c'.csrs.mstatus);
    SoundStatus(c);
    MarkIsExact(c.csrs.mstatus);
  }

  /** A register whose write dirties the floating-point state. */
  predicate IsFpRegister(r: Reg) { r.FprOf? || r in {CsrReg(Fflags), CsrReg(Frm), CsrReg(Fcsr)} }

  lemma {:induction false} FpWriteKept(ws: seq<RegWrite>, w: RegWrite)
    requires w in ws && IsFpRegister(Target(w))
    ensures w in WithoutZero(ws)
    decreases |ws|
  {
    if ws[0] != w {
      FpWriteKept(ws[1..], w);
    }
  }

  lemma {:induction false} FpWriteExpanded(ws: seq<RegWrite>, w: RegWrite)
    requires w in ws && IsFpRegister(Target(w))
    ensures AnyFp(ExpandAll(ws))
    decreases |ws|
  {
    if ws[0] == w {
      assert ExpandAll(ws)[0] == Expanded(w)[0];
      assert WritesFp(Expanded(w)[0]);
    } else {
      FpWriteExpanded(ws[1..], w);
      var v :| v in ExpandAll(ws[1..]) && WritesFp(v);
      assert v in ExpandAll(ws);
    }
  }

  /** An instruction that writes such a register leaves mstatus marked, whatever it was. */
  lemma EffectMarksDirty(c: CoreState, m: Image, insn: Insn, c': CoreState, m': Image, k: Commit, w: RegWrite)
    requires Sound(c) && StepOf(c, m, insn) == Committed(c', m', k)
    requires w in Effects(c, m, insn).regWrites && IsFpRegister(Target(w))
    ensures c'.csrs.mstatus == Marked(c.csrs.mstatus)
  {
    hide Effects, IsDirty, StatusOk, ApplyAll, WriteAll, Value, Accessible, Fetched, DirtyStatus, NewStatus, Marked,
      WithoutZero, ExpandAll;
    var r := Effects(c, m, insn);
    var a := Advanced(c, r);
    var es := ExpandAll(WithoutZero(r.regWrites));
    EffectsShaped(c, m, insn);
    DropKeepsShape(r.regWrites);
    ExpandedShape(WithoutZero(r.regWrites));
    FpWriteKept(r.regWrites, w);
    FpWriteExpanded(WithoutZero(r.regWrites), w);
    MarkedIsDirty(a, c.csrs.mstatus, es, c');
    SoundStatus(c);
    MarkIsExact(c.csrs.mstatus);
  }

  lemma SoundStatus(c: CoreState)
    requires Sound(c)
    ensures StatusOk(c.csrs.mstatus)
  {
    hide StatusOk;
  }

  /** mstatus with FS and SD set. */
  function Marked(status: bv64): bv64 { status | 0x8000_0000_0000_6000 }

  /** The mark sets these bits and nothing else. */
  lemma MarkIsExact(status: bv64)
    requires StatusOk(status)
    ensures (if DirtyStatus(status) != status then NewStatus(status, DirtyStatus(status)) else status)
            == Marked(status)
  {
    MarkedNow(status);
    if DirtyStatus(status) == status {
      MarkedAlready(status);
    }
    hide StatusOk, DirtyStatus, NewStatus, Marked;
  }

  lemma MarkedNow(status: bv64)
    ensures NewStatus(status, DirtyStatus(status)) == Marked(status)
  {
  }

  lemma MarkedAlready(status: bv64)
    requires StatusOk(status) && DirtyStatus(status) == status
    ensures Marked(status) == status
  {
  }

  lemma DirtyHasSd(status: bv64)
    requires StatusOk(status) && IsDirty(status)
    ensures status & SD != 0
  {
  }

  lemma FpFromLog(ws: seq<RegWrite>, log: seq<RegWrite>)
    requires |log| == |ws| && forall i :: 0 <= i < |ws| ==> Target(log[i]) == Target(ws[i])
    requires AnyFp(log)
    ensures AnyFp(ws)
  {
    var w :| w in log && WritesFp(w);
    var i :| 0 <= i < |log| && log[i] == w;
    assert Target(log[i]) == Target(ws[i]);
    assert ws[i] in ws;
  }

  lemma FpUnmarked(c: CoreState, es: seq<RegWrite>)
    requires AnyFp(MarkedDirty(c, es))
    ensures AnyFp(es)
  {
  }

  // ---- The logs of a run replay.

  ghost function RegLog(c: CoreState, m: Image, insns: seq<Insn>): seq<RegWrite>
    requires Commits(c, m, insns)
    decreases |insns|
  {
    if insns == [] then []
    else var o := StepOf(c, m, insns[0]); o.commit.regWrites + RegLog(o.core, o.mem, insns[1..])
  }

  ghost function MemLog(c: CoreState, m: Image, insns: seq<Insn>): seq<MemAccess>
    requires Commits(c, m, insns)
    decreases |insns|
  {
    if insns == [] then []
    else var o := StepOf(c, m, insns[0]); o.commit.memWrites + MemLog(o.core, o.mem, insns[1..])
  }

  lemma {:induction false} WriteAppend(m: Image, xs: seq<MemAccess>, ys: seq<MemAccess>)
    requires WriteAll(m, xs).Some?
    ensures WriteAll(m, xs + ys) == WriteAll(WriteAll(m, xs).value, ys)
    decreases |xs|
  {
    hide Write, Accessible;
    if xs == [] {
      assert [] + ys == ys;
    } else {
      assert (xs + ys)[1..] == xs[1..] + ys;
      WriteAppend(Write(m, xs[0].addr, xs[0].size, xs[0].value), xs[1..], ys);
    }
  }

  /** Replaying the concatenated logs of a run on its first state gives its last, and logs the same again. */
  lemma {:induction false} RunReplays(c: CoreState, m: Image, insns: seq<Insn>)
    requires Sound(c) && Commits(c, m, insns)
    ensures After(c, m, insns).Some?
    ensures var p := After(c, m, insns).value;
            && ApplyAll(c, RegLog(c, m, insns)) == Some((p.0.(pc := c.pc, priv := c.priv), RegLog(c, m, insns)))
            && WriteAll(m, MemLog(c, m, insns)) == Some(p.1)
    decreases |insns|
  {
    hide StepOf, Sound, Truthful, Untouched, ReadReg, MemoryIsLogged, ReadsAreLogged, Accessible, Read;
    if insns != [] {
      var o := StepOf(c, m, insns[0]);
      CommitIsTheDiff(c, m, insns[0], o.core, o.mem, o.commit);
      RunReplays(o.core, o.mem, insns[1..]);
      var rest := RegLog(o.core, o.mem, insns[1..]);
      AllIgnorePc(o.core, rest, c.pc, c.priv);
      AllAppend(c, o.commit.regWrites, rest);
      WriteAppend(m, o.commit.memWrites, MemLog(o.core, o.mem, insns[1..]));
    }
  }

  // ---- Trap, handler and return.

  /** A CSR instruction that writes one of the registers. */
  predicate WritesAny(insn: Insn, csrs: set<Csr>) {
    insn.SystemInsn? && IsCsrInsn(insn.system) && WritesCsr(insn.system, insn.rs1, insn.uimm)
    && CsrOf(insn.csr).Some? && CsrOf(insn.csr).value in csrs
  }

  /** What a handler may run before it returns. */
  predicate IsQuiet(insn: Insn) {
    !(insn.SystemInsn? && insn.system.Mret?) && !WritesAny(insn, {Mstatus, Mepc})
  }

  /** The bits that a trap saves. */
  function Saved(status: bv64): bv64 { status & (MPIE | MPP) }

  /** The only writes to the saved state are the ones that mark FS dirty. */
  predicate LeavesSaved(ws: seq<RegWrite>, status: bv64) {
    forall w :: w in ws && w.C? ==> w.csr != Mepc && (w.csr == Mstatus ==> w.value == Value(DirtyStatus(status)))
  }

  lemma DirtyKeepsSaved(status: bv64, before: bv64)
    ensures Saved(NewStatus(status, DirtyStatus(before))) == Saved(before)
  {
  }

  lemma {:induction false} AllLeaveSaved(c: CoreState, ws: seq<RegWrite>, status: bv64)
    requires LeavesSaved(ws, status) && ApplyAll(c, ws).Some? && Saved(c.csrs.mstatus) == Saved(status)
    ensures var d := ApplyAll(c, ws).value.0;
            d.csrs.mepc == c.csrs.mepc && Saved(d.csrs.mstatus) == Saved(status)
    decreases |ws|
  {
    hide DirtyStatus, NewStatus, Saved, Bits, Value;
    if ws != [] {
      if ws[0].C? && ws[0].csr == Mstatus {
        ValueBits(DirtyStatus(status));
        DirtyKeepsSaved(c.csrs.mstatus, status);
      }
      AllLeaveSaved(Apply(c, ws[0]).value.0, ws[1..], status);
    }
  }

  lemma QuietEffects(c: CoreState, m: Image, insn: Insn)
    requires Effects(c, m, insn).NormalStep? && IsQuiet(insn)
    ensures forall w :: w in Effects(c, m, insn).regWrites && w.C? ==> w.csr != Mepc && w.csr != Mstatus
  {
    hide FpOf, FpResultOf, Accessible, Read, Alu, AluWord, NewCsrValue, Get, Taken, Extended, Bits, Value, CsrOf;
  }

  lemma RewrittenLeavesSaved(c: CoreState, ws: seq<RegWrite>)
    requires Shaped(ws) && forall w :: w in ws && w.C? ==> w.csr != Mepc && w.csr != Mstatus
    ensures LeavesSaved(Rewritten(c, ws), c.csrs.mstatus)
  {
    hide DirtyStatus, Value, AnyFp;
    DropKeepsShape(ws);
    ExpandedFrom(WithoutZero(ws));
  }

  /** Where the expanded CSR writes come from. */
  lemma {:induction false} ExpandedFrom(ws: seq<RegWrite>)
    ensures forall w :: w in ExpandAll(ws)
              ==> w in ws || exists v :: v in ws && v.C? && v.csr == Fcsr && w.C? && (w.csr == Fflags || w.csr == Frm)
  {
    if ws != [] {
      ExpandedFrom(ws[1..]);
    }
  }

  /** A quiet step keeps the saved state. */
  lemma QuietStep(c: CoreState, m: Image, insn: Insn, c': CoreState, m': Image, k: Commit)
    requires StepOf(c, m, insn) == Committed(c', m', k) && IsQuiet(insn)
    ensures c'.csrs.mepc == c.csrs.mepc && Saved(c'.csrs.mstatus) == Saved(c.csrs.mstatus)
  {
    hide Effects, Rewritten, ApplyAll, WriteAll, Accessible, Fetched, LeavesSaved, Shaped, IsQuiet, Saved;
    var r := Effects(c, m, insn);
    EffectsShaped(c, m, insn);
    QuietEffects(c, m, insn);
    RewrittenLeavesSaved(c, r.regWrites);
    AllLeaveSaved(Advanced(c, r), Rewritten(c, r.regWrites), c.csrs.mstatus);
  }

  lemma {:induction false} QuietRun(c: CoreState, m: Image, insns: seq<Insn>)
    requires Commits(c, m, insns) && forall i :: 0 <= i < |insns| ==> IsQuiet(insns[i])
    ensures After(c, m, insns).Some?
    ensures var d := After(c, m, insns).value.0;
            d.csrs.mepc == c.csrs.mepc && Saved(d.csrs.mstatus) == Saved(c.csrs.mstatus)
    decreases |insns|
  {
    hide StepOf, IsQuiet, Saved;
    if insns != [] {
      var o := StepOf(c, m, insns[0]);
      QuietStep(c, m, insns[0], o.core, o.mem, o.commit);
      QuietRun(o.core, o.mem, insns[1..]);
    }
  }

  lemma TrapSaves(status: bv64, priv: Privilege)
    ensures SavedPrivilege(NewStatus(status, TrapStatus(status, priv))) == priv
    ensures NewStatus(status, TrapStatus(status, priv)) & MPIE != 0 <==> status & MIE != 0
    ensures NewStatus(status, TrapStatus(status, priv)) & MIE == 0
  {
  }

  lemma ReturnRestores(status: bv64, saved: bv64)
    requires Saved(status) == Saved(saved)
    ensures SavedPrivilege(status) == SavedPrivilege(saved)
    ensures NewStatus(status, ReturnStatus(status)) & MIE != 0 <==> saved & MPIE != 0
  {
  }

  /** What mret does, as one committed step. */
  lemma MretStep(c: CoreState, m: Image, insn: Insn, c': CoreState, m': Image, k: Commit)
    requires insn.SystemInsn? && insn.system.Mret? && StepOf(c, m, insn) == Committed(c', m', k)
    ensures c'.pc == c.csrs.mepc && c'.priv == SavedPrivilege(c.csrs.mstatus)
    ensures c'.csrs == c.csrs.(mstatus := NewStatus(c.csrs.mstatus, ReturnStatus(c.csrs.mstatus)))
    ensures c'.gprs == c.gprs && c'.fprs == c.fprs && m' == m
  {
    hide ReturnStatus, SavedPrivilege, NewStatus, Bits, Value, DirtyStatus, Accessible, Fetched;
    var w := C(Mstatus, Value(ReturnStatus(c.csrs.mstatus)));
    var r := Effects(c, m, insn);
    assert r.regWrites == [w];
    assert [w][1..] == [];
    OneRewritten(w);
    assert !AnyFp([w]);
    ValueBits(ReturnStatus(c.csrs.mstatus));
    AllIgnorePc(Advanced(c, r), [w], c.pc, c.priv);
  }

  /** The state a trap enters remembers where it came from. */
  lemma TrapRemembers(c: CoreState, cause: u64, tval: u64)
    ensures var t := Trap(c, cause, tval);
            && t.csrs.mepc == Fields.WordAligned(c.pc)
            && t.csrs.mstatus == NewStatus(c.csrs.mstatus, TrapStatus(c.csrs.mstatus, c.priv))
  {
    hide TrapStatus, NewStatus, Bits, Value;
    ValueBits(TrapStatus(c.csrs.mstatus, c.priv));
  }

  /**
   * An exception, any handler of committed steps that neither return nor write mstatus or mepc, and then mret:
   * privilege and interrupt enable are as before the exception, and so is the pc exactly when it was aligned.
   */
  lemma TrapAndReturn(c: CoreState, m: Image, insn: Insn, t: CoreState, handler: seq<Insn>,
                      c1: CoreState, m1: Image, mret: Insn, c2: CoreState, m2: Image, k: Commit)
    requires StepOf(c, m, insn) == Trapped(t)
    requires Commits(t, m, handler) && (forall i :: 0 <= i < |handler| ==> IsQuiet(handler[i]))
    requires After(t, m, handler) == Some((c1, m1))
    requires mret.SystemInsn? && mret.system.Mret? && StepOf(c1, m1, mret) == Committed(c2, m2, k)
    ensures c2.pc == c.pc <==> c.pc % 4 == 0
    ensures c2.priv == c.priv
    ensures c2.csrs.mstatus & MIE != 0 <==> c.csrs.mstatus & MIE != 0
    ensures t.csrs.mstatus & MIE == 0
  {
    hide Effects, Complete, After, Commits, IsQuiet, NewStatus, TrapStatus, ReturnStatus, SavedPrivilege, Trap, Saved;
    assert t == Trap(c, Effects(c, m, insn).cause, Effects(c, m, insn).tval);
    TrapRemembers(c, Effects(c, m, insn).cause, Effects(c, m, insn).tval);
    QuietRun(t, m, handler);
    MretStep(c1, m1, mret, c2, m2, k);
    TrapSaves(c.csrs.mstatus, c.priv);
    ReturnRestores(c1.csrs.mstatus, t.csrs.mstatus);
    Fields.AlignedIsFixed(c.pc);
  }

  // ---- The hypotheses above can be met.

  const ECALL: Insn := SystemInsn(Ecall, 0, 0, 0, 0)
  const MRET: Insn := SystemInsn(Mret, 0, 0, 0, 0)

  /** From reset with some memory at address 0, an ecall traps to it, and an mret there commits. */
  lemma TrapAndReturnHappens()
    ensures var c, m := ResetState(0), Image(0, seq(8, _ => 0));
            var t := Trap(c, 11, 0);
            StepOf(c, m, ECALL) == Trapped(t) && Commits(t, m, []) && StepOf(t, m, MRET).Committed?
  {
    hide StepOf, Trap, ResetState;
    var c, m := ResetState(0), Image(0, seq(8, _ => 0));
    ResetFacts();
    EcallTraps(c, m);
    MretCommits(Trap(c, 11, 0), m, MRET);
  }

  /** A step called at pc 2: an ecall there saves 0, so no return restores that pc. */
  lemma MisalignedPcIsLost()
    ensures var c := ResetState(2);
            StepOf(c, Image(0, []), ECALL) == Trapped(Trap(c, 11, 0)) && Trap(c, 11, 0).csrs.mepc == 0 && c.pc == 2
  {
    hide StepOf, Trap;
    EcallTraps(ResetState(2), Image(0, []));
    TrapRemembers(ResetState(2), 11, 0);
  }

  lemma ResetFacts()
    ensures ResetState(0).priv == MACHINE && ResetState(0).csrs.mtvec == 0
  {
  }

  lemma EcallTraps(c: CoreState, m: Image)
    requires c.priv == MACHINE
    ensures StepOf(c, m, ECALL) == Trapped(Trap(c, 11, 0))
    ensures c.csrs.mtvec == 0 ==> Trap(c, 11, 0).pc == 0
  {
    hide Trap;
    EntersAtZero(c);
  }

  lemma EntersAtZero(c: CoreState)
    ensures c.csrs.mtvec == 0 ==> Trap(c, 11, 0).pc == 0
  {
    hide TrapStatus, NewStatus, Bits, Value;
  }

  /** A return commits wherever its own word can be fetched. */
  lemma MretCommits(c: CoreState, m: Image, insn: Insn)
    requires insn.SystemInsn? && insn.system.Mret?
    ensures StepOf(c, m, insn).Committed? <==> Accessible(m, c.pc, 4)
  {
    hide ReturnStatus, SavedPrivilege, NewStatus, Bits, Value, DirtyStatus, Accessible, Fetched;
    var w := C(Mstatus, Value(ReturnStatus(c.csrs.mstatus)));
    var r := Effects(c, m, insn);
    assert r.regWrites == [w] && r.memWrites == [];
    assert [w][1..] == [];
    OneRewritten(w);
    assert !AnyFp([w]);
    OneWrite(Advanced(c, r), w);
  }
}
