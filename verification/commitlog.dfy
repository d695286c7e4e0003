/** The commit log: it replays to the same state, names what a reader then finds, and leaves out nothing. */
module CommitLog {
  import opened Words
  import opened Csrs
  import opened Cpu
  import opened Ram
  import opened Instructions
  import opened Execute
  import opened Step
  import FpuUnit
  import Fma
  import Convert
  import Sqrt
  import Ieee754
  import Fields

  /** What every run from reset keeps of a core. */
  predicate Sound(c: CoreState) { c.gprs[0] == 0 && Canonical(c.csrs) }

  /** Registers that share bits. */
  predicate Shares(r: Reg, s: Reg) {
    r == s || (r.CsrReg? && s.CsrReg? && Overlaps(r.csr, s.csr))
  }

  // ---- One write.

  lemma ApplyKeepsSound(c: CoreState, w: RegWrite)
    requires Sound(c) && Apply(c, w).Some?
    ensures Sound(Apply(c, w).value.0)
    ensures Target(Apply(c, w).value.1) == Target(w)
  {
    hide Set, Canonical;
    if w.C? {
      SetKeepsCanonical(c.csrs, w.csr, w.value);
    }
  }

  /** Applying the logged value instead does the same, and logs the same. */
  lemma ApplyReplays(c: CoreState, w: RegWrite)
    requires Sound(c) && Apply(c, w).Some?
    ensures Apply(c, Apply(c, w).value.1) == Apply(c, w)
  {
    hide Set, Canonical;
    if w.C? {
      SetReplays(c.csrs, w.csr, w.value);
    }
  }

  /** A value the log reports truthfully: no write of x0, and words for F registers. */
  predicate Loggable(w: RegWrite) {
    !IsZeroWrite(w) && (w.F? ==> w.value < B32)
  }

  lemma ApplyReadsBack(c: CoreState, w: RegWrite)
    requires Sound(c) && Loggable(w) && Apply(c, w).Some?
    ensures Loggable(Apply(c, w).value.1)
    ensures ReadReg(Apply(c, w).value.0, Target(w)) == Apply(c, w).value.1.value
  {
    hide Set, Get, Canonical;
    if w.C? {
      SetReadsBack(c.csrs, w.csr, w.value);
    }
  }

  lemma ApplyFrames(c: CoreState, w: RegWrite, r: Reg)
    requires Sound(c) && Apply(c, w).Some? && !Shares(Target(w), r)
    ensures ReadReg(Apply(c, w).value.0, r) == ReadReg(c, r)
  {
    hide Set, Get, Canonical, Overlaps;
    if w.C? && r.CsrReg? {
      SetFrames(c.csrs, w.csr, w.value, r.csr);
    }
  }

  // ---- A list of writes.

  /** The registers a list writes do not share bits. */
  predicate Disjoint(ws: seq<RegWrite>) {
    forall i, j :: 0 <= i < j < |ws| ==> !Shares(Target(ws[i]), Target(ws[j]))
  }

  predicate AllLoggable(ws: seq<RegWrite>) { forall w :: w in ws ==> Loggable(w) }

  predicate Untouched(ws: seq<RegWrite>, r: Reg) { forall w :: w in ws ==> !Shares(Target(w), r) }

  predicate Truthful(c: CoreState, log: seq<RegWrite>) {
    forall w :: w in log ==> ReadReg(c, Target(w)) == w.value
  }

  lemma {:induction false} AllKeepSound(c: CoreState, ws: seq<RegWrite>)
    requires Sound(c) && ApplyAll(c, ws).Some?
    ensures Sound(ApplyAll(c, ws).value.0)
    decreases |ws|
  {
    hide Sound, Apply;
    if ws != [] {
      ApplyKeepsSound(c, ws[0]);
      AllKeepSound(Apply(c, ws[0]).value.0, ws[1..]);
    }
  }

  /** Replaying the log on the state before is the same as the writes. */
  lemma {:induction false} AllReplay(c: CoreState, ws: seq<RegWrite>)
    requires Sound(c) && ApplyAll(c, ws).Some?
    ensures ApplyAll(c, ApplyAll(c, ws).value.1) == ApplyAll(c, ws)
    decreases |ws|
  {
    hide Sound, Apply;
    if ws != [] {
      var p := Apply(c, ws[0]).value;
      ApplyKeepsSound(c, ws[0]);
      ApplyReplays(c, ws[0]);
      AllReplay(p.0, ws[1..]);
      var log := ApplyAll(p.0, ws[1..]).value.1;
      assert ([p.1] + log)[1..] == log;
    }
  }

  /** A register that no write shares bits with keeps its value. */
  lemma {:induction false} AllFrame(c: CoreState, ws: seq<RegWrite>, r: Reg)
    requires Sound(c) && ApplyAll(c, ws).Some? && Untouched(ws, r)
    ensures ReadReg(ApplyAll(c, ws).value.0, r) == ReadReg(c, r)
    decreases |ws|
  {
    hide Sound, Apply, ReadReg, Shares;
    if ws != [] {
      var p := Apply(c, ws[0]).value;
      ApplyKeepsSound(c, ws[0]);
      ApplyFrames(c, ws[0], r);
      AllFrame(p.0, ws[1..], r);
    }
  }

  lemma {:induction false} AllTargets(c: CoreState, ws: seq<RegWrite>)
    requires Sound(c) && ApplyAll(c, ws).Some?
    ensures var log := ApplyAll(c, ws).value.1;
            |log| == |ws| && forall i :: 0 <= i < |ws| ==> Target(log[i]) == Target(ws[i])
    decreases |ws|
  {
    hide Sound, Apply, Target;
    if ws != [] {
      ApplyKeepsSound(c, ws[0]);
      AllTargets(Apply(c, ws[0]).value.0, ws[1..]);
    }
  }

  /** Every logged value is what a reader finds afterwards. */
  lemma {:induction false} AllTruthful(c: CoreState, ws: seq<RegWrite>)
    requires Sound(c) && ApplyAll(c, ws).Some? && Disjoint(ws) && AllLoggable(ws)
    ensures Truthful(ApplyAll(c, ws).value.0, ApplyAll(c, ws).value.1)
    decreases |ws|
  {
    hide Sound, Apply, ReadReg, Shares, Loggable;
    if ws != [] {
      var p := Apply(c, ws[0]).value;
      ApplyKeepsSound(c, ws[0]);
      ApplyReadsBack(c, ws[0]);
      AllTruthful(p.0, ws[1..]);
      SharesBackwards(ws);
      AllFrame(p.0, ws[1..], Target(ws[0]));
    }
  }

  lemma SharesBackwards(ws: seq<RegWrite>)
    requires ws != [] && Disjoint(ws)
    ensures Untouched(ws[1..], Target(ws[0])) && Disjoint(ws[1..])
  {
    hide Target;
    forall w | w in ws[1..]
      ensures !Shares(Target(w), Target(ws[0]))
    {
      var i :| 0 <= i < |ws| - 1 && ws[1..][i] == w;
      assert !Shares(Target(ws[0]), Target(ws[i + 1]));
    }
  }

  // ---- The lists that instructions produce.

  /** The effects of one instruction: at most two, on registers that share nothing. */
  predicate Shaped(ws: seq<RegWrite>) {
    && (|ws| == 0 || |ws| == 1 || (|ws| == 2 && ((ws[0].X? && ws[1].C?)
                                                 || (ws[0].C? && ws[0].csr == Fflags && !ws[1].C?))))
    && forall w :: w in ws && w.F? ==> w.value < B32
  }

  lemma EffectsShaped(c: CoreState, m: Image, insn: Insn)
    requires Effects(c, m, insn).NormalStep?
    ensures Shaped(Effects(c, m, insn).regWrites)
  {
    hide FpResultOf, FpWrites, Accessible, Read, Alu, AluWord, NewCsrValue, CsrOf, Get, Taken, Extended, Bits, Value;
    if insn.OpFpInsn? || insn.FmaFpInsn? {
      var r := FpResultOf(c, insn).value;
      FpResultShaped(c, insn);
      FpWritesShaped(c, r, insn.OpFpInsn? && ToGpr(insn.fp), insn.rd);
    }
  }

  /** A result for an F register is a word. */
  lemma FpResultShaped(c: CoreState, insn: Insn)
    requires FpResultOf(c, insn).Some?
    ensures insn.FmaFpInsn? || (insn.OpFpInsn? && !ToGpr(insn.fp)) ==> FpResultOf(c, insn).value.value < B32
  {
    hide FpOf, Fma.FusedOf, FpuUnit.FlagsOk;
    match insn {
      case OpFpInsn(op, rm, rs1, rs2, _) =>
        FpFits(c, op, rs1, rs2, Resolved(c, rm).value);
      case FmaFpInsn(op, rm, rs1, rs2, rs3, _) =>
        FpuUnit.FusedOk(op, c.fprs[rs1], c.fprs[rs2], c.fprs[rs3], Resolved(c, rm).value);
    }
  }

  lemma FpWritesShaped(c: CoreState, r: Ieee754.FpResult, toGpr: bool, rd: Num)
    requires !toGpr ==> r.value < B32
    ensures Shaped(FpWrites(c, r, toGpr, rd).regWrites)
  {
    hide Bits, Value, Get;
  }

  /** Results for F registers are words, and flags are five bits. */
  lemma FpFits(c: CoreState, op: FpuUnit.OpFpType, rs1: Num, rs2: Num, rm: Ieee754.Mode)
    ensures !ToGpr(op) ==> FpOf(c, op, rs1, rs2, rm).value < B32
    ensures FpuUnit.FlagsOk(FpOf(c, op, rs1, rs2, rm).flags)
  {
    hide FpuUnit.FlagsOk, SignExtendWord, FpuUnit.BinaryOf, Convert.IntegerFrom,
      Convert.FloatOf, Sqrt.RootOf, FpuUnit.ClassMask;
    FpuUnit.NoFlagsOk();
    if FpuUnit.IsBinary(op) {
      FpuUnit.BinaryOk(op, c.fprs[rs1], c.fprs[rs2], rm);
    } else if FpuUnit.IsToInteger(op) {
      FpuUnit.ToIntegerFlagsOk(FpuUnit.IntTypeOf(op), c.fprs[rs1], rm);
    } else if FpuUnit.IsFromInteger(op) {
      FpuUnit.FromIntegerOk(FpuUnit.IntTypeOf(op), c.gprs[rs1], rm);
    } else if op.Sqrt? {
      FpuUnit.RootOk(c.fprs[rs1], rm);
    }
  }

  /** The rewriting leaves a list whose log is truthful. */
  lemma RewrittenIsDisjoint(c: CoreState, ws: seq<RegWrite>)
    requires Shaped(ws)
    ensures Disjoint(Rewritten(c, ws)) && AllLoggable(Rewritten(c, ws))
  {
    var kept := WithoutZero(ws);
    DropKeepsShape(ws);
    ExpandedShape(kept);
    MarkedShape(c, ExpandAll(kept));
  }

  /** The rewriting of one write, and of two. */
  lemma OneRewritten(w: RegWrite)
    ensures WithoutZero([w]) == (if IsZeroWrite(w) then [] else [w]) && ExpandAll([w]) == Expanded(w)
  {
    var none: seq<RegWrite> := [];
    assert [w][1..] == none;
    assert WithoutZero(none) == [] && ExpandAll(none) == [];
    assert Expanded(w) + none == Expanded(w);
  }

  lemma TwoRewritten(x: RegWrite, w: RegWrite)
    ensures WithoutZero([x, w]) == (if IsZeroWrite(x) then [] else [x]) + (if IsZeroWrite(w) then [] else [w])
    ensures ExpandAll([x, w]) == Expanded(x) + Expanded(w)
  {
    OneRewritten(w);
    assert [x, w][1..] == [w];
  }

  lemma DropKeepsShape(ws: seq<RegWrite>)
    requires Shaped(ws)
    ensures Shaped(WithoutZero(ws)) && forall w :: w in WithoutZero(ws) ==> w in ws && !IsZeroWrite(w)
  {
    if |ws| == 1 {
      assert ws[1..] == [];
    } else if |ws| == 2 {
      assert ws[1..][1..] == [];
      assert WithoutZero(ws[1..]) == if IsZeroWrite(ws[1]) then [] else [ws[1]];
    }
  }

  /** Only a list without floating-point writes can name mstatus. */
  predicate Sparse(ws: seq<RegWrite>) {
    Disjoint(ws) && AllLoggable(ws) && (AnyFp(ws) ==> forall w :: w in ws ==> Target(w) != CsrReg(Mstatus))
    && forall w :: w in ws ==> Target(w) != CsrReg(Fcsr)
  }

  lemma ExpandedShape(ws: seq<RegWrite>)
    requires Shaped(ws) && forall w :: w in ws ==> !IsZeroWrite(w)
    ensures Sparse(ExpandAll(ws))
  {
    var es := ExpandAll(ws);
    if |ws| == 1 {
      assert ws[1..] == [];
      assert es == Expanded(ws[0]);
    } else if |ws| == 2 {
      assert ws[1..][1..] == [];
      assert ExpandAll(ws[1..]) == Expanded(ws[1]) + [];
      assert es == Expanded(ws[0]) + Expanded(ws[1]);
    }
  }

  lemma MarkedShape(c: CoreState, ws: seq<RegWrite>)
    requires Sparse(ws)
    ensures Disjoint(MarkedDirty(c, ws)) && AllLoggable(MarkedDirty(c, ws))
  {
    hide DirtyStatus, Value;
    forall w | w in ws && AnyFp(ws)
      ensures !Shares(Target(w), CsrReg(Mstatus))
    {
    }
    hide Shares;
  }

  // ---- Memory effects.

  predicate Apart(m: Image, w: MemAccess, addr: u64, n: nat) {
    Offset(m.base, addr) + n <= Offset(m.base, w.addr) || Offset(m.base, w.addr) + w.size <= Offset(m.base, addr)
  }

  /** At most one store, of a value that fits its width. */
  predicate SingleStore(ws: seq<MemAccess>) {
    |ws| <= 1 && forall w :: w in ws ==> Width(w.size) && w.value < Base(w.size)
  }

  lemma EffectsStore(c: CoreState, m: Image, insn: Insn)
    requires Effects(c, m, insn).NormalStep?
    ensures SingleStore(Effects(c, m, insn).memWrites)
  {
    hide FpOf, FpResultOf, FlagWrites, Accessible, Read, Alu, AluWord, NewCsrValue, CsrOf, Get, Taken,
      Extended, Bits, Value;
    BaseOfWidth();
  }

  /** The bytes a log names hold what it says, and all others are as before. */
  ghost predicate MemoryIsLogged(m: Image, m': Image, ws: seq<MemAccess>) {
    && m'.base == m.base && |m'.bytes| == |m.bytes|
    && (forall w :: w in ws ==> Writable(m', w) && Read(m', w.addr, w.size) == w.value)
    && forall addr: u64, n: nat
         | Width(n) && Accessible(m, addr, n) && (forall w :: w in ws ==> Apart(m, w, addr, n)) ::
         Read(m', addr, n) == Read(m, addr, n)
  }

  lemma StoreIsLogged(m: Image, ws: seq<MemAccess>)
    requires SingleStore(ws) && WriteAll(m, ws).Some?
    ensures MemoryIsLogged(m, WriteAll(m, ws).value, ws)
  {
    if ws != [] {
      var w := ws[0];
      var off := Offset(m.base, w.addr);
      assert ws == [w];
      LoadStored(m.bytes, off, w.size, w.value);
      forall addr: u64, n: nat | Width(n) && Accessible(m, addr, n) && Apart(m, w, addr, n)
        ensures Read(Write(m, w.addr, w.size, w.value), addr, n) == Read(m, addr, n)
      {
        LoadElsewhere(m.bytes, off, w.size, w.value, Offset(m.base, addr), n);
      }
      SmallMod(w.value, Base(w.size));
    }
  }

  lemma SmallMod(v: nat, d: nat)
    requires v < d
    ensures v % d == v
  {
    DivModUnique(v, d, 0, v);
  }

  /** A logged load reports bytes of the memory, extended to the register. */
  predicate ReadsAreLogged(m: Image, rs: seq<MemAccess>) {
    forall r :: r in rs ==> Writable(m, r) && r.value % Base(r.size) == Read(m, r.addr, r.size)
  }

  lemma EffectsRead(c: CoreState, m: Image, insn: Insn)
    requires Effects(c, m, insn).NormalStep?
    ensures ReadsAreLogged(m, Effects(c, m, insn).memReads)
  {
    hide FpOf, FpResultOf, FlagWrites, Accessible, Read, Alu, AluWord, NewCsrValue, CsrOf, Get, Taken,
      Extended, Bits, Value;
    if insn.LoadInsn? {
      var addr := Wrap(c.gprs[insn.rs1] + insn.imm);
      ExtendedLow(insn.access, Read(m, addr, SizeOf(insn.access)));
    } else if insn.LoadFpInsn? {
      var addr := Wrap(c.gprs[insn.rs1] + insn.imm);
      SmallMod(Read(m, addr, 4), Base(4));
    }
  }

  lemma ExtendedLow(access: MemAccessType, raw: u64)
    requires raw < Base(SizeOf(access))
    ensures Extended(access, raw) % Base(SizeOf(access)) == raw
  {
    BaseOfWidth();
    var top := Base(SizeOf(access));
    var q := if Extended(access, raw) == raw then 0 else B64 / top - 1;
    DivModUnique(Extended(access, raw), top, q, raw);
  }

  /** v is what a register holds of raw loaded bytes: themselves, or the number they are in two's complement. */
  predicate LoadedAs(access: MemAccessType, raw: u64, v: u64) {
    match access
    case Bu => v == raw
    case Hu => v == raw
    case Wu => v == raw
    case B => v % 0x100 == raw && -0x80 <= Signed(v) < 0x80
    case H => v % 0x1_0000 == raw && -0x8000 <= Signed(v) < 0x8000
    case W => v % 0x1_0000_0000 == raw && -0x8000_0000 <= Signed(v) < 0x8000_0000
    case D => v == raw
  }

  lemma ExtendedAs(access: MemAccessType, raw: u64)
    requires raw < Base(SizeOf(access))
    ensures LoadedAs(access, raw, Extended(access, raw))
  {
    BaseOfWidth();
    ExtendedLow(access, raw);
    hide Base;
  }

  // ---- The whole commit.

  lemma {:induction false} AllIgnorePc(c: CoreState, ws: seq<RegWrite>, pc: u64, priv: Privilege)
    requires ApplyAll(c, ws).Some?
    ensures ApplyAll(c.(pc := pc, priv := priv), ws).Some?
    ensures var p, q := ApplyAll(c, ws).value, ApplyAll(c.(pc := pc, priv := priv), ws).value;
            q == (p.0.(pc := pc, priv := priv), p.1) && p.0.pc == c.pc && p.0.priv == c.priv
    decreases |ws|
  {
    hide Set;
    if ws != [] {
      AllIgnorePc(Apply(c, ws[0]).value.0, ws[1..], pc, priv);
    }
  }

  /** Equal readings of every register mean equal register files and CSRs. */
  lemma StateIsItsReadings(c: CoreState, d: CoreState)
    requires c.pc == d.pc && c.priv == d.priv
    requires forall r :: ReadReg(c, r) == ReadReg(d, r)
    ensures c == d
  {
    hide Bits, Value;
    assert c.gprs == d.gprs by {
      forall i: Num
        ensures c.gprs[i] == d.gprs[i]
      {
        assert ReadReg(c, GprOf(i)) == ReadReg(d, GprOf(i));
      }
    }
    assert c.fprs == d.fprs by {
      forall i: Num
        ensures c.fprs[i] == d.fprs[i]
      {
        assert ReadReg(c, FprOf(i)) == ReadReg(d, FprOf(i));
      }
    }
    forall r: Csr
      ensures Get(c.csrs, r) == Get(d.csrs, r)
    {
      assert ReadReg(c, CsrReg(r)) == ReadReg(d, CsrReg(r));
    }
    FileIsItsReadings(c.csrs, d.csrs);
  }

  lemma FileIsItsReadings(f: File, g: File)
    requires forall r :: Get(f, r) == Get(g, r)
    ensures f == g
  {
    hide Bits, Value;
    ValueBits(f.mstatus);
    ValueBits(g.mstatus);
    assert Get(f, Fcsr) == Get(g, Fcsr) && Get(f, Mstatus) == Get(g, Mstatus) && Get(f, Mie) == Get(g, Mie);
    assert Get(f, Mtvec) == Get(g, Mtvec) && Get(f, Mscratch) == Get(g, Mscratch) && Get(f, Mepc) == Get(g, Mepc);
    assert Get(f, Mcause) == Get(g, Mcause) && Get(f, Mtval) == Get(g, Mtval);
    assert Get(f, Pmpcfg0) == Get(g, Pmpcfg0) && Get(f, Pmpaddr0) == Get(g, Pmpaddr0);
    assert Get(f, Mhartid) == Get(g, Mhartid);
  }

  /** A log of the change from one core to another: it replays, tells the truth, and leaves nothing out. */
  ghost predicate IsDiff(c: CoreState, c': CoreState, log: seq<RegWrite>) {
    && ApplyAll(c, log) == Some((c'.(pc := c.pc, priv := c.priv), log))
    && Truthful(c', log)
    && forall r | Untouched(log, r) :: ReadReg(c', r) == ReadReg(c, r)
  }

  lemma CommitIsTheDiff(c: CoreState, m: Image, insn: Insn, c': CoreState, m': Image, k: Commit)
    requires Sound(c) && StepOf(c, m, insn) == Committed(c', m', k)
    ensures Sound(c') && IsDiff(c, c', k.regWrites)
    ensures WriteAll(m, k.memWrites) == Some(m') && MemoryIsLogged(m, m', k.memWrites)
    ensures ReadsAreLogged(m, k.memReads)
    ensures k.pc == c.pc && k.priv == c.priv && Accessible(m, c.pc, 4) && k.insn == Read(m, c.pc, 4)
  {
    hide Effects, Rewritten, Truthful, Untouched, MemoryIsLogged, ReadsAreLogged, Sound, SingleStore, Shaped,
      Disjoint, AllLoggable, ReadReg, Accessible, Read;
    var r := Effects(c, m, insn);
    EffectsShaped(c, m, insn);
    EffectsStore(c, m, insn);
    EffectsRead(c, m, insn);
    StoreIsLogged(m, r.memWrites);
    RegistersAreLogged(c, r, c', k.regWrites);
  }

  lemma RegistersAreLogged(c: CoreState, r: StepResult, c': CoreState, log: seq<RegWrite>)
    requires r.NormalStep? && Shaped(r.regWrites) && Sound(c)
    requires ApplyAll(Advanced(c, r), Rewritten(c, r.regWrites)) == Some((c', log))
    ensures Sound(c') && IsDiff(c, c', log)
  {
    hide Rewritten, Sound, Shaped, Disjoint, AllLoggable, ApplyAll, ReadReg;
    var a := Advanced(c, r);
    var ws := Rewritten(c, r.regWrites);
    RewrittenIsDisjoint(c, r.regWrites);
    assert Sound(a) by { SoundIgnoresPc(c, a); }
    AllIgnorePc(a, ws, c.pc, c.priv);
    AllKeepSound(a, ws);
    AllReplay(c, ws);
    AllTruthful(a, ws);
    AllTargets(a, ws);
    forall s | Untouched(log, s)
      ensures ReadReg(c', s) == ReadReg(c, s)
    {
      SameTargets(ws, log, s);
      AllFrame(a, ws, s);
      ReadIgnoresPc(c, a, s);
    }
  }

  lemma SoundIgnoresPc(c: CoreState, d: CoreState)
    requires c.gprs == d.gprs && c.csrs == d.csrs
    ensures Sound(c) == Sound(d)
  {
    hide Canonical;
  }

  lemma ReadIgnoresPc(c: CoreState, d: CoreState, r: Reg)
    requires c.gprs == d.gprs && c.fprs == d.fprs && c.csrs == d.csrs
    ensures ReadReg(c, r) == ReadReg(d, r)
  {
    hide Get;
  }

  lemma SameTargets(ws: seq<RegWrite>, log: seq<RegWrite>, r: Reg)
    requires |log| == |ws| && forall i :: 0 <= i < |ws| ==> Target(log[i]) == Target(ws[i])
    requires Untouched(log, r)
    ensures Untouched(ws, r)
  {
    hide Target, Shares;
    forall w | w in ws
      ensures !Shares(Target(w), r)
    {
      var i :| 0 <= i < |ws| && ws[i] == w;
      assert log[i] in log;
    }
  }

  /** A step that takes an exception changes no register file and no memory, and only the trap CSRs. */
  lemma TrapChangesLittle(c: CoreState, m: Image, insn: Insn, c': CoreState)
    requires Sound(c) && StepOf(c, m, insn) == Trapped(c')
    ensures Sound(c') && c'.gprs == c.gprs && c'.fprs == c.fprs && c'.priv == MACHINE
    ensures c'.pc == Get(c.csrs, Mtvec)
    ensures forall r | r !in {Mstatus, Mepc, Mcause, Mtval} :: Get(c'.csrs, r) == Get(c.csrs, r)
  {
    hide Effects, Complete, Bits, Value, NewStatus, TrapStatus, StatusOk;
    StatusKeeps(c.csrs.mstatus, Bits(Value(TrapStatus(c.csrs.mstatus, c.priv))));
    Fields.AlignedIsFixed(c.csrs.mtvec);
    Fields.FieldsFit(0, c.pc);
  }
}
