/**
 * What a step does for system and floating-point instructions and for exceptions, in terms of the state before and
 * after it alone, with the register numbers and bit positions of the architecture.
 */
module IsaSystem {
  import opened Words
  import opened Ieee754
  import opened Csrs
  import opened Cpu
  import opened Ram
  import opened Instructions
  import opened Execute
  import opened Step
  import opened CommitLog
  import opened Runs
  import opened Isa
  import Accrual
  import Compare
  import Convert
  import Fields
  import Fma
  import FpuUnit
  import MulDiv
  import RoundTrips
  import Sqrt

  // ---- Control and status registers by number.

  /** What each number reads, and which numbers name nothing. */
  lemma NumberedReads(f: File, number: nat)
    ensures CsrOf(number).Some? <==> number in {0x001, 0x002, 0x003, 0x300, 0x304, 0x305, 0x340, 0x341, 0x342, 0x343,
                                                0x3a0, 0x3b0, 0xf14}
    ensures CsrOf(number).Some? ==>
              Get(f, CsrOf(number).value) ==
              if number == 0x001 then f.fcsr % 32
              else if number == 0x002 then f.fcsr / 32
              else if number == 0x003 then f.fcsr
              else if number == 0x300 then Value(f.mstatus)
              else if number == 0x304 then f.mie
              else if number == 0x305 then f.mtvec
              else if number == 0x340 then f.mscratch
              else if number == 0x341 then f.mepc
              else if number == 0x342 then f.mcause
              else if number == 0x343 then f.mtval
              else if number == 0x3a0 then f.pmpcfg0
              else if number == 0x3b0 then f.pmpaddr0
              else f.mhartid
  {
    hide Value;
  }

  /** What a write of each number leaves in the file, for all but mstatus. */
  lemma NumberedWrites(f: File, number: nat, value: u64)
    requires f.fcsr <= 0xff && CsrOf(number).Some? && number != 0x300 && number != 0xf14
    ensures var r := Set(f, CsrOf(number).value, value);
            r.Some? && r.value.0 ==
              if number == 0x001 then f.(fcsr := f.fcsr / 32 * 32 + value % 32)
              else if number == 0x002 then f.(fcsr := value % 8 * 32 + f.fcsr % 32)
              else if number == 0x003 then f.(fcsr := value % 256)
              else if number == 0x304 then f.(mie := value)
              else if number == 0x305 then f.(mtvec := value / 4 * 4)
              else if number == 0x340 then f.(mscratch := value)
              else if number == 0x341 then f.(mepc := value / 4 * 4)
              else if number == 0x342 then f.(mcause := value)
              else if number == 0x343 then f.(mtval := value)
              else if number == 0x3a0 then f.(pmpcfg0 := value)
              else f.(pmpaddr0 := value)
  {
    hide Fields.WithFlags, Fields.WithMode, Fields.FlagsOf, Fields.ModeOf;
    Fields.FlagsWritten(f.fcsr, value);
    Fields.ModeWritten(f.fcsr, value);
  }

  /** mstatus: MIE, MPIE, MPP, FS and MPRV are written, SD follows FS, and the other bits stay. */
  lemma StatusWrites(status: bv64, value: bv64)
    ensures var s := NewStatus(status, value);
            && s & 0x2_7888 == value & 0x2_7888
            && (s & 0x8000_0000_0000_0000 != 0 <==> value & 0x6000 == 0x6000)
            && s & 0x7fff_ffff_fffd_8777 == status & 0x7fff_ffff_fffd_8777
  {
  }

  /** What a run keeps of mstatus, by bits. */
  lemma StatusMeans(status: bv64)
    ensures IsDirty(status) <==> status & 0x6000 == 0x6000
    ensures StatusOk(status) <==>
            status & 0x3_0000_0000 == 0x2_0000_0000
            && (status & 0x8000_0000_0000_0000 != 0 <==> status & 0x6000 == 0x6000)
  {
  }

  /** The first state: machine mode, and every register zero but mstatus, which has UXL at RV64. */
  lemma ResetReads(pc: u64)
    ensures var c := ResetState(pc);
            c.pc == pc && c.priv == 3 && c.csrs.mstatus == 0x2_0000_0000
            && forall r | r != CsrReg(Mstatus) :: ReadReg(c, r) == 0
  {
  }

  // ---- CSR instructions.

  /** Whether a CSR instruction writes. */
  predicate CsrIsWritten(insn: Insn)
    requires insn.SystemInsn?
  {
    match insn.system
    case Csrrw => true
    case Csrrwi => true
    case Csrrs => insn.rs1 != 0
    case Csrrc => insn.rs1 != 0
    case Csrrsi => insn.uimm != 0
    case Csrrci => insn.uimm != 0
    case _ => false
  }

  /** The value w that a CSR instruction writes over the one before, from its register or its immediate. */
  predicate CsrOperand(insn: Insn, before: u64, register: u64, w: u64)
    requires insn.SystemInsn?
  {
    match insn.system
    case Csrrw => w == register
    case Csrrwi => w == insn.uimm
    case Csrrs => Bits(w) == RoundTrips.Joined(Bits(before), Bits(register))
    case Csrrc => Bits(w) == RoundTrips.Without(Bits(before), Bits(register))
    case Csrrsi => Bits(w) == RoundTrips.Joined(Bits(before), Bits(insn.uimm))
    case Csrrci => Bits(w) == RoundTrips.LowHalf(RoundTrips.Without(Bits(before), Bits(insn.uimm)))
    case _ => false
  }

  lemma NewValueIs(insn: Insn, before: u64, register: u64)
    requires insn.SystemInsn? && IsCsrInsn(insn.system)
    ensures CsrOperand(insn, before, register, NewCsrValue(insn.system, before, register, insn.uimm))
  {
    hide Bits, BitOr, BitAndNot, BitAndNotWord, RoundTrips.Joined, RoundTrips.Without, RoundTrips.LowHalf;
    RoundTrips.OrBits(before, register);
    RoundTrips.OrBits(before, insn.uimm);
    RoundTrips.AndNotBits(before, register);
    AndNotWordIs(before, insn.uimm);
  }

  lemma AndNotWordIs(a: u64, uimm: Num)
    ensures Bits(BitAndNotWord(a, uimm)) == RoundTrips.LowHalf(RoundTrips.Without(Bits(a), Bits(uimm)))
  {
    hide Bits, Value, WordBits, WithoutWord, RoundTrips.LowHalf, RoundTrips.Without;
    ValueBits(WithoutWord(Bits(a), WordBits(uimm)));
    RoundTrips.ClearedInWord(Bits(a), uimm);
  }

  /** A CSR instruction that writes: rd receives the old value, and the CSR what the setter keeps of the operand. */
  lemma CsrLands(c: CoreState, m: Image, insn: Insn, c1: CoreState, m1: Image, k: Commit, csr: Csr) returns (w: u64)
    requires Sound(c) && StepOf(c, m, insn) == Committed(c1, m1, k)
    requires insn.SystemInsn? && CsrIsWritten(insn) && CsrOf(insn.csr) == Some(csr)
    ensures CsrOperand(insn, Get(c.csrs, csr), c.gprs[insn.rs1], w)
    ensures Set(c.csrs, csr, w).Some? && Get(c1.csrs, csr) == Set(c.csrs, csr, w).value.1
    ensures c1.gprs == (if insn.rd == 0 then c.gprs else c.gprs[insn.rd := Get(c.csrs, csr)])
    ensures c1.fprs == c.fprs && m1 == m
  {
    hide StepOf, Get, Set, NewCsrValue, Sound, CsrOf, CsrOperand;
    w := NewCsrValue(insn.system, Get(c.csrs, csr), c.gprs[insn.rs1], insn.uimm);
    NewValueIs(insn, Get(c.csrs, csr), c.gprs[insn.rs1]);
    RoundTrips.CsrWriteLands(c, m, insn, c1, m1, k, csr);
    CsrRegisters(c, m, insn, c1, m1, k, csr);
  }

  lemma CsrRegisters(c: CoreState, m: Image, insn: Insn, c1: CoreState, m1: Image, k: Commit, csr: Csr)
    requires StepOf(c, m, insn) == Committed(c1, m1, k)
    requires insn.SystemInsn? && IsCsrInsn(insn.system) && CsrOf(insn.csr) == Some(csr)
    ensures c1.gprs == (if insn.rd == 0 then c.gprs else c.gprs[insn.rd := Get(c.csrs, csr)])
    ensures c1.fprs == c.fprs && m1 == m
  {
    hide StepOf, Get, NewCsrValue, CsrOf, WritesCsr, GprsAfter, FprsAfter;
    CommitUnfolds(c, m, insn, c1, m1, k);
    var x := X(insn.rd, Get(c.csrs, csr));
    var ws := Effects(c, m, insn).regWrites;
    assert ws[0] == x && (|ws| == 1 || (|ws| == 2 && ws[1].C?));
    ReadAndWrite(c.gprs, c.fprs, x, ws);
  }

  lemma ReadAndWrite(g: Gprs, f: Fprs, x: RegWrite, ws: seq<RegWrite>)
    requires x.X? && (ws == [x] || (|ws| == 2 && ws[0] == x && ws[1].C?))
    ensures GprsAfter(g, ws) == (if x.num == 0 then g else g[x.num := x.value]) && FprsAfter(f, ws) == f
  {
    assert [x][1..] == [];
    CsrWritesAside(GprsAfter(g, [x]), f, ws[1..]);
    AfterAppend(g, f, [x], ws[1..]);
    assert [x] + ws[1..] == ws;
  }

  /** One that does not write reads, and leaves every CSR alone. */
  lemma CsrReads(c: CoreState, m: Image, insn: Insn, c1: CoreState, m1: Image, k: Commit, csr: Csr)
    requires StepOf(c, m, insn) == Committed(c1, m1, k)
    requires insn.SystemInsn? && IsCsrInsn(insn.system) && !CsrIsWritten(insn) && CsrOf(insn.csr) == Some(csr)
    ensures Writes1(c, c1, insn.rd, Get(c.csrs, csr)) && m1 == m
  {
    hide StepOf, Get, NewCsrValue, CsrOf;
    OneRegister(c, m, insn, c1, m1, k, insn.rd, Get(c.csrs, csr));
  }

  // ---- Returns.

  /** mstatus after a return, by bits: MIE takes MPIE, MPIE is set, MPP becomes U, MPRV is cleared on leaving M. */
  predicate ReturnedStatus(s: bv64, t: bv64) {
    && (t & 0x8 != 0 <==> s & 0x80 != 0) && t & 0x80 != 0 && t & 0x1800 == 0
    && t & 0x2_0000 == (if s & 0x1800 == 0x1800 then s & 0x2_0000 else 0)
    && t & 0xffff_ffff_fffd_e777 == s & 0xffff_ffff_fffd_e777
  }

  predicate ModeOfStatus(s: bv64, priv: Privilege) { (priv as bv64) << 11 == s & 0x1800 }

  lemma MretLands(c: CoreState, m: Image, insn: Insn, c1: CoreState, m1: Image, k: Commit)
    requires insn.SystemInsn? && insn.system == Mret && Sound(c) && StepOf(c, m, insn) == Committed(c1, m1, k)
    ensures c1 == c.(pc := c.csrs.mepc, priv := c1.priv, csrs := c.csrs.(mstatus := c1.csrs.mstatus)) && m1 == m
    ensures ModeOfStatus(c.csrs.mstatus, c1.priv) && ReturnedStatus(c.csrs.mstatus, c1.csrs.mstatus)
  {
    hide NewStatus, ReturnStatus, SavedPrivilege, StepOf, StatusOk, ModeOfStatus, ReturnedStatus;
    MretStep(c, m, insn, c1, m1, k);
    SoundStatus(c);
    ReturnBits(c.csrs.mstatus);
    ReturnPrivilege(c.csrs.mstatus);
  }

  lemma ReturnPrivilege(s: bv64)
    ensures ModeOfStatus(s, SavedPrivilege(s))
  {
  }

  lemma ReturnBits(s: bv64)
    requires StatusOk(s)
    ensures ReturnedStatus(s, NewStatus(s, ReturnStatus(s)))
  {
    hide ReturnStatus, NewStatus, StatusOk, ReturnedStatus;
    var v := ReturnStatus(s);
    ReturnWord(s);
    ReturnKeepsDirty(s);
    StatusWrites(s, v);
    ReturnStays(s, v, NewStatus(s, v));
  }

  lemma ReturnWord(s: bv64)
    ensures var v := ReturnStatus(s);
            && (v & 0x8 != 0 <==> s & 0x80 != 0) && v & 0x80 != 0 && v & 0x1800 == 0
            && v & 0x2_0000 == (if s & 0x1800 == 0x1800 then s & 0x2_0000 else 0)
  {
  }

  lemma ReturnKeepsDirty(s: bv64)
    requires StatusOk(s)
    ensures ReturnStatus(s) & 0x6000 == s & 0x6000
    ensures s & 0x8000_0000_0000_0000 != 0 <==> s & 0x6000 == 0x6000
  {
  }

  lemma ReturnStays(s: bv64, v: bv64, t: bv64)
    requires t & 0x2_7888 == v & 0x2_7888 && v & 0x6000 == s & 0x6000
    requires t & 0x8000_0000_0000_0000 != 0 <==> v & 0x6000 == 0x6000
    requires s & 0x8000_0000_0000_0000 != 0 <==> s & 0x6000 == 0x6000
    requires t & 0x7fff_ffff_fffd_8777 == s & 0x7fff_ffff_fffd_8777
    requires (v & 0x8 != 0 <==> s & 0x80 != 0) && v & 0x80 != 0 && v & 0x1800 == 0
    requires v & 0x2_0000 == (if s & 0x1800 == 0x1800 then s & 0x2_0000 else 0)
    ensures ReturnedStatus(s, t)
  {
  }

  // ---- Exceptions.

  /** The address of a load or a store. */
  function AddressOf(c: CoreState, insn: Insn): u64
    requires insn.LoadInsn? || insn.StoreInsn?
  {
    (c.gprs[insn.rs1] + insn.imm) % B64
  }

  /** Whether an instruction takes an exception with this cause and value. */
  predicate Raises(c: CoreState, insn: Insn, cause: u64, tval: u64) {
    || (insn.LoadInsn? && AddressOf(c, insn) % Bytes(insn.access) != 0 && cause == 4 && tval == AddressOf(c, insn))
    || (insn.StoreInsn? && AddressOf(c, insn) % Bytes(insn.access) != 0 && cause == 6 && tval == AddressOf(c, insn))
    || (insn.SystemInsn? && insn.system == Ecall && c.priv == 0 && cause == 8 && tval == 0)
    || (insn.SystemInsn? && insn.system == Ecall && c.priv == 3 && cause == 11 && tval == 0)
    || (insn.SystemInsn? && IsCsrInsn(insn.system) && CsrOf(insn.csr).None? && cause == 2 && tval == 0)
  }

  lemma EffectsRaise(c: CoreState, m: Image, insn: Insn)
    ensures Effects(c, m, insn).Exception?
            ==> Raises(c, insn, Effects(c, m, insn).cause, Effects(c, m, insn).tval)
    ensures (exists cause, tval :: Raises(c, insn, cause, tval)) ==> Effects(c, m, insn).Exception?
  {
    hide FpResultOf, FpOf, FlagWrites, Accessible, Read, Alu, AluWord, NewCsrValue, CsrOf, Get, Taken, Extended;
  }

  /** A step takes an exception exactly when one of these is due, and records its cause and its value. */
  lemma TrapLands(c: CoreState, m: Image, insn: Insn)
    ensures StepOf(c, m, insn).Trapped? <==> exists cause, tval :: Raises(c, insn, cause, tval)
    ensures StepOf(c, m, insn).Trapped?
            ==> var t := StepOf(c, m, insn).core; Raises(c, insn, t.csrs.mcause, t.csrs.mtval)
  {
    hide Effects, Complete, Raises, Trap;
    EffectsRaise(c, m, insn);
    var r := Effects(c, m, insn);
    if r.Exception? {
      TrapRecords(c, r.cause, r.tval);
    }
  }

  lemma TrapRecords(c: CoreState, cause: u64, tval: u64)
    ensures var t := Trap(c, cause, tval); t.csrs.mcause == cause && t.csrs.mtval == tval
  {
    hide NewStatus, TrapStatus, Bits, Value;
  }

  /** mstatus after an exception, by bits: MPIE takes MIE, MIE is cleared, MPP takes the privilege, the others stay. */
  predicate TrappedStatus(s: bv64, priv: Privilege, u: bv64) {
    && (u & 0x80 != 0 <==> s & 0x8 != 0) && u & 0x8 == 0 && u & 0x1800 == (priv as bv64) << 11
    && u & 0xffff_ffff_ffff_e777 == s & 0xffff_ffff_ffff_e777
  }

  /** The rest of an exception: mepc holds pc without its low bits, and the handler is at mtvec in machine mode. */
  lemma TrapEnters(c: CoreState, m: Image, insn: Insn, t: CoreState)
    requires Sound(c) && StepOf(c, m, insn) == Trapped(t)
    ensures t == c.(pc := c.csrs.mtvec, priv := 3,
                    csrs := c.csrs.(mcause := t.csrs.mcause, mtval := t.csrs.mtval, mepc := c.pc / 4 * 4,
                                    mstatus := t.csrs.mstatus))
    ensures TrappedStatus(c.csrs.mstatus, c.priv, t.csrs.mstatus)
  {
    hide Effects, Complete, NewStatus, TrapStatus, StatusOk, Trap, TrappedStatus;
    var r := Effects(c, m, insn);
    SoundStatus(c);
    TrapIs(c, r.cause, r.tval);
    TrapBits(c.csrs.mstatus, c.priv);
  }

  lemma TrapIs(c: CoreState, cause: u64, tval: u64)
    requires Sound(c)
    ensures Trap(c, cause, tval)
            == c.(pc := c.csrs.mtvec, priv := 3,
                  csrs := c.csrs.(mcause := cause, mtval := tval, mepc := c.pc / 4 * 4,
                                  mstatus := NewStatus(c.csrs.mstatus, TrapStatus(c.csrs.mstatus, c.priv))))
  {
    hide NewStatus, TrapStatus, StatusOk, Bits, Value;
    ValueBits(TrapStatus(c.csrs.mstatus, c.priv));
  }

  lemma TrapBits(s: bv64, priv: Privilege)
    requires StatusOk(s)
    ensures TrappedStatus(s, priv, NewStatus(s, TrapStatus(s, priv)))
  {
    hide TrapStatus, NewStatus, StatusOk, TrappedStatus;
    var v := TrapStatus(s, priv);
    TrapWord(s, priv);
    TrapKeepsDirty(s, priv);
    StatusWrites(s, v);
    TrapStays(s, priv, v, NewStatus(s, v));
  }

  lemma TrapWord(s: bv64, priv: Privilege)
    ensures var v := TrapStatus(s, priv);
            (v & 0x80 != 0 <==> s & 0x8 != 0) && v & 0x8 == 0 && v & 0x1800 == (priv as bv64) << 11
  {
  }

  lemma TrapKeepsDirty(s: bv64, priv: Privilege)
    requires StatusOk(s)
    ensures TrapStatus(s, priv) & 0x2_6000 == s & 0x2_6000
    ensures s & 0x8000_0000_0000_0000 != 0 <==> s & 0x6000 == 0x6000
  {
    TrapKeepsRest(s, priv);
    StatusMeans(s);
    hide TrapStatus, StatusOk;
  }

  lemma TrapKeepsRest(s: bv64, priv: Privilege)
    ensures TrapStatus(s, priv) & 0x2_6000 == s & 0x2_6000
  {
  }

  lemma TrapStays(s: bv64, priv: Privilege, v: bv64, u: bv64)
    requires u & 0x2_7888 == v & 0x2_7888 && v & 0x2_6000 == s & 0x2_6000
    requires u & 0x8000_0000_0000_0000 != 0 <==> v & 0x6000 == 0x6000
    requires s & 0x8000_0000_0000_0000 != 0 <==> s & 0x6000 == 0x6000
    requires u & 0x7fff_ffff_fffd_8777 == s & 0x7fff_ffff_fffd_8777
    requires (v & 0x80 != 0 <==> s & 0x8 != 0) && v & 0x8 == 0 && v & 0x1800 == (priv as bv64) << 11
    ensures TrappedStatus(s, priv, u)
  {
  }

  // ---- Floating point.

  /** The mode an instruction asks for: its own, or the one that frm numbers. */
  predicate ModeIs(c: CoreState, rm: RoundingMode, mode: Mode) {
    match rm
    case Static(own) => mode == own
    case Dynamic =>
      c.csrs.fcsr / 32 == match mode case Rne => 0 case Rtz => 1 case Rdn => 2 case Rup => 3 case Rmm => 4
  }

  lemma ResolvedIs(c: CoreState, rm: RoundingMode)
    ensures Resolved(c, rm).Some? ==> ModeIs(c, rm, Resolved(c, rm).value)
    ensures Resolved(c, rm).None? ==> forall mode :: !ModeIs(c, rm, mode)
  {
  }

  /** r is the result of a floating-point operation on two F registers a and b and an integer register x. */
  ghost predicate Performs(op: FpuUnit.OpFpType, a: u32, b: u32, x: u64, mode: Mode, r: FpResult) {
    match op
    case Sqrt => r == Sqrt.RootOf(a, mode)
    case CvtWFromS => r == Convert.IntegerFrom(Convert.W, a, mode)
    case CvtWuFromS => r == Convert.IntegerFrom(Convert.Wu, a, mode)
    case CvtLFromS => r == Convert.IntegerFrom(Convert.L, a, mode)
    case CvtLuFromS => r == Convert.IntegerFrom(Convert.Lu, a, mode)
    case CvtSToW => r == Convert.FloatOf(Convert.W, x, mode)
    case CvtSToWu => r == Convert.FloatOf(Convert.Wu, x, mode)
    case CvtSToL => r == Convert.FloatOf(Convert.L, x, mode)
    case CvtSToLu => r == Convert.FloatOf(Convert.Lu, x, mode)
    case Class => r == FpResult(FpuUnit.ClassMask(a), 0)
    case MoveToX => r.flags == 0 && r.value % B32 == a && Signed(r.value) == Signed32(a)
    case MoveFromX => r == FpResult(x % B32, 0)
    case _ => r == FpuUnit.BinaryOf(op, a, b, mode)
  }

  /** Whether the result goes to an integer register. */
  predicate ToInteger(op: FpuUnit.OpFpType) {
    op in {FpuUnit.Eq, FpuUnit.Lt, FpuUnit.Le, FpuUnit.Class, FpuUnit.MoveToX, FpuUnit.CvtWFromS, FpuUnit.CvtWuFromS,
           FpuUnit.CvtLFromS, FpuUnit.CvtLuFromS}
  }

  lemma FpOfPerforms(c: CoreState, op: FpuUnit.OpFpType, rs1: Num, rs2: Num, mode: Mode)
    ensures Performs(op, c.fprs[rs1], c.fprs[rs2], c.gprs[rs1], mode, FpOf(c, op, rs1, rs2, mode))
    ensures ToGpr(op) <==> ToInteger(op)
  {
    hide FpuUnit.BinaryOf, Convert.IntegerFrom, Convert.FloatOf, Sqrt.RootOf, FpuUnit.ClassMask, SignExtendWord, Signed,
      Signed32;
    ExtendReads(c.fprs[rs1]);
  }

  lemma FpRegisters(g: Gprs, f: Fprs, c: CoreState, r: FpResult, toGpr: bool, rd: Num)
    ensures var ws := FpWrites(c, r, toGpr, rd).regWrites;
            && GprsAfter(g, ws) == (if toGpr && rd != 0 then g[rd := r.value] else g)
            && FprsAfter(f, ws) == (if toGpr then f else f[rd := r.value % B32])
  {
    var d := if toGpr then X(rd, r.value) else F(rd, r.value);
    hide Bits, Value, Get;
    var fw := FlagWrites(c, r.flags);
    AfterAppend(g, f, fw, [d]);
    CsrWritesAside(g, f, fw);
    assert [d][1..] == [];
  }

  /** The flags of a result join fflags, and frm stays. */
  lemma FpFlags(c: CoreState, m: Image, insn: Insn, c1: CoreState, m1: Image, k: Commit)
    requires Sound(c) && StepOf(c, m, insn) == Committed(c1, m1, k) && FpResultOf(c, insn).Some?
    requires insn.OpFpInsn? || insn.FmaFpInsn?
    ensures Accrual.FlagBits(c1)
            == Accrual.Union(Accrual.FlagBits(c), Accrual.Widened(FpResultOf(c, insn).value.flags))
    ensures c1.csrs.fcsr / 32 == c.csrs.fcsr / 32
  {
    hide StepOf, Sound, FpResultOf, Accrual.FlagBits, Accrual.Union, Accrual.Widened;
    Accrual.CommitAccrues(c, m, insn, c1, m1, k);
    Accrual.NextKeepsMode(c, m, insn);
  }

  predicate FlagsJoined(before: u64, flags: bv32, after: u64) { Bits(after) == Bits(before) | (flags as bv64) }

  lemma JoinedFlags(before: u64, flags: bv32, after: u64)
    requires Bits(after) == Accrual.Union(Bits(before), Accrual.Widened(flags))
    ensures FlagsJoined(before, flags, after)
  {
    hide Bits;
  }

  /** The state after a floating-point result r: the destination, the flags and pc. */
  predicate Delivers(c: CoreState, c1: CoreState, toInteger: bool, rd: Num, r: FpResult) {
    && c1.pc == (c.pc + 4) % B64 && c1.priv == c.priv
    && c1.gprs == (if toInteger && rd != 0 then c.gprs[rd := r.value] else c.gprs)
    && c1.fprs == (if toInteger then c.fprs else c.fprs[rd := r.value % B32])
    && FlagsJoined(c.csrs.fcsr % 32, r.flags, c1.csrs.fcsr % 32)
    && c1.csrs.fcsr / 32 == c.csrs.fcsr / 32
    && c1.csrs == c.csrs.(fcsr := c1.csrs.fcsr,
                          mstatus := if toInteger && r.flags == 0 then c.csrs.mstatus else Marked(c.csrs.mstatus))
  }

  lemma Delivered(c: CoreState, c1: CoreState, toInteger: bool, rd: Num, r: FpResult)
    requires c1.pc == Wrap(c.pc + 4) && c1.priv == c.priv
    requires c1.gprs == (if toInteger && rd != 0 then c.gprs[rd := r.value] else c.gprs)
    requires c1.fprs == (if toInteger then c.fprs else c.fprs[rd := r.value % B32])
    requires Accrual.FlagBits(c1) == Accrual.Union(Accrual.FlagBits(c), Accrual.Widened(r.flags))
    requires c1.csrs.fcsr / 32 == c.csrs.fcsr / 32
    requires c1.csrs == c.csrs.(fcsr := c1.csrs.fcsr,
                                mstatus := if toInteger && r.flags == 0 then c.csrs.mstatus else Marked(c.csrs.mstatus))
    ensures Delivers(c, c1, toInteger, rd, r)
  {
    hide Bits, Accrual.Union, Accrual.Widened, FlagsJoined, Marked;
    JoinedFlags(c.csrs.fcsr % 32, r.flags, c1.csrs.fcsr % 32);
  }

  /** The CSRs after a floating-point result: fcsr and mstatus alone can change. */
  lemma FpCsrs(c: CoreState, m: Image, insn: Insn, c1: CoreState, m1: Image, k: Commit, r: FpResult, toGpr: bool)
    requires Sound(c) && StepOf(c, m, insn) == Committed(c1, m1, k)
    requires (insn.OpFpInsn? || insn.FmaFpInsn?) && Effects(c, m, insn) == FpWrites(c, r, toGpr, insn.rd)
    ensures c1.csrs == c.csrs.(fcsr := c1.csrs.fcsr,
                               mstatus := if toGpr && r.flags == 0 then c.csrs.mstatus else Marked(c.csrs.mstatus))
  {
    hide StepOf, Effects, Sound, Marked, Bits, Value, GprsAfter, FprsAfter;
    CommitUnfolds(c, m, insn, c1, m1, k);
    var ws := Effects(c, m, insn).regWrites;
    var d := if toGpr then X(insn.rd, r.value) else F(insn.rd, r.value);
    if r.flags == 0 && toGpr {
      assert ws == [d];
    } else {
      var w := if r.flags == 0 then d else ws[0];
      assert w in ws;
      EffectMarksDirty(c, m, insn, c1, m1, k, w);
      OnlyFpCsrs(c, m, insn, c1, m1, k);
    }
  }

  /** Registers other than fcsr and mstatus are not among the effects, so they stay. */
  lemma OnlyFpCsrs(c: CoreState, m: Image, insn: Insn, c1: CoreState, m1: Image, k: Commit)
    requires Sound(c) && StepOf(c, m, insn) == Committed(c1, m1, k)
    requires forall w :: w in Effects(c, m, insn).regWrites && w.C? ==> w.csr == Fflags
    ensures c1.csrs == c.csrs.(fcsr := c1.csrs.fcsr, mstatus := c1.csrs.mstatus)
  {
    hide Effects, Rewritten, ApplyAll, WriteAll, Accessible, Fetched;
    var r := Effects(c, m, insn);
    RewrittenFlags(c, r.regWrites);
    FlagWritesOnly(Advanced(c, r), Rewritten(c, r.regWrites));
  }

  lemma RewrittenFlags(c: CoreState, ws: seq<RegWrite>)
    requires forall w :: w in ws && w.C? ==> w.csr == Fflags
    ensures forall w :: w in Rewritten(c, ws) && w.C? ==> w.csr == Fflags || w.csr == Mstatus
  {
    hide DirtyStatus, Value, AnyFp;
    KeptFrom(ws);
    ExpandedFrom(WithoutZero(ws));
  }

  lemma {:induction false} FlagWritesOnly(c: CoreState, ws: seq<RegWrite>)
    requires ApplyAll(c, ws).Some? && forall w :: w in ws && w.C? ==> w.csr == Fflags || w.csr == Mstatus
    ensures var d := ApplyAll(c, ws).value.0.csrs; d == c.csrs.(fcsr := d.fcsr, mstatus := d.mstatus)
    decreases |ws|
  {
    hide NewStatus, Bits, Value, Fields.WithFlags, Fields.FlagsOf;
    if ws != [] {
      FlagWritesOnly(Apply(c, ws[0]).value.0, ws[1..]);
    }
  }

  lemma OpFpLands(c: CoreState, m: Image, insn: Insn, c1: CoreState, m1: Image, k: Commit)
    returns (mode: Mode, r: FpResult)
    requires insn.OpFpInsn? && Sound(c) && StepOf(c, m, insn) == Committed(c1, m1, k)
    ensures ModeIs(c, insn.rm, mode)
    ensures Performs(insn.fp, c.fprs[insn.rs1], c.fprs[insn.rs2], c.gprs[insn.rs1], mode, r)
    ensures Delivers(c, c1, ToInteger(insn.fp), insn.rd, r) && m1 == m
  {
    hide Complete, Sound, FpOf, Performs, Delivers, ToInteger, ToGpr, ModeIs, Resolved, FpWrites, GprsAfter, FprsAfter,
      Accrual.FlagBits, Accrual.Union, Accrual.Widened;
    ResolvedIs(c, insn.rm);
    mode := Resolved(c, insn.rm).value;
    r := FpOf(c, insn.fp, insn.rs1, insn.rs2, mode);
    FpOfPerforms(c, insn.fp, insn.rs1, insn.rs2, mode);
    FpCommits(c, m, insn, c1, m1, k, r, ToGpr(insn.fp));
  }

  lemma FmaLands(c: CoreState, m: Image, insn: Insn, c1: CoreState, m1: Image, k: Commit)
    returns (mode: Mode, r: FpResult)
    requires insn.FmaFpInsn? && Sound(c) && StepOf(c, m, insn) == Committed(c1, m1, k)
    ensures ModeIs(c, insn.rm, mode)
    ensures r == Fma.FusedOf(insn.fma, c.fprs[insn.rs1], c.fprs[insn.rs2], c.fprs[insn.rs3], mode)
    ensures Delivers(c, c1, false, insn.rd, r) && m1 == m
  {
    hide Complete, Sound, Fma.FusedOf, Delivers, ModeIs, Resolved, FpWrites, GprsAfter, FprsAfter,
      Accrual.FlagBits, Accrual.Union, Accrual.Widened;
    ResolvedIs(c, insn.rm);
    mode := Resolved(c, insn.rm).value;
    r := Fma.FusedOf(insn.fma, c.fprs[insn.rs1], c.fprs[insn.rs2], c.fprs[insn.rs3], mode);
    FpCommits(c, m, insn, c1, m1, k, r, false);
  }

  lemma FpCommits(c: CoreState, m: Image, insn: Insn, c1: CoreState, m1: Image, k: Commit, r: FpResult, toGpr: bool)
    requires Sound(c) && StepOf(c, m, insn) == Committed(c1, m1, k) && FpResultOf(c, insn) == Some(r)
    requires (insn.OpFpInsn? && toGpr == ToGpr(insn.fp)) || (insn.FmaFpInsn? && !toGpr)
    ensures Delivers(c, c1, toGpr, insn.rd, r) && m1 == m
  {
    hide StepOf, Sound, FpResultOf, Delivers, ToGpr, GprsAfter, FprsAfter, FlagWrites, Marked,
      Accrual.FlagBits, Accrual.Union, Accrual.Widened;
    CommitUnfolds(c, m, insn, c1, m1, k);
    FpRegisters(c.gprs, c.fprs, c, r, toGpr, insn.rd);
    FpFlags(c, m, insn, c1, m1, k);
    FpCsrs(c, m, insn, c1, m1, k, r, toGpr);
    Delivered(c, c1, toGpr, insn.rd, r);
  }

  // ---- When a step commits.

  predicate WordOp(op: OpType, s: nat) {
    match op
    case M(m) => m != MulDiv.Mulh && m != MulDiv.Mulhsu && m != MulDiv.Mulhu
    case Add => true
    case Sub => true
    case Sll => s < 32
    case Srl => s < 32
    case Sra => s < 32
    case _ => false
  }

  /** Whether nothing about the instruction itself keeps it from committing. */
  ghost predicate CanCommit(c: CoreState, m: Image, insn: Insn) {
    match insn
    case LoadInsn(access, _, _, _) => Accessible(m, AddressOf(c, insn), Bytes(access))
    case StoreInsn(access, _, _, _) =>
      access in {B, H, W, D} && Accessible(m, AddressOf(c, insn), Bytes(access))
    case LoadFpInsn(imm, rs1, _) => Accessible(m, (c.gprs[rs1] + imm) % B64, 4)
    case StoreFpInsn(imm, rs1, _) => Accessible(m, (c.gprs[rs1] + imm) % B64, 4)
    case OpImmInsn(op, _, _, _) => op != Sub && !op.M?
    case OpImm32Insn(op, imm, _, _) => op != Sub && !op.M? && WordOp(op, imm % 32)
    case Op32Insn(op, _, rs2, _) => WordOp(op, c.gprs[rs2] % 64)
    case SystemInsn(t, csr, _, _, _) =>
      t == Mret || (IsCsrInsn(t) && CsrOf(csr).Some? && !(csr == 0xf14 && CsrIsWritten(insn)))
    case OpFpInsn(_, rm, _, _, _) => exists mode :: ModeIs(c, rm, mode)
    case FmaFpInsn(_, rm, _, _, _, _) => exists mode :: ModeIs(c, rm, mode)
    case InvalidInsn => false
    case _ => true
  }

  lemma {:induction false} AppliesUnlessReadOnly(c: CoreState, ws: seq<RegWrite>)
    requires forall w :: w in ws && w.C? ==> w.csr != Mhartid
    ensures ApplyAll(c, ws).Some?
    decreases |ws|
  {
    hide NewStatus, Bits, Value;
    if ws != [] {
      assert ws[0] in ws;
      AppliesUnlessReadOnly(Apply(c, ws[0]).value.0, ws[1..]);
    }
  }

  lemma RewrittenWritable(c: CoreState, ws: seq<RegWrite>)
    requires forall w :: w in ws && w.C? ==> w.csr != Mhartid
    ensures forall w :: w in Rewritten(c, ws) && w.C? ==> w.csr != Mhartid
  {
    hide DirtyStatus, Value, AnyFp;
    KeptFrom(ws);
    ExpandedFrom(WithoutZero(ws));
  }

  /** The effects of an instruction that can commit: none throws, and the stores are inside the memory. */
  lemma EffectsCommit(c: CoreState, m: Image, insn: Insn)
    requires CanCommit(c, m, insn)
    ensures var r := Effects(c, m, insn);
            && r.NormalStep? && (forall w :: w in r.regWrites && w.C? ==> w.csr != Mhartid)
            && (r.memWrites == [] || (|r.memWrites| == 1 && Writable(m, r.memWrites[0])))
  {
    hide FpResultOf, FpWrites, Read, Alu, Get, Taken, Extended, NewCsrValue, Bits, Value, ModeIs;
    if insn.OpFpInsn? || insn.FmaFpInsn? {
      ResolvedIs(c, insn.rm);
      FpResultGiven(c, insn);
      FpWritesFlags(c, FpResultOf(c, insn).value, insn.OpFpInsn? && ToGpr(insn.fp), insn.rd);
    }
  }

  lemma FpResultGiven(c: CoreState, insn: Insn)
    requires insn.OpFpInsn? || insn.FmaFpInsn?
    ensures FpResultOf(c, insn).Some? <==> Resolved(c, insn.rm).Some?
  {
    hide FpOf, Fma.FusedOf;
  }

  lemma FpWritesFlags(c: CoreState, r: FpResult, toGpr: bool, rd: Num)
    ensures var w := FpWrites(c, r, toGpr, rd);
            w.NormalStep? && w.memWrites == [] && forall v :: v in w.regWrites && v.C? ==> v.csr == Fflags
  {
    hide Bits, Value, Get;
  }

  /** An instruction that cannot has effects that throw, write mhartid or leave the memory. */
  lemma EffectsStuck(c: CoreState, m: Image, insn: Insn)
    requires !CanCommit(c, m, insn)
    ensures var r := Effects(c, m, insn);
            r.NormalStep? ==>
              (|r.memWrites| == 1 && !Writable(m, r.memWrites[0]))
              || (insn.SystemInsn? && IsCsrInsn(insn.system) && CsrIsWritten(insn) && CsrOf(insn.csr) == Some(Mhartid))
  {
    hide FpResultOf, FpWrites, Read, Alu, Get, Taken, Extended, NewCsrValue, Bits, Value, ModeIs;
    if insn.OpFpInsn? || insn.FmaFpInsn? {
      ResolvedIs(c, insn.rm);
      FpResultGiven(c, insn);
    }
  }

  /** A step commits exactly when its own word can be fetched and nothing about the instruction keeps it from it. */
  lemma CommitsWhen(c: CoreState, m: Image, insn: Insn)
    requires Sound(c)
    ensures StepOf(c, m, insn).Committed? <==> Accessible(m, c.pc, 4) && CanCommit(c, m, insn)
  {
    hide Effects, Rewritten, ApplyAll, WriteAll, CanCommit, Accessible, Fetched, Sound, CsrIsWritten, CsrOf;
    var r := Effects(c, m, insn);
    if CanCommit(c, m, insn) {
      EffectsCommit(c, m, insn);
      RewrittenWritable(c, r.regWrites);
      AppliesUnlessReadOnly(Advanced(c, r), Rewritten(c, r.regWrites));
      AcceptsStore(m, r.memWrites);
    } else {
      EffectsStuck(c, m, insn);
      if StepOf(c, m, insn).Committed? {
        NoReadOnlyWrite(c, m, insn);
        RefusesStore(m, r.memWrites);
      }
    }
  }

  lemma AcceptsStore(m: Image, ws: seq<MemAccess>)
    requires ws == [] || (|ws| == 1 && Writable(m, ws[0]))
    ensures WriteAll(m, ws).Some?
  {
    hide Write, Accessible;
    if ws != [] {
      var m' := Write(m, ws[0].addr, ws[0].size, ws[0].value);
      var none: seq<MemAccess> := [];
      assert ws[1..] == none && WriteAll(m', none) == Some(m');
    }
  }

  lemma RefusesStore(m: Image, ws: seq<MemAccess>)
    ensures |ws| == 1 && !Writable(m, ws[0]) ==> WriteAll(m, ws).None?
  {
    hide Accessible;
  }

  lemma NoReadOnlyWrite(c: CoreState, m: Image, insn: Insn)
    requires Sound(c) && StepOf(c, m, insn).Committed?
    ensures !(insn.SystemInsn? && IsCsrInsn(insn.system) && CsrIsWritten(insn) && CsrOf(insn.csr) == Some(Mhartid))
  {
    hide StepOf, Sound, CsrOf, NewCsrValue;
    var o := StepOf(c, m, insn);
    if insn.SystemInsn? && IsCsrInsn(insn.system) && CsrIsWritten(insn) && CsrOf(insn.csr) == Some(Mhartid) {
      RoundTrips.CsrWriteLands(c, m, insn, o.core, o.mem, o.commit, Mhartid);
    }
  }
}
