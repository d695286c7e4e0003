/** What one instruction asks for: the execute overloads of src/execute.cpp. They read the core and the memory and
    change neither. */
module Execute {
  import opened Words
  import opened Ieee754
  import opened Csrs
  import opened Cpu
  import opened Ram
  import opened Instructions
  import MulDiv
  import FpuUnit
  import Fma
  import Sqrt
  import Convert

  datatype MemAccess = MemAccess(addr: u64, value: u64, size: nat)

  /** Effects to apply, an exception to take, or a thrown error. */
  datatype StepResult =
    | NormalStep(nextPc: Option<u64>, nextPriv: Option<Privilege>, regWrites: seq<RegWrite>,
             memReads: seq<MemAccess>, memWrites: seq<MemAccess>)
    | Exception(cause: u64, tval: u64)
    | Throw

  function Writes(regWrites: seq<RegWrite>): StepResult { NormalStep(None, None, regWrites, [], []) }

  // ---- Integer operations.

  function Flag(b: bool): u64 { if b then 1 else 0 }

  function BitXor(a: u64, b: u64): u64 { Value(Bits(a) ^ Bits(b)) }

  function BitAnd(a: u64, b: u64): u64 { Value(Bits(a) & Bits(b)) }

  function ShiftLeft(a: u64, shamt: nat): u64 { Wrap(a * Pow2(shamt)) }

  /** An arithmetic shift right: division rounding down. */
  function ShiftRightSigned(i: int, shamt: nat): u64 { Wrap(i / Pow2(shamt)) }

  function Alu(op: OpType, a: u64, b: u64): u64 {
    var shamt := b % 64;
    match op
    case Add => Wrap(a + b)
    case Sub => Wrap(a - b)
    case Sll => ShiftLeft(a, shamt)
    case Slt => Flag(Signed(a) < Signed(b))
    case Sltu => Flag(a < b)
    case Xor => BitXor(a, b)
    case Srl => Shr(a, shamt)
    case Sra => ShiftRightSigned(Signed(a), shamt)
    case Or => BitOr(a, b)
    case And => BitAnd(a, b)
    case M(m) => MulDiv.Execute(m, a, b)
  }

  /** The word forms. A shift by 32 or more has no defined result in the source. */
  function AluWord(op: OpType, a: u32, b: u32, shamt: nat): Option<u64> {
    match op
    case Add => Some(SignExtendWord(Wrap32(a + b)))
    case Sub => Some(SignExtendWord(Wrap32(a - b)))
    case Sll => if shamt < 32 then Some(SignExtendWord(Wrap32(a * Pow2(shamt)))) else None
    case Srl => if shamt < 32 then Some(SignExtendWord(Shr(a, shamt))) else None
    case Sra => if shamt < 32 then Some(ShiftRightSigned(Signed32(a), shamt)) else None
    case M(m) =>
      if m == MulDiv.Mulh || m == MulDiv.Mulhsu || m == MulDiv.Mulhu then None
      else Some(MulDiv.ExecuteWord(m, a, b))
    case _ => None
  }

  function Taken(branch: BranchType, a: u64, b: u64): bool {
    match branch
    case Eq => a == b
    case Ne => a != b
    case Lt => Signed(a) < Signed(b)
    case Ge => Signed(a) >= Signed(b)
    case Ltu => a < b
    case Geu => a >= b
  }

  // ---- Loads and stores.

  function SizeOf(access: MemAccessType): (n: nat)
    ensures Width(n)
  {
    match access
    case B => 1
    case Bu => 1
    case H => 2
    case Hu => 2
    case W => 4
    case Wu => 4
    case D => 8
  }

  predicate IsUnsigned(access: MemAccessType) { access.Bu? || access.Hu? || access.Wu? }

  /** The register value of loaded bytes. */
  function Extended(access: MemAccessType, raw: u64): (v: u64)
    requires raw < Base(SizeOf(access))
  {
    BaseOfWidth();
    var top := Base(SizeOf(access));
    if !IsUnsigned(access) && raw >= top / 2 then raw + (B64 - top) else raw
  }

  function LoadOf(m: Image, access: MemAccessType, addr: u64, rd: Num): StepResult {
    if addr % SizeOf(access) != 0 then Exception(4, addr)
    else if !Accessible(m, addr, SizeOf(access)) then Throw
    else
      var data := Extended(access, Read(m, addr, SizeOf(access)));
      NormalStep(None, None, [X(rd, data)], [MemAccess(addr, data, SizeOf(access))], [])
  }

  function StoreOf(access: MemAccessType, addr: u64, value: u64): StepResult {
    if addr % SizeOf(access) != 0 then Exception(6, addr)
    else if IsUnsigned(access) then Throw
    else NormalStep(None, None, [], [], [MemAccess(addr, value % Base(SizeOf(access)), SizeOf(access))])
  }

  function LoadFpOf(m: Image, addr: u64, rd: Num): StepResult {
    if !Accessible(m, addr, 4) then Throw
    else
      var data := Read(m, addr, 4);
      NormalStep(None, None, [F(rd, data)], [MemAccess(addr, data, 4)], [])
  }

  // ---- System instructions.

  /** Whether a CSR instruction writes: the set and clear forms do not when their operand is x0 or zero. */
  predicate WritesCsr(t: SystemInsnType, rs1: Num, uimm: Num) {
    match t
    case Csrrw => true
    case Csrrwi => true
    case Csrrs => rs1 != 0
    case Csrrc => rs1 != 0
    case Csrrsi => uimm != 0
    case Csrrci => uimm != 0
    case _ => false
  }

  function NewCsrValue(t: SystemInsnType, before: u64, value: u64, uimm: Num): u64 {
    match t
    case Csrrs => BitOr(before, value)
    case Csrrc => BitAndNot(before, value)
    case Csrrwi => uimm
    case Csrrsi => BitOr(before, uimm)
    case Csrrci => BitAndNotWord(before, uimm)
    case _ => value
  }

  function CsrInsn(c: CoreState, t: SystemInsnType, number: nat, rs1: Num, uimm: Num, rd: Num): StepResult {
    match CsrOf(number)
    case None => Exception(2, 0)
    case Some(csr) =>
      var before := Get(c.csrs, csr);
      var read := X(rd, before);
      if WritesCsr(t, rs1, uimm)
      then Writes([read, C(csr, NewCsrValue(t, before, c.gprs[rs1], uimm))])
      else Writes([read])
  }

  function SystemOf(c: CoreState, t: SystemInsnType, number: nat, rs1: Num, uimm: Num, rd: Num): StepResult {
    if IsCsrInsn(t) then CsrInsn(c, t, number, rs1, uimm, rd)
    else if t.Mret? then
      NormalStep(Some(c.csrs.mepc), Some(SavedPrivilege(c.csrs.mstatus)),
             [C(Mstatus, Value(ReturnStatus(c.csrs.mstatus)))], [], [])
    else if t.Ecall? then
      if c.priv == USER then Exception(8, 0) else if c.priv == MACHINE then Exception(11, 0) else Throw
    else Throw
  }

  // ---- Floating point.

  function ModeNumbered(n: nat): Option<Mode> {
    match n
    case 0 => Some(Rne)
    case 1 => Some(Rtz)
    case 2 => Some(Rdn)
    case 3 => Some(Rup)
    case 4 => Some(Rmm)
    case _ => None
  }

  function Resolved(c: CoreState, rm: RoundingMode): Option<Mode> {
    match rm
    case Static(mode) => Some(mode)
    case Dynamic => ModeNumbered(Get(c.csrs, Frm))
  }

  /** Results that go to an integer register. */
  predicate ToGpr(op: FpuUnit.OpFpType) {
    FpuUnit.IsComparison(op) || FpuUnit.IsToInteger(op) || op.Class? || op.MoveToX?
  }

  ghost function FpOf(c: CoreState, op: FpuUnit.OpFpType, rs1: Num, rs2: Num, rm: Mode): FpResult {
    var a := c.fprs[rs1];
    if FpuUnit.IsBinary(op) then FpuUnit.BinaryOf(op, a, c.fprs[rs2], rm)
    else if FpuUnit.IsToInteger(op) then Convert.IntegerFrom(FpuUnit.IntTypeOf(op), a, rm)
    else if FpuUnit.IsFromInteger(op) then Convert.FloatOf(FpuUnit.IntTypeOf(op), c.gprs[rs1], rm)
    else if op.Sqrt? then Sqrt.RootOf(a, rm)
    else if op.Class? then FpResult(FpuUnit.ClassMask(a), 0)
    else if op.MoveToX? then FpResult(SignExtendWord(a), 0)
    else FpResult(c.gprs[rs1] % B32, 0)
  }

  /** Accumulates the flags of a result into fflags, when there are any. */
  function FlagWrites(c: CoreState, flags: bv32): seq<RegWrite> {
    if flags == 0 then [] else [C(Fflags, Value(Bits(Get(c.csrs, Fflags)) | (flags as bv64)))]
  }

  function FpWrites(c: CoreState, r: FpResult, toGpr: bool, rd: Num): StepResult {
    Writes(FlagWrites(c, r.flags) + [if toGpr then X(rd, r.value) else F(rd, r.value)])
  }

  /** The result of the floating-point operation an instruction performs, when it performs one. */
  ghost function FpResultOf(c: CoreState, insn: Insn): Option<FpResult> {
    match insn
    case OpFpInsn(op, rm, rs1, rs2, _) =>
      if Resolved(c, rm).Some? then Some(FpOf(c, op, rs1, rs2, Resolved(c, rm).value)) else None
    case FmaFpInsn(op, rm, rs1, rs2, rs3, _) =>
      if Resolved(c, rm).Some?
      then Some(Fma.FusedOf(op, c.fprs[rs1], c.fprs[rs2], c.fprs[rs3], Resolved(c, rm).value))
      else None
    case _ => None
  }

  // ---- All instructions.

  /** The overloads that touch neither memory nor the floating-point unit. */
  function ExecuteInteger(c: CoreState, insn: Insn): StepResult {
    match insn
    case LuiInsn(imm, rd) => Writes([X(rd, Wrap(imm))])
    case AuipcInsn(imm, rd) => Writes([X(rd, Wrap(c.pc + imm))])
    case JalInsn(imm, rd) => NormalStep(Some(Wrap(c.pc + imm)), None, [X(rd, Wrap(c.pc + 4))], [], [])
    case JalrInsn(imm, rs1, rd) => NormalStep(Some(Wrap(c.gprs[rs1] + imm)), None, [X(rd, Wrap(c.pc + 4))], [], [])
    case BranchInsn(branch, imm, rs1, rs2) =>
      if Taken(branch, c.gprs[rs1], c.gprs[rs2]) then NormalStep(Some(Wrap(c.pc + imm)), None, [], [], [])
      else Writes([])
    case StoreInsn(access, imm, rs1, rs2) => StoreOf(access, Wrap(c.gprs[rs1] + imm), c.gprs[rs2])
    case OpImmInsn(op, imm, rs1, rd) =>
      if op.Sub? || op.M? then Throw else Writes([X(rd, Alu(op, c.gprs[rs1], Wrap(imm)))])
    case OpInsn(op, rs1, rs2, rd) => Writes([X(rd, Alu(op, c.gprs[rs1], c.gprs[rs2]))])
    case MiscMemInsn => Writes([])
    case SystemInsn(t, csr, rs1, uimm, rd) => SystemOf(c, t, csr, rs1, uimm, rd)
    case OpImm32Insn(op, imm, rs1, rd) =>
      if op.Sub? || op.M? then Throw
      else WordResult(AluWord(op, c.gprs[rs1] % B32, Wrap32(imm), imm % 32), rd)
    case Op32Insn(op, rs1, rs2, rd) =>
      WordResult(AluWord(op, c.gprs[rs1] % B32, c.gprs[rs2] % B32, c.gprs[rs2] % 64), rd)
    case StoreFpInsn(imm, rs1, rs2) =>
      NormalStep(None, None, [], [], [MemAccess(Wrap(c.gprs[rs1] + imm), c.fprs[rs2], 4)])
    case _ => Throw
  }

  function WordResult(value: Option<u64>, rd: Num): StepResult {
    match value
    case None => Throw
    case Some(v) => Writes([X(rd, v)])
  }

  ghost function Effects(c: CoreState, m: Image, insn: Insn): StepResult {
    match insn
    case LoadInsn(access, imm, rs1, rd) => LoadOf(m, access, Wrap(c.gprs[rs1] + imm), rd)
    case LoadFpInsn(imm, rs1, rd) => LoadFpOf(m, Wrap(c.gprs[rs1] + imm), rd)
    case OpFpInsn(op, _, _, _, rd) =>
      if FpResultOf(c, insn).None? then Throw else FpWrites(c, FpResultOf(c, insn).value, ToGpr(op), rd)
    case FmaFpInsn(_, _, _, _, _, rd) =>
      if FpResultOf(c, insn).None? then Throw else FpWrites(c, FpResultOf(c, insn).value, false, rd)
    case _ => ExecuteInteger(c, insn)
  }

  method ExecuteLoad(core: Core, mem: Memory, access: MemAccessType, imm: i64, rs1: Num, rd: Num)
    returns (r: StepResult)
    requires mem.base % 8 == 0
    ensures r == LoadOf(mem.Contents(), access, Wrap(core.gprs[rs1] + imm), rd)
  {
    var addr := Wrap(core.gprs[rs1] + imm);
    if addr % SizeOf(access) != 0 {
      return Exception(4, addr);
    }
    if Offset(mem.base, addr) + SizeOf(access) > mem.data.Length {
      return Throw;
    }
    var raw := mem.Get(addr, SizeOf(access));
    var data := Extended(access, raw);
    r := NormalStep(None, None, [X(rd, data)], [MemAccess(addr, data, SizeOf(access))], []);
  }

  method ExecuteLoadFp(core: Core, mem: Memory, imm: i64, rs1: Num, rd: Num) returns (r: StepResult)
    requires mem.base % 8 == 0
    ensures r == LoadFpOf(mem.Contents(), Wrap(core.gprs[rs1] + imm), rd)
  {
    var addr := Wrap(core.gprs[rs1] + imm);
    if addr % 4 != 0 || Offset(mem.base, addr) + 4 > mem.data.Length {
      return Throw;
    }
    var data := mem.Get(addr, 4);
    r := NormalStep(None, None, [F(rd, data)], [MemAccess(addr, data, 4)], []);
  }

  method ExecuteOpFp(core: Core, op: FpuUnit.OpFpType, rs1: Num, rs2: Num, rm: Mode) returns (r: FpResult)
    ensures r == FpOf(core.State(), op, rs1, rs2, rm)
  {
    hide FpuUnit.BinaryOf, Convert.IntegerFrom, Convert.FloatOf, Sqrt.RootOf, FpuUnit.ClassMask, SignExtendWord;
    var a := core.fprs[rs1];
    if FpuUnit.IsBinary(op) {
      r := FpuUnit.Binary(op, a, core.fprs[rs2], rm);
    } else if FpuUnit.IsToInteger(op) {
      r := Convert.FloatToInteger(FpuUnit.IntTypeOf(op), a, rm);
    } else if FpuUnit.IsFromInteger(op) {
      r := Convert.IntegerToFloat(FpuUnit.IntTypeOf(op), core.gprs[rs1], rm);
    } else if op.Sqrt? {
      r := Sqrt.SquareRoot(a, rm);
    } else if op.Class? {
      r := FpResult(FpuUnit.ClassMask(a), 0);
    } else if op.MoveToX? {
      r := FpResult(SignExtendWord(a), 0);
    } else {
      r := FpResult(core.gprs[rs1] % B32, 0);
    }
  }

  /** Runs the overload of an instruction. */
  method Dispatch(core: Core, mem: Memory, insn: Insn) returns (r: StepResult)
    requires mem.base % 8 == 0
    ensures r == Effects(core.State(), mem.Contents(), insn)
  {
    hide FpOf, Fma.FusedOf, FpWrites, ExecuteInteger, LoadOf, LoadFpOf;
    match insn {
      case LoadInsn(access, imm, rs1, rd) => r := ExecuteLoad(core, mem, access, imm, rs1, rd);
      case LoadFpInsn(imm, rs1, rd) => r := ExecuteLoadFp(core, mem, imm, rs1, rd);
      case OpFpInsn(op, rm, rs1, rs2, rd) =>
        var mode := Resolved(core.State(), rm);
        if mode.None? {
          return Throw;
        }
        var result := ExecuteOpFp(core, op, rs1, rs2, mode.value);
        r := FpWrites(core.State(), result, ToGpr(op), rd);
      case FmaFpInsn(op, rm, rs1, rs2, rs3, rd) =>
        var mode := Resolved(core.State(), rm);
        if mode.None? {
          return Throw;
        }
        var result := Fma.FusedMultiplyAdd(op, core.fprs[rs1], core.fprs[rs2], core.fprs[rs3], mode.value);
        r := FpWrites(core.State(), result, false, rd);
      case _ => r := ExecuteInteger(core.State(), insn);
    }
  }
}
