/** Decoded instructions (include/decode.h). */
module Instructions {
  import opened Words
  import Ieee754
  import FpuUnit
  import Fma
  import MulDiv
  import Cpu

  type Num = Cpu.Num

  datatype BranchType = Eq | Ne | Lt | Ge | Ltu | Geu

  datatype MemAccessType = B | H | W | D | Bu | Hu | Wu

  datatype OpType = Add | Sub | Sll | Slt | Sltu | Xor | Srl | Sra | Or | And | M(op: MulDiv.MulDivOp)

  datatype SystemInsnType = Ecall | Ebreak | Csrrw | Csrrs | Csrrc | Csrrwi | Csrrsi | Csrrci | Mret

  datatype RoundingMode = Static(mode: Ieee754.Mode) | Dynamic

  datatype Insn =
    | LuiInsn(imm: i64, rd: Num)
    | AuipcInsn(imm: i64, rd: Num)
    | JalInsn(imm: i64, rd: Num)
    | JalrInsn(imm: i64, rs1: Num, rd: Num)
    | BranchInsn(branch: BranchType, imm: i64, rs1: Num, rs2: Num)
    | LoadInsn(access: MemAccessType, imm: i64, rs1: Num, rd: Num)
    | StoreInsn(access: MemAccessType, imm: i64, rs1: Num, rs2: Num)
    | OpImmInsn(op: OpType, imm: i64, rs1: Num, rd: Num)
    | OpInsn(op: OpType, rs1: Num, rs2: Num, rd: Num)
    | MiscMemInsn
    | SystemInsn(system: SystemInsnType, csr: nat, rs1: Num, uimm: Num, rd: Num)
    | OpImm32Insn(op: OpType, imm: i64, rs1: Num, rd: Num)
    | Op32Insn(op: OpType, rs1: Num, rs2: Num, rd: Num)
    | LoadFpInsn(imm: i64, rs1: Num, rd: Num)
    | StoreFpInsn(imm: i64, rs1: Num, rs2: Num)
    | OpFpInsn(fp: FpuUnit.OpFpType, rm: RoundingMode, rs1: Num, rs2: Num, rd: Num)
    | FmaFpInsn(fma: Fma.FmaFpType, rm: RoundingMode, rs1: Num, rs2: Num, rs3: Num, rd: Num)
    | InvalidInsn

  predicate IsCsrInsn(t: SystemInsnType) {
    t.Csrrw? || t.Csrrs? || t.Csrrc? || t.Csrrwi? || t.Csrrsi? || t.Csrrci?
  }
}
