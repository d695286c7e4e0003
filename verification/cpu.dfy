/** The architectural state of one hart and its setters (src/cpu.cpp). */
module Cpu {
  import opened Words
  import opened Csrs

  type Privilege = bv2

  const USER: Privilege := 0
  const MACHINE: Privilege := 3

  type Num = n: nat | n < 32
  type Gprs = s: seq<u64> | |s| == 32 witness seq(32, _ => 0)
  type Fprs = s: seq<u32> | |s| == 32 witness seq(32, _ => 0)

  datatype CoreState = CoreState(pc: u64, priv: Privilege, gprs: Gprs, fprs: Fprs, csrs: File)

  /** An effect on a register. X and F name a register of 32; the F register takes the low half of the value. */
  datatype RegWrite = X(num: Num, value: u64) | F(num: Num, value: u64) | C(csr: Csr, value: u64)

  /** A register as an observer names it. */
  datatype Reg = GprOf(num: Num) | FprOf(num: Num) | CsrReg(csr: Csr)

  function Target(w: RegWrite): Reg {
    match w
    case X(num, _) => GprOf(num)
    case F(num, _) => FprOf(num)
    case C(csr, _) => CsrReg(csr)
  }

  function ReadReg(c: CoreState, r: Reg): u64 {
    match r
    case GprOf(num) => c.gprs[num]
    case FprOf(num) => c.fprs[num]
    case CsrReg(csr) => Get(c.csrs, csr)
  }

  /** What the setters do with one effect, and the effect as it is logged. Writing the read-only register throws. */
  function Apply(c: CoreState, w: RegWrite): Option<(CoreState, RegWrite)> {
    match w
    case X(num, value) => Some((if num == 0 then c else c.(gprs := c.gprs[num := value]), w))
    case F(num, value) => Some((c.(fprs := c.fprs[num := value % B32]), w))
    case C(csr, value) =>
      match Set(c.csrs, csr, value)
      case None => None
      case Some(p) => Some((c.(csrs := p.0), C(csr, p.1)))
  }

  // ---- Traps and returns.

  /** MPIE takes MIE. */
  function Stacked(status: bv64): bv64 {
    if status & MIE != 0 then status | MPIE else status & !MPIE
  }

  /** MIE is cleared and MPP takes the privilege. */
  function Entered(status: bv64, priv: Privilege): bv64 {
    (status & !MIE & !MPP) | ((priv as bv64) << 11)
  }

  /** The status word a trap from priv writes. */
  function TrapStatus(status: bv64, priv: Privilege): bv64 {
    Entered(Summarised(Stacked(status)), priv)
  }

  function SavedPrivilege(status: bv64): Privilege { ((status & MPP) >> 11) as bv2 }

  /** The status word a return writes: MIE takes MPIE back. */
  function ReturnStatus(status: bv64): bv64 {
    var restored := if status & MPIE != 0 then status | MIE else status & !MIE;
    var popped := (restored | MPIE) & !MPP;
    if SavedPrivilege(status) != MACHINE then popped & !MPRV else popped
  }

  /** The state after an exception: four CSR writes, then the jump to the handler. */
  function Trap(c: CoreState, cause: u64, tval: u64): CoreState {
    var f1 := Set(c.csrs, Mcause, cause).value.0;
    var f2 := Set(f1, Mtval, tval).value.0;
    var f3 := Set(f2, Mepc, c.pc).value.0;
    var f4 := Set(f3, Mstatus, Value(TrapStatus(c.csrs.mstatus, c.priv))).value.0;
    c.(csrs := f4, pc := Fields.WordAligned(Get(f4, Mtvec)), priv := MACHINE)
  }

  function ResetState(pc: u64): CoreState {
    CoreState(pc, MACHINE, seq(32, _ => 0), seq(32, _ => 0), Reset())
  }

  /** The status word that a write of value leaves: SD is cleared, then set again when FS is dirty. */
  method WrittenStatus(status: bv64, value: bv64) returns (r: bv64)
    ensures r == NewStatus(status, value)
  {
    hide Summarised, Merged;
    r := Merged(status, value & WRITABLE);
    SummarisedStepwise(r);
    r := r & !SD;
    if r & FS == FS_DIRTY {
      r := r | SD;
    }
  }

  lemma SummarisedStepwise(status: bv64)
    ensures Summarised(status) == if status & !SD & FS == FS_DIRTY then (status & !SD) | SD else status & !SD
  {
  }

  class Core {
    var pc: u64
    var priv: Privilege
    var gprs: Gprs
    var fprs: Fprs
    var csrs: File

    function State(): CoreState
      reads this
    {
      CoreState(pc, priv, gprs, fprs, csrs)
    }

    constructor (initPc: u64)
      ensures State() == ResetState(initPc)
    {
      pc, priv := initPc, MACHINE;
      gprs, fprs := seq(32, _ => 0), seq(32, _ => 0);
      csrs := Reset();
    }

    method SetGpr(num: Num, value: u64)
      modifies this
      ensures Apply(old(State()), X(num, value)) == Some((State(), X(num, value)))
    {
      if num == 0 {
        return;
      }
      gprs := gprs[num := value];
    }

    method SetFpr(num: Num, value: u64)
      modifies this
      ensures Apply(old(State()), F(num, value)) == Some((State(), F(num, value)))
    {
      fprs := fprs[num := value % B32];
    }

    /** Writes a register and returns the value kept, or nothing where the source throws. */
    method SetCsr(csr: Csr, value: u64) returns (kept: Option<u64>)
      modifies this
      ensures match Apply(old(State()), C(csr, value))
              case None => kept == None && State() == old(State())
              case Some(p) => kept == Some(p.1.value) && State() == p.0
    {
      hide NewStatus, Bits, Value, Fields.WithFlags, Fields.WithMode, Fields.FlagsOf, Fields.ModeOf;
      match csr {
        case Fflags =>
          var fcsr := Fields.WithFlags(csrs.fcsr, value);
          csrs := csrs.(fcsr := fcsr);
          kept := Some(Fields.FlagsOf(fcsr));
        case Frm =>
          var fcsr := Fields.WithMode(csrs.fcsr, value);
          csrs := csrs.(fcsr := fcsr);
          kept := Some(Fields.ModeOf(fcsr) % 8);
        case Fcsr =>
          csrs := csrs.(fcsr := Fields.Byte(value));
          kept := Some(csrs.fcsr);
        case Mstatus =>
          var status := WrittenStatus(csrs.mstatus, Bits(value));
          csrs := csrs.(mstatus := status);
          kept := Some(Value(status));
        case Mepc =>
          csrs := csrs.(mepc := Fields.WordAligned(value));
          kept := Some(csrs.mepc);
        case Mtvec =>
          csrs := csrs.(mtvec := Fields.WordAligned(value));
          kept := Some(csrs.mtvec);
        case Mie => csrs, kept := csrs.(mie := value), Some(value);
        case Mscratch => csrs, kept := csrs.(mscratch := value), Some(value);
        case Mcause => csrs, kept := csrs.(mcause := value), Some(value);
        case Mtval => csrs, kept := csrs.(mtval := value), Some(value);
        case Pmpcfg0 => csrs, kept := csrs.(pmpcfg0 := value), Some(value);
        case Pmpaddr0 => csrs, kept := csrs.(pmpaddr0 := value), Some(value);
        case Mhartid => kept := None;
      }
    }

    method TakeException(cause: u64, tval: u64)
      modifies this
      ensures State() == Trap(old(State()), cause, tval)
    {
      hide Stacked, Summarised, Entered, NewStatus, Bits, Value, Fields.WordAligned;
      var status := Stacked(csrs.mstatus);
      status := Summarised(status);
      status := Entered(status, priv);
      var _ := SetCsr(Mcause, cause);
      var _ := SetCsr(Mtval, tval);
      var _ := SetCsr(Mepc, pc);
      var _ := SetCsr(Mstatus, Value(status));
      pc := Fields.WordAligned(Get(csrs, Mtvec));
      priv := MACHINE;
    }
  }
}
