/** The control and status registers of the core (get_csr, set_csr and has_csr of src/cpu.cpp). */
module Csrs {
  import opened Words
  import opened Fields

  datatype Csr =
    | Fflags | Frm | Fcsr | Mstatus | Mie | Mtvec | Mscratch | Mepc | Mcause | Mtval
    | Pmpcfg0 | Pmpaddr0 | Mhartid

  datatype Option<+T> = None | Some(value: T)

  function Number(c: Csr): (n: nat)
    ensures n < 4096
  {
    match c
    case Fflags => 0x001
    case Frm => 0x002
    case Fcsr => 0x003
    case Mstatus => 0x300
    case Mie => 0x304
    case Mtvec => 0x305
    case Mscratch => 0x340
    case Mepc => 0x341
    case Mcause => 0x342
    case Mtval => 0x343
    case Pmpcfg0 => 0x3a0
    case Pmpaddr0 => 0x3b0
    case Mhartid => 0xf14
  }

  /** The supported register a number names, if any. */
  function CsrOf(number: nat): (c: Option<Csr>)
    ensures c.Some? ==> Number(c.value) == number
    ensures c.None? ==> forall d :: Number(d) != number
  {
    if number == 0x001 then Some(Fflags)
    else if number == 0x002 then Some(Frm)
    else if number == 0x003 then Some(Fcsr)
    else if number == 0x300 then Some(Mstatus)
    else if number == 0x304 then Some(Mie)
    else if number == 0x305 then Some(Mtvec)
    else if number == 0x340 then Some(Mscratch)
    else if number == 0x341 then Some(Mepc)
    else if number == 0x342 then Some(Mcause)
    else if number == 0x343 then Some(Mtval)
    else if number == 0x3a0 then Some(Pmpcfg0)
    else if number == 0x3b0 then Some(Pmpaddr0)
    else if number == 0xf14 then Some(Mhartid)
    else None
  }

  // ---- Bit operations on register values.

  function Bits(v: u64): bv64 { v as bv64 }

  function Value(b: bv64): u64 { b as nat }

  lemma ValueBits(b: bv64)
    ensures Bits(Value(b)) == b
  {
  }

  function BitOr(a: u64, b: u64): u64 { Value(Bits(a) | Bits(b)) }

  function BitAndNot(a: u64, b: u64): u64 { Value(Bits(a) & !Bits(b)) }

  function WordBits(b: u32): bv32 { b as bv32 }

  /** a & ~b for a 32-bit b, whose complement is widened with zeros: the high half of a goes too. */
  function WithoutWord(a: bv64, b: bv32): bv64 { a & (!b as bv64) }

  function BitAndNotWord(a: u64, b: u32): u64 { Value(WithoutWord(Bits(a), WordBits(b))) }

  const MIE: bv64 := 0x8
  const MPIE: bv64 := 0x80
  const MPP: bv64 := 0x1800
  const MPRV: bv64 := 0x2_0000
  const UXL: bv64 := 0x3_0000_0000
  const UXL_RV64: bv64 := 0x2_0000_0000
  const FS: bv64 := 0x6000
  const FS_DIRTY: bv64 := 0x6000
  const SD: bv64 := 0x8000_0000_0000_0000
  const WRITABLE: bv64 := MIE | MPIE | MPP | FS | MPRV

  /** The slots of the register array that the core reads or writes. */
  datatype File = File(fcsr: u64, mstatus: bv64, mie: u64, mtvec: u64, mscratch: u64, mepc: u64,
                       mcause: u64, mtval: u64, pmpcfg0: u64, pmpaddr0: u64, mhartid: u64)

  // ---- The status word.

  /** SD summarises FS. */
  function Summarised(status: bv64): bv64 {
    if status & FS == FS_DIRTY then status | SD else status & !SD
  }

  /** The status word with its writable bits replaced. */
  function Merged(status: bv64, writable: bv64): bv64 {
    (status & !WRITABLE) | writable
  }

  /** The status word a write of value leaves. */
  function NewStatus(status: bv64, value: bv64): bv64 {
    Summarised(Merged(status, value & WRITABLE))
  }

  predicate IsDirty(status: bv64) { status & FS == FS_DIRTY }

  predicate StatusOk(status: bv64) {
    status & UXL == UXL_RV64 && (status & SD != 0 <==> IsDirty(status))
  }

  // ---- Reads and writes.

  function Get(f: File, c: Csr): u64 {
    match c
    case Fflags => FlagsOf(f.fcsr)
    case Frm => ModeOf(f.fcsr)
    case Fcsr => f.fcsr
    case Mstatus => Value(f.mstatus)
    case Mie => f.mie
    case Mtvec => f.mtvec
    case Mscratch => f.mscratch
    case Mepc => f.mepc
    case Mcause => f.mcause
    case Mtval => f.mtval
    case Pmpcfg0 => f.pmpcfg0
    case Pmpaddr0 => f.pmpaddr0
    case Mhartid => f.mhartid
  }

  /** A write: the new file and the canonical value kept. The read-only register throws. */
  function Set(f: File, c: Csr, value: u64): Option<(File, u64)> {
    match c
    case Fflags =>
      var fcsr := WithFlags(f.fcsr, value);
      Some((f.(fcsr := fcsr), FlagsOf(fcsr)))
    case Frm =>
      var fcsr := WithMode(f.fcsr, value);
      Some((f.(fcsr := fcsr), ModeOf(fcsr) % 8))
    case Fcsr => Some((f.(fcsr := Byte(value)), Byte(value)))
    case Mstatus =>
      var status := NewStatus(f.mstatus, Bits(value));
      Some((f.(mstatus := status), Value(status)))
    case Mepc => Some((f.(mepc := WordAligned(value)), WordAligned(value)))
    case Mtvec => Some((f.(mtvec := WordAligned(value)), WordAligned(value)))
    case Mie => Some((f.(mie := value), value))
    case Mscratch => Some((f.(mscratch := value), value))
    case Mcause => Some((f.(mcause := value), value))
    case Mtval => Some((f.(mtval := value), value))
    case Pmpcfg0 => Some((f.(pmpcfg0 := value), value))
    case Pmpaddr0 => Some((f.(pmpaddr0 := value), value))
    case Mhartid => None
  }

  /** What every reachable file satisfies. */
  predicate Canonical(f: File) {
    f.fcsr <= 0xff && f.mepc % 4 == 0 && f.mtvec % 4 == 0 && StatusOk(f.mstatus)
  }

  function Reset(): File {
    File(0, UXL_RV64, 0, 0, 0, 0, 0, 0, 0, 0, 0)
  }

  lemma ResetIsCanonical()
    ensures Canonical(Reset())
  {
  }

  lemma StatusKeeps(status: bv64, value: bv64)
    requires StatusOk(status)
    ensures StatusOk(NewStatus(status, value))
  {
  }

  lemma StatusReplays(status: bv64, value: bv64)
    ensures NewStatus(status, NewStatus(status, value)) == NewStatus(status, value)
  {
    hide NewStatus;
    WritableKept(status, value);
    OnlyWritable(status, NewStatus(status, value), value);
  }

  lemma WritableKept(status: bv64, value: bv64)
    ensures NewStatus(status, value) & WRITABLE == value & WRITABLE
  {
  }

  /** A write depends only on the writable bits of the value. */
  lemma OnlyWritable(status: bv64, v: bv64, w: bv64)
    requires v & WRITABLE == w & WRITABLE
    ensures NewStatus(status, v) == NewStatus(status, w)
  {
    hide Summarised, Merged;
  }

  // ---- What writes keep, return and leave alone.

  /** Every write keeps the file canonical. */
  lemma SetKeepsCanonical(f: File, c: Csr, value: u64)
    requires Canonical(f)
    ensures Set(f, c, value).Some? ==> Canonical(Set(f, c, value).value.0)
  {
    hide NewStatus, StatusOk, Bits, Value, WithFlags, WithMode, FlagsOf, ModeOf, Byte, WordAligned;
    StatusKeeps(f.mstatus, Bits(value));
    FieldsFit(f.fcsr, value);
  }

  /** A write returns what a read then finds. */
  lemma SetReadsBack(f: File, c: Csr, value: u64)
    requires Canonical(f)
    ensures Set(f, c, value).Some? ==> Get(Set(f, c, value).value.0, c) == Set(f, c, value).value.1
  {
    hide NewStatus, StatusOk, Bits, Value;
  }

  /** Writing the canonical value instead leaves the same file: logs replay. */
  lemma SetReplays(f: File, c: Csr, value: u64)
    requires Canonical(f)
    requires Set(f, c, value).Some?
    ensures Set(f, c, Set(f, c, value).value.1) == Set(f, c, value)
  {
    hide NewStatus, StatusOk, Bits, Value, FlagsOf, ModeOf, WithFlags, WithMode, Byte, WordAligned;
    if c == Mstatus {
      StatusReplays(f.mstatus, Bits(value));
      ValueBits(NewStatus(f.mstatus, Bits(value)));
    } else {
      ReplayFlags(f.fcsr, value);
      ReplayMode(f.fcsr, value);
      ReplayTruncations(value);
    }
  }

  /** fflags and frm are disjoint views of fcsr; no other registers share bits. */
  predicate Overlaps(c: Csr, d: Csr) {
    c == d || (c == Fcsr && (d == Fflags || d == Frm)) || (d == Fcsr && (c == Fflags || c == Frm))
  }

  /** A write leaves every register that shares no bits with its own alone. */
  lemma SetFrames(f: File, c: Csr, value: u64, d: Csr)
    requires Canonical(f) && !Overlaps(c, d)
    ensures Set(f, c, value).Some? ==> Get(Set(f, c, value).value.0, d) == Get(f, d)
  {
    hide NewStatus, StatusOk, Bits, Value, WithFlags, WithMode, FlagsOf, ModeOf, Byte, WordAligned;
    FlagsWritten(f.fcsr, value);
    ModeWritten(f.fcsr, value);
  }
}
