/** One step of the machine (Executor::step of src/execute.cpp). */
module Step {
  import opened Words
  import opened Csrs
  import opened Cpu
  import opened Ram
  import opened Instructions
  import opened Execute

  datatype Commit = Commit(pc: u64, insn: u32, priv: Privilege, regWrites: seq<RegWrite>,
                           memReads: seq<MemAccess>, memWrites: seq<MemAccess>)

  /** A step commits, takes an exception, or throws; the last also stands for accesses outside the memory. */
  datatype Outcome = Committed(core: CoreState, mem: Image, commit: Commit) | Trapped(core: CoreState) | Stuck

  // ---- The rewriting of the effects before they are applied.

  predicate IsZeroWrite(w: RegWrite) { w.X? && w.num == 0 }

  function WithoutZero(ws: seq<RegWrite>): seq<RegWrite> {
    if ws == [] then []
    else (if IsZeroWrite(ws[0]) then [] else [ws[0]]) + WithoutZero(ws[1..])
  }

  /** A write of fcsr is a write of each of its two halves. */
  function Expanded(w: RegWrite): seq<RegWrite> {
    if w.C? && w.csr == Fcsr then [C(Fflags, w.value % 32), C(Frm, w.value / 32 % 8)] else [w]
  }

  function ExpandAll(ws: seq<RegWrite>): seq<RegWrite> {
    if ws == [] then [] else Expanded(ws[0]) + ExpandAll(ws[1..])
  }

  predicate WritesFp(w: RegWrite) { w.F? || (w.C? && (w.csr == Fflags || w.csr == Frm)) }

  predicate AnyFp(ws: seq<RegWrite>) { exists w :: w in ws && WritesFp(w) }

  function DirtyStatus(status: bv64): bv64 { (status & !FS) | FS_DIRTY }

  function MarkedDirty(c: CoreState, ws: seq<RegWrite>): seq<RegWrite> {
    var status := DirtyStatus(c.csrs.mstatus);
    if AnyFp(ws) && status != c.csrs.mstatus then ws + [C(Mstatus, Value(status))] else ws
  }

  function Rewritten(c: CoreState, ws: seq<RegWrite>): seq<RegWrite> {
    MarkedDirty(c, ExpandAll(WithoutZero(ws)))
  }

  // ---- The application of the effects.

  function Prepend<T>(log: seq<RegWrite>, r: Option<(T, seq<RegWrite>)>): Option<(T, seq<RegWrite>)> {
    match r
    case None => None
    case Some(p) => Some((p.0, log + p.1))
  }

  /** All writes in order, and the log of canonical values. */
  function ApplyAll(c: CoreState, ws: seq<RegWrite>): Option<(CoreState, seq<RegWrite>)>
    decreases |ws|
  {
    if ws == [] then Some((c, []))
    else
      match Apply(c, ws[0])
      case None => None
      case Some(p) => Prepend([p.1], ApplyAll(p.0, ws[1..]))
  }

  predicate Writable(m: Image, w: MemAccess) { Width(w.size) && Accessible(m, w.addr, w.size) }

  function WriteAll(m: Image, ws: seq<MemAccess>): Option<Image>
    decreases |ws|
  {
    if ws == [] then Some(m)
    else if !Writable(m, ws[0]) then None
    else WriteAll(Write(m, ws[0].addr, ws[0].size, ws[0].value), ws[1..])
  }

  function Advanced(c: CoreState, r: StepResult): CoreState
    requires r.NormalStep?
  {
    c.(pc := if r.nextPc.Some? then r.nextPc.value else Wrap(c.pc + 4),
       priv := if r.nextPriv.Some? then r.nextPriv.value else c.priv)
  }

  function Fetched(m: Image, pc: u64): u32
    requires Accessible(m, pc, 4)
  {
    BaseOfWidth();
    Read(m, pc, 4)
  }

  ghost function Complete(c: CoreState, m: Image, r: StepResult): (o: Outcome)
    requires r.NormalStep?
    ensures !o.Trapped?
  {
    if !Accessible(m, c.pc, 4) then Stuck
    else
      match ApplyAll(Advanced(c, r), Rewritten(c, r.regWrites))
      case None => Stuck
      case Some(p) =>
        match WriteAll(m, r.memWrites)
        case None => Stuck
        case Some(m') =>
          Committed(p.0, m', Commit(c.pc, Fetched(m, c.pc), c.priv, p.1, r.memReads, r.memWrites))
  }

  ghost function StepOf(c: CoreState, m: Image, insn: Insn): Outcome {
    match Effects(c, m, insn)
    case Throw => Stuck
    case Exception(cause, tval) => Trapped(Trap(c, cause, tval))
    case NormalStep(_, _, _, _, _) => Complete(c, m, Effects(c, m, insn))
  }

  // ---- The same, in place.

  method DropZeroWrites(ws: seq<RegWrite>) returns (r: seq<RegWrite>)
    ensures r == WithoutZero(ws)
  {
    r := [];
    var i := |ws|;
    while i > 0
      invariant 0 <= i <= |ws|
      invariant r == WithoutZero(ws[i..])
    {
      i := i - 1;
      assert ws[i..][1..] == ws[i + 1..];
      if !IsZeroWrite(ws[i]) {
        r := [ws[i]] + r;
      }
    }
  }

  method ExpandFcsr(ws: seq<RegWrite>) returns (r: seq<RegWrite>)
    ensures r == ExpandAll(ws)
  {
    r := [];
    var i := 0;
    while i < |ws|
      invariant 0 <= i <= |ws|
      invariant r + ExpandAll(ws[i..]) == ExpandAll(ws)
    {
      assert ws[i..][1..] == ws[i + 1..];
      r := r + Expanded(ws[i]);
      i := i + 1;
    }
  }

  /** Applies the writes, replacing each value in the log by the one kept. Fails where a setter throws. */
  method ApplyRegWrites(core: Core, ws: seq<RegWrite>) returns (log: Option<seq<RegWrite>>)
    modifies core
    ensures match ApplyAll(old(core.State()), ws)
            case None => log == None
            case Some(p) => core.State() == p.0 && log == Some(p.1)
  {
    hide Apply;
    var done: seq<RegWrite> := [];
    var i := 0;
    assert ws[0..] == ws;
    PrependNothing(ApplyAll(core.State(), ws));
    while i < |ws|
      invariant 0 <= i <= |ws|
      invariant ApplyAll(old(core.State()), ws) == Prepend(done, ApplyAll(core.State(), ws[i..]))
    {
      ghost var before := core.State();
      assert ws[i..][1..] == ws[i + 1..];
      var w := ws[i];
      match w {
        case X(num, value) => core.SetGpr(num, value);
        case F(num, value) => core.SetFpr(num, value);
        case C(csr, value) =>
          var kept := core.SetCsr(csr, value);
          if kept.None? {
            return None;
          }
          KeepsRegister(before, csr, value);
          w := C(csr, kept.value);
      }
      PrependTwice(done, w, ApplyAll(core.State(), ws[i + 1..]));
      done := done + [w];
      i := i + 1;
    }
    assert done + [] == done;
    log := Some(done);
  }

  lemma PrependNothing<T>(r: Option<(T, seq<RegWrite>)>)
    ensures Prepend([], r) == r
  {
    if r.Some? {
      assert [] + r.value.1 == r.value.1;
    }
  }

  lemma KeepsRegister(c: CoreState, csr: Csr, value: u64)
    ensures Apply(c, C(csr, value)).Some?
            ==> Apply(c, C(csr, value)).value.1 == C(csr, Apply(c, C(csr, value)).value.1.value)
  {
    hide Set;
  }

  lemma PrependTwice<T>(done: seq<RegWrite>, w: RegWrite, r: Option<(T, seq<RegWrite>)>)
    ensures Prepend(done, Prepend([w], r)) == Prepend(done + [w], r)
  {
    if r.Some? {
      assert done + ([w] + r.value.1) == (done + [w]) + r.value.1;
    }
  }

  method ApplyMemWrites(mem: Memory, ws: seq<MemAccess>) returns (ok: bool)
    requires mem.base % 8 == 0
    modifies mem.data
    ensures match WriteAll(old(mem.Contents()), ws)
            case None => !ok
            case Some(m) => ok && mem.Contents() == m
  {
    hide Write, Accessible;
    var i := 0;
    while i < |ws|
      invariant 0 <= i <= |ws|
      invariant WriteAll(old(mem.Contents()), ws) == WriteAll(mem.Contents(), ws[i..])
    {
      assert ws[i..][1..] == ws[i + 1..];
      var w := ws[i];
      var inside := IsAccessible(mem, w.addr, w.size);
      if !inside {
        return false;
      }
      mem.Set(w.addr, w.size, w.value);
      i := i + 1;
    }
    ok := true;
  }

  method IsAccessible(mem: Memory, addr: u64, size: nat) returns (ok: bool)
    ensures ok <==> Width(size) && Accessible(mem.Contents(), addr, size)
  {
    ok := Width(size) && addr % size == 0 && Offset(mem.base, addr) + size <= mem.data.Length;
  }

  /** What a caller sees: a commit, none, or a thrown error. */
  datatype Returned = Returned(commit: Commit) | NoCommit | Thrown

  method Run(core: Core, mem: Memory, insn: Insn) returns (r: Returned)
    requires mem.base % 8 == 0
    modifies core, mem.data
    ensures match StepOf(old(core.State()), old(mem.Contents()), insn)
            case Committed(c, m, k) => core.State() == c && mem.Contents() == m && r == Returned(k)
            case Trapped(c) => core.State() == c && mem.Contents() == old(mem.Contents()) && r == NoCommit
            case Stuck => r == Thrown
  {
    hide Effects, Complete;
    var result := Dispatch(core, mem, insn);
    match result {
      case Throw => r := Thrown;
      case Exception(cause, tval) =>
        core.TakeException(cause, tval);
        r := NoCommit;
      case NormalStep(_, _, _, _, _) =>
        r := CommitStep(core, mem, result);
    }
  }

  method CommitStep(core: Core, mem: Memory, result: StepResult) returns (r: Returned)
    requires mem.base % 8 == 0 && result.NormalStep?
    modifies core, mem.data
    ensures match Complete(old(core.State()), old(mem.Contents()), result)
            case Committed(c, m, k) => core.State() == c && mem.Contents() == m && r == Returned(k)
            case Stuck => r == Thrown
  {
    hide Accessible, WithoutZero, ExpandAll, ApplyAll, WriteAll, Read, AnyFp, DirtyStatus, Value, Wrap;
    var pc, priv := core.pc, core.priv;
    var fetched := IsAccessible(mem, pc, 4);
    if !fetched {
      return Thrown;
    }
    BaseOfWidth();
    var raw: u32 := mem.Get(pc, 4);
    var writes := DropZeroWrites(result.regWrites);
    writes := ExpandFcsr(writes);
    if AnyFp(writes) {
      var status := DirtyStatus(core.csrs.mstatus);
      if status != core.csrs.mstatus {
        writes := writes + [C(Mstatus, Value(status))];
      }
    }
    core.pc := if result.nextPc.Some? then result.nextPc.value else Wrap(core.pc + 4);
    core.priv := if result.nextPriv.Some? then result.nextPriv.value else core.priv;
    var log := ApplyRegWrites(core, writes);
    if log.None? {
      return Thrown;
    }
    var ok := ApplyMemWrites(mem, result.memWrites);
    if !ok {
      return Thrown;
    }
    r := Returned(Commit(pc, raw, priv, log.value, result.memReads, result.memWrites));
  }
}
