/**
 * The privilege machine of one hart at XLEN = 32: traps and their delegation, `mret`/`sret`,
 * and CSR accesses with their privilege check.  Here mstatus is decoded into its fields; the
 * simulator (`IssHart`) and the circuit (`CsrUnit`) keep it as a masked word and both refine
 * this machine.  The theorems are about whole runs.
 *
 * A register word is the set of its one bits, so the bitwise operators |, & and & ~ are
 * union, intersection and difference.
 */
module Privilege {
  import opened Wrappers
  import opened Powers

  type Word = set<nat>
  type Reg = x: nat | x < 32
  type RegFile = s: seq<Word> | |s| == 32 witness seq(32, _ => {})

  /** The two-bit encoding of the modes is their order: U 0, S 1, the reserved value 2, M 3. */
  datatype Mode = U | S | Reserved | M {
    function Level(): nat { match this case U => 0 case S => 1 case Reserved => 2 case M => 3 }
  }

  datatype Csr =
    | FFLAGS | FRM | FCSR
    | SSTATUS | SIE | STVEC | SSCRATCH | SEPC | SCAUSE | STVAL | SIP | SATP
    | MSTATUS | MEDELEG | MIDELEG | MIE | MTVEC | MSCRATCH | MEPC | MCAUSE | MTVAL | MIP
    | Unimplemented(level: Mode)
  {
    /** The lowest mode that may access the register. */
    function Required(): Mode {
      match this
      case FFLAGS | FRM | FCSR => U
      case SSTATUS | SIE | STVEC | SSCRATCH | SEPC | SCAUSE | STVAL | SIP | SATP => S
      case MSTATUS | MEDELEG | MIDELEG | MIE | MTVEC | MSCRATCH | MEPC | MCAUSE | MTVAL | MIP => M
      case Unimplemented(level) => level
    }
  }

  const STATUS_BITS: Word := {1, 3, 5, 7, 8, 11, 12}   // SIE, MIE, SPIE, MPIE, SPP, MPP
  const SSTATUS_BITS: Word := {1, 5, 8}                // SIE, SPIE, SPP
  const ENABLE_BITS: Word := {1, 3, 5, 7, 9, 11}
  const S_ENABLE_BITS: Word := {1, 5, 9}
  const DELEGABLE: Word := {2, 3, 8, 9, 11, 12, 13, 15}
  const FLAG_BITS: Word := {0, 1, 2, 3, 4}
  const FRM_BITS: Word := {0, 1, 2}
  const INTERRUPT_BIT := 31

  const ILLEGAL: Word := {1}
  const BREAKPOINT: Word := {0, 1}

  /** Bits and numbers. */
  function Value(w: Word, width: nat): nat {
    if width == 0 then 0 else Value(w, width - 1) + if width - 1 in w then Pow2(width - 1) else 0
  }

  function Bits(n: nat, width: nat): Word {
    if width == 0 then {} else Bits(n, width - 1) + if n / Pow2(width - 1) % 2 == 1 then {width - 1} else {}
  }

  function NextPc(pc: Word): Word { Bits(Value(pc, 32) + 4, 32) }

  datatype Status = Status(sie: bool, mie: bool, spie: bool, mpie: bool, spp: bool, mpp: Mode)

  function If(b: bool, bit: nat): Word { if b then {bit} else {} }

  function ModeBits(m: Mode): Word { If(m == S || m == M, 11) + If(m == Reserved || m == M, 12) }

  function ModeOf(w: Word): Mode {
    if 12 in w then if 11 in w then M else Reserved else if 11 in w then S else U
  }

  function Encode(s: Status): Word {
    If(s.sie, 1) + If(s.mie, 3) + If(s.spie, 5) + If(s.mpie, 7) + If(s.spp, 8) + ModeBits(s.mpp)
  }

  function Decode(w: Word): Status { Status(1 in w, 3 in w, 5 in w, 7 in w, 8 in w, ModeOf(w)) }

  /** Storing mstatus decoded loses only the bits that its write mask drops. */
  lemma StatusRoundTrip(s: Status, w: Word)
    ensures Decode(Encode(s)) == s
    ensures Encode(Decode(w)) == w * STATUS_BITS
  {
    EncodeBits(s);
    EncodeBits(Decode(w));
    assert forall b :: b in Encode(Decode(w)) <==> b in w * STATUS_BITS;
  }

  lemma EncodeBits(s: Status)
    ensures forall b :: b in Encode(s) <==>
      || (b == 1 && s.sie) || (b == 3 && s.mie) || (b == 5 && s.spie) || (b == 7 && s.mpie) || (b == 8 && s.spp)
      || (b == 11 && (s.mpp == S || s.mpp == M)) || (b == 12 && (s.mpp == Reserved || s.mpp == M))
  {
    forall b ensures b in Encode(s) <==>
      || (b == 1 && s.sie) || (b == 3 && s.mie) || (b == 5 && s.spie) || (b == 7 && s.mpie) || (b == 8 && s.spp)
      || (b == 11 && (s.mpp == S || s.mpp == M)) || (b == 12 && (s.mpp == Reserved || s.mpp == M))
    {}
  }

  datatype Csrs = Csrs(priv: Mode, status: Status, mie: Word, mip: Word,
                       mtvec: Word, mscratch: Word, mepc: Word, mcause: Word, mtval: Word,
                       medeleg: Word, mideleg: Word,
                       stvec: Word, sscratch: Word, sepc: Word, scause: Word, stval: Word, satp: Word,
                       fflags: Word, frm: Word)

  datatype Hart = Hart(pc: Word, regs: RegFile, c: Csrs)

  // ---- CSR accesses ----

  function SupervisorStatus(s: Status): Status { s.(mie := false, mpie := false, mpp := U) }

  /** The bits of mie and mip that sie and sip show, the others, and a write to the first. */
  function Supervisor(w: Word): Word { w * S_ENABLE_BITS }

  function Machine(w: Word): Word { w - S_ENABLE_BITS }

  function Splice(w: Word, v: Word): (r: Word)
    ensures Machine(r) == Machine(w) && Supervisor(r) == Supervisor(v)
  { w - S_ENABLE_BITS + v * S_ENABLE_BITS }

  function CsrRead(c: Csrs, a: Csr): Word {
    match a
    case FFLAGS => c.fflags
    case FRM => c.frm
    case FCSR => If(0 in c.frm, 5) + If(1 in c.frm, 6) + If(2 in c.frm, 7) + c.fflags
    case SSTATUS => Encode(SupervisorStatus(c.status))
    case SIE => Supervisor(c.mie)
    case SIP => Supervisor(c.mip)
    case MSTATUS => Encode(c.status)
    case MIE => c.mie
    case MIP => c.mip
    case MTVEC => c.mtvec
    case MSCRATCH => c.mscratch
    case MEPC => c.mepc
    case MCAUSE => c.mcause
    case MTVAL => c.mtval
    case MEDELEG => c.medeleg
    case MIDELEG => c.mideleg
    case STVEC => c.stvec
    case SSCRATCH => c.sscratch
    case SEPC => c.sepc
    case SCAUSE => c.scause
    case STVAL => c.stval
    case SATP => c.satp
    case Unimplemented(_) => {}
  }

  function CsrWrite(c: Csrs, a: Csr, v: Word): Csrs {
    match a
    case FFLAGS => c.(fflags := v * FLAG_BITS)
    case FRM => c.(frm := v * FRM_BITS)
    case FCSR => c.(frm := If(5 in v, 0) + If(6 in v, 1) + If(7 in v, 2), fflags := v * FLAG_BITS)
    case SSTATUS =>
      c.(status := c.status.(sie := Decode(v).sie, spie := Decode(v).spie, spp := Decode(v).spp))
    case SIE => c.(mie := Splice(c.mie, v))
    case MSTATUS => c.(status := Decode(v))
    case MIE => c.(mie := v * ENABLE_BITS)
    case MIP | SIP => c.(mip := Supervisor(v))
    case MTVEC => c.(mtvec := v)
    case MSCRATCH => c.(mscratch := v)
    case MEPC => c.(mepc := v)
    case MCAUSE => c.(mcause := v)
    case MTVAL => c.(mtval := v)
    case MEDELEG => c.(medeleg := v * DELEGABLE)
    case MIDELEG => c.(mideleg := v * ENABLE_BITS)
    case STVEC => c.(stvec := v)
    case SSCRATCH => c.(sscratch := v)
    case SEPC => c.(sepc := v)
    case SCAUSE => c.(scause := v)
    case STVAL => c.(stval := v)
    case SATP => c.(satp := v)
    case Unimplemented(_) => c
  }

  /** funct3 of a CSR instruction: the operation and whether the source is an immediate.
      `Zero` is funct3[1:0] == 0. */
  datatype CsrOp = Zero | Write | Set | Clear

  /** The simulator's last branch clears, so `Zero` clears too. */
  function NewValue(op: CsrOp, was: Word, src: Word): Word {
    match op case Write => src case Set => was + src case Clear | Zero => was - src
  }

  // ---- Traps and returns ----

  predicate Delegated(c: Csrs, cause: Word) {
    Value(cause, 5) in if INTERRUPT_BIT in cause then c.mideleg else c.medeleg
  }

  predicate ToSupervisor(c: Csrs, cause: Word) { c.priv != M && Delegated(c, cause) }

  function Trap(c: Csrs, pc: Word, cause: Word, tval: Word): Csrs {
    if ToSupervisor(c, cause) then
      c.(priv := S, sepc := pc, scause := cause, stval := tval,
         status := c.status.(spie := c.status.sie, sie := false, spp := c.priv == S || c.priv == M))
    else
      c.(priv := M, mepc := pc, mcause := cause, mtval := tval,
         status := c.status.(mpie := c.status.mie, mie := false, mpp := c.priv))
  }

  function TrapTarget(c: Csrs, cause: Word): Word { if ToSupervisor(c, cause) then c.stvec else c.mtvec }

  function Mret(c: Csrs): Csrs {
    c.(priv := c.status.mpp, status := c.status.(mie := c.status.mpie, mpie := true, mpp := U))
  }

  function Sret(c: Csrs): Csrs {
    c.(priv := if c.status.spp then S else U,
       status := c.status.(sie := c.status.spie, spie := true, spp := false))
  }

  // ---- One step ----

  /** What the hart does next.  `Ordinary` is any instruction outside SYSTEM that completes;
      `Fault` one that does not; `Interrupt` a pending line, which mstatus.MIE gates. */
  datatype Event =
    | Ordinary(rd: Reg, value: Word, target: Word, flags: Word)
    | Fault(cause: Word, tval: Word)
    | Interrupt(line: Word)
    | Ecall | Ebreak | MretInstr | SretInstr | SfenceVma | UnknownSystem
    | CsrInstr(op: CsrOp, immediate: bool, addr: Csr, dest: Reg, rs1: Reg)

  function TrapHart(h: Hart, cause: Word, tval: Word): Hart {
    h.(pc := TrapTarget(h.c, cause), c := Trap(h.c, h.pc, cause, tval))
  }

  function WriteReg(regs: RegFile, rd: Reg, v: Word): RegFile { if rd == 0 then regs else regs[rd := v] }

  function EcallCause(p: Mode): Option<Word> {
    if p == M then Some({0, 1, 3}) else if p == S then Some({0, 3}) else if p == U then Some({3}) else None
  }

  function Source(regs: RegFile, immediate: bool, rs1: Reg): Word { if immediate then Bits(rs1, 5) else regs[rs1] }

  function CsrAccess(h: Hart, op: CsrOp, immediate: bool, a: Csr, rd: Reg, rs1: Reg): Hart {
    if h.c.priv.Level() < a.Required().Level() then TrapHart(h, ILLEGAL, {})
    else
      var was := CsrRead(h.c, a);
      Hart(NextPc(h.pc), WriteReg(h.regs, rd, was),
           CsrWrite(h.c, a, NewValue(op, was, Source(h.regs, immediate, rs1))))
  }

  /** None is the simulator's failed lookup of an `ecall` cause in the reserved mode. */
  function Step(h: Hart, e: Event): Option<Hart> {
    match e
    case Ordinary(rd, v, target, flags) =>
      Some(Hart(target, WriteReg(h.regs, rd, v), h.c.(fflags := (h.c.fflags + flags) * FLAG_BITS)))
    case Fault(cause, tval) => Some(TrapHart(h, cause, tval))
    case Interrupt(line) => Some(if h.c.status.mie then TrapHart(h, line, {}) else h)
    case Ecall => (match EcallCause(h.c.priv) case Some(cause) => Some(TrapHart(h, cause, {})) case None => None)
    case Ebreak => Some(TrapHart(h, BREAKPOINT, {}))
    case MretInstr =>
      Some(if h.c.priv != M then TrapHart(h, ILLEGAL, {}) else h.(pc := h.c.mepc, c := Mret(h.c)))
    case SretInstr =>
      Some(if h.c.priv == U then TrapHart(h, ILLEGAL, {}) else h.(pc := h.c.sepc, c := Sret(h.c)))
    case SfenceVma => Some(if h.c.priv == U then TrapHart(h, ILLEGAL, {}) else h.(pc := NextPc(h.pc)))
    case UnknownSystem => Some(TrapHart(h, ILLEGAL, {}))
    case CsrInstr(op, imm, a, rd, rs1) => Some(CsrAccess(h, op, imm, a, rd, rs1))
  }

  // ---- Runs ----

  /** A program may pick its next event from the whole state of the hart. */
  type Program = (nat, Hart) -> Event

  function After(h: Hart, prog: Program, n: nat): Option<Hart> {
    if n == 0 then Some(h)
    else match After(h, prog, n - 1) case None => None case Some(g) => Step(g, prog(n - 1, g))
  }

  predicate Below(o: Option<Hart>) { o.Some? && o.value.c.priv != M }

  ghost predicate StaysBelow(h: Hart, prog: Program, n: nat) { forall k: nat :: k <= n ==> Below(After(h, prog, k)) }

  /** What only machine mode may change. */
  datatype MachineState = MachineState(mtvec: Word, mscratch: Word, mepc: Word, mcause: Word, mtval: Word,
                                       medeleg: Word, mideleg: Word, enables: Word,
                                       mie: bool, mpie: bool, mpp: Mode)

  function MachineOf(c: Csrs): MachineState {
    MachineState(c.mtvec, c.mscratch, c.mepc, c.mcause, c.mtval, c.medeleg, c.mideleg,
                 Machine(c.mie), c.status.mie, c.status.mpie, c.status.mpp)
  }

  /** The state in which a trap that is not delegated leaves the hart. */
  predicate EnteredMachine(g: Hart, g': Hart, cause: Word, tval: Word) {
    && !Delegated(g.c, cause)
    && g' == g.(pc := g.c.mtvec,
                c := g.c.(priv := M, mepc := g.pc, mcause := cause, mtval := tval,
                          status := g.c.status.(mpie := g.c.status.mie, mie := false, mpp := g.c.priv)))
  }

  lemma WriteBelowKeepsMachine(c: Csrs, a: Csr, v: Word)
    requires c.priv != M && c.priv.Level() >= a.Required().Level()
    ensures MachineOf(CsrWrite(c, a, v)) == MachineOf(c) && CsrWrite(c, a, v).priv == c.priv
  {
    hide Decode, Splice, Machine, Supervisor;
  }

  /** One step from below M either keeps all machine state or is a trap into M. */
  lemma StepFromBelow(g: Hart, e: Event) returns (cause: Word, tval: Word)
    requires g.c.priv != M && Step(g, e).Some?
    ensures var g' := Step(g, e).value;
      if g'.c.priv != M then MachineOf(g'.c) == MachineOf(g.c) else EnteredMachine(g, g', cause, tval)
  {
    hide Delegated, CsrRead, CsrWrite, NewValue, Source, Machine, Supervisor;
    cause, tval := ILLEGAL, {};
    match e
    case Fault(c, t) => cause, tval := c, t;
    case Interrupt(l) => cause := l;
    case Ecall => cause := EcallCause(g.c.priv).value;
    case Ebreak => cause := BREAKPOINT;
    case CsrInstr(op, imm, a, rd, rs1) =>
      if g.c.priv.Level() >= a.Required().Level() {
        WriteBelowKeepsMachine(g.c, a, NewValue(op, CsrRead(g.c, a), Source(g.regs, imm, rs1)));
      }
    case _ =>
  }

  /** Code that stays below M never changes machine state, whatever it executes. */
  lemma {:induction false} Isolation(h: Hart, prog: Program, n: nat)
    requires StaysBelow(h, prog, n)
    ensures MachineOf(After(h, prog, n).value.c) == MachineOf(h.c)
  {
    hide Step, MachineOf;
    assert Below(After(h, prog, n));
    if n > 0 {
      assert Below(After(h, prog, n - 1));
      Isolation(h, prog, n - 1);
      var _, _ := StepFromBelow(After(h, prog, n - 1).value, prog(n - 1, After(h, prog, n - 1).value));
    }
  }

  /** The first step into M lands on the vector M set before it left, with the interrupted
      mode, pc and interrupt enable saved, and nothing of the lower modes' state touched. */
  lemma EntryToMachine(h: Hart, prog: Program, n: nat) returns (cause: Word, tval: Word)
    requires StaysBelow(h, prog, n)
    requires After(h, prog, n + 1).Some? && After(h, prog, n + 1).value.c.priv == M
    ensures var g, g' := After(h, prog, n).value, After(h, prog, n + 1).value;
      && EnteredMachine(g, g', cause, tval)
      && g'.pc == h.c.mtvec && g'.c.mepc == g.pc && g'.c.status.mpp == g.c.priv
      && g'.c.mscratch == h.c.mscratch && g'.c.medeleg == h.c.medeleg && g'.c.mideleg == h.c.mideleg
      && g'.c.status.mpie == h.c.status.mie && !g'.c.status.mie
  {
    hide Step;
    Isolation(h, prog, n);
    assert Below(After(h, prog, n));
    cause, tval := StepFromBelow(After(h, prog, n).value, prog(n, After(h, prog, n).value));
  }

  // ---- Non-interference ----

  /** The hart with everything erased that code below M should not learn.  What steers traps
      (medeleg, mideleg and mstatus.MIE, which gates the interrupts) stays. */
  function VisibleCsrs(c: Csrs): Csrs {
    c.(mtvec := {}, mscratch := {}, mepc := {}, mcause := {}, mtval := {},
       mie := Supervisor(c.mie), status := c.status.(mpie := false, mpp := U))
  }

  function Visible(h: Hart): Hart { h.(c := VisibleCsrs(h.c)) }

  lemma WriteIsBlind(c: Csrs, d: Csrs, a: Csr, v: Word)
    requires c.priv != M && c.priv.Level() >= a.Required().Level()
    requires VisibleCsrs(c) == VisibleCsrs(d)
    ensures CsrRead(c, a) == CsrRead(d, a)
    ensures VisibleCsrs(CsrWrite(c, a, v)) == VisibleCsrs(CsrWrite(d, a, v))
  {
    hide Decode, Encode, Splice, Supervisor, Machine;
  }

  predicate Alike(g: Hart, h: Hart) { g.c.priv == h.c.priv && (g.c.priv != M ==> Visible(g) == Visible(h)) }

  lemma TrapIsBlind(g: Hart, h: Hart, cause: Word, tval: Word)
    requires g.c.priv != M && Visible(g) == Visible(h)
    ensures Alike(TrapHart(g, cause, tval), TrapHart(h, cause, tval))
  {
    hide Supervisor, Value;
    assert Visible(g).c == Visible(h).c;
  }

  lemma AccessIsBlind(g: Hart, h: Hart, e: Event)
    requires e.CsrInstr? && g.c.priv != M && Visible(g) == Visible(h)
    requires g.c.priv.Level() >= e.addr.Required().Level()
    ensures Alike(CsrAccess(g, e.op, e.immediate, e.addr, e.dest, e.rs1),
                  CsrAccess(h, e.op, e.immediate, e.addr, e.dest, e.rs1))
  {
    hide CsrRead, CsrWrite, NewValue, Source, Supervisor, NextPc;
    assert Visible(g).c == Visible(h).c;
    var v := NewValue(e.op, CsrRead(g.c, e.addr), Source(g.regs, e.immediate, e.rs1));
    WriteIsBlind(g.c, h.c, e.addr, v);
    WriteBelowKeepsMachine(g.c, e.addr, v);
    WriteBelowKeepsMachine(h.c, e.addr, v);
  }

  /** Two harts that differ only in hidden machine state step alike: both fail, both enter M,
      or both stay below with the same visible state. */
  lemma StepIsBlind(g: Hart, h: Hart, e: Event)
    requires g.c.priv != M && Visible(g) == Visible(h)
    ensures Step(g, e).Some? == Step(h, e).Some?
    ensures Step(g, e).Some? ==> Alike(Step(g, e).value, Step(h, e).value)
  {
    hide CsrAccess, TrapHart, Supervisor, NextPc;
    assert Visible(g).c == Visible(h).c;
    TrapIsBlind(g, h, ILLEGAL, {});
    match e
    case Fault(cause, tval) => TrapIsBlind(g, h, cause, tval);
    case Interrupt(line) => TrapIsBlind(g, h, line, {});
    case Ecall => if EcallCause(g.c.priv).Some? { TrapIsBlind(g, h, EcallCause(g.c.priv).value, {}); }
    case Ebreak => TrapIsBlind(g, h, BREAKPOINT, {});
    case CsrInstr(op, imm, a, rd, rs1) => CsrIsBlind(g, h, e);
    case _ =>
  }

  lemma CsrIsBlind(g: Hart, h: Hart, e: Event)
    requires e.CsrInstr? && g.c.priv != M && Visible(g) == Visible(h)
    ensures Alike(CsrAccess(g, e.op, e.immediate, e.addr, e.dest, e.rs1),
                  CsrAccess(h, e.op, e.immediate, e.addr, e.dest, e.rs1))
  {
    hide CsrRead, CsrWrite, NewValue, Source, Supervisor, NextPc, TrapHart;
    assert Visible(g).c == Visible(h).c;
    if g.c.priv.Level() >= e.addr.Required().Level() {
      AccessIsBlind(g, h, e);
    } else {
      TrapIsBlind(g, h, ILLEGAL, {});
    }
  }

  /** A program that sees only the visible state. */
  ghost predicate Blind(prog: Program) {
    forall k: nat, g: Hart, h: Hart :: Visible(g) == Visible(h) ==> prog(k, g) == prog(k, h)
  }

  lemma VisibleMode(g: Hart, h: Hart)
    requires Visible(g) == Visible(h)
    ensures g.c.priv == h.c.priv
  {
    assert Visible(g).c == Visible(h).c;
  }

  /** Such a program runs identically over any hidden state. */
  lemma {:induction false} NonInterference(g: Hart, h: Hart, prog: Program, n: nat)
    requires Visible(g) == Visible(h) && Blind(prog)
    requires StaysBelow(g, prog, n)
    ensures StaysBelow(h, prog, n)
    ensures Visible(After(g, prog, n).value) == Visible(After(h, prog, n).value)
  {
    hide Step, Visible;
    VisibleMode(g, h);
    assert Below(After(g, prog, n));
    if n > 0 {
      assert forall k: nat :: k <= n - 1 ==> Below(After(g, prog, k));
      NonInterference(g, h, prog, n - 1);
      var a, b := After(g, prog, n - 1).value, After(h, prog, n - 1).value;
      assert Below(After(g, prog, n - 1)) && Below(After(h, prog, n - 1));
      VisibleMode(a, b);
      assert prog(n - 1, a) == prog(n - 1, b);
      StepIsBlind(a, b, prog(n - 1, a));
      assert Below(After(h, prog, n));
    }
  }

  // ---- Returns undo traps ----

  /** A trap handled in M and returned from at once changes nothing that lower modes can see. */
  lemma MretUndoesTrap(h: Hart, cause: Word, tval: Word)
    requires !ToSupervisor(h.c, cause)
    ensures var t := TrapHart(h, cause, tval); var r := t.(pc := t.c.mepc, c := Mret(t.c));
      && Step(t, MretInstr) == Some(r)
      && Visible(r) == Visible(h) && r.c.mtvec == h.c.mtvec && r.c.mscratch == h.c.mscratch && r.c.mie == h.c.mie
  {}

  /** A delegated trap returned from at once restores pc, mode and SIE, and never touched M. */
  lemma SretUndoesTrap(h: Hart, cause: Word, tval: Word)
    requires ToSupervisor(h.c, cause) && !h.c.priv.Reserved?
    ensures var t := TrapHart(h, cause, tval);
      && Step(t, SretInstr) == Some(h.(c := h.c.(sepc := h.pc, scause := cause, stval := tval,
                                                 status := h.c.status.(spie := true, spp := false))))
  {}

  // ---- The reserved mode ----

  predicate Legal(h: Hart) { !h.c.priv.Reserved? && !h.c.status.mpp.Reserved? }

  /** The event writes the reserved value into mstatus.MPP. */
  predicate WritesReserved(h: Hart, e: Event) {
    && e.CsrInstr? && e.addr == MSTATUS && h.c.priv == M
    && Decode(NewValue(e.op, Encode(h.c.status), Source(h.regs, e.immediate, e.rs1))).mpp.Reserved?
  }

  lemma WriteKeepsLegal(c: Csrs, a: Csr, v: Word)
    ensures CsrWrite(c, a, v).priv == c.priv
    ensures CsrWrite(c, a, v).status.mpp == if a == MSTATUS then Decode(v).mpp else c.status.mpp
  {
    hide Decode, Splice, Supervisor;
  }

  /** The reserved mode is reached only through that write; without it no step fails. */
  lemma StepKeepsLegal(h: Hart, e: Event)
    requires Legal(h)
    ensures Step(h, e).Some? && (Legal(Step(h, e).value) <==> !WritesReserved(h, e))
  {
    hide Delegated, NewValue, Source, Decode, Encode, CsrWrite, NextPc;
    if e.CsrInstr? {
      WriteKeepsLegal(h.c, e.addr, NewValue(e.op, CsrRead(h.c, e.addr), Source(h.regs, e.immediate, e.rs1)));
    }
  }

  lemma {:induction false} RunKeepsLegal(h: Hart, prog: Program, n: nat)
    requires Legal(h)
    requires forall k: nat :: k < n && After(h, prog, k).Some? ==>
      !WritesReserved(After(h, prog, k).value, prog(k, After(h, prog, k).value))
    ensures After(h, prog, n).Some? && Legal(After(h, prog, n).value)
  {
    hide Step, WritesReserved;
    if n > 0 {
      RunKeepsLegal(h, prog, n - 1);
      StepKeepsLegal(After(h, prog, n - 1).value, prog(n - 1, After(h, prog, n - 1).value));
    }
  }
}
