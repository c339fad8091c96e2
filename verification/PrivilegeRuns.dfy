/**
 * The privilege theorems carried to the two concrete harts: every run of the simulator is a
 * run of the privilege machine, every cycle of the circuit that presents one event is a step
 * of it, and both keep machine state isolated, the circuit also where events coincide.
 */
module PrivilegeRuns {
  import opened Wrappers
  import opened Privilege
  import opened IssHart
  import opened CsrUnit

  // ---- The simulator ----

  function Events(prog: (nat, Hart) -> Command): Program { (k: nat, h: Hart) => EventOf(prog(k, h)) }

  /** The words of the dictionary that only machine mode may change. */
  predicate SameMachineWords(a: map<nat, Word>, b: map<nat, Word>)
    requires a.Keys == IMPLEMENTED == b.Keys
  {
    && a[0x305] == b[0x305] && a[0x340] == b[0x340] && a[0x341] == b[0x341] && a[0x342] == b[0x342]
    && a[0x343] == b[0x343] && a[0x302] == b[0x302] && a[0x303] == b[0x303]
    && a[0x304] - S_ENABLE_BITS == b[0x304] - S_ENABLE_BITS
    && a[0x300] * {3, 7, 11, 12} == b[0x300] * {3, 7, 11, 12}
  }

  lemma MachineWords(p: Mode, a: map<nat, Word>, q: Mode, b: map<nat, Word>, f: Word, g: Word, f': Word, g': Word)
    requires a.Keys == IMPLEMENTED == b.Keys
    requires MachineOf(CsrsOf(p, a, f, g)) == MachineOf(CsrsOf(q, b, f', g'))
    ensures SameMachineWords(a, b)
  {
    var m, n := a[0x300], b[0x300];
    assert Decode(m).mie == Decode(n).mie && Decode(m).mpie == Decode(n).mpie && Decode(m).mpp == Decode(n).mpp;
    assert (11 in m <==> 11 in n) && (12 in m <==> 12 in n);
    assert forall k :: k in m * {3, 7, 11, 12} <==> k in n * {3, 7, 11, 12};
  }

  lemma {:induction false} NonePersists(h: Hart, prog: Program, k: nat, n: nat)
    requires k <= n && After(h, prog, k).None?
    ensures After(h, prog, n).None?
    decreases n - k
  {
    if k < n { NonePersists(h, prog, k + 1, n); }
  }

  /** n commands of the simulator, each chosen from all of its state: the run of the privilege
      machine, and while it stays below M no machine word changes. */
  method RunIss(iss: Iss, prog: (nat, Hart) -> Command, n: nat) returns (ok: bool)
    requires iss.Valid()
    modifies iss
    ensures iss.Valid()
    ensures After(old(iss.State()), Events(prog), n) == if ok then Some(iss.State()) else None
    ensures StaysBelow(old(iss.State()), Events(prog), n) ==> ok && SameMachineWords(old(iss.csr), iss.csr)
  {
    hide Step, StaysBelow, CsrsOf, MachineOf;
    ghost var h, events, start := iss.State(), Events(prog), iss.csr;
    ghost var p, f, g := iss.priv, iss.fflags, iss.frm;
    ok := true;
    for i := 0 to n
      invariant iss.Valid() && ok && After(h, events, i) == Some(iss.State())
    {
      ok := iss.Do(prog(i, iss.State()));
      if !ok {
        NonePersists(h, events, i + 1, n);
        BelowIsSome(h, events, n);
        return;
      }
    }
    if StaysBelow(h, events, n) {
      Isolation(h, events, n);
      MachineWords(p, start, iss.priv, iss.csr, f, g, iss.fflags, iss.frm);
    }
  }

  /** A choice of commands that depends only on the visible state. */
  ghost predicate BlindCommands(prog: (nat, Hart) -> Command) {
    forall k: nat, g: Hart, h: Hart :: Visible(g) == Visible(h) ==> prog(k, g) == prog(k, h)
  }

  lemma BlindEvents(prog: (nat, Hart) -> Command)
    requires BlindCommands(prog)
    ensures Blind(Events(prog))
  {
    hide Visible, EventOf;
  }

  /** Two simulators that differ only in hidden machine state stay alike to code below M. */
  method RunPair(a: Iss, b: Iss, prog: (nat, Hart) -> Command, n: nat) returns (ok: bool)
    requires a != b && a.Valid() && b.Valid() && Visible(a.State()) == Visible(b.State()) && BlindCommands(prog)
    modifies a, b
    ensures a.Valid() && b.Valid()
    ensures StaysBelow(old(a.State()), Events(prog), n) ==> ok && Visible(a.State()) == Visible(b.State())
  {
    hide Step, StaysBelow, CsrsOf, Visible;
    ghost var g, h := a.State(), b.State();
    BlindEvents(prog);
    ok := RunIss(a, prog, n);
    var ok' := RunIss(b, prog, n);
    if StaysBelow(g, Events(prog), n) {
      NonInterference(g, h, Events(prog), n);
    }
  }

  lemma BelowIsSome(h: Hart, prog: Program, n: nat)
    ensures StaysBelow(h, prog, n) ==> After(h, prog, n).Some?
  {
    if StaysBelow(h, prog, n) { assert Below(After(h, prog, n)); }
  }

  // ---- The circuit refines the machine ----

  /** What an event asks of the CSRs. */
  datatype Effect =
    | Quiet(flags: Word)
    | Traps(cause: Word, tval: Word)
    | MachineReturn | SupervisorReturn
    | Writes(csr: Csr, op: CsrOp, src: Word)
    | Stuck

  function EffectOf(h: Hart, e: Event): Effect {
    match e
    case Ordinary(_, _, _, flags) => Quiet(flags)
    case Fault(cause, tval) => Traps(cause, tval)
    case Interrupt(line) => if h.c.status.mie then Traps(line, {}) else Quiet({})
    case Ecall => (match EcallCause(h.c.priv) case Some(cause) => Traps(cause, {}) case None => Stuck)
    case Ebreak => Traps(BREAKPOINT, {})
    case MretInstr => if h.c.priv != M then Traps(ILLEGAL, {}) else MachineReturn
    case SretInstr => if h.c.priv == U then Traps(ILLEGAL, {}) else SupervisorReturn
    case SfenceVma => if h.c.priv == U then Traps(ILLEGAL, {}) else Quiet({})
    case UnknownSystem => Traps(ILLEGAL, {})
    case CsrInstr(op, imm, a, _, rs1) =>
      if h.c.priv.Level() < a.Required().Level() then Traps(ILLEGAL, {}) else Writes(a, op, Source(h.regs, imm, rs1))
  }

  /** The pipeline presents an effect on the ports, and nothing else in that cycle. */
  predicate Presents(p: Ports, f: Effect, pc: Word) {
    match f
    case Quiet(flags) => !p.Event() && !p.writeEn && if p.fpWe then p.fpFlags == flags else flags == {}
    case Traps(cause, tval) =>
      p.trap && !p.writeEn && !p.fpWe && p.trapPc == pc && p.Cause() == cause && p.trapValue == tval
    case MachineReturn => !p.trap && p.mret && !p.writeEn && !p.fpWe
    case SupervisorReturn => !p.trap && !p.mret && p.sret && !p.writeEn && !p.fpWe
    case Writes(a, op, src) =>
      !p.Event() && p.writeEn && CsrAt(p.addr) == a && p.op == op && p.wdata == src && !p.fpWe
    case Stuck => false
  }

  /** The circuit's cycle is the machine's step, for every event and every operation but the
      one on which the two sources differ. */
  lemma UnitRefines(h: Hart, e: Event, p: Ports)
    requires Presents(p, EffectOf(h, e), h.pc) && (e.CsrInstr? ==> e.op != Zero)
    requires h.c.fflags <= FLAG_BITS && (e.Ordinary? ==> e.flags <= FLAG_BITS)
    ensures Step(h, e).Some? && Outcome(h.c, p) == Step(h, e).value.c
  {
    hide CsrRead, CsrWrite, CsrAt, Trap, Mret, Sret, TrapTarget, NextPc, Source, RtlValue, NewValue;
    match EffectOf(h, e)
    case Quiet(flags) =>
      assert (h.c.fflags + flags) * FLAG_BITS == h.c.fflags + flags;
      if flags == {} { assert h.c.fflags + {} == h.c.fflags; }
    case Writes(a, op, src) => ZeroOpAgrees(op, CsrRead(h.c, a), src);
    case _ =>
      var c := h.c;
      if p.trap { SameTrap(c, p); }
  }

  lemma SameTrap(c: Csrs, p: Ports)
    requires p.trap && !p.writeEn && !p.fpWe
    ensures Outcome(c, p) == Trap(c, p.trapPc, p.Cause(), p.trapValue)
  {
    hide CsrAt, Delegated;
  }

  // ---- Isolation in the circuit, coincidences included ----

  /** The pipeline's privilege gates on the ports. */
  predicate Checked(c: Csrs, p: Ports) {
    && (p.writeEn ==> c.priv.Level() >= CsrAt(p.addr).Required().Level())
    && (p.mret ==> c.priv == M) && (p.sret ==> c.priv != U)
  }

  /** A trap into M: the vector is where M left it, the interrupted mode, pc and enable saved. */
  predicate EnteredBy(c: Csrs, p: Ports, n: Csrs) {
    && p.trap && !Delegated(c, p.Cause())
    && n.mepc == p.trapPc && n.mcause == p.Cause() && n.mtval == p.trapValue
    && n.status.mpp == c.priv && n.status.mpie == c.status.mie && !n.status.mie
    && n.mtvec == c.mtvec && n.mscratch == c.mscratch && n.medeleg == c.medeleg && n.mideleg == c.mideleg
    && Machine(n.mie) == Machine(c.mie)
  }

  lemma OutcomeFromBelow(c: Csrs, p: Ports)
    requires c.priv != M && Checked(c, p)
    ensures var n := Outcome(c, p);
            if n.priv != M then MachineOf(n) == MachineOf(c) else EnteredBy(c, p, n)
  {
    hide Surviving, Machine, Value, Checked;
    SurvivingKeepsMachine(c, p);
    var w := Surviving(c, p);
    assert w.(medeleg := c.medeleg, mideleg := c.mideleg) == w;
    NoReturnToMachine(c, p);
  }

  lemma NoReturnToMachine(c: Csrs, p: Ports)
    requires c.priv != M && Checked(c, p)
    ensures !p.mret
  {
  }

  lemma SurvivingKeepsMachine(c: Csrs, p: Ports)
    requires c.priv != M && Checked(c, p)
    ensures MachineOf(Surviving(c, p)) == MachineOf(c) && Surviving(c, p).priv == c.priv
  {
    hide CsrRead, CsrWrite, CsrAt, RtlValue, Machine, MachineOf;
    if p.writeEn {
      WriteBelowKeepsMachine(c, CsrAt(p.addr), RtlValue(p.op, CsrRead(c, CsrAt(p.addr)), p.wdata));
    }
  }

  /** What surrounds the circuit: the ports of the k-th cycle, chosen from all of its state. */
  type Environment = (nat, Csrs) -> Ports

  /** The pipeline's gates hold whatever the state. */
  ghost predicate Gated(env: Environment) { forall k: nat, c: Csrs :: Checked(c, env(k, c)) }

  ghost function CycleAfter(c: Csrs, env: Environment, n: nat): Csrs {
    if n == 0 then c
    else
      var b := CycleAfter(c, env, n - 1);
      Outcome(b, env(n - 1, b))
  }

  ghost predicate CyclesBelow(c: Csrs, env: Environment, n: nat) {
    forall k: nat :: k <= n ==> CycleAfter(c, env, k).priv != M
  }

  /** Over any run of the circuit behind the gates that stays below M, events and writes
      coinciding or not, no machine register changes. */
  lemma {:induction false} CircuitIsolation(c: Csrs, env: Environment, n: nat)
    requires Gated(env) && CyclesBelow(c, env, n)
    ensures MachineOf(CycleAfter(c, env, n)) == MachineOf(c)
  {
    hide Outcome, MachineOf, Checked;
    if n > 0 {
      CircuitIsolation(c, env, n - 1);
      var b := CycleAfter(c, env, n - 1);
      OutcomeFromBelow(b, env(n - 1, b));
    }
  }

  /** The first cycle into M is a trap that is not delegated, to the vector M left, with the
      interrupted mode, pc and enable saved. */
  lemma CircuitEntry(c: Csrs, env: Environment, n: nat)
    requires Gated(env) && CyclesBelow(c, env, n) && CycleAfter(c, env, n + 1).priv == M
    ensures var b := CycleAfter(c, env, n); var m := CycleAfter(c, env, n + 1);
            && EnteredBy(b, env(n, b), m)
            && m.mtvec == c.mtvec && m.mscratch == c.mscratch && m.medeleg == c.medeleg && m.mideleg == c.mideleg
            && m.status.mpie == c.status.mie && m.status.mpp == b.priv
  {
    hide Outcome, Checked, Delegated;
    CircuitIsolation(c, env, n);
    var b := CycleAfter(c, env, n);
    OutcomeFromBelow(b, env(n, b));
  }

  ghost predicate BlindEnvironment(env: Environment) {
    forall k: nat, c: Csrs, d: Csrs :: VisibleCsrs(c) == VisibleCsrs(d) ==> env(k, c) == env(k, d)
  }

  lemma SurvivingIsBlind(c: Csrs, d: Csrs, p: Ports)
    requires c.priv != M && Checked(c, p) && VisibleCsrs(c) == VisibleCsrs(d)
    ensures VisibleCsrs(Surviving(c, p)) == VisibleCsrs(Surviving(d, p))
  {
    hide CsrRead, CsrWrite, CsrAt, RtlValue, VisibleCsrs;
    if p.writeEn {
      WriteIsBlind(c, d, CsrAt(p.addr), RtlValue(p.op, CsrRead(c, CsrAt(p.addr)), p.wdata));
    }
  }

  /** Circuits that differ only in hidden machine state cycle alike. */
  lemma OutcomeIsBlind(c: Csrs, d: Csrs, p: Ports)
    requires c.priv != M && Checked(c, p) && VisibleCsrs(c) == VisibleCsrs(d)
    ensures var m, n := Outcome(c, p), Outcome(d, p);
            m.priv == n.priv && (m.priv != M ==> VisibleCsrs(m) == VisibleCsrs(n))
  {
    SameGates(c, d, p);
    SurvivingIsBlind(c, d, p);
    SurvivingKeepsMachine(c, p);
    SurvivingKeepsMachine(d, p);
    hide Surviving, Machine, Supervisor, Checked;
    var w, x := Surviving(c, p), Surviving(d, p);
    assert w.(medeleg := c.medeleg, mideleg := c.mideleg) == w;
    assert x.(medeleg := d.medeleg, mideleg := d.mideleg) == x;
    TrapKeepsDelegation(w, p.trapPc, p.Cause(), p.trapValue);
    TrapKeepsDelegation(x, p.trapPc, p.Cause(), p.trapValue);
    CsrTrapIsBlind(w, x, p.trapPc, p.Cause(), p.trapValue);
    hide Trap;
  }

  lemma TrapKeepsDelegation(c: Csrs, pc: Word, cause: Word, tval: Word)
    ensures var n := Trap(c, pc, cause, tval); n.(medeleg := c.medeleg, mideleg := c.mideleg) == n
  {
    hide ToSupervisor;
  }

  lemma CsrTrapIsBlind(c: Csrs, d: Csrs, pc: Word, cause: Word, tval: Word)
    requires c.priv != M && VisibleCsrs(c) == VisibleCsrs(d)
    ensures var m, n := Trap(c, pc, cause, tval), Trap(d, pc, cause, tval);
            m.priv == n.priv && m.fflags == c.fflags && n.fflags == d.fflags
            && (m.priv != M ==> VisibleCsrs(m) == VisibleCsrs(n))
  {
    hide Supervisor, Value;
  }

  lemma SameGates(c: Csrs, d: Csrs, p: Ports)
    requires c.priv != M && Checked(c, p) && VisibleCsrs(c) == VisibleCsrs(d)
    ensures d.priv == c.priv && Checked(d, p) && !p.mret
  {
    hide CsrAt, Supervisor;
  }

  /** Over any run below M behind the gates, surroundings that see only visible state see the
      same circuit over any hidden state. */
  lemma {:induction false} CircuitNonInterference(c: Csrs, d: Csrs, env: Environment, n: nat)
    requires Gated(env) && BlindEnvironment(env) && VisibleCsrs(c) == VisibleCsrs(d) && CyclesBelow(c, env, n)
    ensures CyclesBelow(d, env, n) && VisibleCsrs(CycleAfter(c, env, n)) == VisibleCsrs(CycleAfter(d, env, n))
  {
    hide Outcome, Checked, VisibleCsrs;
    SameMode(c, d);
    assert CycleAfter(c, env, 0) == c && CycleAfter(c, env, n).priv != M;
    if n > 0 {
      CircuitNonInterference(c, d, env, n - 1);
      var a, b := CycleAfter(c, env, n - 1), CycleAfter(d, env, n - 1);
      assert env(n - 1, a) == env(n - 1, b);
      assert a.priv != M && Checked(a, env(n - 1, a));
      OutcomeIsBlind(a, b, env(n - 1, a));
    }
  }

  lemma SameMode(c: Csrs, d: Csrs)
    requires VisibleCsrs(c) == VisibleCsrs(d)
    ensures c.priv == d.priv
  {
  }

  /** n cycles of the circuit: the run of its specification, isolated below M. */
  method RunCsr(unit: CsrFile, env: Environment, n: nat)
    requires unit.r.Valid()
    modifies unit
    ensures unit.r.Valid() && unit.r.State() == CycleAfter(old(unit.r).State(), env, n)
    ensures var c := old(unit.r).State();
            Gated(env) && CyclesBelow(c, env, n) ==> MachineOf(unit.r.State()) == MachineOf(c)
  {
    hide Outcome, MachineOf, Regs.State, Regs.Valid, CyclesBelow, Gated;
    ghost var c := unit.r.State();
    for i := 0 to n
      invariant unit.r.Valid() && unit.r.State() == CycleAfter(c, env, i)
    {
      var _ := unit.Clock(env(i, unit.r.State()));
    }
    if Gated(env) && CyclesBelow(c, env, n) { CircuitIsolation(c, env, n); }
  }

  /** Two circuits that differ only in hidden machine state stay alike below M. */
  method RunCsrPair(a: CsrFile, b: CsrFile, env: Environment, n: nat)
    requires a != b && a.r.Valid() && b.r.Valid() && VisibleCsrs(a.r.State()) == VisibleCsrs(b.r.State())
    requires Gated(env) && BlindEnvironment(env)
    modifies a, b
    ensures a.r.Valid() && b.r.Valid()
    ensures CyclesBelow(old(a.r).State(), env, n) ==> VisibleCsrs(a.r.State()) == VisibleCsrs(b.r.State())
  {
    hide CycleAfter, MachineOf, Regs.State, Regs.Valid, CyclesBelow, Gated, VisibleCsrs;
    ghost var c, d := a.r.State(), b.r.State();
    RunCsr(a, env, n);
    RunCsr(b, env, n);
    if CyclesBelow(c, env, n) { CircuitNonInterference(c, d, env, n); }
  }
}
