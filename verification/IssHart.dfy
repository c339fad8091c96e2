/**
 * The simulator's hart (`sim/tools/iss.py`): CSRs in a dictionary of masked words, traps and
 * returns as in-place bit surgery on mstatus.  Each method is proved against `Privilege`.
 */
module IssHart {
  import opened Wrappers
  import opened Privilege

  const IMPLEMENTED := {0x300, 0x305, 0x340, 0x341, 0x342, 0x140, 0x141, 0x142, 0x143,
                        0x343, 0x105, 0x180, 0x303, 0x302, 0x304, 0x344}

  function CsrAt(addr: nat): (a: Csr)
    ensures a.Required().Level() == addr / 0x100 % 4
  {
    match addr
    case 0x001 => FFLAGS case 0x002 => FRM case 0x003 => FCSR
    case 0x100 => SSTATUS case 0x104 => SIE case 0x105 => STVEC case 0x140 => SSCRATCH
    case 0x141 => SEPC case 0x142 => SCAUSE case 0x143 => STVAL case 0x144 => SIP case 0x180 => SATP
    case 0x300 => MSTATUS case 0x302 => MEDELEG case 0x303 => MIDELEG case 0x304 => MIE
    case 0x305 => MTVEC case 0x340 => MSCRATCH case 0x341 => MEPC case 0x342 => MCAUSE
    case 0x343 => MTVAL case 0x344 => MIP
    case _ => Unimplemented(var l := addr / 0x100 % 4;
                            if l == 0 then U else if l == 1 then S else if l == 2 then Reserved else M)
  }

  // ---- The mask arithmetic on mstatus ----

  lemma ReadSstatus(m: Word)
    ensures If(1 in m, 1) + If(5 in m, 5) + If(8 in m, 8) == Encode(SupervisorStatus(Decode(m)))
  {
    EncodeBits(SupervisorStatus(Decode(m)));
  }

  lemma WriteSstatus(m: Word, v: Word)
    ensures m <= STATUS_BITS ==> m - SSTATUS_BITS + v * SSTATUS_BITS <= STATUS_BITS
    ensures Decode(m - SSTATUS_BITS + v * SSTATUS_BITS) ==
      Decode(m).(sie := Decode(v).sie, spie := Decode(v).spie, spp := Decode(v).spp)
  {}

  lemma StatusMasked(m: Word)
    requires m <= STATUS_BITS
    ensures Encode(Decode(m)) == m
  {
    StatusRoundTrip(Decode(m), m);
    assert m * STATUS_BITS == m;
  }

  lemma DecodeMasked(v: Word)
    ensures Decode(v * STATUS_BITS) == Decode(v) && v * STATUS_BITS <= STATUS_BITS
  {}

  lemma TrapToS(m: Word, p: Mode)
    ensures m <= STATUS_BITS ==> m - {1, 5, 8} + (If(1 in m, 5) + If(p == S || p == M, 8)) <= STATUS_BITS
    ensures Decode(m - {1, 5, 8} + (If(1 in m, 5) + If(p == S || p == M, 8))) ==
      Decode(m).(spie := Decode(m).sie, sie := false, spp := p == S || p == M)
  {}

  lemma TrapToM(m: Word, p: Mode)
    ensures m <= STATUS_BITS ==> m - {3, 7, 11, 12} + (If(3 in m, 7) + ModeBits(p)) <= STATUS_BITS
    ensures Decode(m - {3, 7, 11, 12} + (If(3 in m, 7) + ModeBits(p))) ==
      Decode(m).(mpie := Decode(m).mie, mie := false, mpp := p)
  {}

  lemma ReturnFromM(m: Word)
    ensures m <= STATUS_BITS ==> m - {3, 7, 11, 12} + (If(7 in m, 3) + {7}) <= STATUS_BITS
    ensures Decode(m).mpp == ModeOf(m)
    ensures Decode(m - {3, 7, 11, 12} + (If(7 in m, 3) + {7})) ==
      Decode(m).(mie := Decode(m).mpie, mpie := true, mpp := U)
  {}

  lemma ReturnFromS(m: Word)
    ensures m <= STATUS_BITS ==> m - {1, 5, 8} + (If(5 in m, 1) + {5}) <= STATUS_BITS
    ensures Decode(m).spp == (8 in m)
    ensures Decode(m - {1, 5, 8} + (If(5 in m, 1) + {5})) ==
      Decode(m).(sie := Decode(m).spie, spie := true, spp := false)
  {}

  lemma FrmBits(v: Word)
    ensures If(5 in v, 0) + If(6 in v, 1) + If(7 in v, 2) <= FRM_BITS
    ensures v * FLAG_BITS <= FLAG_BITS && v * FRM_BITS <= FRM_BITS
  {}

  function CsrsOf(priv: Mode, csr: map<nat, Word>, fflags: Word, frm: Word): Csrs
    requires csr.Keys == IMPLEMENTED
  {
    Csrs(priv, Decode(csr[0x300]), csr[0x304], csr[0x344], csr[0x305], csr[0x340], csr[0x341], csr[0x342],
         csr[0x343], csr[0x302], csr[0x303], csr[0x105], csr[0x140], csr[0x141], csr[0x142], csr[0x143],
         csr[0x180], fflags, frm)
  }

  predicate Proper(csr: map<nat, Word>, fflags: Word, frm: Word) {
    && csr.Keys == IMPLEMENTED
    && csr[0x300] <= STATUS_BITS
    && fflags <= FLAG_BITS && frm <= FRM_BITS
  }

  lemma StoresFloat(p: Mode, csr: map<nat, Word>, f: Word, g: Word, addr: nat, v: Word)
    requires Proper(csr, f, g)
    ensures var f' := v * FLAG_BITS;
      var g' := if addr == 0x002 then v * FRM_BITS else If(5 in v, 0) + If(6 in v, 1) + If(7 in v, 2);
      && Proper(csr, f', g) && Proper(csr, f, g') && Proper(csr, f', g')
      && (addr == 0x001 ==> CsrsOf(p, csr, f', g) == CsrWrite(CsrsOf(p, csr, f, g), CsrAt(addr), v))
      && (addr == 0x002 ==> CsrsOf(p, csr, f, g') == CsrWrite(CsrsOf(p, csr, f, g), CsrAt(addr), v))
      && (addr == 0x003 ==> CsrsOf(p, csr, f', g') == CsrWrite(CsrsOf(p, csr, f, g), CsrAt(addr), v))
  {
    hide Decode, If;
    FrmBits(v);
  }

  lemma StoresView(p: Mode, csr: map<nat, Word>, f: Word, g: Word, addr: nat, v: Word)
    requires Proper(csr, f, g)
    ensures var csr' := csr[0x300 := csr[0x300] - SSTATUS_BITS + v * SSTATUS_BITS];
      Proper(csr', f, g) && (addr == 0x100 ==> CsrsOf(p, csr', f, g) == CsrWrite(CsrsOf(p, csr, f, g), CsrAt(addr), v))
    ensures var csr' := csr[0x304 := csr[0x304] - S_ENABLE_BITS + v * S_ENABLE_BITS];
      Proper(csr', f, g) && (addr == 0x104 ==> CsrsOf(p, csr', f, g) == CsrWrite(CsrsOf(p, csr, f, g), CsrAt(addr), v))
    ensures var csr' := csr[0x344 := v * S_ENABLE_BITS];
      && Proper(csr', f, g)
      && (addr == 0x144 || addr == 0x344 ==> CsrsOf(p, csr', f, g) == CsrWrite(CsrsOf(p, csr, f, g), CsrAt(addr), v))
  {
    hide Decode;
    WriteSstatus(csr[0x300], v);
  }

  lemma StoresPlain(p: Mode, csr: map<nat, Word>, f: Word, g: Word, addr: nat, val: Word, v: Word)
    requires Proper(csr, f, g) && addr !in {0x001, 0x002, 0x003, 0x100, 0x104, 0x144, 0x344}
    requires v == match addr case 0x300 => val * STATUS_BITS case 0x304 => val * ENABLE_BITS
                             case 0x302 => val * DELEGABLE case 0x303 => val * ENABLE_BITS case _ => val
    ensures var csr' := if addr in csr then csr[addr := v] else csr;
      Proper(csr', f, g) && CsrsOf(p, csr', f, g) == CsrWrite(CsrsOf(p, csr, f, g), CsrAt(addr), val)
  {
    hide Decode;
    DecodeMasked(val);
  }

  lemma StoresTrapToS(p: Mode, csr: map<nat, Word>, f: Word, g: Word, pc: Word, cause: Word, tval: Word)
    requires Proper(csr, f, g) && ToSupervisor(CsrsOf(p, csr, f, g), cause)
    ensures var m := csr[0x300];
      var csr' := csr[0x141 := pc][0x142 := cause][0x143 := tval]
                     [0x300 := m - {1, 5, 8} + (If(1 in m, 5) + If(p == S || p == M, 8))];
      Proper(csr', f, g) && CsrsOf(S, csr', f, g) == Trap(CsrsOf(p, csr, f, g), pc, cause, tval)
  {
    hide Decode, If, Delegated;
    TrapToS(csr[0x300], p);
  }

  lemma StoresTrapToM(p: Mode, csr: map<nat, Word>, f: Word, g: Word, pc: Word, cause: Word, tval: Word)
    requires Proper(csr, f, g) && !ToSupervisor(CsrsOf(p, csr, f, g), cause)
    ensures var m := csr[0x300];
      var csr' := csr[0x341 := pc][0x342 := cause][0x343 := tval]
                     [0x300 := m - {3, 7, 11, 12} + (If(3 in m, 7) + ModeBits(p))];
      Proper(csr', f, g) && CsrsOf(M, csr', f, g) == Trap(CsrsOf(p, csr, f, g), pc, cause, tval)
  {
    hide Decode, If, Delegated, ModeBits;
    TrapToM(csr[0x300], p);
  }

  function ReadCsr(csr: map<nat, Word>, fflags: Word, frm: Word, addr: nat): Word
    requires csr.Keys == IMPLEMENTED
  {
    var m, e, p := csr[0x300], csr[0x304], csr[0x344];
    if addr == 0x001 then fflags * FLAG_BITS
    else if addr == 0x002 then frm * FRM_BITS
    else if addr == 0x003 then If(0 in frm, 5) + If(1 in frm, 6) + If(2 in frm, 7) + fflags * FLAG_BITS
    else if addr == 0x100 then If(1 in m, 1) + If(5 in m, 5) + If(8 in m, 8)
    else if addr == 0x104 then If(1 in e, 1) + If(5 in e, 5) + If(9 in e, 9)
    else if addr == 0x144 then If(1 in p, 1) + If(5 in p, 5) + If(9 in p, 9)
    else if addr in csr then csr[addr] else {}
  }

  /** The dictionary and its masked views read as the decoded machine. */
  lemma ReadCsrAgrees(p: Mode, csr: map<nat, Word>, fflags: Word, frm: Word, addr: nat)
    requires Proper(csr, fflags, frm)
    ensures ReadCsr(csr, fflags, frm, addr) == CsrRead(CsrsOf(p, csr, fflags, frm), CsrAt(addr))
  {
    ReadSstatus(csr[0x300]);
    StatusMasked(csr[0x300]);
    EnableView(csr[0x304]);
    EnableView(csr[0x344]);
    assert fflags * FLAG_BITS == fflags && frm * FRM_BITS == frm;
    hide Decode, Encode, If, Supervisor;
  }

  lemma EnableView(w: Word)
    ensures If(1 in w, 1) + If(5 in w, 5) + If(9 in w, 9) == Supervisor(w)
  {
  }

  lemma MieBit(p: Mode, csr: map<nat, Word>, f: Word, g: Word)
    requires csr.Keys == IMPLEMENTED
    ensures CsrsOf(p, csr, f, g).status.mie == (3 in csr[0x300])
  {
  }

  class Iss {
    var pc: Word
    var priv: Mode
    var regs: RegFile
    var csr: map<nat, Word>
    var fflags: Word
    var frm: Word

    predicate Valid() reads this { Proper(csr, fflags, frm) }

    function State(): Hart
      requires Valid()
      reads this
    { Hart(pc, regs, CsrsOf(priv, csr, fflags, frm)) }

    method WriteCsr(addr: nat, val: Word)
      requires Valid()
      modifies this`csr, this`fflags, this`frm
      ensures Valid()
      ensures State() == old(State()).(c := CsrWrite(old(State()).c, CsrAt(addr), val))
    {
      hide CsrWrite, CsrAt, CsrsOf, If;
      StoresFloat(priv, csr, fflags, frm, addr, val);
      if addr == 0x001 {
        fflags := val * FLAG_BITS;
        return;
      }
      if addr == 0x002 {
        frm := val * FRM_BITS;
        return;
      }
      if addr == 0x003 {
        frm := If(5 in val, 0) + If(6 in val, 1) + If(7 in val, 2);
        fflags := val * FLAG_BITS;
        return;
      }
      StoresView(priv, csr, fflags, frm, addr, val);
      var v := val;
      if addr == 0x300 {
        v := val * STATUS_BITS;
      } else if addr == 0x100 {
        csr := csr[0x300 := csr[0x300] - SSTATUS_BITS + val * SSTATUS_BITS];
        return;
      } else if addr == 0x304 {
        v := val * ENABLE_BITS;
      } else if addr == 0x104 {
        csr := csr[0x304 := csr[0x304] - S_ENABLE_BITS + val * S_ENABLE_BITS];
        return;
      } else if addr == 0x344 || addr == 0x144 {
        csr := csr[0x344 := val * S_ENABLE_BITS];
        return;
      } else if addr == 0x302 {
        v := val * DELEGABLE;
      } else if addr == 0x303 {
        v := val * ENABLE_BITS;
      }
      StoresPlain(priv, csr, fflags, frm, addr, val, v);
      if addr in csr {
        csr := csr[addr := v];
      }
    }

    method TakeTrap(cause: Word, tval: Word)
      requires Valid()
      modifies this`csr, this`priv, this`pc
      ensures Valid() && State() == TrapHart(old(State()), cause, tval)
    {
      hide Decode, ModeBits, If, Value;
      var deleg := if INTERRUPT_BIT in cause then csr[0x303] else csr[0x302];
      var m := csr[0x300];
      assert Delegated(CsrsOf(priv, csr, fflags, frm), cause) == (Value(cause, 5) in deleg);
      if priv != M && Value(cause, 5) in deleg {
        StoresTrapToS(priv, csr, fflags, frm, pc, cause, tval);
        csr := csr[0x141 := pc][0x142 := cause][0x143 := tval]
          [0x300 := m - {1, 5, 8} + (If(1 in m, 5) + If(priv == S || priv == M, 8))];
        priv, pc := S, csr[0x105];
      } else {
        StoresTrapToM(priv, csr, fflags, frm, pc, cause, tval);
        csr := csr[0x341 := pc][0x342 := cause][0x343 := tval]
          [0x300 := m - {3, 7, 11, 12} + (If(3 in m, 7) + ModeBits(priv))];
        priv, pc := M, csr[0x305];
      }
    }

    method ReturnMachine()
      requires Valid()
      modifies this`csr, this`priv, this`pc
      ensures Valid()
      ensures State() == old(State()).(pc := old(State()).c.mepc, c := Mret(old(State()).c))
    {
      hide If;
      var m := csr[0x300];
      ReturnFromM(m);
      hide Decode;
      csr := csr[0x300 := m - {3, 7, 11, 12} + (If(7 in m, 3) + {7})];
      priv := ModeOf(m);
      pc := csr[0x341];
    }

    method ReturnSupervisor()
      requires Valid()
      modifies this`csr, this`priv, this`pc
      ensures Valid()
      ensures State() == old(State()).(pc := old(State()).c.sepc, c := Sret(old(State()).c))
    {
      hide If;
      var m := csr[0x300];
      ReturnFromS(m);
      hide Decode;
      csr := csr[0x300 := m - {1, 5, 8} + (If(5 in m, 1) + {5})];
      priv := if 8 in m then S else U;
      pc := csr[0x141];
    }

    /** The SYSTEM opcode; false is the failed lookup of an `ecall` cause. */
    method System(f3: nat, addr: nat, rd: Reg, rs1: Reg) returns (ok: bool)
      requires Valid() && f3 < 8 && addr < 0x1000
      modifies this
      ensures Valid() && ok == Step(old(State()), Decoded(f3, addr, rd, rs1)).Some?
      ensures State() == if ok then Step(old(State()), Decoded(f3, addr, rd, rs1)).value else old(State())
    {
      hide TrapTarget, Trap, NextPc, Decode;
      ok := true;
      if f3 == 0 {
        if addr / 32 == 9 {
          if priv == U { TakeTrap(ILLEGAL, {}); } else { pc := NextPc(pc); }
        } else if addr == 0x000 {
          var cause := EcallCause(priv);
          if cause.None? { return false; }
          TakeTrap(cause.value, {});
        } else if addr == 0x001 {
          TakeTrap(BREAKPOINT, {});
        } else if addr == 0x302 {
          if priv != M { TakeTrap(ILLEGAL, {}); } else { ReturnMachine(); }
        } else if addr == 0x102 {
          if priv == U { TakeTrap(ILLEGAL, {}); } else { ReturnSupervisor(); }
        } else {
          TakeTrap(ILLEGAL, {});
        }
      } else if priv.Level() < addr / 0x100 % 4 {
        TakeTrap(ILLEGAL, {});
      } else {
        Access(f3, addr, rd, rs1);
      }
    }

    /** One command of the run loop. */
    method Do(d: Command) returns (ok: bool)
      requires Valid()
      modifies this
      ensures Valid() && ok == Step(old(State()), EventOf(d)).Some?
      ensures State() == if ok then Step(old(State()), EventOf(d)).value else old(State())
    {
      hide Decode, CsrsOf, Trap, TrapTarget, Decoded;
      ok := true;
      match d {
        case System(f3, addr, rd, rs1) => ok := System(f3, addr, rd, rs1);
        case Complete(rd, v, target, flags) => CompleteOne(rd, v, target, flags);
        case Fail(cause, tval) => TakeTrap(cause, tval);
        case Pending(line) =>
          MieBit(priv, csr, fflags, frm);
          if 3 in csr[0x300] { TakeTrap(line, {}); }
      }
    }

    method CompleteOne(rd: Reg, v: Word, target: Word, flags: Word)
      requires Valid()
      modifies this`regs, this`pc, this`fflags
      ensures Valid() && Step(old(State()), Ordinary(rd, v, target, flags)) == Some(State())
    {
      regs, pc := WriteReg(regs, rd, v), target;
      fflags := (fflags + flags) * FLAG_BITS;
    }

    method Access(f3: nat, addr: nat, rd: Reg, rs1: Reg)
      requires Valid() && 0 < f3 < 8 && priv.Level() >= addr / 0x100 % 4
      modifies this
      ensures Valid()
      ensures State() == CsrAccess(old(State()), OpOf(f3), f3 >= 4, CsrAt(addr), rd, rs1)
    {
      ReadCsrAgrees(priv, csr, fflags, frm, addr);
      var was := ReadCsr(csr, fflags, frm, addr);
      var src := Source(regs, f3 >= 4, rs1);
      var new_ := if f3 % 4 == 1 then src else if f3 % 4 == 2 then was + src else was - src;
      WriteCsr(addr, new_);
      regs := WriteReg(regs, rd, was);
      pc := NextPc(pc);
    }
  }

  /** What the simulator is given to do: a SYSTEM word, an instruction outside SYSTEM that
      completes or faults, or a scheduled interrupt. */
  datatype Command =
    | System(f3: Funct3, addr: Address, rd: Reg, rs1: Reg)
    | Complete(dest: Reg, value: Word, target: Word, flags: Word)
    | Fail(cause: Word, tval: Word)
    | Pending(line: Word)

  type Funct3 = x: nat | x < 8
  type Address = x: nat | x < 0x1000

  function EventOf(d: Command): Event {
    match d
    case System(f3, addr, rd, rs1) => Decoded(f3, addr, rd, rs1)
    case Complete(rd, v, target, flags) => Ordinary(rd, v, target, flags)
    case Fail(cause, tval) => Fault(cause, tval)
    case Pending(line) => Interrupt(line)
  }

  function OpOf(f3: nat): CsrOp {
    match f3 % 4 case 1 => Write case 2 => Set case 3 => Clear case _ => Zero
  }

  /** The fields of a SYSTEM instruction; funct7 is the top of the address field. */
  function Decoded(f3: nat, addr: nat, rd: Reg, rs1: Reg): Event {
    if f3 != 0 then CsrInstr(OpOf(f3), f3 >= 4, CsrAt(addr), rd, rs1)
    else if addr / 32 == 9 then SfenceVma
    else match addr
      case 0x000 => Ecall
      case 0x001 => Ebreak
      case 0x302 => MretInstr
      case 0x102 => SretInstr
      case _ => UnknownSystem
  }
}
