/**
 * The CSR circuit (`design/CSR.v`): every register has its own priority chain over the
 * events of the cycle, so that an interrupt may coincide with a CSR write.
 */
module CsrUnit {
  import opened Privilege
  import opened IssHart

  /** The registers; mip_sw is the software-writable part of mip. */
  datatype Regs = Regs(priv: Mode, mstatus: Word, mie: Word, mipSw: Word,
                       mtvec: Word, mscratch: Word, mepc: Word, mcause: Word, mtval: Word,
                       medeleg: Word, mideleg: Word,
                       stvec: Word, sscratch: Word, sepc: Word, scause: Word, stval: Word, satp: Word,
                       fflags: Word, frm: Word)
  {
    ghost predicate Valid() { mstatus <= STATUS_BITS && mipSw <= S_ENABLE_BITS }

    function State(): Csrs {
      Csrs(priv, Decode(mstatus), mie, mipSw, mtvec, mscratch, mepc, mcause, mtval, medeleg, mideleg,
           stvec, sscratch, sepc, scause, stval, satp, fflags, frm)
    }
  }

  /** The pending interrupts that hardware drives: software, timer, external. */
  type Lines = s: Word | s <= {3, 7, 11}

  /** The ports. */
  datatype Ports = Ports(writeEn: bool, addr: nat, op: CsrOp, wdata: Word,
                         trap: bool, trapPc: Word, trapCause: Word, isInterrupt: bool, trapValue: Word,
                         mret: bool, sret: bool, fpWe: bool, fpFlags: Word, lines: Lines)
  {
    /** The cause with bit 31 replaced by the interrupt flag. */
    function Cause(): Word { trapCause - {INTERRUPT_BIT} + If(isInterrupt, INTERRUPT_BIT) }

    /** A trap or a return, in this order of priority. */
    predicate Event() { trap || mret || sret }
  }

  function ReadData(r: Regs, addr: nat, lines: Word): Word {
    var mip := r.mipSw + lines;
    match addr
    case 0x300 => r.mstatus
    case 0x304 => r.mie
    case 0x305 => r.mtvec
    case 0x340 => r.mscratch
    case 0x341 => r.mepc
    case 0x342 => r.mcause
    case 0x344 => mip
    case 0x001 => r.fflags
    case 0x002 => r.frm
    case 0x003 => If(0 in r.frm, 5) + If(1 in r.frm, 6) + If(2 in r.frm, 7) + r.fflags
    case 0x100 => If(8 in r.mstatus, 8) + If(5 in r.mstatus, 5) + If(1 in r.mstatus, 1)
    case 0x104 => If(9 in r.mie, 9) + If(5 in r.mie, 5) + If(1 in r.mie, 1)
    case 0x144 => If(9 in mip, 9) + If(5 in mip, 5) + If(1 in mip, 1)
    case 0x105 => r.stvec
    case 0x140 => r.sscratch
    case 0x141 => r.sepc
    case 0x142 => r.scause
    case 0x143 => r.stval
    case 0x180 => r.satp
    case 0x343 => r.mtval
    case 0x303 => r.mideleg
    case 0x302 => r.medeleg
    case _ => {}
  }

  /** The circuit's last arm writes where the simulator's clears. */
  function RtlValue(op: CsrOp, was: Word, src: Word): Word {
    match op case Set => was + src case Clear => was - src case Write | Zero => src
  }

  /** On funct3[1:0] == 0, which both accept, simulator and circuit agree on nothing else. */
  lemma ZeroOpAgrees(op: CsrOp, was: Word, src: Word)
    ensures RtlValue(op, was, src) == NewValue(op, was, src) <==> op != Zero || (was == {} && src == {})
  {
    if op == Zero && was - src == src {
      assert src == src * (was - src) == {};
    }
  }

  lemma ReadAgrees(r: Regs, addr: nat, lines: Word)
    requires r.Valid() && lines <= {3, 7, 11}
    ensures ReadData(r, addr, lines) == CsrRead(r.State(), CsrAt(addr)) + (if addr == 0x344 then lines else {})
  {
    hide Decode, Encode;
    ReadSstatus(r.mstatus);
    StatusMasked(r.mstatus);
  }

  /** What software wrote is seen through the mask, so the hardware lines drop out. */
  lemma LinesDropOut(op: CsrOp, was: Word, src: Word, lines: Word)
    requires lines <= {3, 7, 11}
    ensures RtlValue(op, was + lines, src) * S_ENABLE_BITS == RtlValue(op, was, src) * S_ENABLE_BITS
  {
    forall b | b in S_ENABLE_BITS
      ensures b in RtlValue(op, was + lines, src) <==> b in RtlValue(op, was, src)
    {}
  }

  /** What of this cycle's write survives. */
  ghost function Surviving(c: Csrs, p: Ports): Csrs {
    if p.Event() && CsrAt(p.addr) in {MSTATUS, SSTATUS} then c else Written(c, p)
  }

  /** The state after a cycle.  A write that coincides with a trap or return takes effect
      first, except that a write to mstatus or sstatus is lost, and one to medeleg or mideleg
      does not yet steer this trap. */
  ghost function Outcome(c: Csrs, p: Ports): Csrs {
    var w := Surviving(c, p);
    var n :=
      if p.trap then
        Trap(w.(medeleg := c.medeleg, mideleg := c.mideleg), p.trapPc, p.Cause(), p.trapValue)
        .(medeleg := w.medeleg, mideleg := w.mideleg)
      else if p.mret then Mret(w)
      else if p.sret then Sret(w)
      else w;
    if p.fpWe then n.(fflags := c.fflags + p.fpFlags) else n
  }

  function Assign(w: Word, bit: nat, b: bool): (n: Word)
    ensures forall k :: k in n <==> if k == bit then b else k in w
  { if b then w + {bit} else w - {bit} }

  function AssignMode(w: Word, m: Mode): (n: Word)
    ensures forall k :: k in n <==>
      if k == 11 then m == S || m == M else if k == 12 then m == Reserved || m == M else k in w
  { Assign(Assign(w, 11, m == S || m == M), 12, m == Reserved || m == M) }

  lemma AssignTrapToM(m: Word, p: Mode)
    requires m <= STATUS_BITS
    ensures var n, s := AssignMode(Assign(Assign(m, 7, 3 in m), 3, false), p), Decode(m);
      n <= STATUS_BITS && Decode(n) == s.(mpie := s.mie, mie := false, mpp := p)
  { hide Assign, AssignMode; }

  lemma AssignTrapToS(m: Word, spp: bool)
    requires m <= STATUS_BITS
    ensures var n, s := Assign(Assign(Assign(m, 5, 1 in m), 1, false), 8, spp), Decode(m);
      n <= STATUS_BITS && Decode(n) == s.(spie := s.sie, sie := false, spp := spp)
  { hide Assign; }

  lemma AssignMret(m: Word)
    requires m <= STATUS_BITS
    ensures var n, s := AssignMode(Assign(Assign(m, 3, 7 in m), 7, true), U), Decode(m);
      n <= STATUS_BITS && Decode(n) == s.(mie := s.mpie, mpie := true, mpp := U)
  { hide Assign, AssignMode; }

  lemma AssignSret(m: Word)
    requires m <= STATUS_BITS
    ensures var n, s := Assign(Assign(Assign(m, 1, 5 in m), 5, true), 8, false), Decode(m);
      n <= STATUS_BITS && Decode(n) == s.(sie := s.spie, spie := true, spp := false)
  { hide Assign; }

  lemma PickedStatus(v: Word)
    ensures If(3 in v, 3) + If(7 in v, 7) + If(1 in v, 1) + If(5 in v, 5) + If(8 in v, 8) + If(11 in v, 11)
          + If(12 in v, 12) == v * STATUS_BITS
    ensures If(1 in v, 1) + If(5 in v, 5) + If(8 in v, 8) == v * SSTATUS_BITS
  {}

  method NextStatus(r: Regs, p: Ports, toS: bool, v: Word) returns (m: Word)
    requires r.Valid()
    ensures m <= STATUS_BITS
    ensures StatusNext(r, p, toS, v, m)
  {
    hide Decode, Assign, AssignMode, If;
    m := r.mstatus;
    if p.trap && !toS {
      AssignTrapToM(m, r.priv);
      m := AssignMode(Assign(Assign(m, 7, 3 in m), 3, false), r.priv);
    } else if p.trap {
      AssignTrapToS(m, r.priv == S || r.priv == M);
      m := Assign(Assign(Assign(m, 5, 1 in m), 1, false), 8, r.priv == S || r.priv == M);
    } else if p.mret {
      AssignMret(m);
      m := AssignMode(Assign(Assign(m, 3, 7 in m), 7, true), U);
    } else if p.sret {
      AssignSret(m);
      m := Assign(Assign(Assign(m, 1, 5 in m), 5, true), 8, false);
    } else if p.writeEn && p.addr == 0x300 {
      PickedStatus(v);
      DecodeMasked(v);
      m := If(3 in v, 3) + If(7 in v, 7) + If(1 in v, 1) + If(5 in v, 5) + If(8 in v, 8) + If(11 in v, 11)
         + If(12 in v, 12);
    } else if p.writeEn && p.addr == 0x100 {
      PickedStatus(v);
      WriteSstatus(m, v);
      m := (m - SSTATUS_BITS) + (If(1 in v, 1) + If(5 in v, 5) + If(8 in v, 8));
    }
  }

  /** A CSR write register by register. */
  ghost predicate WriteFields(c: Csrs, n: Csrs, en: bool, addr: nat, v: Word) {
    && n.priv == c.priv
    && n.status == (if en && addr == 0x300 then Decode(v)
                    else if en && addr == 0x100 then
                      c.status.(sie := Decode(v).sie, spie := Decode(v).spie, spp := Decode(v).spp)
                    else c.status)
    && n.mie == (if en && addr == 0x304 then v * ENABLE_BITS
                 else if en && addr == 0x104 then (c.mie - S_ENABLE_BITS) + v * S_ENABLE_BITS else c.mie)
    && n.mip == (if en && (addr == 0x344 || addr == 0x144) then v * S_ENABLE_BITS else c.mip)
    && OtherFields(c, n, en, addr, v)
  }

  ghost predicate OtherFields(c: Csrs, n: Csrs, en: bool, addr: nat, v: Word) {
    && n.mtvec == (if en && addr == 0x305 then v else c.mtvec)
    && n.mscratch == (if en && addr == 0x340 then v else c.mscratch)
    && n.mepc == (if en && addr == 0x341 then v else c.mepc)
    && n.mcause == (if en && addr == 0x342 then v else c.mcause)
    && n.mtval == (if en && addr == 0x343 then v else c.mtval)
    && n.medeleg == (if en && addr == 0x302 then v * DELEGABLE else c.medeleg)
    && n.mideleg == (if en && addr == 0x303 then v * ENABLE_BITS else c.mideleg)
    && n.stvec == (if en && addr == 0x105 then v else c.stvec)
    && n.sscratch == (if en && addr == 0x140 then v else c.sscratch)
    && n.sepc == (if en && addr == 0x141 then v else c.sepc)
    && n.scause == (if en && addr == 0x142 then v else c.scause)
    && n.stval == (if en && addr == 0x143 then v else c.stval)
    && n.satp == (if en && addr == 0x180 then v else c.satp)
    && n.fflags == (if en && (addr == 0x001 || addr == 0x003) then v * FLAG_BITS else c.fflags)
    && n.frm == (if en && addr == 0x002 then v * FRM_BITS
                 else if en && addr == 0x003 then If(5 in v, 0) + If(6 in v, 1) + If(7 in v, 2) else c.frm)
  }

  lemma WriteByField(c: Csrs, addr: nat, v: Word)
    ensures WriteFields(c, CsrWrite(c, CsrAt(addr), v), true, addr, v)
    ensures CsrAt(addr) in {MSTATUS, SSTATUS} <==> addr in {0x300, 0x100}
  {
    hide Decode, If, OtherFields;
    WriteOthers(c, addr, v);
  }

  lemma WriteOthers(c: Csrs, addr: nat, v: Word)
    ensures OtherFields(c, CsrWrite(c, CsrAt(addr), v), true, addr, v)
  {
    hide Decode, If, Supervisor, Splice;
  }

  /** Every register's chain, from the old values, the value to write and the next mstatus. */
  function Chains(r: Regs, p: Ports, v: Word, toS: bool, mstatus: Word): Regs {
    var toM := p.trap && !toS;
    Regs(
      if toS then S else if toM then M else if p.mret then ModeOf(r.mstatus)
        else if p.sret then if 8 in r.mstatus then S else U else r.priv,
      mstatus,
      if p.writeEn && p.addr == 0x304 then v * ENABLE_BITS
        else if p.writeEn && p.addr == 0x104 then (r.mie - S_ENABLE_BITS) + v * S_ENABLE_BITS else r.mie,
      if p.writeEn && (p.addr == 0x344 || p.addr == 0x144) then v * S_ENABLE_BITS else r.mipSw,
      if p.writeEn && p.addr == 0x305 then v else r.mtvec,
      if p.writeEn && p.addr == 0x340 then v else r.mscratch,
      if toM then p.trapPc else if p.writeEn && p.addr == 0x341 then v else r.mepc,
      if toM then p.Cause() else if p.writeEn && p.addr == 0x342 then v else r.mcause,
      if toM then p.trapValue else if p.writeEn && p.addr == 0x343 then v else r.mtval,
      if p.writeEn && p.addr == 0x302 then v * DELEGABLE else r.medeleg,
      if p.writeEn && p.addr == 0x303 then v * ENABLE_BITS else r.mideleg,
      if p.writeEn && p.addr == 0x105 then v else r.stvec,
      if p.writeEn && p.addr == 0x140 then v else r.sscratch,
      if toS then p.trapPc else if p.writeEn && p.addr == 0x141 then v else r.sepc,
      if toS then p.Cause() else if p.writeEn && p.addr == 0x142 then v else r.scause,
      if toS then p.trapValue else if p.writeEn && p.addr == 0x143 then v else r.stval,
      if p.writeEn && p.addr == 0x180 then v else r.satp,
      if p.fpWe then r.fflags + p.fpFlags
        else if p.writeEn && (p.addr == 0x001 || p.addr == 0x003) then v * FLAG_BITS else r.fflags,
      if p.writeEn && p.addr == 0x002 then v * FRM_BITS
        else if p.writeEn && p.addr == 0x003 then If(5 in v, 0) + If(6 in v, 1) + If(7 in v, 2) else r.frm)
  }

  ghost predicate StatusNext(r: Regs, p: Ports, toS: bool, v: Word, m: Word) {
    var s := Decode(r.mstatus);
    Decode(m) ==
      if p.trap && !toS then s.(mpie := s.mie, mie := false, mpp := r.priv)
      else if p.trap then s.(spie := s.sie, sie := false, spp := r.priv == S || r.priv == M)
      else if p.mret then s.(mie := s.mpie, mpie := true, mpp := U)
      else if p.sret then s.(sie := s.spie, spie := true, spp := false)
      else if p.writeEn && p.addr == 0x300 then Decode(v)
      else if p.writeEn && p.addr == 0x100 then
        s.(sie := Decode(v).sie, spie := Decode(v).spie, spp := Decode(v).spp)
      else s
  }

  ghost predicate Cycle(r: Regs, p: Ports, v: Word, toS: bool, m: Word) {
    && r.Valid() && m <= STATUS_BITS
    && v == RtlValue(p.op, ReadData(r, p.addr, p.lines), p.wdata)
    && toS == (p.trap && ToSupervisor(r.State(), p.Cause())) && StatusNext(r, p, toS, v, m)
  }

  lemma ChainsTrap(r: Regs, p: Ports, v: Word, toS: bool, m: Word)
    requires Cycle(r, p, v, toS, m) && p.trap
    ensures Chains(r, p, v, toS, m).State() == Outcome(r.State(), p)
  {
    hide Decode, If, RtlValue, ReadData, CsrRead, CsrWrite, CsrAt, ToSupervisor;
    ValueAgrees(r, p, v);
    WrittenByField(r.State(), p);
    hide Written;
    var c, w := r.State(), Surviving(r.State(), p);
    SameDelegation(c, w.(medeleg := c.medeleg, mideleg := c.mideleg), p.Cause());
  }

  lemma SameDelegation(c: Csrs, d: Csrs, cause: Word)
    requires c.priv == d.priv && c.medeleg == d.medeleg && c.mideleg == d.mideleg
    ensures ToSupervisor(c, cause) == ToSupervisor(d, cause)
  {}

  lemma ChainsReturn(r: Regs, p: Ports, v: Word, toS: bool, m: Word)
    requires Cycle(r, p, v, toS, m) && !p.trap && (p.mret || p.sret)
    ensures Chains(r, p, v, toS, m).State() == Outcome(r.State(), p)
  {
    assert Decode(r.mstatus).mpp == ModeOf(r.mstatus) && Decode(r.mstatus).spp == (8 in r.mstatus);
    hide Decode, If, RtlValue, ReadData, CsrRead, CsrWrite, CsrAt, Delegated;
    ValueAgrees(r, p, v);
    WrittenByField(r.State(), p);
    hide Written;
  }

  lemma ChainsWrite(r: Regs, p: Ports, v: Word, toS: bool, m: Word)
    requires Cycle(r, p, v, toS, m) && !p.trap && !p.mret && !p.sret
    ensures Chains(r, p, v, toS, m).State() == Outcome(r.State(), p)
  {
    hide Decode, If, RtlValue, ReadData, CsrRead, CsrWrite, CsrAt, Delegated;
    ValueAgrees(r, p, v);
    WrittenByField(r.State(), p);
    hide Written;
  }

  lemma ChainsAgree(r: Regs, p: Ports, v: Word, toS: bool, m: Word)
    requires Cycle(r, p, v, toS, m)
    ensures Chains(r, p, v, toS, m).Valid() && Chains(r, p, v, toS, m).State() == Outcome(r.State(), p)
  {
    hide Outcome, Regs.State, StatusNext;
    if p.trap {
      ChainsTrap(r, p, v, toS, m);
    } else if p.mret || p.sret {
      ChainsReturn(r, p, v, toS, m);
    } else {
      ChainsWrite(r, p, v, toS, m);
    }
  }

  /** One clock edge: every register by its own chain, all from the old values. */
  method Next(r: Regs, p: Ports) returns (n: Regs, toS: bool)
    requires r.Valid()
    ensures n.Valid()
    ensures toS == (p.trap && ToSupervisor(r.State(), p.Cause()))
    ensures n.State() == Outcome(r.State(), p)
  {
    hide Decode, If, RtlValue, ReadData, CsrRead, CsrWrite, CsrAt, Value;
    var v := RtlValue(p.op, ReadData(r, p.addr, p.lines), p.wdata);
    var deleg := if p.isInterrupt then r.mideleg else r.medeleg;
    toS := p.trap && r.priv != M && Value(p.trapCause, 5) in deleg;
    var mstatus := NextStatus(r, p, toS, v);
    n := Chains(r, p, v, toS, mstatus);
    CauseBits(p);
    ChainsAgree(r, p, v, toS, mstatus);
  }

  ghost function Written(c: Csrs, p: Ports): Csrs {
    var a := CsrAt(p.addr);
    if p.writeEn then CsrWrite(c, a, RtlValue(p.op, CsrRead(c, a), p.wdata)) else c
  }

  lemma WrittenByField(c: Csrs, p: Ports)
    ensures WriteFields(c, Written(c, p), p.writeEn, p.addr, RtlValue(p.op, CsrRead(c, CsrAt(p.addr)), p.wdata))
    ensures CsrAt(p.addr) in {MSTATUS, SSTATUS} <==> p.addr in {0x300, 0x100}
  {
    hide WriteFields, CsrRead, CsrWrite, RtlValue;
    WriteByField(c, p.addr, RtlValue(p.op, CsrRead(c, CsrAt(p.addr)), p.wdata));
    if !p.writeEn { NoWrite(c, p.addr, RtlValue(p.op, CsrRead(c, CsrAt(p.addr)), p.wdata)); }
  }

  lemma NoWrite(c: Csrs, addr: nat, v: Word)
    ensures WriteFields(c, c, false, addr, v)
  { hide Decode, If; }

  lemma ValueAgrees(r: Regs, p: Ports, v: Word)
    requires r.Valid() && v == RtlValue(p.op, ReadData(r, p.addr, p.lines), p.wdata)
    ensures var v0 := RtlValue(p.op, CsrRead(r.State(), CsrAt(p.addr)), p.wdata);
      (p.addr != 0x344 ==> v == v0) && v * S_ENABLE_BITS == v0 * S_ENABLE_BITS
  {
    hide RtlValue, ReadData, CsrRead, CsrAt;
    ReadAgrees(r, p.addr, p.lines);
    LinesDropOut(p.op, CsrRead(r.State(), CsrAt(p.addr)), p.wdata, p.lines);
    assert CsrRead(r.State(), CsrAt(p.addr)) + {} == CsrRead(r.State(), CsrAt(p.addr));
  }

  lemma CauseBits(p: Ports)
    ensures Value(p.Cause(), 5) == Value(p.trapCause, 5)
    ensures INTERRUPT_BIT in p.Cause() <==> p.isInterrupt
  {
    LowBits(p.Cause(), p.trapCause, 5);
  }

  lemma {:induction false} LowBits(a: Word, b: Word, width: nat)
    requires forall k: nat :: k < width ==> (k in a <==> k in b)
    ensures Value(a, width) == Value(b, width)
  {
    if width > 0 { LowBits(a, b, width - 1); }
  }

  class CsrFile {
    var r: Regs

    /** Reset enters machine mode with every register zero. */
    constructor ()
      ensures r.Valid() && r.priv == M && r.State().status == Status(false, false, false, false, false, U)
    {
      r := Regs(M, {}, {}, {}, {}, {}, {}, {}, {}, {}, {}, {}, {}, {}, {}, {}, {}, {}, {});
    }

    method Clock(p: Ports) returns (toS: bool)
      requires r.Valid()
      modifies this
      ensures r.Valid() && r.State() == Outcome(old(r).State(), p)
      ensures toS == (p.trap && ToSupervisor(old(r).State(), p.Cause()))
    {
      r, toS := Next(r, p);
    }
  }
}
