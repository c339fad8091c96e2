/** Operand delivery in the five-stage pipeline: forwarding with a load-use stall, or
    stalling alone, against sequential execution. */
module Pipeline {
  import opened Powers

  type Reg = x: nat | x < 32

  /** A register operation or a load; `writes` is its regWrite control bit. */
  datatype Instr = Instr(op: nat, rd: Reg, rs1: Reg, rs2: Reg, isLoad: bool, writes: bool)

  /** The ALU and the (unchanging) data memory, left uninterpreted. */
  datatype Exec = Exec(alu: (nat, int, int) -> int, mem: int -> int)

  /** Register-file read: x0 is zero. */
  function Read(regs: seq<int>, r: Reg): int
    requires |regs| == 32
  {
    if r == 0 then 0 else regs[r]
  }

  function Alu(x: Exec, i: Instr, regs: seq<int>): int
    requires |regs| == 32
  {
    x.alu(i.op, Read(regs, i.rs1), Read(regs, i.rs2))
  }

  function Result(x: Exec, i: Instr, regs: seq<int>): int
    requires |regs| == 32
  {
    if i.isLoad then x.mem(Alu(x, i, regs)) else Alu(x, i, regs)
  }

  function Execute(x: Exec, i: Instr, regs: seq<int>): (r: seq<int>)
    requires |regs| == 32
    ensures |r| == 32
  {
    if i.writes && i.rd != 0 then regs[i.rd := Result(x, i, regs)] else regs
  }

  /** The registers after n instructions of the program, one at a time. */
  function Sequential(x: Exec, prog: seq<Instr>, regs: seq<int>, n: nat): (r: seq<int>)
    requires |regs| == 32 && n <= |prog|
    ensures |r| == 32
  {
    if n == 0 then regs else Execute(x, prog[n - 1], Sequential(x, prog, regs, n - 1))
  }

  /** Nearest-producer selection: 0 for none, i + 1 for source i, sources listed farthest
      first. */
  method Forward(readReg: Reg, fwdValid: seq<bool>, fwdDest: seq<Reg>) returns (sel: nat)
    requires |fwdValid| == |fwdDest|
    ensures sel <= |fwdValid|
    ensures sel > 0 ==> Produces(fwdValid, fwdDest, sel - 1, readReg)
    ensures forall j :: sel <= j < |fwdValid| ==> !Produces(fwdValid, fwdDest, j, readReg)
  {
    sel := 0;
    for i := 0 to |fwdValid|
      invariant sel <= i
      invariant sel > 0 ==> Produces(fwdValid, fwdDest, sel - 1, readReg)
      invariant forall j :: sel <= j < i ==> !Produces(fwdValid, fwdDest, j, readReg)
    {
      if fwdValid[i] && fwdDest[i] != 0 && fwdDest[i] == readReg {
        sel := i + 1;
      }
    }
  }

  predicate Produces(fwdValid: seq<bool>, fwdDest: seq<Reg>, i: nat, r: Reg)
    requires i < |fwdValid| == |fwdDest|
  {
    fwdValid[i] && fwdDest[i] != 0 && fwdDest[i] == r
  }

  /** The operand mux; an out-of-range select falls back to the register-file value. */
  method MuxN(sel: nat, s0: int, src: seq<int>) returns (out: int)
    ensures out == if 1 <= sel <= |src| then src[sel - 1] else s0
  {
    out := s0;
    for i := 0 to |src|
      invariant out == if 1 <= sel <= i then src[sel - 1] else s0
    {
      if sel == i + 1 {
        out := src[i];
      }
    }
  }

  /** The pipeline registers; a bubble has every control bit clear. */
  datatype DE = DE(valid: bool, regWrite: bool, memRead: bool, rd: Reg, op: nat, rs1: Reg, rs2: Reg, rv1: int, rv2: int)
  datatype EM = EM(valid: bool, regWrite: bool, memRead: bool, rd: Reg, aluOut: int)
  datatype WB = WB(valid: bool, regWrite: bool, memtoReg: bool, rd: Reg, aluOut: int, readData: int) {
    function WriteData(): int { if memtoReg then readData else aluOut }
  }

  datatype Pipe = Pipe(rf: seq<int>, pc: nat, de: DE, em: EM, wb: WB)

  datatype Strategy = Forwarding | StallOnly

  /** Load-use detection. */
  predicate HazardStall(rs1: Reg, rs2: Reg, de: DE) {
    de.memRead && (de.rd == rs1 || de.rd == rs2)
  }

  /** Detection of every read-after-write at distance one or two. */
  predicate NoForwardStall(rs1: Reg, rs2: Reg, de: DE, em: EM, branchTaken: bool) {
    var hazardEx := de.regWrite && de.rd != 0 && (de.rd == rs1 || de.rd == rs2);
    var hazardMem := em.regWrite && em.rd != 0 && (em.rd == rs1 || em.rd == rs2);
    (hazardEx || hazardMem) && !branchTaken
  }

  /** The register file's write port. */
  function Written(rf: seq<int>, wb: WB): (r: seq<int>)
    requires |rf| == 32
    ensures |r| == 32
  {
    if wb.regWrite then rf[wb.rd := if wb.rd == 0 then 0 else wb.WriteData()] else rf
  }

  /** The register file's read port with its write-first bypass. */
  function ReadPort(rf: seq<int>, wb: WB, r: Reg): int
    requires |rf| == 32
  {
    if r == 0 then 0 else if wb.regWrite && wb.rd == r then wb.WriteData() else rf[r]
  }

  lemma BypassReadsWritten(rf: seq<int>, wb: WB, r: Reg)
    requires |rf| == 32
    ensures ReadPort(rf, wb, r) == Read(Written(rf, wb), r)
  {
  }

  /** The ID/EX register: hold, then squash, then bubble, then pass. */
  function NextDE(hold: bool, branchTaken: bool, flush: bool, cur: DE, decoded: DE): DE {
    if hold then cur
    else if branchTaken then DE(false, false, false, 0, 0, 0, 0, 0, 0)
    else if flush then DE(false, false, false, 0, 0, decoded.rs1, decoded.rs2, decoded.rv1, decoded.rv2)
    else decoded
  }

  /** Producer i's writes as seen from stage registers. */
  ghost predicate CarriesEM(x: Exec, em: EM, i: Instr, regs: seq<int>)
    requires |regs| == 32
  {
    em.valid && em.regWrite == i.writes && em.memRead == i.isLoad && em.rd == i.rd && em.aluOut == Alu(x, i, regs)
  }

  ghost predicate CarriesWB(x: Exec, wb: WB, i: Instr, regs: seq<int>)
    requires |regs| == 32
  {
    wb.valid && wb.regWrite == i.writes && wb.rd == i.rd && wb.WriteData() == Result(x, i, regs)
  }

  ghost predicate CarriesDE(de: DE, i: Instr) {
    && de.valid && de.regWrite == i.writes && de.memRead == i.isLoad && de.rd == i.rd
    && de.op == i.op && de.rs1 == i.rs1 && de.rs2 == i.rs2
  }

  predicate Bubbles(p: Pipe) {
    && (!p.de.valid ==> !p.de.regWrite && !p.de.memRead)
    && (!p.em.valid ==> !p.em.regWrite && !p.em.memRead)
    && (!p.wb.valid ==> !p.wb.regWrite)
  }

  /** Does this stage rewrite register r? */
  predicate Writes(regWrite: bool, rd: Reg, r: Reg) { regWrite && rd != 0 && rd == r }

  /** What the stall strategy guarantees about the instruction now in EX. */
  predicate Separated(s: Strategy, p: Pipe, r: Reg) {
    match s
    case Forwarding => p.em.memRead ==> p.em.rd != r
    case StallOnly => !Writes(p.em.regWrite, p.em.rd, r) && !Writes(p.wb.regWrite, p.wb.rd, r)
  }

  /** The stages hold consecutive instructions w, w+1, ... of the program, each with the
      values sequential execution gives it; the register file is the sequential one just
      before or just after the instruction in WB. */
  ghost predicate Inv(x: Exec, prog: seq<Instr>, regs: seq<int>, s: Strategy, p: Pipe, w: nat) {
    var w1 := w + Bit(p.wb.valid);
    var w2 := w1 + Bit(p.em.valid);
    && |regs| == 32 && regs[0] == 0 && |p.rf| == 32 && Bubbles(p)
    && p.pc == w2 + Bit(p.de.valid) && p.pc <= |prog|
    && (p.rf == Sequential(x, prog, regs, w) || p.rf == Sequential(x, prog, regs, w1))
    && (p.wb.valid ==> CarriesWB(x, p.wb, prog[w], Sequential(x, prog, regs, w)))
    && (p.em.valid ==> CarriesEM(x, p.em, prog[w1], Sequential(x, prog, regs, w1)))
    && (p.de.valid ==>
        && CarriesDE(p.de, prog[w2])
        && Fetched(x, prog, regs, w, w1, p.de.rs1, p.de.rv1) && Fetched(x, prog, regs, w, w1, p.de.rs2, p.de.rv2)
        && Separated(s, p, p.de.rs1) && Separated(s, p, p.de.rs2))
  }

  /** The value read in ID predates at most the instruction now in WB. */
  ghost predicate Fetched(x: Exec, prog: seq<Instr>, regs: seq<int>, w: nat, w1: nat, r: Reg, v: int)
    requires |regs| == 32 && w <= |prog| && w1 <= |prog|
  {
    v == Read(Sequential(x, prog, regs, w), r) || v == Read(Sequential(x, prog, regs, w1), r)
  }

  /** The operand that reaches EX. */
  method Operand(s: Strategy, p: Pipe, r: Reg, rv: int) returns (v: int)
    ensures v == OperandValue(s, p, r, rv)
  {
    var sel := 0;
    if s == Forwarding {
      sel := Forward(r, [p.wb.regWrite, p.em.regWrite], [p.wb.rd, p.em.rd]);
      assert Produces([p.wb.regWrite, p.em.regWrite], [p.wb.rd, p.em.rd], 0, r) == Writes(p.wb.regWrite, p.wb.rd, r);
      assert Produces([p.wb.regWrite, p.em.regWrite], [p.wb.rd, p.em.rd], 1, r) == Writes(p.em.regWrite, p.em.rd, r);
    }
    v := MuxN(sel, rv, [p.wb.WriteData(), p.em.aluOut]);
  }

  function OperandValue(s: Strategy, p: Pipe, r: Reg, rv: int): int {
    if s == StallOnly then rv
    else if Writes(p.em.regWrite, p.em.rd, r) then p.em.aluOut
    else if Writes(p.wb.regWrite, p.wb.rd, r) then p.wb.WriteData()
    else rv
  }

  /** The operands reaching EX are the registers of sequential execution. */
  lemma OperandIsSequential(x: Exec, prog: seq<Instr>, regs: seq<int>, s: Strategy, p: Pipe, w: nat, r: Reg, rv: int)
    requires Inv(x, prog, regs, s, p, w) && p.de.valid
    requires (r == p.de.rs1 && rv == p.de.rv1) || (r == p.de.rs2 && rv == p.de.rv2)
    ensures OperandValue(s, p, r, rv) == Read(Sequential(x, prog, regs, w + Bit(p.wb.valid) + Bit(p.em.valid)), r)
  {
    hide Sequential;
    var w1 := w + Bit(p.wb.valid);
    if p.wb.valid {
      OneStep(x, prog, regs, w);
    }
    if p.em.valid {
      OneStep(x, prog, regs, w1);
    }
  }

  lemma OneStep(x: Exec, prog: seq<Instr>, regs: seq<int>, n: nat)
    requires |regs| == 32 && n < |prog|
    ensures Sequential(x, prog, regs, n + 1) == Execute(x, prog[n], Sequential(x, prog, regs, n))
  {
  }

  /** What ID presents to the ID/EX register; past the end of the program it is a nop. */
  function Decode(prog: seq<Instr>, p: Pipe): DE
    requires |p.rf| == 32
  {
    if p.pc < |prog| then
      var i := prog[p.pc];
      DE(true, i.writes, i.isLoad, i.rd, i.op, i.rs1, i.rs2, ReadPort(p.rf, p.wb, i.rs1), ReadPort(p.rf, p.wb, i.rs2))
    else DE(false, false, false, 0, 0, 0, 0, 0, 0)
  }

  function Stalls(s: Strategy, p: Pipe, rs1: Reg, rs2: Reg): bool {
    match s
    case Forwarding => HazardStall(rs1, rs2, p.de)
    case StallOnly => NoForwardStall(rs1, rs2, p.de, p.em, false)
  }

  /** One clock edge.  `hold` is the memory interlock: it freezes the pipeline registers
      while the register file keeps rewriting the value in WB. */
  method Step(x: Exec, prog: seq<Instr>, s: Strategy, p: Pipe, hold: bool, ghost regs: seq<int>, ghost w: nat)
    returns (p': Pipe, ghost w': nat)
    requires Inv(x, prog, regs, s, p, w)
    ensures Inv(x, prog, regs, s, p', w')
    ensures hold ==> p' == p.(rf := p'.rf) && w' == w
    ensures !hold ==> w' == w + Bit(p.wb.valid) && p'.rf == Sequential(x, prog, regs, w')
    ensures !hold ==> p'.wb.valid == p.em.valid && p'.em.valid == p.de.valid
    ensures !hold ==> var d := Decode(prog, p);
                      var stall := Stalls(s, p, d.rs1, d.rs2);
                      && p'.pc == p.pc + Bit(d.valid && !stall) && p'.de == NextDE(false, false, stall, p.de, d)
                      && p'.em.regWrite == p.de.regWrite
  {
    hide Sequential, Inv;
    InvShape(x, prog, regs, s, p, w);
    var a := Operand(s, p, p.de.rs1, p.de.rv1);
    var b := Operand(s, p, p.de.rs2, p.de.rv2);
    var aluOut := x.alu(p.de.op, a, b);
    var d := Decode(prog, p);
    var stall := Stalls(s, p, d.rs1, d.rs2);
    var rf := Written(p.rf, p.wb);
    WriteBack(x, prog, regs, s, p, w);
    if hold {
      p', w' := p.(rf := rf, de := NextDE(true, false, stall, p.de, d)), w;
      HoldKeeps(x, prog, regs, s, p, w);
    } else {
      p' := Pipe(rf, if d.valid && !stall then p.pc + 1 else p.pc, NextDE(false, false, stall, p.de, d),
                 EM(p.de.valid, p.de.regWrite, p.de.memRead, p.de.rd, aluOut),
                 WB(p.em.valid, p.em.regWrite, p.em.memRead, p.em.rd, p.em.aluOut, x.mem(p.em.aluOut)));
      w' := w + Bit(p.wb.valid);
      AdvanceKeeps(x, prog, regs, s, p, w, p');
    }
  }

  lemma InvShape(x: Exec, prog: seq<Instr>, regs: seq<int>, s: Strategy, p: Pipe, w: nat)
    requires Inv(x, prog, regs, s, p, w)
    ensures |p.rf| == 32 && |regs| == 32 && w + Bit(p.wb.valid) + Bit(p.em.valid) <= |prog|
    ensures Bubbles(p) && p.pc <= |prog|
  {
  }

  lemma HoldKeeps(x: Exec, prog: seq<Instr>, regs: seq<int>, s: Strategy, p: Pipe, w: nat)
    requires Inv(x, prog, regs, s, p, w)
    ensures Inv(x, prog, regs, s, p.(rf := Written(p.rf, p.wb)), w)
  {
    WriteBack(x, prog, regs, s, p, w);
    hide Sequential;
  }

  /** What the edge puts in ID/EX is separated from its producers by the stall rule. */
  lemma DecodeSeparated(prog: seq<Instr>, s: Strategy, p: Pipe, p': Pipe, r: Reg)
    requires |p.rf| == 32 && Bubbles(p)
    requires var d := Decode(prog, p); !Stalls(s, p, d.rs1, d.rs2) && (r == d.rs1 || r == d.rs2)
    requires p'.em.regWrite == p.de.regWrite && p'.em.memRead == p.de.memRead && p'.em.rd == p.de.rd
    requires p'.wb.regWrite == p.em.regWrite && p'.wb.rd == p.em.rd
    ensures Separated(s, p', r)
  {
  }

  /** What the edge makes of the pipeline registers, without `hold`. */
  ghost predicate Advanced(x: Exec, prog: seq<Instr>, s: Strategy, p: Pipe, p': Pipe)
    requires |p.rf| == 32
  {
    var d := Decode(prog, p);
    var stall := Stalls(s, p, d.rs1, d.rs2);
    var a, b := OperandValue(s, p, p.de.rs1, p.de.rv1), OperandValue(s, p, p.de.rs2, p.de.rv2);
    && p'.rf == Written(p.rf, p.wb) && p'.pc == (if d.valid && !stall then p.pc + 1 else p.pc)
    && p'.de == NextDE(false, false, stall, p.de, d)
    && p'.em == EM(p.de.valid, p.de.regWrite, p.de.memRead, p.de.rd, x.alu(p.de.op, a, b))
    && p'.wb == WB(p.em.valid, p.em.regWrite, p.em.memRead, p.em.rd, p.em.aluOut, x.mem(p.em.aluOut))
  }

  /** EX and MEM hand their instructions on with the sequential results. */
  lemma ResultsAdvance(x: Exec, prog: seq<Instr>, regs: seq<int>, s: Strategy, p: Pipe, w: nat, p': Pipe)
    requires Inv(x, prog, regs, s, p, w) && Advanced(x, prog, s, p, p')
    ensures var w1 := w + Bit(p.wb.valid); var w2 := w1 + Bit(p.em.valid);
            && (p'.wb.valid ==> w1 < |prog| && CarriesWB(x, p'.wb, prog[w1], Sequential(x, prog, regs, w1)))
            && (p'.em.valid ==> w2 < |prog| && CarriesEM(x, p'.em, prog[w2], Sequential(x, prog, regs, w2)))
  {
    if p.de.valid {
      OperandIsSequential(x, prog, regs, s, p, w, p.de.rs1, p.de.rv1);
      OperandIsSequential(x, prog, regs, s, p, w, p.de.rs2, p.de.rv2);
    }
    hide Sequential, OperandValue, Written, ReadPort, Stalls, Fetched, Separated;
  }

  /** ID hands its instruction on with the values read and the separation it needs. */
  lemma DecodeAdvances(x: Exec, prog: seq<Instr>, regs: seq<int>, s: Strategy, p: Pipe, w: nat, p': Pipe)
    requires Inv(x, prog, regs, s, p, w) && Advanced(x, prog, s, p, p') && p'.de.valid
    ensures var w1 := w + Bit(p.wb.valid); var w2 := w1 + Bit(p.em.valid);
            && p.pc < |prog| && CarriesDE(p'.de, prog[p.pc])
            && Fetched(x, prog, regs, w1, w2, p'.de.rs1, p'.de.rv1)
            && Fetched(x, prog, regs, w1, w2, p'.de.rs2, p'.de.rv2)
            && Separated(s, p', p'.de.rs1) && Separated(s, p', p'.de.rs2)
  {
    var d := Decode(prog, p);
    DecodeSeparated(prog, s, p, p', d.rs1);
    DecodeSeparated(prog, s, p, p', d.rs2);
    hide Sequential, OperandValue, Separated, Stalls;
    WriteBack(x, prog, regs, s, p, w);
    BypassReadsWritten(p.rf, p.wb, d.rs1);
    BypassReadsWritten(p.rf, p.wb, d.rs2);
    hide Written, ReadPort;
  }

  /** Every stage hands its instruction on with the right values. */
  lemma AdvanceKeeps(x: Exec, prog: seq<Instr>, regs: seq<int>, s: Strategy, p: Pipe, w: nat, p': Pipe)
    requires Inv(x, prog, regs, s, p, w) && Advanced(x, prog, s, p, p')
    ensures Inv(x, prog, regs, s, p', w + Bit(p.wb.valid))
  {
    hide Sequential, OperandValue, Separated, Written, ReadPort, Stalls, Fetched, CarriesWB, CarriesEM, CarriesDE;
    WriteBack(x, prog, regs, s, p, w);
    ResultsAdvance(x, prog, regs, s, p, w, p');
    if p'.de.valid {
      DecodeAdvances(x, prog, regs, s, p, w, p');
    }
  }

  /** The write port leaves the sequential registers after the instruction in WB. */
  lemma WriteBack(x: Exec, prog: seq<Instr>, regs: seq<int>, s: Strategy, p: Pipe, w: nat)
    requires Inv(x, prog, regs, s, p, w)
    ensures Written(p.rf, p.wb) == Sequential(x, prog, regs, w + Bit(p.wb.valid))
  {
    SequentialZero(x, prog, regs, w);
    if p.wb.valid {
      SequentialZero(x, prog, regs, w + 1);
      OneStep(x, prog, regs, w);
    }
  }

  lemma {:induction false} SequentialZero(x: Exec, prog: seq<Instr>, regs: seq<int>, n: nat)
    requires |regs| == 32 && regs[0] == 0 && n <= |prog|
    ensures Sequential(x, prog, regs, n)[0] == 0
  {
    if n != 0 {
      SequentialZero(x, prog, regs, n - 1);
    }
  }

  /** Cycles per instruction at worst: one load-use stall each, or two stalls each. */
  function Rate(s: Strategy): nat { if s == Forwarding then 2 else 3 }

  /** Stalls the producers in flight can still cause. */
  function StallsLeft(s: Strategy, p: Pipe): nat {
    match s
    case Forwarding => Bit(p.de.memRead)
    case StallOnly => if p.de.regWrite then 2 else Bit(p.em.regWrite)
  }

  /** Stages still to drain. */
  function Depth(p: Pipe): nat {
    if p.de.valid then 3 else if p.em.valid then 2 else Bit(p.wb.valid)
  }

  predicate Finished(prog: seq<Instr>, p: Pipe) { p.pc >= |prog| && Depth(p) == 0 }

  /** Cycles used so far stay within the bound the instructions fetched so far allow. */
  ghost predicate InBudget(s: Strategy, prog: seq<Instr>, p: Pipe, cycles: nat) {
    if p.pc < |prog| then cycles + StallsLeft(s, p) <= Rate(s) * p.pc
    else cycles + Depth(p) <= Rate(s) * |prog| + 3
  }

  lemma BudgetAdvances(s: Strategy, prog: seq<Instr>, p: Pipe, p': Pipe, cycles: nat)
    requires |p.rf| == 32 && Bubbles(p) && p.pc <= |prog| && !Finished(prog, p) && InBudget(s, prog, p, cycles)
    requires p'.wb.valid == p.em.valid && p'.em.valid == p.de.valid && p'.em.regWrite == p.de.regWrite
    requires var d := Decode(prog, p);
             var stall := Stalls(s, p, d.rs1, d.rs2);
             p'.pc == p.pc + Bit(d.valid && !stall) && p'.de == NextDE(false, false, stall, p.de, d)
    ensures InBudget(s, prog, p', cycles + 1)
  {
  }

  /** Any program, either strategy, any memory waits (waits(k) held cycles before edge k):
      the pipeline drains within the bound and leaves the sequential registers. */
  method Run(x: Exec, prog: seq<Instr>, s: Strategy, regs: seq<int>, waits: nat -> nat)
    returns (rf: seq<int>, cycles: nat)
    requires |regs| == 32 && regs[0] == 0
    ensures rf == Sequential(x, prog, regs, |prog|)
    ensures cycles <= Rate(s) * |prog| + 3
  {
    hide Sequential, Inv, InBudget, Finished, Decode, Stalls, Rate;
    var p := START.(rf := regs);
    ghost var w: nat := 0;
    RunStarts(x, prog, s, regs);
    cycles := 0;
    while !Finished(prog, p)
      invariant Inv(x, prog, regs, s, p, w) && InBudget(s, prog, p, cycles)
      invariant w <= |prog| && p.rf == Sequential(x, prog, regs, w)
      decreases Rate(s) * |prog| + 3 - cycles
    {
      ghost var before := p;
      RunGoesOn(x, prog, s, regs, p, w, cycles);
      for i := 0 to waits(cycles)
        invariant Inv(x, prog, regs, s, p, w) && p == before.(rf := p.rf)
      {
        p, w := Step(x, prog, s, p, true, regs, w);
      }
      ghost var q := p;
      BudgetIgnoresRegisters(s, prog, before, q, cycles);
      InvShape(x, prog, regs, s, q, w);
      p, w := Step(x, prog, s, p, false, regs, w);
      InvShape(x, prog, regs, s, p, w);
      BudgetAdvances(s, prog, q, p, cycles);
      cycles := cycles + 1;
    }
    RunEnds(x, prog, s, regs, p, w, cycles);
    rf := p.rf;
  }

  /** Reset: nothing in flight. */
  const START := Pipe([], 0, DE(false, false, false, 0, 0, 0, 0, 0, 0), EM(false, false, false, 0, 0),
                      WB(false, false, false, 0, 0, 0))

  lemma RunStarts(x: Exec, prog: seq<Instr>, s: Strategy, regs: seq<int>)
    requires |regs| == 32 && regs[0] == 0
    ensures Inv(x, prog, regs, s, START.(rf := regs), 0) && InBudget(s, prog, START.(rf := regs), 0)
    ensures Sequential(x, prog, regs, 0) == regs
  {
    hide Sequential;
    StartsSequential(x, prog, regs);
  }

  lemma RunGoesOn(x: Exec, prog: seq<Instr>, s: Strategy, regs: seq<int>, p: Pipe, w: nat, cycles: nat)
    requires Inv(x, prog, regs, s, p, w) && InBudget(s, prog, p, cycles) && !Finished(prog, p)
    ensures cycles < Rate(s) * |prog| + 3
  {
    hide Sequential, Decode;
    if p.pc < |prog| {
      assert Rate(s) * p.pc <= Rate(s) * |prog|;
    }
  }

  lemma RunEnds(x: Exec, prog: seq<Instr>, s: Strategy, regs: seq<int>, p: Pipe, w: nat, cycles: nat)
    requires Inv(x, prog, regs, s, p, w) && InBudget(s, prog, p, cycles) && Finished(prog, p)
    ensures w == |prog| && cycles <= Rate(s) * |prog| + 3
  {
    hide Sequential, Decode;
  }

  lemma BudgetIgnoresRegisters(s: Strategy, prog: seq<Instr>, p: Pipe, q: Pipe, cycles: nat)
    requires q == p.(rf := q.rf) && InBudget(s, prog, p, cycles) && !Finished(prog, p)
    ensures InBudget(s, prog, q, cycles) && !Finished(prog, q)
  {
  }

  lemma StartsSequential(x: Exec, prog: seq<Instr>, regs: seq<int>)
    requires |regs| == 32
    ensures Sequential(x, prog, regs, 0) == regs
  {
  }
}
