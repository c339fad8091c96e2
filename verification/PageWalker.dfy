/** The three-level walker circuit and the tagged, direct-mapped TLB it fills. */
module PageWalker {
  import opened Powers
  import opened Sv39

  datatype State = Idle | L2Wait | L2Decode | L1Wait | L1Decode | L0Wait | L0Decode

  datatype Request = Request(vaddr: nat, satpPpn: nat, isFetch: bool, isStore: bool, userMode: bool) {
    function Access(): Access { if isFetch then Fetch else if isStore then Store else Load }
  }

  datatype Regs = Regs(state: State, vpn2: Vpn9, vpn1: Vpn9, vpn0: Vpn9, satpPpn: nat, isFetch: bool, isStore: bool,
                       userMode: bool, pte: nat, busy: bool, done: bool, fault: bool, result: Leaf)

  const RESET := Regs(Idle, 0, 0, 0, 0, false, false, false, 0, false, false, false, NoLeaf)

  predicate Reading(r: Regs) { r.state == L2Wait || r.state == L1Wait || r.state == L0Wait }

  /** The address on the bus while a read is requested. */
  function BusAddr(r: Regs): nat {
    match r.state
    case L2Wait => EntryAddr(r.satpPpn % 0x10_0000, r.vpn2)
    case L1Wait => EntryAddr(Ppn(r.pte), r.vpn1)
    case _ => EntryAddr(Ppn(r.pte), r.vpn0)
  }

  /** The leaf the walk will end in, from the entry in hand or about to be read. */
  ghost function Outcome(tables: Tables, r: Regs, vpn: Vpn27): Leaf {
    match r.state
    case L2Wait => From2(tables, tables(BusAddr(r)), vpn)
    case L2Decode => From2(tables, r.pte, vpn)
    case L1Wait => From1(tables, tables(BusAddr(r)), vpn)
    case L1Decode => From1(tables, r.pte, vpn)
    case L0Wait => From0(tables(BusAddr(r)))
    case _ => From0(r.pte)
  }

  /** Reads acknowledged so far. */
  function ReadsDone(r: Regs): nat {
    match r.state
    case Idle => 0
    case L2Wait => 0
    case L2Decode => 1
    case L1Wait => 1
    case L1Decode => 2
    case L0Wait => 2
    case L0Decode => 3
  }

  /** What the walk of this request must report. */
  ghost predicate Reports(tables: Tables, r: Regs, q: Request) {
    var leaf := FindLeaf(tables, q.satpPpn, Vpn(q.vaddr));
    && (r.fault <==> !leaf.Grants(q.Access(), q.userMode)) && (!r.fault ==> r.result == leaf)
  }

  ghost predicate Inv(tables: Tables, r: Regs, q: Request) {
    && (r.busy <==> r.state != Idle)
    && (r.done ==> !r.busy && Reports(tables, r, q))
    && (r.busy ==>
        && r.vpn2 == Vpn2(Vpn(q.vaddr)) && r.vpn1 == Vpn1(Vpn(q.vaddr)) && r.vpn0 == Vpn0(Vpn(q.vaddr))
        && r.satpPpn == q.satpPpn && r.isFetch == q.isFetch && r.isStore == q.isStore && r.userMode == q.userMode
        && Outcome(tables, r, Vpn(q.vaddr)) == FindLeaf(tables, q.satpPpn, Vpn(q.vaddr)))
  }

  function Faulted(r: Regs): Regs { r.(busy := false, done := true, fault := true, state := Idle) }

  /** A leaf entry that is aligned: permission decides. */
  function Finished(r: Regs, ppn: Ppn20): Regs {
    var permitted := if r.isFetch then X(r.pte) else if r.isStore then W(r.pte) else R(r.pte);
    if permitted && (if r.userMode then U(r.pte) else !U(r.pte))
    then r.(busy := false, done := true, fault := false, state := Idle, result := LeafOf(r.pte, ppn))
    else Faulted(r)
  }

  /** S_IDLE accepts a request. */
  function Accepted(r: Regs, q: Request): Regs {
    r.(vpn2 := q.vaddr / 0x4000_0000 % 512, vpn1 := q.vaddr / 0x20_0000 % 512, vpn0 := q.vaddr / 0x1000 % 512,
       satpPpn := q.satpPpn, isFetch := q.isFetch, isStore := q.isStore, userMode := q.userMode,
       busy := true, state := L2Wait)
  }

  lemma AcceptKeeps(tables: Tables, r: Regs, q: Request)
    requires !r.done
    ensures Inv(tables, Accepted(r, q), q)
  {
    hide Vpn, Vpn0, Vpn1, Vpn2;
    VpnFields(q.vaddr);
  }

  /** A wait state takes the acknowledged entry. */
  function Received(r: Regs, d: nat): Regs
    requires Reading(r)
  {
    r.(pte := d, state := if r.state == L2Wait then L2Decode else if r.state == L1Wait then L1Decode else L0Decode)
  }

  lemma ReceiveKeeps(tables: Tables, r: Regs, q: Request)
    requires Inv(tables, r, q) && Reading(r)
    ensures Inv(tables, Received(r, tables(BusAddr(r))), q)
  {
    hide Vpn, Vpn0, Vpn1, Vpn2, From2, From1, From0, FindLeaf;
  }

  /** A decode state faults, finishes on an aligned leaf, or descends. */
  method Decode(r: Regs, ghost tables: Tables, ghost q: Request) returns (r': Regs)
    requires Inv(tables, r, q) && r.busy && !Reading(r)
    ensures Inv(tables, r', q) && Advances(r, r')
  {
    hide Vpn, Vpn0, Vpn1, Vpn2, Ppn, V, X, W, R, U, EntryAddr, Gigapage, Megapage, FindLeaf;
    var leaf := R(r.pte) || W(r.pte) || X(r.pte);
    if !V(r.pte) {
      r' := Faulted(r);
    } else {
      match r.state {
        case L2Decode =>
          if leaf {
            if r.pte / 1024 % 0x4_0000 != 0 {
              r' := Faulted(r);
            } else {
              r' := Finished(r, Gigapage(Ppn(r.pte), r.vpn1, r.vpn0));
            }
          } else {
            r' := r.(state := L1Wait);
          }
        case L1Decode =>
          if leaf {
            if r.pte / 1024 % 512 != 0 {
              r' := Faulted(r);
            } else {
              r' := Finished(r, Megapage(Ppn(r.pte), r.vpn0));
            }
          } else {
            r' := r.(state := L0Wait);
          }
        case _ =>
          if !leaf {
            r' := Faulted(r);
          } else {
            r' := Finished(r, Ppn(r.pte));
          }
      }
    }
  }

  /** One clock edge. */
  method Step(r0: Regs, start: bool, q: Request, ack: bool, dataI: nat, ghost tables: Tables, ghost cur: Request)
    returns (r: Regs, ghost cur': Request)
    requires Inv(tables, r0, cur) && (Reading(r0) && ack ==> dataI == tables(BusAddr(r0)))
    ensures Inv(tables, r, cur')
    ensures cur' == if start && !r0.busy && !r0.done then q else cur
    ensures start && !r0.busy && !r0.done ==> r.state == L2Wait
    ensures !r0.busy && !(start && !r0.done) ==> r == r0.(done := false)
    ensures r0.busy ==> (if Reading(r0) && !ack then r == r0 else Advances(r0, r))
    ensures r.done ==> r0.busy
  {
    hide Vpn, Vpn0, Vpn1, Vpn2, From2, From1, From0, FindLeaf, Outcome;
    r, cur' := r0.(done := false), cur;
    if r0.state == Idle {
      if start && !r0.busy && !r0.done {
        AcceptKeeps(tables, r, q);
        r, cur' := Accepted(r, q), q;
      }
    } else if Reading(r0) {
      if ack {
        ReceiveKeeps(tables, r0, cur);
        r := Received(r, dataI);
      }
    } else {
      r := Decode(r, tables, cur);
    }
  }

  /** A busy edge that is not waiting moves to the next state or finishes. */
  predicate Advances(r0: Regs, r: Regs) {
    if r.busy then Rank(r.state) > Rank(r0.state) && ReadsDone(r) == ReadsDone(r0) + (if Reading(r0) then 1 else 0)
    else r.done && !Reading(r0)
  }

  function Rank(s: State): nat {
    match s
    case Idle => 0
    case L2Wait => 1
    case L2Decode => 2
    case L1Wait => 3
    case L1Decode => 4
    case L0Wait => 5
    case L0Decode => 6
  }

  /** A caller that holds `start` through the cycle of `done` and then drops it, whatever the
      acknowledge delays: at most three reads, a single done pulse over any number of idle
      edges after it, and the verdict of the reference walk. */
  method RunWalk(tables: Tables, q: Request, delay: nat -> nat, idle: nat)
    returns (fault: bool, leaf: Leaf, nReads: nat, pulses: nat)
    ensures nReads <= 3 && pulses == 1
    ensures fault <==> IssWalk(tables, q.satpPpn, q.vaddr, q.Access(), q.userMode).PageFault?
    ensures !fault ==> leaf == FindLeaf(tables, q.satpPpn, Vpn(q.vaddr))
    ensures !fault ==> leaf.Leaf? && IssWalk(tables, q.satpPpn, q.vaddr, q.Access(), q.userMode) == Page(leaf.ppn)
  {
    hide Vpn, Vpn0, Vpn1, Vpn2, From2, From1, From0, FindLeaf, Outcome, IssWalk;
    var r := RESET;
    ghost var cur := q;
    r, cur := Step(r, true, q, false, 0, tables, cur);
    nReads, pulses := 0, Bit(r.done);
    while !r.done
      invariant Inv(tables, r, q) && cur == q && (r.busy <==> !r.done)
      invariant r.busy ==> nReads == ReadsDone(r)
      invariant nReads <= 3 && pulses == Bit(r.done)
      decreases r.busy, 7 - Rank(r.state)
    {
      if Reading(r) {
        ghost var r0 := r;
        for i := 0 to delay(nReads)
          invariant r == r0 && cur == q
        {
          r, cur := Step(r, true, q, false, 0, tables, cur);
        }
        nReads := nReads + 1;
      }
      r, cur := Step(r, true, q, true, tables(BusAddr(r)), tables, cur);
      pulses := pulses + Bit(r.done);
    }
    fault, leaf := r.fault, r.result;
    WalkIsLeafAndGrant(tables, q.satpPpn, q.vaddr, q.Access(), q.userMode);
    for i := 0 to idle + 1
      invariant Inv(tables, r, q) && cur == q && !r.busy && pulses == 1 && (r.done <==> i == 0)
    {
      r, cur := Step(r, i == 0, q, false, 0, tables, cur);
      pulses := pulses + Bit(r.done);
    }
  }

  datatype Entry = Entry(valid: bool, tag: Vpn27, ppn: Ppn20, r: bool, w: bool, x: bool, u: bool) {
    function AsLeaf(): Leaf { Leaf(ppn, r, w, x, u) }
  }

  /** The entry a fill writes. */
  function EntryOf(vpn: Vpn27, fill: Leaf): Entry
    requires fill.Leaf?
  { Entry(true, vpn, fill.ppn, fill.r, fill.w, fill.x, fill.u) }

  /** Every valid entry is the leaf a fresh walk of its page finds. */
  ghost predicate Sound(entries: seq<Entry>, tables: Tables, satpPpn: nat) {
    forall i :: 0 <= i < |entries| && entries[i].valid ==>
      entries[i].AsLeaf() == FindLeaf(tables, satpPpn, entries[i].tag)
  }

  /** The TLB with its fill and flush ports; both query ports are Lookup. */
  class Tlb {
    var entries: seq<Entry>

    constructor (n: nat)
      requires n > 0
      ensures |entries| == n && forall tables: Tables, satpPpn: nat :: Sound(entries, tables, satpPpn)
    {
      entries := seq(n, i => Entry(false, 0, 0, false, false, false, false));
    }

    function Index(vpn: Vpn27): nat
      requires |entries| > 0
      reads this
    {
      vpn % |entries|
    }

    predicate Hit(vaddr: nat)
      requires |entries| > 0
      reads this
    {
      entries[Index(Vpn(vaddr))].valid && entries[Index(Vpn(vaddr))].tag == Vpn(vaddr)
    }

    /** A hit gives the page of a fresh walk, and its cached bits grant an access exactly
        when a fresh walk for that access and privilege would succeed. */
    method Lookup(vaddr: nat, ghost tables: Tables, ghost satpPpn: nat) returns (hit: bool, leaf: Leaf)
      requires |entries| > 0 && Sound(entries, tables, satpPpn)
      ensures hit == Hit(vaddr)
      ensures hit ==> leaf.Leaf? && forall access, userMode ::
                        IssWalk(tables, satpPpn, vaddr, access, userMode) == Granted(leaf, access, userMode)
    {
      hide Vpn, FindLeaf, IssWalk;
      var e := entries[Index(Vpn(vaddr))];
      hit, leaf := e.valid && e.tag == Vpn(vaddr), e.AsLeaf();
      if hit {
        forall access, userMode
          ensures IssWalk(tables, satpPpn, vaddr, access, userMode) == Granted(leaf, access, userMode)
        {
          WalkIsLeafAndGrant(tables, satpPpn, vaddr, access, userMode);
        }
      }
    }

    /** One edge of the fill and flush ports; flush has priority. */
    method Clock(flushAll: bool, fillValid: bool, fillVaddr: nat, fill: Leaf)
      requires |entries| > 0 && (fillValid ==> fill.Leaf?)
      modifies this
      ensures |entries| == |old(entries)|
      ensures flushAll ==> forall tables: Tables, satpPpn: nat :: Sound(entries, tables, satpPpn)
      ensures flushAll ==> forall i :: 0 <= i < |entries| ==> !entries[i].valid
      ensures !flushAll && fillValid ==>
                entries == old(entries)[Vpn(fillVaddr) % |old(entries)| := EntryOf(Vpn(fillVaddr), fill)]
      ensures !flushAll && !fillValid ==> entries == old(entries)
    {
      hide Vpn;
      if flushAll {
        entries := seq(|entries|, i requires 0 <= i < |entries| reads this => entries[i].(valid := false));
      } else if fillValid {
        entries := entries[Index(Vpn(fillVaddr)) := EntryOf(Vpn(fillVaddr), fill)];
      }
    }
  }

  /** One translated access through the TLB, walking and filling on a miss: the reference
      verdict, and the TLB stays sound, so the same holds of every later access until the
      tables or satp change. */
  method Translate(tlb: Tlb, tables: Tables, q: Request, delay: nat -> nat) returns (page: Walk)
    requires |tlb.entries| > 0 && Sound(tlb.entries, tables, q.satpPpn)
    modifies tlb
    ensures |tlb.entries| == |old(tlb.entries)| && Sound(tlb.entries, tables, q.satpPpn)
    ensures page == IssWalk(tables, q.satpPpn, q.vaddr, q.Access(), q.userMode)
  {
    hide Vpn, FindLeaf, IssWalk;
    var hit, leaf := tlb.Lookup(q.vaddr, tables, q.satpPpn);
    if hit {
      page := if leaf.Grants(q.Access(), q.userMode) then Page(leaf.ppn) else PageFault;
    } else {
      var fault, found, _, _ := RunWalk(tables, q, delay, 0);
      if fault {
        page := PageFault;
      } else {
        page := Page(found.ppn);
        tlb.Clock(false, true, q.vaddr, found);
      }
    }
  }

  /** What satp points at. */
  datatype Space = Space(tables: Tables, satpPpn: nat)

  /** A translated access, or software changing satp or the tables and then fencing. */
  datatype Command =
    | Use(vaddr: nat, isFetch: bool, isStore: bool, userMode: bool)
    | Remap(space: Space)
  {
    function At(satpPpn: nat): Request
      requires Use?
    { Request(vaddr, satpPpn, isFetch, isStore, userMode) }
  }

  /** The address space in force after some commands. */
  function Current(start: Space, cmds: seq<Command>): Space {
    if cmds == [] then start
    else if cmds[|cmds| - 1].Remap? then cmds[|cmds| - 1].space else Current(start, cmds[..|cmds| - 1])
  }

  function FreshWalk(s: Space, c: Command): Walk
    requires c.Use?
  {
    var q := c.At(s.satpPpn);
    IssWalk(s.tables, s.satpPpn, q.vaddr, q.Access(), q.userMode)
  }

  /** Any sequence of accesses, fills, evictions and fenced remappings from reset: each access
      gets the verdict of a fresh walk of the space in force. */
  method TranslateAll(size: nat, start: Space, cmds: seq<Command>, delay: nat -> (nat -> nat))
    returns (pages: seq<Walk>)
    requires size > 0
    ensures |pages| == |cmds|
    ensures forall i :: 0 <= i < |cmds| && cmds[i].Use? ==> pages[i] == FreshWalk(Current(start, cmds[..i]), cmds[i])
  {
    hide IssWalk, FindLeaf, Vpn;
    var tlb := new Tlb(size);
    var now := start;
    pages := [];
    for i := 0 to |cmds|
      invariant |pages| == i && |tlb.entries| == size && now == Current(start, cmds[..i])
      invariant Sound(tlb.entries, now.tables, now.satpPpn)
      invariant forall k :: 0 <= k < i && cmds[k].Use? ==> pages[k] == FreshWalk(Current(start, cmds[..k]), cmds[k])
    {
      assert cmds[..i + 1][..i] == cmds[..i];
      var page := PageFault;
      if cmds[i].Use? {
        page := Translate(tlb, now.tables, cmds[i].At(now.satpPpn), delay(i));
      } else {
        now := cmds[i].space;
        tlb.Clock(true, false, 0, NoLeaf);
      }
      pages := pages + [page];
    }
  }
}
