/** The write-back, write-allocate data cache as a clocked machine over an abstract bus
    slave: an acknowledged read returns the slave's word at the address presented, an
    acknowledged write changes that word. */
module DCache {
  import opened CacheWord
  import opened CacheCoherence

  datatype Addr = Addr(w: WordAddr, off: Two)

  datatype Request = Request(read: bool, write: bool, addr: Addr, wdata: Word, funct3: Funct3)

  datatype Store = Store(addr: WordAddr, funct3: Funct3, off: Two, wdata: Word)

  datatype State = Idle | HitRd | Wb | Fill | FlushScan

  /** The combinational response of one cycle. */
  datatype Response = Response(ready: bool, rdata: Word)

  const SILENT := Response(false, ZERO)

  /** The latched hit, miss, write-back and flush registers. */
  datatype HitRegs = HitRegs(line: Line, word: nat, funct3: Funct3, off: Two, served: Addr)

  datatype MissRegs = MissRegs(way: nat, addr: Addr, funct3: Funct3, isWrite: bool, wdata: Word) {
    function Victim(): Line { Line(addr.w.idx, way) }

    /** The pending write-allocate store. */
    function AsStore(): Store { Store(addr.w, funct3, addr.off, wdata) }

    /** What a fill writes for word w when the bus returns d. */
    function FillValue(w: nat, d: Word): Word {
      if isWrite && w == addr.w.word then MergeWrite(d, funct3, addr.off, wdata) else d
    }
  }

  datatype WbRegs = WbRegs(line: Line, tag: nat, returnToFlush: bool)

  datatype FlushRegs = FlushRegs(scan: Line, active: bool, done: bool)

  datatype Regs = Regs(t: Tables, victim: seq<nat>, state: State, hit: HitRegs, miss: MissRegs,
                       fillWord: nat, wb: WbRegs, flush: FlushRegs) {

    /** The line being filled holds neither its old nor its new contents. */
    function InService(): Service { if state == Fill then Except(miss.Victim()) else All }

    /** The address on the bus while a transfer is requested. */
    function BusAddr(): WordAddr {
      if state == Wb then WordAddr(wb.tag, wb.line.idx, fillWord) else miss.addr.w.(word := fillWord)
    }
  }

  /** The flat memory after a store. */
  ghost function Stored(m: Memory, s: Store): Memory
    requires Total(m)
  {
    m[s.addr := MergeWrite(m[s.addr], s.funct3, s.off, s.wdata)]
  }

  predicate Before(l: Line, m: Line) { l.idx < m.idx || (l.idx == m.idx && l.way < m.way) }

  /** Lines the flush has passed are clean. */
  ghost predicate ScannedClean(g: Geometry, t: Tables, f: FlushRegs)
    requires Shaped(g, t)
  {
    f.active ==> g.InRange(f.scan) && forall l :: g.InRange(l) && Before(l, f.scan) ==> !t.dirty[l]
  }

  ghost predicate MissPending(g: Geometry, t: Tables, x: Service, m: MissRegs)
    requires Shaped(g, t)
  {
    m.way < g.ways && g.Addressable(m.addr.w) && Absent(g, t, x, m.addr.w.idx, m.addr.w.tag)
  }

  /** Words already written back equal the slave's. */
  ghost predicate WrittenBack(g: Geometry, t: Tables, l: Line, n: nat, mem: Memory)
    requires Shaped(g, t) && Total(mem) && g.InRange(l) && n <= g.lineWords
  {
    forall w: nat :: w < n ==> mem[WordAddr(t.tags[l], l.idx, w)] == t.data[(l, w)]
  }

  /** Words already filled are the slave's, with the pending store merged in. */
  ghost predicate Filled(g: Geometry, t: Tables, m: MissRegs, n: nat, mem: Memory)
    requires Shaped(g, t) && Total(mem) && g.InRange(m.Victim()) && n <= g.lineWords
  {
    forall w: nat :: w < n ==> t.data[(m.Victim(), w)] == m.FillValue(w, mem[m.addr.w.(word := w)])
  }

  ghost predicate VictimsInRange(g: Geometry, victim: seq<nat>) {
    |victim| == g.sets && forall s: nat :: s < g.sets ==> victim[s] < g.ways
  }

  ghost predicate AllClean(g: Geometry, t: Tables)
    requires Shaped(g, t)
  {
    forall l :: g.InRange(l) ==> !t.dirty[l]
  }

  ghost predicate StateInv(g: Geometry, r: Regs, mem: Memory)
    requires Shaped(g, r.t) && Total(mem)
  {
    match r.state
    case Idle => !r.flush.active
    case HitRd =>
      && !r.flush.active && r.hit.word == r.hit.served.w.word && r.hit.off == r.hit.served.off
      && Owner(g, r.t, All, r.hit.line, r.hit.served.w)
    case Wb =>
      && g.InRange(r.wb.line) && r.t.valid[r.wb.line] && r.wb.tag == r.t.tags[r.wb.line] && r.fillWord < g.lineWords
      && WrittenBack(g, r.t, r.wb.line, r.fillWord, mem)
      && (if r.wb.returnToFlush then r.flush.active && r.wb.line == r.flush.scan
          else !r.flush.active && MissPending(g, r.t, All, r.miss) && r.wb.line == r.miss.Victim())
    case Fill =>
      && !r.flush.active && MissPending(g, r.t, r.InService(), r.miss) && r.fillWord < g.lineWords
      && Filled(g, r.t, r.miss, r.fillWord, mem)
    case FlushScan => r.flush.active
  }

  ghost predicate Inv(g: Geometry, r: Regs, mem: Memory, flat: Memory) {
    && Coherent(g, r.t, r.InService(), mem, flat)
    && VictimsInRange(g, r.victim) && ScannedClean(g, r.t, r.flush) && StateInv(g, r, mem)
    && (r.flush.done ==> r.state == Idle && AllClean(g, r.t))
  }

  /** The way comparators: at most one way matches, so OR-ing the matching ways' data and
      index selects that way. */
  method Lookup(g: Geometry, t: Tables, a: WordAddr) returns (hit: bool, line: Line, word: Word)
    requires g.Proper() && Shaped(g, t) && UniqueTags(g, t, All) && g.Addressable(a)
    ensures hit ==> Owner(g, t, All, line, a) && word == t.data[(line, a.word)]
    ensures !hit ==> Absent(g, t, All, a.idx, a.tag)
  {
    hit, line, word := false, Line(a.idx, 0), ZERO;
    for w := 0 to g.ways
      invariant hit ==> Owner(g, t, All, line, a) && word == t.data[(line, a.word)] && line.way < w
      invariant !hit ==> forall v: nat :: v < w ==> !(t.valid[Line(a.idx, v)] && t.tags[Line(a.idx, v)] == a.tag)
    {
      var l := Line(a.idx, w);
      if t.valid[l] && t.tags[l] == a.tag {
        assert Owner(g, t, All, l, a);
        hit, line, word := true, l, t.data[(l, a.word)];
      }
    }
  }

  /** S_IDLE with a flush request. */
  method BeginFlush(g: Geometry, r: Regs, ghost mem: Memory, ghost flat: Memory) returns (r': Regs)
    requires Inv(g, r, mem, flat) && r.state == Idle
    ensures Inv(g, r', mem, flat) && r' == r.(flush := FlushRegs(Line(0, 0), true, false), state := FlushScan)
  {
    r' := r.(flush := FlushRegs(Line(0, 0), true, false), state := FlushScan);
  }

  /** S_IDLE, write hit: merge in place and mark dirty. */
  method WriteHit(g: Geometry, r: Regs, l: Line, req: Request, word: Word, ghost mem: Memory, ghost flat: Memory)
    returns (r': Regs)
    requires Inv(g, r, mem, flat) && r.state == Idle
    requires Owner(g, r.t, All, l, req.addr.w) && word == r.t.data[(l, req.addr.w.word)]
    ensures Inv(g, r', mem, Stored(flat, Store(req.addr.w, req.funct3, req.addr.off, req.wdata)))
    ensures r'.state == Idle && r'.flush == r.flush.(done := false) && Owner(g, r'.t, All, l, req.addr.w)
  {
    var a := req.addr.w;
    var merged := MergeWrite(word, req.funct3, req.addr.off, req.wdata);
    StoreKeeps(g, r.t, mem, flat, l, a, merged);
    r' := r.(t := r.t.(data := r.t.data[(l, a.word) := merged], dirty := r.t.dirty[l := true]),
             flush := r.flush.(done := false));
  }

  /** S_IDLE, read hit: latch the line for the next cycle. */
  method ReadHit(g: Geometry, r: Regs, l: Line, req: Request, ghost mem: Memory, ghost flat: Memory) returns (r': Regs)
    requires Inv(g, r, mem, flat) && r.state == Idle && Owner(g, r.t, All, l, req.addr.w)
    ensures Inv(g, r', mem, flat) && r'.state == HitRd && !r'.flush.done && !r'.flush.active && r'.t == r.t
    ensures r'.hit == HitRegs(l, req.addr.w.word, req.funct3, req.addr.off, req.addr)
  {
    r' := r.(hit := HitRegs(l, req.addr.w.word, req.funct3, req.addr.off, req.addr), state := HitRd,
             flush := r.flush.(done := false));
  }

  /** S_IDLE, miss: latch the request; a dirty victim is written back first. */
  method BeginMiss(g: Geometry, r: Regs, req: Request, ghost mem: Memory, ghost flat: Memory) returns (r': Regs)
    requires Inv(g, r, mem, flat) && r.state == Idle && g.Addressable(req.addr.w)
    requires Absent(g, r.t, All, req.addr.w.idx, req.addr.w.tag)
    ensures Inv(g, r', mem, flat) && r'.t == r.t && !r'.flush.active && !r'.flush.done
    ensures r'.miss == MissRegs(r.victim[req.addr.w.idx], req.addr, req.funct3, req.write, req.wdata)
    ensures r'.state == (if r.t.dirty[r'.miss.Victim()] then Wb else Fill) && Missing(r') && r'.fillWord == 0
  {
    var miss := MissRegs(r.victim[req.addr.w.idx], req.addr, req.funct3, req.write, req.wdata);
    var l := miss.Victim();
    r' := r.(miss := miss, fillWord := 0, flush := r.flush.(done := false));
    if r.t.valid[l] && r.t.dirty[l] {
      r' := r'.(wb := WbRegs(l, r.t.tags[l], false), state := Wb);
    } else {
      ExcludeKeeps(g, r.t, mem, flat, l);
      r' := r'.(state := Fill);
    }
  }

  /** The slave after the acknowledged write-back of the word on the bus. */
  ghost function AfterWrite(r: Regs, mem: Memory): Memory
    requires (r.wb.line, r.fillWord) in r.t.data
  {
    mem[r.BusAddr() := r.t.data[(r.wb.line, r.fillWord)]]
  }

  /** S_WB, one acknowledged word that is not the last. */
  method WriteBackWord(g: Geometry, r: Regs, ghost mem: Memory, ghost flat: Memory) returns (r': Regs)
    requires Inv(g, r, mem, flat) && r.state == Wb && r.fillWord < g.lineWords - 1
    ensures Inv(g, r', AfterWrite(r, mem), flat) && r' == r.(fillWord := r.fillWord + 1)
  {
    assert Owner(g, r.t, All, r.wb.line, r.BusAddr());
    WriteBackKeeps(g, r.t, mem, flat, r.wb.line, r.BusAddr());
    r' := r.(fillWord := r.fillWord + 1);
  }

  /** S_WB, the last word: the line is clean; resume the flush, or start the fill. */
  method FinishWriteBack(g: Geometry, r: Regs, ghost mem: Memory, ghost flat: Memory) returns (r': Regs)
    requires Inv(g, r, mem, flat) && r.state == Wb && r.fillWord == g.lineWords - 1
    ensures Inv(g, r', AfterWrite(r, mem), flat)
    ensures var c := r.(t := r.t.(dirty := r.t.dirty[r.wb.line := false]));
            r' == if r.wb.returnToFlush then NextLine(g, c) else c.(fillWord := 0, state := Fill)
  {
    ghost var mem' := AfterWrite(r, mem);
    var l := r.wb.line;
    assert Owner(g, r.t, All, l, r.BusAddr());
    WriteBackKeeps(g, r.t, mem, flat, l, r.BusAddr());
    CleanKeeps(g, r.t, mem', flat, l);
    r' := r.(t := r.t.(dirty := r.t.dirty[l := false]));
    if r.wb.returnToFlush {
      r' := NextLine(g, r');
    } else {
      ExcludeKeeps(g, r'.t, mem', flat, l);
      r' := r'.(fillWord := 0, state := Fill);
    }
  }

  /** The flush moves past a clean line: on to the next index, or done. */
  function NextLine(g: Geometry, r: Regs): Regs
    requires g.Proper()
  {
    if r.flush.scan == Line(g.sets - 1, g.ways - 1)
    then r.(flush := FlushRegs(r.flush.scan, false, true), state := Idle)
    else r.(flush := r.flush.(scan := Successor(g, r.flush.scan)), state := FlushScan)
  }

  /** The line index plus one, carrying from way to set. */
  function Successor(g: Geometry, l: Line): Line {
    if l.way == g.ways - 1 then Line(l.idx + 1, 0) else l.(way := l.way + 1)
  }

  /** S_FLUSH_SCAN: a dirty line goes to write-back, a clean one is passed. */
  method ScanLine(g: Geometry, r: Regs, ghost mem: Memory, ghost flat: Memory) returns (r': Regs)
    requires Inv(g, r, mem, flat) && r.state == FlushScan
    ensures Inv(g, r', mem, flat) && r'.t == r.t && r'.state != HitRd && FlushProgress(g, r, r', false)
    ensures r'.flush.active == !r'.flush.done
    ensures r' == if r.t.dirty[r.flush.scan]
                  then r.(wb := WbRegs(r.flush.scan, r.t.tags[r.flush.scan], true), fillWord := 0, state := Wb)
                  else NextLine(g, r)
  {
    var l := r.flush.scan;
    if r.t.valid[l] && r.t.dirty[l] {
      r' := r.(wb := WbRegs(l, r.t.tags[l], true), fillWord := 0, state := Wb);
    } else {
      r' := NextLine(g, r);
    }
  }

  /** The fills' effect on the flat memory: the pending store, if any. */
  ghost function AfterFill(flat: Memory, m: MissRegs): Memory
    requires Total(flat)
  {
    if m.isWrite then Stored(flat, m.AsStore()) else flat
  }

  /** S_FILL, one acknowledged word that is not the last. */
  method FillWord(g: Geometry, r: Regs, d: Word, ghost mem: Memory, ghost flat: Memory) returns (r': Regs)
    requires Inv(g, r, mem, flat) && r.state == Fill && r.fillWord < g.lineWords - 1 && d == mem[r.BusAddr()]
    ensures Inv(g, r', mem, flat) && r'.state == Fill && r'.miss == r.miss && r'.fillWord == r.fillWord + 1
    ensures r'.flush == r.flush
  {
    var v := r.miss.FillValue(r.fillWord, d);
    FillKeeps(g, r.t, mem, flat, r.miss.Victim(), r.fillWord, v);
    r' := r.(t := r.t.(data := r.t.data[(r.miss.Victim(), r.fillWord) := v]), fillWord := r.fillWord + 1);
  }

  /** S_FILL, the last word: the line enters service and the victim pointer advances. */
  method FinishFill(g: Geometry, r: Regs, d: Word, ghost mem: Memory, ghost flat: Memory) returns (r': Regs)
    requires Inv(g, r, mem, flat) && r.state == Fill && r.fillWord == g.lineWords - 1 && d == mem[r.BusAddr()]
    ensures Inv(g, r', mem, AfterFill(flat, r.miss)) && r'.state == Idle && r'.flush == r.flush && r'.miss == r.miss
    ensures Owner(g, r'.t, All, r.miss.Victim(), r.miss.addr.w)
  {
    var m := r.miss;
    var l, v := m.Victim(), m.FillValue(r.fillWord, d);
    FillKeeps(g, r.t, mem, flat, l, r.fillWord, v);
    var t := r.t.(data := r.t.data[(l, r.fillWord) := v]);
    AbsentIsFresh(g, t, Except(l), mem, flat, m.addr.w);
    InstallKeeps(g, t, mem, flat, l, m.addr.w, m.isWrite, MergeWrite(mem[m.addr.w], m.funct3, m.addr.off, m.wdata));
    r' := r.(t := Installed(t, l, m.addr.w.tag, m.isWrite),
             victim := r.victim[m.addr.w.idx := if m.way == g.ways - 1 then 0 else m.way + 1],
             state := Idle);
  }

  datatype Committed = NoStore | Committed(store: Store)

  ghost function Applied(flat: Memory, c: Committed): Memory
    requires Total(flat)
  {
    if c.Committed? then Stored(flat, c.store) else flat
  }

  function AsStore(req: Request): Store { Store(req.addr.w, req.funct3, req.addr.off, req.wdata) }

  ghost predicate Hits(g: Geometry, t: Tables, a: WordAddr)
    requires Shaped(g, t)
  {
    exists l :: Owner(g, t, All, l, a)
  }

  lemma HitOrAbsent(g: Geometry, t: Tables, a: WordAddr)
    requires Shaped(g, t) && g.Addressable(a)
    ensures Absent(g, t, All, a.idx, a.tag) <==> !Hits(g, t, a)
  {
    forall l | g.InRange(l) && l.idx == a.idx && t.valid[l] && t.tags[l] == a.tag
      ensures Hits(g, t, a)
    {
      assert Owner(g, t, All, l, a);
    }
  }

  /** The store that takes effect on this edge: a write hit when no flush starts, or the
      merged store of a write-allocate whose last word arrives. */
  ghost function Commits(g: Geometry, r: Regs, req: Request, flushAll: bool, ack: bool): Committed
    requires Shaped(g, r.t)
  {
    if r.state == Idle && !flushAll && req.write && Hits(g, r.t, req.addr.w) then Committed(AsStore(req))
    else if r.state == Fill && ack && r.fillWord == g.lineWords - 1 && r.miss.isWrite then Committed(r.miss.AsStore())
    else NoStore
  }

  /** When the response is asserted. */
  ghost predicate Ready(g: Geometry, r: Regs, req: Request, ack: bool)
    requires Shaped(g, r.t)
  {
    || (r.state == Idle && req.write && Hits(g, r.t, req.addr.w))
    || (r.state == HitRd && req.read && req.addr == r.hit.served)
    || (r.state == Fill && ack && r.fillWord == g.lineWords - 1 && (req.read || req.write) && req.addr == r.miss.addr)
  }

  predicate IsRequest(req: Request) { req.read || req.write }

  /** A miss is being served. */
  predicate Missing(r: Regs) { r.state == Fill || (r.state == Wb && !r.wb.returnToFlush) }

  /** The latched miss is this request. */
  predicate AsksFor(req: Request, m: MissRegs) {
    m.AsStore() == AsStore(req) && m.isWrite == req.write && m.addr == req.addr
  }

  /** One acknowledged word of a miss. */
  ghost predicate Counts(g: Geometry, r: Regs, r': Regs)
    requires Shaped(g, r'.t)
  {
    if r.fillWord < g.lineWords - 1 then r'.state == r.state && Missing(r') && r'.fillWord == r.fillWord + 1
    else if r.state == Wb then r'.state == Fill && r'.fillWord == 0
    else r'.state == Idle && Hits(g, r'.t, r.miss.addr.w)
  }

  /** How the states follow each other: a read hit latches its line, a miss latches its
      request and then counts acknowledged words, first out of a dirty victim, then into it,
      and ends with the requested line in the cache. */
  ghost predicate Moves(g: Geometry, r: Regs, req: Request, flushAll: bool, ack: bool, r': Regs)
    requires Shaped(g, r.t) && Shaped(g, r'.t)
  {
    match r.state
    case Idle =>
      if flushAll || !IsRequest(req) then r'.state == (if flushAll then FlushScan else Idle)
      else if !Hits(g, r.t, req.addr.w) then Missing(r') && AsksFor(req, r'.miss) && r'.fillWord == 0
      else if req.write then r'.state == Idle && Hits(g, r'.t, req.addr.w)
      else r'.state == HitRd && r'.hit.served == req.addr && r'.hit.funct3 == req.funct3 && r'.t == r.t
    case HitRd => r'.state == Idle && r'.t == r.t
    case FlushScan => r'.state != HitRd && !Missing(r')
    case _ =>
      if !Missing(r) then r'.state != HitRd && !Missing(r')
      else if !ack then r' == r
      else r'.miss == r.miss && Counts(g, r, r')
  }

  /** How far a flush has to go: lines left, then words left of the one being written. */
  ghost predicate FlushProgress(g: Geometry, r: Regs, r': Regs, ack: bool) {
    r.flush.active && (r.state == FlushScan || ack) ==>
      || !r'.flush.active
      || Before(r.flush.scan, r'.flush.scan)
      || (r'.flush.scan == r.flush.scan && r'.state == Wb && (r.state == FlushScan || r'.fillWord > r.fillWord))
  }

  /** What one edge does, over every request, flush and bus delay: the flat memory changes
      only by committed stores, the slave only by acknowledged write-backs, a read answered
      by a hit returns the flat memory, a read answered by a fill returns the last word of
      the line, and a finished flush leaves the slave equal to the flat memory. */
  ghost predicate CycleSpec(g: Geometry, r: Regs, mem: Memory, flat: Memory, req: Request, flushAll: bool, ack: bool,
                            r': Regs, mem': Memory, flat': Memory, resp: Response, store: Committed)
    requires Inv(g, r, mem, flat) && Inv(g, r', mem', flat')
  {
    && store == Commits(g, r, req, flushAll, ack) && flat' == Applied(flat, store)
    && mem' == (if r.state == Wb && ack then AfterWrite(r, mem) else mem)
    && (resp.ready <==> Ready(g, r, req, ack))
    && (r.state == HitRd && resp.ready ==> resp.rdata == ExtendRead(flat'[req.addr.w], r.hit.funct3, req.addr.off))
    && (r.state == Fill && resp.ready ==>
          resp.rdata == ExtendRead(flat'[req.addr.w.(word := g.lineWords - 1)], r.miss.funct3, req.addr.off))
    && (r'.flush.done ==> mem' == flat')
    && Moves(g, r, req, flushAll, ack, r') && FlushSpec(g, r, flushAll, ack, r')
  }

  /** A flush, once begun, keeps valid bits, tags and data, moves on with every scan or
      acknowledged word, waits unchanged otherwise, and ends in one done pulse. */
  ghost predicate FlushSpec(g: Geometry, r: Regs, flushAll: bool, ack: bool, r': Regs) {
    && (r.flush.active ==>
          && r'.t == r.t.(dirty := r'.t.dirty) && FlushProgress(g, r, r', ack)
          && (r.state == Wb && !ack ==> r' == r) && r'.flush.active == !r'.flush.done)
    && (r.state == Idle && flushAll ==> r'.flush.active && r'.t == r.t && r'.flush.scan == Line(0, 0))
  }

  lemma FlushedIsFlat(g: Geometry, r: Regs, mem: Memory, flat: Memory)
    requires Inv(g, r, mem, flat) && r.flush.done
    ensures mem == flat
  {
    CleanIsFlat(g, r.t, mem, flat);
  }

  /** S_IDLE with nothing to do, and the return from S_HIT_RD. */
  method Rest(g: Geometry, r: Regs, ghost mem: Memory, ghost flat: Memory) returns (r': Regs)
    requires Inv(g, r, mem, flat) && (r.state == Idle || r.state == HitRd)
    ensures r' == r.(state := Idle, flush := r.flush.(done := false)) && Inv(g, r', mem, flat)
  {
    r' := r.(state := Idle, flush := r.flush.(done := false));
  }

  /** S_IDLE: flush first, then hit or miss. */
  method StepIdle(g: Geometry, r: Regs, req: Request, flushAll: bool, ack: bool, ghost mem: Memory, ghost flat: Memory)
    returns (r': Regs, resp: Response, ghost store: Committed, ghost flat': Memory)
    requires Inv(g, r, mem, flat) && r.state == Idle && g.Addressable(req.addr.w)
    ensures Inv(g, r', mem, flat') && CycleSpec(g, r, mem, flat, req, flushAll, ack, r', mem, flat', resp, store)
  {
    assert !r.flush.active;
    hide StateInv, ScannedClean, VictimsInRange;
    var hit, l, word := Lookup(g, r.t, req.addr.w);
    HitOrAbsent(g, r.t, req.addr.w);
    resp, store, flat' := Response(hit && req.write, ZERO), NoStore, flat;
    if flushAll && !r.flush.active {
      r' := BeginFlush(g, r, mem, flat);
    } else if req.read || req.write {
      if hit {
        if req.write {
          r' := WriteHit(g, r, l, req, word, mem, flat);
          store, flat' := Committed(AsStore(req)), Stored(flat, AsStore(req));
        } else {
          r' := ReadHit(g, r, l, req, mem, flat);
        }
      } else {
        r' := BeginMiss(g, r, req, mem, flat);
      }
    } else {
      r' := Rest(g, r, mem, flat);
    }
  }

  /** S_HIT_RD answers the latched address with the latched line. */
  method StepHitRd(g: Geometry, r: Regs, req: Request, flushAll: bool, ack: bool, ghost mem: Memory, ghost flat: Memory)
    returns (r': Regs, resp: Response)
    requires Inv(g, r, mem, flat) && r.state == HitRd
    ensures Inv(g, r', mem, flat) && CycleSpec(g, r, mem, flat, req, flushAll, ack, r', mem, flat, resp, NoStore)
  {
    resp := SILENT;
    if req.read && req.addr == r.hit.served {
      resp := Response(true, ExtendRead(r.t.data[(r.hit.line, r.hit.word)], r.hit.funct3, r.hit.off));
    }
    r' := Rest(g, r, mem, flat);
  }

  /** S_WB: each acknowledged word goes out of the victim or flushed line. */
  method StepWb(g: Geometry, r: Regs, req: Request, flushAll: bool, ack: bool, ghost mem: Memory, ghost flat: Memory)
    returns (r': Regs, ghost mem': Memory)
    requires Inv(g, r, mem, flat) && r.state == Wb
    ensures Inv(g, r', mem', flat) && CycleSpec(g, r, mem, flat, req, flushAll, ack, r', mem', flat, SILENT, NoStore)
  {
    hide UniqueTags, OwnedIsFlat, StaleIsDirty, DirtyIsValid, ScannedClean, VictimsInRange, WrittenBack, Filled;
    hide ExtendRead, MergeWrite, Owner, Absent;
    r', mem' := r, mem;
    if ack {
      mem' := AfterWrite(r, mem);
      if r.fillWord == g.lineWords - 1 {
        r' := FinishWriteBack(g, r, mem, flat);
        if r'.flush.done {
          FlushedIsFlat(g, r', mem', flat);
        }
      } else {
        r' := WriteBackWord(g, r, mem, flat);
      }
    }
  }

  /** S_FILL: each acknowledged word goes into the victim line. */
  method StepFill(g: Geometry, r: Regs, req: Request, flushAll: bool, ack: bool, d: Word,
                  ghost mem: Memory, ghost flat: Memory)
    returns (r': Regs, resp: Response, ghost store: Committed, ghost flat': Memory)
    requires Inv(g, r, mem, flat) && r.state == Fill && (ack ==> d == mem[r.BusAddr()])
    ensures Inv(g, r', mem, flat') && CycleSpec(g, r, mem, flat, req, flushAll, ack, r', mem, flat', resp, store)
  {
    r', resp, store, flat' := r, SILENT, NoStore, flat;
    if ack && r.fillWord == g.lineWords - 1 {
      LastWordIsFlat(g, r, d, mem, flat);
      if (req.read || req.write) && req.addr == r.miss.addr {
        resp := Response(true, ExtendRead(r.miss.FillValue(r.fillWord, d), r.miss.funct3, r.miss.addr.off));
      }
      r' := FinishFill(g, r, d, mem, flat);
      flat' := AfterFill(flat, r.miss);
      if r.miss.isWrite {
        store := Committed(r.miss.AsStore());
      }
    } else if ack {
      r' := FillWord(g, r, d, mem, flat);
    }
  }

  /** S_FLUSH_SCAN. */
  method StepScan(g: Geometry, r: Regs, req: Request, flushAll: bool, ack: bool, ghost mem: Memory, ghost flat: Memory)
    returns (r': Regs)
    requires Inv(g, r, mem, flat) && r.state == FlushScan
    ensures Inv(g, r', mem, flat) && CycleSpec(g, r, mem, flat, req, flushAll, ack, r', mem, flat, SILENT, NoStore)
  {
    r' := ScanLine(g, r, mem, flat);
    if r'.flush.done {
      FlushedIsFlat(g, r', mem, flat);
    }
  }

  /** The last word filled is the flat memory's last word of that line. */
  lemma LastWordIsFlat(g: Geometry, r: Regs, d: Word, mem: Memory, flat: Memory)
    requires Inv(g, r, mem, flat) && r.state == Fill && r.fillWord == g.lineWords - 1 && d == mem[r.BusAddr()]
    ensures r.miss.FillValue(r.fillWord, d) == AfterFill(flat, r.miss)[r.miss.addr.w.(word := g.lineWords - 1)]
  {
    AbsentIsFresh(g, r.t, r.InService(), mem, flat, r.BusAddr());
  }

  /** The slave's memory and the flat memory after an edge. */
  ghost function NextMem(r: Regs, mem: Memory, ack: bool): Memory
    requires r.state == Wb ==> (r.wb.line, r.fillWord) in r.t.data
  {
    if r.state == Wb && ack then AfterWrite(r, mem) else mem
  }

  ghost function NextFlat(g: Geometry, r: Regs, flat: Memory, req: Request, flushAll: bool, ack: bool): Memory
    requires Shaped(g, r.t) && Total(flat)
  {
    Applied(flat, Commits(g, r, req, flushAll, ack))
  }

  /** The specification determines both. */
  lemma Determined(g: Geometry, r: Regs, mem: Memory, flat: Memory, req: Request, flushAll: bool, ack: bool,
                   r': Regs, mem': Memory, flat': Memory, resp: Response, store: Committed)
    requires Inv(g, r, mem, flat) && Inv(g, r', mem', flat')
    requires CycleSpec(g, r, mem, flat, req, flushAll, ack, r', mem', flat', resp, store)
    ensures EdgeReady(g, r, flat)
    ensures mem' == NextMem(r, mem, ack) && flat' == NextFlat(g, r, flat, req, flushAll, ack)
    ensures store == Commits(g, r, req, flushAll, ack)
  {
    hide Coherent, ScannedClean, VictimsInRange, Commits, Ready, Moves, FlushSpec;
    InvShape(g, r, mem, flat);
  }

  ghost predicate EdgeReady(g: Geometry, r: Regs, flat: Memory) {
    Shaped(g, r.t) && Total(flat) && (r.state == Wb ==> (r.wb.line, r.fillWord) in r.t.data)
  }

  lemma InvShape(g: Geometry, r: Regs, mem: Memory, flat: Memory)
    requires Inv(g, r, mem, flat)
    ensures EdgeReady(g, r, flat)
  {
  }

  /** One clock edge, by state. */
  method Step(g: Geometry, r: Regs, req: Request, flushAll: bool, ack: bool, dataI: Word,
              ghost mem: Memory, ghost flat: Memory)
    returns (r': Regs, resp: Response)
    requires Inv(g, r, mem, flat) && g.Addressable(req.addr.w)
    requires r.state == Fill && ack ==> dataI == mem[r.BusAddr()]
    ensures EdgeReady(g, r, flat)
    ensures Inv(g, r', NextMem(r, mem, ack), NextFlat(g, r, flat, req, flushAll, ack))
    ensures CycleSpec(g, r, mem, flat, req, flushAll, ack, r', NextMem(r, mem, ack),
                      NextFlat(g, r, flat, req, flushAll, ack), resp, Commits(g, r, req, flushAll, ack))
  {
    hide Coherent, CycleSpec, Inv, Commits, NextMem, NextFlat;
    ghost var mem', flat', store := mem, flat, NoStore;
    resp := SILENT;
    match r.state {
      case Idle => r', resp, store, flat' := StepIdle(g, r, req, flushAll, ack, mem, flat);
      case HitRd => r', resp := StepHitRd(g, r, req, flushAll, ack, mem, flat);
      case Wb => r', mem' := StepWb(g, r, req, flushAll, ack, mem, flat);
      case Fill => r', resp, store, flat' := StepFill(g, r, req, flushAll, ack, dataI, mem, flat);
      case FlushScan => r' := StepScan(g, r, req, flushAll, ack, mem, flat);
    }
    Determined(g, r, mem, flat, req, flushAll, ack, r', mem', flat', resp, store);
  }

  /** No line is valid. */
  ghost predicate Empty(t: Tables) { forall l :: l in t.valid ==> !t.valid[l] }

  class Cache {
    const g: Geometry
    var r: Regs
    /** The slave's memory, and the flat memory the cache stands for. */
    ghost var mem: Memory
    ghost var flat: Memory

    ghost predicate Valid()
      reads this
    {
      Inv(g, r, mem, flat)
    }

    /** Reset. */
    constructor (geometry: Geometry, ghost ram: Memory)
      requires geometry.Proper() && Total(ram)
      ensures g == geometry && Valid() && r.state == Idle && mem == ram && flat == ram
      ensures Empty(r.t)
    {
      var s, w, n := geometry.sets, geometry.ways, geometry.lineWords;
      var l, a := Line(0, 0), Addr(WordAddr(0, 0, 0), 0);
      g := geometry;
      r := Regs(Tables(map x: nat, y: nat | x < s && y < w :: Line(x, y) := false,
                       map x: nat, y: nat | x < s && y < w :: Line(x, y) := false,
                       map x: nat, y: nat | x < s && y < w :: Line(x, y) := 0,
                       map x: nat, y: nat, z: nat | x < s && y < w && z < n :: (Line(x, y), z) := ZERO),
                seq(s, i => 0), Idle, HitRegs(l, 0, 0, 0, a), MissRegs(0, a, 0, false, ZERO),
                0, WbRegs(l, 0, false), FlushRegs(l, false, false));
      mem, flat := ram, ram;
    }

    /** One clock edge with its combinational response. */
    method Clock(req: Request, flushAll: bool, ack: bool, dataI: Word) returns (resp: Response, ghost store: Committed)
      requires Valid() && g.Addressable(req.addr.w)
      requires r.state == Fill && ack ==> dataI == mem[r.BusAddr()]
      modifies this
      ensures Valid()
      ensures CycleSpec(g, old(r), old(mem), old(flat), req, flushAll, ack, r, mem, flat, resp, store)
    {
      hide Coherent, StateInv, ScannedClean, VictimsInRange, CycleSpec;
      InvShape(g, r, mem, flat);
      store := Commits(g, r, req, flushAll, ack);
      ghost var mem', flat' := NextMem(r, mem, ack), NextFlat(g, r, flat, req, flushAll, ack);
      r, resp := Step(g, r, req, flushAll, ack, dataI, mem, flat);
      mem, flat := mem', flat';
    }
  }
}
