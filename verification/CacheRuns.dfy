/** Whole runs of the data cache: every run refines a flat memory, every held request is
    answered, every flush ends. */
module CacheRuns {
  import opened CacheWord
  import opened CacheCoherence
  import opened DCache

  /** The inputs of one cycle; the slave's data is its memory's word on a read. */
  datatype Cycle = Cycle(req: Request, flushAll: bool, ack: bool)

  /** The registers, the slave's memory and the flat memory between two edges. */
  datatype Snap = Snap(r: Regs, mem: Memory, flat: Memory)

  ghost predicate Proper(g: Geometry, s: Snap) { Inv(g, s.r, s.mem, s.flat) }

  ghost predicate StepOk(g: Geometry, s: Snap, c: Cycle, s': Snap, resp: Response, store: Committed) {
    && Proper(g, s) && Proper(g, s')
    && CycleSpec(g, s.r, s.mem, s.flat, c.req, c.flushAll, c.ack, s'.r, s'.mem, s'.flat, resp, store)
  }

  /** Every edge of a run meets the cycle specification, from an empty cache on. */
  ghost predicate RunOk(g: Geometry, ram: Memory, inputs: seq<Cycle>, t: seq<Snap>, resps: seq<Response>,
                        stores: seq<Committed>) {
    && |resps| == |stores| == |inputs| && |t| == |inputs| + 1
    && t[0].mem == ram && t[0].flat == ram && t[0].r.state == Idle && Empty(t[0].r.t)
    && forall i :: 0 <= i < |inputs| ==> StepOk(g, t[i], inputs[i], t[i + 1], resps[i], stores[i])
  }

  /** The flat memory after a sequence of commits. */
  ghost function Replay(m: Memory, stores: seq<Committed>): Memory
    requires Total(m)
    ensures Total(Replay(m, stores))
  {
    if stores == [] then m else Applied(Replay(m, stores[..|stores| - 1]), stores[|stores| - 1])
  }

  lemma StepFacts(g: Geometry, s: Snap, c: Cycle, s': Snap, resp: Response, store: Committed)
    requires StepOk(g, s, c, s', resp, store)
    ensures Total(s.flat) && s'.flat == Applied(s.flat, store)
    ensures s'.r.flush.done ==> s'.mem == s'.flat
  {
    hide UniqueTags, OwnedIsFlat, StaleIsDirty, DirtyIsValid, StateInv, ScannedClean, VictimsInRange;
    hide Moves, FlushSpec, Ready, Commits;
  }

  /** The flat memory is exactly the replay of the committed stores. */
  lemma {:induction false} FlatIsReplay(g: Geometry, ram: Memory, inputs: seq<Cycle>, t: seq<Snap>,
                                        resps: seq<Response>, stores: seq<Committed>, n: nat)
    requires RunOk(g, ram, inputs, t, resps, stores) && Total(ram) && n <= |inputs|
    ensures t[n].flat == Replay(ram, stores[..n])
  {
    hide StepOk;
    if n > 0 {
      FlatIsReplay(g, ram, inputs, t, resps, stores, n - 1);
      assert StepOk(g, t[n - 1], inputs[n - 1], t[(n - 1) + 1], resps[n - 1], stores[n - 1]);
      StepFacts(g, t[n - 1], inputs[n - 1], t[n], resps[n - 1], stores[n - 1]);
      assert stores[..n][..n - 1] == stores[..n - 1];
    }
  }

  // ---- The held-request protocol ----

  /** A request is a read or a write, is held until it is answered, and never comes with a
      flush. */
  ghost predicate Held(inputs: seq<Cycle>, resps: seq<Response>)
    requires |resps| == |inputs|
  {
    && (forall i :: 0 <= i < |inputs| ==> OneKind(inputs[i]))
    && (forall i :: 0 < i < |inputs| && IsRequest(inputs[i - 1].req) && !resps[i - 1].ready ==>
          inputs[i].req == inputs[i - 1].req)
  }

  predicate OneKind(c: Cycle) { !(c.req.read && c.req.write) && (c.flushAll ==> !IsRequest(c.req)) }

  /** What the caller of a held request observes in a cycle that starts from s: exactly the
      acknowledged stores commit, and an answered load returns the flat memory by its own
      width, at the requested word on a hit and at the line's last word after a fill. */
  ghost predicate Observed(g: Geometry, s: Snap, c: Cycle, resp: Response, store: Committed)
    requires Total(s.flat) && g.lineWords > 0
  {
    var a := c.req.addr;
    && store == (if c.req.write && resp.ready then Committed(AsStore(c.req)) else NoStore)
    && (c.req.read && resp.ready ==>
          (s.r.state == HitRd || s.r.state == Fill) &&
          resp.rdata == ExtendRead(s.flat[if s.r.state == HitRd then a.w else LastWord(g, a)], c.req.funct3, a.off))
  }

  function LastWord(g: Geometry, a: Addr): WordAddr
    requires g.lineWords > 0
  {
    a.w.(word := g.lineWords - 1)
  }

  /** The cache is working on the request now presented. */
  predicate Serving(r: Regs, req: Request) {
    && (r.state == HitRd ==> req.read && !req.write && req.addr == r.hit.served && req.funct3 == r.hit.funct3)
    && (Missing(r) ==> IsRequest(req) && AsksFor(req, r.miss))
  }

  lemma HeldStep(g: Geometry, s: Snap, c: Cycle, s': Snap, resp: Response, store: Committed, next: Request)
    requires StepOk(g, s, c, s', resp, store) && OneKind(c) && Serving(s.r, c.req)
    requires IsRequest(c.req) && !resp.ready ==> next == c.req
    ensures Total(s.flat) && g.lineWords > 0 && Observed(g, s, c, resp, store) && Serving(s'.r, next)
  {
    hide UniqueTags, OwnedIsFlat, StaleIsDirty, DirtyIsValid, ScannedClean, VictimsInRange, ExtendRead, MergeWrite;
    hide FlushSpec, Stored, Hits, Filled, WrittenBack;
  }

  /** Over any run under the protocol: every acknowledged store commits, once, nothing else
      does, and every answered load reads the stores so far. */
  lemma {:induction false} HeldRun(g: Geometry, ram: Memory, inputs: seq<Cycle>, t: seq<Snap>, resps: seq<Response>,
                                   stores: seq<Committed>, n: nat)
    requires RunOk(g, ram, inputs, t, resps, stores) && Held(inputs, resps) && n <= |inputs|
    ensures n < |inputs| ==> Serving(t[n].r, inputs[n].req)
    ensures forall i :: 0 <= i < n ==>
      Total(t[i].flat) && g.lineWords > 0 && Observed(g, t[i], inputs[i], resps[i], stores[i])
  {
    hide StepOk, Observed, Serving, OneKind;
    if n == 0 {
      IdleServes(t[0].r, if |inputs| > 0 then inputs[0].req else NO_REQUEST);
    } else {
      HeldRun(g, ram, inputs, t, resps, stores, n - 1);
      var i := n - 1;
      assert StepOk(g, t[i], inputs[i], t[i + 1], resps[i], stores[i]);
      HeldStep(g, t[i], inputs[i], t[n], resps[i], stores[i], if n < |inputs| then inputs[n].req else inputs[i].req);
    }
  }

  lemma IdleServes(r: Regs, req: Request)
    requires r.state == Idle
    ensures Serving(r, req)
  {
  }

  // ---- Which acknowledged stores commit, without the protocol ----

  /** An acknowledged store takes effect if and only if no flush starts in that cycle and, at
      the end of a fill, the fill was for a store of the same width and data. */
  lemma AcknowledgedStore(g: Geometry, s: Snap, c: Cycle, s': Snap, resp: Response, store: Committed)
    requires StepOk(g, s, c, s', resp, store) && c.req.write && !c.req.read && resp.ready
    ensures store == Committed(AsStore(c.req)) <==>
      && !(s.r.state == Idle && c.flushAll)
      && (s.r.state == Fill ==> s.r.miss.isWrite && s.r.miss.funct3 == c.req.funct3 && s.r.miss.wdata == c.req.wdata)
  {
    hide Coherent, StateInv, ScannedClean, VictimsInRange, Moves, FlushSpec, Hits, ExtendRead, Stored;
  }

  /** Any run from reset, with any requests, flushes and acknowledge pattern. */
  method Run(g: Geometry, ram: Memory, inputs: seq<Cycle>)
    returns (resps: seq<Response>, finalRam: Memory, flushed: bool, ghost t: seq<Snap>, ghost stores: seq<Committed>)
    requires g.Proper() && Total(ram)
    requires forall i :: 0 <= i < |inputs| ==> g.Addressable(inputs[i].req.addr.w)
    ensures RunOk(g, ram, inputs, t, resps, stores) && t[|inputs|].mem == finalRam
    ensures forall i :: 0 <= i <= |inputs| ==> t[i].flat == Replay(ram, stores[..i])
    ensures flushed == (|inputs| > 0 && t[|inputs|].r.flush.done) && (flushed ==> finalRam == Replay(ram, stores))
    ensures Held(inputs, resps) ==> forall i :: 0 <= i < |inputs| ==>
      Total(t[i].flat) && Observed(g, t[i], inputs[i], resps[i], stores[i])
  {
    hide Proper, CycleSpec, AfterWrite, Inv, Replay, Observed, Held;
    var cache := new Cache(g, ram);
    resps, finalRam, stores, t := [], ram, [], [Snap(cache.r, ram, ram)];
    flushed := false;
    assert Proper(g, t[0]) by { ProperIsInv(g, t[0]); }
    for i := 0 to |inputs|
      invariant cache.g == g && |resps| == |stores| == i && |t| == i + 1
      invariant t[i] == Snap(cache.r, cache.mem, cache.flat) && cache.mem == finalRam && Total(finalRam)
      invariant t[0].mem == ram && t[0].flat == ram && t[0].r.state == Idle && Empty(t[0].r.t)
      invariant cache.Valid()
      invariant forall k :: 0 <= k < i ==> StepOk(g, t[k], inputs[k], t[k + 1], resps[k], stores[k])
      invariant flushed == (i > 0 && t[i].r.flush.done)
    {
      var c := inputs[i];
      ghost var s := t[i];
      var resp;
      ghost var store;
      resp, finalRam, store := ClockOn(cache, c, finalRam);
      ghost var s' := Snap(cache.r, cache.mem, cache.flat);
      flushed := cache.r.flush.done;
      t, resps, stores := t + [s'], resps + [resp], stores + [store];
    }
    forall i | 0 <= i <= |inputs| ensures t[i].flat == Replay(ram, stores[..i]) {
      FlatIsReplay(g, ram, inputs, t, resps, stores, i);
    }
    if flushed {
      var i := |inputs| - 1;
      assert StepOk(g, t[i], inputs[i], t[i + 1], resps[i], stores[i]);
      StepFacts(g, t[i], inputs[i], t[i + 1], resps[i], stores[i]);
      assert stores[..|inputs|] == stores;
    }
    if Held(inputs, resps) { HeldRun(g, ram, inputs, t, resps, stores, |inputs|); }
  }

  lemma ProperIsInv(g: Geometry, s: Snap)
    ensures Proper(g, s) <==> Inv(g, s.r, s.mem, s.flat)
  {
  }

  /** One edge with the slave's memory beside the cache. */
  method ClockOn(cache: Cache, c: Cycle, ram: Memory) returns (resp: Response, ram': Memory, ghost store: Committed)
    requires cache.Valid() && cache.mem == ram && Total(ram) && cache.g.Addressable(c.req.addr.w)
    modifies cache
    ensures cache.Valid() && cache.mem == ram' && Total(ram')
    ensures StepOk(cache.g, old(Snap(cache.r, cache.mem, cache.flat)), c, Snap(cache.r, cache.mem, cache.flat),
                   resp, store)
    ensures !(old(cache.r.state) == Wb && c.ack) ==> ram' == ram
  {
    hide Inv, CycleSpec, AfterWrite;
    ghost var r, mem, flat := cache.r, cache.mem, cache.flat;
    ram' := ram;
    if cache.r.state == Wb && c.ack {
      BusWriteInRange(cache.g, cache.r, cache.mem, cache.flat);
      ram' := ram[cache.r.BusAddr() := cache.r.t.data[(cache.r.wb.line, cache.r.fillWord)]];
    }
    resp, store := cache.Clock(c.req, c.flushAll, c.ack, ram[cache.r.BusAddr()]);
    MemAfter(cache.g, r, mem, flat, c, cache.r, cache.mem, cache.flat, resp, store);
  }

  lemma MemAfter(g: Geometry, r: Regs, mem: Memory, flat: Memory, c: Cycle,
                 r': Regs, mem': Memory, flat': Memory, resp: Response, store: Committed)
    requires Inv(g, r, mem, flat) && Inv(g, r', mem', flat')
    requires CycleSpec(g, r, mem, flat, c.req, c.flushAll, c.ack, r', mem', flat', resp, store)
    ensures r.state == Wb ==> (r.wb.line, r.fillWord) in r.t.data
    ensures mem' == if r.state == Wb && c.ack then AfterWrite(r, mem) else mem
  {
    hide Coherent, ScannedClean, VictimsInRange, Moves, FlushSpec, Ready, Commits;
    InvShape(g, r, mem, flat);
  }

  lemma BusWriteInRange(g: Geometry, r: Regs, mem: Memory, flat: Memory)
    requires Inv(g, r, mem, flat) && r.state == Wb
    ensures (r.wb.line, r.fillWord) in r.t.data
    ensures AfterWrite(r, mem) == mem[r.BusAddr() := r.t.data[(r.wb.line, r.fillWord)]]
  {
    InvShape(g, r, mem, flat);
  }

  const NO_REQUEST := Request(false, false, Addr(WordAddr(0, 0, 0), 0), ZERO, 0)

  // ---- A held request is answered ----

  /** Words still to be acknowledged in a miss: out of the victim, then into it. */
  function WordsLeft(g: Geometry, r: Regs): int {
    if r.state == Wb then g.lineWords - r.fillWord + g.lineWords else g.lineWords - r.fillWord
  }

  /** The first cycle of a request on an idle cache. */
  lemma FirstEdge(g: Geometry, s: Snap, c: Cycle, s': Snap, resp: Response, store: Committed)
    requires StepOk(g, s, c, s', resp, store) && s.r.state == Idle && IsRequest(c.req) && OneKind(c)
    ensures Shaped(g, s.r.t) && Shaped(g, s'.r.t) && Total(s.flat)
    ensures var hit := Hits(g, s.r.t, c.req.addr.w);
            && (resp.ready <==> hit && c.req.write)
            && s'.flat == (if resp.ready then Stored(s.flat, AsStore(c.req)) else s.flat)
            && (hit && c.req.write ==> s'.r.state == Idle && Hits(g, s'.r.t, c.req.addr.w))
            && (hit && c.req.read ==>
                  && s'.r.state == HitRd && s'.r.hit.served == c.req.addr && s'.r.hit.funct3 == c.req.funct3
                  && Hits(g, s'.r.t, c.req.addr.w))
            && (!hit ==> Missing(s'.r) && AsksFor(c.req, s'.r.miss) && 0 < WordsLeft(g, s'.r) <= 2 * g.lineWords)
  {
    hide UniqueTags, OwnedIsFlat, StaleIsDirty, DirtyIsValid, ScannedClean, VictimsInRange, ExtendRead, MergeWrite;
    hide FlushSpec, Stored, Hits, Filled, WrittenBack;
  }

  /** The second cycle of a read hit. */
  lemma HitEdge(g: Geometry, s: Snap, c: Cycle, s': Snap, resp: Response, store: Committed)
    requires StepOk(g, s, c, s', resp, store) && s.r.state == HitRd && c.req.read && !c.req.write
    requires c.req.addr == s.r.hit.served && c.req.funct3 == s.r.hit.funct3
    ensures Total(s.flat) && s'.flat == s.flat && s'.r.state == Idle && s'.r.t == s.r.t
    ensures resp == Response(true, ExtendRead(s.flat[c.req.addr.w], c.req.funct3, c.req.addr.off))
  {
    hide UniqueTags, OwnedIsFlat, StaleIsDirty, DirtyIsValid, ScannedClean, VictimsInRange, ExtendRead, MergeWrite;
    hide FlushSpec, Stored, Hits;
  }

  /** A cycle of a miss whose request is held. */
  lemma MissEdge(g: Geometry, s: Snap, c: Cycle, s': Snap, resp: Response, store: Committed)
    requires StepOk(g, s, c, s', resp, store) && Missing(s.r) && IsRequest(c.req) && AsksFor(c.req, s.r.miss)
    ensures Shaped(g, s'.r.t) && Total(s.flat) && Total(s'.flat) && g.lineWords > 0 && WordsLeft(g, s.r) > 0
    ensures !c.ack ==> s'.r == s.r && s'.flat == s.flat && !resp.ready
    ensures c.ack && WordsLeft(g, s.r) > 1 ==>
      && Missing(s'.r) && AsksFor(c.req, s'.r.miss) && WordsLeft(g, s'.r) == WordsLeft(g, s.r) - 1
      && s'.flat == s.flat && !resp.ready
    ensures c.ack && WordsLeft(g, s.r) == 1 ==>
      && s'.r.state == Idle && Hits(g, s'.r.t, c.req.addr.w)
      && s'.flat == (if c.req.write then Stored(s.flat, AsStore(c.req)) else s.flat)
      && resp.ready && resp.rdata == ExtendRead(s'.flat[LastWord(g, c.req.addr)], c.req.funct3, c.req.addr.off)
  {
    hide UniqueTags, OwnedIsFlat, StaleIsDirty, DirtyIsValid, ScannedClean, VictimsInRange, ExtendRead, MergeWrite;
    hide FlushSpec, Hits, Filled, WrittenBack;
  }

  /** A request held on an idle cache is answered after at most two lines of acknowledged
      words, none on a hit, whatever the delays; a store takes effect, a load reads the flat
      memory (a miss its line's last word), and the line is then in the cache. */
  method Serve(cache: Cache, ram: Memory, req: Request, delay: nat -> nat)
    returns (resp: Response, ram': Memory, acks: nat)
    requires cache.Valid() && cache.r.state == Idle && cache.mem == ram && Total(ram)
    requires cache.g.Addressable(req.addr.w) && IsRequest(req) && !(req.read && req.write)
    requires Shaped(cache.g, cache.r.t) && Total(cache.flat) && cache.g.lineWords > 0
    modifies cache
    ensures cache.Valid() && cache.r.state == Idle && cache.mem == ram' && Total(ram')
    ensures Shaped(cache.g, cache.r.t) && Hits(cache.g, cache.r.t, req.addr.w)
    ensures resp.ready && acks <= 2 * cache.g.lineWords && (acks == 0 <==> old(Hits(cache.g, cache.r.t, req.addr.w)))
    ensures cache.flat == if req.write then Stored(old(cache.flat), AsStore(req)) else old(cache.flat)
    ensures req.read ==> resp.rdata == ExtendRead(
      old(cache.flat)[if acks == 0 then req.addr.w else LastWord(cache.g, req.addr)], req.funct3, req.addr.off)
  {
    hide StepOk, Inv, Hits, Shaped, ExtendRead, Stored;
    ghost var g, flat := cache.g, cache.flat;
    ghost var s, store := Snap(cache.r, cache.mem, cache.flat), NoStore;
    acks := 0;
    resp, ram', store := ClockOn(cache, Cycle(req, false, false), ram);
    FirstEdge(g, s, Cycle(req, false, false), Snap(cache.r, cache.mem, cache.flat), resp, store);
    if resp.ready { return; }
    if cache.r.state == HitRd {
      s := Snap(cache.r, cache.mem, cache.flat);
      resp, ram', store := ClockOn(cache, Cycle(req, false, false), ram');
      HitEdge(g, s, Cycle(req, false, false), Snap(cache.r, cache.mem, cache.flat), resp, store);
      return;
    }
    ghost var total := WordsLeft(g, cache.r);
    while !resp.ready
      invariant cache.Valid() && cache.mem == ram' && Total(ram')
      invariant !resp.ready ==> Missing(cache.r) && AsksFor(req, cache.r.miss) && cache.flat == flat
      invariant !resp.ready ==> WordsLeft(g, cache.r) > 0 && acks + WordsLeft(g, cache.r) == total
      invariant resp.ready ==> acks == total && cache.r.state == Idle
      invariant resp.ready ==> Shaped(g, cache.r.t) && Hits(g, cache.r.t, req.addr.w)
      invariant resp.ready ==> cache.flat == if req.write then Stored(flat, AsStore(req)) else flat
      invariant resp.ready ==> Total(cache.flat)
      invariant resp.ready ==> resp.rdata == ExtendRead(cache.flat[LastWord(g, req.addr)], req.funct3, req.addr.off)
      decreases if resp.ready then 0 else WordsLeft(g, cache.r)
    {
      ghost var r := cache.r;
      for i := 0 to delay(acks)
        invariant cache.Valid() && cache.mem == ram' && Total(ram') && cache.r == r && cache.flat == flat && !resp.ready
      {
        s := Snap(cache.r, cache.mem, cache.flat);
        resp, ram', store := ClockOn(cache, Cycle(req, false, false), ram');
        MissEdge(g, s, Cycle(req, false, false), Snap(cache.r, cache.mem, cache.flat), resp, store);
      }
      s := Snap(cache.r, cache.mem, cache.flat);
      resp, ram', store := ClockOn(cache, Cycle(req, false, true), ram');
      MissEdge(g, s, Cycle(req, false, true), Snap(cache.r, cache.mem, cache.flat), resp, store);
      acks := acks + 1;
    }
  }

  // ---- Where the code falls short of its callers' wishes ----

  /** The first load of a cold cache, held: it returns the line's last word, so it is right
      exactly when that was the word asked for, or the memory happens to make it so. */
  method ColdRead(g: Geometry, ram: Memory, a: Addr, f: Funct3, delay: nat -> nat) returns (rdata: Word)
    requires g.Proper() && g.Addressable(a.w) && Total(ram)
    ensures rdata == ExtendRead(ram[LastWord(g, a)], f, a.off)
    ensures a.w.word == g.lineWords - 1 ==> rdata == ExtendRead(ram[a.w], f, a.off)
  {
    hide ExtendRead, Inv, Hits, Shaped, Stored, Empty;
    var cache := new Cache(g, ram);
    InvGives(g, cache.r, cache.mem, cache.flat);
    EmptyMisses(g, cache.r.t, a.w);
    var resp, _, acks := Serve(cache, ram, Request(true, false, a, ZERO, f), delay);
    rdata := resp.rdata;
  }

  /** For every other word some memory makes the answer wrong. */
  method ColdReadWrong(g: Geometry, any: Memory, a: Addr, f: Funct3, delay: nat -> nat)
    returns (ram: Memory, rdata: Word)
    requires g.Proper() && g.Addressable(a.w) && Total(any) && a.w.word != g.lineWords - 1
    ensures Total(ram) && rdata != ExtendRead(ram[a.w], f, a.off)
  {
    ram := any[a.w := Word(1, 1, 1, 1)][LastWord(g, a) := ZERO];
    rdata := ColdRead(g, ram, a, f, delay);
  }

  /** An acknowledged store is lost: a write hit in the cycle of a flush. */
  method LostToFlush(g: Geometry, ram: Memory, req: Request, delay: nat -> nat)
    returns (resp: Response, ghost store: Committed)
    requires g.Proper() && g.Addressable(req.addr.w) && Total(ram) && req.write && !req.read
    ensures resp.ready && store == NoStore
  {
    hide StepOk, Hits, Inv, Shaped, Stored;
    var cache := new Cache(g, ram);
    InvGives(g, cache.r, cache.mem, cache.flat);
    var first, ram', acks := Serve(cache, ram, req, delay);
    ghost var s := Snap(cache.r, cache.mem, cache.flat);
    resp, ram', store := ClockOn(cache, Cycle(req, true, false), ram');
    FlushLoses(g, s, Cycle(req, true, false), Snap(cache.r, cache.mem, cache.flat), resp, store);
  }

  lemma FlushLoses(g: Geometry, s: Snap, c: Cycle, s': Snap, resp: Response, store: Committed)
    requires StepOk(g, s, c, s', resp, store) && s.r.state == Idle && c.flushAll && c.req.write
    requires Shaped(g, s.r.t) && Hits(g, s.r.t, c.req.addr.w)
    ensures resp.ready && store == NoStore
  {
    hide Coherent, StateInv, ScannedClean, VictimsInRange, Moves, FlushSpec, Hits, ExtendRead, Stored;
  }

  /** And so is a store that replaces a held load on the last word of its fill. */
  method LostToFill(g: Geometry, ram: Memory, req: Request) returns (resp: Response, ghost store: Committed)
    requires g.Proper() && g.Addressable(req.addr.w) && Total(ram) && req.write && !req.read
    ensures resp.ready && store == NoStore
  {
    hide StepOk, Hits, ExtendRead, Stored, Inv, Shaped, Empty;
    var cache := new Cache(g, ram);
    InvGives(g, cache.r, cache.mem, cache.flat);
    EmptyMisses(g, cache.r.t, req.addr.w);
    var load := req.(read := true, write := false);
    ghost var s := Snap(cache.r, cache.mem, cache.flat);
    var ram';
    resp, ram', store := ClockOn(cache, Cycle(load, false, false), ram);
    FirstEdge(g, s, Cycle(load, false, false), Snap(cache.r, cache.mem, cache.flat), resp, store);
    while WordsLeft(g, cache.r) > 1
      invariant cache.Valid() && cache.mem == ram' && Total(ram')
      invariant Missing(cache.r) && AsksFor(load, cache.r.miss) && WordsLeft(g, cache.r) >= 1
      decreases WordsLeft(g, cache.r)
    {
      s := Snap(cache.r, cache.mem, cache.flat);
      resp, ram', store := ClockOn(cache, Cycle(load, false, true), ram');
      MissEdge(g, s, Cycle(load, false, true), Snap(cache.r, cache.mem, cache.flat), resp, store);
    }
    s := Snap(cache.r, cache.mem, cache.flat);
    resp, ram', store := ClockOn(cache, Cycle(req, false, true), ram');
    FillLoses(g, s, Cycle(req, false, true), Snap(cache.r, cache.mem, cache.flat), resp, store);
  }

  lemma FillLoses(g: Geometry, s: Snap, c: Cycle, s': Snap, resp: Response, store: Committed)
    requires StepOk(g, s, c, s', resp, store) && Missing(s.r) && WordsLeft(g, s.r) == 1 && !s.r.miss.isWrite
    requires c.ack && c.req.write && c.req.addr == s.r.miss.addr
    ensures resp.ready && store == NoStore
  {
    hide UniqueTags, OwnedIsFlat, StaleIsDirty, DirtyIsValid, ScannedClean, VictimsInRange, ExtendRead, MergeWrite;
    hide FlushSpec, Hits, Filled, WrittenBack, Moves;
  }

  lemma InvGives(g: Geometry, r: Regs, mem: Memory, flat: Memory)
    requires Inv(g, r, mem, flat)
    ensures Shaped(g, r.t) && Total(flat) && Total(mem) && g.Proper()
  {
  }

  lemma EmptyMisses(g: Geometry, t: Tables, a: WordAddr)
    requires Shaped(g, t) && Empty(t)
    ensures !Hits(g, t, a)
  {
  }

  // ---- A flush ends ----

  /** One edge of a flush with nothing requested. */
  lemma FlushEdge(g: Geometry, s: Snap, ack: bool, s': Snap, resp: Response, store: Committed)
    requires StepOk(g, s, Cycle(NO_REQUEST, false, ack), s', resp, store) && s.r.flush.active
    ensures s'.flat == s.flat && s'.r.t == s.r.t.(dirty := s'.r.t.dirty)
    ensures Flushing(g, s.r) && FlushProgress(g, s.r, s'.r, ack)
    ensures s.r.state == Wb && !ack ==> s'.r == s.r
    ensures s'.r.flush.active ==> Flushing(g, s'.r)
    ensures s'.r.flush.active == !s'.r.flush.done
  {
    hide UniqueTags, OwnedIsFlat, StaleIsDirty, DirtyIsValid, VictimsInRange, Moves, Ready, WrittenBack;
  }

  lemma FlushStarts(g: Geometry, s: Snap, s': Snap, resp: Response, store: Committed)
    requires StepOk(g, s, Cycle(NO_REQUEST, true, false), s', resp, store) && s.r.state == Idle
    ensures s'.flat == s.flat && s'.r.t == s.r.t && s'.r.flush.active && Flushing(g, s'.r)
  {
    hide UniqueTags, OwnedIsFlat, StaleIsDirty, DirtyIsValid, VictimsInRange, Ready, WrittenBack;
  }

  lemma FlushedClean(g: Geometry, s: Snap)
    requires Proper(g, s) && s.r.flush.done
    ensures s.r.state == Idle && Shaped(g, s.r.t) && AllClean(g, s.r.t) && s.mem == s.flat
  {
    FlushedIsFlat(g, s.r, s.mem, s.flat);
  }

  ghost predicate Flushing(g: Geometry, r: Regs) {
    g.InRange(r.flush.scan) && (r.state == FlushScan || (r.state == Wb && r.fillWord < g.lineWords))
  }

  /** A flush request on an idle cache, whatever the acknowledge delays (the k-th write is
      acknowledged after delay(k) cycles): it ends, with every line clean, valid bits, tags
      and data as they were, and the slave equal to the flat memory. */
  method Flush(cache: Cache, ram: Memory, delay: nat -> nat) returns (ram': Memory)
    requires cache.Valid() && cache.r.state == Idle && cache.mem == ram && Total(ram) && cache.g.Proper()
    modifies cache
    ensures cache.Valid() && cache.r.state == Idle && cache.r.flush.done
    ensures Shaped(cache.g, cache.r.t) && AllClean(cache.g, cache.r.t)
    ensures cache.r.t == old(cache.r.t).(dirty := cache.r.t.dirty)
    ensures cache.flat == old(cache.flat) && cache.mem == ram' == old(cache.flat)
  {
    hide StepOk, Inv, FlushProgress, Shaped, AllClean;
    ghost var g, t, flat := cache.g, cache.r.t, cache.flat;
    ghost var s, store := Snap(cache.r, cache.mem, cache.flat), NoStore;
    var resp;
    resp, ram', store := ClockOn(cache, Cycle(NO_REQUEST, true, false), ram);
    FlushStarts(g, s, Snap(cache.r, cache.mem, cache.flat), resp, store);
    var k := 0;
    while cache.r.flush.active
      invariant cache.Valid() && cache.mem == ram' && Total(ram') && cache.flat == flat
      invariant cache.r.t == t.(dirty := cache.r.t.dirty)
      invariant cache.r.flush.active ==> Flushing(g, cache.r)
      invariant !cache.r.flush.active ==> cache.r.flush.done
      decreases cache.r.flush.active, g.sets - cache.r.flush.scan.idx, g.ways - cache.r.flush.scan.way,
                cache.r.state == FlushScan, g.lineWords - cache.r.fillWord
    {
      ghost var r := cache.r;
      if cache.r.state == Wb {
        for i := 0 to delay(k)
          invariant cache.Valid() && cache.mem == ram' && Total(ram') && cache.flat == flat && cache.r == r
        {
          s := Snap(cache.r, cache.mem, cache.flat);
          resp, ram', store := ClockOn(cache, Cycle(NO_REQUEST, false, false), ram');
          FlushEdge(g, s, false, Snap(cache.r, cache.mem, cache.flat), resp, store);
        }
        k := k + 1;
      }
      s := Snap(cache.r, cache.mem, cache.flat);
      resp, ram', store := ClockOn(cache, Cycle(NO_REQUEST, false, true), ram');
      FlushEdge(g, s, true, Snap(cache.r, cache.mem, cache.flat), resp, store);
      FlushMeasure(g, s.r, cache.r);
    }
    ProperIsInv(g, Snap(cache.r, cache.mem, cache.flat));
    FlushedClean(g, Snap(cache.r, cache.mem, cache.flat));
  }

  lemma FlushMeasure(g: Geometry, r: Regs, r': Regs)
    requires FlushProgress(g, r, r', true) && r.flush.active && Flushing(g, r) && (r'.flush.active ==> Flushing(g, r'))
    ensures r'.flush.active ==>
      || r.flush.scan.idx < r'.flush.scan.idx
      || (r.flush.scan.idx == r'.flush.scan.idx && r.flush.scan.way < r'.flush.scan.way)
      || (r.flush.scan == r'.flush.scan && r'.state == Wb && (r.state == FlushScan || r'.fillWord > r.fillWord))
  {
  }
}
