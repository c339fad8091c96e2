/** Two UARTs on one wire: the transmitter's frame and the receiver's sampling, for every
    CLKS_PER_BIT >= 2. */
module Uart {
  import opened Powers

  /** A byte as its bits, least significant first. */
  type Byte = b: seq<bool> | |b| == 8 witness [false, false, false, false, false, false, false, false]

  datatype Phase = Idle | Start | Data | Stop

  datatype Tx = Tx(state: Phase, count: nat, bit: nat, shift: Byte, line: bool)

  datatype Rx = Rx(state: Phase, count: nat, bit: nat, shift: Byte, data: Byte, ready: bool, prev: bool)

  datatype Write = NoWrite | Write(value: Byte)

  const ZEROS: Byte := [false, false, false, false, false, false, false, false]
  const TX_RESET := Tx(Idle, 0, 0, ZEROS, true)
  const RX_RESET := Rx(Idle, 0, 0, ZEROS, ZEROS, false, true)

  /** Segment s of a frame on the wire: start, eight data bits, stop, then idle. */
  function Segment(v: Byte, s: nat): bool {
    if s == 0 then false else if s <= 8 then v[s - 1] else true
  }

  function PhaseOf(s: nat): Phase {
    if s == 0 then Start else if s <= 8 then Data else if s == 9 then Stop else Idle
  }

  /** The wire c edges into segment s: it lags the state by one edge. */
  function LineAt(v: Byte, s: nat, c: nat): bool {
    if c > 0 then Segment(v, s) else s == 0 || Segment(v, s - 1)
  }

  /** The transmitter s segments and c edges after accepting v. */
  ghost predicate TxAt(C: nat, v: Byte, s: nat, c: nat, t: Tx) {
    && c < C && t.line == LineAt(v, s, c) && t.state == PhaseOf(s)
    && (s <= 9 ==> t.shift == v && t.count == c && (1 <= s <= 8 ==> t.bit == s - 1))
  }

  /** Edges from the start of the frame to a position. */
  function Edges(C: nat, s: nat, c: nat): nat { C * s + c }

  /** The position one edge later. */
  function Seg'(C: nat, s: nat, c: nat): nat { if c == C - 1 then s + 1 else s }

  function Off'(C: nat, c: nat): nat { if c == C - 1 then 0 else c + 1 }

  lemma NextPosition(C: nat, s: nat, c: nat)
    requires c < C
    ensures Edges(C, Seg'(C, s, c), Off'(C, c)) == Edges(C, s, c) + 1
  {
  }

  /** Where the receiver is in the frame: looking for the edge, waiting out half the start
      bit, or (m, d) a whole number m of bits and d edges past its middle. */
  datatype RxPos = Looking | Confirming | Sampling(m: nat, d: nat)

  /** The receiver trails the transmitter by two edges and half a bit. */
  ghost predicate RxAt(C: nat, v: Byte, s: nat, c: nat, pos: RxPos, r: Rx)
    requires C >= 2
  {
    var k := Edges(C, s, c);
    match pos
    case Looking => k <= 1 && r.state == Idle && r.prev
    case Confirming => 2 <= k < 2 + C / 2 && r.state == Start && r.count == k - 2
    case Sampling(m, d) =>
      && k == Edges(C, m, d) + 2 + C / 2 && d < C
      && (if m <= 8 then r.count == d && r.state == (if m < 8 then Data else Stop)
                         && (m < 8 ==> r.bit == m) && forall i :: 0 <= i < m ==> r.shift[i] == v[i]
          else r.state == Idle && r.data == v && r.prev)
  }

  /** The receiver's position one edge later. */
  function NextPos(C: nat, s: nat, c: nat, pos: RxPos): RxPos {
    match pos
    case Looking => if s == 0 && c == 0 then Looking else Confirming
    case Confirming => if Edges(C, s, c) + 1 < 2 + C / 2 then Confirming else Sampling(0, 0)
    case Sampling(m, d) => Sampling(Seg'(C, m, d), Off'(C, d))
  }

  /** Two positions with the same edge count are the same position. */
  lemma SamePosition(C: nat, s: nat, c: nat, m: nat, d: nat)
    requires c < C && d < C && C * s + c == C * m + d
    ensures s == m && c == d
  {
    assert C * (s - m) == d - c;
    NoSmallMultiple(C, s - m);
  }

  /** Every sample lands inside its own bit: d == C - 1 ends bit m, and the wire then shows
      segment m + 1, h edges in. */
  lemma SampleInsideBit(C: nat, v: Byte, s: nat, c: nat, m: nat)
    requires C >= 2 && c < C && C * s + c == C * m + (C - 1) + 2 + C / 2
    ensures LineAt(v, s, c) == Segment(v, m + 1)
  {
    assert C * (m + 1) == C * m + C;
    if c > 0 {
      SamePosition(C, s, c - 1, m + 1, C / 2);
    } else {
      assert s > 0;
      assert C * (s - 1) + (C - 1) == C * s - 1;
      SamePosition(C, s - 1, C - 1, m + 1, C / 2);
    }
  }

  /** Past the eighth data bit the wire is high. */
  lemma HighAfterData(C: nat, v: Byte, s: nat, c: nat)
    requires c < C && C * s + c >= 9 * C + 1
    ensures LineAt(v, s, c)
  {
    Compare(C, s, c, 9);
  }

  /** Ordering positions: n whole bits have passed once the edge count reaches C * n. */
  lemma Compare(C: nat, s: nat, c: nat, n: nat)
    requires c < C
    ensures C * s + c >= C * n <==> s >= n
    ensures C * s + c >= C * n + 1 ==> s > n || (s == n && c > 0)
  {
    if s < n {
      assert C * (s + 1) <= C * n;
    } else if s > n {
      assert C * (n + 1) <= C * s;
    }
  }

  /** The start bit is still on the wire when the receiver confirms it. */
  lemma StartConfirmed(C: nat, v: Byte, s: nat, c: nat)
    requires C >= 2 && c < C && 1 <= C * s + c <= 1 + C / 2
    ensures !LineAt(v, s, c)
  {
    Compare(C, s, c, 1);
    Compare(C, s, c, 2);
    if s == 1 {
      assert c == 0;
    }
  }

  /** The eighth sample completes the byte. */
  lemma Collected(v: Byte, r: Rx, m: nat)
    requires m <= 8 && forall i :: 0 <= i < m ==> r.shift[i] == v[i]
    ensures m == 8 ==> r.shift == v
    ensures m < 8 ==> forall i :: 0 <= i < m + 1 ==> r.shift[m := v[m]][i] == v[i]
  {
  }

  /** When the transmitter can accept again, the next edge finds the receiver idle. */
  lemma IdleBeforeNext(C: nat, s: nat, c: nat, pos: RxPos)
    requires C >= 2 && c < C && s >= 10
    requires pos.Sampling? ==> Edges(C, s, c) == Edges(C, pos.m, pos.d) + 2 + C / 2 && pos.d < C
    requires pos.Looking? ==> Edges(C, s, c) <= 1
    requires pos.Confirming? ==> Edges(C, s, c) < 2 + C / 2
    ensures pos.Sampling? && NextPos(C, s, c, pos).m >= 9
  {
    Compare(C, s, c, 10);
    if pos.Sampling? {
      var m', d' := Seg'(C, pos.m, pos.d), Off'(C, pos.d);
      NextPosition(C, pos.m, pos.d);
      Compare(C, m', d', 9);
    }
  }

  /** The link between frames, or inside one. */
  datatype Mode = Quiet | Frame(v: Byte, s: nat, c: nat, pos: RxPos)

  /** The transmitter can take a byte. */
  predicate Free(m: Mode) { m.Quiet? || m.s >= 10 }

  /** The value on the wire. */
  function Wire(m: Mode): bool { m.Quiet? || LineAt(m.v, m.s, m.c) }

  ghost predicate TxOk(C: nat, m: Mode, t: Tx) {
    match m
    case Quiet => t.state == Idle && t.line
    case Frame(v, s, c, _) => TxAt(C, v, s, c, t)
  }

  ghost predicate RxOk(C: nat, m: Mode, r: Rx)
    requires C >= 2
  {
    match m
    case Quiet => r.state == Idle && r.prev
    case Frame(v, s, c, pos) => c < C && RxAt(C, v, s, c, pos, r)
  }

  /** The link's mode after an edge: a byte is taken when the transmitter is free, and a
      frame otherwise proceeds by one edge. */
  ghost function NextMode(C: nat, m: Mode, w: Write): Mode {
    if w.Write? && Free(m) then Frame(w.value, 0, 0, Looking) else Proceed(C, m)
  }

  ghost function Proceed(C: nat, m: Mode): Mode {
    if m.Quiet? then Quiet else Frame(m.v, Seg'(C, m.s, m.c), Off'(C, m.c), NextPos(C, m.s, m.c, m.pos))
  }

  /** One edge of the transmitter: the frame moves on by one edge of CLKS_PER_BIT per segment,
      and a write is taken exactly when the frame is over. */
  method ClockTx(C: nat, t: Tx, w: Write, ghost m: Mode) returns (t': Tx, accepted: bool)
    requires C >= 2 && TxOk(C, m, t)
    ensures TxOk(C, NextMode(C, m, w), t')
    ensures accepted <==> w.Write? && Free(m)
  {
    accepted := false;
    match t.state {
      case Idle =>
        t' := t.(line := true);
        if w.Write? {
          t', accepted := t'.(shift := w.value, state := Start, count := 0), true;
        }
      case Start =>
        t' := t.(line := false);
        if t.count == C - 1 {
          t' := t'.(count := 0, bit := 0, state := Data);
        } else {
          t' := t'.(count := t.count + 1);
        }
      case Data =>
        t' := t.(line := t.shift[t.bit]);
        if t.count == C - 1 {
          t' := t'.(count := 0);
          if t.bit == 7 {
            t' := t'.(state := Stop);
          } else {
            t' := t'.(bit := t.bit + 1);
          }
        } else {
          t' := t'.(count := t.count + 1);
        }
      case Stop =>
        t' := t.(line := true);
        if t.count == C - 1 {
          t' := t'.(count := 0, state := Idle);
        } else {
          t' := t'.(count := t.count + 1);
        }
    }
  }

  /** What the receiver sees where it looks: the falling edge, the start bit half a bit on,
      each data bit inside that bit, and a high wire once the byte is complete. */
  lemma WireSeen(C: nat, m: Mode, r: Rx)
    requires C >= 2 && RxOk(C, m, r) && m.Frame?
    ensures m.pos.Looking? ==> (Wire(m) <==> m.s == 0 && m.c == 0)
    ensures m.pos.Confirming? && Edges(C, m.s, m.c) == 1 + C / 2 ==> !Wire(m)
    ensures m.pos.Sampling? && m.pos.m < 8 && m.pos.d == C - 1 ==> Wire(m) == m.v[m.pos.m]
    ensures m.pos.Sampling? && (m.pos.m >= 9 || (m.pos.m == 8 && m.pos.d == C - 1)) ==> Wire(m)
  {
    var v, s, c := m.v, m.s, m.c;
    match m.pos
    case Looking =>
      Compare(C, s, c, 1);
      if s > 0 || c > 0 { StartConfirmed(C, v, s, c); }
    case Confirming => if Edges(C, s, c) == 1 + C / 2 { StartConfirmed(C, v, s, c); }
    case Sampling(n, d) =>
      if n >= 9 || (n == 8 && d == C - 1) {
        Compare(C, n, d, 8);
        Compare(C, n, d, 9);
        HighAfterData(C, v, s, c);
      } else if d == C - 1 {
        SampleInsideBit(C, v, s, c, n);
      }
  }

  /** An edge of the receiver on the frame's wire: it keeps its distance to the frame and
      delivers the frame's byte on leaving the stop bit; a read consumes the byte. */
  ghost predicate RxEdge(C: nat, m: Mode, r: Rx, rbrRead: bool, r': Rx, delivered: bool)
    requires C >= 2
  {
    && RxOk(C, Proceed(C, m), r') && r'.prev == Wire(m)
    && (delivered <==> m.Frame? && m.pos == Sampling(8, C - 1))
    && r'.data == (if delivered then m.v else r.data) && (r'.ready <==> delivered || (r.ready && !rbrRead))
  }

  method ClockRx(C: nat, r: Rx, rx: bool, rbrRead: bool, ghost m: Mode) returns (r': Rx, delivered: bool)
    requires C >= 2 && RxOk(C, m, r) && rx == Wire(m)
    ensures RxEdge(C, m, r, rbrRead, r', delivered)
  {
    hide RxOk, RxEdge, Wire;
    var b := r.(prev := rx, ready := r.ready && !rbrRead);
    delivered := false;
    match r.state {
      case Idle => r' := RxIdle(C, r, b, rx, rbrRead, m);
      case Start => r' := RxStart(C, r, b, rx, rbrRead, m);
      case Data => r' := RxData(C, r, b, rx, rbrRead, m);
      case Stop => r', delivered := RxStop(C, r, b, rx, rbrRead, m);
    }
  }

  method RxIdle(C: nat, r: Rx, b: Rx, rx: bool, ghost rbrRead: bool, ghost m: Mode) returns (r': Rx)
    requires C >= 2 && RxOk(C, m, r) && rx == Wire(m) && r.state == Idle
    requires b == r.(prev := rx, ready := r.ready && !rbrRead)
    ensures RxEdge(C, m, r, rbrRead, r', false)
  {
    if m.Frame? {
      WireSeen(C, m, r);
      NextPosition(C, m.s, m.c);
      if m.pos.Sampling? { NextPosition(C, m.pos.m, m.pos.d); }
    }
    assert m.Quiet? ==> Wire(m);
    hide LineAt, Edges, Wire, Segment;
    r' := b.(count := 0);
    if r.prev && !rx {
      r' := r'.(state := Start, count := 0);
    }
  }

  method RxStart(C: nat, r: Rx, b: Rx, rx: bool, ghost rbrRead: bool, ghost m: Mode) returns (r': Rx)
    requires C >= 2 && RxOk(C, m, r) && rx == Wire(m) && r.state == Start
    requires b == r.(prev := rx, ready := r.ready && !rbrRead)
    ensures RxEdge(C, m, r, rbrRead, r', false)
  {
    WireSeen(C, m, r);
    NextPosition(C, m.s, m.c);
    assert Edges(C, 0, 0) == 0;
    hide LineAt, Edges, Wire, Segment;
    if r.count == C / 2 - 1 {
      if !rx {
        r' := b.(count := 0, bit := 0, state := Data);
      } else {
        r' := b.(state := Idle);
      }
    } else {
      r' := b.(count := r.count + 1);
    }
  }

  method RxData(C: nat, r: Rx, b: Rx, rx: bool, ghost rbrRead: bool, ghost m: Mode) returns (r': Rx)
    requires C >= 2 && RxOk(C, m, r) && rx == Wire(m) && r.state == Data
    requires b == r.(prev := rx, ready := r.ready && !rbrRead)
    ensures RxEdge(C, m, r, rbrRead, r', false)
  {
    WireSeen(C, m, r);
    NextPosition(C, m.s, m.c);
    NextPosition(C, m.pos.m, m.pos.d);
    Collected(m.v, r, m.pos.m);
    hide LineAt, Edges, Wire, Segment;
    if r.count == C - 1 {
      r' := b.(count := 0, shift := r.shift[r.bit := rx]);
      if r.bit == 7 {
        r' := r'.(state := Stop);
      } else {
        r' := r'.(bit := r.bit + 1);
      }
    } else {
      r' := b.(count := r.count + 1);
    }
  }

  method RxStop(C: nat, r: Rx, b: Rx, rx: bool, ghost rbrRead: bool, ghost m: Mode) returns (r': Rx, delivered: bool)
    requires C >= 2 && RxOk(C, m, r) && rx == Wire(m) && r.state == Stop
    requires b == r.(prev := rx, ready := r.ready && !rbrRead)
    ensures RxEdge(C, m, r, rbrRead, r', delivered)
  {
    WireSeen(C, m, r);
    NextPosition(C, m.s, m.c);
    NextPosition(C, m.pos.m, m.pos.d);
    Collected(m.v, r, 8);
    hide LineAt, Edges, Wire, Segment;
    delivered := r.count == C - 1;
    if delivered {
      r' := b.(data := r.shift, ready := true, state := Idle, count := 0);
    } else {
      r' := b.(count := r.count + 1);
    }
  }

  /** A byte taken while a frame is ending finds the receiver idle. */
  lemma Restart(C: nat, m: Mode, w: Write, r: Rx, r': Rx)
    requires C >= 2 && RxOk(C, m, r) && RxOk(C, Proceed(C, m), r') && r'.prev == Wire(m)
    ensures RxOk(C, NextMode(C, m, w), r')
  {
    if w.Write? && Free(m) && m.Frame? {
      IdleBeforeNext(C, m.s, m.c, m.pos);
      WireSeen(C, m, r);
    }
  }

  // ---- The link as its users see it ----

  /** The writes of the first n edges that are taken: each one that comes at least ten bit
      times and an edge after the last taken one. */
  function Taken(C: nat, inputs: seq<(Write, bool)>, n: nat): seq<nat>
    requires n <= |inputs|
  {
    if n == 0 then []
    else
      var before := Taken(C, inputs, n - 1);
      if inputs[n - 1].0.Write? && Spaced(C, before, n - 1) then before + [n - 1] else before
  }

  predicate Spaced(C: nat, times: seq<nat>, i: nat) {
    times == [] || i >= times[|times| - 1] + 10 * C + 1
  }

  /** Edges from taking a byte to delivering it: nine and a half bit times and two edges. */
  function Latency(C: nat): nat { 9 * C + C / 2 + 2 }

  /** Those of the taken writes delivered within the first n edges. */
  function Delivered(C: nat, times: seq<nat>, n: nat): seq<nat> {
    if times == [] then []
    else
      var before, last := Delivered(C, times[..|times| - 1], n), times[|times| - 1];
      if last + Latency(C) < n then before + [last] else before
  }

  ghost predicate Writes(inputs: seq<(Write, bool)>, times: seq<nat>) {
    forall k :: 0 <= k < |times| ==> times[k] < |inputs| && inputs[times[k]].0.Write?
  }

  /** The bytes written at given edges. */
  function Values(inputs: seq<(Write, bool)>, times: seq<nat>): (b: seq<Byte>)
    requires Writes(inputs, times)
    ensures |b| == |times|
  {
    if times == [] then []
    else
      var last := times[|times| - 1];
      Values(inputs, times[..|times| - 1]) + [inputs[last].0.value]
  }

  lemma ValuesSnoc(inputs: seq<(Write, bool)>, times: seq<nat>, t: nat)
    requires Writes(inputs, times) && t < |inputs| && inputs[t].0.Write?
    ensures Writes(inputs, times + [t]) && Values(inputs, times + [t]) == Values(inputs, times) + [inputs[t].0.value]
  {
    assert (times + [t])[..|times|] == times;
  }

  ghost predicate AllBy(C: nat, times: seq<nat>, n: nat) {
    forall k :: 0 <= k < |times| ==> times[k] + Latency(C) < n
  }

  lemma {:induction false} DeliveredAll(C: nat, times: seq<nat>, n: nat)
    requires AllBy(C, times, n)
    ensures Delivered(C, times, n) == times
  {
    if times != [] {
      DeliveredAll(C, times[..|times| - 1], n);
      assert times[..|times| - 1] + [times[|times| - 1]] == times;
    }
  }

  /** All taken bytes but the last are delivered, so at most one is in flight, and what is
      delivered is a prefix of what was taken. */
  ghost predicate OneInFlight(C: nat, times: seq<nat>, n: nat) {
    AllBy(C, if times == [] then [] else times[..|times| - 1], n)
  }

  lemma DeliveredPrefix(C: nat, times: seq<nat>, n: nat)
    requires OneInFlight(C, times, n)
    ensures Delivered(C, times, n) ==
      if times == [] || times[|times| - 1] + Latency(C) < n then times else times[..|times| - 1]
  {
    if times != [] {
      DeliveredAll(C, times[..|times| - 1], n);
      assert times[..|times| - 1] + [times[|times| - 1]] == times;
    }
  }

  lemma {:induction false} TakenOneInFlight(C: nat, inputs: seq<(Write, bool)>, n: nat)
    requires C >= 2 && n <= |inputs|
    ensures OneInFlight(C, Taken(C, inputs, n), n)
  {
    if n > 0 {
      TakenOneInFlight(C, inputs, n - 1);
      var before := Taken(C, inputs, n - 1);
      assert (before + [n - 1])[..|before|] == before;
    }
  }

  /** A byte arrives on edge i. */
  predicate Arrives(C: nat, times: seq<nat>, i: nat) { times != [] && times[|times| - 1] + Latency(C) == i }

  lemma FitsSpacing(C: nat)
    requires C >= 2
    ensures Latency(C) <= 10 * C + 1
  {
  }

  /** One more edge, on the specification: at most one byte stays in flight. */
  lemma FlightGrows(C: nat, times: seq<nat>, i: nat, took: bool)
    requires C >= 2 && OneInFlight(C, times, i) && (took ==> Spaced(C, times, i))
    ensures OneInFlight(C, times, i + 1)
    ensures OneInFlight(C, if took then times + [i] else times, i + 1)
  {
    FitsSpacing(C);
    hide Latency;
    if took {
      assert (times + [i])[..|times|] == times;
    }
  }

  /** A byte taken on this edge is not delivered yet. */
  lemma DeliveredSnoc(C: nat, times: seq<nat>, i: nat)
    ensures Delivered(C, times + [i], i + 1) == Delivered(C, times, i + 1)
  {
    assert (times + [i])[..|times|] == times;
  }

  /** The byte that arrives on this edge is. */
  lemma DeliveredArrives(C: nat, times: seq<nat>, i: nat)
    requires OneInFlight(C, times, i) && OneInFlight(C, times, i + 1)
    ensures Delivered(C, times, i + 1) ==
      Delivered(C, times, i) + if Arrives(C, times, i) then [times[|times| - 1]] else []
  {
    DeliveredPrefix(C, times, i);
    DeliveredPrefix(C, times, i + 1);
    hide Delivered, OneInFlight, Latency;
    if times != [] {
      assert times[..|times| - 1] + [times[|times| - 1]] == times;
    }
  }

  lemma DeliveredGrows(C: nat, times: seq<nat>, i: nat, took: bool)
    requires C >= 2 && OneInFlight(C, times, i) && (took ==> Spaced(C, times, i))
    ensures Delivered(C, if took then times + [i] else times, i + 1) ==
      Delivered(C, times, i) + if Arrives(C, times, i) then [times[|times| - 1]] else []
    ensures OneInFlight(C, if took then times + [i] else times, i + 1)
  {
    FlightGrows(C, times, i, took);
    DeliveredSnoc(C, times, i);
    DeliveredArrives(C, times, i);
    hide Delivered, OneInFlight, Latency, Spaced, Arrives;
  }

  /** Whether a delivered byte is still unread after n edges. */
  function Unread(C: nat, inputs: seq<(Write, bool)>, n: nat): bool
    requires n <= |inputs|
  {
    n > 0 && (Arrives(C, Taken(C, inputs, n - 1), n - 1) || (Unread(C, inputs, n - 1) && !inputs[n - 1].1))
  }

  /** The mode of the link against the specification: the frame on the wire is that of the
      last taken byte, as many edges in as have passed. */
  ghost predicate Placed(C: nat, inputs: seq<(Write, bool)>, times: seq<nat>, i: nat, m: Mode) {
    match m
    case Quiet => times == []
    case Frame(v, s, c, _) =>
      && times != [] && times[|times| - 1] < |inputs| && inputs[times[|times| - 1]].0 == Write(v)
      && c < C && times[|times| - 1] + 1 + Edges(C, s, c) == i
  }

  lemma PlacedFree(C: nat, inputs: seq<(Write, bool)>, times: seq<nat>, i: nat, m: Mode)
    requires C >= 2 && Placed(C, inputs, times, i, m)
    ensures Free(m) <==> Spaced(C, times, i)
  {
    if m.Frame? { Compare(C, m.s, m.c, 10); }
  }

  lemma PlacedArrives(C: nat, inputs: seq<(Write, bool)>, times: seq<nat>, i: nat, m: Mode, r: Rx)
    requires C >= 2 && Placed(C, inputs, times, i, m) && RxOk(C, m, r)
    ensures (m.Frame? && m.pos == Sampling(8, C - 1)) <==> Arrives(C, times, i)
  {
    if m.Frame? && Arrives(C, times, i) {
      Compare(C, m.s, m.c, 1);
      if m.pos.Sampling? { SamePosition(C, m.pos.m, m.pos.d, 8, C - 1); }
    }
  }

  lemma PlacedNext(C: nat, inputs: seq<(Write, bool)>, times: seq<nat>, i: nat, m: Mode, w: Write)
    requires C >= 2 && i < |inputs| && w == inputs[i].0 && Placed(C, inputs, times, i, m)
    ensures Placed(C, inputs, if w.Write? && Free(m) then times + [i] else times, i + 1, NextMode(C, m, w))
  {
    if m.Frame? { NextPosition(C, m.s, m.c); }
  }

  /** Two UARTs on one wire, any write and read timing: exactly the writes spaced ten bit
      times apart are taken, each is delivered a fixed number of edges later, and RBR and its
      ready flag show the last delivered byte until it is read. */
  method Run(C: nat, inputs: seq<(Write, bool)>)
    returns (accepted: seq<Byte>, delivered: seq<Byte>, rbr: Byte, ready: bool)
    requires C >= 2
    ensures var times := Taken(C, inputs, |inputs|);
            && Writes(inputs, times) && accepted == Values(inputs, times)
            && Writes(inputs, Delivered(C, times, |inputs|))
            && delivered == Values(inputs, Delivered(C, times, |inputs|))
    ensures delivered != [] ==> rbr == delivered[|delivered| - 1]
    ensures ready == Unread(C, inputs, |inputs|)
  {
    hide TxOk, RxOk, Placed, Values, Taken, Delivered, Writes, OneInFlight, Unread, Arrives, Spaced;
    hide NextMode, Free, Wire, Latency;
    var t, r := TX_RESET, RX_RESET;
    ghost var m, times: seq<nat> := Quiet, [];
    accepted, delivered := [], [];
    Starts(C, inputs);
    for i := 0 to |inputs|
      invariant TxOk(C, m, t) && RxOk(C, m, r) && Placed(C, inputs, times, i, m)
      invariant times == Taken(C, inputs, i) && OneInFlight(C, times, i)
      invariant Writes(inputs, times) && accepted == Values(inputs, times)
      invariant Writes(inputs, Delivered(C, times, i)) && delivered == Values(inputs, Delivered(C, times, i))
      invariant delivered != [] ==> r.data == delivered[|delivered| - 1]
      invariant r.ready == Unread(C, inputs, i)
    {
      var (w, rbrRead) := inputs[i];
      ghost var was := r;
      EdgeSpec(C, inputs, times, i, m, r);
      LineIsWire(C, m, t);
      var arrived, took;
      r, arrived := ClockRx(C, r, t.line, rbrRead, m);
      t, took := ClockTx(C, t, w, m);
      AfterEdge(C, m, w, was, rbrRead, r, arrived);
      PlacedNext(C, inputs, times, i, m, w);
      if arrived {
        delivered := delivered + [r.data];
      }
      if took {
        accepted := accepted + [w.value];
        times := times + [i];
      }
      m := NextMode(C, m, w);
    }
    rbr, ready := r.data, r.ready;
  }

  lemma Starts(C: nat, inputs: seq<(Write, bool)>)
    requires C >= 2
    ensures TxOk(C, Quiet, TX_RESET) && RxOk(C, Quiet, RX_RESET) && Placed(C, inputs, [], 0, Quiet)
    ensures Taken(C, inputs, 0) == [] == Delivered(C, [], 0) && Writes(inputs, []) && Values(inputs, []) == []
    ensures OneInFlight(C, [], 0) && !Unread(C, inputs, 0)
  {
  }

  lemma LineIsWire(C: nat, m: Mode, t: Tx)
    requires TxOk(C, m, t)
    ensures t.line == Wire(m)
  {
  }

  /** What the specification says of edge i. */
  lemma EdgeSpec(C: nat, inputs: seq<(Write, bool)>, times: seq<nat>, i: nat, m: Mode, r: Rx)
    requires C >= 2 && i < |inputs| && times == Taken(C, inputs, i) && Writes(inputs, times)
    requires OneInFlight(C, times, i) && Placed(C, inputs, times, i, m) && RxOk(C, m, r)
    requires Writes(inputs, Delivered(C, times, i))
    ensures var took := inputs[i].0.Write? && Free(m);
            var times' := if took then times + [i] else times;
            var arrives := m.Frame? && m.pos == Sampling(8, C - 1);
            && times' == Taken(C, inputs, i + 1) && OneInFlight(C, times', i + 1)
            && Writes(inputs, times')
            && Values(inputs, times') == Values(inputs, times) + (if took then [inputs[i].0.value] else [])
            && Writes(inputs, Delivered(C, times', i + 1))
            && Values(inputs, Delivered(C, times', i + 1)) ==
                 Values(inputs, Delivered(C, times, i)) + (if arrives then [m.v] else [])
            && Unread(C, inputs, i + 1) == (arrives || (Unread(C, inputs, i) && !inputs[i].1))
  {
    hide RxOk, Values, Delivered, OneInFlight, Latency, Arrives, Free, Spaced;
    PlacedFree(C, inputs, times, i, m);
    PlacedArrives(C, inputs, times, i, m, r);
    var took := inputs[i].0.Write? && Free(m);
    DeliveredGrows(C, times, i, took);
    if took { ValuesSnoc(inputs, times, i); }
    if Arrives(C, times, i) {
      ValuesSnoc(inputs, Delivered(C, times, i), times[|times| - 1]);
    } else {
      assert Delivered(C, times, i) + [] == Delivered(C, times, i);
    }
  }

  lemma AfterEdge(C: nat, m: Mode, w: Write, r: Rx, rbrRead: bool, r': Rx, arrived: bool)
    requires C >= 2 && RxOk(C, m, r) && RxEdge(C, m, r, rbrRead, r', arrived)
    ensures RxOk(C, NextMode(C, m, w), r')
    ensures arrived <==> m.Frame? && m.pos == Sampling(8, C - 1)
    ensures r'.data == (if arrived then m.v else r.data) && (r'.ready <==> arrived || (r.ready && !rbrRead))
  {
    Restart(C, m, w, r, r');
  }
}
