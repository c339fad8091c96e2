/**
 * The random program generator in its default mode, the two-pass assembler and the
 * simulator's run loop: every generated program ends in its halt loop by construction.
 * Random choices are parameters; an operation that only computes is its destination register.
 */
module RandomProgram {
  import opened Wrappers
  import Powers

  /** `__L<k>` and `__halt`. */
  datatype Target = L(k: nat) | Halt

  const BASE_REG := 31

  datatype Line =
    | Init(base: int)
    | Compute(rd: nat)
    | Access(width: nat, off: int)
    | Branch(target: Target)
    | Jal(rd: nat, target: Target)
    | Fence
    | Label(name: Target)

  // ---- Safe addresses ----

  /** The offset of a load or store: a random multiple of the width in range, or 0 when the
      range is empty. */
  function AccessOffset(space: int, base: nat, width: nat, pick: nat): (off: int)
    requires width > 0
    requires var top := MaxOffset(space, base, width); top >= 0 ==> width * pick <= top
    ensures 0 <= off <= 2047 && off % width == 0
    ensures base + off + width <= space <==> base + width <= space
    ensures (base + off) % width == 0 <==> base % width == 0
  {
    var off := if MaxOffset(space, base, width) >= 0 then width * pick else 0;
    Multiples(base, width, pick);
    off
  }

  function MaxOffset(space: int, base: nat, width: nat): int {
    if space - base - width < 2047 then space - base - width else 2047
  }

  lemma Multiples(base: nat, width: nat, pick: nat)
    requires width > 0
    ensures width * pick % width == 0 && ((base + width * pick) % width == 0 <==> base % width == 0)
  {
    var q, r := base / width, base % width;
    assert base + width * pick == width * (q + pick) + r;
    Powers.DivModUnique(base + width * pick, width, q + pick, r);
    Powers.DivModUnique(width * pick, width, pick, 0);
  }

  // ---- The generator ----

  /** `draw` is the random multiple of the width. */
  datatype Item = ComputeItem(rd: nat) | AccessItem(width: nat, draw: nat) | BranchItem | JalItem(rd: nat)

  predicate GeneralReg(rd: nat) { 1 <= rd <= 30 }

  /** Integer destinations are drawn from x1..x30 (a store, float or fence has none, 0), and a
      multiple of the width from the range, where that is not empty. */
  predicate DrawnItem(i: Item, base: nat, space: int) {
    match i
    case ComputeItem(rd) => rd == 0 || GeneralReg(rd)
    case AccessItem(width, draw) =>
      && width in {1, 2, 4, 8}
      && (MaxOffset(space, base, width) >= 0 ==> width * draw <= MaxOffset(space, base, width))
    case BranchItem => true
    case JalItem(rd) => GeneralReg(rd)
  }

  /** The range of the random target of the k-th instruction, counting from 1. */
  predicate Drawn(pick: nat -> nat, n: nat) {
    forall k :: 1 <= k <= n ==> (if k + 1 <= n then k + 1 else n) <= pick(k) <= n
  }

  predicate IsJump(i: Item) { i.BranchItem? || i.JalItem? }

  /** The statement of the k-th instruction, its jump naming the drawn label. */
  function StmtOf(i: Item, k: nat, pick: nat -> nat, base: nat, space: int): Line
    requires DrawnItem(i, base, space)
  {
    match i
    case ComputeItem(rd) => Compute(rd)
    case AccessItem(width, draw) => Access(width, AccessOffset(space, base, width, draw))
    case BranchItem => Branch(L(pick(k)))
    case JalItem(rd) => Jal(rd, L(pick(k)))
  }

  /** The statement a label stands before: the instruction it names, but the end for the last,
      whose label is emitted there again. */
  function Dest(pre: nat, n: nat, t: nat): int { if t == n then pre + n else pre + t - 1 }

  /** After idx instructions: their statements, and every label emitted so far at the
      instruction it names; a jump's label is there or still to come. */
  ghost predicate Emitted(out: seq<Line>, marks: set<nat>, base: nat, space: int, seeds: seq<Line>, instrs: seq<Item>,
                          pick: nat -> nat, idx: nat)
    requires idx <= |instrs| && forall i <- instrs :: DrawnItem(i, base, space)
  {
    var st, labels, pre, n := Stmts(out), Labels(out), 1 + |seeds|, |instrs|;
    && |st| == pre + idx && st[0] == Init(base)
    && (forall i :: 0 <= i < |seeds| ==> st[1 + i] == seeds[i])
    && (forall i :: 0 <= i < idx ==> st[pre + i] == StmtOf(instrs[i], i + 1, pick, base, space))
    && (forall t: nat :: L(t) in labels ==> labels[L(t)] == 4 * (pre + t - 1))
    && (forall i :: 0 <= i < idx && IsJump(instrs[i]) ==>
          pick(i + 1) in marks && (L(pick(i + 1)) in labels || pick(i + 1) > idx + 1 || pick(i + 1) == n))
  }

  const TAIL := [Fence, Label(Halt), Jal(0, Halt)]

  /** The whole program: its statements in order, every jump resolved to the drawn target. */
  ghost predicate Program(out: seq<Line>, base: nat, space: int, seeds: seq<Line>, instrs: seq<Item>, pick: nat -> nat)
    requires forall i <- instrs :: DrawnItem(i, base, space)
  {
    var st, labels, pre, n := Stmts(out), Labels(out), 1 + |seeds|, |instrs|;
    && |st| == pre + n + 2 && st[0] == Init(base) && st[pre + n] == Fence && st[pre + n + 1] == Jal(0, Halt)
    && (forall i :: 0 <= i < |seeds| ==> st[1 + i] == seeds[i])
    && (forall i :: 0 <= i < n ==> st[pre + i] == StmtOf(instrs[i], i + 1, pick, base, space))
    && Halt in labels && labels[Halt] == 4 * (pre + n + 1)
    && (forall i :: 0 <= i < n && IsJump(instrs[i]) ==>
          L(pick(i + 1)) in labels && labels[L(pick(i + 1))] == 4 * Dest(pre, n, pick(i + 1)))
  }

  /** One more line, in the statements and in the label table. */
  lemma Snoc(lines: seq<Line>, l: Line)
    ensures Stmts(lines + [l]) == if l.Label? then Stmts(lines) else Stmts(lines) + [l]
    ensures Labels(lines + [l]) == if l.Label? then Labels(lines)[l.name := 4 * |Stmts(lines)|] else Labels(lines)
  {
    assert (lines + [l])[..|lines|] == lines;
  }

  lemma {:induction false} SeedStmts(base: nat, seeds: seq<Line>)
    requires forall l <- seeds :: l.Compute?
    ensures Stmts([Init(base)] + seeds) == [Init(base)] + seeds && Labels([Init(base)] + seeds) == map[]
  {
    if seeds == [] {
      Snoc([], Init(base));
      assert [] + [Init(base)] == [Init(base)] + [];
    } else {
      var init, last := seeds[..|seeds| - 1], seeds[|seeds| - 1];
      assert last in seeds && forall l <- init :: l in seeds;
      SeedStmts(base, init);
      Snoc([Init(base)] + init, last);
      assert [Init(base)] + init + [last] == [Init(base)] + seeds;
    }
  }

  /** Emitting instruction idx and, where a jump asked for it, the label after it. */
  lemma EmitOne(out: seq<Line>, marks: set<nat>, base: nat, space: int, seeds: seq<Line>, instrs: seq<Item>,
                pick: nat -> nat, idx: nat, marks': set<nat>, out': seq<Line>)
    requires (forall i <- instrs :: DrawnItem(i, base, space)) && idx < |instrs| && Drawn(pick, |instrs|)
    requires Emitted(out, marks, base, space, seeds, instrs, pick, idx)
    requires marks' == if IsJump(instrs[idx]) then marks + {pick(idx + 1)} else marks
    requires var l := StmtOf(instrs[idx], idx + 1, pick, base, space);
             out' == out + [l] + if idx + 2 in marks' then [Label(L(idx + 2))] else []
    ensures Emitted(out', marks', base, space, seeds, instrs, pick, idx + 1)
  {
    hide Stmts, Labels;
    var l := StmtOf(instrs[idx], idx + 1, pick, base, space);
    Snoc(out, l);
    if idx + 2 in marks' {
      Snoc(out + [l], Label(L(idx + 2)));
    } else {
      assert out' == out + [l];
    }
  }

  /** The end label, the fence and the halt loop. */
  lemma EmitTail(out: seq<Line>, marks: set<nat>, base: nat, space: int, seeds: seq<Line>, instrs: seq<Item>,
                 pick: nat -> nat, out': seq<Line>)
    requires (forall i <- instrs :: DrawnItem(i, base, space)) && Drawn(pick, |instrs|)
    requires Emitted(out, marks, base, space, seeds, instrs, pick, |instrs|)
    requires out' == out + (if |instrs| in marks then [Label(L(|instrs|))] else []) + TAIL
    ensures Program(out', base, space, seeds, instrs, pick)
  {
    hide Stmts, Labels;
    var n := |instrs|;
    var a := if n in marks then out + [Label(L(n))] else out;
    if n in marks { Snoc(out, Label(L(n))); }
    Snoc(a, Fence);
    Snoc(a + [Fence], Label(Halt));
    Snoc(a + [Fence] + [Label(Halt)], Jal(0, Halt));
    assert out' == a + [Fence] + [Label(Halt)] + [Jal(0, Halt)];
  }

  /** Two passes over the drawn instructions; `pick` draws the targets. */
  method Generate(base: nat, space: int, seeds: seq<Line>, instrs: seq<Item>, pick: nat -> nat)
      returns (out: seq<Line>)
    requires Drawn(pick, |instrs|)
    requires forall l <- seeds :: l.Compute? && l.rd != BASE_REG
    requires forall i <- instrs :: DrawnItem(i, base, space)
    ensures Program(out, base, space, seeds, instrs, pick)
  {
    hide Stmts, Labels;
    var n := |instrs|;
    out := [Init(base)] + seeds;
    var marks: set<nat> := {};
    SeedStmts(base, seeds);
    for idx := 0 to n
      invariant Emitted(out, marks, base, space, seeds, instrs, pick, idx)
    {
      assert instrs[idx] in instrs;
      ghost var was, marked := out, marks;
      match instrs[idx] {
        case ComputeItem(rd) =>
          out := out + [Compute(rd)];
        case AccessItem(width, draw) =>
          out := out + [Access(width, AccessOffset(space, base, width, draw))];
        case BranchItem =>
          out, marks := out + [Branch(L(pick(idx + 1)))], marks + {pick(idx + 1)};
        case JalItem(rd) =>
          out, marks := out + [Jal(rd, L(pick(idx + 1)))], marks + {pick(idx + 1)};
      }
      out := out + if idx + 2 in marks then [Label(L(idx + 2))] else [];
      EmitOne(was, marked, base, space, seeds, instrs, pick, idx, marks, out);
    }
    ghost var body := out;
    out := out + (if n in marks then [Label(L(n))] else []) + TAIL;
    EmitTail(body, marks, base, space, seeds, instrs, pick, out);
  }

  // ---- The assembler ----

  /** The lines that become instructions. */
  function Stmts(lines: seq<Line>): seq<Line> {
    if lines == [] then []
    else
      var init, last := lines[..|lines| - 1], lines[|lines| - 1];
      if last.Label? then Stmts(init) else Stmts(init) + [last]
  }

  /** The address of every label; where one is defined twice the last wins. */
  function Labels(lines: seq<Line>): map<Target, nat> {
    if lines == [] then map[]
    else
      var init, last := lines[..|lines| - 1], lines[|lines| - 1];
      if last.Label? then Labels(init)[last.name := 4 * |Stmts(init)|] else Labels(init)
  }

  method FirstPass(lines: seq<Line>) returns (stmts: seq<Line>, labels: map<Target, nat>)
    ensures stmts == Stmts(lines) && labels == Labels(lines)
  {
    var addr := 0;
    stmts, labels := [], map[];
    for i := 0 to |lines|
      invariant stmts == Stmts(lines[..i]) && labels == Labels(lines[..i]) && addr == 4 * |stmts|
    {
      assert lines[..i + 1][..i] == lines[..i];
      if lines[i].Label? {
        labels := labels[lines[i].name := addr];
      } else {
        stmts := stmts + [lines[i]];
        addr := addr + 4;
      }
    }
    assert lines[..|lines|] == lines;
  }

  /** The offset fields of a branch word: bits 12, 11, 10:5 and 4:1. */
  datatype BFields = BFields(b12: Bits1, b11: Bits1, b10_5: Bits6, b4_1: Bits4)

  /** The offset fields of a jal word: bits 20, 10:1, 11 and 19:12. */
  datatype JFields = JFields(b20: Bits1, b10_1: Bits10, b11: Bits1, b19_12: Bits8)

  type Bits1 = x: nat | x < 2
  type Bits4 = x: nat | x < 0x10
  type Bits6 = x: nat | x < 0x40
  type Bits8 = x: nat | x < 0x100
  type Bits10 = x: nat | x < 0x400

  datatype Word =
    | InitW(base: int) | ComputeW(rd: nat) | AccessW(width: nat, off: int) | FenceW
    | BranchW(bf: BFields)
    | JalW(rd: nat, jf: JFields)

  function EncodeBranch(off: int): Option<BFields> {
    if !(-0x1000 <= off <= 0xFFF) || off % 2 == 1 then None
    else
      var v := off % 0x2000;
      Some(BFields(v / 0x1000 % 2, v / 0x800 % 2, v / 0x20 % 0x40, v / 2 % 0x10))
  }

  function DecodeBranch(f: BFields): int {
    var a: nat, b: nat, c: nat, d: nat := f.b12, f.b11, f.b10_5, f.b4_1;
    var v := a * 0x1000 + b * 0x800 + c * 0x20 + d * 2;
    if v >= 0x1000 then v - 0x2000 else v
  }

  function EncodeJal(off: int): Option<JFields> {
    if !(-0x10_0000 <= off <= 0xF_FFFF) || off % 2 == 1 then None
    else
      var v := off % 0x20_0000;
      Some(JFields(v / 0x10_0000 % 2, v / 2 % 0x400, v / 0x800 % 2, v / 0x1000 % 0x100))
  }

  function DecodeJal(f: JFields): int {
    var a: nat, b: nat, c: nat, d: nat := f.b20, f.b19_12, f.b11, f.b10_1;
    var v := a * 0x10_0000 + b * 0x1000 + c * 0x800 + d * 2;
    if v >= 0x10_0000 then v - 0x20_0000 else v
  }

  lemma BranchSlices(v: nat)
    requires v < 0x2000 && v % 2 == 0
    ensures v == v / 0x1000 % 2 * 0x1000 + v / 0x800 % 2 * 0x800 + v / 0x20 % 0x40 * 0x20 + v / 2 % 0x10 * 2
  {
    var a := v / 2;
    var b, a0 := a / 0x10, a % 0x10;
    var c, b0 := b / 0x40, b % 0x40;
    Powers.DivModUnique(v, 0x20, b, 2 * a0);
    Powers.DivModUnique(v, 0x800, c, 0x20 * b0 + 2 * a0);
    Powers.DivModUnique(v, 0x1000, c / 2, 0x800 * (c % 2) + 0x20 * b0 + 2 * a0);
  }

  lemma JalSlices(v: nat)
    requires v < 0x20_0000 && v % 2 == 0
    ensures v == v / 0x10_0000 % 2 * 0x10_0000 + v / 0x1000 % 0x100 * 0x1000 + v / 0x800 % 2 * 0x800 + v / 2 % 0x400 * 2
  {
    var a := v / 2;
    var b, a0 := a / 0x400, a % 0x400;
    var c, b0 := b / 2, b % 2;
    var d, c0 := c / 0x100, c % 0x100;
    Powers.DivModUnique(v, 0x800, b, 2 * a0);
    Powers.DivModUnique(v, 0x1000, c, 0x800 * b0 + 2 * a0);
    Powers.DivModUnique(v, 0x10_0000, d, 0x1000 * c0 + 0x800 * b0 + 2 * a0);
  }

  /** An even offset as its two's-complement field. */
  lemma Unsigned(off: int, m: nat)
    requires m % 2 == 0 && off % 2 == 0 && 0 - m <= 2 * off < m
    ensures off % m == (if off < 0 then off + m else off) && off % m % 2 == 0
  {
    Powers.DivModUnique(off, m, if off < 0 then -1 else 0, if off < 0 then off + m else off);
    Powers.DivModUnique(off + m, 2, off / 2 + m / 2, 0);
  }

  /** The assembler scatters an offset over the word and the simulator gathers it again; the
      encodable offsets are the even ones in range. */
  lemma BranchOffsetReadsBack(off: int)
    ensures EncodeBranch(off).Some? <==> -0x1000 <= off < 0x1000 && off % 2 == 0
    ensures EncodeBranch(off).Some? ==> DecodeBranch(EncodeBranch(off).value) == off
  {
    if EncodeBranch(off).Some? {
      Unsigned(off, 0x2000);
      BranchSlices(off % 0x2000);
    }
  }

  lemma JalOffsetReadsBack(off: int)
    ensures EncodeJal(off).Some? <==> -0x10_0000 <= off < 0x10_0000 && off % 2 == 0
    ensures EncodeJal(off).Some? ==> DecodeJal(EncodeJal(off).value) == off
  {
    if EncodeJal(off).Some? {
      Unsigned(off, 0x20_0000);
      JalSlices(off % 0x20_0000);
    }
  }

  /** The word of a statement at an address; None is a raised ValueError. */
  function Encode(l: Line, addr: nat, labels: map<Target, nat>): Option<Word> {
    match l
    case Init(b) => if -0x800 <= b < 0x800 then Some(InitW(b)) else None
    case Compute(rd) => Some(ComputeW(rd))
    case Access(w, off) => if -0x800 <= off < 0x800 then Some(AccessW(w, off)) else None
    case Fence => Some(FenceW)
    case Branch(t) =>
      if t !in labels then None
      else (match EncodeBranch(labels[t] - addr) case None => None case Some(f) => Some(BranchW(f)))
    case Jal(rd, t) =>
      if t !in labels then None
      else (match EncodeJal(labels[t] - addr) case None => None case Some(f) => Some(JalW(rd, f)))
    case Label(_) => None
  }

  method Assemble(lines: seq<Line>) returns (r: Option<seq<Word>>)
    ensures r.Some? ==> |r.value| == |Stmts(lines)| && forall s :: 0 <= s < |r.value| ==>
      Encode(Stmts(lines)[s], 4 * s, Labels(lines)) == Some(r.value[s])
    ensures r.None? ==> exists s :: 0 <= s < |Stmts(lines)| && Encode(Stmts(lines)[s], 4 * s, Labels(lines)) == None
  {
    var stmts, labels := FirstPass(lines);
    var words := [];
    for s := 0 to |stmts|
      invariant |words| == s
      invariant forall k :: 0 <= k < s ==> Encode(stmts[k], 4 * k, labels) == Some(words[k])
    {
      var w := Encode(stmts[s], 4 * s, labels);
      if w.None? { return None; }
      words := words + [w.value];
    }
    r := Some(words);
  }

  // ---- When it assembles, and what the words do ----

  /** Instructions from the k-th to its drawn target. */
  function Reach(n: nat, k: nat, t: nat): int { if t == n then n + 1 - k else t - k }

  /** A branch or jal reaches its target within its offset field. */
  predicate JumpInReach(i: Item, n: nat, k: nat, t: nat) {
    (i.BranchItem? ==> Reach(n, k, t) < 0x400) && (i.JalItem? ==> Reach(n, k, t) < 0x4_0000)
  }

  ghost predicate InReach(instrs: seq<Item>, pick: nat -> nat) {
    forall i :: 0 <= i < |instrs| ==> JumpInReach(instrs[i], |instrs|, i + 1, pick(i + 1))
  }

  /** Below 1024 instructions everything is in reach, whatever is drawn. */
  lemma ShortIsInReach(instrs: seq<Item>, pick: nat -> nat)
    requires Drawn(pick, |instrs|) && |instrs| < 0x400
    ensures InReach(instrs, pick)
  {
  }

  /** From 1024 on some draw is not: a first branch to the end. */
  lemma LongIsNot(instrs: seq<Item>, pick: nat -> nat)
    requires |instrs| >= 0x400 && instrs[0].BranchItem? && pick(1) == |instrs|
    ensures !InReach(instrs, pick)
  {
    assert !JumpInReach(instrs[0], |instrs|, 0 + 1, pick(0 + 1));
  }

  /** Natural alignment for the four widths there are. */
  predicate Aligned(addr: int, width: nat) {
    match width case 1 => true case 2 => addr % 2 == 0 case 4 => addr % 4 == 0 case _ => addr % 8 == 0
  }

  lemma AlignedIs(addr: int, width: nat)
    requires width in {1, 2, 4, 8}
    ensures Aligned(addr, width) <==> addr % width == 0
  {
  }

  /** An access (first address and width) is aligned exactly if the base pointer is, and inside
      memory exactly if one at the base pointer is. */
  predicate LikeBase(t: (int, nat), base: int, space: int) {
    && t.1 in {1, 2, 4, 8} && base <= t.0
    && (Aligned(t.0, t.1) <==> Aligned(base, t.1)) && (t.0 + t.1 <= space <==> base + t.1 <= space)
  }

  /** The s-th of the words before the halt loop at index h is safe and only jumps forward,
      no further than the halt loop. */
  predicate SafeWord(w: Word, s: nat, h: nat, base: int, space: int) {
    match w
    case InitW(_) => s == 0
    case ComputeW(rd) => rd != BASE_REG
    case AccessW(width, off) => LikeBase((base + off, width), base, space)
    case FenceW => true
    case BranchW(f) => ForwardTo(DecodeBranch(f), s, h)
    case JalW(rd, f) => rd != BASE_REG && ForwardTo(DecodeJal(f), s, h)
  }

  predicate ForwardTo(off: int, s: nat, h: nat) { off % 4 == 0 && 0 < off && 4 * s + off <= 4 * h }

  ghost predicate Terminating(words: seq<Word>, base: int, space: int) {
    var h := |words| - 1;
    && h >= 1 && words[0] == InitW(base) && IsHalt(words[h])
    && forall s :: 0 <= s < h ==> SafeWord(words[s], s, h, base, space)
  }

  /** The word of the k-th instruction; a jump's offset reaches its drawn target. */
  predicate WordOf(w: Word, i: Item, k: nat, pick: nat -> nat, n: nat, base: nat, space: int)
    requires DrawnItem(i, base, space)
  {
    match i
    case ComputeItem(rd) => w == ComputeW(rd)
    case AccessItem(width, draw) => w == AccessW(width, AccessOffset(space, base, width, draw))
    case BranchItem => w.BranchW? && DecodeBranch(w.bf) == 4 * Reach(n, k, pick(k))
    case JalItem(rd) => w.JalW? && w.rd == rd && DecodeJal(w.jf) == 4 * Reach(n, k, pick(k))
  }

  /** The words of a whole program: base pointer, seeds, the drawn instructions, fence, halt. */
  ghost predicate WordsOf(words: seq<Word>, base: nat, space: int, seeds: seq<Line>, instrs: seq<Item>,
                          pick: nat -> nat)
    requires (forall i <- instrs :: DrawnItem(i, base, space)) && (forall l <- seeds :: l.Compute?)
  {
    var pre, n := 1 + |seeds|, |instrs|;
    && |words| == pre + n + 2 && words[0] == InitW(base)
    && (forall i :: 0 <= i < |seeds| ==> words[1 + i] == SeedWord(seeds, i))
    && (forall i :: 0 <= i < n ==> WordOf(words[pre + i], instrs[i], i + 1, pick, n, base, space))
    && words[pre + n] == FenceW && IsHalt(words[pre + n + 1])
  }

  function SeedWord(seeds: seq<Line>, i: nat): Word
    requires i < |seeds| && forall l <- seeds :: l.Compute?
  {
    assert seeds[i] in seeds;
    ComputeW(seeds[i].rd)
  }

  /** The self-loop that the run loop takes for the end. */
  predicate IsHalt(w: Word) { w.JalW? && DecodeJal(w.jf) == 0 }

  /** An instruction's word: it encodes if and only if its jump is in reach, and then it is
      the word of that instruction. */
  lemma ItemWord(i: Item, k: nat, pick: nat -> nat, base: nat, space: int, pre: nat, n: nat, labels: map<Target, nat>)
    requires DrawnItem(i, base, space) && pre >= 1 && 1 <= k <= n
    requires IsJump(i) ==> (if k + 1 <= n then k + 1 else n) <= pick(k) <= n
    requires IsJump(i) ==> L(pick(k)) in labels && labels[L(pick(k))] == 4 * Dest(pre, n, pick(k))
    ensures var s := pre + k - 1; var w := Encode(StmtOf(i, k, pick, base, space), 4 * s, labels);
            && (w.Some? <==> JumpInReach(i, n, k, pick(k)))
            && (w.Some? ==> WordOf(w.value, i, k, pick, n, base, space))
  {
    hide EncodeBranch, EncodeJal, DecodeBranch, DecodeJal, AccessOffset, Reach, Dest;
    match i
    case ComputeItem(_) =>
    case AccessItem(_, _) =>
    case _ =>
      var off := 4 * Reach(n, k, pick(k));
      ReachIsForward(pre, n, k, pick(k));
      BranchOffsetReadsBack(off);
      JalOffsetReadsBack(off);
  }

  lemma ReachIsForward(pre: nat, n: nat, k: nat, t: nat)
    requires 1 <= k <= n && (if k + 1 <= n then k + 1 else n) <= t <= n
    ensures 4 * Dest(pre, n, t) - 4 * (pre + k - 1) == 4 * Reach(n, k, t)
    ensures ForwardTo(4 * Reach(n, k, t), pre + k - 1, pre + n + 1) && 4 * Reach(n, k, t) % 2 == 0
  {
    var r := Reach(n, k, t);
    Powers.DivModUnique(4 * r, 2, 2 * r, 0);
    Powers.DivModUnique(4 * r, 4, r, 0);
  }

  ghost predicate AllEncode(lines: seq<Line>) {
    forall s :: 0 <= s < |Stmts(lines)| ==> Encode(Stmts(lines)[s], 4 * s, Labels(lines)).Some?
  }

  /** A generated program assembles if and only if its base fits an immediate and every jump
      is in reach. */
  lemma {:induction false} AssemblesIff(out: seq<Line>, base: nat, space: int, seeds: seq<Line>, instrs: seq<Item>,
                                        pick: nat -> nat)
    requires (forall i <- instrs :: DrawnItem(i, base, space)) && (forall l <- seeds :: l.Compute?)
    requires Drawn(pick, |instrs|) && Program(out, base, space, seeds, instrs, pick)
    ensures AllEncode(out) <==> base < 0x800 && InReach(instrs, pick)
  {
    hide Stmts, Labels, StmtOf, JumpInReach, Dest, Encode;
    var st, labels, pre, n := Stmts(out), Labels(out), 1 + |seeds|, |instrs|;
    assert |st| == pre + n + 2;
    FixedEncode(base, pre + n + 1, labels);
    forall i | 0 <= i < n
      ensures Encode(st[pre + i], 4 * (pre + i), labels).Some? <==> JumpInReach(instrs[i], n, i + 1, pick(i + 1))
    {
      assert instrs[i] in instrs;
      ItemWord(instrs[i], i + 1, pick, base, space, pre, n, labels);
    }
    if AllEncode(out) {
      assert Encode(st[0], 4 * 0, labels).Some?;
    } else {
      var s :| 0 <= s < |st| && Encode(st[s], 4 * s, labels).None?;
      if pre <= s < pre + n {
        var i := s - pre;
        assert !JumpInReach(instrs[i], n, i + 1, pick(i + 1));
      } else if 1 <= s < pre {
        assert st[s] == seeds[s - 1] && seeds[s - 1] in seeds;
        ComputeEncodes(st[s], 4 * s, labels);
      }
    }
  }

  /** The statements around the drawn ones. */
  lemma FixedEncode(base: nat, h: nat, labels: map<Target, nat>)
    requires h > 0 && Halt in labels && labels[Halt] == 4 * h
    ensures Encode(Init(base), 4 * 0, labels).Some? <==> base < 0x800
    ensures Encode(Fence, 4 * (h - 1), labels).Some? && Encode(Jal(0, Halt), 4 * h, labels).Some?
  {
    JalOffsetReadsBack(0);
  }

  lemma ComputeEncodes(l: Line, addr: nat, labels: map<Target, nat>)
    requires l.Compute?
    ensures Encode(l, addr, labels).Some?
  {
  }

  /** What a generated program assembles to. */
  lemma {:induction false} AssembledWords(out: seq<Line>, base: nat, space: int, seeds: seq<Line>,
                                          instrs: seq<Item>, pick: nat -> nat, words: seq<Word>)
    requires (forall i <- instrs :: DrawnItem(i, base, space)) && (forall l <- seeds :: l.Compute?)
    requires Drawn(pick, |instrs|) && Program(out, base, space, seeds, instrs, pick)
    requires |words| == |Stmts(out)| && forall s :: 0 <= s < |words| ==>
      Encode(Stmts(out)[s], 4 * s, Labels(out)) == Some(words[s])
    ensures WordsOf(words, base, space, seeds, instrs, pick)
  {
    hide Stmts, Labels, StmtOf, Reach, Dest, WordOf;
    var st, labels, pre, n := Stmts(out), Labels(out), 1 + |seeds|, |instrs|;
    var h := pre + n + 1;
    JalOffsetReadsBack(0);
    hide EncodeJal, EncodeBranch, DecodeJal, DecodeBranch;
    assert Encode(st[0], 4 * 0, labels) == Some(words[0]);
    assert Encode(st[h], 4 * h, labels) == Some(words[h]);
    assert Encode(st[h - 1], 4 * (h - 1), labels) == Some(words[h - 1]);
    forall i | 0 <= i < |seeds| ensures words[1 + i] == SeedWord(seeds, i) {
      assert Encode(st[1 + i], 4 * (1 + i), labels) == Some(words[1 + i]) && seeds[i] in seeds;
    }
    forall i | 0 <= i < n ensures WordOf(words[pre + i], instrs[i], i + 1, pick, n, base, space) {
      assert Encode(st[pre + i], 4 * (pre + i), labels) == Some(words[pre + i]) && instrs[i] in instrs;
      ItemWord(instrs[i], i + 1, pick, base, space, pre, n, labels);
    }
  }

  lemma WordIsSafe(w: Word, i: Item, k: nat, pick: nat -> nat, n: nat, base: nat, space: int, pre: nat)
    requires DrawnItem(i, base, space) && WordOf(w, i, k, pick, n, base, space) && pre >= 1 && 1 <= k <= n
    requires IsJump(i) ==> (if k + 1 <= n then k + 1 else n) <= pick(k) <= n
    ensures SafeWord(w, pre + k - 1, pre + n + 1, base, space)
  {
    hide DecodeBranch, DecodeJal, AccessOffset, Reach;
    if IsJump(i) { ReachIsForward(pre, n, k, pick(k)); }
    if i.AccessItem? {
      AlignedIs(base, i.width);
      AlignedIs(base + AccessOffset(space, base, i.width, i.draw), i.width);
      hide Aligned;
    }
  }

  /** All jumps of such words but the halt loop's go strictly forward, no further than it. */
  lemma {:induction false} AssembledTerminates(words: seq<Word>, base: nat, space: int, seeds: seq<Line>,
                                               instrs: seq<Item>, pick: nat -> nat)
    requires forall i <- instrs :: DrawnItem(i, base, space)
    requires forall l <- seeds :: l.Compute? && l.rd != BASE_REG
    requires Drawn(pick, |instrs|) && WordsOf(words, base, space, seeds, instrs, pick)
    ensures Terminating(words, base, space)
  {
    hide WordOf, IsHalt;
    var pre, n := 1 + |seeds|, |instrs|;
    forall s | 0 <= s < pre + n + 1 ensures SafeWord(words[s], s, pre + n + 1, base, space) {
      if pre <= s < pre + n {
        var i := s - pre;
        assert instrs[i] in instrs && WordOf(words[pre + i], instrs[i], i + 1, pick, n, base, space);
        WordIsSafe(words[s], instrs[i], i + 1, pick, n, base, space, pre);
      } else if 1 <= s < pre {
        assert words[1 + (s - 1)] == SeedWord(seeds, s - 1) && seeds[s - 1] in seeds;
      }
    }
  }

  // ---- The simulator's run loop ----

  datatype Outcome = AtHalt | RanOff | Runaway

  /** The registers that matter: the pc and the base pointer. */
  datatype Hart = Hart(pc: int, x31: int)

  /** One instruction.  `taken` decides a branch, `junk` is what a computation yields. */
  function Next(w: Word, h: Hart, taken: bool, junk: int): Hart {
    match w
    case InitW(b) => Hart(h.pc + 4, b)
    case ComputeW(rd) => Hart(h.pc + 4, if rd == BASE_REG then junk else h.x31)
    case AccessW(_, _) => h.(pc := h.pc + 4)
    case FenceW => h.(pc := h.pc + 4)
    case BranchW(f) => h.(pc := h.pc + if taken then DecodeBranch(f) else 4)
    case JalW(rd, f) => Hart(h.pc + DecodeJal(f), if rd == BASE_REG then h.pc + 4 else h.x31)
  }

  /** The memory it touches. */
  function Accesses(w: Word, h: Hart): seq<(int, nat)> {
    if w.AccessW? then [(h.x31 + w.off, w.width)] else []
  }

  /** The pc is inside the program and not at its halt loop. */
  predicate InProgram(words: seq<Word>, h: Hart) { 0 <= h.pc < 4 * |words| }

  predicate Live(words: seq<Word>, h: Hart) { InProgram(words, h) && !IsHalt(words[h.pc / 4]) }

  /** The hart after n steps, from reset, and everything it touched on the way. */
  function HartAfter(words: seq<Word>, taken: nat -> bool, junk: nat -> int, n: nat): Hart {
    if n == 0 then Hart(0, 0)
    else
      var h := HartAfter(words, taken, junk, n - 1);
      if Live(words, h) then Next(words[h.pc / 4], h, taken(n - 1), junk(n - 1)) else h
  }

  function Touched(words: seq<Word>, taken: nat -> bool, junk: nat -> int, n: nat): seq<(int, nat)> {
    if n == 0 then []
    else
      var h := HartAfter(words, taken, junk, n - 1);
      Touched(words, taken, junk, n - 1) + if Live(words, h) then Accesses(words[h.pc / 4], h) else []
  }

  /** A run stops at the halt loop, outside the program, or at the step limit. */
  ghost predicate IsRun(words: seq<Word>, taken: nat -> bool, junk: nat -> int, maxSteps: nat,
                        o: Outcome, pc: int, steps: nat, touched: seq<(int, nat)>) {
    var h := HartAfter(words, taken, junk, steps);
    && steps <= maxSteps && pc == h.pc && touched == Touched(words, taken, junk, steps)
    && (forall i :: 0 <= i < steps ==> Live(words, HartAfter(words, taken, junk, i)))
    && o == (if steps == maxSteps then Runaway else if InProgram(words, h) then AtHalt else RanOff)
    && (o == AtHalt ==> IsHalt(words[pc / 4]))
  }

  /** The run loop, on any words. */
  method Simulate(words: seq<Word>, taken: nat -> bool, junk: nat -> int, maxSteps: nat)
      returns (o: Outcome, pc: int, steps: nat, touched: seq<(int, nat)>)
    ensures IsRun(words, taken, junk, maxSteps, o, pc, steps, touched)
  {
    hide DecodeJal, DecodeBranch;
    var h := Hart(0, 0);
    steps, touched := 0, [];
    while steps < maxSteps
      invariant steps <= maxSteps && h == HartAfter(words, taken, junk, steps)
      invariant touched == Touched(words, taken, junk, steps)
      invariant forall i :: 0 <= i < steps ==> Live(words, HartAfter(words, taken, junk, i))
    {
      if !InProgram(words, h) { return RanOff, h.pc, steps, touched; }
      var w := words[h.pc / 4];
      if IsHalt(w) { return AtHalt, h.pc, steps, touched; }
      touched := touched + Accesses(w, h);
      h := Next(w, h, taken(steps), junk(steps));
      steps := steps + 1;
    }
    o, pc := Runaway, h.pc;
  }

  ghost predicate AllLikeBase(touched: seq<(int, nat)>, base: int, space: int) {
    forall k :: 0 <= k < |touched| ==> LikeBase(touched[k], base, space)
  }

  /** Inside memory and aligned. */
  ghost predicate InSpace(touched: seq<(int, nat)>, space: int) {
    forall k :: 0 <= k < |touched| ==>
      && touched[k].1 in {1, 2, 4, 8} && Aligned(touched[k].0, touched[k].1)
      && 0 <= touched[k].0 && touched[k].0 + touched[k].1 <= space
  }

  /** With a base pointer aligned for every width and room for the widest, all accesses are. */
  lemma AlignedBase(touched: seq<(int, nat)>, base: nat, space: int)
    requires AllLikeBase(touched, base, space) && base % 8 == 0 && base + 8 <= space
    ensures InSpace(touched, space)
  {
    DivisorsOfEight(base);
  }

  lemma DivisorsOfEight(base: nat)
    requires base % 8 == 0
    ensures base % 1 == 0 && base % 2 == 0 && base % 4 == 0
  {
    var q := base / 8;
    Powers.DivModUnique(base, 2, 4 * q, 0);
    Powers.DivModUnique(base, 4, 2 * q, 0);
  }

  /** One live step of a terminating program from word s: strictly forward, at most to the
      halt loop, with the base pointer kept. */
  lemma LiveStep(words: seq<Word>, base: int, space: int, h: Hart, s: nat, taken: bool, junk: int) returns (s': nat)
    requires Terminating(words, base, space) && h.pc == 4 * s && s < |words| - 1 && (s > 0 ==> h.x31 == base)
    ensures var n := Next(words[s], h, taken, junk);
            && n.pc == 4 * s' && s < s' <= |words| - 1 && n.x31 == base
            && AllLikeBase(Accesses(words[s], h), base, space)
            && Live(words, h)
  {
    hide DecodeBranch, DecodeJal, LikeBase;
    var w, last := words[s], |words| - 1;
    assert SafeWord(w, s, last, base, space);
    assert h.pc / 4 == s;
    s' := s + 1;
    if w.BranchW? && taken {
      s' := Land(DecodeBranch(w.bf), s, last);
    } else if w.JalW? {
      s' := Land(DecodeJal(w.jf), s, last);
    }
  }

  lemma Land(off: int, s: nat, h: nat) returns (s': nat)
    requires ForwardTo(off, s, h)
    ensures 4 * s + off == 4 * s' && s < s' <= h
  {
    s' := s + off / 4;
  }

  /** After n steps of a terminating program: at word s, which is past the n-th unless the
      halt loop is reached. */
  lemma {:induction false} Progress(words: seq<Word>, base: int, space: int, taken: nat -> bool, junk: nat -> int,
                                    n: nat)
    returns (s: nat)
    requires Terminating(words, base, space)
    ensures var h := HartAfter(words, taken, junk, n);
            && h.pc == 4 * s && s <= |words| - 1 && (s > 0 ==> h.x31 == base)
            && (n <= s || s == |words| - 1) && (Live(words, h) <==> s < |words| - 1)
    ensures AllLikeBase(Touched(words, taken, junk, n), base, space)
  {
    assert |words| >= 2;
    assert AllLikeBase([], base, space);
    hide Terminating, Next, Live, AllLikeBase, Accesses;
    if n == 0 {
      s := 0;
    } else {
      var p := Progress(words, base, space, taken, junk, n - 1);
      s := p;
      var h := HartAfter(words, taken, junk, n - 1);
      var seen, more := Touched(words, taken, junk, n - 1), Accesses(words[p], h);
      assert h.pc / 4 == p;
      if p < |words| - 1 {
        s := LiveStep(words, base, space, h, p, taken(n - 1), junk(n - 1));
        LikeBaseAppend(seen, more, base, space);
      } else {
        assert seen + [] == seen;
      }
    }
    LiveExactly(words, base, space, HartAfter(words, taken, junk, n), s);
  }

  lemma LikeBaseAppend(a: seq<(int, nat)>, b: seq<(int, nat)>, base: int, space: int)
    requires AllLikeBase(a, base, space) && AllLikeBase(b, base, space)
    ensures AllLikeBase(a + b, base, space)
  {
    hide LikeBase;
  }

  lemma LiveExactly(words: seq<Word>, base: int, space: int, h: Hart, s: nat)
    requires Terminating(words, base, space) && h.pc == 4 * s && s <= |words| - 1
    ensures |words| >= 2 && (Live(words, h) <==> s < |words| - 1)
  {
    hide DecodeJal, DecodeBranch, LikeBase;
    assert h.pc / 4 == s;
    if s < |words| - 1 { assert SafeWord(words[s], s, |words| - 1, base, space); }
  }

  /** A terminating program halts in fewer steps than it has words, whatever its branches do. */
  lemma HaltsInTime(words: seq<Word>, base: int, space: int, taken: nat -> bool, junk: nat -> int, maxSteps: nat,
                    o: Outcome, pc: int, steps: nat, touched: seq<(int, nat)>)
    requires Terminating(words, base, space) && IsRun(words, taken, junk, maxSteps, o, pc, steps, touched)
    ensures steps < |words| && AllLikeBase(touched, base, space)
    ensures maxSteps >= |words| ==> o == AtHalt && pc == 4 * (|words| - 1)
  {
    hide Terminating, IsHalt, LikeBase, Touched, HartAfter;
    var s := Progress(words, base, space, taken, junk, steps);
    if steps > 0 {
      var p := Progress(words, base, space, taken, junk, steps - 1);
      assert Live(words, HartAfter(words, taken, junk, steps - 1));
    }
    LiveExactly(words, base, space, HartAfter(words, taken, junk, steps), s);
    assert pc / 4 == s;
  }

  /** The whole chain for every random choice: the generator's budget check, the assembler and
      the run loop.  A program comes out if and only if it is within budget, its base fits an
      immediate and its jumps are in reach, as they all are in memories up to 4096 bytes; it
      then halts, and its accesses are as safe as the base pointer.  The budget leaves out the
      fence, so a program fits memory if and only if it is not exactly at budget. */
  method GenerateAndRun(base: nat, space: int, seeds: seq<Line>, instrs: seq<Item>, pick: nat -> nat,
                        taken: nat -> bool, junk: nat -> int, maxSteps: nat)
      returns (words: Option<seq<Word>>, o: Outcome, pc: int, steps: nat, touched: seq<(int, nat)>)
    requires Drawn(pick, |instrs|)
    requires forall l <- seeds :: l.Compute? && l.rd != BASE_REG
    requires forall i <- instrs :: DrawnItem(i, base, space)
    ensures words.Some? <==> InBudget(space, seeds, instrs) && base < 0x800 && InReach(instrs, pick)
    ensures InBudget(space, seeds, instrs) && space <= 4096 ==> InReach(instrs, pick)
    ensures words.Some? ==>
      && WordsOf(words.value, base, space, seeds, instrs, pick) && Terminating(words.value, base, space)
      && IsRun(words.value, taken, junk, maxSteps, o, pc, steps, touched)
      && steps < |words.value| && AllLikeBase(touched, base, space)
    ensures words.Some? && maxSteps >= |words.value| ==> o == AtHalt && pc == 4 * (|words.value| - 1)
    ensures words.Some? && base % 8 == 0 && base + 8 <= space ==> InSpace(touched, space)
    ensures words.Some? ==> (4 * |words.value| <= space <==> |seeds| + |instrs| + 2 < space / 4)
  {
    hide Stmts, Labels, Encode, Terminating, InSpace, AllLikeBase, IsRun, InReach, Program;
    if InBudget(space, seeds, instrs) && space <= 4096 {
      ShortIsInReach(instrs, pick);
    }
    words, o, pc, steps, touched := None, RanOff, 0, 0, [];
    if !InBudget(space, seeds, instrs) { return; }
    var lines := Generate(base, space, seeds, instrs, pick);
    words := Assemble(lines);
    AssemblesIff(lines, base, space, seeds, instrs, pick);
    if words.Some? {
      AssembledWords(lines, base, space, seeds, instrs, pick, words.value);
      AssembledTerminates(words.value, base, space, seeds, instrs, pick);
      o, pc, steps, touched := Simulate(words.value, taken, junk, maxSteps);
      HaltsInTime(words.value, base, space, taken, junk, maxSteps, o, pc, steps, touched);
      if base % 8 == 0 && base + 8 <= space { AlignedBase(touched, base, space); }
    }
  }

  /** The generator's own count of a program against instruction memory. */
  predicate InBudget(space: int, seeds: seq<Line>, instrs: seq<Item>) { 1 + |seeds| + |instrs| + 1 <= space / 4 }

  /** A program at budget in the default 128 bytes: twelve seeds and eighteen instructions make
      33 words, one more than fit. */
  method OneWordOver(taken: nat -> bool, junk: nat -> int) returns (words: Option<seq<Word>>)
    ensures words.Some? && 4 * |words.value| == 132 > 128
  {
    hide Terminating, IsRun, AllLikeBase, InSpace, WordOf;
    var seeds, instrs, pick := seq(12, _ => Compute(30)), seq(18, _ => ComputeItem(1)), (k: nat) => 18;
    var w, _, _, _, _ := GenerateAndRun(32, 128, seeds, instrs, pick, taken, junk, 100);
    words := w;
  }
}
