/**
 * The constant builders of the random program generator, run on the simulator's 64-bit
 * registers: a register is a natural below 2^64.
 */
module ConstBuilder {
  import opened Powers

  const W32: nat := 0x1_0000_0000
  const W64: nat := 0x1_0000_0000_0000_0000

  type Reg = x: nat | x < 32
  type Word64 = x: nat | x < W64
  type Imm20 = x: nat | x < 0x10_0000
  type RegFile = s: seq<Word64> | |s| == 32 witness seq(32, _ => 0)

  datatype Instr =
    | Lui(rd: Reg, imm: Imm20)
    | Addi(rd: Reg, rs1: Reg, simm: int)
    | Slli32(rd: Reg, rs1: Reg)
    | Srli32(rd: Reg, rs1: Reg)
    | Or(rd: Reg, rs1: Reg, rs2: Reg)

  // ---- The simulator ----

  /** uxlen: an integer reduced to 64 bits. */
  function Ux64(v: int): Word64 { v % W64 }

  function S32(v: nat): int
    requires v < W32
  { if v >= 0x8000_0000 then v - W32 else v }

  function BitOr(a: nat, b: nat): nat {
    if a == 0 && b == 0 then 0
    else 2 * BitOr(a / 2, b / 2) + if a % 2 == 1 || b % 2 == 1 then 1 else 0
  }

  function Result(i: Instr, regs: RegFile): Word64 {
    match i
    case Lui(_, imm) => Ux64(S32(imm * 0x1000))
    case Addi(_, rs1, simm) => Ux64(regs[rs1] + simm)
    case Slli32(_, rs1) => Ux64(regs[rs1] * W32)
    case Srli32(_, rs1) => regs[rs1] / W32
    case Or(_, rs1, rs2) => Ux64(BitOr(regs[rs1], regs[rs2]))
  }

  function Exec(i: Instr, regs: RegFile): RegFile {
    if i.rd == 0 then regs else regs[i.rd := Result(i, regs)]
  }

  function Run(code: seq<Instr>, regs: RegFile): RegFile
    decreases |code|
  {
    if code == [] then regs else Run(code[1..], Exec(code[0], regs))
  }

  // ---- The generator ----

  function Const32(rd: Reg, bits: nat): seq<Instr>
    requires bits < W32
  {
    var lo, hi0 := bits % 0x1000, bits / 0x1000;
    var hi := if lo >= 0x800 then (hi0 + 1) % 0x10_0000 else hi0;
    [Lui(rd, hi)] +
    if lo == 0 then [] else [Addi(rd, rd, if lo >= 0x800 then lo - 0x1000 else lo)]
  }

  function Const64(rd: Reg, scratch: Reg, bits: Word64): seq<Instr> {
    Const32(rd, bits / W32) + [Slli32(rd, rd)] +
    Const32(scratch, bits % W32) + [Slli32(scratch, scratch), Srli32(scratch, scratch)] +
    [Or(rd, rd, scratch)]
  }

  // ---- What the sequences leave ----

  lemma {:induction false} RunAppend(a: seq<Instr>, b: seq<Instr>, regs: RegFile)
    ensures Run(a + b, regs) == Run(b, Run(a, regs))
    decreases |a|
  {
    if a == [] {
      assert a + b == b;
    } else {
      assert (a + b)[0] == a[0] && (a + b)[1..] == a[1..] + b;
      RunAppend(a[1..], b, Exec(a[0], regs));
    }
  }

  /** The halves never overlap, so OR adds. */
  lemma {:induction false} OrDisjoint(a: nat, b: nat, p: nat, k: nat)
    requires p == Pow2(k) && b < p
    ensures BitOr(a * p, b) == a * p + b
    decreases k
  {
    if k == 0 {
      OrZero(a);
    } else {
      var q := Pow2(k - 1);
      assert a * p == 2 * (a * q);
      OrDisjoint(a, b / 2, q, k - 1);
    }
  }

  lemma {:induction false} OrZero(a: nat)
    ensures BitOr(a, 0) == a
  {
    if a > 0 { OrZero(a / 2); }
  }

  /** What lui+addi leave in a 64-bit register. */
  function Built(bits: nat): Word64
    requires bits < W32
  {
    if 0x7FFF_F800 <= bits < 0x8000_0000 then W64 - W32 + bits else Ux64(S32(bits))
  }

  lemma RunOne(i: Instr, regs: RegFile)
    ensures Run([i], regs) == Exec(i, regs)
  {
    assert [i][1..] == [];
  }

  lemma RunTwo(i: Instr, j: Instr, regs: RegFile)
    ensures Run([i, j], regs) == Exec(j, Exec(i, regs))
  {
    RunOne(j, Exec(i, regs));
    assert [i, j][1..] == [j];
  }

  lemma BuiltHalves(bits: nat)
    requires bits < W32
    ensures Built(bits) % W32 == bits
    ensures Built(bits) == Ux64(S32(bits)) <==> !(0x7FFF_F800 <= bits < 0x8000_0000)
  {}

  lemma BuiltByParts(bits: nat, lo: nat, hi0: nat, hi: nat)
    requires bits < W32 && bits == 0x1000 * hi0 + lo && lo < 0x1000
    requires hi == if lo < 0x800 then hi0 else if hi0 == 0xF_FFFF then 0 else hi0 + 1
    ensures hi0 < 0x10_0000
    ensures Ux64(Ux64(S32(hi * 0x1000)) + if lo >= 0x800 then lo - 0x1000 else lo) == Built(bits)
  {}

  lemma Const32Leaves(rd: Reg, bits: nat, regs: RegFile)
    requires bits < W32 && rd != 0
    ensures Run(Const32(rd, bits), regs) == regs[rd := Built(bits)]
  {
    hide Run, Built, Ux64, S32;
    var code := Const32(rd, bits);
    var hi: nat := code[0].imm;
    BuiltByParts(bits, bits % 0x1000, bits / 0x1000, hi);
    if bits % 0x1000 == 0 {
      assert code == [Lui(rd, hi)];
      RunOne(code[0], regs);
      Ux64Small(Ux64(S32(hi * 0x1000)));
    } else {
      assert code == [Lui(rd, hi), code[1]];
      RunTwo(code[0], code[1], regs);
    }
  }

  /** What the executed sequence leaves: the low half is always right; the register holds the
      sign-extended word except on the 2048 values just below 2^31, where the pre-incremented
      lui turns negative. */
  lemma Const32SignExtends(rd: Reg, bits: nat, regs: RegFile)
    requires bits < W32 && rd != 0
    ensures var v := Run(Const32(rd, bits), regs)[rd];
            && v % W32 == bits
            && (v == Ux64(S32(bits)) <==> !(0x7FFF_F800 <= bits < 0x8000_0000))
  {
    hide Run, Built, Ux64, S32, Const32;
    Const32Leaves(rd, bits, regs);
    BuiltHalves(bits);
  }

  lemma Ux64Small(x: Word64)
    ensures Ux64(x) == x
  {}

  /** For every value and any two distinct nonzero registers the sequence leaves exactly the
      value, the low half in the scratch register, and every other register untouched. */
  lemma Const64Leaves(rd: Reg, scratch: Reg, bits: Word64, regs: RegFile)
    requires rd != 0 && scratch != 0 && rd != scratch
    ensures Run(Const64(rd, scratch, bits), regs) == regs[rd := bits][scratch := bits % W32]
  {
    hide Run, Built, Ux64, Const32, Pow2, BitOr;
    var hi, lo := bits / W32, bits % W32;
    var a, b := Const32(rd, hi), Const32(scratch, lo);
    var s1, s2, s3 := [Slli32(rd, rd)], [Slli32(scratch, scratch), Srli32(scratch, scratch)], [Or(rd, rd, scratch)];
    RunAppend(a + s1 + b + s2, s3, regs);
    RunAppend(a + s1 + b, s2, regs);
    RunAppend(a + s1, b, regs);
    RunAppend(a, s1, regs);
    Const32Leaves(rd, hi, regs);
    ShiftUp(hi);
    RunOne(s1[0], regs[rd := Built(hi)]);
    var r2 := regs[rd := hi * W32];
    assert regs[rd := Built(hi)][rd := hi * W32] == r2;
    Const32Leaves(scratch, lo, r2);
    ShiftUp(lo);
    RunTwo(s2[0], s2[1], r2[scratch := Built(lo)]);
    var r4 := r2[scratch := lo];
    assert r2[scratch := Built(lo)][scratch := lo * W32][scratch := lo] == r4;
    JoinHalves(hi, lo, bits);
    RunOne(s3[0], r4);
    assert r4[rd := bits] == regs[rd := bits][scratch := lo];
  }

  lemma JoinHalves(hi: nat, lo: nat, bits: Word64)
    requires hi == bits / W32 && lo == bits % W32
    ensures Ux64(BitOr(hi * W32, lo)) == bits
  {
    assert Pow2(32) == W32 by { assert Pow2(8) == 0x100; Pow2Add(8, 8); Pow2Add(16, 16); }
    hide Pow2, BitOr;
    OrDisjoint(hi, lo, W32, 32);
  }

  lemma ShiftUp(half: nat)
    requires half < W32
    ensures Ux64(Built(half) * W32) == half * W32 && half * W32 / W32 == half
  {
    BuiltHalves(half);
    var q := Built(half) / W32;
    assert Built(half) * W32 == q * W64 + half * W32;
    DivModUnique(Built(half) * W32, W64, q, half * W32);
  }
}
