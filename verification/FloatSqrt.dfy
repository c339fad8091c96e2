/** The 26-step digit-recurrence square root behind fsqrt.s. */
module FloatSqrt {
  import opened Powers
  import opened Float32
  import opened IssFloat
  import opened Sticky
  import opened FpRound
  import opened Restoring

  const ROOT_BITS: nat := 26

  /** After k steps on the 52-bit radicand N: the 2k bits consumed equal Q^2 + R with
      R <= 2Q, and the rest of the radicand sits at the top of `rad`. */
  ghost predicate RootInv(N: nat, k: nat, rad: nat, R: nat, Q: nat, rest: nat) {
    && k <= ROOT_BITS && Q < Pow2(k) && R <= 2 * Q
    && rest < Pow2(2 * (ROOT_BITS - k))
    && N == (Q * Q + R) * Pow2(2 * (ROOT_BITS - k)) + rest
    && rad == rest * Pow2(2 * k)
  }

  lemma RootWidths()
    ensures Pow2(25) == 0x200_0000 && Pow2(26) == 0x400_0000
    ensures Pow2(50) == 0x4_0000_0000_0000 && Pow2(52) == 0x10_0000_0000_0000
  {
    HiddenIsPow2();
    Pow2Double(25);
    hide Pow2;
    Pow2Add(25, 25);
    Pow2Add(26, 26);
  }

  /** The next two radicand bits are the top digit of `rad`; shifting drops them. */
  lemma TopDigit(rest: nat, p: nat, t: nat)
    requires p > 0 && t > 0
    ensures p * t > 0 && rest * t / (p * t) == rest / p && rest * t % (p * t) == rest % p * t
  {
    var d, r := rest / p, rest % p;
    LowPart(r, p, 0, t);
    Regroup(p, d, r, t);
    DivModUnique(rest * t, p * t, d, r * t);
  }

  lemma RestSmall(rest: nat, p: nat)
    requires p > 0 && rest < 4 * p
    ensures rest / p < 4
  {
    var q, r := rest / p, rest % p;
    assert rest == p * q + r;
    CancelPower(q, 4, p);
  }

  /** The root step: Q^2 + R takes in digit d. */
  lemma RootArithmetic(Q: nat, R: nat, d: nat)
    requires R <= 2 * Q && d < 4
    ensures var rs := 4 * R + d;
            var q' := if rs >= 4 * Q + 1 then 2 * Q + 1 else 2 * Q;
            var r' := if rs >= 4 * Q + 1 then rs - (4 * Q + 1) else rs;
            q' * q' + r' == 4 * (Q * Q + R) + d && r' <= 2 * q'
  {
    assert (2 * Q) * (2 * Q) == 4 * (Q * Q);
    assert (2 * Q + 1) * (2 * Q + 1) == 4 * (Q * Q) + 4 * Q + 1;
  }

  lemma TakeDigit(N: nat, x: nat, p: nat, d: nat, r: nat)
    requires N == x * (4 * p) + (p * d + r)
    ensures N == (4 * x + d) * p + r
  {
  }

  lemma PowerFacts(k: nat, p: nat, t: nat)
    requires k < ROOT_BITS && p == Pow2(2 * (ROOT_BITS - k - 1)) && t == Pow2(2 * k)
    ensures Pow2(2 * (ROOT_BITS - k)) == 4 * p && Pow2(2 * (k + 1)) == 4 * t
    ensures p * t == 0x4_0000_0000_0000
    ensures Pow2(k + 1) == 2 * Pow2(k) && Pow2(k) <= 0x200_0000
  {
    hide Pow2;
    var j := 2 * (ROOT_BITS - k - 1);
    Pow2Double(j);
    Pow2Double(j + 1);
    Pow2Double(2 * k);
    Pow2Double(2 * k + 1);
    Pow2Double(k);
    Pow2Add(j, 2 * k);
    Pow2Mono(k, 25);
    RootWidths();
  }

  lemma ShiftedRadicand(rad: nat)
    ensures rad * 4 % 0x10_0000_0000_0000 == rad % 0x4_0000_0000_0000 * 4
  {
  }

  /** What the circuit shifts: digit d enters R, the rest r stays on top of `rad`. */
  lemma ShiftRadicand(k: nat, rad: nat, rest: nat, p: nat, t: nat) returns (d: nat, r: nat)
    requires k < ROOT_BITS && p == Pow2(2 * (ROOT_BITS - k - 1)) && t == Pow2(2 * k)
    requires rest < Pow2(2 * (ROOT_BITS - k)) && rad == rest * t
    ensures d < 4 && r < p && rest == p * d + r
    ensures rad / 0x4_0000_0000_0000 == d
    ensures rad * 4 % 0x10_0000_0000_0000 == r * Pow2(2 * (k + 1))
  {
    hide Pow2;
    PowerFacts(k, p, t);
    TopDigit(rest, p, t);
    RestSmall(rest, p);
    ShiftedRadicand(rad);
    d, r := rest / p, rest % p;
    FourTimes(r, t);
  }

  lemma FourTimes(r: nat, t: nat)
    ensures r * t * 4 == r * (4 * t)
  {
  }

  /** The invariant carries over to the updated root and remainder. */
  lemma RootStep(N: nat, k: nat, R: nat, Q: nat, d: nat, r: nat, p: nat, rad: nat, rad': nat, newR: nat, newQ: nat)
    requires k < ROOT_BITS && p == Pow2(2 * (ROOT_BITS - k - 1)) && d < 4 && r < p
    requires RootInv(N, k, rad, R, Q, p * d + r)
    requires var rs := 4 * R + d;
             && newQ == (if rs >= 4 * Q + 1 then 2 * Q + 1 else 2 * Q)
             && newR == (if rs >= 4 * Q + 1 then rs - (4 * Q + 1) else rs)
    requires rad' == r * Pow2(2 * (k + 1))
    ensures RootInv(N, k + 1, rad', newR, newQ, r)
  {
    hide Pow2;
    PowerFacts(k, p, Pow2(2 * k));
    RootArithmetic(Q, R, d);
    TakeDigit(N, Q * Q + R, p, d, r);
  }

  /** The digit the circuit reads and the invariant it re-establishes. */
  lemma NextDigit(N: nat, k: nat, rad: nat, R: nat, Q: nat, rest: nat) returns (d: nat, rest': nat)
    requires k < ROOT_BITS && RootInv(N, k, rad, R, Q, rest)
    ensures d < 4 && rad / 0x4_0000_0000_0000 == d && Q < 0x200_0000 && R <= 2 * Q
    ensures var rs := 4 * R + d;
            RootInv(N, k + 1, rad * 4 % 0x10_0000_0000_0000,
                    if rs >= 4 * Q + 1 then rs - (4 * Q + 1) else rs,
                    if rs >= 4 * Q + 1 then 2 * Q + 1 else 2 * Q, rest')
  {
    hide Pow2;
    var p, t := Pow2(2 * (ROOT_BITS - k - 1)), Pow2(2 * k);
    PowerFacts(k, p, t);
    d, rest' := ShiftRadicand(k, rad, rest, p, t);
    var rs := 4 * R + d;
    RootStep(N, k, R, Q, d, rest', p, rad, rad * 4 % 0x10_0000_0000_0000,
             if rs >= 4 * Q + 1 then rs - (4 * Q + 1) else rs, if rs >= 4 * Q + 1 then 2 * Q + 1 else 2 * Q);
  }

  /** One digit-recurrence step on the 52-bit, 28-bit and 26-bit registers; every bit a
      register drops is zero. */
  method Step(rad: nat, R: nat, Q: nat, ghost N: nat, ghost k: nat, ghost rest: nat)
    returns (rad': nat, newR: nat, newQ: nat, ghost rest': nat)
    requires k < ROOT_BITS && RootInv(N, k, rad, R, Q, rest)
    ensures RootInv(N, k + 1, rad', newR, newQ, rest')
    ensures newR < 0x1000_0000 && newQ < 0x400_0000
  {
    hide Pow2, RootInv;
    ghost var d;
    d, rest' := NextDigit(N, k, rad, R, Q, rest);
    assert R % 0x400_0000 == R && Q % 0x200_0000 == Q;
    var rShifted := R % 0x400_0000 * 4 + rad / 0x4_0000_0000_0000;
    var trial := Q * 4 + 1;
    if rShifted >= trial {
      newR, newQ := rShifted - trial, Q % 0x200_0000 * 2 + 1;
    } else {
      newR, newQ := rShifted, Q % 0x200_0000 * 2;
    }
    rad' := rad * 4 % 0x10_0000_0000_0000;
  }

  /** 16n = Q^2 + R with R <= 2Q: the top 24 bits of Q are the root of n, and its last two
      bits with R decide the remainder class; a tie cannot happen. */
  lemma RootSummary(n: nat, Q: nat, R: nat)
    requires 16 * n == Q * Q + R && R <= 2 * Q
    ensures IsRoot(n, Q / 4)
    ensures SqrtClass(n, Q / 4) == ClassOf(Q / 2 % 2 == 1, Q % 2 == 1 || R != 0)
    ensures SqrtClass(n, Q / 4) != Tie
  {
    var s, t := Q / 4, Q % 4;
    Square(s, t);
    QuarterBits(Q, s, t);
    RootCases(n, s, s * s, t, R);
    Neighbours(s);
  }

  lemma QuarterBits(Q: nat, s: nat, t: nat)
    requires Q == 4 * s + t && t < 4
    ensures (Q / 2 % 2 == 1 <==> t >= 2) && (Q % 2 == 1 <==> t == 1 || t == 3)
  {
    DivModUnique(Q, 2, 2 * s + t / 2, t % 2);
    DivModUnique(Q / 2, 2, s, t / 2);
  }

  lemma Neighbours(s: nat)
    ensures (s + 1) * (s + 1) == s * s + 2 * s + 1
    ensures (2 * s + 1) * (2 * s + 1) == 4 * (s * s) + 4 * s + 1
  {
  }

  /** The comparison with the midpoint, linear once s^2 is named. */
  lemma RootCases(n: nat, s: nat, square: nat, t: nat, R: nat)
    requires t < 4 && 16 * n == 16 * square + 8 * (s * t) + t * t + R && R <= 8 * s + 2 * t
    ensures square <= n < square + 2 * s + 1
    ensures n == square <==> t == 0 && R == 0
    ensures if t >= 2 then 4 * n > 4 * square + 4 * s + 1 else 4 * n < 4 * square + 4 * s + 1
    ensures t == 2 ==> R != 0
  {
    match t {
      case 0 =>
      case 1 =>
      case 2 =>
      case 3 =>
    }
  }

  lemma Square(s: nat, t: nat)
    ensures (4 * s + t) * (4 * s + t) == 16 * (s * s) + 8 * (s * t) + t * t
  {
  }

  /** Parity folding: the radicand with its implicit scale made even, and the exponent of
      the root. */
  function Radicand(a: Float): nat {
    if a.Unbiased() % 2 == 0 then a.Mant() * 2 * 0x400_0000 else a.Mant() * 4 * 0x400_0000
  }

  function RootExponent(a: Float): int {
    if a.Unbiased() % 2 == 0 then a.Unbiased() / 2 else (a.Unbiased() - 1) / 2
  }

  /** The radicand register is sixteen times the reference's scaled integer. */
  lemma RadicandScaling(a: Float)
    ensures SqrtExponent(Positive(a)) == RootExponent(a)
    ensures Radicand(a) == 16 * SqrtWindow(Positive(a))
    ensures SqrtWindow(Positive(a)) as real == Scale(Positive(a), 2 * (23 - SqrtExponent(Positive(a))))
  {
    hide Scale, Isqrt;
    var h, m := RootExponent(a), a.Mant();
    var n := Radicand(a) / 16;
    var k := a.Unbiased() - 23;
    ScaledWindow(m, k, h, n);
    SqrtExponentUnique(Positive(a), h, SqrtExponent(Positive(a)));
  }

  /** fsqrt.s of a positive normal operand is its real root, rounded once. */
  lemma SqrtIsRealRoot(a: Float, r: real, rm: Rm)
    requires a.IsNormal() && !a.sign && r > 0.0 && r * r == a.Magnitude()
    ensures Sqrt(a, rm) == Round(false, r, rm)
  {
    hide Scale, Isqrt, RoundSqrt, Round, SqrtWindow;
    RadicandScaling(a);
    RoundSqrtIsRounded(Positive(a), r, rm);
  }

  /** A significand with exponent k, folded to the even exponent 2h. */
  lemma ScaledWindow(m: nat, k: int, h: int, n: nat)
    requires HIDDEN <= m < 2 * HIDDEN
    requires (k + 23 == 2 * h && n == m * HIDDEN) || (k + 23 == 2 * h + 1 && n == m * 2 * HIDDEN)
    ensures Scale(Scale(m as real, k), 2 * (23 - h)) == n as real
    ensures IsSqrtExponent(Scale(m as real, k), h)
  {
    hide Scale, Pow2;
    var v := Scale(m as real, k);
    HiddenIsPow2();
    ScaleScale(m as real, k, 2 * (23 - h));
    ScaleUp(m, 23);
    ScaleUp(m, 24);
    ScaleScale(v, -2 * h, 46);
    Pow2Add(23, 23);
    ScaleUp(1, 46);
    ScaleUp(4, 46);
    ScaleMono(Scale(v, -2 * h), 1.0, 46);
    ScaleMono(Scale(v, -2 * h), 4.0, 46);
  }

  lemma RadicandFits(a: Float)
    ensures RootInv(Radicand(a), 0, Radicand(a), 0, 0, Radicand(a))
  {
    RootWidths();
    assert Pow2(0) == 1;
  }

  /** After 26 steps: the leading bit is bit 25, and packing gives the rounded root. */
  method Finish(resultExp: Int10, rad: nat, R: nat, Q: nat, rm: Rm, ghost a: Float, ghost rest: nat)
    returns (value: Float, flags: Flags)
    requires resultExp == RootExponent(a) && a.IsNormal()
    requires RootInv(Radicand(a), ROOT_BITS, rad, R, Q, rest)
    ensures 0x200_0000 <= Q < 0x400_0000
    ensures !flags.nv && !flags.dz
    ensures Rounded(value, flags) == RoundSqrt(Positive(a), rm)
  {
    hide Isqrt, Scale;
    FinalRoot(Radicand(a), rad, R, Q, rest);
    RadicandScaling(a);
    ghost var n := SqrtWindow(Positive(a));
    RootSummary(n, Q, R);
    RootUnique(n, Q / 4, Isqrt(n));
    value, flags := RoundAndPack(false, resultExp, Q / 4, Q / 2 % 2 == 1, Q % 2 == 1, R != 0, rm);
  }

  lemma FinalRoot(N: nat, rad: nat, R: nat, Q: nat, rest: nat)
    requires RootInv(N, ROOT_BITS, rad, R, Q, rest)
    ensures N == Q * Q + R && R <= 2 * Q
  {
    assert Pow2(0) == 1;
  }

  class FSqrt {
    var busy: bool
    var done: bool
    var result: Float
    var flags: Flags
    var rad: nat
    var R: nat
    var Qroot: nat
    var count: nat
    var resultExp: Int10
    /** The operand of the root in progress, or of the last one. */
    ghost var op: Float
    ghost var rest: nat

    ghost predicate Valid()
      reads this
    {
      busy ==>
        && !done && flags == NO_FLAGS && count < ROOT_BITS && op.IsNormal() && !op.sign
        && resultExp == RootExponent(op)
        && RootInv(Radicand(op), count, rad, R, Qroot, rest)
    }

    /** Reset. */
    constructor ()
      ensures Valid() && !busy && !done
    {
      busy, done, result, flags := false, false, Zero(false), NO_FLAGS;
    }

    /** One clock edge; the rounding mode is the one presented on the completing edge. */
    method Clock(start: bool, rm: Rm, a: Float)
      requires Valid()
      modifies this
      ensures Valid()
      ensures old(busy) ==>
                && op == old(op)
                && done == (old(count) == ROOT_BITS - 1) && busy == !done && (busy ==> count == old(count) + 1)
      ensures !old(busy) && start && !old(done) ==>
                && op == a && busy == (a.IsNormal() && !a.sign) && done == !busy && (busy ==> count == 0)
      ensures !old(busy) && !(start && !old(done)) ==>
                && !busy && !done && result == old(result) && flags == old(flags) && op == old(op)
      ensures done ==> Rounded(result, flags) == Sqrt(op, rm)
    {
      if start && !busy && !done {
        done := Accept(a, rm);
      } else if busy {
        done := Iterate(rm);
      } else {
        done := false;
      }
    }

    /** A fresh request: NaN, zero, negative and infinite operands complete at once. */
    method Accept(a: Float, ghost rm: Rm) returns (finished: bool)
      requires Valid() && !busy && !done
      modifies this
      ensures op == a && !done
      ensures busy == (a.IsNormal() && !a.sign) && finished == !busy && (busy ==> count == 0)
      ensures finished ==> Rounded(result, flags) == Sqrt(a, rm)
      ensures Valid()
    {
      hide RootInv, RoundSqrt, Radicand;
      op := a;
      finished := true;
      if a.IsNan() {
        result, flags := CANONICAL_NAN, Flags(a.IsSnan(), false, false, false, false);
      } else if a.IsZero() {
        result, flags := a, NO_FLAGS;
      } else if a.sign {
        result, flags := CANONICAL_NAN, INVALID;
      } else if a.IsInf() {
        result, flags := a, NO_FLAGS;
      } else {
        finished := false;
        flags := NO_FLAGS;
        resultExp := RootExponent(a);
        rad, R, Qroot, count, busy := Radicand(a), 0, 0, 0, true;
        RadicandFits(a);
        rest := Radicand(a);
      }
    }

    /** One digit; the last one packs this edge's root and remainder. */
    method Iterate(rm: Rm) returns (finished: bool)
      requires Valid() && busy
      modifies this
      ensures op == old(op) && !done
      ensures finished == (old(count) == ROOT_BITS - 1) && busy == !finished && count == old(count) + 1
      ensures finished ==> Rounded(result, flags) == Sqrt(op, rm)
      ensures Valid()
    {
      hide RootInv, RoundSqrt, Radicand;
      rad, R, Qroot, rest := Step(rad, R, Qroot, Radicand(op), count, rest);
      finished := count == ROOT_BITS - 1;
      if finished {
        busy := false;
        var value, fl := Finish(resultExp, rad, R, Qroot, rm, op, rest);
        result, flags := value, Flags(flags.nv, flags.dz, fl.of, fl.uf, fl.nx);
      }
      count := count + 1;
    }
  }

  /** A caller that holds `start` through the cycle of `done` and then drops it: one edge for
      special operands, one to accept plus 26 steps otherwise, and a single done pulse, over
      which and over any number of idle edges after it the result stands. */
  method SquareRoot(a: Float, rm: Rm, idle: nat) returns (value: Float, flags: Flags, cycles: nat, pulses: nat)
    ensures Rounded(value, flags) == Sqrt(a, rm)
    ensures cycles == if a.IsNormal() && !a.sign then ROOT_BITS + 1 else 1
    ensures pulses == 1
  {
    hide Sqrt;
    var unit := new FSqrt();
    unit.Clock(true, rm, a);
    cycles, pulses := 1, Bit(unit.done);
    while !unit.done
      invariant unit.Valid() && unit.op == a
      invariant unit.busy == !unit.done && pulses == Bit(unit.done)
      invariant unit.busy ==> cycles == 1 + unit.count && a.IsNormal() && !a.sign
      invariant unit.done ==> Rounded(unit.result, unit.flags) == Sqrt(a, rm)
      invariant unit.done ==> cycles == if a.IsNormal() && !a.sign then ROOT_BITS + 1 else 1
      decreases ROOT_BITS - cycles, unit.busy
    {
      unit.Clock(true, rm, a);
      cycles, pulses := cycles + 1, pulses + Bit(unit.done);
    }
    for i := 0 to idle + 1
      invariant unit.Valid() && !unit.busy && (i > 0 ==> !unit.done) && (i == 0 ==> unit.done) && pulses == 1
      invariant Rounded(unit.result, unit.flags) == Sqrt(a, rm)
    {
      unit.Clock(i == 0, rm, a);
      pulses := pulses + Bit(unit.done);
    }
    value, flags := unit.result, unit.flags;
  }
}
