/** The 51-step significand divider behind fdiv.s. */
module FloatDivider {
  import opened Powers
  import opened Float32
  import opened IssFloat
  import opened Sticky
  import opened FpRound
  import opened Restoring

  const QW: nat := 51

  /** The dividend register: the significand with 27 zero bits below it. */
  function Dividend(a: Float): nat { a.Mant() * 0x800_0000 }

  lemma PadIsPow2()
    ensures Pow2(27) == 0x800_0000 && Pow2(51) == 0x8_0000_0000_0000 && Pow2(50) == 0x4_0000_0000_0000
  {
    HiddenIsPow2();
    Pow2Double(25);
    Pow2Double(26);
    Pow2Double(50);
    hide Pow2;
    Pow2Add(25, 25);
  }

  lemma DividendFits(a: Float)
    ensures Dividend(a) < Pow2(QW)
  {
    PadIsPow2();
  }

  /** The quotient always leads at bit 26 or 27. */
  lemma QuotientBounds(ma: nat, mb: nat, q: nat, r: nat)
    requires HIDDEN <= ma < 2 * HIDDEN && HIDDEN <= mb < 2 * HIDDEN
    requires ma * 0x800_0000 == q * mb + r && r < mb
    ensures 0x400_0000 < q < 0x1000_0000
  {
    assert (q + 1) * mb == q * mb + mb;
    CancelPower(0x400_0001, q + 1, mb);
    CancelPower(q, 0x1000_0000, mb);
  }

  /** q and "r is nonzero" truncate the exact scaled quotient. */
  lemma QuotientTruncates(m: nat, n: nat, q: nat, r: nat)
    requires n > 0 && m * 0x800_0000 == q * n + r && r < n
    ensures Truncates(Scale(m as real / n as real, 27), q, r != 0)
  {
    hide Scale, Pow2;
    var x := m as real / n as real;
    PadIsPow2();
    ScaleUp(m, 27);
    ScaleMul(x, n as real, m as real, 27);
    FloorOfQuotient(Scale(x, 27), n, q, r);
  }

  lemma FloorOfQuotient(t: real, n: nat, q: nat, r: nat)
    requires n > 0 && r < n && t * n as real == (q * n + r) as real
    ensures Truncates(t, q, r != 0)
  {
    var d := t - q as real;
    assert d * n as real == r as real;
    assert 0.0 <= d < 1.0;
  }

  /** Dropping k more bits of a truncated value. */
  lemma TruncatesFurther(x: real, q: nat, inexact: bool, k: nat)
    requires Truncates(x, q, inexact)
    ensures Truncates(Scale(x, 0 - k), q / Pow2(k), inexact || q % Pow2(k) != 0)
  {
    hide Scale, Pow2;
    var p, h := Pow2(k), q / Pow2(k);
    assert q == p * h + q % p;
    ScaleZero(x);
    ScaleScale(x, 0 - k, k);
    ScaleUp(h, k);
    ScaleUp(h + 1, k);
    assert (h + 1) * p == p * h + p;
    ScaleMono(h as real, Scale(x, 0 - k), k);
    ScaleMono(Scale(x, 0 - k), (h + 1) as real, k);
  }

  /** Both windows of the quotient summarise the exact value. */
  lemma QuotientSummary(ma: nat, mb: nat, d: int, q: nat, r: nat)
    requires ma > 0 && mb > 0 && ma * 0x800_0000 == q * mb + r && r < mb
    ensures var v := Scale(ma as real / mb as real, d);
            && v > 0.0
            && Truncates(Scale(v, 24 - d), q / 8, r != 0 || q % 8 != 0)
            && Truncates(Scale(v, 24 - (d - 1)), q / 4, r != 0 || q % 4 != 0)
  {
    assert Pow2(3) == 8 && Pow2(2) == 4;
    hide Scale, Pow2, Truncates;
    var x := ma as real / mb as real;
    QuotientTruncates(ma, mb, q, r);
    ScaleSign(x, d);
    TruncatesFurther(Scale(x, 27), q, r != 0, 3);
    TruncatesFurther(Scale(x, 27), q, r != 0, 2);
    ScaleScale(x, 27, 0 - 3);
    ScaleScale(x, 27, 0 - 2);
    ScaleScale(x, d, 24 - d);
    ScaleScale(x, d, 24 - (d - 1));
  }

  /** Packing the finished quotient q with remainder r: the leading place picks the
      window, the remainder joins the sticky bit. */
  method PackQuotient(sign: bool, expDiff: Int10, q: nat, r: nat, rm: Rm, ghost v: real)
    returns (value: Float, flags: Flags)
    requires -300 <= expDiff <= 300 && v > 0.0 && 0x400_0000 < q < 0x1000_0000
    requires Truncates(Scale(v, 24 - expDiff), q / 8, r != 0 || q % 8 != 0)
    requires Truncates(Scale(v, 24 - (expDiff - 1)), q / 4, r != 0 || q % 4 != 0)
    ensures Agrees(value, flags, Round(sign, v, rm), ExactUnderflow(v))
  {
    hide Scale, Truncates, Round, ExactUnderflow;
    WindowBits(q);
    if q / 0x800_0000 % 2 == 1 {
      value, flags := PackWindow(sign, expDiff, q / 8, q / 4 % 2 == 1,
                                 q / 2 % 2 == 1 || q % 2 == 1 || r != 0, rm, v);
    } else {
      value, flags := PackWindow(sign, expDiff - 1, q / 4, q / 2 % 2 == 1, q % 2 == 1 || r != 0, rm, v);
    }
  }

  lemma WindowBits(q: nat)
    ensures q % 4 != 0 <==> q / 2 % 2 == 1 || q % 2 == 1
    ensures q % 8 != 0 <==> q / 4 % 2 == 1 || q / 2 % 2 == 1 || q % 2 == 1
    ensures 0x400_0000 < q < 0x1000_0000 ==> (q / 0x800_0000 % 2 == 1 <==> q >= 0x800_0000)
  {
  }

  /** Round a 25-bit window {significand, guard} with its round and sticky bits. */
  method PackWindow(sign: bool, e: Int10, top: nat, roundBit: bool, sticky: bool, rm: Rm, ghost v: real)
    returns (value: Float, flags: Flags)
    requires e <= 509 && v > 0.0 && 2 * HIDDEN <= top < 4 * HIDDEN
    requires Truncates(Scale(v, 24 - e), top, roundBit || sticky)
    ensures Agrees(value, flags, Round(sign, v, rm), ExactUnderflow(v))
  {
    hide Scale, Round;
    value, flags := RoundAndPack(sign, e, top / 2, top % 2 == 1, roundBit, sticky, rm);
    RoundFromSummary(sign, v, e, top / 2, top % 2 == 1, roundBit || sticky, rm);
    ExactUnderflowAt(v);
  }

  /** The quotients that underflow without losing a bit. */
  ghost predicate DivUnderflow(a: Float, b: Float) {
    a.IsNormal() && b.IsNormal() && ExactUnderflow(Quotient(a, b))
  }

  /** Operands that need no iteration. */
  method Special(a: Float, b: Float, ghost rm: Rm) returns (value: Float, flags: Flags)
    requires !(a.IsNormal() && b.IsNormal())
    ensures Agrees(value, flags, Div(a, b, rm), DivUnderflow(a, b))
  {
    var sign := a.sign != b.sign;
    if a.IsNan() || b.IsNan() {
      value, flags := CANONICAL_NAN, Flags(a.IsSnan() || b.IsSnan(), false, false, false, false);
    } else if a.IsInf() && b.IsInf() {
      value, flags := CANONICAL_NAN, INVALID;
    } else if a.IsZero() && b.IsZero() {
      value, flags := CANONICAL_NAN, INVALID;
    } else if a.IsInf() {
      value, flags := Float(sign, 0xFF, 0), NO_FLAGS;
    } else if b.IsInf() {
      value, flags := Float(sign, 0, 0), NO_FLAGS;
    } else if b.IsZero() {
      value, flags := Float(sign, 0xFF, 0), DIV_BY_ZERO;
    } else {
      value, flags := Float(sign, 0, 0), NO_FLAGS;
    }
  }

  /** One restoring step on the 25-bit remainder and 51-bit quotient registers. */
  method Step(R: nat, Q: nat, D: nat, ghost N: nat, ghost k: nat, ghost quo: nat, ghost pending: nat)
    returns (newR: nat, newQ: nat, ghost quo': nat, ghost pending': nat)
    requires k < QW && D < 0x100_0000 && DivInv(QW, N, D, k, R, Q, quo, pending)
    ensures DivInv(QW, N, D, k + 1, newR, newQ, quo', pending')
  {
    hide DivInv, Pow2;
    DivInvBounds(QW, N, D, k, R, Q, quo, pending);
    PadIsPow2();
    quo', pending' := DivStep(QW, N, D, k, R, Q, quo, pending);
    var rShifted := R % 0x100_0000 * 2 + Q / 0x4_0000_0000_0000;
    if rShifted >= D {
      newR, newQ := rShifted - D, Q % 0x4_0000_0000_0000 * 2 + 1;
    } else {
      newR, newQ := rShifted, Q % 0x4_0000_0000_0000 * 2;
    }
  }

  /** After the last step the registers round to the exact quotient. */
  method Finish(sign: bool, expA: Int10, expB: Int10, q: nat, r: nat, rm: Rm,
                ghost a: Float, ghost b: Float, ghost quo: nat, ghost pending: nat)
    returns (value: Float, flags: Flags)
    requires a.IsNormal() && b.IsNormal() && sign == (a.sign != b.sign)
    requires expA == a.Unbiased() && expB == b.Unbiased()
    requires DivInv(QW, Dividend(a), b.Mant(), QW, r, q, quo, pending)
    ensures !flags.nv && !flags.dz
    ensures Agrees(value, flags, Div(a, b, rm), DivUnderflow(a, b))
  {
    hide DivInv, Scale, Pow2, Truncates;
    DivEnd(QW, Dividend(a), b.Mant(), r, q, quo, pending);
    DivModBack(Dividend(a), b.Mant());
    QuotientBounds(a.Mant(), b.Mant(), q, r);
    QuotientSummary(a.Mant(), b.Mant(), expA - expB, q, r);
    value, flags := PackQuotient(sign, expA - expB, q, r, rm, Quotient(a, b));
  }

  lemma DivModBack(n: nat, d: nat)
    requires d > 0
    ensures n == n / d * d + n % d
  {
  }

  class FDivider {
    var busy: bool
    var done: bool
    var result: Float
    var flags: Flags
    var R: nat
    var Q: nat
    var D: nat
    var count: nat
    var resultSign: bool
    var expA: Int10
    var expB: Int10
    /** The operands of the division in progress, or of the last one. */
    ghost var opA: Float
    ghost var opB: Float
    ghost var quo: nat
    ghost var pending: nat

    ghost predicate Valid()
      reads this
    {
      busy ==>
        && !done && flags == NO_FLAGS && count < QW && opA.IsNormal() && opB.IsNormal()
        && D == opB.Mant() && resultSign == (opA.sign != opB.sign)
        && expA == opA.Unbiased() && expB == opB.Unbiased()
        && DivInv(QW, Dividend(opA), D, count, R, Q, quo, pending)
    }

    /** Reset. */
    constructor ()
      ensures Valid() && !busy && !done
    {
      busy, done, result, flags := false, false, Zero(false), NO_FLAGS;
    }

    /** One clock edge.  The operands are taken on the accepting edge; the rounding mode
        is the one presented on the completing edge. */
    method Clock(start: bool, rm: Rm, a: Float, b: Float)
      requires Valid()
      modifies this
      ensures Valid()
      ensures old(busy) ==>
                && opA == old(opA) && opB == old(opB)
                && done == (old(count) == QW - 1) && busy == !done && (busy ==> count == old(count) + 1)
      ensures !old(busy) && start && !old(done) ==>
                && opA == a && opB == b
                && busy == (a.IsNormal() && b.IsNormal()) && done == !busy && (busy ==> count == 0)
      ensures !old(busy) && !(start && !old(done)) ==>
                && !busy && !done && result == old(result) && flags == old(flags)
                && opA == old(opA) && opB == old(opB)
      ensures done ==> Agrees(result, flags, Div(opA, opB, rm), DivUnderflow(opA, opB))
    {
      if start && !busy && !done {
        done := Accept(a, b, rm);
      } else if busy {
        done := Iterate(rm);
      } else {
        done := false;
      }
    }

    /** A fresh request: special operands complete at once, normal ones start iterating. */
    method Accept(a: Float, b: Float, ghost rm: Rm) returns (finished: bool)
      requires Valid() && !busy && !done
      modifies this
      ensures opA == a && opB == b && !done
      ensures busy == (a.IsNormal() && b.IsNormal()) && finished == !busy && (busy ==> count == 0)
      ensures finished ==> Agrees(result, flags, Div(a, b, rm), DivUnderflow(a, b))
      ensures Valid()
    {
      hide DivInv, Pow2, Div, Dividend, DivUnderflow, Agrees;
      opA, opB := a, b;
      finished := !(a.IsNormal() && b.IsNormal());
      if finished {
        result, flags := Special(a, b, rm);
      } else {
        flags := NO_FLAGS;
        resultSign, expA, expB := a.sign != b.sign, a.Unbiased(), b.Unbiased();
        R, Q, D, count, busy := 0, Dividend(a), HIDDEN + b.frac, 0, true;
        DividendFits(a);
        DivStart(QW, Dividend(a), D);
        quo, pending := 0, Dividend(a);
      }
    }

    /** One restoring step; the last one packs this edge's quotient and remainder. */
    method Iterate(rm: Rm) returns (finished: bool)
      requires Valid() && busy
      modifies this
      ensures opA == old(opA) && opB == old(opB) && !done
      ensures finished == (old(count) == QW - 1) && busy == !finished && count == old(count) + 1
      ensures finished ==> Agrees(result, flags, Div(opA, opB, rm), DivUnderflow(opA, opB))
      ensures Valid()
    {
      hide DivInv, Pow2, Div, Dividend, DivUnderflow, Agrees;
      R, Q, quo, pending := Step(R, Q, D, Dividend(opA), count, quo, pending);
      finished := count == QW - 1;
      if finished {
        busy := false;
        var value, fl := Finish(resultSign, expA, expB, Q, R, rm, opA, opB, quo, pending);
        result, flags := value, Flags(false, flags.dz, fl.of, fl.uf, fl.nx);
      }
      count := count + 1;
    }
  }

  /** A caller that holds `start` through the cycle of `done` and then drops it: one edge for
      special operands, one to accept plus 51 steps otherwise, and a single done pulse, over
      which and over any number of idle edges after it the result stands. */
  method Divide(a: Float, b: Float, rm: Rm, idle: nat) returns (value: Float, flags: Flags, cycles: nat, pulses: nat)
    ensures Agrees(value, flags, Div(a, b, rm), DivUnderflow(a, b))
    ensures flags == Div(a, b, rm).flags <==> !DivUnderflow(a, b)
    ensures cycles == if a.IsNormal() && b.IsNormal() then QW + 1 else 1
    ensures pulses == 1
  {
    hide Div, DivUnderflow;
    var unit := new FDivider();
    unit.Clock(true, rm, a, b);
    cycles, pulses := 1, Bit(unit.done);
    while !unit.done
      invariant unit.Valid() && unit.opA == a && unit.opB == b
      invariant unit.busy == !unit.done && pulses == Bit(unit.done)
      invariant unit.busy ==> cycles == 1 + unit.count && a.IsNormal() && b.IsNormal()
      invariant unit.done ==> Agrees(unit.result, unit.flags, Div(a, b, rm), DivUnderflow(a, b))
      invariant unit.done ==> cycles == if a.IsNormal() && b.IsNormal() then QW + 1 else 1
      decreases QW - cycles, unit.busy
    {
      unit.Clock(true, rm, a, b);
      cycles, pulses := cycles + 1, pulses + Bit(unit.done);
    }
    for i := 0 to idle + 1
      invariant unit.Valid() && !unit.busy && (i > 0 ==> !unit.done) && (i == 0 ==> unit.done) && pulses == 1
      invariant Agrees(unit.result, unit.flags, Div(a, b, rm), DivUnderflow(a, b))
    {
      unit.Clock(i == 0, rm, a, b);
      pulses := pulses + Bit(unit.done);
    }
    value, flags := unit.result, unit.flags;
  }
}
