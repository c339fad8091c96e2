/** The XLEN-step integer divider behind div, divu, rem and remu. */
module IntDivider {
  import opened Powers
  import opened Restoring

  /** Two's-complement reading and its inverse, the simulator's sxlen and uxlen. */
  function Sx(n: nat, x: nat): int
    requires n >= 1
  {
    if x >= Pow2(n - 1) then x - Pow2(n) else x
  }

  function Ux(n: nat, i: int): nat { i % Pow2(n) }

  function AbsInt(i: int): nat { if i < 0 then -i else i }

  /** INT_MIN / -1. */
  predicate Overflows(n: nat, A: nat, B: nat)
    requires n >= 1
  {
    Sx(n, A) == 0 - Pow2(n - 1) && Sx(n, B) == -1
  }

  /** Quotient and remainder of magnitudes. */
  function Quo(x: nat, y: nat): nat
    requires y > 0
  { x / y }

  function Rem(x: nat, y: nat): nat
    requires y > 0
  { x % y }

  /** The simulator's div and divu. */
  function IssDiv(n: nat, isSigned: bool, A: nat, B: nat): int
    requires n >= 1 && A < Pow2(n) && B < Pow2(n)
  {
    if B == 0 then Ux(n, -1)
    else if !isSigned then Quo(A, B)
    else if Overflows(n, A, B) then A
    else
      var q := Quo(AbsInt(Sx(n, A)), AbsInt(Sx(n, B)));
      Ux(n, if (Sx(n, A) < 0) != (Sx(n, B) < 0) then 0 - q else q)
  }

  /** The simulator's rem and remu. */
  function IssRem(n: nat, isSigned: bool, A: nat, B: nat): int
    requires n >= 1 && A < Pow2(n) && B < Pow2(n)
  {
    if B == 0 then A
    else if !isSigned then Rem(A, B)
    else if Overflows(n, A, B) then 0
    else
      var r := Rem(AbsInt(Sx(n, A)), AbsInt(Sx(n, B)));
      Ux(n, if Sx(n, A) < 0 then 0 - r else r)
  }

  /** Two's-complement negation of an n-bit register. */
  function Neg(n: nat, x: nat): int {
    if x == 0 then 0 else Pow2(n) - x
  }

  lemma UxOf(n: nat, x: nat)
    requires x < Pow2(n)
    ensures Ux(n, x) == x && Ux(n, 0 - x) == Neg(n, x)
  {
    DivModUnique(x, Pow2(n), 0, x);
    if x != 0 {
      DivModUnique(0 - x, Pow2(n), -1, Pow2(n) - x);
    }
  }

  /** The magnitude register holds the absolute value of the signed reading. */
  lemma Magnitudes(n: nat, x: nat)
    requires n >= 1 && x < Pow2(n)
    ensures AbsInt(Sx(n, x)) == (if x >= Pow2(n - 1) then Neg(n, x) else x) < Pow2(n)
    ensures Sx(n, x) < 0 <==> x >= Pow2(n - 1)
    ensures Sx(n, x) == 0 <==> x == 0
  {
    Pow2Double(n - 1);
  }

  /** Section 7.2 of the RISC-V unprivileged ISA: outside the two special cases, the
      dividend is divisor times quotient plus a smaller remainder of the dividend's sign. */
  lemma DivRemLaw(n: nat, isSigned: bool, A: nat, B: nat)
    requires n >= 1 && A < Pow2(n) && 0 < B < Pow2(n)
    requires isSigned ==> !Overflows(n, A, B)
    ensures 0 <= IssDiv(n, isSigned, A, B) < Pow2(n) && 0 <= IssRem(n, isSigned, A, B) < Pow2(n)
    ensures var (a, b) := if isSigned then (Sx(n, A), Sx(n, B)) else (A, B);
            var (q, r) := (IssDiv(n, isSigned, A, B), IssRem(n, isSigned, A, B));
            var (q', r') := if isSigned then (Sx(n, q), Sx(n, r)) else (q, r);
            a == b * q' + r' && AbsInt(r') < AbsInt(b) && (r' == 0 || (r' < 0 <==> a < 0))
  {
    if isSigned {
      SignedDivRem(n, A, B);
    } else {
      UnsignedDivRem(n, A, B);
    }
  }

  lemma UnsignedDivRem(n: nat, A: nat, B: nat)
    requires n >= 1 && A < Pow2(n) && 0 < B < Pow2(n)
    ensures 0 <= IssDiv(n, false, A, B) < Pow2(n) && 0 <= IssRem(n, false, A, B) < Pow2(n)
    ensures A == B * IssDiv(n, false, A, B) + IssRem(n, false, A, B) && IssRem(n, false, A, B) < B
  {
    hide Pow2, Quo, Rem;
    DivMod(A, B);
    QuotientSmall(A, B, Quo(A, B), Rem(A, B));
  }

  lemma SignedDivRem(n: nat, A: nat, B: nat)
    requires n >= 1 && A < Pow2(n) && 0 < B < Pow2(n) && !Overflows(n, A, B)
    ensures 0 <= IssDiv(n, true, A, B) < Pow2(n) && 0 <= IssRem(n, true, A, B) < Pow2(n)
    ensures var (a, b, q, r) := (Sx(n, A), Sx(n, B), Sx(n, IssDiv(n, true, A, B)), Sx(n, IssRem(n, true, A, B)));
            a == b * q + r && AbsInt(r) < AbsInt(b) && (r == 0 || (r < 0 <==> a < 0))
  {
    hide Pow2, Ux, Sx, IssDiv, IssRem;
    SignedRange(n, A);
    SignedRange(n, B);
    var q, r := SignedResults(n, A, B);
    SignedLaw(n, Sx(n, A), Sx(n, B), q, r);
  }

  /** The signed results through the division of magnitudes. */
  lemma SignedResults(n: nat, A: nat, B: nat) returns (q: nat, r: nat)
    requires n >= 1 && A < Pow2(n) && 0 < B < Pow2(n) && !Overflows(n, A, B)
    ensures var (a, b) := (Sx(n, A), Sx(n, B));
            && AbsInt(a) == AbsInt(b) * q + r && r < AbsInt(b)
            && IssDiv(n, true, A, B) == Ux(n, if (a < 0) != (b < 0) then 0 - q else q)
            && IssRem(n, true, A, B) == Ux(n, if a < 0 then 0 - r else r)
  {
    hide Pow2, Ux;
    SignedRange(n, A);
    SignedRange(n, B);
    var x, y := AbsInt(Sx(n, A)), AbsInt(Sx(n, B));
    hide Sx, AbsInt, Quo, Rem;
    DivMod(x, y);
    q, r := Quo(x, y), Rem(x, y);
  }

  lemma SignedRange(n: nat, x: nat)
    requires n >= 1 && x < Pow2(n)
    ensures 0 - Pow2(n - 1) <= Sx(n, x) < Pow2(n - 1) && (Sx(n, x) == 0 <==> x == 0)
  {
    Pow2Double(n - 1);
  }

  lemma DivMod(x: nat, y: nat)
    requires y > 0
    ensures x == y * Quo(x, y) + Rem(x, y) && Rem(x, y) < y
  {
  }

  lemma QuotientSmall(x: nat, y: nat, q: nat, r: nat)
    requires x == y * q + r && r < y
    ensures q <= x && r <= x
  {
    assert y * q >= q;
  }

  /** Signs put back on the magnitude division still fit in n bits. */
  lemma SignedLaw(n: nat, a: int, b: int, q: nat, r: nat)
    requires n >= 1 && 0 - Pow2(n - 1) <= a < Pow2(n - 1) && 0 - Pow2(n - 1) <= b < Pow2(n - 1)
    requires !(a == 0 - Pow2(n - 1) && b == -1)
    requires AbsInt(a) == AbsInt(b) * q + r && r < AbsInt(b)
    ensures var (q', r') := (if (a < 0) != (b < 0) then 0 - q else q, if a < 0 then 0 - r else r);
            && Sx(n, Ux(n, q')) == q' && Sx(n, Ux(n, r')) == r' && a == b * q' + r'
            && Ux(n, q') < Pow2(n) && Ux(n, r') < Pow2(n)
  {
    hide Pow2, Ux, Sx;
    QuotientRange(AbsInt(a), AbsInt(b), q, r, Pow2(n - 1));
    SignedProduct(a, b, q, r);
    SignedFits(n, if (a < 0) != (b < 0) then 0 - q else q);
    SignedFits(n, if a < 0 then 0 - r else r);
  }

  lemma QuotientRange(x: nat, y: nat, q: nat, r: nat, h: nat)
    requires x == y * q + r && r < y <= h && x <= h
    ensures q <= h && (q == h ==> x == h && y == 1)
  {
    if y > 1 {
      assert y * q >= 2 * q;
    }
  }

  lemma SignedProduct(a: int, b: int, q: nat, r: nat)
    requires AbsInt(a) == AbsInt(b) * q + r
    ensures a == b * (if (a < 0) != (b < 0) then 0 - q else q) + if a < 0 then 0 - r else r
  {
  }

  lemma SignedFits(n: nat, i: int)
    requires n >= 1 && 0 - Pow2(n - 1) <= i < Pow2(n - 1)
    ensures Ux(n, i) < Pow2(n) && Sx(n, Ux(n, i)) == i
  {
    Pow2Double(n - 1);
    hide Pow2, Ux;
    UxOf(n, AbsInt(i));
  }

  class Divider {
    const xlen: nat
    var busy: bool
    var done: bool
    var quotient: nat
    var remainder: nat
    var R: nat
    var Q: nat
    var D: nat
    var count: nat
    var negQuotient: bool
    var negRemainder: bool
    /** The request in progress, or the last one. */
    ghost var opA: nat
    ghost var opB: nat
    ghost var opSigned: bool
    ghost var quo: nat
    ghost var pending: nat

    ghost predicate Valid()
      reads this
    {
      && xlen >= 1 && opA < Pow2(xlen) && opB < Pow2(xlen)
      && (busy ==>
        && !done && count < xlen && opB != 0 && (opSigned ==> !Overflows(xlen, opA, opB))
        && D == Absolute(xlen, opSigned, opB)
        && negQuotient == (opSigned && (opA >= Pow2(xlen - 1)) != (opB >= Pow2(xlen - 1)))
        && negRemainder == (opSigned && opA >= Pow2(xlen - 1))
        && DivInv(xlen, Absolute(xlen, opSigned, opA), D, count, R, Q, quo, pending))
    }

    /** Reset. */
    constructor (n: nat)
      requires n >= 1
      ensures xlen == n && Valid() && !busy && !done
    {
      xlen := n;
      busy, done, quotient, remainder := false, false, 0, 0;
      opA, opB := 0, 0;
    }

    /** One clock edge. */
    method Clock(start: bool, isSigned: bool, dividend: nat, divisor: nat)
      requires Valid() && dividend < Pow2(xlen) && divisor < Pow2(xlen)
      modifies this
      ensures Valid()
      ensures old(busy) ==>
                && opA == old(opA) && opB == old(opB) && opSigned == old(opSigned)
                && done == (old(count) == xlen - 1) && busy == !done && (busy ==> count == old(count) + 1)
      ensures !old(busy) && start && !old(done) ==>
                && opA == dividend && opB == divisor && opSigned == isSigned
                && done == Immediate(xlen, isSigned, dividend, divisor) && busy == !done && (busy ==> count == 0)
      ensures !old(busy) && !(start && !old(done)) ==>
                && !busy && !done && quotient == old(quotient) && remainder == old(remainder)
                && opA == old(opA) && opB == old(opB) && opSigned == old(opSigned)
      ensures done ==> && quotient == IssDiv(xlen, opSigned, opA, opB)
                       && remainder == IssRem(xlen, opSigned, opA, opB)
    {
      if start && !busy && !done {
        done := Accept(isSigned, dividend, divisor);
      } else if busy {
        done := Iterate();
      } else {
        done := false;
      }
    }

    /** A fresh request: division by zero and signed overflow complete at once. */
    method Accept(isSigned: bool, dividend: nat, divisor: nat) returns (finished: bool)
      requires Valid() && !busy && !done && dividend < Pow2(xlen) && divisor < Pow2(xlen)
      modifies this
      ensures Valid() && !done
      ensures opA == dividend && opB == divisor && opSigned == isSigned
      ensures finished == Immediate(xlen, isSigned, dividend, divisor) && busy == !finished && (busy ==> count == 0)
      ensures finished ==> && quotient == IssDiv(xlen, opSigned, opA, opB)
                           && remainder == IssRem(xlen, opSigned, opA, opB)
    {
      hide Pow2, DivInv, IssDiv, IssRem, Sx, Absolute;
      SpecialResults(xlen, isSigned, dividend, divisor);
      opA, opB, opSigned := dividend, divisor, isSigned;
      finished := true;
      if divisor == 0 {
        quotient, remainder := Pow2(xlen) - 1, dividend;
      } else if isSigned && dividend == Pow2(xlen - 1) && divisor == Pow2(xlen) - 1 {
        quotient, remainder := dividend, 0;
      } else {
        finished := false;
        R, Q, D := 0, Absolute(xlen, isSigned, dividend), Absolute(xlen, isSigned, divisor);
        negQuotient := isSigned && (dividend >= Pow2(xlen - 1)) != (divisor >= Pow2(xlen - 1));
        negRemainder := isSigned && dividend >= Pow2(xlen - 1);
        count, busy := 0, true;
        DivStart(xlen, Q, D);
        quo, pending := 0, Q;
      }
    }

    /** One restoring step; the bit the shift drops from R is always zero. */
    method Iterate() returns (finished: bool)
      requires Valid() && busy
      modifies this
      ensures Valid() && !done
      ensures opA == old(opA) && opB == old(opB) && opSigned == old(opSigned)
      ensures finished == (old(count) == xlen - 1) && busy == !finished && count == old(count) + 1
      ensures finished ==> && quotient == IssDiv(xlen, opSigned, opA, opB)
                           && remainder == IssRem(xlen, opSigned, opA, opB)
    {
      hide Pow2, DivInv, IssDiv, IssRem, Sx, Absolute, Neg;
      R, Q, quo, pending := Step(xlen, R, Q, D, Absolute(xlen, opSigned, opA), count, quo, pending);
      finished := count == xlen - 1;
      if finished {
        busy := false;
        Signs(xlen, opSigned, opA, opB, R, Q, quo, pending);
        quotient := if negQuotient then Neg(xlen, Q) else Q;
        remainder := if negRemainder then Neg(xlen, R) else R;
      }
      count := count + 1;
    }
  }

  /** One restoring step; the bit the shift drops from R is always zero. */
  method Step(n: nat, R: nat, Q: nat, D: nat, ghost N: nat, ghost k: nat, ghost quo: nat, ghost pending: nat)
    returns (newR: nat, newQ: nat, ghost quo': nat, ghost pending': nat)
    requires k < n && DivInv(n, N, D, k, R, Q, quo, pending)
    ensures DivInv(n, N, D, k + 1, newR, newQ, quo', pending')
  {
    hide Pow2, DivInv;
    RemainderFits(n, N, D, k, R, Q, quo, pending);
    Pow2Mono(k, n - 1);
    quo', pending' := DivStep(n, N, D, k, R, Q, quo, pending);
    var rShifted := ShiftIn(n, R, Q);
    if rShifted >= D {
      newR, newQ := rShifted - D, ShiftOut(n, Q, 1);
    } else {
      newR, newQ := rShifted, ShiftOut(n, Q, 0);
    }
  }

  /** The two mandated results, and the bit pattern that signals overflow. */
  lemma SpecialResults(n: nat, isSigned: bool, A: nat, B: nat)
    requires n >= 1 && A < Pow2(n) && B < Pow2(n)
    ensures Overflows(n, A, B) <==> A == Pow2(n - 1) && B == Pow2(n) - 1
    ensures B == 0 ==> IssDiv(n, isSigned, A, B) == Pow2(n) - 1 && IssRem(n, isSigned, A, B) == A
    ensures isSigned && Overflows(n, A, B) ==> IssDiv(n, isSigned, A, B) == A && IssRem(n, isSigned, A, B) == 0
  {
    Pow2Double(n - 1);
    hide Pow2, Ux;
    UxOf(n, 1);
  }

  /** The requests that need no iteration. */
  predicate Immediate(n: nat, isSigned: bool, A: nat, B: nat)
    requires n >= 1
  {
    B == 0 || (isSigned && Overflows(n, A, B))
  }

  /** The unsigned magnitude the divider iterates on. */
  function Absolute(n: nat, isSigned: bool, x: nat): (r: nat)
    requires n >= 1 && x < Pow2(n)
    ensures r < Pow2(n)
    ensures x != 0 ==> r > 0
  {
    if isSigned && x >= Pow2(n - 1) then Neg(n, x) else x
  }

  /** After the last step, putting the signs back gives the reference results. */
  lemma Signs(n: nat, isSigned: bool, A: nat, B: nat, R: nat, Q: nat, quo: nat, pending: nat)
    requires n >= 1 && A < Pow2(n) && 0 < B < Pow2(n) && (isSigned ==> !Overflows(n, A, B))
    requires DivInv(n, Absolute(n, isSigned, A), Absolute(n, isSigned, B), n, R, Q, quo, pending)
    ensures Q < Pow2(n) && R < Pow2(n) && Neg(n, Q) >= 0 && Neg(n, R) >= 0
    ensures var top := Pow2(n - 1);
            && IssDiv(n, isSigned, A, B) == (if isSigned && (A >= top) != (B >= top) then Neg(n, Q) else Q)
            && IssRem(n, isSigned, A, B) == (if isSigned && A >= top then Neg(n, R) else R)
  {
    hide Pow2, Ux, DivInv;
    var x, y := Absolute(n, isSigned, A), Absolute(n, isSigned, B);
    DivEnd(n, x, y, R, Q, quo, pending);
    DivMod(x, y);
    QuotientSmall(x, y, Q, R);
    if isSigned {
      Magnitudes(n, A);
      Magnitudes(n, B);
      UxOf(n, Q);
      UxOf(n, R);
    }
  }

  /** A caller that holds `start` through the cycle of `done` and then drops it: one edge for
      the special cases, XLEN + 1 otherwise, and a single done pulse, over which and over any
      number of idle edges after it the results stand. */
  method Divide(n: nat, isSigned: bool, dividend: nat, divisor: nat, idle: nat)
    returns (quotient: nat, remainder: nat, cycles: nat, pulses: nat)
    requires n >= 1 && dividend < Pow2(n) && divisor < Pow2(n)
    ensures quotient == IssDiv(n, isSigned, dividend, divisor)
    ensures remainder == IssRem(n, isSigned, dividend, divisor)
    ensures cycles == if Immediate(n, isSigned, dividend, divisor) then 1 else n + 1
    ensures pulses == 1
  {
    hide Pow2, DivInv, IssDiv, IssRem;
    var unit := new Divider(n);
    unit.Clock(true, isSigned, dividend, divisor);
    cycles, pulses := 1, Bit(unit.done);
    while !unit.done
      invariant unit.Valid() && unit.opA == dividend && unit.opB == divisor && unit.opSigned == isSigned
      invariant unit.busy == !unit.done && pulses == Bit(unit.done)
      invariant unit.busy ==> cycles == 1 + unit.count && !Immediate(n, isSigned, dividend, divisor)
      invariant unit.done ==> && unit.quotient == IssDiv(n, isSigned, dividend, divisor)
                              && unit.remainder == IssRem(n, isSigned, dividend, divisor)
      invariant unit.done ==> cycles == if Immediate(n, isSigned, dividend, divisor) then 1 else n + 1
      decreases n - cycles, unit.busy
    {
      unit.Clock(true, isSigned, dividend, divisor);
      cycles, pulses := cycles + 1, pulses + Bit(unit.done);
    }
    for i := 0 to idle + 1
      invariant unit.Valid() && !unit.busy && (i > 0 ==> !unit.done) && (i == 0 ==> unit.done) && pulses == 1
      invariant && unit.quotient == IssDiv(n, isSigned, dividend, divisor)
                && unit.remainder == IssRem(n, isSigned, dividend, divisor)
    {
      unit.Clock(i == 0, isSigned, dividend, divisor);
      pulses := pulses + Bit(unit.done);
    }
    quotient, remainder := unit.quotient, unit.remainder;
  }
}
