/** Restoring shift-subtract division: one bit of the dividend moves from the quotient
    register into the remainder per step. */
module Restoring {
  import opened Powers

  /** The quotient register: the unconsumed dividend bits above the quotient bits. */
  ghost predicate Packed(n: nat, k: nat, Q: nat, quo: nat, pending: nat)
    requires k <= n
  {
    pending < Pow2(n - k) && quo < Pow2(k) && Q == pending * Pow2(k) + quo
  }

  /** The dividend bits consumed so far equal quo * D + R; p is the weight of the last one. */
  ghost predicate Consumed(N: nat, D: nat, R: nat, quo: nat, pending: nat, p: nat) {
    N == (quo * D + R) * p + pending
  }

  /** After k of n steps on the n-bit dividend N. */
  ghost predicate DivInv(n: nat, N: nat, D: nat, k: nat, R: nat, Q: nat, quo: nat, pending: nat) {
    && k <= n && N < Pow2(n) && R < D
    && Packed(n, k, Q, quo, pending) && Consumed(N, D, R, quo, pending, Pow2(n - k))
  }

  /** The two registers after one step: shift {R,Q} left by one, subtract D if it fits.
      The top bit of R falls off the shift, as in the circuit. */
  function ShiftIn(n: nat, R: nat, Q: nat): nat
    requires n >= 1
  {
    R % Pow2(n - 1) * 2 + Q / Pow2(n - 1)
  }

  function ShiftOut(n: nat, Q: nat, bit: nat): nat
    requires n >= 1
  {
    Q % Pow2(n - 1) * 2 + bit
  }

  lemma DivInvBounds(n: nat, N: nat, D: nat, k: nat, R: nat, Q: nat, quo: nat, pending: nat)
    requires DivInv(n, N, D, k, R, Q, quo, pending)
    ensures k <= n && R < D
  {
  }

  lemma DivStart(n: nat, N: nat, D: nat)
    requires N < Pow2(n) && D > 0
    ensures DivInv(n, N, D, 0, 0, N, 0, N)
  {
  }

  /** Before the shift, R fits below the bit that is dropped. */
  lemma RemainderFits(n: nat, N: nat, D: nat, k: nat, R: nat, Q: nat, quo: nat, pending: nat)
    requires DivInv(n, N, D, k, R, Q, quo, pending)
    ensures R < Pow2(k)
  {
    hide Pow2;
    Pow2Add(k, n - k);
    NonNegative(quo, D);
    CancelPower(quo * D + R, Pow2(k), Pow2(n - k));
  }

  lemma NonNegative(a: nat, b: nat)
    ensures a * b >= 0
  {
  }

  lemma CancelPower(a: int, b: int, p: nat)
    requires p > 0 && a * p < b * p
    ensures a < b
  {
  }

  /** The quotient register's top bit is the next dividend bit. */
  lemma TopBit(n: nat, k: nat, quo: nat, pending: nat)
    requires k < n && pending < Pow2(n - k) && quo < Pow2(k)
    ensures var Q, b, rest := pending * Pow2(k) + quo, pending / Pow2(n - k - 1), pending % Pow2(n - k - 1);
            b <= 1 && Q / Pow2(n - 1) == b && Q % Pow2(n - 1) == rest * Pow2(k) + quo
  {
    Pow2Double(n - k - 1);
    hide Pow2;
    Pow2Add(n - k - 1, k);
    TopBitAt(Pow2(n - k - 1), Pow2(k), pending, quo);
  }

  lemma TopBitAt(p: nat, t: nat, pending: nat, quo: nat)
    requires p > 0 && quo < t && pending < 2 * p
    ensures var Q, b, rest := pending * t + quo, pending / p, pending % p;
            b <= 1 && p * t > 0 && Q / (p * t) == b && Q % (p * t) == rest * t + quo
  {
    var b, rest := pending / p, pending % p;
    DivSmall(pending, p);
    LowPart(rest, p, quo, t);
    Regroup(p, b, rest, t);
    DivModUnique(pending * t + quo, p * t, b, rest * t + quo);
  }

  lemma Regroup(p: int, b: int, rest: int, t: int)
    ensures (p * b + rest) * t == (p * t) * b + rest * t
  {
  }

  lemma DivSmall(n: nat, p: nat)
    requires p > 0 && n < 2 * p
    ensures n / p <= 1
  {
    if n < p {
      DivModUnique(n, p, 0, n);
    } else {
      DivModUnique(n, p, 1, n - p);
    }
  }

  lemma LowPart(rest: nat, p: nat, quo: nat, t: nat)
    requires rest < p && quo < t
    ensures rest * t + quo < p * t
  {
    assert (rest + 1) * t <= p * t;
  }

  /** The registers: the shift brings in the next dividend bit b and loses nothing. */
  lemma StepPacked(n: nat, k: nat, R: nat, Q: nat, quo: nat, pending: nat, bit: nat) returns (b: nat, rest: nat)
    requires k < n && Packed(n, k, Q, quo, pending) && R < Pow2(n - 1) && bit <= 1
    ensures b <= 1 && Q / Pow2(n - 1) == b && ShiftIn(n, R, Q) == 2 * R + b
    ensures pending == Pow2(n - k - 1) * b + rest
    ensures Packed(n, k + 1, ShiftOut(n, Q, bit), 2 * quo + bit, rest)
  {
    Pow2Double(k);
    hide Pow2;
    var p := Pow2(n - k - 1);
    b, rest := pending / p, pending % p;
    Split(pending, p);
    TopBit(n, k, quo, pending);
    DivModUnique(R, Pow2(n - 1), 0, R);
    Doubled(rest, Pow2(k), quo, bit);
  }

  lemma Split(x: nat, p: nat)
    requires p > 0
    ensures x == p * (x / p) + x % p && x % p < p
  {
  }

  lemma Doubled(rest: nat, t: nat, quo: nat, bit: nat)
    ensures (rest * t + quo) * 2 + bit == rest * (2 * t) + (2 * quo + bit)
  {
  }

  /** The prefix equation: extending the consumed prefix by bit b, with D taken off or not. */
  lemma StepConsumed(N: nat, D: nat, R: nat, quo: nat, b: nat, rest: nat, p: nat, bit: nat, R': nat)
    requires Consumed(N, D, R, quo, p * b + rest, 2 * p)
    requires bit <= 1 && R' == 2 * R + b - (if bit == 1 then D else 0)
    ensures Consumed(N, D, R', 2 * quo + bit, rest, p)
  {
    var x, y := quo * D + R, (2 * quo + bit) * D + R';
    Prefix(quo, D, R, b, bit, R');
    Weighted(x, y, b, p);
  }

  lemma Prefix(quo: nat, D: nat, R: nat, b: nat, bit: nat, R': nat)
    requires bit <= 1 && R' == 2 * R + b - (if bit == 1 then D else 0)
    ensures (2 * quo + bit) * D + R' == 2 * (quo * D + R) + b
  {
    if bit == 1 {
      assert (2 * quo + 1) * D == 2 * (quo * D) + D;
    }
  }

  lemma Weighted(x: int, y: int, b: int, p: int)
    requires y == 2 * x + b
    ensures x * (2 * p) + p * b == y * p
  {
  }

  /** One step keeps the invariant, and drops only a zero bit. */
  lemma DivStep(n: nat, N: nat, D: nat, k: nat, R: nat, Q: nat, quo: nat, pending: nat)
    returns (quo': nat, pending': nat)
    requires k < n && DivInv(n, N, D, k, R, Q, quo, pending)
    requires R < Pow2(n - 1)
    ensures var rs := ShiftIn(n, R, Q);
            var bit := if rs >= D then 1 else 0;
            && rs == 2 * R + Q / Pow2(n - 1)
            && DivInv(n, N, D, k + 1, if rs >= D then rs - D else rs, ShiftOut(n, Q, bit), quo', pending')
  {
    Pow2Double(n - k - 1);
    hide Pow2, ShiftIn, ShiftOut, Packed, Consumed;
    var rs := ShiftIn(n, R, Q);
    var bit, R' := if rs >= D then 1 else 0, if rs >= D then rs - D else rs;
    var b, rest := StepPacked(n, k, R, Q, quo, pending, bit);
    StepConsumed(N, D, R, quo, b, rest, Pow2(n - k - 1), bit, R');
    quo', pending' := 2 * quo + bit, rest;
  }

  /** After n steps Q and R are the quotient and the remainder. */
  lemma DivEnd(n: nat, N: nat, D: nat, R: nat, Q: nat, quo: nat, pending: nat)
    requires DivInv(n, N, D, n, R, Q, quo, pending)
    ensures Q == N / D && R == N % D
  {
    assert Pow2(0) == 1 && pending == 0 && Q == quo;
    DivModUnique(N, D, Q, R);
  }
}
