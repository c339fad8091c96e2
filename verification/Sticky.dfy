/** The guard/round/sticky argument.  A sticky bit OR-ed into the last place rounds a
    value to odd; that relation survives adding or subtracting an even number, and
    truncating at any even place sees the exact value's own floor and inexactness. */
module Sticky {
  import opened Powers
  import opened Float32
  import opened IssFloat

  /** s is v rounded to odd: exact when even, strictly within one unit when odd. */
  ghost predicate Jam(v: real, s: int) {
    if s % 2 == 0 then v == s as real else (s - 1) as real < v < (s + 1) as real
  }

  /** n shifted right by k, the lost bits OR-ed into the last place. */
  function JamShift(n: nat, k: nat): nat {
    var q := n / Pow2(k);
    if n % Pow2(k) != 0 && q % 2 == 0 then q + 1 else q
  }

  /** q is the floor of x, and the flag says whether anything was cut off. */
  ghost predicate Truncates(x: real, q: int, inexact: bool) {
    x.Floor == q && (inexact <==> x != q as real)
  }

  lemma ShiftJams(n: nat, k: nat)
    ensures Jam(Scale(n as real, 0 - k), JamShift(n, k))
  {
    hide Scale, Pow2;
    ScaleDown(n, k);
  }

  lemma ExactShift(n: nat, k: nat)
    requires n % Pow2(k) == 0
    ensures Scale(n as real, 0 - k) == JamShift(n, k) as real
  {
    hide Scale, Pow2;
    ScaleDown(n, k);
  }

  /** Both effective operations keep the relation when the other operand is even. */
  lemma JamSum(b: int, v: real, s: int)
    requires b % 2 == 0 && Jam(v, s)
    ensures Jam(b as real + v, b + s) && Jam(b as real - v, b - s)
  {
  }

  lemma JamTruncates(v: real, s: int, k: nat)
    requires Jam(v, s) && k > 0
    ensures Truncates(Scale(v, 0 - k), s / Pow2(k), s % Pow2(k) != 0)
  {
    Pow2Double(k - 1);
    hide Scale, Pow2;
    if s % 2 == 0 {
      ScaleDown(s, k);
    } else {
      OddTruncates(v, s, k, Pow2(k), s / Pow2(k), s % Pow2(k));
    }
  }

  /** An odd s lies strictly between multiples of an even p, and so does v. */
  lemma OddTruncates(v: real, s: int, k: nat, p: nat, q: int, r: int)
    requires Jam(v, s) && s % 2 == 1 && p == Pow2(k) && p % 2 == 0
    requires s == p * q + r && 0 <= r < p
    ensures Truncates(Scale(v, 0 - k), q, r != 0)
  {
    hide Scale, Pow2;
    var x := Scale(v, 0 - k);
    OddBetweenMultiples(s, p, q, r);
    ScaleZero(v);
    ScaleScale(v, 0 - k, k);
    ScaleUp(q, k);
    ScaleUp(q + 1, k);
    ScaleMono(q as real, x, k);
    ScaleMono(x, (q + 1) as real, k);
  }

  lemma OddBetweenMultiples(s: int, p: int, q: int, r: int)
    requires s % 2 == 1 && p > 0 && p % 2 == 0 && s == p * q + r && 0 <= r < p
    ensures q * p <= s - 1 && s + 1 <= (q + 1) * p && r != 0
  {
    var h := p / 2;
    EvenProduct(h, q);
    OddRest(s, h * q, r);
    Successor(q, p);
  }

  lemma EvenProduct(h: int, q: int)
    ensures (2 * h) * q == 2 * (h * q)
  {
  }

  lemma OddRest(s: int, m: int, r: int)
    requires s == 2 * m + r && s % 2 == 1
    ensures r % 2 == 1
  {
  }

  lemma Successor(q: int, p: int)
    ensures (q + 1) * p == p * q + p && q * p == p * q
  {
  }

  /** The summary read after a left renormalisation by shl: either nothing was lost in
      alignment, or at most one place was cancelled. */
  lemma RenormTruncates(v: real, s: nat, shl: nat, frame: nat)
    requires frame >= 27 && Jam(v, s)
    requires shl <= 1 || v == s as real
    ensures Truncates(Scale(v, shl - (frame - 25)),
                      (s * Pow2(shl)) / Pow2(frame - 25),
                      (s * Pow2(shl)) % Pow2(frame - 25) != 0)
  {
    var k := frame - 25;
    Pow2Double(k - 1);
    assert Pow2(0) == 1 && Pow2(1) == 2;
    hide Scale, Pow2;
    if v == s as real {
      ScaleUp(s, shl);
      ScaleScale(v, shl, 0 - k);
      ScaleDown(s * Pow2(shl), k);
    } else if shl == 0 {
      JamTruncates(v, s, k);
    } else {
      JamTruncates(v, s, k - 1);
      DoubleDivMod(s, Pow2(k - 1));
    }
  }

  lemma DoubleDivMod(s: nat, p: nat)
    requires p > 0
    ensures (s * 2) / (2 * p) == s / p && ((s * 2) % (2 * p) == 0 <==> s % p == 0)
  {
    var q, r := s / p, s % p;
    assert s == p * q + r;
    assert s * 2 == (2 * p) * q + 2 * r;
    DivModUnique(s * 2, 2 * p, q, 2 * r);
  }

  /** The remainder class a guard bit and the OR of everything below it stand for. */
  function ClassOf(guard: bool, rest: bool): Class {
    if guard then (if rest then Above else Tie) else (if rest then Below else Exact)
  }

  /** Any guard/rest summary of the exact value decides its rounding. */
  lemma RoundFromSummary(sign: bool, v: real, e: int, sig: nat, guard: bool, rest: bool, rm: Rm)
    requires v > 0.0 && HIDDEN <= sig < 2 * HIDDEN
    requires Truncates(Scale(v, 24 - e), 2 * sig + Bit(guard), rest)
    ensures Round(sign, v, rm) == PackRounded(sign, e, sig, ClassOf(guard, rest), rm)
    ensures Exponent(v) == e && Classify(Window(v) - Window(v).Floor as real) == ClassOf(guard, rest)
  {
    hide Scale;
    SummaryExponent(v, e, (2 * sig + Bit(guard)) as real);
    ExponentUnique(v, e, Exponent(v));
    ScaleSucc(v, 23 - e);
    HalfWindow(Scale(v, 24 - e), Scale(v, 23 - e), sig, guard, rest);
  }

  lemma SummaryExponent(v: real, e: int, q: real)
    requires (2 * HIDDEN) as real <= q <= Scale(v, 24 - e) < q + 1.0 <= (4 * HIDDEN) as real
    ensures IsExponent(v, e)
  {
    hide Scale, Pow2;
    HiddenIsPow2();
    ScaleScale(v, -e, 24);
    ScaleUp(1, 24);
    ScaleUp(2, 24);
    ScaleMono(Scale(v, -e), 1.0, 24);
    ScaleMono(Scale(v, -e), 2.0, 24);
  }

  lemma HalfWindow(x: real, w: real, sig: int, guard: bool, rest: bool)
    requires Truncates(x, 2 * sig + Bit(guard), rest) && x == 2.0 * w
    ensures w.Floor == sig && Classify(w - sig as real) == ClassOf(guard, rest)
  {
  }

  /** The same with a carry-out at place 24: the window moves up by one. */
  lemma RoundFromCarry(sign: bool, v: real, e: int, sig: nat, guard: bool, rest: bool, rm: Rm)
    requires v > 0.0 && 2 * HIDDEN <= sig < 4 * HIDDEN
    requires Truncates(Scale(v, 24 - e), 2 * sig + Bit(guard), rest)
    ensures Round(sign, v, rm)
         == PackRounded(sign, e + 1, sig / 2, ClassOf(sig % 2 == 1, guard || rest), rm)
    ensures Exponent(v) == e + 1
    ensures Classify(Window(v) - Window(v).Floor as real) == ClassOf(sig % 2 == 1, guard || rest)
  {
    ScaleSucc(v, 23 - e);
    RoundFromSummary(sign, v, e + 1, sig / 2, sig % 2 == 1, guard || rest, rm);
  }
}
