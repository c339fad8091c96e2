/** The reference simulator's float model: exact magnitudes, normalised and rounded
    once.  Python's Fraction values are Dafny's exact reals. */
module IssFloat {
  import opened Powers
  import opened Float32

  /** Where the discarded fraction lies relative to one half. */
  datatype Class = Exact | Below | Tie | Above

  function Classify(r: real): Class {
    if r == 0.0 then Exact else if r < 0.5 then Below else if r > 0.5 then Above else Tie
  }

  function RoundsUp(cls: Class, sig: nat, sign: bool, rm: Rm): bool {
    if cls.Exact? then false
    else if rm == RTZ then false
    else if rm == RDN then sign
    else if rm == RUP then !sign
    else if rm == RMM then !cls.Below?
    else if cls.Above? then true
    else if cls.Below? then false
    else sig % 2 == 1
  }

  /** Overflow saturates to the largest finite value when rounding away from infinity. */
  predicate Saturates(sign: bool, rm: Rm) {
    rm == RTZ || (rm == RDN && !sign) || (rm == RUP && sign)
  }

  function PackRounded(sign: bool, e0: int, sig0: nat, cls: Class, rm: Rm): Rounded
    requires HIDDEN <= sig0 < 2 * HIDDEN
  {
    var up := RoundsUp(cls, sig0, sign, rm);
    var sig1 := if up then sig0 + 1 else sig0;
    var carry := sig1 == 2 * HIDDEN;
    var sig := if carry then HIDDEN else sig1;
    var e := if carry then e0 + 1 else e0;
    if e > 127 then
      Rounded(if Saturates(sign, rm) then Float(sign, 254, 0x7F_FFFF) else Inf(sign),
              Flags(false, false, true, false, true))
    else if e < -126 then
      Rounded(Zero(sign), Flags(false, false, false, true, true))
    else
      Rounded(Float(sign, e + 127, sig - HIDDEN), NO_FLAGS.(nx := !cls.Exact?))
  }

  /** e is the binary exponent of v: 2^e <= v < 2^(e+1). */
  ghost predicate IsExponent(v: real, e: int) {
    1.0 <= Scale(v, -e) < 2.0
  }

  lemma ExponentUnique(v: real, d: int, e: int)
    requires IsExponent(v, d) && IsExponent(v, e)
    ensures d == e
  {
    ScaleSign(v, -d);
    if d < e {
      ExponentBound(v, d, e);
    } else if e < d {
      ExponentBound(v, e, d);
    }
  }

  /** Below 2^(d+1) is below 2^e for every larger e. */
  lemma {:induction false} ExponentBound(v: real, d: int, e: int)
    requires v > 0.0 && Scale(v, -d) < 2.0 && d < e
    ensures Scale(v, -e) < 1.0
    decreases e - d
  {
    ScaleSucc(v, -d - 1);
    ScaleSign(v, -d - 1);
    if d + 1 < e {
      ExponentBound(v, d + 1, e);
    }
  }

  lemma ExponentExists(v: real)
    requires v > 0.0
    ensures exists e :: IsExponent(v, e)
  {
    var lo := LowerExponent(v);
    var hi := UpperExponent(v);
    var e := FindExponent(v, lo, hi);
  }

  /** v < 2^(v.Floor + 1). */
  lemma UpperExponent(v: real) returns (hi: int)
    requires v > 0.0
    ensures Scale(v, -hi) < 2.0
  {
    hi := v.Floor;
    Pow2Exceeds(hi);
    ScaleUp(2, hi);
    ScaleScale(v, -hi, hi);
    ScaleMono(Scale(v, -hi), 2.0, hi);
  }

  lemma LowerExponent(v: real) returns (lo: int)
    requires v > 0.0
    ensures Scale(v, -lo) >= 1.0
  {
    var n := (1.0 / v).Floor + 1;
    ScaleExceeds(v, n);
    TimesReciprocal(v, n as real);
    lo := -n;
  }

  lemma TimesReciprocal(v: real, m: real)
    requires v > 0.0 && m > 1.0 / v
    ensures m * v >= 1.0
  {
    assert v * (1.0 / v) == 1.0;
  }

  lemma {:induction false} ScaleExceeds(v: real, n: nat)
    requires v > 0.0
    ensures Scale(v, n) >= n as real * v
  {
    ScaleSign(v, n);
    if n != 0 {
      ScaleExceeds(v, n - 1);
      ScaleSign(v, n - 1);
      assert n as real * v == (n - 1) as real * v + v;
      ScaleAtLeast(v, n - 1);
    }
  }

  lemma {:induction false} ScaleAtLeast(v: real, n: nat)
    requires v > 0.0
    ensures Scale(v, n) >= v
  {
    if n != 0 {
      ScaleAtLeast(v, n - 1);
    }
  }

  lemma {:induction false} FindExponent(v: real, lo: int, hi: int) returns (e: int)
    requires v > 0.0 && Scale(v, -hi) < 2.0 && Scale(v, -lo) >= 1.0
    ensures IsExponent(v, e)
    decreases hi - lo
  {
    if Scale(v, -hi) >= 1.0 {
      e := hi;
    } else {
      if hi < lo {
        ExponentBound(v, hi, lo);
      }
      ScaleSucc(v, -hi);
      e := FindExponent(v, lo, hi - 1);
    }
  }

  ghost function Exponent(v: real): (e: int)
    requires v > 0.0
    ensures IsExponent(v, e)
  {
    ExponentExists(v);
    var e :| IsExponent(v, e);
    e
  }

  /** The exact value's 24-bit significand window, with the discarded fraction. */
  ghost function Window(v: real): real
    requires v > 0.0
  {
    Scale(v, 23 - Exponent(v))
  }

  lemma WindowBounds(v: real)
    requires v > 0.0
    ensures HIDDEN <= Window(v).Floor < 2 * HIDDEN
  {
    hide Scale, Pow2;
    var x := Scale(v, -Exponent(v));
    ScaleScale(v, -Exponent(v), 23);
    ScaleUp(1, 23);
    ScaleUp(2, 23);
    ScaleMono(x, 1.0, 23);
    ScaleMono(x, 2.0, 23);
    HiddenIsPow2();
  }

  /** One correct rounding of the exact magnitude v > 0. */
  ghost function Round(sign: bool, v: real, rm: Rm): Rounded
    requires v > 0.0
  {
    WindowBounds(v);
    var w := Window(v);
    PackRounded(sign, Exponent(v), w.Floor, Classify(w - w.Floor as real), rm)
  }

  function Signed(sign: bool, m: real): real { if sign then -m else m }

  function Abs(t: real): real { if t < 0.0 then -t else t }

  /** An exact signed total, rounded once; exact cancellation is +0, or -0 in RDN. */
  ghost function RoundTotal(t: real, rm: Rm): Rounded {
    if t == 0.0 then Rounded(Zero(rm == RDN), NO_FLAGS) else Round(t < 0.0, Abs(t), rm)
  }

  /** v needs no more than 24 significand bits. */
  ghost predicate Representable(v: real)
    requires v > 0.0
  {
    Window(v) == Window(v).Floor as real
  }

  /** t is not zero, below the smallest normal magnitude, and needs no rounding. */
  ghost predicate ExactUnderflow(t: real) {
    t != 0.0 && Abs(t) < Scale(1.0, -126) && Representable(Abs(t))
  }

  /** Powers of two are ordered against v by its exponent. */
  lemma ExponentOrder(v: real, k: int)
    requires v > 0.0
    ensures Scale(1.0, k) <= v <==> k <= Exponent(v)
  {
    hide Scale;
    var e := Exponent(v);
    ScaleZero(1.0);
    ScaleScale(1.0, k, -k);
    ScaleMono(v, Scale(1.0, k), -k);
    if e < k {
      ExponentBound(v, e, k);
    } else {
      AboveLower(v, k, e);
    }
  }

  lemma {:induction false} AboveLower(v: real, k: int, e: int)
    requires v > 0.0 && Scale(v, -e) >= 1.0 && k <= e
    ensures Scale(v, -k) >= 1.0
    decreases e - k
  {
    if k < e {
      ScaleSucc(v, -e);
      AboveLower(v, k, e - 1);
    }
  }

  /** The condition read off an exponent and a remainder class. */
  lemma ExactUnderflowAt(v: real)
    requires v > 0.0
    ensures ExactUnderflow(v) <==> Classify(Window(v) - Window(v).Floor as real).Exact? && Exponent(v) < -126
  {
    hide Scale;
    ExponentOrder(v, -126);
  }

  lemma ExactUnderflowSigned(sign: bool, v: real)
    ensures ExactUnderflow(Signed(sign, v)) == ExactUnderflow(v) && !ExactUnderflow(0.0)
  {
    assert Abs(Signed(sign, v)) == Abs(v);
  }

  /** On a value that needs no rounding, the reference underflows exactly below 2^-126; it
      then raises NX all the same. */
  lemma UnderflowFlags(sign: bool, v: real, rm: Rm)
    requires v > 0.0 && Representable(v)
    ensures Round(sign, v, rm).flags.uf <==> v < Scale(1.0, -126)
    ensures Round(sign, v, rm).flags.uf ==>
              Round(sign, v, rm) == Rounded(Zero(sign), Flags(false, false, false, true, true))
  {
    hide Scale;
    ExponentOrder(v, -126);
    WindowBounds(v);
  }

  /** fadd.s and fsub.s. */
  ghost function Add(a: Float, b: Float, rm: Rm, isSub: bool): Rounded {
    var effB := b.sign != isSub;
    if a.IsNan() || b.IsNan() then
      Rounded(CANONICAL_NAN, if a.IsSnan() || b.IsSnan() then INVALID else NO_FLAGS)
    else if a.IsInf() && b.IsInf() && a.sign != effB then Rounded(CANONICAL_NAN, INVALID)
    else if a.IsInf() then Rounded(Inf(a.sign), NO_FLAGS)
    else if b.IsInf() then Rounded(Inf(effB), NO_FLAGS)
    else if a.IsZero() && b.IsZero() then
      Rounded(Zero(if a.sign == effB then a.sign else rm == RDN), NO_FLAGS)
    else if a.IsZero() then Rounded(b.(sign := effB), NO_FLAGS)
    else if b.IsZero() then Rounded(a, NO_FLAGS)
    else RoundTotal(Signed(a.sign, a.Magnitude()) + Signed(effB, b.Magnitude()), rm)
  }

  /** The exact product of two normal magnitudes, as a scaled integer. */
  ghost function Product(a: Float, b: Float): real {
    Scale((a.Mant() * b.Mant()) as real, a.Unbiased() + b.Unbiased() - 46)
  }

  lemma ProductIsExact(a: Float, b: Float)
    ensures Product(a, b) == a.Magnitude() * b.Magnitude()
  {
    hide Scale;
    ScaledProduct(a.Mant(), b.Mant(), a.Unbiased() - 23, b.Unbiased() - 23);
  }

  lemma ScaledProduct(m: nat, n: nat, j: int, k: int)
    ensures Scale((m * n) as real, j + k) == Scale(m as real, j) * Scale(n as real, k)
  {
    hide Scale;
    ScaleProduct(m as real, n as real, (m * n) as real, j, k);
  }

  /** fmul.s. */
  ghost function Mul(a: Float, b: Float, rm: Rm): Rounded {
    var sign := a.sign != b.sign;
    if a.IsNan() || b.IsNan() then
      Rounded(CANONICAL_NAN, if a.IsSnan() || b.IsSnan() then INVALID else NO_FLAGS)
    else if (a.IsInf() && b.IsZero()) || (a.IsZero() && b.IsInf()) then Rounded(CANONICAL_NAN, INVALID)
    else if a.IsInf() || b.IsInf() then Rounded(Inf(sign), NO_FLAGS)
    else if a.IsZero() || b.IsZero() then Rounded(Zero(sign), NO_FLAGS)
    else RoundTotal(Signed(sign, Product(a, b)), rm)
  }

  /** +-(a*b) +- c, exactly. */
  ghost function FusedTotal(a: Float, b: Float, c: Float, negProd: bool, negAddend: bool): real {
    var product := Signed((a.sign != b.sign) != negProd, Product(a, b));
    if c.IsZero() then product else product + Signed(c.sign != negAddend, c.Magnitude())
  }

  /** fmadd.s, fmsub.s, fnmsub.s and fnmadd.s: the product is never rounded. */
  ghost function MulAdd(a: Float, b: Float, c: Float, rm: Rm, negProd: bool, negAddend: bool): Rounded {
    var prodSign := (a.sign != b.sign) != negProd;
    var effC := c.sign != negAddend;
    var prodInf := a.IsInf() || b.IsInf();
    if a.IsNan() || b.IsNan() || c.IsNan() then
      Rounded(CANONICAL_NAN, if a.IsSnan() || b.IsSnan() || c.IsSnan() then INVALID else NO_FLAGS)
    else if (a.IsInf() && b.IsZero()) || (a.IsZero() && b.IsInf()) then Rounded(CANONICAL_NAN, INVALID)
    else if prodInf && c.IsInf() && prodSign != effC then Rounded(CANONICAL_NAN, INVALID)
    else if prodInf then Rounded(Inf(prodSign), NO_FLAGS)
    else if c.IsInf() then Rounded(Inf(effC), NO_FLAGS)
    else if a.IsZero() || b.IsZero() then
      if c.IsZero() then Rounded(Zero(if prodSign == effC then prodSign else rm == RDN), NO_FLAGS)
      else Rounded(c.(sign := effC), NO_FLAGS)
    else RoundTotal(FusedTotal(a, b, c, negProd, negAddend), rm)
  }

  /** The exact quotient of two normal magnitudes. */
  ghost function Quotient(a: Float, b: Float): real {
    Scale(a.Mant() as real / b.Mant() as real, a.Unbiased() - b.Unbiased())
  }

  lemma QuotientIsExact(a: Float, b: Float)
    ensures Quotient(a, b) * b.Magnitude() == a.Magnitude()
  {
    hide Scale;
    DivideThenMultiply(a.Mant(), b.Mant(), a.Unbiased() - b.Unbiased(), b.Unbiased() - 23);
  }

  lemma DivideThenMultiply(m: nat, n: nat, j: int, k: int)
    requires n > 0
    ensures Scale(m as real / n as real, j) * Scale(n as real, k) == Scale(m as real, j + k)
  {
    hide Scale;
    ScaleProduct(m as real / n as real, n as real, m as real, j, k);
  }

  /** fdiv.s. */
  ghost function Div(a: Float, b: Float, rm: Rm): Rounded {
    var sign := a.sign != b.sign;
    if a.IsNan() || b.IsNan() then
      Rounded(CANONICAL_NAN, if a.IsSnan() || b.IsSnan() then INVALID else NO_FLAGS)
    else if a.IsInf() && b.IsInf() then Rounded(CANONICAL_NAN, INVALID)
    else if a.IsZero() && b.IsZero() then Rounded(CANONICAL_NAN, INVALID)
    else if a.IsInf() then Rounded(Inf(sign), NO_FLAGS)
    else if b.IsInf() then Rounded(Zero(sign), NO_FLAGS)
    else if b.IsZero() then Rounded(Inf(sign), DIV_BY_ZERO)
    else if a.IsZero() then Rounded(Zero(sign), NO_FLAGS)
    else RoundTotal(Signed(sign, Quotient(a, b)), rm)
  }

  /** s is the integer square root of n. */
  predicate IsRoot(n: nat, s: nat) { s * s <= n < (s + 1) * (s + 1) }

  function Isqrt(n: nat): (s: nat)
    ensures IsRoot(n, s)
  {
    if n == 0 then 0 else
      var s := Isqrt(n - 1);
      if (s + 1) * (s + 1) <= n then NextSquare(s, n); s + 1 else s
  }

  lemma NextSquare(s: nat, n: nat)
    requires n - 1 < (s + 1) * (s + 1)
    ensures n < (s + 2) * (s + 2)
  {
    assert (s + 2) * (s + 2) == (s + 1) * (s + 1) + 2 * s + 3;
  }

  lemma RootUnique(n: nat, s: nat, t: nat)
    requires IsRoot(n, s) && IsRoot(n, t)
    ensures s == t
  {
    if s < t {
      SquareMono(s + 1, t);
    } else if t < s {
      SquareMono(t + 1, s);
    }
  }

  lemma SquareMono(s: nat, t: nat)
    requires s <= t
    ensures s * s <= t * t
  {
    assert s * s <= s * t;
    assert s * t <= t * t;
  }

  /** Where sqrt(n) lies relative to its floor s and to s + 1/2, decided on integers. */
  function SqrtClass(n: nat, s: nat): Class {
    if s * s == n then Exact
    else
      var mid := (2 * s + 1) * (2 * s + 1);
      if 4 * n < mid then Below else if 4 * n > mid then Above else Tie
  }

  /** 4^e <= v < 4^(e+1): the exponent of sqrt(v). */
  ghost predicate IsSqrtExponent(v: real, e: int) {
    1.0 <= Scale(v, -2 * e) < 4.0
  }

  lemma SqrtExponentUnique(v: real, d: int, e: int)
    requires IsSqrtExponent(v, d) && IsSqrtExponent(v, e)
    ensures d == e
  {
    if d < e {
      SqrtExponentBound(v, d, e);
    } else if e < d {
      SqrtExponentBound(v, e, d);
    }
  }

  lemma SqrtExponentBound(v: real, d: int, e: int)
    requires IsSqrtExponent(v, d) && d < e
    ensures Scale(v, -2 * e) < 1.0
  {
    hide Scale;
    ScaleSign(v, -2 * d);
    ScaleSucc(v, -2 * d - 1);
    ExponentBound(v, 2 * d + 1, 2 * e);
  }

  lemma SqrtExponentExists(v: real)
    requires v > 0.0
    ensures exists e :: IsSqrtExponent(v, e)
  {
    hide Scale;
    var k := Exponent(v);
    ScaleSucc(v, -k);
    var e := if k % 2 == 0 then k / 2 else (k - 1) / 2;
    assert IsSqrtExponent(v, e);
  }

  ghost function SqrtExponent(v: real): (e: int)
    requires v > 0.0
    ensures IsSqrtExponent(v, e)
  {
    SqrtExponentExists(v);
    var e :| IsSqrtExponent(v, e);
    e
  }

  /** v scaled to an even power so that its integer square root has 24 bits. */
  ghost function SqrtWindow(v: real): (n: nat)
    requires v > 0.0
    ensures HIDDEN <= Isqrt(n) < 2 * HIDDEN
  {
    var w := Scale(v, 2 * (23 - SqrtExponent(v)));
    SqrtWindowBounds(v, w);
    RootBounds(w.Floor);
    w.Floor
  }

  lemma SqrtWindowBounds(v: real, w: real)
    requires v > 0.0 && w == Scale(v, 2 * (23 - SqrtExponent(v)))
    ensures HIDDEN * HIDDEN <= w.Floor < (2 * HIDDEN) * (2 * HIDDEN)
  {
    hide Scale, Pow2, Isqrt;
    var e := SqrtExponent(v);
    HiddenIsPow2();
    Pow2Add(23, 23);
    ScaleScale(v, -2 * e, 46);
    ScaleUp(1, 46);
    ScaleUp(4, 46);
    ScaleMono(Scale(v, -2 * e), 1.0, 46);
    ScaleMono(Scale(v, -2 * e), 4.0, 46);
  }

  lemma RootBounds(n: nat)
    requires HIDDEN * HIDDEN <= n < (2 * HIDDEN) * (2 * HIDDEN)
    ensures HIDDEN <= Isqrt(n) < 2 * HIDDEN
  {
    var s := Isqrt(n);
    hide Isqrt;
    if s < HIDDEN {
      SquareMono(s + 1, HIDDEN);
    } else if s >= 2 * HIDDEN {
      SquareMono(2 * HIDDEN, s);
    }
  }

  /** One rounding of the exact square root, decided by an integer square root. */
  ghost function RoundSqrt(v: real, rm: Rm): Rounded
    requires v > 0.0
  {
    var n := SqrtWindow(v);
    PackRounded(false, SqrtExponent(v), Isqrt(n), SqrtClass(n, Isqrt(n)), rm)
  }

  /** fsqrt.s. */
  ghost function Sqrt(a: Float, rm: Rm): Rounded {
    if a.IsNan() then Rounded(CANONICAL_NAN, if a.IsSnan() then INVALID else NO_FLAGS)
    else if a.IsZero() then Rounded(a, NO_FLAGS)
    else if a.sign then Rounded(CANONICAL_NAN, INVALID)
    else if a.IsInf() then Rounded(a, NO_FLAGS)
    else RoundSqrt(Positive(a), rm)
  }

  /** The magnitude of a normal operand, which is positive. */
  ghost function Positive(a: Float): (v: real)
    ensures v == a.Magnitude() > 0.0
  {
    ScaleSign(a.Mant() as real, a.Unbiased() - 23);
    a.Magnitude()
  }

  // ---- The square root means the real root ----

  lemma SquareOrder(x: real, y: real)
    requires x >= 0.0 && y >= 0.0
    ensures x < y <==> x * x < y * y
    ensures x == y <==> x * x == y * y
  {
    assert y * y - x * x == (y - x) * (y + x);
    if y != x {
      SignOfProduct(y - x, y + x);
    }
  }

  lemma SignOfProduct(d: real, s: real)
    requires s > 0.0
    ensures d > 0.0 <==> d * s > 0.0
    ensures d == 0.0 <==> d * s == 0.0
  {
  }

  /** Scaling a root scales its square twice. */
  lemma ScaledSquare(r: real, v: real, k: int)
    requires r * r == v
    ensures Scale(r, k) * Scale(r, k) == Scale(v, 2 * k)
  {
    hide Scale;
    ScaleProduct(r, r, v, k, k);
  }

  /** The floor and the remainder class of a real root, decided on integers. */
  lemma RootFloor(w: real, n: nat, s: nat)
    requires w >= 0.0 && w * w == n as real && IsRoot(n, s)
    ensures w.Floor == s && Classify(w - s as real) == SqrtClass(n, s)
  {
    var a, b, m := s * s, (s + 1) * (s + 1), (2 * s + 1) * (2 * s + 1);
    hide SqrtClass, Classify;
    Doubled(w, n);
    RootSide(w, n, s, a);
    RootSide(w, n, s + 1, b);
    RootSide(2.0 * w, 4 * n, 2 * s + 1, m);
    RootPlace(w, n, s, a, b, m);
  }

  lemma Doubled(w: real, n: nat)
    requires w * w == n as real
    ensures (2.0 * w) * (2.0 * w) == (4 * n) as real
  {
    assert (2.0 * w) * (2.0 * w) == 4.0 * (w * w);
  }

  /** Comparing a root with an integer is comparing the squares. */
  lemma RootSide(w: real, n: nat, t: nat, c: nat)
    requires w >= 0.0 && w * w == n as real && c == t * t
    ensures w < t as real <==> n < c
    ensures w == t as real <==> n == c
  {
    assert t as real * t as real == (t * t) as real;
    SquareOrder(w, t as real);
  }

  /** The same with the squares named. */
  lemma RootPlace(w: real, n: nat, s: nat, a: nat, b: nat, m: nat)
    requires a <= n < b && a == s * s && m == (2 * s + 1) * (2 * s + 1)
    requires (w < s as real <==> n < a) && (w == s as real <==> n == a) && (w < (s + 1) as real <==> n < b)
    requires (2.0 * w < (2 * s + 1) as real <==> 4 * n < m) && (2.0 * w == (2 * s + 1) as real <==> 4 * n == m)
    ensures w.Floor == s && Classify(w - s as real) == SqrtClass(n, s)
  {
  }

  /** For every real root r of v, the integer decision is the one rounding of r. */
  lemma RoundSqrtIsRounded(v: real, r: real, rm: Rm)
    requires v > 0.0 && r > 0.0 && r * r == v
    requires SqrtWindow(v) as real == Scale(v, 2 * (23 - SqrtExponent(v)))
    ensures RoundSqrt(v, rm) == Round(false, r, rm)
  {
    hide Scale, Isqrt, Classify, SqrtClass;
    var e, n := SqrtExponent(v), SqrtWindow(v);
    ScaledSquare(r, v, -e);
    ScaledSquare(r, v, 23 - e);
    ScaleSign(r, -e);
    ScaleSign(r, 23 - e);
    var x := Scale(r, -e);
    SquareOrder(x, 1.0);
    SquareOrder(x, 2.0);
    assert IsExponent(r, e);
    ExponentUnique(r, e, Exponent(r));
    RootFloor(Scale(r, 23 - e), n, Isqrt(n));
    WindowBounds(r);
  }
}
