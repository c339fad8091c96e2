/** What the reference rounding guarantees: its loops find the unique normal form, it
    fixes every float, and it is monotone in every mode, saturation and flush included. */
module IssRounding {
  import opened Powers
  import opened Float32
  import opened IssFloat
  import opened Sticky

  function BitLength(n: nat): nat {
    if n == 0 then 0 else 1 + BitLength(n / 2)
  }

  /** The normalising loops, from their bit-length estimate. */
  method NormalizeFraction(num: nat, den: nat) returns (e: int, sig: int, cls: Class)
    requires num > 0 && den > 0
    ensures num as real / den as real > 0.0
    ensures var v := num as real / den as real;
            e == Exponent(v) && sig == Window(v).Floor && cls == Classify(Window(v) - Window(v).Floor as real)
  {
    hide Scale, BitLength;
    var magnitude := num as real / den as real;
    e := BitLength(num) - BitLength(den) - 1;
    ExponentOrder(magnitude, e + 1);
    while magnitude >= Scale(1.0, e + 1)
      invariant magnitude >= Scale(1.0, e + 1) <==> e + 1 <= Exponent(magnitude)
      decreases Exponent(magnitude) - e
    {
      e := e + 1;
      ExponentOrder(magnitude, e + 1);
    }
    ExponentOrder(magnitude, e);
    while magnitude < Scale(1.0, e)
      invariant magnitude < Scale(1.0, e) <==> e > Exponent(magnitude)
      invariant e >= Exponent(magnitude)
      decreases e - Exponent(magnitude)
    {
      e := e - 1;
      ExponentOrder(magnitude, e);
    }
    var sigExact := Scale(magnitude, 23 - e);
    sig := sigExact.Floor;
    cls := Classify(sigExact - sig as real);
  }

  /** Signed position of a float in the total order of encodings (both zeros at 0). */
  function Rank(f: Float): int {
    var magnitude := f.exp * HIDDEN + f.frac;
    if f.sign then -magnitude else magnitude
  }

  /** The window rounded to an integer. */
  function RoundInt(w: real, sign: bool, rm: Rm): int
    requires w >= 0.0
  {
    w.Floor + if RoundsUp(Classify(w - w.Floor as real), w.Floor, sign, rm) then 1 else 0
  }

  /** The window rounding is the nearest integer in RNE and RMM, and the neighbour on the
      prescribed side in the directed modes. */
  lemma RoundIntIsCorrect(w: real, sign: bool, rm: Rm)
    requires w >= 0.0
    ensures var n := RoundInt(w, sign, rm) as real;
            && w - 1.0 < n < w + 1.0 && (w == w.Floor as real ==> n == w)
            && (rm == RTZ ==> n <= w)
            && (rm == RDN ==> (if sign then n >= w else n <= w))
            && (rm == RUP ==> (if sign then n <= w else n >= w))
            && (rm == RMM ==> w - 0.5 < n <= w + 0.5)
            && (rm == 0 ==> w - 0.5 <= n <= w + 0.5 &&
                            ((n == w - 0.5 || n == w + 0.5) ==> RoundInt(w, sign, rm) % 2 == 0))
  {
  }

  lemma RoundIntMonotone(w: real, w': real, sign: bool, rm: Rm)
    requires 0.0 <= w <= w'
    ensures RoundInt(w, sign, rm) <= RoundInt(w', sign, rm)
  {
  }

  /** Exponent and rounded window as one number, continuous across binades. */
  ghost function Position(v: real, sign: bool, rm: Rm): int
    requires v > 0.0
  {
    WindowBounds(v);
    (Exponent(v) + 126) * HIDDEN + RoundInt(Window(v), sign, rm)
  }

  /** Overflow and flush to zero as a clamp on the position. */
  function Clamp(g: int, sign: bool, rm: Rm): int {
    if g >= 255 * HIDDEN then (if Saturates(sign, rm) then 254 * HIDDEN + 0x7F_FFFF else 255 * HIDDEN)
    else if g < HIDDEN then 0
    else g
  }

  lemma PackedRank(sign: bool, e: int, sig: nat, cls: Class, rm: Rm)
    requires HIDDEN <= sig < 2 * HIDDEN
    ensures var g := (e + 126) * HIDDEN + sig + if RoundsUp(cls, sig, sign, rm) then 1 else 0;
            Rank(PackRounded(sign, e, sig, cls, rm).value) == if sign then -Clamp(g, sign, rm) else Clamp(g, sign, rm)
  {
  }

  lemma RoundRank(sign: bool, v: real, rm: Rm)
    requires v > 0.0
    ensures var c := Clamp(Position(v, sign, rm), sign, rm);
            Rank(Round(sign, v, rm).value) == if sign then -c else c
  {
    hide Scale;
    WindowBounds(v);
    var w := Window(v);
    PackedRank(sign, Exponent(v), w.Floor, Classify(w - w.Floor as real), rm);
  }

  lemma PositionMonotone(v: real, v': real, sign: bool, rm: Rm)
    requires 0.0 < v <= v'
    ensures Position(v, sign, rm) <= Position(v', sign, rm)
  {
    hide Scale;
    var e, e' := Exponent(v), Exponent(v');
    WindowBounds(v);
    WindowBounds(v');
    ExponentMonotone(v, v');
    if e == e' {
      ScaleMono(v, v', 23 - e);
      RoundIntMonotone(Window(v), Window(v'), sign, rm);
    }
  }

  lemma ExponentMonotone(v: real, v': real)
    requires 0.0 < v <= v'
    ensures Exponent(v) <= Exponent(v')
  {
    hide Scale;
    ExponentOrder(v, Exponent(v));
    ExponentOrder(v', Exponent(v));
  }

  /** Rounding never reverses an order, in any mode. */
  lemma RoundMonotone(x: real, y: real, rm: Rm)
    requires x <= y
    ensures Rank(RoundTotal(x, rm).value) <= Rank(RoundTotal(y, rm).value)
  {
    hide Scale, Round, Position;
    if x != 0.0 {
      RoundRank(x < 0.0, Abs(x), rm);
    }
    if y != 0.0 {
      RoundRank(y < 0.0, Abs(y), rm);
    }
    if x < 0.0 && y < 0.0 {
      PositionMonotone(Abs(y), Abs(x), true, rm);
    } else if x > 0.0 {
      PositionMonotone(x, y, false, rm);
    }
  }

  /** Every normal float rounds to itself, exactly. */
  lemma RoundFixesFloats(f: Float, rm: Rm)
    requires f.IsNormal()
    ensures RoundTotal(Signed(f.sign, f.Magnitude()), rm) == Rounded(f, NO_FLAGS)
  {
    hide Scale, Pow2, Round;
    var v, e, m := f.Magnitude(), f.Unbiased(), f.Mant();
    ScaleSign(m as real, e - 23);
    ScaleScale(m as real, e - 23, 24 - e);
    DoubledMant(m);
    RoundFromSummary(f.sign, v, e, m, false, false, rm);
  }

  lemma DoubledMant(m: nat)
    ensures Scale(m as real, 1) == (2 * m) as real
  {
    assert Scale(m as real, 0) == m as real;
  }

  /** So no float lies strictly between an exact value and its rounding. */
  lemma NoFloatSkipped(f: Float, x: real, rm: Rm)
    requires f.IsNormal()
    ensures Signed(f.sign, f.Magnitude()) <= x ==> Rank(f) <= Rank(RoundTotal(x, rm).value)
    ensures x <= Signed(f.sign, f.Magnitude()) ==> Rank(RoundTotal(x, rm).value) <= Rank(f)
  {
    hide Scale, RoundTotal, Rank;
    var y := Signed(f.sign, f.Magnitude());
    RoundFixesFloats(f, rm);
    if y <= x {
      RoundMonotone(y, x, rm);
    }
    if x <= y {
      RoundMonotone(x, y, rm);
    }
  }
}
