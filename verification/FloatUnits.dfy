/** The combinational float units: adder, multiplier and fused multiply-add. */
module FloatUnits {
  import opened Powers
  import opened Float32
  import opened IssFloat
  import opened Sticky
  import opened FpRound
  import opened AlignAdd

  /** A significand of `width` bits moved to the top of the frame. */
  lemma PlaceInFrame(frame: nat, width: nat, n: nat, e: int)
    requires frame >= 27 && 1 <= width <= frame - 3 && Pow2(width - 1) <= n < Pow2(width)
    ensures Framed(frame, n * Pow2(frame - width))
    ensures Scale((n * Pow2(frame - width)) as real, e - (frame - 1)) == Scale(n as real, e - (width - 1))
  {
    hide Scale, Pow2;
    var d := frame - width;
    FrameBounds(frame, width, n);
    EightDivides(n, d);
    ScaleUp(n, d);
    ScaleScale(n as real, d, e - (frame - 1));
  }

  lemma FrameBounds(frame: nat, width: nat, n: nat)
    requires 1 <= width <= frame && Pow2(width - 1) <= n < Pow2(width)
    ensures Pow2(frame - 1) <= n * Pow2(frame - width) < Pow2(frame)
  {
    var d := frame - width;
    Pow2Add(width, d);
    Pow2Add(width - 1, d);
    ShiftedBounds(n, Pow2(width - 1), Pow2(width), Pow2(d));
  }

  lemma EightDivides(n: nat, d: nat)
    requires d >= 3
    ensures n * Pow2(d) % 8 == 0
  {
    assert Pow2(3) == 8;
    hide Pow2;
    Pow2Add(3, d - 3);
    EightTimes(n, Pow2(d - 3));
  }

  lemma EightTimes(n: nat, p: nat)
    ensures n * (8 * p) % 8 == 0
  {
    assert n * (8 * p) == 8 * (n * p);
  }

  lemma ShiftedBounds(n: nat, lo: nat, hi: nat, p: nat)
    requires lo <= n < hi && p > 0
    ensures lo * p <= n * p < hi * p
  {
  }

  /** n has exactly `width` bits. */
  ghost predicate HasWidth(n: nat, width: nat) {
    width >= 1 && Pow2(width - 1) <= n < Pow2(width)
  }

  method SignificandOf(c: Float) returns (m: nat)
    ensures HasWidth(m, 24) && c.Magnitude() == Scale(m as real, c.Unbiased() - 23)
  {
    HiddenIsPow2();
    m := HIDDEN + c.frac;
  }

  lemma CompareInFrame(m: nat, p: nat, j: nat, k: nat)
    ensures m * Pow2(j) > p <==> m * Pow2(j + k) > p * Pow2(k)
  {
    hide Pow2;
    Pow2Add(j, k);
    var x, y := Pow2(j), Pow2(k);
    assert m * (x * y) == (m * x) * y;
    ScaledOrder(m * x, p, y);
  }

  lemma ScaledOrder(a: nat, b: nat, k: nat)
    requires k > 0
    ensures a > b <==> a * k > b * k
  {
  }

  /** Two significands at the top of one frame, and whether the second is larger. */
  method FrameOperands(frame: nat, ghost e: int, m: nat, w: nat, ghost e': int, m': nat, w': nat)
    returns (n: nat, n': nat, larger: bool)
    requires w' <= w <= frame - 3 && 27 <= frame && HasWidth(m, w) && HasWidth(m', w')
    ensures Framed(frame, n) && Framed(frame, n')
    ensures Scale(n as real, e - (frame - 1)) == Scale(m as real, e - (w - 1))
    ensures Scale(n' as real, e' - (frame - 1)) == Scale(m' as real, e' - (w' - 1))
    ensures larger <==> n' > n
  {
    hide Scale, Pow2;
    PlaceInFrame(frame, w, m, e);
    PlaceInFrame(frame, w', m', e');
    CompareInFrame(m', m, w - w', frame - w);
    n, n' := m * Pow2(frame - w), m' * Pow2(frame - w');
    larger := m' * Pow2(w - w') > m;
  }

  /** The exact sum of two signed significands of w and w' bits, anchored in one frame by
      whichever leads: the adder's swap and the fused unit's c_is_big. */
  method AnchorAndAdd(frame: nat, maxShl: nat, sign: bool, e: Int10, m: nat, w: nat,
                      sign': bool, e': Int10, m': nat, w': nat, rm: Rm)
    returns (value: Float, flags: Flags)
    requires w' <= w <= frame - 3 && 27 <= frame <= 112 && frame - 1 <= maxShl
    requires -300 <= e <= 300 && -300 <= e' <= 300
    requires HasWidth(m, w) && HasWidth(m', w')
    ensures var t := Signed(sign, Scale(m as real, e - (w - 1))) + Signed(sign', Scale(m' as real, e' - (w' - 1)));
            Agrees(value, flags, RoundTotal(t, rm), ExactUnderflow(t))
  {
    hide Scale, Pow2, Framed, HasWidth, RoundTotal, ExactUnderflow;
    var n, n', larger := FrameOperands(frame, e, m, w, e', m', w');
    var swap := if e == e' then larger else e' > e;
    if !swap {
      value, flags := AlignAddRound(frame, maxShl, sign, e, n, sign', e', n', rm);
    } else {
      value, flags := AlignAddRound(frame, maxShl, sign', e', n', sign, e, n, rm);
    }
  }

  /** Both operands normal: the larger magnitude anchors the 27-bit frame. */
  method AddNormals(a: Float, b: Float, effB: bool, rm: Rm) returns (value: Float, flags: Flags)
    requires a.IsNormal() && b.IsNormal()
    ensures var t := Signed(a.sign, a.Magnitude()) + Signed(effB, b.Magnitude());
            Agrees(value, flags, RoundTotal(t, rm), ExactUnderflow(t))
  {
    hide Scale, Pow2, HasWidth, RoundTotal, ExactUnderflow;
    var mantA := SignificandOf(a);
    var mantB := SignificandOf(b);
    value, flags := AnchorAndAdd(27, 27, a.sign, a.Unbiased(), mantA, 24, effB, b.Unbiased(), mantB, 24, rm);
  }

  /** The operands whose exact result underflows without losing a bit, per operation. */
  ghost predicate AddUnderflow(a: Float, b: Float, isSub: bool) {
    && a.IsNormal() && b.IsNormal()
    && ExactUnderflow(Signed(a.sign, a.Magnitude()) + Signed(b.sign != isSub, b.Magnitude()))
  }

  ghost predicate MulUnderflow(a: Float, b: Float) {
    a.IsNormal() && b.IsNormal() && ExactUnderflow(Signed(a.sign != b.sign, Product(a, b)))
  }

  ghost predicate FusedUnderflow(a: Float, b: Float, c: Float, negProd: bool, negAddend: bool) {
    && a.IsNormal() && b.IsNormal() && (c.IsNormal() || c.IsZero())
    && ExactUnderflow(FusedTotal(a, b, c, negProd, negAddend))
  }

  /** fadd.s and fsub.s, special cases included. */
  method AddSub(a: Float, b: Float, rm: Rm, isSub: bool) returns (value: Float, flags: Flags)
    ensures Agrees(value, flags, Add(a, b, rm, isSub), AddUnderflow(a, b, isSub))
    ensures flags == Add(a, b, rm, isSub).flags <==> !AddUnderflow(a, b, isSub)
  {
    hide RoundTotal, ExactUnderflow, Scale;
    var effB := b.sign != isSub;
    flags := NO_FLAGS;
    if a.IsNan() || b.IsNan() {
      flags := flags.(nv := a.IsSnan() || b.IsSnan());
      value := CANONICAL_NAN;
    } else if a.IsInf() && b.IsInf() && a.sign != effB {
      flags := flags.(nv := true);
      value := CANONICAL_NAN;
    } else if a.IsInf() {
      value := Float(a.sign, 0xFF, 0);
    } else if b.IsInf() {
      value := Float(effB, 0xFF, 0);
    } else if a.IsZero() && b.IsZero() {
      value := Float(if a.sign == effB then a.sign else rm == RDN, 0, 0);
    } else if a.IsZero() {
      value := Float(effB, b.exp, b.frac);
    } else if b.IsZero() {
      value := a;
    } else {
      value, flags := AddNormals(a, b, effB, rm);
    }
  }

  /** A product of two significands leads at bit 46 or 47. */
  lemma ProductBounds(ma: nat, mb: nat)
    requires HIDDEN <= ma < 2 * HIDDEN && HIDDEN <= mb < 2 * HIDDEN
    ensures Pow2(46) <= ma * mb < Pow2(48) && Pow2(47) == 2 * Pow2(46)
  {
    Pow2Double(46);
    hide Pow2;
    HiddenIsPow2();
    Pow2Add(23, 23);
    Pow2Add(24, 24);
    ProductMono(HIDDEN, HIDDEN, ma, mb);
    ProductMono(ma, mb, 2 * HIDDEN - 1, 2 * HIDDEN - 1);
  }

  lemma ProductMono(a: nat, b: nat, c: nat, d: nat)
    requires a <= c && b <= d
    ensures a * b <= c * d
  {
    assert a * b <= c * b;
    assert c * b <= c * d;
  }

  /** An exact integer in a frame rounds to the rounding of its value. */
  lemma ExactTruncates(frame: nat, s: nat, e: int)
    requires frame >= 27 && s > 0
    ensures var t := Scale(s as real, e - (frame - 1));
            && t > 0.0
            && Truncates(Scale(t, 24 - e), s / Pow2(frame - 25), s % Pow2(frame - 25) != 0)
  {
    hide Scale, Pow2;
    ScaleSign(s as real, e - (frame - 1));
    ScaleScale(s as real, e - (frame - 1), 24 - e);
    ScaleDown(s, frame - 25);
  }

  /** Round an exact integer in a frame. */
  method RoundExact(frame: nat, sign: bool, e: Int10, s: nat, rm: Rm) returns (value: Float, flags: Flags)
    requires frame >= 27 && Pow2(frame - 1) <= s < Pow2(frame) && e <= 509
    ensures var t := Signed(sign, Scale(s as real, e - (frame - 1)));
            Agrees(value, flags, RoundTotal(t, rm), ExactUnderflow(t))
  {
    hide Scale, Pow2, Truncates;
    ExactTruncates(frame, s, e);
    FrameHalves(frame);
    value, flags := RoundFields(frame, sign, e, s, rm, Scale(s as real, e - (frame - 1)));
  }

  /** fmul.s: the leading place of the product picks the window. */
  method MulNormals(a: Float, b: Float, rm: Rm) returns (value: Float, flags: Flags)
    requires a.IsNormal() && b.IsNormal()
    ensures var t := Signed(a.sign != b.sign, Product(a, b));
            Agrees(value, flags, RoundTotal(t, rm), ExactUnderflow(t))
  {
    hide Scale, Pow2, RoundTotal, ExactUnderflow;
    var product := a.Mant() * b.Mant();
    var expSum: Int10 := a.Unbiased() + b.Unbiased();
    ProductBounds(a.Mant(), b.Mant());
    if product >= Pow2(47) {
      value, flags := RoundExact(48, a.sign != b.sign, expSum + 1, product, rm);
    } else {
      value, flags := RoundExact(47, a.sign != b.sign, expSum, product, rm);
    }
  }

  method Multiply(a: Float, b: Float, rm: Rm) returns (value: Float, flags: Flags)
    ensures Agrees(value, flags, Mul(a, b, rm), MulUnderflow(a, b))
    ensures flags == Mul(a, b, rm).flags <==> !MulUnderflow(a, b)
  {
    hide Product, RoundTotal, ExactUnderflow;
    var sign := a.sign != b.sign;
    flags := NO_FLAGS;
    if a.IsNan() || b.IsNan() {
      flags := flags.(nv := a.IsSnan() || b.IsSnan());
      value := CANONICAL_NAN;
    } else if (a.IsInf() && b.IsZero()) || (a.IsZero() && b.IsInf()) {
      flags := flags.(nv := true);
      value := CANONICAL_NAN;
    } else if a.IsInf() || b.IsInf() {
      value := Float(sign, 0xFF, 0);
    } else if a.IsZero() || b.IsZero() {
      value := Float(sign, 0, 0);
    } else {
      value, flags := MulNormals(a, b, rm);
    }
  }

  /** The product with its leading one at bit 47, and that bit's exponent. */
  method NormaliseProduct(a: Float, b: Float) returns (prodNorm: nat, leadExp: Int10)
    requires a.IsNormal() && b.IsNormal()
    ensures HasWidth(prodNorm, 48) && -252 <= leadExp <= 255
    ensures Product(a, b) == Scale(prodNorm as real, leadExp - 47)
  {
    Pow2Double(47);
    assert Pow2(1) == 2;
    hide Scale, Pow2;
    var product := a.Mant() * b.Mant();
    ProductBounds(a.Mant(), b.Mant());
    if product >= Pow2(47) {
      prodNorm := product;
      leadExp := a.Unbiased() + b.Unbiased() + 1;
    } else {
      prodNorm := product * 2;
      leadExp := a.Unbiased() + b.Unbiased();
      ScaleUp(product, 1);
      ScaleScale(product as real, 1, leadExp - 47);
    }
  }

  /** All three operands normal. */
  method FuseNormals(a: Float, b: Float, c: Float, prodSign: bool, effC: bool, rm: Rm)
    returns (value: Float, flags: Flags)
    requires a.IsNormal() && b.IsNormal() && c.IsNormal()
    ensures var t := Signed(prodSign, Product(a, b)) + Signed(effC, c.Magnitude());
            Agrees(value, flags, RoundTotal(t, rm), ExactUnderflow(t))
  {
    hide Scale, Pow2, HasWidth, RoundTotal, ExactUnderflow;
    var prodNorm, leadExp := NormaliseProduct(a, b);
    var mantC := SignificandOf(c);
    value, flags := AnchorAndAdd(112, 111, prodSign, leadExp, prodNorm, 48, effC, c.Unbiased(), mantC, 24, rm);
  }

  /** A zero addend: the exact product, rounded once. */
  method RoundProduct(a: Float, b: Float, prodSign: bool, rm: Rm) returns (value: Float, flags: Flags)
    requires a.IsNormal() && b.IsNormal()
    ensures var t := Signed(prodSign, Product(a, b));
            Agrees(value, flags, RoundTotal(t, rm), ExactUnderflow(t))
  {
    hide Scale, Pow2, RoundTotal, ExactUnderflow;
    var prodNorm, leadExp := NormaliseProduct(a, b);
    value, flags := RoundExact(48, prodSign, leadExp, prodNorm, rm);
  }

  /** fmadd.s, fmsub.s, fnmsub.s and fnmadd.s. */
  method FusedMulAdd(a: Float, b: Float, c: Float, rm: Rm, negProd: bool, negAddend: bool)
    returns (value: Float, flags: Flags)
    ensures Agrees(value, flags, MulAdd(a, b, c, rm, negProd, negAddend), FusedUnderflow(a, b, c, negProd, negAddend))
    ensures flags == MulAdd(a, b, c, rm, negProd, negAddend).flags <==> !FusedUnderflow(a, b, c, negProd, negAddend)
  {
    hide Product, RoundTotal, ExactUnderflow, Scale;
    flags := NO_FLAGS;
    if a.IsNan() || b.IsNan() || c.IsNan() {
      flags := flags.(nv := a.IsSnan() || b.IsSnan() || c.IsSnan());
      value := CANONICAL_NAN;
    } else if (a.IsInf() && b.IsZero()) || (a.IsZero() && b.IsInf()) {
      flags := flags.(nv := true);
      value := CANONICAL_NAN;
    } else {
      var prodSign := (a.sign != b.sign) != negProd;
      var prodInf := a.IsInf() || b.IsInf();
      var effC := c.sign != negAddend;
      if prodInf && c.IsInf() && prodSign != effC {
        flags := flags.(nv := true);
        value := CANONICAL_NAN;
      } else if prodInf {
        value := Float(prodSign, 0xFF, 0);
      } else if c.IsInf() {
        value := Float(effC, 0xFF, 0);
      } else if a.IsZero() || b.IsZero() {
        if c.IsZero() {
          value := Float(if prodSign == effC then prodSign else rm == RDN, 0, 0);
        } else {
          value := Float(effC, c.exp, c.frac);
        }
      } else if c.IsZero() {
        value, flags := RoundProduct(a, b, prodSign, rm);
      } else {
        value, flags := FuseNormals(a, b, c, prodSign, effC, rm);
      }
    }
  }

  /** The two models' flags do differ: 1.5 * 2^-126 - 2^-126 underflows without losing a bit,
      so the reference raises UF and NX and the circuit UF alone. */
  method ExactUnderflowDiffers(rm: Rm) returns (value: Float, flags: Flags)
    ensures var reference := Add(Float(false, 1, 0x40_0000), Float(false, 1, 0), rm, true);
            && value == reference.value == Zero(false)
            && flags == Flags(false, false, false, true, false)
            && reference.flags == Flags(false, false, false, true, true)
  {
    hide Scale, Add, Round;
    var a, b := Float(false, 1, 0x40_0000), Float(false, 1, 0);
    ghost var v := HalfSmallest();
    UnderflowFlags(false, v, rm);
    ExactAdd(a, b, v, rm);
    value, flags := AddSub(a, b, rm, true);
  }

  lemma ExactAdd(a: Float, b: Float, v: real, rm: Rm)
    requires a.IsNormal() && b.IsNormal() && !a.sign && !b.sign && v > 0.0 && v == a.Magnitude() - b.Magnitude()
    ensures Add(a, b, rm, true) == Round(false, v, rm)
    ensures AddUnderflow(a, b, true) == ExactUnderflow(v)
  {
  }

  /** Half the smallest normal: one bit, below 2^-126. */
  lemma HalfSmallest() returns (v: real)
    ensures v == Float(false, 1, 0x40_0000).Magnitude() - Float(false, 1, 0).Magnitude()
    ensures v > 0.0 && Representable(v) && v < Scale(1.0, -126)
  {
    hide Scale;
    var n := 0x40_0000 as real;
    v := Scale(n, -149);
    ScaleSum(0xC0_0000 as real, 0x80_0000 as real, -149);
    ScaleSign(n, -149);
    ScaleScale(n, -149, 127);
    ScaleUp(1, 22);
    HiddenIsPow2();
    Pow2Double(22);
    ScaleScale(1.0, 22, -22);
    ScaleZero(1.0);
    assert IsExponent(v, -127);
    ExponentUnique(v, -127, Exponent(v));
    ExponentOrder(v, -126);
    ScaleScale(n, -149, 150);
    ScaleUp(0x40_0000, 1);
    assert Pow2(1) == 2;
    assert Window(v) == 0x80_0000 as real;
  }
}
