/** Align, add or subtract, renormalise, round: the tail shared by the adder's 27-bit
    frame and the fused unit's 112-bit frame. */
module AlignAdd {
  import opened Powers
  import opened Float32
  import opened IssFloat
  import opened Sticky
  import opened FpRound

  /** A significand placed in a frame: leading one at the top bit, three spare low bits. */
  ghost predicate Framed(frame: nat, n: nat) {
    frame >= 27 && Pow2(frame - 1) <= n < Pow2(frame) && n % 8 == 0
  }

  lemma FrameHalves(frame: nat)
    requires frame >= 27
    ensures Pow2(frame) == 2 * Pow2(frame - 1) && Pow2(frame - 1) == 2 * Pow2(frame - 2)
    ensures Pow2(frame - 2) == 4 * Pow2(frame - 4) && Pow2(frame + 1) == 2 * Pow2(frame)
  {
    assert Pow2(frame - 2) == 2 * Pow2(frame - 3);
  }

  lemma FramedBounds(frame: nat, n: nat)
    requires Framed(frame, n)
    ensures frame >= 27 && Pow2(frame - 1) <= n < Pow2(frame) && n % 2 == 0 && n > 0
  {
    hide Pow2;
    EightIsEven(n);
  }

  lemma EightIsEven(n: nat)
    requires n % 8 == 0
    ensures n % 2 == 0
  {
    var q := n / 8;
    assert n == 8 * q;
    DivModUnique(n, 2, 4 * q, 0);
  }

  /** The aligned operand never exceeds the anchor. */
  lemma AlignedFits(frame: nat, big: nat, small: nat, shift: nat, al: nat, x: real)
    requires Framed(frame, big) && Framed(frame, small) && (shift == 0 ==> small <= big)
    requires al == JamShift(small, shift) && x == Scale(small as real, 0 - shift)
    ensures al <= big && 0.0 < x <= big as real && big + al < Pow2(frame + 1)
    ensures big > 0 && big % 2 == 0 && big >= Pow2(frame - 2)
  {
    hide Scale, Pow2, JamShift, Jam;
    FramedBounds(frame, big);
    FramedBounds(frame, small);
    hide Framed;
    ScaleSign(small as real, 0 - shift);
    FrameHalves(frame);
    ShiftByZero(small);
    ShiftJams(small, shift);
    if shift > 0 {
      ShiftBound(small, shift, 1, frame);
      JamBound(x, al, Pow2(frame - 1));
    }
  }

  /** If the alignment lost a bit, the difference keeps its second-highest place: so
      cancelling two or more places means that nothing was lost. */
  lemma CancellationIsExact(frame: nat, big: nat, small: nat, shift: nat, al: nat, x: real)
    requires Framed(frame, big) && Framed(frame, small)
    requires al == JamShift(small, shift) && x == Scale(small as real, 0 - shift)
    ensures x == al as real || big - al >= Pow2(frame - 2)
  {
    hide Scale, Pow2, JamShift, Jam;
    if shift < 4 {
      NearLosesNothing(small, shift);
      ExactShift(small, shift);
    } else {
      FrameHalves(frame);
      ShiftJams(small, shift);
      ShiftBound(small, shift, 4, frame);
      JamBound(x, al, Pow2(frame - 4));
    }
  }

  lemma JamZero(v: real, s: nat)
    requires Jam(v, s)
    ensures s == 0 <==> v == 0.0
  {
  }

  lemma JamBound(x: real, s: int, p: int)
    requires Jam(x, s) && x < p as real
    ensures s <= p
  {
  }

  lemma ShiftByZero(n: nat)
    ensures Scale(n as real, 0) == n as real && JamShift(n, 0) == n
  {
    assert Pow2(0) == 1;
  }

  /** A shift by at least d leaves less than 2^(frame-d). */
  lemma ShiftBound(small: nat, shift: nat, d: nat, frame: nat)
    requires 1 <= d <= shift && d < frame && small < Pow2(frame)
    ensures Scale(small as real, 0 - shift) < Pow2(frame - d) as real
  {
    hide Scale, Pow2;
    var p, x := Pow2(frame - d), Scale(small as real, 0 - shift);
    ScaleZero(small as real);
    ScaleScale(small as real, 0 - shift, shift);
    ScaleUp(p, shift);
    Pow2Add(frame - d, shift);
    Pow2Mono(frame, frame - d + shift);
    ScaleMono(x, p as real, shift);
  }

  lemma NearLosesNothing(small: nat, shift: nat)
    requires small % 8 == 0 && shift < 4
    ensures small % Pow2(shift) == 0
  {
    assert Pow2(3) == 8;
    hide Pow2;
    Pow2Add(shift, 3 - shift);
    var p, q, m := Pow2(shift), Pow2(3 - shift), small / 8;
    MulRegroup(m, p, q);
    DivModUnique(small, p, m * q, 0);
  }

  lemma MulRegroup(m: int, p: int, q: int)
    ensures m * (p * q) == p * (m * q)
  {
  }

  /** The left shift that brings the leading one to the top bit of the frame. */
  method Renormalise(frame: nat, maxShl: nat, sum: nat) returns (s: nat, shl: nat)
    requires 27 <= frame && frame - 1 <= maxShl && 0 < sum < Pow2(frame + 1)
    ensures s == sum * Pow2(shl) && Pow2(frame - 1) <= s < Pow2(frame + 1)
    ensures shl < frame
    ensures sum >= Pow2(frame - 2) ==> shl <= 1
  {
    FrameHalves(frame);
    assert Pow2(0) == 1;
    hide Pow2;
    s, shl := sum, 0;
    while s < Pow2(frame - 1) && shl < maxShl
      invariant s == sum * Pow2(shl) && s < Pow2(frame + 1)
      invariant shl < frame
      invariant sum >= Pow2(frame - 2) ==> shl == 0 || (s >= Pow2(frame - 1) && shl == 1)
    {
      AtLeastPower(sum, Pow2(shl));
      Pow2Order(shl, frame - 1);
      Pow2Double(shl);
      s := s * 2;
      shl := shl + 1;
    }
    AtLeastPower(sum, Pow2(shl));
    if shl >= frame - 1 {
      Pow2Mono(frame - 1, shl);
    }
  }

  lemma AtLeastPower(n: nat, p: nat)
    requires n > 0
    ensures n * p >= p
  {
  }

  /** Reading the top 25 bits, guard, round and sticky out of the renormalised sum. */
  lemma FieldsOfSum(frame: nat, s: nat)
    requires frame >= 27 && Pow2(frame - 1) <= s < Pow2(frame + 1)
    ensures HIDDEN <= s / Pow2(frame - 24) < 4 * HIDDEN
    ensures s / Pow2(frame - 25) == 2 * (s / Pow2(frame - 24)) + BitAt(s, frame - 25)
    ensures s % Pow2(frame - 25) != 0 <==> BitAt(s, frame - 26) == 1 || s % Pow2(frame - 26) != 0
  {
    Pow2Double(frame - 25);
    hide Pow2;
    LowBits(s, frame - 26);
    HalfDivision(s, Pow2(frame - 25));
    HiddenIsPow2();
    var p := Pow2(frame - 24);
    Pow2Add(23, frame - 24);
    Pow2Add(25, frame - 24);
    DivBounds(s, p, HIDDEN, 4 * HIDDEN);
  }

  lemma HalfDivision(n: nat, p: nat)
    requires p > 0
    ensures n / (2 * p) == n / p / 2
  {
    var q, r := n / p, n % p;
    assert n == p * q + r && q == 2 * (q / 2) + q % 2;
    assert p * q == (2 * p) * (q / 2) + p * (q % 2);
    assert q % 2 == 0 || q % 2 == 1;
    DivModUnique(n, 2 * p, q / 2, p * (q % 2) + r);
  }

  lemma DivBounds(n: nat, p: nat, lo: nat, hi: nat)
    requires p > 0 && lo * p <= n < hi * p
    ensures lo <= n / p < hi
  {
    var q, r := n / p, n % p;
    assert n == p * q + r;
    CancelFactor(p, lo, q + 1);
    CancelFactor(p, q, hi);
  }

  lemma CancelFactor(p: nat, a: nat, b: nat)
    requires p > 0 && p * a < p * b
    ensures a < b
  {
  }

  /** Round the top bits of a normalised frame register that truncates the exact t. */
  method RoundFields(frame: nat, sign: bool, e: Int10, s: nat, rm: Rm, ghost t: real)
    returns (value: Float, flags: Flags)
    requires frame >= 27 && Pow2(frame - 1) <= s < Pow2(frame + 1) && e <= 509 && t > 0.0
    requires Truncates(Scale(t, 24 - e), s / Pow2(frame - 25), s % Pow2(frame - 25) != 0)
    ensures Agrees(value, flags, Round(sign, t, rm), ExactUnderflow(t))
  {
    hide Scale, Pow2;
    FieldsOfSum(frame, s);
    var sig := s / Pow2(frame - 24);
    var g, r, st := BitAt(s, frame - 25) == 1, BitAt(s, frame - 26) == 1, s % Pow2(frame - 26) != 0;
    value, flags := RoundAndPack(sign, e, sig, g, r, st, rm);
    if sig < 2 * HIDDEN {
      RoundFromSummary(sign, t, e, sig, g, r || st, rm);
    } else {
      RoundFromCarry(sign, t, e, sig, g, r || st, rm);
    }
    ExactUnderflowAt(t);
  }

  /** Renormalisation and rounding of the sticky sum; v is the exact frame value it
      stands for. */
  method RenormAndRound(frame: nat, maxShl: nat, sign: bool, bigExp: Int10, sum: nat, rm: Rm, ghost v: real)
    returns (value: Float, flags: Flags)
    requires 27 <= frame <= 112 && frame - 1 <= maxShl && -400 <= bigExp <= 500
    requires 0 < sum < Pow2(frame + 1) && v > 0.0 && Jam(v, sum)
    requires v == sum as real || sum >= Pow2(frame - 2)
    ensures Scale(v, bigExp - (frame - 1)) > 0.0
    ensures var t := Scale(v, bigExp - (frame - 1));
            Agrees(value, flags, Round(sign, t, rm), ExactUnderflow(t))
  {
    hide Scale, Pow2, Jam;
    var s, shl := Renormalise(frame, maxShl, sum);
    ScaleSign(v, bigExp - (frame - 1));
    RenormTruncates(v, sum, shl, frame);
    ScaleScale(v, bigExp - (frame - 1), 24 - (bigExp - shl));
    value, flags := RoundFields(frame, sign, bigExp - shl, s, rm, Scale(v, bigExp - (frame - 1)));
  }

  /** The exact value of the sum in the anchor's frame, and its sticky register. */
  ghost function FrameValue(same: bool, big: nat, small: nat, shift: nat): real {
    var x := Scale(small as real, 0 - shift);
    if same then big as real + x else big as real - x
  }

  lemma SumInFrame(frame: nat, same: bool, big: nat, small: nat, shift: nat)
    requires Framed(frame, big) && Framed(frame, small)
    requires shift == 0 ==> small <= big
    ensures var al, m := JamShift(small, shift), FrameValue(same, big, small, shift);
            && al <= big && m >= 0.0
            && var sum := if same then big + al else big - al;
               && sum < Pow2(frame + 1) && Jam(m, sum)
               && (m == sum as real || sum >= Pow2(frame - 2)) && (sum == 0 <==> m == 0.0)
  {
    hide Scale, Pow2, JamShift, Jam, Framed;
    var al, x := JamShift(small, shift), Scale(small as real, 0 - shift);
    AlignedFits(frame, big, small, shift, al, x);
    CancellationIsExact(frame, big, small, shift, al, x);
    ShiftJams(small, shift);
    JamSum(big, x, al);
    if !same {
      JamZero(big as real - x, big - al);
    }
  }

  /** Two framed operands as one exact signed value. */
  lemma TotalInFrame(bigSign: bool, big: nat, bigExp: int, smallSign: bool, small: nat, smallExp: int, k: int)
    requires smallExp <= bigExp
    ensures Signed(bigSign, Scale(big as real, bigExp - k)) + Signed(smallSign, Scale(small as real, smallExp - k))
         == Signed(bigSign, Scale(FrameValue(bigSign == smallSign, big, small, bigExp - smallExp), bigExp - k))
  {
    var shift := bigExp - smallExp;
    ScaleScale(small as real, 0 - shift, bigExp - k);
    ScaleSum(big as real, Scale(small as real, 0 - shift), bigExp - k);
  }

  /** The exact total of two framed operands. */
  ghost function Total(frame: nat, s: bool, e: int, n: nat, s': bool, e': int, n': nat): real {
    Signed(s, Scale(n as real, e - (frame - 1))) + Signed(s', Scale(n' as real, e' - (frame - 1)))
  }

  /** The whole tail, for operands whose larger exponent (or larger significand, at equal
      exponents) anchors the frame. */
  method AlignAddRound(frame: nat, maxShl: nat, bigSign: bool, bigExp: Int10, big: nat,
                       smallSign: bool, smallExp: Int10, small: nat, rm: Rm)
    returns (value: Float, flags: Flags)
    requires frame <= 112 && frame - 1 <= maxShl && -400 <= bigExp <= 500
    requires Framed(frame, big) && Framed(frame, small)
    requires smallExp < bigExp || (smallExp == bigExp && small <= big)
    ensures var t := Total(frame, bigSign, bigExp, big, smallSign, smallExp, small);
            Agrees(value, flags, RoundTotal(t, rm), ExactUnderflow(t))
  {
    ShiftByZero(small);
    hide Scale, Pow2, JamShift, Jam, FrameValue, Round, ExactUnderflow;
    var shift: nat := bigExp - smallExp;
    var aligned := ShiftRightSticky(frame, small, shift);
    SumInFrame(frame, bigSign == smallSign, big, small, shift);
    assert aligned == JamShift(small, shift);
    var sum := if bigSign == smallSign then big + aligned else big - aligned;
    ghost var m := FrameValue(bigSign == smallSign, big, small, shift);
    TotalInFrame(bigSign, big, bigExp, smallSign, small, smallExp, frame - 1);
    ScaleSign(m, bigExp - (frame - 1));
    ExactUnderflowSigned(bigSign, Scale(m, bigExp - (frame - 1)));
    if sum == 0 {
      value, flags := Float(rm == RDN, 0, 0), NO_FLAGS;
    } else {
      value, flags := RenormAndRound(frame, maxShl, bigSign, bigExp, sum, rm, m);
    }
  }
}
