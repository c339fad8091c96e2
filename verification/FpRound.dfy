/** The rounding helpers every float unit includes: normalise-round-pack and the
    alignment shift that keeps lost bits as a sticky bit. */
module FpRound {
  import opened Powers
  import opened Float32
  import opened IssFloat
  import opened Sticky

  /** The register widths of the datapath; assigning to them proves that no bit is lost. */
  type Int10 = x: int | -512 <= x < 512
  type Sig25 = x: nat | x < 0x200_0000

  /** A 10-bit signed register: increments wrap. */
  function Wrap10(e: int): Int10 { (e + 512) % 1024 - 512 }

  /** What a rounding circuit agrees on with the reference: every field, except that on an
      exact underflow, and only there, it does not raise the reference's NX. */
  ghost predicate Agrees(value: Float, flags: Flags, reference: Rounded, exactUnderflow: bool) {
    && value == reference.value
    && flags == (if exactUnderflow then reference.flags.(nx := false) else reference.flags)
    && (exactUnderflow ==> reference.flags.nx)
  }

  /** Rounding carries the exponent out of its register. */
  predicate Wraps(e: int, sig: nat, cls: Class, sign: bool, rm: Rm) {
    e + Bit(RoundsUp(cls, sig, sign, rm) && sig == 2 * HIDDEN - 1) > 511
  }

  /** The per-mode rounding decision on the guard, round and sticky bits. */
  function RoundUpBit(s: nat, g: bool, r: bool, st: bool, sign: bool, rm: Rm): (up: bool)
    ensures up <==> RoundsUp(ClassOf(g, r || st), s, sign, rm)
  {
    match rm
    case 1 => false
    case 2 => sign && (g || r || st)
    case 3 => !sign && (g || r || st)
    case 4 => g
    case _ => g && (r || st || s % 2 == 1)
  }

  /** An in-range exponent's low byte, re-biased without losing a bit. */
  function Biased(e: Int10): (b: Exp8)
    ensures -126 <= e <= 127 ==> b == e + 127
  {
    (e % 256 + 127) % 256
  }

  /** From any guard/round/sticky summary: the reference's result, unless the exponent wraps.
      A significand without its leading one is packed as if it had it, and one that rounds to
      nothing or to the leading one alone by the exponent's range. */
  method RoundAndPack(sign: bool, expUnbiased: Int10, sig: Sig25, guard: bool, roundBit: bool, sticky: bool, rm: Rm)
    returns (value: Float, flags: Flags)
    ensures HIDDEN <= sig < 2 * HIDDEN ==>
              var cls := ClassOf(guard, roundBit || sticky);
              (!Wraps(expUnbiased, sig, cls, sign, rm) <==>
               Agrees(value, flags, PackRounded(sign, expUnbiased, sig, cls, rm), cls.Exact? && expUnbiased < -126))
    ensures 2 * HIDDEN <= sig ==>
              var e, cls := expUnbiased + 1, ClassOf(sig % 2 == 1, guard || roundBit || sticky);
              (!Wraps(e, sig / 2, cls, sign, rm) <==>
               Agrees(value, flags, PackRounded(sign, e, sig / 2, cls, rm), cls.Exact? && e < -126))
    ensures sig < HIDDEN ==>
              var cls := ClassOf(guard, roundBit || sticky);
              Unnormalised(sign, expUnbiased, sig, cls, rm, value, flags)
  {
    var e: Int10, s: Sig25 := expUnbiased, sig;
    var g, r, st := guard, roundBit, sticky;
    if s >= 0x100_0000 {
      st := st || r;
      r := g;
      g := s % 2 == 1;
      s := s / 2;
      e := Wrap10(e + 1);
    }

    value, flags := RoundNormalised(sign, e, s, g, r, st, rm);
  }

  /** Round a significand without carry-out, then pack by exponent range. */
  method RoundNormalised(sign: bool, expUnbiased: Int10, sig: Sig25, g: bool, r: bool, st: bool, rm: Rm)
    returns (value: Float, flags: Flags)
    requires sig < 2 * HIDDEN
    ensures HIDDEN <= sig ==>
              var cls := ClassOf(g, r || st);
              (!Wraps(expUnbiased, sig, cls, sign, rm) <==>
               Agrees(value, flags, PackRounded(sign, expUnbiased, sig, cls, rm), cls.Exact? && expUnbiased < -126))
    ensures expUnbiased < -127 ==> value.IsZero()
    ensures sig < HIDDEN ==> Unnormalised(sign, expUnbiased, sig, ClassOf(g, r || st), rm, value, flags)
  {
    hide Agrees, PackRounded;
    var e: Int10, s: Sig25 := expUnbiased, sig;
    var roundUp := RoundUpBit(s, g, r, st, sign, rm);
    var nx := g || r || st;

    if roundUp {
      s := s + 1;
      if s >= 0x100_0000 {
        s := s / 2;
        e := Wrap10(e + 1);
      }
    }

    var packed := PackRange(sign, e, s, nx, rm);
    value, flags := packed.value, packed.flags;
    if HIDDEN <= sig {
      PackAgrees(sign, expUnbiased, sig, ClassOf(g, r || st), rm);
    } else {
      PackUnnormalised(sign, expUnbiased, sig, ClassOf(g, r || st), rm);
    }
  }

  /** What becomes of a significand below the hidden bit. */
  ghost predicate Unnormalised(sign: bool, e: Int10, sig: nat, cls: Class, rm: Rm, value: Float, flags: Flags)
    requires sig < HIDDEN
  {
    var s := sig + Bit(RoundsUp(cls, sig, sign, rm));
    if 0 < s < HIDDEN then
      Agrees(value, flags, PackRounded(sign, e, HIDDEN + sig, cls, rm), cls.Exact? && e < -126)
    else if e > 127 then
      flags == Flags(false, false, true, false, true) && value == PackRounded(sign, e, HIDDEN, Exact, rm).value
    else if s == 0 || e < -126 then
      value == Zero(sign) && flags == Flags(false, false, false, s != 0, !cls.Exact?)
    else value == Float(sign, e + 127, 0) && flags == NO_FLAGS.(nx := true)
  }

  lemma PackUnnormalised(sign: bool, e: Int10, sig: nat, cls: Class, rm: Rm)
    requires sig < HIDDEN
    ensures var p := PackRange(sign, e, sig + Bit(RoundsUp(cls, sig, sign, rm)), !cls.Exact?, rm);
            Unnormalised(sign, e, sig, cls, rm, p.value, p.flags)
  {
    SameParity(sig);
    ExactKeeps(sig, sign, rm);
    ExactKeeps(HIDDEN, sign, rm);
  }

  lemma SameParity(sig: nat)
    ensures (HIDDEN + sig) % 2 == sig % 2
  {
  }

  /** The last step: overflow, flush or a normal encoding. */
  function PackRange(sign: bool, e: Int10, s: Sig25, nx: bool, rm: Rm): (p: Rounded)
    requires s < 2 * HIDDEN
    ensures e < -126 ==> p.value.IsZero()
    ensures s == 0 && e <= 127 ==> p == Rounded(Zero(sign), NO_FLAGS.(nx := nx))
  {
    if e > 127 then
      Rounded(if rm == RTZ || (rm == RDN && !sign) || (rm == RUP && sign) then Float(sign, 0xFE, 0x7F_FFFF)
              else Float(sign, 0xFF, 0), Flags(false, false, true, false, true))
    else if e < -126 || s == 0 then Rounded(Float(sign, 0, 0), Flags(false, false, false, e < -126 && s != 0, nx))
    else Rounded(Float(sign, Biased(e), s % HIDDEN), Flags(false, false, false, false, nx))
  }

  /** Packing the rounded significand is the reference's packing, unless the exponent wraps. */
  lemma PackAgrees(sign: bool, e: Int10, sig: nat, cls: Class, rm: Rm)
    requires HIDDEN <= sig < 2 * HIDDEN
    ensures var up := RoundsUp(cls, sig, sign, rm);
            var carry := up && sig + 1 == 2 * HIDDEN;
            var p := PackRange(sign, if carry then Wrap10(e + 1) else e,
                               if carry then HIDDEN else if up then sig + 1 else sig, !cls.Exact?, rm);
            (!Wraps(e, sig, cls, sign, rm) <==>
             Agrees(p.value, p.flags, PackRounded(sign, e, sig, cls, rm), cls.Exact? && e < -126))
  {
    hide RoundsUp;
    if cls.Exact? {
      ExactKeeps(sig, sign, rm);
    }
  }

  lemma ExactKeeps(sig: nat, sign: bool, rm: Rm)
    ensures !RoundsUp(Exact, sig, sign, rm)
  {
  }

  /** Bit k of a word. */
  function BitAt(n: nat, k: nat): nat { n / Pow2(k) % 2 }

  /** The OR of the low amt bits, accumulated one bit at a time. */
  method StickyOf(sig: nat, amt: nat) returns (acc: bool)
    ensures acc <==> sig % Pow2(amt) != 0
  {
    assert Pow2(0) == 1;
    hide Pow2;
    acc := false;
    for k := 0 to amt
      invariant acc <==> sig % Pow2(k) != 0
    {
      LowBits(sig, k);
      acc := acc || BitAt(sig, k) == 1;
    }
  }

  /** The alignment shift, for the 27-bit frame of the adder and the 112-bit frame of the
      fused unit alike. */
  method ShiftRightSticky(width: nat, sig: nat, amt: int) returns (shifted: nat)
    requires sig < Pow2(width)
    ensures amt <= 0 ==> shifted == sig
    ensures amt > 0 ==> shifted == JamShift(sig, amt)
  {
    hide Pow2;
    if amt <= 0 {
      shifted := sig;
    } else if amt >= width {
      shifted := if sig != 0 then 1 else 0;
      Pow2Mono(width, amt);
      DivModUnique(sig, Pow2(amt), 0, sig);
    } else {
      var stickyAcc := StickyOf(sig, amt);
      shifted := sig / Pow2(amt);
      if shifted % 2 == 0 && stickyAcc {
        shifted := shifted + 1;
      }
    }
  }

  /** The low k+1 bits are all clear exactly when the low k bits and bit k are. */
  lemma LowBits(n: nat, k: nat)
    ensures n % Pow2(k + 1) == 0 <==> n % Pow2(k) == 0 && BitAt(n, k) == 0
  {
    Pow2Double(k);
    hide Pow2;
    LowBit(n, Pow2(k));
  }

  lemma LowBit(n: nat, p: nat)
    requires p > 0
    ensures n % (2 * p) == 0 <==> n % p == 0 && n / p % 2 == 0
  {
    var h, b := n / p / 2, n / p % 2;
    SplitQuotient(n, p, n / p, h, b, n % p);
    SplitModulus(n, p, h, b, n % p);
  }

  lemma SplitQuotient(n: int, p: int, q: int, h: int, b: int, r: int)
    requires n == p * q + r && q == 2 * h + b
    ensures n == (2 * p) * h + p * b + r
  {
  }

  lemma SplitModulus(n: nat, p: nat, h: nat, b: nat, r: nat)
    requires p > 0 && b < 2 && r < p && n == (2 * p) * h + p * b + r
    ensures n % (2 * p) == p * b + r
  {
    DivModUnique(n, 2 * p, h, p * b + r);
  }
}
