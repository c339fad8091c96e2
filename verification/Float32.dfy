/** Single-precision encodings as their three fields, with the flush-to-zero reading
    of subnormals that every unit of the core shares. */
module Float32 {
  import opened Powers

  type Exp8 = x: nat | x < 256
  type Frac23 = x: nat | x < 0x80_0000
  /** The three-bit rounding-mode field, already resolved; 5..7 fall back to RNE. */
  type Rm = x: nat | x < 8

  const RTZ: Rm := 1
  const RDN: Rm := 2
  const RUP: Rm := 3
  const RMM: Rm := 4

  const HIDDEN: nat := 0x80_0000
  lemma HiddenIsPow2()
    ensures Pow2(23) == HIDDEN && Pow2(24) == 2 * HIDDEN && Pow2(25) == 4 * HIDDEN
  {
    assert Pow2(8) == 0x100;
    assert Pow2(16) == 0x1_0000;
  }

  const CANONICAL_NAN := Float(false, 255, 0x40_0000)

  datatype Float = Float(sign: bool, exp: Exp8, frac: Frac23) {
    predicate IsNan() { exp == 255 && frac != 0 }

    predicate IsSnan() { IsNan() && frac < 0x40_0000 }

    predicate IsInf() { exp == 255 && frac == 0 }

    /** True of a real zero and of a (flushed) subnormal. */
    predicate IsZero() { exp == 0 }

    /** The operands the datapaths really compute on. */
    predicate IsNormal() { 0 < exp < 255 }

    /** The 24-bit significand with its implicit leading one. */
    function Mant(): (m: nat)
      ensures HIDDEN <= m < 2 * HIDDEN
    {
      HIDDEN + frac
    }

    function Unbiased(): int { exp - 127 }

    /** The exact magnitude of a normal operand. */
    function Magnitude(): real { Scale(Mant() as real, Unbiased() - 23) }

  }

  function Zero(sign: bool): Float { Float(sign, 0, 0) }

  function Inf(sign: bool): Float { Float(sign, 255, 0) }

  /** The accrued-exception bits of fcsr, {NV, DZ, OF, UF, NX}. */
  datatype Flags = Flags(nv: bool, dz: bool, of: bool, uf: bool, nx: bool)

  const NO_FLAGS := Flags(false, false, false, false, false)
  const INVALID := Flags(true, false, false, false, false)
  const DIV_BY_ZERO := Flags(false, true, false, false, false)

  datatype Rounded = Rounded(value: Float, flags: Flags)
}
