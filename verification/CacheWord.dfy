/** A 32-bit word as its four little-endian bytes, with the load extension and the store
    merge of the data cache. */
module CacheWord {

  type Byte = x: nat | x < 256
  type Two = x: nat | x < 4
  type Funct3 = x: nat | x < 8

  datatype Word = Word(b0: Byte, b1: Byte, b2: Byte, b3: Byte) {
    function At(i: Two): Byte {
      if i == 0 then b0 else if i == 1 then b1 else if i == 2 then b2 else b3
    }
  }

  const ZERO := Word(0, 0, 0, 0)

  function SignFill(signed: bool, top: Byte): Byte { if signed && top >= 128 then 255 else 0 }

  /** lb, lh, lw, lbu, lhu by funct3; a halfword is picked by the offset's upper bit. */
  function ExtendRead(w: Word, funct3: Funct3, off: Two): Word {
    match funct3
    case 0 => var b := w.At(off); var s := SignFill(true, b); Word(b, s, s, s)
    case 4 => Word(w.At(off), 0, 0, 0)
    case 1 =>
      var (l, h) := if off >= 2 then (w.b2, w.b3) else (w.b0, w.b1);
      var s := SignFill(true, h);
      Word(l, h, s, s)
    case 5 => var (l, h) := if off >= 2 then (w.b2, w.b3) else (w.b0, w.b1); Word(l, h, 0, 0)
    case _ => w
  }

  /** sb, sh, sw by the low two bits of funct3. */
  function MergeWrite(w: Word, funct3: Funct3, off: Two, d: Word): Word {
    match funct3 % 4
    case 0 => (match off
               case 0 => w.(b0 := d.b0)
               case 1 => w.(b1 := d.b0)
               case 2 => w.(b2 := d.b0)
               case _ => w.(b3 := d.b0))
    case 1 => if off >= 2 then w.(b2 := d.b0, b3 := d.b1) else w.(b0 := d.b0, b1 := d.b1)
    case _ => d
  }

  /** Bytes an access covers: its aligned start and its length. */
  function Start(funct3: Funct3, off: Two): Two {
    match funct3 % 4
    case 0 => off
    case 1 => if off >= 2 then 2 else 0
    case _ => 0
  }

  function Size(funct3: Funct3): (n: nat)
    ensures 1 <= n <= 4
  {
    match funct3 % 4
    case 0 => 1
    case 1 => 2
    case _ => 4
  }

  /** A store is exactly a byte-memory write of the low bytes at the access's place. */
  lemma MergeIsByteStore(w: Word, funct3: Funct3, off: Two, d: Word, i: Two)
    ensures var (s, n) := (Start(funct3, off), Size(funct3));
            MergeWrite(w, funct3, off, d).At(i) == if s <= i < s + n then d.At(i - s) else w.At(i)
  {
  }

  /** A load is exactly the covered bytes of the byte memory, sign- or zero-filled. */
  lemma ExtendIsByteLoad(w: Word, funct3: Funct3, off: Two, i: Two)
    requires funct3 in {0, 1, 2, 4, 5}
    ensures var (s, n) := (Start(funct3, off), Size(funct3));
            ExtendRead(w, funct3, off).At(i) == if i < n then w.At(s + i) else SignFill(funct3 < 4, w.At(s + n - 1))
  {
  }

  /** What a store writes, the matching load reads back. */
  lemma StoreThenLoad(w: Word, funct3: Funct3, off: Two, d: Word)
    requires funct3 in {0, 1, 2, 4, 5}
    ensures ExtendRead(MergeWrite(w, funct3, off, d), funct3, off) == ExtendRead(d, funct3, 0)
  {
  }
}
