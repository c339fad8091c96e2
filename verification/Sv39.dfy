/** Sv39 translation: the reference walk, the walker circuit, and the TLB that caches it. */
module Sv39 {
  import Powers

  type Vpn9 = x: nat | x < 512
  type Vpn27 = x: nat | x < 0x800_0000
  type Ppn20 = x: nat | x < 0x10_0000

  datatype Access = Fetch | Load | Store

  /** The page tables: the 64-bit entry at each 32-bit address. */
  type Tables = nat -> nat

  /** Entry bits V, R, W, X, U and the low 20 bits of its PPN. */
  function V(pte: nat): bool { pte % 2 == 1 }
  function R(pte: nat): bool { pte / 2 % 2 == 1 }
  function W(pte: nat): bool { pte / 4 % 2 == 1 }
  function X(pte: nat): bool { pte / 8 % 2 == 1 }
  function U(pte: nat): bool { pte / 16 % 2 == 1 }
  function Ppn(pte: nat): Ppn20 { pte / 1024 % 0x10_0000 }

  predicate IsLeaf(pte: nat) { R(pte) || W(pte) || X(pte) }

  /** Entry address: the page-aligned table base OR-ed with eight times the index, which
      never overlap. */
  function EntryAddr(ppn: Ppn20, index: Vpn9): nat { ppn * 4096 + index * 8 }

  function Vpn(vaddr: nat): Vpn27 { vaddr / 4096 % 0x800_0000 }

  predicate PermOk(pte: nat, access: Access, userMode: bool) {
    (match access case Fetch => X(pte) case Store => W(pte) case Load => R(pte)) && U(pte) == userMode
  }

  /** Superpage reconstruction: the entry's upper bits over the virtual page's own. */
  function Gigapage(ppn: Ppn20, vpn1: Vpn9, vpn0: Vpn9): Ppn20 { ppn / 0x4_0000 * 0x4_0000 + vpn1 * 512 + vpn0 }

  function Megapage(ppn: Ppn20, vpn0: Vpn9): Ppn20 { ppn / 512 * 512 + vpn0 }

  datatype Walk = PageFault | Page(ppn: Ppn20)

  /** The simulator's three-level walk, straight through. */
  function IssWalk(tables: Tables, satp: nat, vaddr: nat, access: Access, userMode: bool): Walk {
    var vpn2: Vpn9 := vaddr / 0x4000_0000 % 512;
    var vpn1: Vpn9 := vaddr / 0x20_0000 % 512;
    var vpn0: Vpn9 := vaddr / 0x1000 % 512;
    var pte2 := tables(EntryAddr(satp % 0x10_0000, vpn2));
    if !V(pte2) then PageFault
    else if IsLeaf(pte2) then
      if Ppn(pte2) % 0x4_0000 != 0 then PageFault
      else if !PermOk(pte2, access, userMode) then PageFault
      else Page(Gigapage(Ppn(pte2), vpn1, vpn0))
    else
      var pte1 := tables(EntryAddr(Ppn(pte2), vpn1));
      if !V(pte1) then PageFault
      else if IsLeaf(pte1) then
        if Ppn(pte1) % 512 != 0 then PageFault
        else if !PermOk(pte1, access, userMode) then PageFault
        else Page(Megapage(Ppn(pte1), vpn0))
      else
        var pte0 := tables(EntryAddr(Ppn(pte1), vpn0));
        if !V(pte0) then PageFault
        else if !IsLeaf(pte0) then PageFault
        else if !PermOk(pte0, access, userMode) then PageFault
        else Page(Ppn(pte0))
  }

  /** A leaf that passed its alignment check: where it maps and what it permits. */
  datatype Leaf = NoLeaf | Leaf(ppn: Ppn20, r: bool, w: bool, x: bool, u: bool) {
    predicate Grants(access: Access, userMode: bool) {
      Leaf? && (match access case Fetch => x case Store => w case Load => r) && u == userMode
    }
  }

  function LeafOf(pte: nat, ppn: Ppn20): Leaf { Leaf(ppn, R(pte), W(pte), X(pte), U(pte)) }

  function Granted(leaf: Leaf, access: Access, userMode: bool): Walk {
    if leaf.Grants(access, userMode) then Page(leaf.ppn) else PageFault
  }

  /** The three index fields of a virtual page number. */
  function Vpn2(vpn: Vpn27): Vpn9 { vpn / 0x4_0000 }
  function Vpn1(vpn: Vpn27): Vpn9 { vpn / 512 % 512 }
  function Vpn0(vpn: Vpn27): Vpn9 { vpn % 512 }

  /** The leaf a walk ends in, from an entry already read at level 0, 1 or 2. */
  function From0(pte: nat): Leaf {
    if !V(pte) || !IsLeaf(pte) then NoLeaf else LeafOf(pte, Ppn(pte))
  }

  function From1(tables: Tables, pte: nat, vpn: Vpn27): Leaf {
    if !V(pte) then NoLeaf
    else if IsLeaf(pte) then (if pte / 1024 % 512 != 0 then NoLeaf else LeafOf(pte, Megapage(Ppn(pte), Vpn0(vpn))))
    else From0(tables(EntryAddr(Ppn(pte), Vpn0(vpn))))
  }

  function From2(tables: Tables, pte: nat, vpn: Vpn27): Leaf {
    if !V(pte) then NoLeaf
    else if IsLeaf(pte) then
      (if pte / 1024 % 0x4_0000 != 0 then NoLeaf
       else LeafOf(pte, Gigapage(Ppn(pte), Vpn1(vpn), Vpn0(vpn))))
    else From1(tables, tables(EntryAddr(Ppn(pte), Vpn1(vpn))), vpn)
  }

  function FindLeaf(tables: Tables, satp: nat, vpn: Vpn27): Leaf {
    From2(tables, tables(EntryAddr(satp % 0x10_0000, Vpn2(vpn))), vpn)
  }

  lemma VpnFields(vaddr: nat)
    ensures Vpn2(Vpn(vaddr)) == vaddr / 0x4000_0000 % 512
    ensures Vpn1(Vpn(vaddr)) == vaddr / 0x20_0000 % 512
    ensures Vpn0(Vpn(vaddr)) == vaddr / 0x1000 % 512
  {
    SliceTwice(vaddr);
    SliceField(vaddr / 4096);
  }

  lemma SliceTwice(vaddr: nat)
    ensures vaddr / 4096 / 0x4_0000 == vaddr / 0x4000_0000 && vaddr / 4096 / 512 == vaddr / 0x20_0000
  {
    Regroup(vaddr, vaddr / 0x4000_0000, vaddr % 0x4000_0000);
    Regroup'(vaddr, vaddr / 0x20_0000, vaddr % 0x20_0000);
  }

  lemma Regroup(x: nat, q: nat, r: nat)
    requires x == 0x4000_0000 * q + r && r < 0x4000_0000
    ensures x / 4096 / 0x4_0000 == q
  {
    assert x / 4096 == 0x4_0000 * q + r / 4096;
  }

  lemma Regroup'(x: nat, q: nat, r: nat)
    requires x == 0x20_0000 * q + r && r < 0x20_0000
    ensures x / 4096 / 512 == q
  {
    assert x / 4096 == 512 * q + r / 4096;
  }

  /** Slicing a 27-bit field out first does not change its subfields. */
  lemma SliceField(x: nat)
    ensures x % 0x800_0000 / 0x4_0000 == x / 0x4_0000 % 512
    ensures x % 0x800_0000 / 512 % 512 == x / 512 % 512
    ensures x % 0x800_0000 % 512 == x % 512
  {
    TopField(x / 0x800_0000, x % 0x800_0000);
    MiddleField(x / 0x800_0000, x % 0x800_0000);
    DropModulus(0x4_0000 * (x / 0x800_0000), x % 0x800_0000);
  }

  lemma TopField(q: nat, r: nat)
    requires r < 0x800_0000
    ensures (0x800_0000 * q + r) / 0x4_0000 % 512 == r / 0x4_0000
  {
    assert (0x800_0000 * q + r) / 0x4_0000 == 512 * q + r / 0x4_0000;
  }

  lemma MiddleField(q: nat, r: nat)
    ensures (0x800_0000 * q + r) / 512 % 512 == r / 512 % 512
  {
    DropMultiple(0x4_0000 * q, r);
    DropModulus(512 * q, r / 512);
  }

  lemma DropMultiple(k: nat, r: nat)
    ensures (512 * k + r) / 512 == k + r / 512
  {
  }

  lemma DropModulus(k: nat, m: nat)
    ensures (512 * k + m) % 512 == m % 512
  {
  }

  lemma LowPpn(pte: nat)
    ensures Ppn(pte) % 0x4_0000 == pte / 1024 % 0x4_0000 && Ppn(pte) % 512 == pte / 1024 % 512
  {
    var x := pte / 1024;
    var q, r := x / 0x10_0000, x % 0x10_0000;
    Powers.DivModUnique(x, 0x4_0000, 4 * q + r / 0x4_0000, r % 0x4_0000);
    Powers.DivModUnique(x, 512, 2048 * q + r / 512, r % 512);
  }

  /** The reference walk is the leaf search followed by the permission check: which leaf is
      reached never depends on the access or the privilege. */
  lemma WalkIsLeafAndGrant(tables: Tables, satp: nat, vaddr: nat, access: Access, userMode: bool)
    ensures IssWalk(tables, satp, vaddr, access, userMode)
         == Granted(FindLeaf(tables, satp, Vpn(vaddr)), access, userMode)
  {
    VpnFields(vaddr);
    var pte2 := tables(EntryAddr(satp % 0x10_0000, Vpn2(Vpn(vaddr))));
    var pte1 := tables(EntryAddr(Ppn(pte2), Vpn1(Vpn(vaddr))));
    LowPpn(pte2);
    LowPpn(pte1);
    hide Vpn, Vpn0, Vpn1, Vpn2, Ppn, V, R, W, X, U, Gigapage, Megapage;
  }
}
