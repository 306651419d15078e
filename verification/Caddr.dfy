/** inky/include/barrelfish/caddr.h: addresses of capabilities reached through a path of CNode slots.
    Shifts and the sums kept in a uint8_t are written out. */
module Caddr {
  import opened Powers

  const CPTR_BITS: nat := 32
  const BYTE: nat := 256
  const WORD: nat := 0x1_0000_0000

  datatype CnodeRef = CnodeRef(address: nat, addressBits: nat, sizeBits: nat, guardSize: nat)
  datatype CapRef = CapRef(cnode: CnodeRef, slot: nat)

  /** Bitwise or. */
  function Or(a: nat, b: nat): (r: nat)
    decreases a + b
  {
    if a == 0 && b == 0 then 0
    else (if a % 2 == 1 || b % 2 == 1 then 1 else 0) + 2 * Or(a / 2, b / 2)
  }

  /** Left shift of a 32-bit capaddr_t. */
  function Shl(x: nat, k: nat): (r: nat)
    decreases k
  {
    if k == 0 then x % WORD else Shl(2 * x % WORD, k - 1)
  }

  /** Right shift. */
  function Shr(x: nat, k: nat): (r: nat) {
    if k == 0 then x else Shr(x / 2, k - 1)
  }

  function ValidBits(cap: CapRef): (n: nat) {
    var sum := (cap.cnode.addressBits + cap.cnode.guardSize + cap.cnode.sizeBits) % BYTE;
    if sum > CPTR_BITS then sum % CPTR_BITS else sum
  }

  function CapAddr(cap: CapRef): (a: nat)
    requires ValidBits(cap) <= CPTR_BITS
  {
    var shifted := Shl(cap.slot, CPTR_BITS - ValidBits(cap));
    if cap.cnode.addressBits == CPTR_BITS then shifted else Or(cap.cnode.address, shifted)
  }

  function CnodeAddr(cap: CapRef): (a: nat)
    requires cap.cnode.addressBits <= CPTR_BITS
  {
    Shr(cap.cnode.address, CPTR_BITS - cap.cnode.addressBits)
  }

  function BuildCnodeRef(cap: CapRef, sizeBits: nat): (cnode: CnodeRef)
    requires ValidBits(cap) <= CPTR_BITS
  {
    var bits := cap.cnode.addressBits + cap.cnode.guardSize + cap.cnode.sizeBits;
    CnodeRef(CapAddr(cap), bits % CPTR_BITS, sizeBits, 0)
  }

  // ---- paths -------------------------------------------------------------------------------------

  /** One step: a slot in a CNode of 2^width slots. */
  datatype Hop = Hop(slot: nat, width: nat)

  function Width(path: seq<Hop>): (n: nat) {
    if path == [] then 0 else Width(path[..|path| - 1]) + path[|path| - 1].width
  }

  /** The slots of the path, one after the other, as one number. */
  function Concat(path: seq<Hop>): (c: nat) {
    if path == [] then 0
    else Concat(path[..|path| - 1]) * Pow2(path[|path| - 1].width) + path[|path| - 1].slot
  }

  /** A path from the root: CNodes are non-empty and slots in range, and addresses stay within 32 bits,
      below that at every CNode on the way. */
  predicate ValidPath(path: seq<Hop>) {
    && path != [] && path[0].width < CPTR_BITS
    && (forall i :: 0 <= i < |path| ==> 0 < path[i].width && path[i].slot < Pow2(path[i].width))
    && (forall i :: 0 <= i < |path| ==> Width(path[..i]) < CPTR_BITS)
    && Width(path) <= CPTR_BITS
  }

  function Root(sizeBits: nat): (cnode: CnodeRef) {
    CnodeRef(0, CPTR_BITS, sizeBits, 0)
  }

  lemma PrefixValid(path: seq<Hop>)
    requires ValidPath(path) && |path| > 1
    ensures ValidPath(path[..|path| - 1]) && 0 < Width(path[..|path| - 1]) < CPTR_BITS
  {
    var front := path[..|path| - 1];
    assert forall i :: 0 <= i < |front| ==> front[..i] == path[..i];
    assert front[|front| - 1].width > 0;
  }

  // ---- arithmetic ----------------------------------------------------------------------------------

  /** Or-ing into zero bits is adding. */
  lemma {:induction false} OrDisjoint(a: nat, k: nat, y: nat)
    requires y < Pow2(k)
    ensures Or(a * Pow2(k), y) == a * Pow2(k) + y
    decreases k
  {
    if k == 0 {
      assert a * Pow2(k) == a;
      OrZero(a);
    } else {
      var h := a * Pow2(k - 1);
      assert a * Pow2(k) == 2 * h;
      OrDisjoint(a, k - 1, y / 2);
      OrStep(h, y);
    }
  }

  lemma OrStep(h: nat, y: nat)
    ensures Or(2 * h, y) == y % 2 + 2 * Or(h, y / 2)
  {
    assert (2 * h) % 2 == 0 && (2 * h) / 2 == h;
  }

  lemma {:induction false} OrZero(a: nat)
    ensures Or(a, 0) == a
  {
    if a > 0 {
      OrZero(a / 2);
    }
  }

  lemma WordIsPow2()
    ensures Pow2(CPTR_BITS) == WORD
  {
    assert Pow2(8) == 0x100;
    assert Pow2(16) == 0x1_0000;
    assert Pow2(24) == 0x100_0000;
  }

  /** A shift that loses nothing multiplies. */
  lemma {:induction false} ShlExact(x: nat, k: nat, v: nat)
    requires v == x * Pow2(k) && v < WORD
    ensures Shl(x, k) == v
    decreases k
  {
    if k > 0 {
      DoubleBelow(x, Pow2(k - 1), v);
      ShlExact(2 * x, k - 1, v);
    }
  }

  lemma DoubleBelow(x: nat, p: nat, v: nat)
    requires v == x * (2 * p) && v < WORD && p > 0
    ensures v == (2 * x) * p && 2 * x % WORD == 2 * x
  {
    Associate(x, 2, p);
    AtLeastOnce(p, 2 * x);
  }

  /** A field of w bits shifted to just below the top v bits. */
  lemma ShiftedField(slot: nat, v: nat, w: nat, k: nat)
    requires slot < Pow2(w) && v + w + k == CPTR_BITS
    ensures Shl(slot, k) == slot * Pow2(k) < Pow2(w + k) <= Pow2(CPTR_BITS)
  {
    Pow2Sum(w, k);
    MulLess(slot, Pow2(w), Pow2(k));
    if v > 0 {
      Pow2Grows(w + k, CPTR_BITS);
    }
    WordIsPow2();
    ShlExact(slot, k, slot * Pow2(k));
  }

  /** The new field or-ed below an address whose top v bits are in use. */
  lemma FieldOred(c: nat, slot: nat, v: nat, w: nat, k: nat)
    requires slot < Pow2(w) && v + w + k == CPTR_BITS
    ensures Or(c * Pow2(w + k), Shl(slot, k)) == (c * Pow2(w) + slot) * Pow2(k)
  {
    ShiftedField(slot, v, w, k);
    OrDisjoint(c, w + k, slot * Pow2(k));
    Pow2Sum(w, k);
    Associate(c, Pow2(w), Pow2(k));
    DistributeSum(c * Pow2(w), slot, Pow2(k));
  }

  // ---- addresses -----------------------------------------------------------------------------------

  /** The bits used so far, and the address: the slots of the path, left-aligned in 32 bits. */
  predicate Addressed(cap: CapRef, path: seq<Hop>) {
    && Width(path) <= CPTR_BITS
    && ValidBits(cap) == Width(path)
    && CapAddr(cap) == Concat(path) * Pow2(CPTR_BITS - Width(path))
    && cap.cnode.addressBits + cap.cnode.guardSize + cap.cnode.sizeBits
       == Width(path) + if |path| == 1 then CPTR_BITS else 0
  }

  lemma RootAddressed(hop: Hop)
    requires 0 < hop.width < CPTR_BITS && hop.slot < Pow2(hop.width)
    ensures Addressed(CapRef(Root(hop.width), hop.slot), [hop])
  {
    ConcatSnoc([], hop);
    assert [] + [hop] == [hop];
    ShiftedField(hop.slot, 0, hop.width, CPTR_BITS - hop.width);
  }

  lemma SlotBits(address: nat, v: nat, w: nat, slot: nat)
    requires v + w <= CPTR_BITS
    ensures ValidBits(CapRef(CnodeRef(address, v, w, 0), slot)) == v + w
  {
  }

  /** A slot of a CNode whose address has v valid bits. */
  lemma SlotAddr(c: nat, v: nat, w: nat, slot: nat)
    requires 0 < v < CPTR_BITS && 0 < w && v + w <= CPTR_BITS && slot < Pow2(w)
    ensures var cap := CapRef(CnodeRef(c * Pow2(CPTR_BITS - v), v, w, 0), slot);
            && ValidBits(cap) == v + w
            && CapAddr(cap) == (c * Pow2(w) + slot) * Pow2(CPTR_BITS - (v + w))
  {
    var k := CPTR_BITS - (v + w);
    assert w + k == CPTR_BITS - v;
    SlotBits(c * Pow2(w + k), v, w, slot);
    FieldOred(c, slot, v, w, k);
  }

  lemma ConcatSnoc(front: seq<Hop>, hop: Hop)
    ensures Width(front + [hop]) == Width(front) + hop.width
    ensures Concat(front + [hop]) == Concat(front) * Pow2(hop.width) + hop.slot
  {
    assert (front + [hop])[..|front|] == front;
  }

  lemma NextAddressed(parent: CapRef, front: seq<Hop>, hop: Hop)
    requires front != [] && Addressed(parent, front) && 0 < Width(front) < CPTR_BITS
    requires 0 < hop.width && hop.slot < Pow2(hop.width) && Width(front) + hop.width <= CPTR_BITS
    ensures Addressed(CapRef(BuildCnodeRef(parent, hop.width), hop.slot), front + [hop])
  {
    ConcatSnoc(front, hop);
    BuiltRef(parent, front, hop.width);
    SlotAddr(Concat(front), Width(front), hop.width, hop.slot);
  }

  lemma BuiltRef(parent: CapRef, front: seq<Hop>, w: nat)
    requires front != [] && Addressed(parent, front) && 0 < Width(front) < CPTR_BITS
    ensures BuildCnodeRef(parent, w) == CnodeRef(Concat(front) * Pow2(CPTR_BITS - Width(front)), Width(front), w, 0)
  {
  }

  /** The capability at the end of a path, by get_cap_addr and build_cnoderef at every hop. Its
      address is the concatenation of the path's slots, left-aligned. */
  function CapAt(path: seq<Hop>): (cap: CapRef)
    requires ValidPath(path)
    ensures Addressed(cap, path)
  {
    var n := |path| - 1;
    if n == 0 then
      RootAddressed(path[0]);
      assert path == [path[0]];
      CapRef(Root(path[0].width), path[0].slot)
    else
      PrefixValid(path);
      NextAddressed(CapAt(path[..n]), path[..n], path[n]);
      assert path == path[..n] + [path[n]];
      CapRef(BuildCnodeRef(CapAt(path[..n]), path[n].width), path[n].slot)
  }

  predicate SameShape(p: seq<Hop>, q: seq<Hop>) {
    |p| == |q| && forall i :: 0 <= i < |p| ==> p[i].width == q[i].width
  }

  lemma {:induction false} SameShapeWidth(p: seq<Hop>, q: seq<Hop>)
    requires SameShape(p, q)
    ensures Width(p) == Width(q)
  {
    if p != [] {
      SameShapeWidth(p[..|p| - 1], q[..|q| - 1]);
    }
  }

  lemma DigitsUnique(a: nat, s: nat, b: nat, t: nat, p: nat)
    requires s < p && t < p && a * p + s == b * p + t
    ensures a == b && s == t
  {
    if a < b {
      MulLess(a, b, p);
    } else if b < a {
      MulLess(b, a, p);
    }
  }

  lemma {:induction false} ConcatInjective(p: seq<Hop>, q: seq<Hop>)
    requires SameShape(p, q) && Concat(p) == Concat(q)
    requires forall i :: 0 <= i < |p| ==> p[i].slot < Pow2(p[i].width) && q[i].slot < Pow2(q[i].width)
    ensures p == q
  {
    if p != [] {
      var n := |p| - 1;
      DigitsUnique(Concat(p[..n]), p[n].slot, Concat(q[..n]), q[n].slot, Pow2(p[n].width));
      ConcatInjective(p[..n], q[..n]);
      assert p == p[..n] + [p[n]] && q == q[..n] + [q[n]];
    }
  }

  /** Two capabilities at paths of the same shape have the same address only if the paths are the same. */
  lemma AddressesDistinct(p: seq<Hop>, q: seq<Hop>)
    requires ValidPath(p) && ValidPath(q) && SameShape(p, q)
    ensures CapAddr(CapAt(p)) == CapAddr(CapAt(q)) <==> p == q
  {
    SameShapeWidth(p, q);
    if CapAddr(CapAt(p)) == CapAddr(CapAt(q)) {
      var unit := Pow2(CPTR_BITS - Width(p));
      DigitsUnique(Concat(p), 0, Concat(q), 0, unit);
      ConcatInjective(p, q);
    }
  }

  lemma {:induction false} ShrOfMultiple(c: nat, k: nat)
    ensures Shr(c * Pow2(k), k) == c
    decreases k
  {
    if k > 0 {
      var h := c * Pow2(k - 1);
      assert c * Pow2(k) == 2 * h;
      assert (2 * h) / 2 == h;
      ShrOfMultiple(c, k - 1);
    } else {
      assert c * Pow2(0) == c;
    }
  }

  /** get_cnode_addr of a capability in a CNode reached by a path is that path's valid bits, moved to the
      bottom - the parent capability's address shifted right by its unused bits. */
  lemma CnodeAddrIsParent(path: seq<Hop>)
    requires ValidPath(path) && |path| > 1
    ensures var front := path[..|path| - 1];
            && ValidPath(front)
            && CnodeAddr(CapAt(path)) == Concat(front)
            && CnodeAddr(CapAt(path)) == Shr(CapAddr(CapAt(front)), CPTR_BITS - ValidBits(CapAt(front)))
  {
    PrefixValid(path);
    var front := path[..|path| - 1];
    assert CapAt(path).cnode.address == CapAddr(CapAt(front));
    assert CapAt(path).cnode.addressBits == Width(front);
    ShrOfMultiple(Concat(front), CPTR_BITS - Width(front));
  }

  /** A root CNode of 2^32 slots is the one shape that fits in 32 bits and yet fails: its valid bits
      come out as zero. */
  lemma RootValidBitsIff(width: nat, slot: nat)
    requires 0 < width <= CPTR_BITS
    ensures ValidBits(CapRef(Root(width), slot)) == width <==> width < CPTR_BITS
  {
  }
}
