/** Sets of virtual registers as 64-bit masks. */
module LiveSets {

  predicate Bit(bits: bv64, i: bv7)
    requires i < 64
  {
    (bits >> i) & 1 == 1
  }

  /** Bit i of the mask is set when virtual register i is in the set. */
  datatype LiveSet = LiveSet(bits: bv64) {
    predicate Contains(idx: nat) {
      idx < 64 && (bits >> idx) & 1 == 1
    }
  }

  const EMPTY: LiveSet := LiveSet(0)

  function Insert(s: LiveSet, idx: nat): (r: LiveSet)
    requires idx < 64
    ensures forall j :: r.Contains(j) == (j == idx || s.Contains(j))
  {
    InsertIsAdd(s.bits, idx);
    LiveSet(s.bits | (1 << idx))
  }

  function Union(s: LiveSet, t: LiveSet): (r: LiveSet)
    ensures forall j :: r.Contains(j) == (s.Contains(j) || t.Contains(j))
  {
    UnionIsUnion(s.bits, t.bits);
    LiveSet(s.bits | t.bits)
  }

  function Difference(s: LiveSet, t: LiveSet): (r: LiveSet)
    ensures forall j :: r.Contains(j) == (s.Contains(j) && !t.Contains(j))
  {
    DifferenceIsDifference(s.bits, t.bits);
    LiveSet(s.bits & !t.bits)
  }

  // ----- Bit by bit -----

  lemma {:induction false} IndexFits(i: nat, j: nat)
    requires i < 64 && j < 64
    ensures (i as bv7) < 64 && (i as bv7 == j as bv7 ==> i == j)
  {
  }

  lemma {:induction false} ContainsIsBit(bits: bv64, i: nat)
    requires i < 64 && (i as bv7) < 64
    ensures LiveSet(bits).Contains(i) == Bit(bits, i as bv7)
  {
  }

  lemma {:induction false} InsertBit(bits: bv64, i: bv7, j: bv7)
    requires i < 64 && j < 64
    ensures Bit(bits | (1 << i), j) == (i == j || Bit(bits, j))
  {
  }

  lemma {:induction false} UnionBit(a: bv64, b: bv64, j: bv7)
    requires j < 64
    ensures Bit(a | b, j) == (Bit(a, j) || Bit(b, j))
  {
  }

  lemma {:induction false} DifferenceBit(a: bv64, b: bv64, j: bv7)
    requires j < 64
    ensures Bit(a & !b, j) == (Bit(a, j) && !Bit(b, j))
  {
  }

  lemma {:induction false} ShiftByIndex(i: nat)
    requires i < 64 && (i as bv7) < 64
    ensures (1 as bv64 << i) == (1 as bv64 << (i as bv7))
  {
  }

  lemma {:induction false} InsertIsAdd(bits: bv64, i: nat)
    requires i < 64
    ensures forall j :: LiveSet(bits | (1 << i)).Contains(j) == (j == i || LiveSet(bits).Contains(j))
  {
    forall j: nat | j < 64
      ensures LiveSet(bits | (1 << i)).Contains(j) == (j == i || LiveSet(bits).Contains(j))
    {
      InsertAt(bits, i, j);
    }
  }

  lemma {:induction false} InsertAt(bits: bv64, i: nat, j: nat)
    requires i < 64 && j < 64
    ensures LiveSet(bits | (1 << i)).Contains(j) == (j == i || LiveSet(bits).Contains(j))
  {
    IndexFits(i, j);
    IndexFits(j, i);
    ShiftByIndex(i);
    ContainsIsBit(bits, j);
    ContainsIsBit(bits | (1 << i), j);
    InsertBit(bits, i as bv7, j as bv7);
  }

  lemma {:induction false} UnionIsUnion(a: bv64, b: bv64)
    ensures forall j :: LiveSet(a | b).Contains(j) == (LiveSet(a).Contains(j) || LiveSet(b).Contains(j))
  {
    forall j: nat | j < 64
      ensures LiveSet(a | b).Contains(j) == (LiveSet(a).Contains(j) || LiveSet(b).Contains(j))
    {
      IndexFits(j, j);
      ContainsIsBit(a, j);
      ContainsIsBit(b, j);
      ContainsIsBit(a | b, j);
      UnionBit(a, b, j as bv7);
    }
  }

  lemma {:induction false} DifferenceIsDifference(a: bv64, b: bv64)
    ensures forall j :: LiveSet(a & !b).Contains(j) == (LiveSet(a).Contains(j) && !LiveSet(b).Contains(j))
  {
    forall j: nat | j < 64
      ensures LiveSet(a & !b).Contains(j) == (LiveSet(a).Contains(j) && !LiveSet(b).Contains(j))
    {
      IndexFits(j, j);
      ContainsIsBit(a, j);
      ContainsIsBit(b, j);
      ContainsIsBit(a & !b, j);
      DifferenceBit(a, b, j as bv7);
    }
  }

  lemma {:induction false} EmptyHasNothing()
    ensures forall j :: !EMPTY.Contains(j)
  {
    forall j: nat | j < 64
      ensures !EMPTY.Contains(j)
    {
      IndexFits(j, j);
      ContainsIsBit(0, j);
      EmptyBit(j as bv7);
    }
  }

  lemma {:induction false} EmptyBit(j: bv7)
    requires j < 64
    ensures !Bit(0, j)
  {
  }

  // ----- Masks with the same members are equal -----

  /** A mask other than zero has a bit: halve the search until one bit is left. */
  lemma {:induction false} FindBit(x: bv64) returns (i: bv7)
    requires x != 0
    ensures i < 64 && Bit(x, i)
  {
    var y := x;
    i := 0;
    if y & 0xFFFF_FFFF == 0 { y, i := y >> 32, i + 32; }
    if y & 0xFFFF == 0 { y, i := y >> 16, i + 16; }
    if y & 0xFF == 0 { y, i := y >> 8, i + 8; }
    if y & 0xF == 0 { y, i := y >> 4, i + 4; }
    if y & 0x3 == 0 { y, i := y >> 2, i + 2; }
    if y & 0x1 == 0 { y, i := y >> 1, i + 1; }
  }

  lemma {:induction false} IndexRoundTrip(i: bv7)
    requires i < 64
    ensures (i as nat) < 64 && (i as nat) as bv7 == i
  {
  }

  lemma {:induction false} DifferentBit(a: bv64, b: bv64, i: bv7)
    requires i < 64 && Bit(a ^ b, i)
    ensures Bit(a, i) != Bit(b, i)
  {
  }

  lemma {:induction false} DifferentMasks(a: bv64, b: bv64)
    requires a != b
    ensures a ^ b != 0
  {
  }

  lemma {:induction false} DifferentAt(a: LiveSet, b: LiveSet, i: bv7, j: nat)
    requires i < 64 && j < 64 && j as bv7 == i && Bit(a.bits, i) != Bit(b.bits, i)
    ensures a.Contains(j) != b.Contains(j)
  {
    ContainsIsBit(a.bits, j);
    ContainsIsBit(b.bits, j);
  }

  lemma {:induction false} DifferentIndex(a: bv64, b: bv64) returns (i: bv7)
    requires a != b
    ensures i < 64 && Bit(a, i) != Bit(b, i)
  {
    DifferentMasks(a, b);
    i := FindBit(a ^ b);
    DifferentBit(a, b, i);
  }

  lemma {:induction false} IndexOf(i: bv7) returns (j: nat)
    requires i < 64
    ensures j < 64 && j as bv7 == i
  {
    IndexRoundTrip(i);
    j := i as nat;
  }

  /** Different masks are different sets, so comparing masks compares sets. */
  lemma {:induction false} DifferentMember(a: LiveSet, b: LiveSet) returns (j: nat)
    requires a != b
    ensures a.Contains(j) != b.Contains(j)
  {
    var i := DifferentIndex(a.bits, b.bits);
    j := IndexOf(i);
    DifferentAt(a, b, i, j);
  }
}
