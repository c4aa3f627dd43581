/** Two memory accesses in one state, and when their order matters. */
module Accesses {
  import opened Opcodes
  import opened Mir
  import opened Machine

  /** What a load reads is kept. */
  predicate Lands(m: MicroOp) {
    m.Load? ==> m.dst.Some? && m.dst.value != ZERO
  }

  ghost predicate ShareNoByte(x: MicroOp, y: MicroOp, s: State)
    requires !x.Compute? && !y.Compute?
  {
    forall a :: !(Touches(x, s, a) && Touches(y, s, a))
  }

  predicate SameStore(x: MicroOp, y: MicroOp, s: State) {
    x.Store? && y.Store? && x.op == y.op && Address(x, s) == Address(y, s) && ReadSrc(s, x.data) == ReadSrc(s, y.data)
  }

  ghost predicate Exchangeable(x: MicroOp, y: MicroOp, s: State)
    requires !x.Compute? && !y.Compute?
  {
    (x.Load? && y.Load?) || ShareNoByte(x, y, s) || SameStore(x, y, s)
  }

  ghost predicate Commute(isa: Isa, x: MicroOp, y: MicroOp, s: State) {
    Exec(isa, y, Exec(isa, x, s)) == Exec(isa, x, Exec(isa, y, s))
  }

  /** An instruction set that stores c everywhere and, when it loads, tells whether byte i is c. */
  function ProbeIsa(i: nat, c: int): Isa {
    Isa((op, args) => 0, (op, v, k) => c, (op, bytes) => if i < |bytes| && bytes[i] == c then 1 else 0)
  }

  lemma {:induction false} ProbeLoads(i: nat, c: int, y: MicroOp, s: State)
    requires y.Load? && Lands(y) && i < Width(y.op)
    ensures ReadReg(Exec(ProbeIsa(i, c), y, s), y.dst.value) == if ReadByte(s, Address(y, s) + i) == c then 1 else 0
  {
    var bytes := ReadBytes(s, Address(y, s), Width(y.op));
    assert bytes[i] == ReadByte(s, Address(y, s) + i);
  }

  lemma {:induction false} StoreKeeps(isa: Isa, x: MicroOp, s: State)
    requires x.Store?
    ensures Exec(isa, x, s).regs == s.regs
    ensures forall a :: ReadByte(Exec(isa, x, s), a)
                     == if Touches(x, s, a) then isa.byteOf(x.op, ReadSrc(s, x.data), a - Address(x, s)) else ReadByte(s, a)
  {
  }

  lemma {:induction false} SameRegs(m: MicroOp, s: State, s': State)
    requires !m.Compute? && s'.regs == s.regs
    ensures Address(m, s') == Address(m, s) && (m.Store? ==> ReadSrc(s', m.data) == ReadSrc(s, m.data))
  {
  }

  lemma {:induction false} LoadAfterStore(x: MicroOp, y: MicroOp, s: State, i: nat, c: int)
    requires x.Store? && y.Load? && Lands(y) && i < Width(y.op) && Touches(x, s, Address(y, s) + i)
    ensures ReadReg(Exec(ProbeIsa(i, c), y, Exec(ProbeIsa(i, c), x, s)), y.dst.value) == 1
  {
    var s1 := Exec(ProbeIsa(i, c), x, s);
    StoreKeeps(ProbeIsa(i, c), x, s);
    SameRegs(y, s, s1);
    ProbeLoads(i, c, y, s1);
  }

  lemma {:induction false} StoreAfterLoad(x: MicroOp, y: MicroOp, s: State, i: nat, c: int)
    requires x.Store? && y.Load? && Lands(y) && i < Width(y.op) && ReadByte(s, Address(y, s) + i) != c
    ensures ReadReg(Exec(ProbeIsa(i, c), x, Exec(ProbeIsa(i, c), y, s)), y.dst.value) == 0
  {
    ProbeLoads(i, c, y, s);
    StoreKeeps(ProbeIsa(i, c), x, Exec(ProbeIsa(i, c), y, s));
  }

  lemma {:induction false} RegTells(isa: Isa, x: MicroOp, y: MicroOp, s: State, k: RegKey)
    requires ReadReg(Exec(isa, y, Exec(isa, x, s)), k) != ReadReg(Exec(isa, x, Exec(isa, y, s)), k)
    ensures !Commute(isa, x, y, s) && !Commute(isa, y, x, s)
  {
  }

  /** A loaded byte that is also stored: some instruction set tells the two orders apart. */
  lemma {:induction false} LoadTells(x: MicroOp, y: MicroOp, s: State, i: nat, c: int)
    requires x.Store? && y.Load? && Lands(y) && i < Width(y.op)
    requires Touches(x, s, Address(y, s) + i) && ReadByte(s, Address(y, s) + i) != c
    ensures !Commute(ProbeIsa(i, c), x, y, s) && !Commute(ProbeIsa(i, c), y, x, s)
  {
    LoadAfterStore(x, y, s, i, c);
    StoreAfterLoad(x, y, s, i, c);
    RegTells(ProbeIsa(i, c), x, y, s, y.dst.value);
  }

  /** Some instruction set marks the bytes of one store, by its opcode, its value and its place. */
  lemma {:induction false} MarkTells(op0: Opcode, v0: int, i0: int, op: Opcode, v: int, i: int) returns (isa: Isa)
    requires !(op == op0 && v == v0 && i == i0)
    ensures isa.byteOf(op0, v0, i0) != isa.byteOf(op, v, i)
  {
    var byteOf := (o, w, k) => if o == op0 && w == v0 && k == i0 then 1 else 0;
    assert byteOf(op0, v0, i0) == 1 && byteOf(op, v, i) == 0;
    isa := Isa((o, args) => 0, byteOf, (o, bytes) => 0);
  }

  lemma {:induction false} StoresTell(isa: Isa, x: MicroOp, y: MicroOp, s: State, a: int)
    requires x.Store? && y.Store? && Touches(x, s, a) && Touches(y, s, a)
    requires isa.byteOf(x.op, ReadSrc(s, x.data), a - Address(x, s)) != isa.byteOf(y.op, ReadSrc(s, y.data), a - Address(y, s))
    ensures !Commute(isa, x, y, s)
  {
    LastStoreWins(isa, x, y, s, a);
    LastStoreWins(isa, y, x, s, a);
  }

  lemma {:induction false} LastStoreWins(isa: Isa, x: MicroOp, y: MicroOp, s: State, a: int)
    requires x.Store? && y.Store? && Touches(y, s, a)
    ensures ReadByte(Exec(isa, y, Exec(isa, x, s)), a) == isa.byteOf(y.op, ReadSrc(s, y.data), a - Address(y, s))
  {
    var s1 := Exec(isa, x, s);
    StoreKeeps(isa, x, s);
    SameRegs(y, s, s1);
    StoreKeeps(isa, y, s1);
  }

  lemma {:induction false} SameStoresCommute(isa: Isa, x: MicroOp, y: MicroOp, s: State)
    requires SameStore(x, y, s)
    ensures Commute(isa, x, y, s)
  {
    assert EffectOf(isa, x, s) == EffectOf(isa, y, s);
    var s1 := Exec(isa, x, s);
    StoreKeeps(isa, x, s);
    SameRegs(x, s, s1);
    SameRegs(y, s, s1);
    assert EffectOf(isa, x, s1) == EffectOf(isa, y, s1);
  }

  /**
   * Two memory accesses without a register conflict may be exchanged in a state, under every instruction set,
   * exactly when both load, when they share no byte, or when both store the same.
   */
  lemma {:induction false} ExchangeRightExactlyWhen(x: MicroOp, y: MicroOp, s: State)
    requires !x.Compute? && !y.Compute? && RegIndependent(x, y) && Lands(x) && Lands(y)
    ensures (forall isa :: Commute(isa, x, y, s)) <==> Exchangeable(x, y, s)
  {
    if Exchangeable(x, y, s) {
      forall isa: Isa
        ensures Commute(isa, x, y, s)
      {
        if SameStore(x, y, s) {
          SameStoresCommute(isa, x, y, s);
        } else {
          IndependentCommute(isa, x, y, s);
        }
      }
    } else {
      OrdersDiffer(x, y, s);
    }
  }

  lemma {:induction false} LoadDiffers(x: MicroOp, y: MicroOp, s: State, a: int)
    requires x.Store? && y.Load? && Lands(y) && Touches(x, s, a) && Touches(y, s, a)
    ensures exists isa :: !Commute(isa, x, y, s) && !Commute(isa, y, x, s)
  {
    LoadTells(x, y, s, a - Address(y, s), ReadByte(s, a) + 1);
  }

  lemma {:induction false} StoresDiffer(x: MicroOp, y: MicroOp, s: State, a: int)
    requires x.Store? && y.Store? && Touches(x, s, a) && Touches(y, s, a) && !SameStore(x, y, s)
    ensures exists isa :: !Commute(isa, x, y, s)
  {
    var vx, vy, ix, iy := ReadSrc(s, x.data), ReadSrc(s, y.data), a - Address(x, s), a - Address(y, s);
    assert !(x.op == y.op && vx == vy && ix == iy);
    var isa := MarkTells(x.op, vx, ix, y.op, vy, iy);
    StoresTell(isa, x, y, s, a);
  }

  lemma {:induction false} OrdersDiffer(x: MicroOp, y: MicroOp, s: State)
    requires !x.Compute? && !y.Compute? && Lands(x) && Lands(y) && !Exchangeable(x, y, s)
    ensures exists isa :: !Commute(isa, x, y, s)
  {
    var a :| Touches(x, s, a) && Touches(y, s, a);
    if x.Store? && y.Load? {
      LoadDiffers(x, y, s, a);
    } else if x.Load? {
      LoadDiffers(y, x, s, a);
    } else {
      StoresDiffer(x, y, s, a);
    }
  }
}
