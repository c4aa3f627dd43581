/** Spills and reloads keep every live virtual register's value at hand. */
module SpillMeaning {
  import opened Opcodes
  import opened Mir
  import opened Machine
  import opened Regs
  import opened RegAlloc

  /** The word x, byte by byte. */
  ghost predicate StoredAt(isa: Isa, s: State, slot: int, x: int) {
    ReadBytes(s, slot, 8) == isa.WordBytes(x)
  }

  /** Where the allocator keeps the value x of a virtual register: in its register, else in its slot. */
  ghost predicate AtHome(isa: Isa, a: AllocState, s: State, k: RegKey, x: int) {
    && k.reg.VReg?
    && if k.reg.v in a.regOf
       then ReadReg(s, RegKey(k.cls, PReg(a.regOf[k.reg.v]))) == x
       else k.cls == Gpr && k.reg.v in a.slots && StoredAt(isa, s, a.slots[k.reg.v], x)
  }

  /** Physical registers the allocator never hands out. */
  predicate Fixed(k: RegKey) {
    k.reg.PReg? && !Allocatable(k.reg.p)
  }

  predicate InSpillArea(base: int, slots: nat, x: int) {
    base <= x < base + SPILL_SLOT_BYTES * slots
  }

  /** The virtual-register machine sv and the physical machine sp agree on everything that still matters. */
  ghost predicate Related(isa: Isa, a: AllocState, area: nat, live: set<RegKey>, sv: State, sp: State) {
    && a.nextSlot <= area
    && (forall k :: k in live ==> AtHome(isa, a, sp, k, ReadReg(sv, k)))
    && (forall k :: Fixed(k) ==> ReadReg(sp, k) == ReadReg(sv, k))
    && (forall x :: !InSpillArea(a.base, area, x) ==> ReadByte(sp, x) == ReadByte(sv, x))
  }

  lemma {:induction false} ExecSpill(isa: Isa, slot: int, preg: nat, s: State)
    ensures var s' := Exec(isa, Decode(SpillCode(slot, preg)), s);
            && s'.regs == s.regs
            && StoredAt(isa, s', slot, ReadReg(s, RegKey(Gpr, PReg(preg))))
            && forall x :: !(slot <= x < slot + 8) ==> ReadByte(s', x) == ReadByte(s, x)
  {
    var x := ReadReg(s, RegKey(Gpr, PReg(preg)));
    StoreEffect(isa, slot, preg, s);
    StoredAfter(isa, slot, x, s);
  }

  lemma {:induction false} StoreEffect(isa: Isa, slot: int, preg: nat, s: State)
    ensures Exec(isa, Decode(SpillCode(slot, preg)), s) ==
              State(s.regs, s.mem + StoreBytes(isa, StoreD, ReadReg(s, RegKey(Gpr, PReg(preg))), slot, 8))
  {
    var m := Decode(SpillCode(slot, preg));
    assert m == Store(StoreD, ZERO, slot, FromReg(RegKey(Gpr, PReg(preg))));
    assert s.regs + map[] == s.regs;
  }

  lemma {:induction false} StoredAfter(isa: Isa, slot: int, x: int, s: State)
    ensures var s' := State(s.regs, s.mem + StoreBytes(isa, StoreD, x, slot, 8));
            && StoredAt(isa, s', slot, x)
            && forall a :: !(slot <= a < slot + 8) ==> ReadByte(s', a) == ReadByte(s, a)
  {
    var s' := State(s.regs, s.mem + StoreBytes(isa, StoreD, x, slot, 8));
    var read, word := ReadBytes(s', slot, 8), isa.WordBytes(x);
    forall i | 0 <= i < 8
      ensures read[i] == word[i]
    {
      StoredByte(isa, slot, x, i);
      assert read[i] == ReadByte(s', slot + i);
    }
    assert read == word;
  }

  lemma {:induction false} StoredByte(isa: Isa, slot: int, x: int, i: nat)
    requires i < 8
    ensures var bytes := StoreBytes(isa, StoreD, x, slot, 8); slot + i in bytes && bytes[slot + i] == isa.WordBytes(x)[i]
  {
  }

  lemma {:induction false} ExecReload(isa: Isa, slot: int, preg: nat, x: int, s: State)
    requires isa.DoubleWordsRoundTrip() && StoredAt(isa, s, slot, x) && preg != ZERO_REG
    ensures var s' := Exec(isa, Decode(ReloadCode(slot, preg)), s);
            s' == State(s.regs[RegKey(Gpr, PReg(preg)) := x], s.mem)
  {
    var m := Decode(ReloadCode(slot, preg));
    assert m == Load(LoadD, Some(RegKey(Gpr, PReg(preg))), ZERO, slot);
    assert isa.join(LoadD, isa.WordBytes(x)) == x;
  }

  /** A reload of any slot changes no register but its own. */
  lemma {:induction false} ExecReloadFrame(isa: Isa, slot: int, preg: nat, s: State)
    ensures var s' := Exec(isa, Decode(ReloadCode(slot, preg)), s);
            && s'.mem == s.mem
            && forall k :: k != RegKey(Gpr, PReg(preg)) ==> ReadReg(s', k) == ReadReg(s, k)
  {
    var m := Decode(ReloadCode(slot, preg));
    ExecFrame(isa, m, s);
    assert EffectOf(isa, m, s).mem == map[];
  }

  lemma {:induction false} StoredFrame(isa: Isa, s: State, s': State, slot: int, x: int)
    requires StoredAt(isa, s, slot, x)
    requires forall y :: slot <= y < slot + 8 ==> ReadByte(s', y) == ReadByte(s, y)
    ensures StoredAt(isa, s', slot, x)
  {
    assert ReadBytes(s', slot, 8) == ReadBytes(s, slot, 8);
  }

  ghost predicate NoPredicateSpilled(a: AllocState, live: set<RegKey>) {
    forall k :: k in live && k.cls == Pred && k.reg.VReg? ==> k.reg.v !in a.slots
  }

  /** a' is a with the victim moved to its slot; sp' is sp after the store. */
  ghost predicate Moved(isa: Isa, a: AllocState, a': AllocState, victim: nat, sp: State, sp': State) {
    && SlotsApart(a') && a'.base == a.base
    && victim in a.regOf && a'.regOf == a.regOf - {victim}
    && victim in a'.slots && (forall u :: u in a.slots ==> u in a'.slots && a'.slots[u] == a.slots[u])
    && sp'.regs == sp.regs
    && StoredAt(isa, sp', a'.slots[victim], ReadReg(sp, RegKey(Gpr, PReg(a.regOf[victim]))))
    && forall x :: !(a'.slots[victim] <= x < a'.slots[victim] + 8) ==> ReadByte(sp', x) == ReadByte(sp, x)
  }

  lemma {:induction false} MovedKeepsHome(isa: Isa, a: AllocState, a': AllocState, victim: nat, sp: State, sp': State, k: RegKey, x: int)
    requires Moved(isa, a, a', victim, sp, sp') && AtHome(isa, a, sp, k, x)
    requires k.cls == Pred ==> k.reg.v !in a'.slots
    ensures AtHome(isa, a', sp', k, x)
  {
    if k.reg.v !in a.regOf {
      SlotsDisjoint(a', k.reg.v, victim);
      StoredFrame(isa, sp, sp', a.slots[k.reg.v], x);
    }
  }

  lemma {:induction false} MovedKeepsRelated(isa: Isa, a: AllocState, a': AllocState, victim: nat,
                          area: nat, live: set<RegKey>, sv: State, sp: State, sp': State)
    requires Moved(isa, a, a', victim, sp, sp') && a'.nextSlot <= area && NoPredicateSpilled(a', live)
    requires Related(isa, a, area, live, sv, sp)
    ensures Related(isa, a', area, live, sv, sp')
  {
    forall k | k in live
      ensures AtHome(isa, a', sp', k, ReadReg(sv, k))
    {
      MovedKeepsHome(isa, a, a', victim, sp, sp', k, ReadReg(sv, k));
    }
    SlotInArea(a', victim, area);
  }

  lemma {:induction false} EvictionMoves(isa: Isa, a: AllocState, protected: set<nat>, victim: nat, sp: State)
    requires SlotsApart(a) && AllocPreg(a, protected, victim).Some? && a.free == []
    ensures var g := AllocPreg(a, protected, victim).value;
            |g.code| == 1 && Moved(isa, a, g.state, victim, sp, Exec(isa, Decode(g.code[0]), sp))
  {
    var g := AllocPreg(a, protected, victim).value;
    ExecSpill(isa, g.state.slots[victim], g.preg, sp);
    WithSlotApart(a.(regOf := a.regOf - {victim}), victim);
  }

  /** Freeing up a register: the victim's value moves to its slot, nothing else moves. */
  lemma {:induction false} AllocKeepsRelated(isa: Isa, a: AllocState, protected: set<nat>, victim: nat,
                          area: nat, live: set<RegKey>, sv: State, sp: State)
    requires SlotsApart(a) && AllocPreg(a, protected, victim).Some?
    requires AllocPreg(a, protected, victim).value.state.nextSlot <= area
    requires NoPredicateSpilled(AllocPreg(a, protected, victim).value.state, live)
    requires Related(isa, a, area, live, sv, sp)
    ensures var g := AllocPreg(a, protected, victim).value;
            var sp' := Run(isa, DecodeAll(g.code), sp);
            sp'.regs == sp.regs && Related(isa, g.state, area, live, sv, sp')
  {
    var g := AllocPreg(a, protected, victim).value;
    if a.free == [] {
      EvictionMoves(isa, a, protected, victim, sp);
      RunOne(isa, g.code[0], sp);
      assert g.code == [g.code[0]];
      MovedKeepsRelated(isa, a, g.state, victim, area, live, sv, sp, Exec(isa, Decode(g.code[0]), sp));
    }
  }

  /** Putting v in a register that is nobody's: a reload brings a spilled value back. */
  lemma {:induction false} AssignKeepsRelated(isa: Isa, a: AllocState, v: nat, preg: nat,
                           area: nat, live: set<RegKey>, sv: State, sp: State, sp': State)
    requires isa.DoubleWordsRoundTrip() && Allocatable(preg) && v !in a.regOf
    requires forall u :: u in a.regOf ==> a.regOf[u] != preg
    requires sp' == if v in a.slots then Exec(isa, Decode(ReloadCode(a.slots[v], preg)), sp) else sp
    requires Related(isa, a, area, live, sv, sp)
    ensures Related(isa, a.(regOf := a.regOf[v := preg]), area, live, sv, sp')
  {
    var a' := a.(regOf := a.regOf[v := preg]);
    if v in a.slots {
      ExecReloadFrame(isa, a.slots[v], preg, sp);
    }
    forall k | k in live
      ensures AtHome(isa, a', sp', k, ReadReg(sv, k))
    {
      assert AtHome(isa, a, sp, k, ReadReg(sv, k));
      if k.reg.v == v {
        ExecReload(isa, a.slots[v], preg, ReadReg(sv, k), sp);
      } else if k.reg.v !in a.regOf {
        StoredFrame(isa, sp, sp', a.slots[k.reg.v], ReadReg(sv, k));
      }
    }
  }

  /** After the code of a grant has run, every live value is at home again. */
  lemma {:induction false} GrantKeepsRelated(isa: Isa, a: AllocState, v: nat, protected: set<nat>, victim: nat,
                          area: nat, live: set<RegKey>, sv: State, sp: State)
    requires isa.DoubleWordsRoundTrip() && Valid(a) && PregForVreg(a, v, protected, victim).Some?
    requires PregForVreg(a, v, protected, victim).value.state.nextSlot <= area
    requires NoPredicateSpilled(PregForVreg(a, v, protected, victim).value.state, live)
    requires Related(isa, a, area, live, sv, sp)
    ensures var g := PregForVreg(a, v, protected, victim).value;
            var sp' := Run(isa, DecodeAll(g.code), sp);
            && Related(isa, g.state, area, live, sv, sp')
            && (v in a.regOf || v !in a.slots ==> sp'.regs == sp.regs)
  {
    if v !in a.regOf {
      var g1, g := AllocPreg(a, protected, victim).value, PregForVreg(a, v, protected, victim).value;
      AllocKeepsRelated(isa, a, protected, victim, area, live, sv, sp);
      AllocPregPartition(a, protected, victim);
      var sp1 := Run(isa, DecodeAll(g1.code), sp);
      assert g1.preg in {g1.preg};
      if v in g1.state.slots {
        var reload := ReloadCode(g1.state.slots[v], g1.preg);
        assert g.code == g1.code + [reload];
        RunCode(isa, g1.code, [reload], sp);
        RunOne(isa, reload, sp1);
        AssignKeepsRelated(isa, g1.state, v, g1.preg, area, live, sv, sp1, Exec(isa, Decode(reload), sp1));
      } else {
        assert g.code == g1.code;
        AssignKeepsRelated(isa, g1.state, v, g1.preg, area, live, sv, sp1, sp1);
      }
    }
  }

  lemma {:induction false} RunCode(isa: Isa, xs: seq<Syllable>, ys: seq<Syllable>, s: State)
    ensures Run(isa, DecodeAll(xs + ys), s) == Run(isa, DecodeAll(ys), Run(isa, DecodeAll(xs), s))
  {
    assert DecodeAll(xs + ys) == DecodeAll(xs) + DecodeAll(ys);
    RunAppend(isa, DecodeAll(xs), DecodeAll(ys), s);
  }

  lemma {:induction false} RunOne(isa: Isa, syl: Syllable, s: State)
    ensures Run(isa, DecodeAll([syl]), s) == Exec(isa, Decode(syl), s)
  {
    assert DecodeAll([syl])[1..] == [];
  }

  /** A register no syllable writes keeps its value. */
  lemma {:induction false} RunKeeps(isa: Isa, code: seq<Syllable>, k: RegKey, s: State)
    requires forall i :: 0 <= i < |code| ==> DestRegKey(code[i]) != Some(k)
    ensures ReadReg(Run(isa, DecodeAll(code), s), k) == ReadReg(s, k)
  {
    if code != [] {
      var n := |code| - 1;
      RunKeeps(isa, code[..n], k, s);
      assert code == code[..n] + [code[n]];
      RunCode(isa, code[..n], [code[n]], s);
      RunOne(isa, code[n], Run(isa, DecodeAll(code[..n]), s));
      DecodeKeys(code[n], k);
      ExecFrame(isa, Decode(code[n]), Run(isa, DecodeAll(code[..n]), s));
    }
  }
}
