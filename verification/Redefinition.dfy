/** Redefining a register: exactly when the operands survive until they are read. */
module Redefinition {
  import opened Collections
  import opened Opcodes
  import opened Mir
  import opened Machine
  import opened Regs
  import opened RegAlloc
  import opened SpillMeaning

  /** The parts of a step: the rewritten sources, and the register granted to the destination. */
  ghost predicate StepParts(uses: BlockUses, a: AllocState, syl: Syllable, d: nat, pos: nat, victims: seq<nat>, r: SrcsResult, g: Grant) {
    && |victims| == |syl.srcs| + 1 && syl.dst == Some(VReg(d))
    && var vs := SrcVregs(syl.srcs);
       && RewriteSrcs(a, syl.srcs, SetOf(vs), victims[..|syl.srcs|]) == Some(r)
       && PregForVreg(FreeSources(uses, r.state, vs, syl.dst, pos), d, StillProtected(uses, vs, syl.dst, pos), victims[|syl.srcs|]) == Some(g)
  }

  lemma {:induction false} StepHasParts(uses: BlockUses, a: AllocState, a': AllocState, syl: Syllable, d: nat, pos: nat, victims: seq<nat>, code: seq<Syllable>)
    returns (r: SrcsResult, g: Grant)
    requires IsStep(uses, syl, pos, victims, a, a', code) && syl.dst == Some(VReg(d))
    ensures StepParts(uses, a, syl, d, pos, victims, r, g)
    ensures code == r.code + g.code + [Syllable(syl.opcode, Some(PReg(g.preg)), r.srcs)]
  {
    var vs := SrcVregs(syl.srcs);
    r := RewriteSrcs(a, syl.srcs, SetOf(vs), victims[..|syl.srcs|]).value;
    g := PregForVreg(FreeSources(uses, r.state, vs, syl.dst, pos), d, StillProtected(uses, vs, syl.dst, pos), victims[|syl.srcs|]).value;
  }

  /** No register is named that the allocator may hand out. */
  predicate NamesFixedOnly(srcs: seq<Value>) {
    forall i :: 0 <= i < |srcs| && srcs[i].RegValue? && srcs[i].reg.PReg? ==> !Allocatable(srcs[i].reg.p)
  }

  predicate NoneReleased(uses: BlockUses, srcs: seq<Value>, pos: nat) {
    forall v :: v in SrcVregs(srcs) ==> !uses.CanFreeAfter(v, pos)
  }

  /**
   * With the sources in place: they are predicates, none of them is given up, or d need not be reloaded, because it
   * is in a register or has no slot.
   */
  predicate OperandsSafe(uses: BlockUses, placed: AllocState, syl: Syllable, d: nat, pos: nat) {
    SourceClass(syl.opcode) == Pred || NoneReleased(uses, syl.srcs, pos) || d in placed.regOf || d !in placed.slots
  }

  /** The code that brings d into its register leaves the operands alone. */
  ghost predicate OperandsKept(isa: Isa, cls: RegClass, r: SrcsResult, g: Grant, sp: State) {
    forall i :: 0 <= i < |r.srcs| && r.srcs[i].RegValue? ==>
      ReadReg(Run(isa, DecodeAll(g.code), sp), RegKey(cls, r.srcs[i].reg)) == ReadReg(sp, RegKey(cls, r.srcs[i].reg))
  }

  lemma {:induction false} NothingFreed(uses: BlockUses, a: AllocState, vs: seq<nat>, dst: Option<Reg>, pos: nat)
    requires forall v :: v in vs ==> !uses.CanFreeAfter(v, pos)
    ensures FreeSources(uses, a, vs, dst, pos) == a && StillProtected(uses, vs, dst, pos) == SetOf(vs)
  {
    if vs != [] {
      NothingFreed(uses, a, vs[..|vs| - 1], dst, pos);
    }
  }

  /** If a source is released, the first free register is one of the sources'. */
  lemma {:induction false} FreedFirst(uses: BlockUses, a: AllocState, vs: seq<nat>, dst: Option<Reg>, pos: nat) returns (u: nat)
    requires Valid(a) && (forall v :: v in vs ==> v in a.regOf && dst != Some(VReg(v)))
    requires exists v :: v in vs && uses.CanFreeAfter(v, pos)
    ensures u in vs && var a' := FreeSources(uses, a, vs, dst, pos); a'.free != [] && a'.free[0] == a.regOf[u]
  {
    var n := |vs| - 1;
    var last, a1 := vs[n], FreeSources(uses, a, vs[..n], dst, pos);
    FreeSourcesValid(uses, a, vs[..n], dst, pos);
    assert vs == vs[..n] + [last];
    if uses.CanFreeAfter(last, pos) && last in a1.regOf {
      u := last;
    } else {
      assert last in a.regOf;
      assert exists v :: v in vs[..n] && uses.CanFreeAfter(v, pos);
      u := FreedFirst(uses, a, vs[..n], dst, pos);
    }
  }

  /** Spill and reload code changes no general register but the one it grants, and no predicate. */
  lemma {:induction false} GrantKeepsOthers(isa: Isa, a: AllocState, v: nat, protected: set<nat>, victim: nat, k: RegKey, s: State)
    requires PregForVreg(a, v, protected, victim).Some? && k != RegKey(Gpr, PReg(PregForVreg(a, v, protected, victim).value.preg))
    ensures ReadReg(Run(isa, DecodeAll(PregForVreg(a, v, protected, victim).value.code), s), k) == ReadReg(s, k)
  {
    if v !in a.regOf {
      var g1, g := AllocPreg(a, protected, victim).value, PregForVreg(a, v, protected, victim).value;
      var s1 := Run(isa, DecodeAll(g1.code), s);
      if a.free == [] {
        RunOne(isa, g1.code[0], s);
        ExecSpill(isa, g1.state.slots[victim], g1.preg, s);
      }
      assert ReadReg(s1, k) == ReadReg(s, k);
      if v in g1.state.slots {
        var reload := ReloadCode(g1.state.slots[v], g1.preg);
        RunCode(isa, g1.code, [reload], s);
        RunOne(isa, reload, s1);
        ExecReloadFrame(isa, g1.state.slots[v], g1.preg, s1);
      } else {
        assert g.code == g1.code;
      }
    }
  }

  /** Without a release d gets a register that no source holds. */
  lemma {:induction false} GrantElsewhere(a: AllocState, d: nat, protected: set<nat>, victim: nat, u: nat)
    requires Valid(a) && d !in a.regOf && u in a.regOf && u in protected && PregForVreg(a, d, protected, victim).Some?
    ensures PregForVreg(a, d, protected, victim).value.preg != a.regOf[u]
  {
    if a.free != [] {
      assert a.free[0] in a.free;
    }
  }

  /** What the parts of a step have in common. */
  lemma {:induction false} PartsFacts(uses: BlockUses, a: AllocState, syl: Syllable, d: nat, pos: nat, victims: seq<nat>, r: SrcsResult, g: Grant)
    requires Valid(a) && StepParts(uses, a, syl, d, pos, victims, r, g)
    ensures Valid(r.state) && |r.srcs| == |syl.srcs|
    ensures forall i :: 0 <= i < |syl.srcs| ==> RewrittenSrc(r.state, syl.srcs[i], r.srcs[i])
  {
    var n, vs := |syl.srcs|, SrcVregs(syl.srcs);
    RewriteSrcsValid(a, syl.srcs, SetOf(vs), victims[..n]);
    forall i | 0 <= i < n && syl.srcs[i].RegValue? && syl.srcs[i].reg.VReg?
      ensures syl.srcs[i].reg.v in SetOf(vs)
    {
      assert syl.srcs[i] in syl.srcs;
    }
    RewriteSrcsNames(a, syl.srcs, SetOf(vs), victims[..n]);
  }

  /** Without a reload the code of a request only stores. */
  lemma {:induction false} GrantKeepsRegs(isa: Isa, a: AllocState, v: nat, protected: set<nat>, victim: nat, s: State)
    requires PregForVreg(a, v, protected, victim).Some? && (v in a.regOf || v !in a.slots)
    ensures Run(isa, DecodeAll(PregForVreg(a, v, protected, victim).value.code), s).regs == s.regs
  {
    if v !in a.regOf {
      var g1, g := AllocPreg(a, protected, victim).value, PregForVreg(a, v, protected, victim).value;
      assert g.code == g1.code;
      if a.free == [] {
        RunOne(isa, g1.code[0], s);
        ExecSpill(isa, g1.state.slots[victim], g1.preg, s);
      }
    }
  }

  lemma {:induction false} KeptWithoutReload(isa: Isa, uses: BlockUses, a: AllocState, syl: Syllable, d: nat, pos: nat, victims: seq<nat>,
                                             r: SrcsResult, g: Grant, cls: RegClass, sp: State)
    requires Valid(a) && StepParts(uses, a, syl, d, pos, victims, r, g) && (d in r.state.regOf || d !in r.state.slots)
    ensures OperandsKept(isa, cls, r, g, sp)
  {
    var vs := SrcVregs(syl.srcs);
    PartsFacts(uses, a, syl, d, pos, victims, r, g);
    FreeSourcesValid(uses, r.state, vs, syl.dst, pos);
    GrantKeepsRegs(isa, FreeSources(uses, r.state, vs, syl.dst, pos), d, StillProtected(uses, vs, syl.dst, pos), victims[|syl.srcs|], sp);
  }

  lemma {:induction false} KeptWithoutRelease(isa: Isa, uses: BlockUses, a: AllocState, syl: Syllable, d: nat, pos: nat, victims: seq<nat>,
                                              r: SrcsResult, g: Grant, sp: State)
    requires Valid(a) && NamesFixedOnly(syl.srcs) && StepParts(uses, a, syl, d, pos, victims, r, g)
    requires NoneReleased(uses, syl.srcs, pos) && d !in r.state.regOf
    ensures OperandsKept(isa, Gpr, r, g, sp)
  {
    var n, vs := |syl.srcs|, SrcVregs(syl.srcs);
    PartsFacts(uses, a, syl, d, pos, victims, r, g);
    NothingFreed(uses, r.state, vs, syl.dst, pos);
    PregForVregValid(r.state, d, SetOf(vs), victims[n]);
    forall i | 0 <= i < n && r.srcs[i].RegValue?
      ensures ReadReg(Run(isa, DecodeAll(g.code), sp), RegKey(Gpr, r.srcs[i].reg)) == ReadReg(sp, RegKey(Gpr, r.srcs[i].reg))
    {
      assert RewrittenSrc(r.state, syl.srcs[i], r.srcs[i]);
      if syl.srcs[i].RegValue? && syl.srcs[i].reg.VReg? {
        assert syl.srcs[i] in syl.srcs;
        GrantElsewhere(r.state, d, SetOf(vs), victims[n], syl.srcs[i].reg.v);
      }
      GrantKeepsOthers(isa, r.state, d, SetOf(vs), victims[n], RegKey(Gpr, r.srcs[i].reg), sp);
    }
  }

  /** With a release, d is reloaded into the register of the source released last. */
  lemma {:induction false} ReloadedOverSource(uses: BlockUses, a: AllocState, syl: Syllable, d: nat, pos: nat, victims: seq<nat>, r: SrcsResult, g: Grant)
    returns (i: nat)
    requires Valid(a) && StepParts(uses, a, syl, d, pos, victims, r, g)
    requires !NoneReleased(uses, syl.srcs, pos) && d !in r.state.regOf && d in r.state.slots
    ensures i < |r.srcs| && r.srcs[i] == RegValue(PReg(g.preg)) && Allocatable(g.preg)
    ensures d in r.state.slots && g.code == [ReloadCode(r.state.slots[d], g.preg)]
  {
    var n, vs := |syl.srcs|, SrcVregs(syl.srcs);
    PartsFacts(uses, a, syl, d, pos, victims, r, g);
    forall v | v in vs
      ensures v in r.state.regOf && syl.dst != Some(VReg(v))
    {
      var j :| 0 <= j < n && syl.srcs[j] == RegValue(VReg(v));
      assert RewrittenSrc(r.state, syl.srcs[j], r.srcs[j]);
    }
    var u := FreedFirst(uses, r.state, vs, syl.dst, pos);
    i :| 0 <= i < n && syl.srcs[i] == RegValue(VReg(u));
    assert RewrittenSrc(r.state, syl.srcs[i], r.srcs[i]);
    FreeSourcesValid(uses, r.state, vs, syl.dst, pos);
    assert r.state.regOf[u] in r.state.regOf.Values;
    var nothing: seq<Syllable> := [];
    assert nothing + g.code == g.code;
  }

  /** A state in which the slot holds 0 and the register 1. */
  function Clash(isa: Isa, slot: int, preg: nat): State {
    State(map[RegKey(Gpr, PReg(preg)) := 1], StoreBytes(isa, StoreD, 0, slot, 8))
  }

  lemma {:induction false} ClashStored(isa: Isa, slot: int, preg: nat)
    ensures StoredAt(isa, Clash(isa, slot, preg), slot, 0)
  {
    var s0 := State(map[RegKey(Gpr, PReg(preg)) := 1], map[]);
    StoredAfter(isa, slot, 0, s0);
    assert map[] + StoreBytes(isa, StoreD, 0, slot, 8) == StoreBytes(isa, StoreD, 0, slot, 8);
  }

  lemma {:induction false} ReloadClashes(isa: Isa, r: SrcsResult, g: Grant, slot: int, i: nat)
    requires isa.DoubleWordsRoundTrip() && i < |r.srcs| && r.srcs[i] == RegValue(PReg(g.preg)) && g.preg != ZERO_REG
    requires g.code == [ReloadCode(slot, g.preg)]
    ensures !OperandsKept(isa, Gpr, r, g, Clash(isa, slot, g.preg))
  {
    var s := Clash(isa, slot, g.preg);
    ClashStored(isa, slot, g.preg);
    RunOne(isa, g.code[0], s);
    ExecReload(isa, slot, g.preg, 0, s);
  }

  lemma {:induction false} PredicatesKept(isa: Isa, uses: BlockUses, a: AllocState, syl: Syllable, d: nat, pos: nat, victims: seq<nat>,
                                          r: SrcsResult, g: Grant, sp: State)
    requires StepParts(uses, a, syl, d, pos, victims, r, g)
    ensures OperandsKept(isa, Pred, r, g, sp)
  {
    var vs := SrcVregs(syl.srcs);
    forall i | 0 <= i < |r.srcs| && r.srcs[i].RegValue?
      ensures ReadReg(Run(isa, DecodeAll(g.code), sp), RegKey(Pred, r.srcs[i].reg)) == ReadReg(sp, RegKey(Pred, r.srcs[i].reg))
    {
      GrantKeepsOthers(isa, FreeSources(uses, r.state, vs, syl.dst, pos), d, StillProtected(uses, vs, syl.dst, pos), victims[|syl.srcs|],
                       RegKey(Pred, r.srcs[i].reg), sp);
    }
  }

  lemma {:induction false} PartsRightExactlyWhen(isa: Isa, uses: BlockUses, a: AllocState, syl: Syllable, d: nat, pos: nat, victims: seq<nat>,
                                                 r: SrcsResult, g: Grant)
    requires isa.DoubleWordsRoundTrip() && Valid(a) && NamesFixedOnly(syl.srcs) && StepParts(uses, a, syl, d, pos, victims, r, g)
    ensures (forall sp :: OperandsKept(isa, SourceClass(syl.opcode), r, g, sp)) <==> OperandsSafe(uses, r.state, syl, d, pos)
  {
    var cls := SourceClass(syl.opcode);
    if OperandsSafe(uses, r.state, syl, d, pos) {
      forall sp
        ensures OperandsKept(isa, cls, r, g, sp)
      {
        SafeIsKept(isa, uses, a, syl, d, pos, victims, r, g, sp);
      }
    } else {
      var i := ReloadedOverSource(uses, a, syl, d, pos, victims, r, g);
      ReloadClashes(isa, r, g, r.state.slots[d], i);
    }
  }

  lemma {:induction false} SafeIsKept(isa: Isa, uses: BlockUses, a: AllocState, syl: Syllable, d: nat, pos: nat, victims: seq<nat>,
                                      r: SrcsResult, g: Grant, sp: State)
    requires Valid(a) && NamesFixedOnly(syl.srcs) && StepParts(uses, a, syl, d, pos, victims, r, g)
    requires OperandsSafe(uses, r.state, syl, d, pos)
    ensures OperandsKept(isa, SourceClass(syl.opcode), r, g, sp)
  {
    if SourceClass(syl.opcode) == Pred {
      PredicatesKept(isa, uses, a, syl, d, pos, victims, r, g, sp);
    } else if d in r.state.regOf || d !in r.state.slots {
      KeptWithoutReload(isa, uses, a, syl, d, pos, victims, r, g, Gpr, sp);
    } else {
      KeptWithoutRelease(isa, uses, a, syl, d, pos, victims, r, g, sp);
    }
  }

  /**
   * Whatever the destination d of a syllable has been before, and whatever victims are chosen: the syllable reads
   * its operands right, from every machine state, if and only if they are predicates, it is the last use of none of
   * them, or d need not be reloaded once they are in place.  Else the old value of d is reloaded in front of the
   * syllable, into the register a source has just given up; it may have been evicted by the reload of that source.
   */
  lemma {:induction false} RedefinitionRightExactlyWhen(isa: Isa, uses: BlockUses, a: AllocState, a': AllocState, syl: Syllable, d: nat, pos: nat,
                                                        victims: seq<nat>, code: seq<Syllable>) returns (r: SrcsResult, g: Grant)
    requires isa.DoubleWordsRoundTrip() && Valid(a) && IsStep(uses, syl, pos, victims, a, a', code)
    requires syl.dst == Some(VReg(d)) && NamesFixedOnly(syl.srcs)
    ensures StepParts(uses, a, syl, d, pos, victims, r, g)
    ensures code == r.code + g.code + [Syllable(syl.opcode, Some(PReg(g.preg)), r.srcs)]
    ensures (forall sp :: OperandsKept(isa, SourceClass(syl.opcode), r, g, sp)) <==> OperandsSafe(uses, r.state, syl, d, pos)
  {
    r, g := StepHasParts(uses, a, a', syl, d, pos, victims, code);
    PartsRightExactlyWhen(isa, uses, a, syl, d, pos, victims, r, g);
  }
}
