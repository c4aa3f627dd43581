/** When a block is allocated without spilling: a condition on the block alone. */
module SpillFree {
  import opened Collections
  import opened Opcodes
  import opened Mir
  import opened Machine
  import opened Regs
  import opened RegAlloc
  import opened SpillMeaning
  import opened RegAllocMeaning
  import opened BlockAllocation
  import opened Allocator

  // ----- The pressure of a syllable -----

  /** The registers that are in use once the sources are in place, given those in use before. */
  function WithSources(inUse: set<nat>, srcs: seq<Value>): set<nat> {
    inUse + SetOf(SrcVregs(srcs))
  }

  /** The sources whose registers are given up before the destination gets one. */
  function Released(uses: BlockUses, syl: Syllable, pos: nat): set<nat> {
    set v | v in SrcVregs(syl.srcs) && syl.dst != Some(VReg(v)) && uses.CanFreeAfter(v, pos)
  }

  function WithDest(uses: BlockUses, inUse: set<nat>, syl: Syllable, pos: nat): set<nat> {
    var rest := WithSources(inUse, syl.srcs) - Released(uses, syl, pos);
    match syl.dst
    case Some(VReg(d)) => rest + {d}
    case _ => rest
  }

  /** The registers in use after the syllable. */
  function InUseAfter(uses: BlockUses, inUse: set<nat>, syl: Syllable, pos: nat): set<nat> {
    match syl.dst
    case Some(VReg(d)) =>
      var peak := WithDest(uses, inUse, syl, pos);
      if !uses.HasLaterUse(d, pos) && d !in uses.liveOut then peak - {d} else peak
    case _ => WithDest(uses, inUse, syl, pos)
  }

  function InUseAt(uses: BlockUses, inUse: set<nat>, syls: seq<Syllable>, pos: nat, i: nat): set<nat>
    requires i <= |syls|
  {
    if i == 0 then inUse else InUseAfter(uses, InUseAt(uses, inUse, syls, pos, i - 1), syls[i - 1], pos + i - 1)
  }

  /** No more than 29 registers are needed at once. */
  predicate StepFits(uses: BlockUses, inUse: set<nat>, syl: Syllable, pos: nat) {
    |WithSources(inUse, syl.srcs)| <= REGISTERS && |WithDest(uses, inUse, syl, pos)| <= REGISTERS
  }

  /** The first n syllables fit. */
  predicate FitsUpTo(uses: BlockUses, inUse: set<nat>, syls: seq<Syllable>, pos: nat, n: nat)
    requires n <= |syls|
  {
    n == 0 || (FitsUpTo(uses, inUse, syls, pos, n - 1) && StepFits(uses, InUseAt(uses, inUse, syls, pos, n - 1), syls[n - 1], pos + n - 1))
  }

  predicate BlockFits(uses: BlockUses, inUse: set<nat>, syls: seq<Syllable>, pos: nat) {
    FitsUpTo(uses, inUse, syls, pos, |syls|)
  }

  // ----- One request -----

  lemma {:induction false} InjectiveSize(m: map<nat, nat>)
    requires Injective(m)
    ensures |m.Keys| == |m.Values|
    decreases |m.Keys|
  {
    if m.Keys != {} {
      var k :| k in m.Keys;
      var m' := m - {k};
      assert m'.Keys == m.Keys - {k};
      InjectiveSize(m');
      assert m.Values == m'.Values + {m[k]} by {
        forall v | v in m.Values
          ensures v in m'.Values + {m[k]}
        {
          var k' :| k' in m && m[k'] == v;
          assert k' != k ==> k' in m' && m'[k'] == v;
        }
      }
      assert m[k] !in m'.Values;
    } else {
      assert m.Values == {};
    }
  }

  lemma {:induction false} AllRegisters(a: AllocState)
    requires Valid(a)
    ensures a.regOf.Values + SetOf(a.free) == Range(REGISTERS) && a.regOf.Values !! SetOf(a.free)
  {
    forall p: nat
      ensures p in a.regOf.Values || p in a.free <==> p in Range(REGISTERS)
    {
      assert Allocatable(p) <==> p in a.free || p in a.regOf.Values;
    }
  }

  /** With all 29 registers assigned there is none free, and only then. */
  lemma {:induction false} FreeExactlyWhen(a: AllocState)
    requires Valid(a)
    ensures |a.regOf.Keys| <= REGISTERS
    ensures a.free == [] <==> |a.regOf.Keys| == REGISTERS
  {
    InjectiveSize(a.regOf);
    AllRegisters(a);
    FreeCount(a.regOf.Values, a.free);
  }

  lemma {:induction false} FreeCount(used: set<nat>, free: seq<nat>)
    requires used + SetOf(free) == Range(REGISTERS) && used !! SetOf(free)
    ensures |used| <= REGISTERS && (free == [] <==> |used| == REGISTERS)
  {
    SubsetSize(used, Range(REGISTERS));
    if free == [] {
      assert SetOf(free) == {};
    } else {
      assert free[0] in SetOf(free);
    }
  }

  /** What a request does to the registers in use: it adds v, or it has to evict, which takes a slot. */
  ghost predicate Adds(a: AllocState, a': AllocState, wanted: set<nat>) {
    && (|a.regOf.Keys + wanted| <= REGISTERS ==> a'.regOf.Keys == a.regOf.Keys + wanted && a'.slots == a.slots)
    && (|a.regOf.Keys + wanted| > REGISTERS ==> a'.slots != map[])
    && (a.slots != map[] ==> a'.slots != map[])
  }

  lemma {:induction false} GrantAdds(a: AllocState, v: nat, protected: set<nat>, victim: nat)
    requires Valid(a) && PregForVreg(a, v, protected, victim).Some?
    ensures Adds(a, PregForVreg(a, v, protected, victim).value.state, {v})
  {
    FreeExactlyWhen(a);
    GrantByCount(a, v, protected, victim);
  }

  lemma {:induction false} GrantByCount(a: AllocState, v: nat, protected: set<nat>, victim: nat)
    requires |a.regOf.Keys| <= REGISTERS && (a.free == [] <==> |a.regOf.Keys| == REGISTERS)
    requires PregForVreg(a, v, protected, victim).Some?
    ensures Adds(a, PregForVreg(a, v, protected, victim).value.state, {v})
  {
    var a' := PregForVreg(a, v, protected, victim).value.state;
    if v in a.regOf {
      assert a.regOf.Keys + {v} == a.regOf.Keys;
    } else if a.free != [] {
      assert a'.regOf.Keys == a.regOf.Keys + {v};
    } else {
      assert victim in a'.slots;
      assert |a.regOf.Keys + {v}| == |a.regOf.Keys| + 1;
    }
  }

  lemma {:induction false} AddsTwice(a: AllocState, a1: AllocState, a2: AllocState, u: set<nat>, w: set<nat>)
    requires Adds(a, a1, u) && Adds(a1, a2, w)
    ensures Adds(a, a2, u + w)
  {
    var both := a.regOf.Keys + (u + w);
    assert both == a.regOf.Keys + u + w;
    SubsetSize(a.regOf.Keys + u, both);
  }

  lemma {:induction false} SourcesAdd(a: AllocState, srcs: seq<Value>, protected: set<nat>, victims: seq<nat>)
    requires Valid(a) && |victims| == |srcs| && RewriteSrcs(a, srcs, protected, victims).Some?
    ensures Adds(a, RewriteSrcs(a, srcs, protected, victims).value.state, SetOf(SrcVregs(srcs)))
  {
    if srcs == [] {
      assert a.regOf.Keys + SetOf(SrcVregs(srcs)) == a.regOf.Keys;
      FreeExactlyWhen(a);
    } else {
      var n := |srcs| - 1;
      SourcesAdd(a, srcs[..n], protected, victims[..n]);
      RewriteSrcsValid(a, srcs[..n], protected, victims[..n]);
      LastSourceAdds(a, srcs, protected, victims);
    }
  }

  lemma {:induction false} LastVreg(srcs: seq<Value>)
    requires srcs != []
    ensures var n := |srcs| - 1;
            SetOf(SrcVregs(srcs)) == SetOf(SrcVregs(srcs[..n])) + if srcs[n].RegValue? && srcs[n].reg.VReg? then {srcs[n].reg.v} else {}
  {
  }

  lemma {:induction false} LastSourceAdds(a: AllocState, srcs: seq<Value>, protected: set<nat>, victims: seq<nat>)
    requires srcs != [] && |victims| == |srcs| && RewriteSrcs(a, srcs, protected, victims).Some?
    requires var n := |srcs| - 1; var a1 := RewriteSrcs(a, srcs[..n], protected, victims[..n]).value.state;
             Valid(a1) && Adds(a, a1, SetOf(SrcVregs(srcs[..n])))
    ensures Adds(a, RewriteSrcs(a, srcs, protected, victims).value.state, SetOf(SrcVregs(srcs)))
  {
    var n := |srcs| - 1;
    var a1 := RewriteSrcs(a, srcs[..n], protected, victims[..n]).value.state;
    var before := SetOf(SrcVregs(srcs[..n]));
    LastVreg(srcs);
    if srcs[n].RegValue? && srcs[n].reg.VReg? {
      GrantAddsOn(a, a1, before, srcs[n].reg.v, protected, victims[n]);
    } else {
      assert before + {} == before;
    }
  }

  lemma {:induction false} GrantAddsOn(a: AllocState, a1: AllocState, before: set<nat>, v: nat, protected: set<nat>, victim: nat)
    requires Valid(a1) && Adds(a, a1, before) && PregForVreg(a1, v, protected, victim).Some?
    ensures Adds(a, PregForVreg(a1, v, protected, victim).value.state, before + {v})
  {
    GrantAdds(a1, v, protected, victim);
    AddsTwice(a, a1, PregForVreg(a1, v, protected, victim).value.state, before, {v});
  }

  lemma {:induction false} FreesReleased(uses: BlockUses, a: AllocState, vs: seq<nat>, dst: Option<Reg>, pos: nat)
    ensures FreeSources(uses, a, vs, dst, pos).regOf.Keys
         == a.regOf.Keys - (set v | v in vs && dst != Some(VReg(v)) && uses.CanFreeAfter(v, pos))
    ensures FreeSources(uses, a, vs, dst, pos).slots == a.slots
  {
    if vs != [] {
      var n := |vs| - 1;
      FreesReleased(uses, a, vs[..n], dst, pos);
      assert vs == vs[..n] + [vs[n]];
    }
  }

  // ----- One syllable -----

  /** Within the limit a syllable takes no slot, and the registers in use are the foreseen ones; beyond it takes one. */
  ghost predicate AsForeseen(uses: BlockUses, a: AllocState, a': AllocState, syl: Syllable, pos: nat) {
    && (StepFits(uses, a.regOf.Keys, syl, pos) && a.slots == map[] ==>
          a'.slots == map[] && a'.regOf.Keys == InUseAfter(uses, a.regOf.Keys, syl, pos))
    && (!StepFits(uses, a.regOf.Keys, syl, pos) || a.slots != map[] ==> a'.slots != map[])
  }

  lemma {:induction false} StepAsForeseen(uses: BlockUses, syl: Syllable, pos: nat, victims: seq<nat>, a: AllocState, a': AllocState, code: seq<Syllable>)
    requires IsStep(uses, syl, pos, victims, a, a', code) && Valid(a)
    ensures AsForeseen(uses, a, a', syl, pos)
  {
    var n, vs := |syl.srcs|, SrcVregs(syl.srcs);
    SourcesAdd(a, syl.srcs, SetOf(vs), victims[..n]);
    RewriteSrcsValid(a, syl.srcs, SetOf(vs), victims[..n]);
    var a1 := RewriteSrcs(a, syl.srcs, SetOf(vs), victims[..n]).value.state;
    FreesReleased(uses, a1, vs, syl.dst, pos);
    FreeSourcesValid(uses, a1, vs, syl.dst, pos);
    var a2 := FreeSources(uses, a1, vs, syl.dst, pos);
    assert Adds(a, a1, SetOf(vs)) && a2.slots == a1.slots && a2.regOf.Keys == a1.regOf.Keys - Released(uses, syl, pos);
    if syl.dst.Some? && syl.dst.value.VReg? {
      var d, protected := syl.dst.value.v, StillProtected(uses, vs, syl.dst, pos);
      GrantAdds(a2, d, protected, victims[n]);
      var a3 := PregForVreg(a2, d, protected, victims[n]).value.state;
      assert a' == if !uses.HasLaterUse(d, pos) && d !in uses.liveOut then FreeVreg(a3, d) else a3;
      DestForeseen(uses, a, a1, a2, a3, a', syl, pos);
    } else {
      assert a' == a2;
      NoDestForeseen(uses, a, a1, a2, syl, pos);
    }
  }

  lemma {:induction false} DestForeseen(uses: BlockUses, a: AllocState, a1: AllocState, a2: AllocState, a3: AllocState, a': AllocState,
                                        syl: Syllable, pos: nat)
    requires syl.dst.Some? && syl.dst.value.VReg?
    requires Adds(a, a1, SetOf(SrcVregs(syl.srcs))) && a2.slots == a1.slots && a2.regOf.Keys == a1.regOf.Keys - Released(uses, syl, pos)
    requires Adds(a2, a3, {syl.dst.value.v})
    requires var d := syl.dst.value.v; a' == if !uses.HasLaterUse(d, pos) && d !in uses.liveOut then FreeVreg(a3, d) else a3
    ensures AsForeseen(uses, a, a', syl, pos)
  {
    if a.slots != map[] || !(|WithSources(a.regOf.Keys, syl.srcs)| <= REGISTERS) {
      assert a2.slots != map[] && a3.slots != map[];
    } else {
      SourcesForeseen(uses, a.regOf.Keys, a2.regOf.Keys, syl, pos);
      assert a3.regOf.Keys == a2.regOf.Keys + {syl.dst.value.v} || a3.slots != map[];
    }
  }

  lemma {:induction false} SourcesForeseen(uses: BlockUses, inUse: set<nat>, rest: set<nat>, syl: Syllable, pos: nat)
    requires syl.dst.Some? && syl.dst.value.VReg?
    requires rest == inUse + SetOf(SrcVregs(syl.srcs)) - Released(uses, syl, pos)
    ensures rest + {syl.dst.value.v} == WithDest(uses, inUse, syl, pos)
  {
  }

  lemma {:induction false} NoDestForeseen(uses: BlockUses, a: AllocState, a1: AllocState, a2: AllocState, syl: Syllable, pos: nat)
    requires syl.dst.None? || syl.dst.value.PReg?
    requires Adds(a, a1, SetOf(SrcVregs(syl.srcs))) && a2.slots == a1.slots && a2.regOf.Keys == a1.regOf.Keys - Released(uses, syl, pos)
    ensures AsForeseen(uses, a, a2, syl, pos)
  {
    var all := WithSources(a.regOf.Keys, syl.srcs);
    SubsetSize(WithDest(uses, a.regOf.Keys, syl, pos), all);
  }

  // ----- A whole block -----

  ghost predicate RunAsForeseen(uses: BlockUses, syls: seq<Syllable>, pos: nat, states: seq<AllocState>, i: nat)
    requires |states| == |syls| + 1 && i <= |syls|
  {
    var inUse := states[0].regOf.Keys;
    && (FitsUpTo(uses, inUse, syls, pos, i) ==> states[i].slots == map[] && states[i].regOf.Keys == InUseAt(uses, inUse, syls, pos, i))
    && (!FitsUpTo(uses, inUse, syls, pos, i) ==> states[i].slots != map[])
  }

  lemma {:induction false} RunStepForeseen(uses: BlockUses, syls: seq<Syllable>, pos: nat, choices: seq<seq<nat>>,
                                           states: seq<AllocState>, codes: seq<seq<Syllable>>, i: nat)
    requires IsRun(uses, syls, pos, choices, states, codes) && i < |syls| && Valid(states[0])
    ensures AsForeseen(uses, states[i], states[i + 1], syls[i], pos + i)
  {
    RunValid(uses, syls, pos, choices, states, codes, i);
    StepOfRun(uses, syls, pos, choices, states, codes, i);
    StepAsForeseen(uses, syls[i], pos + i, choices[i], states[i], states[i + 1], codes[i]);
  }

  lemma {:induction false} ForeseenAtStart(uses: BlockUses, syls: seq<Syllable>, pos: nat, states: seq<AllocState>)
    requires |states| == |syls| + 1 && states[0].slots == map[]
    ensures RunAsForeseen(uses, syls, pos, states, 0)
  {
  }

  lemma {:induction false} ForeseenOneMore(uses: BlockUses, syls: seq<Syllable>, pos: nat, states: seq<AllocState>, i: nat)
    requires |states| == |syls| + 1 && i < |syls|
    requires RunAsForeseen(uses, syls, pos, states, i) && AsForeseen(uses, states[i], states[i + 1], syls[i], pos + i)
    ensures RunAsForeseen(uses, syls, pos, states, i + 1)
  {
  }

  lemma {:induction false} NextForeseen(uses: BlockUses, syls: seq<Syllable>, pos: nat, choices: seq<seq<nat>>,
                                        states: seq<AllocState>, codes: seq<seq<Syllable>>, i: nat)
    requires IsRun(uses, syls, pos, choices, states, codes) && Valid(states[0]) && i < |syls|
    requires RunAsForeseen(uses, syls, pos, states, i)
    ensures RunAsForeseen(uses, syls, pos, states, i + 1)
  {
    RunStepForeseen(uses, syls, pos, choices, states, codes, i);
    ForeseenOneMore(uses, syls, pos, states, i);
  }

  lemma {:induction false} RunForeseen(uses: BlockUses, syls: seq<Syllable>, pos: nat, choices: seq<seq<nat>>,
                                       states: seq<AllocState>, codes: seq<seq<Syllable>>)
    requires IsRun(uses, syls, pos, choices, states, codes) && Valid(states[0]) && states[0].slots == map[]
    ensures RunAsForeseen(uses, syls, pos, states, |syls|)
  {
    ForeseenAtStart(uses, syls, pos, states);
    for i := 0 to |syls|
      invariant RunAsForeseen(uses, syls, pos, states, i)
    {
      NextForeseen(uses, syls, pos, choices, states, codes, i);
    }
  }

  /**
   * From a state without spills, whatever victims may be chosen, a block is allocated without spilling if and
   * only if at no syllable more than 29 registers are in use at once.
   */
  lemma {:induction false} SpillFreeExactlyWhen(uses: BlockUses, syls: seq<Syllable>, pos: nat, choices: seq<seq<nat>>,
                                                states: seq<AllocState>, codes: seq<seq<Syllable>>)
    requires IsRun(uses, syls, pos, choices, states, codes) && Valid(states[0]) && states[0].slots == map[]
    ensures states[|syls|].slots == map[] <==> BlockFits(uses, states[0].regOf.Keys, syls, pos)
  {
    RunForeseen(uses, syls, pos, choices, states, codes);
  }

  /** No physical destination is one the allocator may hand out. */
  predicate FixedDestsOnly(syls: seq<Syllable>) {
    forall i :: 0 <= i < |syls| && syls[i].dst.Some? && syls[i].dst.value.PReg? ==> !Allocatable(syls[i].dst.value.p)
  }

  /** Where nothing is spilled nothing has to be reloaded. */
  lemma {:induction false} UnspilledDestSafe(uses: BlockUses, syl: Syllable, pos: nat, victims: seq<nat>, a: AllocState, a': AllocState, code: seq<Syllable>)
    requires IsStep(uses, syl, pos, victims, a, a', code) && Valid(a) && a'.slots == map[]
    requires syl.dst.Some? && syl.dst.value.PReg? ==> !Allocatable(syl.dst.value.p)
    ensures DestSafe(uses, a, syl, pos, victims)
  {
    SlotsOnlyGrow(uses, a, syl, pos, victims);
  }

  lemma {:induction false} FittingDestsSafe(uses: BlockUses, syls: seq<Syllable>, pos: nat, choices: seq<seq<nat>>,
                                            states: seq<AllocState>, codes: seq<seq<Syllable>>)
    requires IsRun(uses, syls, pos, choices, states, codes) && Valid(states[0]) && states[|syls|].slots == map[] && FixedDestsOnly(syls)
    ensures DestsSafe(uses, syls, pos, choices, states)
  {
    forall i | 0 <= i < |syls|
      ensures DestSafe(uses, states[i], syls[i], pos + i, choices[i])
    {
      RunValid(uses, syls, pos, choices, states, codes, i);
      SlotsGrowTo(uses, syls, pos, choices, states, codes, i + 1);
      StepOfRun(uses, syls, pos, choices, states, codes, i);
      assert states[i + 1].slots.Keys == {};
      UnspilledDestSafe(uses, syls[i], pos + i, choices[i], states[i], states[i + 1], codes[i]);
    }
  }

  /** A block that fits is in the scope of the allocation theorems, whether it computes predicates or not. */
  lemma {:induction false} FittingBlockInScope(isa: Isa, uses: BlockUses, syls: seq<Syllable>, pos: nat, choices: seq<seq<nat>>,
                                               states: seq<AllocState>, codes: seq<seq<Syllable>>, known: set<RegKey>, sv: State)
    requires isa.DoubleWordsRoundTrip() && IsRun(uses, syls, pos, choices, states, codes)
    requires Valid(states[0]) && SlotsCounted(states[0]) && states[0].slots == map[]
    requires UsesInScope(uses, syls, pos, known) && FixedDestsOnly(syls)
    requires BlockFits(uses, states[0].regOf.Keys, syls, pos)
    ensures states[|syls|].nextSlot == 0
    ensures RunInScope(isa, uses, syls, pos, choices, states, codes, known, sv)
  {
    SpillFreeExactlyWhen(uses, syls, pos, choices, states, codes);
    FittingDestsSafe(uses, syls, pos, choices, states, codes);
    RunCounts(uses, syls, pos, choices, states, codes, |syls|);
    assert states[|syls|].slots.Keys == {};
  }

  /**
   * The meaning of a block that fits is preserved: every fixed register, every byte of memory, the values that are
   * live out and the way the branch goes.
   */
  lemma {:induction false} FittingBlockPreserved(isa: Isa, uses: BlockUses, block: Block, pos: nat, a: AllocState, a': AllocState, out: Block,
                                   choices: seq<seq<nat>>, states: seq<AllocState>, codes: seq<seq<Syllable>>, victim: nat,
                                   known: set<RegKey>, sv: State, sp: State)
    requires isa.DoubleWordsRoundTrip() && BlockAllocatedBy(uses, block, pos, a, a', out, choices, states, codes, victim)
    requires Valid(a) && SlotsCounted(a) && a.slots == map[] && BlockFits(uses, a.regOf.Keys, block.syllables, pos)
    requires UsesInScope(uses, block.syllables, pos, known) && FixedDestsOnly(block.syllables)
    requires EndInScope(uses, block.terminator, pos + |block.syllables|, Known(known, block.syllables))
    requires Related(isa, a, 0, LiveKeys(known, uses, pos), sv, sp)
    ensures BlockPreserved(isa, uses, block, out, a', 0, known, Run(isa, DecodeAll(block.syllables), sv), Run(isa, DecodeAll(out.syllables), sp))
  {
    FittingBlockInScope(isa, uses, block.syllables, pos, choices, states, codes, known, sv);
    AllocationPreservesMeaning(isa, uses, block, pos, a, a', out, choices, states, codes, victim, known, sv, sp);
  }
}
