/** The allocator keeps no register for a value nobody needs. */
module DeadRegisters {
  import opened Collections
  import opened Opcodes
  import opened Mir
  import opened RegAlloc
  import opened Allocator

  /** Registers are held for what is needed from `pos` on, and for what the block had nothing to do with so far. */
  ghost predicate HeldWhereNeeded(uses: BlockUses, start: AllocState, from: nat, a: AllocState, pos: nat) {
    forall v :: v in a.regOf ==> uses.NeededFrom(v, pos) || (v in start.regOf && !uses.NeededFrom(v, from))
  }

  /** The last uses at this position are uses by this syllable, and its uses are known. */
  ghost predicate UsesKnownAt(uses: BlockUses, syl: Syllable, pos: nat) {
    forall v: nat ::
      && (v in uses.lastUse && uses.lastUse[v] == pos ==> RegValue(VReg(v)) in syl.srcs)
      && (RegValue(VReg(v)) in syl.srcs ==> v in uses.lastUse && uses.lastUse[v] >= pos)
  }

  lemma {:induction false} GrantHolds(a: AllocState, v: nat, protected: set<nat>, victim: nat)
    requires PregForVreg(a, v, protected, victim).Some?
    ensures forall u :: u in PregForVreg(a, v, protected, victim).value.state.regOf ==> u in a.regOf || u == v
  {
  }

  lemma {:induction false} SourcesHold(a: AllocState, srcs: seq<Value>, protected: set<nat>, victims: seq<nat>)
    requires |victims| == |srcs| && RewriteSrcs(a, srcs, protected, victims).Some?
    ensures forall u :: u in RewriteSrcs(a, srcs, protected, victims).value.state.regOf ==> u in a.regOf || RegValue(VReg(u)) in srcs
  {
    if srcs != [] {
      var n := |srcs| - 1;
      SourcesHold(a, srcs[..n], protected, victims[..n]);
      if srcs[n].RegValue? && srcs[n].reg.VReg? {
        GrantHolds(RewriteSrcs(a, srcs[..n], protected, victims[..n]).value.state, srcs[n].reg.v, protected, victims[n]);
      }
    }
  }

  lemma {:induction false} FreedAreGone(uses: BlockUses, a: AllocState, vs: seq<nat>, dst: Option<Reg>, pos: nat)
    ensures var a' := FreeSources(uses, a, vs, dst, pos);
            forall u :: u in a'.regOf ==> u in a.regOf && !(u in vs && dst != Some(VReg(u)) && uses.CanFreeAfter(u, pos))
  {
    if vs != [] {
      FreedAreGone(uses, a, vs[..|vs| - 1], dst, pos);
    }
  }

  /** After a syllable every value held is needed later, or was idle before the block and still is. */
  lemma {:induction false} StepHoldsNeeded(uses: BlockUses, start: AllocState, from: nat, syl: Syllable, pos: nat, victims: seq<nat>,
                                           a: AllocState, a': AllocState, code: seq<Syllable>)
    requires IsStep(uses, syl, pos, victims, a, a', code) && UsesKnownAt(uses, syl, pos) && from <= pos
    requires HeldWhereNeeded(uses, start, from, a, pos)
    ensures HeldWhereNeeded(uses, start, from, a', pos + 1)
  {
    var n, vs := |syl.srcs|, SrcVregs(syl.srcs);
    SourcesHold(a, syl.srcs, SetOf(vs), victims[..n]);
    var a1 := RewriteSrcs(a, syl.srcs, SetOf(vs), victims[..n]).value.state;
    FreedAreGone(uses, a1, vs, syl.dst, pos);
    var a2 := FreeSources(uses, a1, vs, syl.dst, pos);
    if syl.dst.Some? && syl.dst.value.VReg? {
      GrantHolds(a2, syl.dst.value.v, StillProtected(uses, vs, syl.dst, pos), victims[n]);
    }
  }

  ghost predicate AllUsesKnown(uses: BlockUses, syls: seq<Syllable>, pos: nat) {
    forall j :: 0 <= j < |syls| ==> UsesKnownAt(uses, syls[j], pos + j)
  }

  lemma {:induction false} NextHoldsNeeded(uses: BlockUses, syls: seq<Syllable>, pos: nat, start: AllocState, choices: seq<seq<nat>>,
                                           states: seq<AllocState>, codes: seq<seq<Syllable>>, i: nat)
    requires IsRun(uses, syls, pos, choices, states, codes) && i < |syls| && UsesKnownAt(uses, syls[i], pos + i)
    requires HeldWhereNeeded(uses, start, pos, states[i], pos + i)
    ensures HeldWhereNeeded(uses, start, pos, states[i + 1], pos + i + 1)
  {
    StepOfRun(uses, syls, pos, choices, states, codes, i);
    StepHoldsNeeded(uses, start, pos, syls[i], pos + i, choices[i], states[i], states[i + 1], codes[i]);
  }

  lemma {:induction false} RunHoldsNeeded(uses: BlockUses, syls: seq<Syllable>, pos: nat, choices: seq<seq<nat>>,
                                          states: seq<AllocState>, codes: seq<seq<Syllable>>, i: nat)
    requires IsRun(uses, syls, pos, choices, states, codes) && i <= |syls| && AllUsesKnown(uses, syls, pos)
    ensures HeldWhereNeeded(uses, states[0], pos, states[i], pos + i)
  {
    if i > 0 {
      RunHoldsNeeded(uses, syls, pos, choices, states, codes, i - 1);
      assert UsesKnownAt(uses, syls[i - 1], pos + (i - 1));
      NextHoldsNeeded(uses, syls, pos, states[0], choices, states, codes, i - 1);
    }
  }

  lemma {:induction false} EndHoldsNeeded(uses: BlockUses, block: Block, pos: nat, start: AllocState, a: AllocState, victim: nat)
    requires IsLastUses(block, pos, uses.lastUse)
    requires var at := pos + |block.syllables|;
             HeldWhereNeeded(uses, start, pos, a, at) && RewriteEnd(uses, a, block.terminator, at, victim).Some?
    ensures var a' := RewriteEnd(uses, a, block.terminator, pos + |block.syllables|, victim).value.state;
            forall v :: v in a'.regOf ==> v in uses.liveOut || (v in start.regOf && !uses.NeededFrom(v, pos))
  {
    var at, t := pos + |block.syllables|, block.terminator;
    if t.BranchTo? && t.cond.VReg? {
      GrantHolds(a, t.cond.v, {t.cond.v}, victim);
      assert UsedAt(block, |block.syllables|, t.cond.v);
    }
    forall v: nat | v in uses.lastUse && uses.lastUse[v] >= at
      ensures uses.lastUse[v] == at && t.BranchTo? && t.cond == VReg(v)
    {
      assert UsedAt(block, uses.lastUse[v] - pos, v);
    }
  }

  /**
   * At the end of a block a virtual register still has a physical one only if it is live there, or if it had it
   * before the block, which neither uses it nor has it live at its end.
   */
  lemma {:induction false} BlockHoldsNeeded(uses: BlockUses, block: Block, pos: nat, a: AllocState, a': AllocState, out: Block)
    requires BlockAllocated(uses, block, pos, a, a', out) && IsLastUses(block, pos, uses.lastUse)
    ensures forall v :: v in a'.regOf ==> v in uses.liveOut || (v in a.regOf && !uses.NeededFrom(v, pos))
  {
    var choices, states, codes, victim :| BlockAllocatedBy(uses, block, pos, a, a', out, choices, states, codes, victim);
    var n := |block.syllables|;
    forall j | 0 <= j < n
      ensures UsesKnownAt(uses, block.syllables[j], pos + j)
    {
      LastUsesKnown(uses, block, pos, j);
    }
    RunHoldsNeeded(uses, block.syllables, pos, choices, states, codes, n);
    EndHoldsNeeded(uses, block, pos, a, states[n], victim);
  }

  lemma {:induction false} LastUsesKnown(uses: BlockUses, block: Block, pos: nat, j: nat)
    requires IsLastUses(block, pos, uses.lastUse) && j < |block.syllables|
    ensures UsesKnownAt(uses, block.syllables[j], pos + j)
  {
    forall v: nat
      ensures v in uses.lastUse && uses.lastUse[v] == pos + j ==> RegValue(VReg(v)) in block.syllables[j].srcs
      ensures RegValue(VReg(v)) in block.syllables[j].srcs ==> v in uses.lastUse && uses.lastUse[v] >= pos + j
    {
      assert UsedAt(block, j, v) <==> RegValue(VReg(v)) in block.syllables[j].srcs;
      if v in uses.lastUse { assert UsedAt(block, uses.lastUse[v] - pos, v); }
    }
  }
}
