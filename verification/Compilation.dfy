/** One block through the whole back end: allocation, scheduling, emission and packing. */
module Compilation {
  import opened Collections
  import opened Opcodes
  import opened Mir
  import opened Machine
  import opened RegAlloc
  import opened SpillMeaning
  import opened RegAllocMeaning
  import BlockAllocation
  import opened SchedDag
  import opened Scheduler
  import opened ScheduleMeaning
  import opened Asm
  import opened AsmMeaning
  import opened Lowering
  import opened Emitter
  import opened PackerMeaning
  import opened PackedProgram
  import opened Pipeline

  // ----- Allocated code is what emission expects -----

  lemma {:induction false} PlainConcat(xs: seq<Syllable>, ys: seq<Syllable>)
    requires PlainSyllables(xs) && PlainSyllables(ys)
    ensures PlainSyllables(xs + ys)
  {
  }

  lemma {:induction false} GrantPlain(a: AllocState, v: nat, protected: set<nat>, victim: nat)
    requires PregForVreg(a, v, protected, victim).Some?
    ensures PlainSyllables(PregForVreg(a, v, protected, victim).value.code)
  {
  }

  lemma {:induction false} SourcesPlain(a: AllocState, srcs: seq<Value>, protected: set<nat>, victims: seq<nat>)
    requires |victims| == |srcs| && RewriteSrcs(a, srcs, protected, victims).Some?
    ensures var r := RewriteSrcs(a, srcs, protected, victims).value; PlainSyllables(r.code) && |r.srcs| == |srcs|
  {
    if srcs != [] {
      var n := |srcs| - 1;
      SourcesPlain(a, srcs[..n], protected, victims[..n]);
      if srcs[n].RegValue? && srcs[n].reg.VReg? {
        GrantPlain(RewriteSrcs(a, srcs[..n], protected, victims[..n]).value.state, srcs[n].reg.v, protected, victims[n]);
      }
    }
  }

  lemma {:induction false} StepPlain(uses: BlockUses, syl: Syllable, pos: nat, victims: seq<nat>, a: AllocState, a': AllocState, code: seq<Syllable>)
    requires IsStep(uses, syl, pos, victims, a, a', code) && PlainSyllable(syl)
    ensures PlainSyllables(code)
  {
    var n, vs := |syl.srcs|, SrcVregs(syl.srcs);
    SourcesPlain(a, syl.srcs, SetOf(vs), victims[..n]);
    var r := RewriteSrcs(a, syl.srcs, SetOf(vs), victims[..n]).value;
    if syl.dst.Some? && syl.dst.value.VReg? {
      var a2, protected := FreeSources(uses, r.state, vs, syl.dst, pos), StillProtected(uses, vs, syl.dst, pos);
      GrantPlain(a2, syl.dst.value.v, protected, victims[n]);
      var g := PregForVreg(a2, syl.dst.value.v, protected, victims[n]).value;
      PlainConcat(r.code, g.code);
      PlainConcat(r.code + g.code, [Syllable(syl.opcode, Some(PReg(g.preg)), r.srcs)]);
    } else {
      PlainConcat(r.code, [Syllable(syl.opcode, syl.dst, r.srcs)]);
    }
  }

  lemma {:induction false} RunStepPlain(uses: BlockUses, syls: seq<Syllable>, pos: nat, choices: seq<seq<nat>>,
                                        states: seq<AllocState>, codes: seq<seq<Syllable>>, i: nat)
    requires IsRun(uses, syls, pos, choices, states, codes) && i < |syls| && PlainSyllable(syls[i])
    ensures PlainSyllables(codes[i])
  {
    StepOfRun(uses, syls, pos, choices, states, codes, i);
    StepPlain(uses, syls[i], pos + i, choices[i], states[i], states[i + 1], codes[i]);
  }

  lemma {:induction false} RunPlain(uses: BlockUses, syls: seq<Syllable>, pos: nat, choices: seq<seq<nat>>,
                                    states: seq<AllocState>, codes: seq<seq<Syllable>>, n: nat)
    requires IsRun(uses, syls, pos, choices, states, codes) && n <= |syls| && PlainSyllables(syls)
    ensures PlainSyllables(Concat(codes[..n]))
    decreases n
  {
    if n > 0 {
      RunPlain(uses, syls, pos, choices, states, codes, n - 1);
      assert codes[..n][..n - 1] == codes[..n - 1];
      RunStepPlain(uses, syls, pos, choices, states, codes, n - 1);
      PlainConcat(Concat(codes[..n - 1]), codes[n - 1]);
    }
  }

  lemma {:induction false} EndPlain(uses: BlockUses, a: AllocState, term: Terminator, pos: nat, victim: nat)
    requires RewriteEnd(uses, a, term, pos, victim).Some?
    ensures PlainSyllables(RewriteEnd(uses, a, term, pos, victim).value.code)
  {
    if term.BranchTo? && term.cond.VReg? {
      GrantPlain(a, term.cond.v, {term.cond.v}, victim);
    }
  }

  /** The allocator turns proper syllables into proper syllables. */
  lemma {:induction false} AllocatedIsPlain(uses: BlockUses, block: Block, pos: nat, a: AllocState, a': AllocState, out: Block,
                                            choices: seq<seq<nat>>, states: seq<AllocState>, codes: seq<seq<Syllable>>, victim: nat)
    requires BlockAllocatedBy(uses, block, pos, a, a', out, choices, states, codes, victim) && PlainSyllables(block.syllables)
    ensures PlainSyllables(out.syllables)
  {
    var n := |block.syllables|;
    RunPlain(uses, block.syllables, pos, choices, states, codes, n);
    assert codes[..n] == codes;
    EndPlain(uses, states[n], block.terminator, pos + n, victim);
    PlainConcat(Concat(codes), RewriteEnd(uses, states[n], block.terminator, pos + n, victim).value.code);
  }

  // ----- End to end -----

  /** The packed bundles are made from the syllables by scheduling, emission and packing of the emitted segment. */
  ghost predicate CompiledBy(proc: Processor, syls: seq<Syllable>, g: Graph, order: seq<nat>, e: Emission, e': Emission,
                             segment: seq<Bundle>, packed: seq<Bundle>) {
    && IsSchedule(syls, g, order)
    && EmitSyllables(proc, e, Reordered(syls, order)) == Done(e') && e'.items == e.items + AsItems(segment)
    && IsPacked(proc, segment, packed)
  }

  /**
   * From virtual registers to packed bundles: entered by two machines that agree on what is live, the block over
   * virtual registers and its packed bundles leave the same return register, fixed registers and memory outside
   * the spill slots, what is live out is in its place, and the branch goes the same way; if no predicate is spilled,
   * stack and absolute addresses are apart, and no packed bundle joins syllables that must not share one.
   */
  lemma {:induction false} CompiledBlockPreserved(isa: Isa, uses: BlockUses, block: Block, pos: nat, a: AllocState, a': AllocState, out: Block,
                                   choices: seq<seq<nat>>, states: seq<AllocState>, codes: seq<seq<Syllable>>, victim: nat,
                                   known: set<RegKey>, proc: Processor, g: Graph, order: seq<nat>, e: Emission, e': Emission,
                                   segment: seq<Bundle>, packed: seq<Bundle>, sv: State, sp: State)
    requires BlockAllocatedBy(uses, block, pos, a, a', out, choices, states, codes, victim)
    requires BlockAllocation.RunInScope(isa, uses, block.syllables, pos, choices, states, codes, known, sv)
    requires BlockAllocation.EndInScope(uses, block.terminator, pos + |block.syllables|, BlockAllocation.Known(known, block.syllables))
    requires Related(isa, a, states[|block.syllables|].nextSlot, LiveKeys(known, uses, pos), sv, sp)
    requires PlainSyllables(block.syllables) && CompiledBy(proc, out.syllables, g, order, e, e', segment, packed)
    requires BucketsDisjoint(out.syllables) && SegmentOrderly(proc, segment, packed)
    ensures BlockAllocation.BlockPreserved(isa, uses, block, out, a', states[|block.syllables|].nextSlot, known,
                                           Run(isa, DecodeAll(block.syllables), sv), RunBundles(isa, packed, sp))
  {
    BlockAllocation.AllocationPreservesMeaning(isa, uses, block, pos, a, a', out, choices, states, codes, victim, known, sv, sp);
    AllocatedIsPlain(uses, block, pos, a, a', out, choices, states, codes, victim);
    BlockPreserved(isa, proc, out.syllables, g, order, e, e', segment, packed, sp);
  }
}
