/** What holds throughout the allocation of a whole function. */
module AllocationRuns {
  import opened Mir
  import opened Regs
  import opened RegAlloc
  import opened BlockAllocation
  import opened LivenessFixpoint
  import opened Allocator

  const VREGS: nat := 64

  ghost predicate KnowsSmall(a: AllocState) {
    forall v: nat :: InState(a, v) ==> v < VREGS
  }

  /** Registers and slots are in order, and the allocator knows of registers below 64 only. */
  ghost predicate Sound(a: AllocState, base: int) {
    Valid(a) && SlotsCounted(a) && a.base == base && KnowsSmall(a)
  }

  lemma {:induction false} InitialSound(base: int)
    ensures Sound(Initial(base), base)
  {
    InitialValid(base);
  }

  lemma {:induction false} MentionsSmall(syl: Syllable, v: nat)
    requires SmallSyllable(syl) && Mentions(syl, v)
    ensures v < VREGS
  {
  }

  lemma {:induction false} StepKeepsSound(uses: BlockUses, syl: Syllable, pos: nat, victims: seq<nat>, a: AllocState, a': AllocState,
                                          code: seq<Syllable>, base: int)
    requires IsStep(uses, syl, pos, victims, a, a', code) && SmallSyllable(syl) && Sound(a, base)
    ensures Sound(a', base)
  {
    RewriteSyllableValid(uses, a, syl, pos, victims);
    StepCounts(uses, syl, pos, victims, a, a', code);
    StepMentions(uses, syl, pos, victims, a, a', code);
    forall v: nat | InState(a', v)
      ensures v < VREGS
    {
      if !InState(a, v) {
        MentionsSmall(syl, v);
      }
    }
  }

  /** Whatever victims are chosen, every state within a block is in order. */
  lemma {:induction false} RunKeepsSound(uses: BlockUses, syls: seq<Syllable>, pos: nat, choices: seq<seq<nat>>,
                                         states: seq<AllocState>, codes: seq<seq<Syllable>>, base: int, i: nat)
    requires IsRun(uses, syls, pos, choices, states, codes) && i <= |syls| && Sound(states[0], base)
    requires forall n :: 0 <= n < |syls| ==> SmallSyllable(syls[n])
    ensures Sound(states[i], base)
    decreases i
  {
    if i > 0 {
      RunKeepsSound(uses, syls, pos, choices, states, codes, base, i - 1);
      StepOfRun(uses, syls, pos, choices, states, codes, i - 1);
      StepKeepsSound(uses, syls[i - 1], pos + i - 1, choices[i - 1], states[i - 1], states[i], codes[i - 1], base);
    }
  }

  lemma {:induction false} GrantKeepsSound(a: AllocState, v: nat, protected: set<nat>, victim: nat, base: int)
    requires Sound(a, base) && v < VREGS && PregForVreg(a, v, protected, victim).Some?
    ensures Sound(PregForVreg(a, v, protected, victim).value.state, base)
  {
    PregForVregValid(a, v, protected, victim);
    PregForVregCounts(a, v, protected, victim);
    GrantKnows(a, v, protected, victim);
  }

  lemma {:induction false} GrantKnows(a: AllocState, v: nat, protected: set<nat>, victim: nat)
    requires KnowsSmall(a) && v < VREGS && PregForVreg(a, v, protected, victim).Some?
    ensures var a' := PregForVreg(a, v, protected, victim).value.state; KnowsSmall(a') && a'.base == a.base
  {
    PregForVregFrame(a, v, protected, victim);
    var a' := PregForVreg(a, v, protected, victim).value.state;
    assert KeepsRest(a, a', v, protected);
    assert forall u: nat :: InState(a', u) ==> InState(a, u) || u == v;
  }

  lemma {:induction false} FreeKnows(a: AllocState, v: nat)
    requires KnowsSmall(a) && SlotsCounted(a)
    ensures KnowsSmall(FreeVreg(a, v)) && SlotsCounted(FreeVreg(a, v)) && FreeVreg(a, v).base == a.base
  {
    assert forall u: nat :: InState(FreeVreg(a, v), u) ==> InState(a, u);
  }

  lemma {:induction false} FreeKeepsSound(a: AllocState, v: nat, base: int)
    requires Sound(a, base)
    ensures Sound(FreeVreg(a, v), base)
  {
    FreeVregValid(a, v);
    FreeKnows(a, v);
  }

  lemma {:induction false} EndKeepsSound(uses: BlockUses, a: AllocState, term: Terminator, pos: nat, victim: nat, base: int)
    requires Sound(a, base) && (term.BranchTo? && term.cond.VReg? ==> term.cond.v < VREGS)
    requires RewriteEnd(uses, a, term, pos, victim).Some?
    ensures Sound(RewriteEnd(uses, a, term, pos, victim).value.state, base)
  {
    if term.BranchTo? && term.cond.VReg? {
      var v := term.cond.v;
      GrantKeepsSound(a, v, {v}, victim, base);
      FreeKeepsSound(PregForVreg(a, v, {v}, victim).value.state, v, base);
    }
  }

  lemma {:induction false} BlockKeepsSound(uses: BlockUses, block: Block, pos: nat, a: AllocState, a': AllocState, out: Block, base: int)
    requires BlockAllocated(uses, block, pos, a, a', out) && SmallBlock(block) && Sound(a, base)
    ensures Sound(a', base)
  {
    var n := |block.syllables|;
    var choices, states, codes, victim :| BlockAllocatedBy(uses, block, pos, a, a', out, choices, states, codes, victim);
    RunKeepsSound(uses, block.syllables, pos, choices, states, codes, base, n);
    EndKeepsSound(uses, states[n], block.terminator, pos + n, victim, base);
  }

  ghost predicate SmallBlocks(blocks: seq<Block>) {
    forall b :: 0 <= b < |blocks| ==> SmallBlock(blocks[b])
  }

  lemma {:induction false} NextKeepsSound(uses: seq<BlockUses>, blocks: seq<Block>, states: seq<AllocState>, out: seq<Block>, base: int, b: nat)
    requires BlocksAllocated(uses, blocks, states, out) && SmallBlocks(blocks) && b < |out| && Sound(states[b], base)
    ensures Sound(states[b + 1], base)
  {
    BlockKeepsSound(uses[b], blocks[b], BlockStart(blocks, b), states[b], states[b + 1], out[b], base);
  }

  /** Every state between two blocks is in order. */
  lemma {:induction false} BlocksKeepSound(uses: seq<BlockUses>, blocks: seq<Block>, states: seq<AllocState>, out: seq<Block>, base: int, b: nat)
    requires BlocksAllocated(uses, blocks, states, out) && SmallBlocks(blocks) && b <= |out|
    requires Sound(states[0], base)
    ensures Sound(states[b], base)
    decreases b
  {
    if b > 0 {
      BlocksKeepSound(uses, blocks, states, out, base, b - 1);
      NextKeepsSound(uses, blocks, states, out, base, b - 1);
    }
  }

  /** The registers are a partition, and the slots are words of memory apart from each other and from the link word. */
  ghost predicate Fits(a: AllocState, memorySize: nat) {
    && Valid(a)
    && (forall v :: v in a.slots ==> LinkRegSaveAddr(memorySize) + 8 <= a.slots[v] && a.slots[v] + SPILL_SLOT_BYTES <= memorySize)
    && (forall v, w :: v in a.slots && w in a.slots && v != w ==>
          a.slots[v] + SPILL_SLOT_BYTES <= a.slots[w] || a.slots[w] + SPILL_SLOT_BYTES <= a.slots[v])
  }

  lemma {:induction false} SoundFits(a: AllocState, memorySize: nat)
    requires Sound(a, SpillBase(memorySize)) && memorySize >= 8192
    ensures Fits(a, memorySize)
  {
    assert a.slots.Keys <= FirstVregs(VREGS) by {
      assert forall v: nat :: v in a.slots ==> InState(a, v);
    }
    SpillSlotsFit(a, memorySize, FirstVregs(VREGS));
  }

  ghost function FirstVregs(n: nat): (s: set<nat>)
    ensures |s| == n && forall v :: v in s <==> 0 <= v < n
  {
    if n == 0 then {} else FirstVregs(n - 1) + {n - 1}
  }

  /**
   * In every allocation of a function with at most 64 virtual registers, and at least 8 KiB of memory, each state
   * between its blocks is a partition of r2..r30 with all spill slots in place.
   */
  lemma {:induction false} AllocationFits(uses: seq<BlockUses>, blocks: seq<Block>, states: seq<AllocState>, out: seq<Block>, memorySize: nat, b: nat)
    requires BlocksAllocated(uses, blocks, states, out) && SmallBlocks(blocks) && b <= |out|
    requires states[0] == Initial(SpillBase(memorySize)) && memorySize >= 8192
    ensures Fits(states[b], memorySize)
  {
    InitialSound(SpillBase(memorySize));
    BlocksKeepSound(uses, blocks, states, out, SpillBase(memorySize), b);
    SoundFits(states[b], memorySize);
  }

  /** So is each state within a block, whatever victims were chosen. */
  lemma {:induction false} AllocationFitsWithin(uses: seq<BlockUses>, blocks: seq<Block>, states: seq<AllocState>, out: seq<Block>, memorySize: nat,
                                                b: nat, choices: seq<seq<nat>>, within: seq<AllocState>, codes: seq<seq<Syllable>>, i: nat)
    requires BlocksAllocated(uses, blocks, states, out) && SmallBlocks(blocks) && b < |out|
    requires states[0] == Initial(SpillBase(memorySize)) && memorySize >= 8192
    requires IsRun(uses[b], blocks[b].syllables, BlockStart(blocks, b), choices, within, codes) && within[0] == states[b]
    requires i <= |blocks[b].syllables|
    ensures Fits(within[i], memorySize)
  {
    InitialSound(SpillBase(memorySize));
    BlocksKeepSound(uses, blocks, states, out, SpillBase(memorySize), b);
    BlockFitsWithin(uses[b], blocks[b], BlockStart(blocks, b), choices, within, codes, memorySize, i);
  }

  lemma {:induction false} BlockFitsWithin(uses: BlockUses, block: Block, pos: nat, choices: seq<seq<nat>>, within: seq<AllocState>,
                                           codes: seq<seq<Syllable>>, memorySize: nat, i: nat)
    requires IsRun(uses, block.syllables, pos, choices, within, codes) && i <= |block.syllables| && SmallBlock(block)
    requires Sound(within[0], SpillBase(memorySize)) && memorySize >= 8192
    ensures Fits(within[i], memorySize)
  {
    RunKeepsSound(uses, block.syllables, pos, choices, within, codes, SpillBase(memorySize), i);
    SoundFits(within[i], memorySize);
  }
}
