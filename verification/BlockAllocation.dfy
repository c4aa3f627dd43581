/** Register allocation of a whole block preserves its meaning. */
module BlockAllocation {
  import opened Collections
  import opened Opcodes
  import opened Mir
  import opened Machine
  import opened Regs
  import opened RegAlloc
  import opened SpillMeaning
  import opened RegAllocMeaning

  /** The virtual registers that hold a value after the given syllables. */
  ghost function Known(known: set<RegKey>, syls: seq<Syllable>): set<RegKey> {
    if syls == [] then known
    else Known(known, syls[..|syls| - 1]) + DestVreg(DestRegKey(syls[|syls| - 1]))
  }

  predicate Mentions(syl: Syllable, v: nat) {
    RegValue(VReg(v)) in syl.srcs || syl.dst == Some(VReg(v))
  }

  predicate MentionedIn(syls: seq<Syllable>, v: nat) {
    exists i :: 0 <= i < |syls| && Mentions(syls[i], v)
  }

  predicate InState(a: AllocState, v: nat) {
    v in a.regOf || v in a.slots
  }

  /** Every virtual register read has a value; every last use is recorded. */
  ghost predicate UsesInScope(uses: BlockUses, syls: seq<Syllable>, pos: nat, known: set<RegKey>) {
    && (forall i, j :: 0 <= i < |syls| && 0 <= j < |syls[i].srcs| ==>
          Readable(Known(known, syls[..i]), SourceClass(syls[i].opcode), syls[i].srcs[j]))
    && (forall i, v :: 0 <= i < |syls| && RegValue(VReg(v)) in syls[i].srcs ==>
          v in uses.lastUse && uses.lastUse[v] >= pos + i)
  }

  /** A virtual destination is new to the block and to the allocator; a physical one is never handed out. */
  ghost predicate DefsInScope(a: AllocState, syls: seq<Syllable>) {
    forall i :: 0 <= i < |syls| && syls[i].dst.Some? ==>
      match syls[i].dst.value
      case PReg(p) => !Allocatable(p)
      case VReg(d) => !InState(a, d) && !MentionedIn(syls[..i], d) && RegValue(VReg(d)) !in syls[i].srcs
  }

  /** No access of the virtual-register run touches the words the run spills to. */
  ghost predicate StaysOutOfSpills(isa: Isa, syls: seq<Syllable>, sv: State, base: int, area: nat) {
    forall i :: 0 <= i < |syls| ==> StaysOutside(base, area, syls[i], Run(isa, DecodeAll(syls[..i]), sv))
  }

  /** Every destination is fixed or safe at its syllable. */
  ghost predicate DestsSafe(uses: BlockUses, syls: seq<Syllable>, pos: nat, choices: seq<seq<nat>>, states: seq<AllocState>) {
    |states| > |syls| && |choices| == |syls| && forall i :: 0 <= i < |syls| ==> DestSafe(uses, states[i], syls[i], pos + i, choices[i])
  }

  // ----- What the allocator has heard of -----

  lemma {:induction false} StepMentions(uses: BlockUses, syl: Syllable, pos: nat, victims: seq<nat>, a: AllocState, a': AllocState, code: seq<Syllable>)
    requires IsStep(uses, syl, pos, victims, a, a', code) && Valid(a)
    ensures a'.base == a.base && a.nextSlot <= a'.nextSlot
    ensures forall u :: u in a.slots ==> u in a'.slots
    ensures forall u :: InState(a', u) ==> InState(a, u) || Mentions(syl, u)
  {
    var n, vs := |syl.srcs|, SrcVregs(syl.srcs);
    RewriteSrcsValid(a, syl.srcs, SetOf(vs), victims[..n]);
    RewriteSrcsGrows(a, syl.srcs, SetOf(vs), victims[..n]);
    var r := RewriteSrcs(a, syl.srcs, SetOf(vs), victims[..n]).value.state;
    FreeSourcesValid(uses, r, vs, syl.dst, pos);
    if syl.dst.Some? && syl.dst.value.VReg? {
      PregForVregFrame(FreeSources(uses, r, vs, syl.dst, pos), syl.dst.value.v, StillProtected(uses, vs, syl.dst, pos), victims[n]);
    }
  }

  lemma {:induction false} RunMentions(uses: BlockUses, syls: seq<Syllable>, pos: nat, choices: seq<seq<nat>>,
                                       states: seq<AllocState>, codes: seq<seq<Syllable>>, i: nat)
    requires IsRun(uses, syls, pos, choices, states, codes) && Valid(states[0]) && i <= |syls|
    ensures states[i].base == states[0].base
    ensures forall u :: InState(states[i], u) ==> InState(states[0], u) || MentionedIn(syls[..i], u)
    decreases i
  {
    if i > 0 {
      RunMentions(uses, syls, pos, choices, states, codes, i - 1);
      RunValid(uses, syls, pos, choices, states, codes, i - 1);
      assert IsStep(uses, syls[i - 1], pos + i - 1, choices[i - 1], states[i - 1], states[i - 1 + 1], codes[i - 1]);
      StepMentions(uses, syls[i - 1], pos + i - 1, choices[i - 1], states[i - 1], states[i], codes[i - 1]);
      forall u | InState(states[i], u)
        ensures InState(states[0], u) || MentionedIn(syls[..i], u)
      {
        assert syls[..i][i - 1] == syls[i - 1];
        if MentionedIn(syls[..i - 1], u) {
          var j :| 0 <= j < i - 1 && Mentions(syls[..i - 1][j], u);
          assert syls[..i][j] == syls[j];
        }
      }
    }
  }

  lemma {:induction false} SlotsGrowTo(uses: BlockUses, syls: seq<Syllable>, pos: nat, choices: seq<seq<nat>>,
                                       states: seq<AllocState>, codes: seq<seq<Syllable>>, i: nat)
    requires IsRun(uses, syls, pos, choices, states, codes) && Valid(states[0]) && i <= |syls|
    ensures states[i].nextSlot <= states[|syls|].nextSlot
    ensures forall u :: u in states[i].slots ==> u in states[|syls|].slots
    decreases |syls| - i
  {
    if i < |syls| {
      SlotsGrowTo(uses, syls, pos, choices, states, codes, i + 1);
      RunValid(uses, syls, pos, choices, states, codes, i);
      assert IsStep(uses, syls[i], pos + i, choices[i], states[i], states[i + 1], codes[i]);
      StepMentions(uses, syls[i], pos + i, choices[i], states[i], states[i + 1], codes[i]);
    }
  }

  lemma {:induction false} KnownGrows(known: set<RegKey>, syls: seq<Syllable>, i: nat)
    requires i <= |syls|
    ensures Known(known, syls[..i]) <= Known(known, syls)
    decreases |syls|
  {
    if i < |syls| {
      var n := |syls| - 1;
      KnownGrows(known, syls[..n], i);
      assert syls[..n][..i] == syls[..i];
    } else {
      assert syls[..i] == syls;
    }
  }

  /** A destination that is new to the block and to the allocator is safe, whatever victims are chosen. */
  lemma {:induction false} NewDestsSafe(uses: BlockUses, syls: seq<Syllable>, pos: nat, choices: seq<seq<nat>>,
                         states: seq<AllocState>, codes: seq<seq<Syllable>>)
    requires IsRun(uses, syls, pos, choices, states, codes) && Valid(states[0]) && DefsInScope(states[0], syls)
    ensures DestsSafe(uses, syls, pos, choices, states)
  {
    forall i | 0 <= i < |syls|
      ensures DestSafe(uses, states[i], syls[i], pos + i, choices[i])
    {
      if syls[i].dst.Some? && syls[i].dst.value.VReg? {
        RunMentions(uses, syls, pos, choices, states, codes, i);
        NewDestSafe(uses, states[i], syls[i], syls[i].dst.value.v, pos + i, choices[i]);
      }
    }
  }

  lemma {:induction false} NewDestSafe(uses: BlockUses, a: AllocState, syl: Syllable, d: nat, pos: nat, victims: seq<nat>)
    requires syl.dst == Some(VReg(d)) && !InState(a, d) && RegValue(VReg(d)) !in syl.srcs
    ensures DestSafe(uses, a, syl, pos, victims)
  {
    var n, vs := |syl.srcs|, SrcVregs(syl.srcs);
    if |victims| == n + 1 && RewriteSrcs(a, syl.srcs, SetOf(vs), victims[..n]).Some? {
      RewriteSrcsGrows(a, syl.srcs, SetOf(vs), victims[..n]);
    }
  }

  // ----- The simulation -----

  /** A run of the allocator over a block that the theorems below are about. */
  ghost predicate RunInScope(isa: Isa, uses: BlockUses, syls: seq<Syllable>, pos: nat, choices: seq<seq<nat>>,
                             states: seq<AllocState>, codes: seq<seq<Syllable>>, known: set<RegKey>, sv: State) {
    && isa.DoubleWordsRoundTrip()
    && IsRun(uses, syls, pos, choices, states, codes) && Valid(states[0])
    && UsesInScope(uses, syls, pos, known) && DestsSafe(uses, syls, pos, choices, states)
    && NoPredicateSpilled(states[|syls|], Known(known, syls))
    && StaysOutOfSpills(isa, syls, sv, states[0].base, states[|syls|].nextSlot)
  }

  /** After i syllables of the block and the code they were replaced by, the two machines still agree. */
  ghost predicate AgreeAfter(isa: Isa, uses: BlockUses, syls: seq<Syllable>, pos: nat, states: seq<AllocState>,
                             codes: seq<seq<Syllable>>, known: set<RegKey>, sv: State, sp: State, i: nat)
    requires |states| == |syls| + 1 && |codes| == |syls| && i <= |syls|
  {
    Related(isa, states[i], states[|syls|].nextSlot, LiveKeys(Known(known, syls[..i]), uses, pos + i),
            Run(isa, DecodeAll(syls[..i]), sv), Run(isa, DecodeAll(Concat(codes[..i])), sp))
  }

  lemma {:induction false} StepKeepsRelated(isa: Isa, uses: BlockUses, a: AllocState, syl: Syllable, pos: nat, victims: seq<nat>,
                         a': AllocState, code: seq<Syllable>, area: nat, known: set<RegKey>, sv: State, sp: State)
    requires StepInScope(isa, uses, a, syl, pos, victims, a', code, area, known, sv, sp)
    ensures Related(isa, a', area, LiveKeys(known + DestVreg(DestRegKey(syl)), uses, pos + 1),
                    Exec(isa, Decode(syl), sv), Run(isa, DecodeAll(code), sp))
  {
    if syl.dst.Some? && syl.dst.value.VReg? {
      DefiningStepKeepsRelated(isa, uses, a, syl, pos, victims, a', code, area, known, sv, sp);
    } else {
      PlainStepKeepsRelated(isa, uses, a, syl, pos, victims, a', code, area, known, sv, sp);
      assert known + DestVreg(DestRegKey(syl)) == known;
    }
  }

  lemma {:induction false} RunStepKeepsRelated(isa: Isa, uses: BlockUses, syls: seq<Syllable>, pos: nat, choices: seq<seq<nat>>, states: seq<AllocState>,
                            codes: seq<seq<Syllable>>, i: nat, area: nat, known: set<RegKey>, sv: State, sp: State)
    requires isa.DoubleWordsRoundTrip()
    requires IsRun(uses, syls, pos, choices, states, codes) && i < |syls| && Valid(states[i])
    requires SyllableInScope(uses, syls[i], pos + i, known) && DestSafe(uses, states[i], syls[i], pos + i, choices[i])
    requires states[i + 1].nextSlot <= area && NoPredicateSpilled(states[i + 1], known)
    requires StaysOutside(states[i].base, area, syls[i], sv)
    requires Related(isa, states[i], area, LiveKeys(known, uses, pos + i), sv, sp)
    ensures Related(isa, states[i + 1], area, LiveKeys(known + DestVreg(DestRegKey(syls[i])), uses, pos + i + 1),
                    Exec(isa, Decode(syls[i]), sv), Run(isa, DecodeAll(codes[i]), sp))
  {
    assert IsStep(uses, syls[i], pos + i, choices[i], states[i], states[i + 1], codes[i]);
    StepKeepsRelated(isa, uses, states[i], syls[i], pos + i, choices[i], states[i + 1], codes[i], area, known, sv, sp);
  }

  lemma {:induction false} UsesAt(uses: BlockUses, syls: seq<Syllable>, pos: nat, known: set<RegKey>, i: nat)
    requires UsesInScope(uses, syls, pos, known) && i < |syls|
    ensures SyllableInScope(uses, syls[i], pos + i, Known(known, syls[..i]))
  {
  }

  lemma {:induction false} StepAgrees(isa: Isa, uses: BlockUses, syls: seq<Syllable>, pos: nat, choices: seq<seq<nat>>, states: seq<AllocState>,
                   codes: seq<seq<Syllable>>, known: set<RegKey>, sv: State, sp: State, i: nat)
    requires RunInScope(isa, uses, syls, pos, choices, states, codes, known, sv) && i < |syls|
    requires AgreeAfter(isa, uses, syls, pos, states, codes, known, sv, sp, i)
    ensures Related(isa, states[i + 1], states[|syls|].nextSlot,
                    LiveKeys(Known(known, syls[..i]) + DestVreg(DestRegKey(syls[i])), uses, pos + i + 1),
                    Exec(isa, Decode(syls[i]), Run(isa, DecodeAll(syls[..i]), sv)),
                    Run(isa, DecodeAll(codes[i]), Run(isa, DecodeAll(Concat(codes[..i])), sp)))
  {
    var area, known_i := states[|syls|].nextSlot, Known(known, syls[..i]);
    RunValid(uses, syls, pos, choices, states, codes, i);
    RunMentions(uses, syls, pos, choices, states, codes, i);
    SlotsGrowTo(uses, syls, pos, choices, states, codes, i + 1);
    UsesAt(uses, syls, pos, known, i);
    KnownGrows(known, syls, i);
    NoPredicateSpilledEarlier(states[i + 1], states[|syls|], known_i);
    RunStepKeepsRelated(isa, uses, syls, pos, choices, states, codes, i, area, known_i,
                        Run(isa, DecodeAll(syls[..i]), sv), Run(isa, DecodeAll(Concat(codes[..i])), sp));
  }

  lemma {:induction false} Extend(isa: Isa, syls: seq<Syllable>, codes: seq<seq<Syllable>>, known: set<RegKey>, sv: State, sp: State, i: nat)
    requires |codes| == |syls| && i < |syls|
    ensures Known(known, syls[..i + 1]) == Known(known, syls[..i]) + DestVreg(DestRegKey(syls[i]))
    ensures Run(isa, DecodeAll(syls[..i + 1]), sv) == Exec(isa, Decode(syls[i]), Run(isa, DecodeAll(syls[..i]), sv))
    ensures Run(isa, DecodeAll(Concat(codes[..i + 1])), sp) == Run(isa, DecodeAll(codes[i]), Run(isa, DecodeAll(Concat(codes[..i])), sp))
  {
    assert syls[..i + 1] == syls[..i] + [syls[i]];
    assert syls[..i + 1][..i] == syls[..i];
    assert codes[..i + 1][..i] == codes[..i];
    RunCode(isa, syls[..i], [syls[i]], sv);
    RunOne(isa, syls[i], Run(isa, DecodeAll(syls[..i]), sv));
    RunCode(isa, Concat(codes[..i]), codes[i], sp);
  }

  lemma {:induction false} NextAgrees(isa: Isa, uses: BlockUses, syls: seq<Syllable>, pos: nat, choices: seq<seq<nat>>, states: seq<AllocState>,
                   codes: seq<seq<Syllable>>, known: set<RegKey>, sv: State, sp: State, i: nat)
    requires RunInScope(isa, uses, syls, pos, choices, states, codes, known, sv) && i < |syls|
    requires AgreeAfter(isa, uses, syls, pos, states, codes, known, sv, sp, i)
    ensures AgreeAfter(isa, uses, syls, pos, states, codes, known, sv, sp, i + 1)
  {
    StepAgrees(isa, uses, syls, pos, choices, states, codes, known, sv, sp, i);
    Extend(isa, syls, codes, known, sv, sp, i);
  }

  /**
   * Simulation: if the machines agree when a block is entered, they agree when it is left, for every choice
   * of victims, through every eviction, reload and reuse of a register.
   */
  lemma {:induction false} BlockSimulation(isa: Isa, uses: BlockUses, syls: seq<Syllable>, pos: nat, choices: seq<seq<nat>>,
                                           states: seq<AllocState>, codes: seq<seq<Syllable>>, known: set<RegKey>, sv: State, sp: State, i: nat)
    requires RunInScope(isa, uses, syls, pos, choices, states, codes, known, sv) && i <= |syls|
    requires Related(isa, states[0], states[|syls|].nextSlot, LiveKeys(known, uses, pos), sv, sp)
    ensures AgreeAfter(isa, uses, syls, pos, states, codes, known, sv, sp, i)
    decreases i
  {
    if i > 0 {
      BlockSimulation(isa, uses, syls, pos, choices, states, codes, known, sv, sp, i - 1);
      NextAgrees(isa, uses, syls, pos, choices, states, codes, known, sv, sp, i - 1);
    }
  }

  /** The branch that ends the block tests the same condition, with no code in between. */
  lemma {:induction false} BranchConditionPreserved(isa: Isa, uses: BlockUses, a: AllocState, area: nat, known: set<RegKey>, cond: nat, victim: nat,
                                 pos: nat, sv: State, sp: State)
    requires Related(isa, a, area, LiveKeys(known, uses, pos), sv, sp)
    requires RegKey(Pred, VReg(cond)) in known && uses.NeededFrom(cond, pos)
    ensures var g := PregForVreg(a, cond, {cond}, victim);
            && g.Some? && g.value.code == []
            && ReadReg(sp, RegKey(Pred, PReg(g.value.preg))) == ReadReg(sv, RegKey(Pred, VReg(cond)))
  {
    var k := RegKey(Pred, VReg(cond));
    assert k in LiveKeys(known, uses, pos);
    assert AtHome(isa, a, sp, k, ReadReg(sv, k));
  }

  // ----- The whole block -----

  lemma {:induction false} BodySimulation(isa: Isa, uses: BlockUses, syls: seq<Syllable>, pos: nat, choices: seq<seq<nat>>,
                                          states: seq<AllocState>, codes: seq<seq<Syllable>>, known: set<RegKey>, sv: State, sp: State)
    requires RunInScope(isa, uses, syls, pos, choices, states, codes, known, sv)
    requires Related(isa, states[0], states[|syls|].nextSlot, LiveKeys(known, uses, pos), sv, sp)
    ensures Related(isa, states[|syls|], states[|syls|].nextSlot, LiveKeys(Known(known, syls), uses, pos + |syls|),
                    Run(isa, DecodeAll(syls), sv), Run(isa, DecodeAll(Concat(codes)), sp))
  {
    var n := |syls|;
    BlockSimulation(isa, uses, syls, pos, choices, states, codes, known, sv, sp, n);
    assert syls[..n] == syls && codes[..n] == codes;
  }

  /** A branch tests a predicate that has a value, and the branch's use of it is recorded. */
  ghost predicate EndInScope(uses: BlockUses, term: Terminator, pos: nat, known: set<RegKey>) {
    term.BranchTo? ==>
      match term.cond
      case VReg(c) => RegKey(Pred, VReg(c)) in known && c in uses.lastUse && uses.lastUse[c] >= pos
      case PReg(p) => !Allocatable(p)
  }

  ghost predicate SameBranch(term: Terminator, term': Terminator, sv: State, sp: State) {
    if term.BranchTo? then
      && term'.BranchTo? && term'.target == term.target
      && ReadReg(sp, RegKey(Pred, term'.cond)) == ReadReg(sv, RegKey(Pred, term.cond))
    else term' == term
  }

  lemma {:induction false} EndPreserved(isa: Isa, uses: BlockUses, a: AllocState, area: nat, known: set<RegKey>, term: Terminator, victim: nat,
                                        pos: nat, sv: State, sp: State)
    requires Related(isa, a, area, LiveKeys(known, uses, pos), sv, sp) && EndInScope(uses, term, pos, known)
    ensures var end := RewriteEnd(uses, a, term, pos, victim);
            && end.Some? && end.value.code == [] && SameBranch(term, end.value.end, sv, sp)
            && Related(isa, end.value.state, area, LiveKeys(known, uses, pos + 1), sv, sp)
  {
    var live, live' := LiveKeys(known, uses, pos), LiveKeys(known, uses, pos + 1);
    if term.BranchTo? && term.cond.VReg? {
      BranchConditionPreserved(isa, uses, a, area, known, term.cond.v, victim, pos, sv, sp);
    } else if term.BranchTo? {
      assert Fixed(RegKey(Pred, term.cond));
    }
    RelatedShrinks(isa, a, RewriteEnd(uses, a, term, pos, victim).value.state, area, live, live', sv, sp);
  }

  /** Nothing live and the same state: the machines agree, whatever the allocator has on record. */
  lemma {:induction false} NothingLive(isa: Isa, uses: BlockUses, pos: nat, a: AllocState, area: nat, s: State)
    requires a.nextSlot <= area
    ensures Related(isa, a, area, LiveKeys({}, uses, pos), s, s)
  {
  }

  /** The machines agree after the block and its code, terminator included. */
  ghost predicate BlockPreserved(isa: Isa, uses: BlockUses, block: Block, out: Block, a': AllocState, area: nat, known: set<RegKey>, sv: State, sp: State) {
    && ReadReg(sp, RegKey(Gpr, PReg(RETVAL_REG))) == ReadReg(sv, RegKey(Gpr, PReg(RETVAL_REG)))
    && (forall k :: Fixed(k) ==> ReadReg(sp, k) == ReadReg(sv, k))
    && (forall x :: !InSpillArea(a'.base, area, x) ==> ReadByte(sp, x) == ReadByte(sv, x))
    && (forall k :: k in Known(known, block.syllables) && k.reg.VReg? && k.reg.v in uses.liveOut ==> AtHome(isa, a', sp, k, ReadReg(sv, k)))
    && out.name == block.name && SameBranch(block.terminator, out.terminator, sv, sp)
  }

  /**
   * A block that defines each virtual register before its uses, and redefines none at the cost of an operand, entered
   * by two machines that agree on what is live: the return register and every other fixed register, and all memory but the spill slots, end up the
   * same, what is live out is in the place the allocator has on record, and the branch goes the same way.
   */
  lemma {:induction false} AllocationPreservesMeaning(isa: Isa, uses: BlockUses, block: Block, pos: nat, a: AllocState, a': AllocState, out: Block,
                                   choices: seq<seq<nat>>, states: seq<AllocState>, codes: seq<seq<Syllable>>, victim: nat,
                                   known: set<RegKey>, sv: State, sp: State)
    requires BlockAllocatedBy(uses, block, pos, a, a', out, choices, states, codes, victim)
    requires RunInScope(isa, uses, block.syllables, pos, choices, states, codes, known, sv)
    requires EndInScope(uses, block.terminator, pos + |block.syllables|, Known(known, block.syllables))
    requires Related(isa, a, states[|block.syllables|].nextSlot, LiveKeys(known, uses, pos), sv, sp)
    ensures BlockPreserved(isa, uses, block, out, a', states[|block.syllables|].nextSlot, known,
                           Run(isa, DecodeAll(block.syllables), sv), Run(isa, DecodeAll(out.syllables), sp))
  {
    var n := |block.syllables|;
    BodySimulation(isa, uses, block.syllables, pos, choices, states, codes, known, sv, sp);
    FinishBlock(isa, uses, block, pos + n, states[n], a', out, Concat(codes), victim, states[n].nextSlot, known, sv, sp);
  }

  lemma {:induction false} FinishBlock(isa: Isa, uses: BlockUses, block: Block, pos: nat, a: AllocState, a': AllocState, out: Block,
                                       code: seq<Syllable>, victim: nat, area: nat, known: set<RegKey>, sv: State, sp: State)
    requires EndInScope(uses, block.terminator, pos, Known(known, block.syllables))
    requires Related(isa, a, area, LiveKeys(Known(known, block.syllables), uses, pos),
                     Run(isa, DecodeAll(block.syllables), sv), Run(isa, DecodeAll(code), sp))
    requires var end := RewriteEnd(uses, a, block.terminator, pos, victim);
             end.Some? && end.value.state == a' && out == Block(block.name, code + end.value.code, end.value.end)
    ensures BlockPreserved(isa, uses, block, out, a', area, known,
                           Run(isa, DecodeAll(block.syllables), sv), Run(isa, DecodeAll(out.syllables), sp))
  {
    var sv', sp' := Run(isa, DecodeAll(block.syllables), sv), Run(isa, DecodeAll(code), sp);
    EndPreserved(isa, uses, a, area, Known(known, block.syllables), block.terminator, victim, pos, sv', sp');
    assert out.syllables == code;
    EndOfBlock(isa, uses, block, out, a', pos + 1, area, known, sv', sp');
  }

  lemma {:induction false} EndOfBlock(isa: Isa, uses: BlockUses, block: Block, out: Block, a': AllocState, pos: nat, area: nat, known: set<RegKey>,
                                      sv: State, sp: State)
    requires Related(isa, a', area, LiveKeys(Known(known, block.syllables), uses, pos), sv, sp)
    requires out.name == block.name && SameBranch(block.terminator, out.terminator, sv, sp)
    ensures BlockPreserved(isa, uses, block, out, a', area, known, sv, sp)
  {
    assert Fixed(RegKey(Gpr, PReg(RETVAL_REG)));
    forall k | k in Known(known, block.syllables) && k.reg.VReg? && k.reg.v in uses.liveOut
      ensures AtHome(isa, a', sp, k, ReadReg(sv, k))
    {
      assert k in LiveKeys(Known(known, block.syllables), uses, pos);
    }
  }
}
