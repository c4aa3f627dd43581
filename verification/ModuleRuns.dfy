/** Runs of whole modules, scalar and packed, and when their labels are good enough. */
module ModuleRuns {
  import opened Opcodes
  import opened Mir
  import opened Machine
  import opened MirRuns
  import opened Asm
  import opened Emitter
  import opened Packer
  import opened PackerMeaning
  import opened PackedProgram
  import opened Pipeline
  import opened AsmRuns
  import opened EmittedRuns
  import opened EmissionExact

  ghost predicate PlainModule(fns: seq<Function>) {
    forall n: nat :: n < |fns| ==> PlainFunction(fns[n])
  }

  /** At a block's label, with no call under way. */
  function Started(fns: seq<Function>, at: BlockRef, s: State): AsmConfig
    requires at.fn < |fns|
  {
    AsmConfig(LabelOf(fns, at), s, [])
  }

  /**
   * Every run of the module, through branches, jumps, calls and returns, is a run of the emitted program: it stands
   * at the same blocks in the same states, with the same callers to go back to.
   */
  lemma {:induction false} EmittedModuleRuns(proc: Processor, fns: seq<Function>, isa: Isa, r: seq<ModuleConfig>) returns (asm: seq<AsmConfig>)
    requires EmitFunctions(proc, fns).Done? && PlainModule(fns) && AllCallsFallThrough(fns)
    requires IsModuleRun(isa, fns, r) && InModule(fns, r[0].at) && r[0].calls == []
    ensures IsAsmRun(isa, EmitFunctions(proc, fns).value, asm)
    ensures asm[0] == Started(fns, r[0].at, r[0].state) && RunsCorrespond(fns, r, asm)
  {
    EmittedModuleLaid(proc, fns);
    asm := RunOfEmitted(EmitFunctions(proc, fns).value, fns, isa, r, Started(fns, r[0].at, r[0].state));
  }

  lemma {:induction false} InScopeIsPlain(fns: seq<Function>)
    requires forall f :: f in fns ==> FunctionInScope(f)
    ensures PlainModule(fns)
  {
    forall n: nat | n < |fns|
      ensures PlainFunction(fns[n])
    {
      assert fns[n] in fns;
      assert forall b :: 0 <= b < |fns[n].blocks| ==> BlockInScope(fns[n].blocks[b]);
    }
  }

  /** And so it is of the packed program. */
  lemma {:induction false} PackedModuleRuns(proc: Processor, fns: seq<Function>, isa: Isa, r: seq<ModuleConfig>) returns (asm: seq<AsmConfig>)
    requires OneMemorySlot(proc) && EmitFunctions(proc, fns).Done? && AllCallsFallThrough(fns) && forall f :: f in fns ==> FunctionInScope(f)
    requires IsModuleRun(isa, fns, r) && InModule(fns, r[0].at) && r[0].calls == []
    ensures IsAsmRun(isa, PackProgram(proc, EmitFunctions(proc, fns).value), asm)
    ensures asm[0] == Started(fns, r[0].at, r[0].state) && RunsCorrespond(fns, r, asm)
  {
    var items := EmitFunctions(proc, fns).value;
    InScopeIsPlain(fns);
    asm := EmittedModuleRuns(proc, fns, isa, r);
    EmittedInScope(proc, fns);
    ScalarSegmentsOrderly(proc, items);
    PackedRunsExactlyWhen(isa, proc, items, asm);
  }

  // ----- Distinct labels -----

  /** The emitted program names no two things alike; block names are taken over as they are, function by function. */
  ghost predicate NamesDistinct(fns: seq<Function>) {
    && (forall f: nat, g: nat :: f < g < |fns| && fns[f].blocks != [] && fns[g].blocks != [] ==> fns[f].name != fns[g].name)
    && (forall f: nat, at :: f < |fns| && fns[f].blocks != [] && InModule(fns, at) ==> fns[f].name != BlockOf(fns, at).name)
    && (forall at, at' :: InModule(fns, at) && InModule(fns, at') && at != at' ==> BlockOf(fns, at).name != BlockOf(fns, at').name)
  }

  /** What a label names. */
  datatype Labelling = FunctionLabel(fn: nat) | BlockLabel(at: BlockRef)

  predicate InFunctions(fns: seq<Function>, l: Labelling) {
    match l
    case FunctionLabel(f) => f < |fns| && fns[f].blocks != []
    case BlockLabel(at) => InModule(fns, at)
  }

  function Delimiter(fns: seq<Function>, l: Labelling): nat
    requires InFunctions(fns, l)
  {
    match l
    case FunctionLabel(f) => Entry(fns, f)
    case BlockLabel(at) => LabelOf(fns, at)
  }

  function NameOf(fns: seq<Function>, l: Labelling): string
    requires InFunctions(fns, l)
  {
    match l
    case FunctionLabel(f) => fns[f].name
    case BlockLabel(at) => BlockOf(fns, at).name
  }

  lemma {:induction false} EntryGrows(fns: seq<Function>, f: nat, g: nat)
    requires f <= g <= |fns|
    ensures Entry(fns, f) <= Entry(fns, g)
    ensures f < g ==> Entry(fns, f) + Delimiting(fns[f]) <= Entry(fns, g)
    decreases g - f
  {
    if f < g {
      EntryGrows(fns, f, g - 1);
    }
  }

  lemma {:induction false} DelimitersApart(fns: seq<Function>, l: Labelling, l': Labelling)
    requires InFunctions(fns, l) && InFunctions(fns, l') && l != l'
    ensures Delimiter(fns, l) != Delimiter(fns, l')
  {
    var f, g := if l.FunctionLabel? then l.fn else l.at.fn, if l'.FunctionLabel? then l'.fn else l'.at.fn;
    if f < g { EntryGrows(fns, f, g); }
    if g < f { EntryGrows(fns, g, f); }
  }

  lemma {:induction false} LabelAt(code: Code, fns: seq<Function>, l: Labelling)
    requires LaidModule(code, fns) && InFunctions(fns, l)
    ensures LaidLabel(code, Delimiter(fns, l), NameOf(fns, l))
  {
    match l
    case FunctionLabel(f) => assert LaidFunction(code, fns, f);
    case BlockLabel(at) => LaidAt(code, fns, at);
  }

  lemma {:induction false} FindFunction(fns: seq<Function>, d: nat, n: nat) returns (f: nat)
    requires n <= |fns| && d < Entry(fns, n)
    ensures f < n && Entry(fns, f) <= d < Entry(fns, f) + Delimiting(fns[f])
  {
    if d >= Entry(fns, n - 1) {
      f := n - 1;
    } else {
      f := FindFunction(fns, d, n - 1);
    }
  }

  lemma {:induction false} FindLabel(code: Code, fns: seq<Function>, d: nat) returns (l: Labelling)
    requires LaidModule(code, fns) && d < |code.delimiters| && code.delimiters[d].LabelItem?
    ensures InFunctions(fns, l) && Delimiter(fns, l) == d
  {
    var f := FindFunction(fns, d, |fns|);
    var k := d - Entry(fns, f);
    if k == 0 {
      l := FunctionLabel(f);
    } else {
      var at := BlockRef(f, (k - 1) / 2);
      LaidAt(code, fns, at);
      l := BlockLabel(at);
    }
  }

  predicate NamedApart(fns: seq<Function>, l: Labelling, l': Labelling) {
    InFunctions(fns, l) && InFunctions(fns, l') && l != l' ==> NameOf(fns, l) != NameOf(fns, l')
  }

  lemma {:induction false} NamesDistinctIs(fns: seq<Function>)
    ensures NamesDistinct(fns) <==> forall l, l' :: NamedApart(fns, l, l')
  {
    if forall l, l' :: NamedApart(fns, l, l') {
      forall f: nat, g: nat | f < g < |fns| && fns[f].blocks != [] && fns[g].blocks != []
        ensures fns[f].name != fns[g].name
      {
        assert NamedApart(fns, FunctionLabel(f), FunctionLabel(g));
      }
      forall f: nat, at | f < |fns| && fns[f].blocks != [] && InModule(fns, at)
        ensures fns[f].name != BlockOf(fns, at).name
      {
        assert NamedApart(fns, FunctionLabel(f), BlockLabel(at));
      }
      forall at, at' | InModule(fns, at) && InModule(fns, at') && at != at'
        ensures BlockOf(fns, at).name != BlockOf(fns, at').name
      {
        assert NamedApart(fns, BlockLabel(at), BlockLabel(at'));
      }
    }
  }

  lemma {:induction false} LaidLabelsDistinct(items: seq<Item>, fns: seq<Function>)
    requires LaidModule(CodeOf(items), fns)
    ensures LabelsDistinct(items) <==> forall l, l' :: NamedApart(fns, l, l')
  {
    var code := CodeOf(items);
    if LabelsDistinct(items) {
      forall l, l'
        ensures NamedApart(fns, l, l')
      {
        if InFunctions(fns, l) && InFunctions(fns, l') && l != l' {
          LabelAt(code, fns, l);
          LabelAt(code, fns, l');
          DelimitersApart(fns, l, l');
        }
      }
    }
    if forall l, l' :: NamedApart(fns, l, l') {
      forall i, j | 0 <= i < j < |Delimiters(items)| && Delimiters(items)[i].LabelItem?
        ensures Delimiters(items)[i] != Delimiters(items)[j]
      {
        if Delimiters(items)[j].LabelItem? {
          var l := FindLabel(code, fns, i);
          var l' := FindLabel(code, fns, j);
          LabelAt(code, fns, l);
          LabelAt(code, fns, l');
          assert NamedApart(fns, l, l');
        }
      }
    }
  }

  /** A label of the emitted program is unique exactly when no two functions and blocks of the module share a name. */
  lemma {:induction false} LabelsDistinctExactlyWhen(proc: Processor, fns: seq<Function>)
    requires EmitFunctions(proc, fns).Done? && PlainModule(fns)
    ensures LabelsDistinct(EmitFunctions(proc, fns).value) <==> NamesDistinct(fns)
  {
    EmittedModuleLaid(proc, fns);
    NamesDistinctIs(fns);
    LaidLabelsDistinct(EmitFunctions(proc, fns).value, fns);
  }

  /** With distinct names the emitted program has no other run. */
  lemma {:induction false} EmittedRunUnique(proc: Processor, fns: seq<Function>, isa: Isa, r: seq<ModuleConfig>, asm: seq<AsmConfig>)
    requires EmitFunctions(proc, fns).Done? && PlainModule(fns) && AllCallsFallThrough(fns) && NamesDistinct(fns)
    requires IsModuleRun(isa, fns, r) && InModule(fns, r[0].at) && r[0].calls == []
    requires IsAsmRun(isa, EmitFunctions(proc, fns).value, asm) && |asm| == |r| && asm[0] == Started(fns, r[0].at, r[0].state)
    ensures RunsCorrespond(fns, r, asm)
  {
    var items := EmitFunctions(proc, fns).value;
    var other := EmittedModuleRuns(proc, fns, isa, r);
    LabelsDistinctExactlyWhen(proc, fns);
    SameRuns(isa, items, asm, other);
  }

  lemma {:induction false} SameRuns(isa: Isa, items: seq<Item>, x: seq<AsmConfig>, y: seq<AsmConfig>)
    requires LabelsDistinct(items) && IsAsmRun(isa, items, x) && IsAsmRun(isa, items, y) && |x| == |y| && x[0] == y[0]
    ensures x == y
  {
    SameRun(isa, items, x, y, |x| - 1);
    assert x == x[..|x|] && y == y[..|y|];
  }

  lemma {:induction false} SameRun(isa: Isa, items: seq<Item>, x: seq<AsmConfig>, y: seq<AsmConfig>, n: nat)
    requires LabelsDistinct(items) && IsAsmRun(isa, items, x) && IsAsmRun(isa, items, y) && |x| == |y| && x[0] == y[0] && n < |x|
    ensures x[..n + 1] == y[..n + 1]
  {
    if n > 0 {
      SameRun(isa, items, x, y, n - 1);
      assert x[n - 1] == x[..n][n - 1] == y[..n][n - 1] == y[n - 1];
      AsmStepDeterministic(isa, items, x[n - 1], x[n], y[n]);
    }
  }

  /** A place belongs to one block. */
  lemma {:induction false} StandsOnce(fns: seq<Function>, at: BlockRef, at': BlockRef, k: nat)
    requires InModule(fns, at) && InModule(fns, at') && StandsAt(fns, at, k) && StandsAt(fns, at', k)
    ensures at == at'
  {
    if at.fn < at'.fn { EntryGrows(fns, at.fn, at'.fn); }
    if at'.fn < at.fn { EntryGrows(fns, at'.fn, at.fn); }
  }

  lemma {:induction false} JumpTransfers(code: Code, fns: seq<Function>, at: BlockRef, other: BlockRef, s: State)
    requires LaidModule(code, fns) && InModule(fns, at) && InModule(fns, other)
    requires BlockOf(fns, at).terminator == JumpTo(BlockOf(fns, other).name)
    ensures Transfers(code.delimiters, LabelOf(fns, at) + 1, s, [], AsmConfig(LabelOf(fns, other) + 1, s, []))
  {
    LaidAt(code, fns, at);
    EntryLabelled(code, fns, other);
    TransfersAs(code.delimiters, LabelOf(fns, at) + 1, BlockOf(fns, at).terminator, s, [], AsmConfig(LabelOf(fns, other) + 1, s, []));
  }

  /** The emitted jump can lead to every block of the module that has the target's name. */
  lemma {:induction false} JumpLeadsTo(proc: Processor, fns: seq<Function>, isa: Isa, at: BlockRef, other: BlockRef, s: State)
    requires EmitFunctions(proc, fns).Done? && PlainModule(fns) && InModule(fns, at) && InModule(fns, other)
    requires BlockOf(fns, at).terminator == JumpTo(BlockOf(fns, other).name)
    ensures var s' := Run(isa, DecodeAll(BlockOf(fns, at).syllables), s);
            IsAsmStep(isa, EmitFunctions(proc, fns).value, Started(fns, at, s), AsmConfig(LabelOf(fns, other) + 1, s', []))
  {
    EmittedModuleLaid(proc, fns);
    JumpSteps(EmitFunctions(proc, fns).value, fns, isa, at, other, s);
  }

  lemma {:induction false} JumpSteps(items: seq<Item>, fns: seq<Function>, isa: Isa, at: BlockRef, other: BlockRef, s: State)
    requires LaidModule(CodeOf(items), fns) && InModule(fns, at) && InModule(fns, other)
    requires BlockOf(fns, at).terminator == JumpTo(BlockOf(fns, other).name)
    ensures IsAsmStep(isa, items, Started(fns, at, s), AsmConfig(LabelOf(fns, other) + 1, Run(isa, DecodeAll(BlockOf(fns, at).syllables), s), []))
  {
    var s' := Run(isa, DecodeAll(BlockOf(fns, at).syllables), s);
    StartReaches(items, fns, isa, at, s);
    JumpTransfers(CodeOf(items), fns, at, other, s');
    StepFrom(isa, items, Started(fns, at, s), LabelOf(fns, at) + 1, s', AsmConfig(LabelOf(fns, other) + 1, s', []));
  }

  lemma {:induction false} StartReaches(items: seq<Item>, fns: seq<Function>, isa: Isa, at: BlockRef, s: State)
    requires LaidModule(CodeOf(items), fns) && InModule(fns, at)
    ensures var a := Started(fns, at, s);
            && a.at <= |Delimiters(items)|
            && ToTerminator(isa, items, a.at, a.state) == (LabelOf(fns, at) + 1, Run(isa, DecodeAll(BlockOf(fns, at).syllables), s))
  {
    ReachTerminator(isa, items, fns, at, LabelOf(fns, at), s);
  }

  lemma {:induction false} StepFrom(isa: Isa, items: seq<Item>, a: AsmConfig, k: nat, s: State, a': AsmConfig)
    requires a.at <= |Delimiters(items)| && ToTerminator(isa, items, a.at, a.state) == (k, s) && Transfers(Delimiters(items), k, s, a.back, a')
    ensures IsAsmStep(isa, items, a, a')
  {
  }

  /**
   * A block of another function with the name of a jump's target: the emitted jump can lead to either, and only one
   * of them is where the module goes.
   */
  lemma {:induction false} SharedNameLeadsAstray(proc: Processor, fns: seq<Function>, isa: Isa, c: ModuleConfig, c': ModuleConfig, other: BlockRef)
    requires EmitFunctions(proc, fns).Done? && PlainModule(fns)
    requires IsModuleStep(isa, fns, c, c') && BlockOf(fns, c.at).terminator.JumpTo?
    requires InModule(fns, other) && other != c'.at && BlockOf(fns, other).name == BlockOf(fns, c'.at).name
    ensures var items, a, astray := EmitFunctions(proc, fns).value, Started(fns, c.at, c.state), AsmConfig(LabelOf(fns, other) + 1, c'.state, []);
            && IsAsmStep(isa, items, a, AsmConfig(LabelOf(fns, c'.at) + 1, c'.state, []))
            && IsAsmStep(isa, items, a, astray) && !StandsAt(fns, c'.at, astray.at)
  {
    JumpLeadsTo(proc, fns, isa, c.at, c'.at, c.state);
    JumpLeadsTo(proc, fns, isa, c.at, other, c.state);
    if StandsAt(fns, c'.at, LabelOf(fns, other) + 1) { StandsOnce(fns, c'.at, other, LabelOf(fns, other) + 1); }
  }

  // ----- Two functions with blocks of the same names -----

  function TwoBlocks(name: string): Function {
    Function(name, [Block("entry", [], JumpTo("exit")), Block("exit", [], Return)])
  }

  lemma {:induction false} EmptyBlockEmitted(block: Block, op: Opcode)
    requires block.syllables == [] && ((block.terminator.JumpTo? && op == Jump) || (block.terminator.Return? && op == Ret))
    ensures CanEmitBlock(DEFAULT_PROCESSOR, block) && PlainSyllables(block.syllables)
  {
    TerminatorsFit(op);
  }

  lemma {:induction false} TwoBlocksEmitted(f: Function, name: string)
    requires f == TwoBlocks(name)
    ensures CanEmitFunction(DEFAULT_PROCESSOR, f) && PlainFunction(f)
  {
    EmptyBlockEmitted(f.blocks[0], Jump);
    EmptyBlockEmitted(f.blocks[1], Ret);
  }

  lemma {:induction false} JumpsToExit(isa: Isa, fns: seq<Function>, s: State)
    requires fns != [] && fns[0] == TwoBlocks("f")
    ensures IsModuleStep(isa, fns, ModuleConfig(BlockRef(0, 0), s, []), ModuleConfig(BlockRef(0, 1), s, []))
  {
    var c, c' := ModuleConfig(BlockRef(0, 0), s, []), ModuleConfig(BlockRef(0, 1), s, []);
    assert DecodeAll([]) == [];
    assert Named(fns[0].blocks, "exit", 1);
  }

  predicate TwoAlike(fns: seq<Function>) {
    |fns| == 2 && fns[0] == TwoBlocks("f") && fns[1] == TwoBlocks("g")
  }

  lemma {:induction false} TwoAlikeFit(fns: seq<Function>)
    requires TwoAlike(fns)
    ensures CanEmitModule(DEFAULT_PROCESSOR, fns) && PlainModule(fns)
  {
    forall n: nat | n < |fns|
      ensures CanEmitFunction(DEFAULT_PROCESSOR, fns[n]) && PlainFunction(fns[n])
    {
      TwoBlocksEmitted(fns[n], if n == 0 then "f" else "g");
    }
  }

  lemma {:induction false} SameExit(fns: seq<Function>)
    requires TwoAlike(fns)
    ensures InModule(fns, BlockRef(0, 0)) && InModule(fns, BlockRef(0, 1)) && InModule(fns, BlockRef(1, 1))
    ensures BlockOf(fns, BlockRef(0, 0)).terminator.JumpTo? && BlockOf(fns, BlockRef(0, 1)).name == BlockOf(fns, BlockRef(1, 1)).name
  {
  }

  /** From f's entry the emitted module can go on at f's exit, and as well at g's. */
  lemma {:induction false} TwoExits(fns: seq<Function>, isa: Isa, s: State)
    requires fns == [TwoBlocks("f"), TwoBlocks("g")]
    ensures EmitFunctions(DEFAULT_PROCESSOR, fns).Done? && !NamesDistinct(fns)
    ensures var items, a := EmitFunctions(DEFAULT_PROCESSOR, fns).value, Started(fns, BlockRef(0, 0), s);
            && IsAsmStep(isa, items, a, AsmConfig(LabelOf(fns, BlockRef(0, 1)) + 1, s, []))
            && IsAsmStep(isa, items, a, AsmConfig(LabelOf(fns, BlockRef(1, 1)) + 1, s, []))
  {
    TwoAlikeFit(fns);
    ModuleEmittedExactlyWhen(DEFAULT_PROCESSOR, fns);
    JumpsToExit(isa, fns, s);
    SameExit(fns);
    SharedNameLeadsAstray(DEFAULT_PROCESSOR, fns, isa, ModuleConfig(BlockRef(0, 0), s, []), ModuleConfig(BlockRef(0, 1), s, []), BlockRef(1, 1));
  }
}
