/** The timing theorems applied to what the emitter produces. */
module EmittedTiming {
  import opened Opcodes
  import opened Mir
  import opened Asm
  import opened Ready
  import opened Timing
  import opened Lowering
  import opened Emitter
  import opened EmittedStream
  import opened EmittedProgram
  import opened Packer
  import opened PackedProgram
  import opened PackTiming
  import opened PackLength
  import opened PackLanding

  /** Packing a single emitted function adds no nop and no bundle. */
  lemma {:induction false} EmittedFunctionPacks(proc: Processor, f: Function, e: Emission)
    requires EmitBlocks(proc, [], f) == Done(e)
    ensures SingleBundles(proc, BundlesOf(e.items)) && InTime(BundlesOf(e.items), 0, ALL_READY)
    ensures |BundlesOf(PackProgram(proc, e.items))| <= |BundlesOf(e.items)| && ProgramPadding(proc, e.items) == 0
  {
    EmittedFunctionForm(proc, [], f, e);
    assert e.items[0..] == e.items;
    PackingNeverLengthens(proc, e.items);
  }

  lemma {:induction false} EmittedIsPlain(proc: Processor, f: Function, e: Emission)
    requires EmitBlocks(proc, [], f) == Done(e)
    ensures PlainItems(proc, e.items)
  {
    EmittedFunctionForm(proc, [], f, e);
    assert e.items[0..] == e.items;
    BundlesOfScalar(proc, e.items);
  }

  /** And every bundle of the function lands at or before its scalar cycle. */
  lemma {:induction false} EmittedFunctionLands(proc: Processor, f: Function, e: Emission, n: nat)
    requires EmitBlocks(proc, [], f) == Done(e) && n < |e.items| && e.items[n].BundleItem?
    ensures var cycle := LandingCycle(proc, e.items, n);
            && 0 <= cycle <= |BundlesOf(e.items[..n])| && cycle < |Packed(proc, e.items)|
            && forall syl :: syl in Syllables(e.items[n].bundle) ==> syl in Syllables(Packed(proc, e.items)[cycle])
  {
    EmittedFunctionPacks(proc, f, e);
    EmittedIsPlain(proc, f, e);
    LandsInTime(proc, e.items, n);
  }

  // ----- Terminators -----

  lemma {:induction false} SingleTerminator(b: Bundle, syl: AsmSyllable, op: Opcode)
    requires Syllables(b) == [syl] && OpcodeOf(syl) == Some(op)
    ensures IsTerminatorBundle(b) == IsTerminatorOpcode(op)
    ensures ReadsOnlyPredicates(b) == forall k :: k in SourceKeys(op, syl.operands) ==> k.cls == Pred
  {
    TerminatorSyllable(b);
    assert syl in Syllables(b);
  }

  lemma {:induction false} IssueTerminators(proc: Processor, e: Emission, op: Opcode, syl: AsmSyllable, slot: nat, e': Emission)
    requires TerminatorsReadPredicates(e.items) && EmitInSlot(proc, e, op, syl, slot) == Done(e') && syl.opcode == Mnemonic(op)
    requires IsTerminatorOpcode(op) ==> forall k :: k in SourceKeys(op, syl.operands) ==> k.cls == Pred
    ensures TerminatorsReadPredicates(e'.items)
  {
    var b, n := BundleWith(proc.width, slot, syl), IssueCycle(e, syl) - e.cycle;
    MnemonicRoundTrip(op);
    OneSyllable(b, slot, syl);
    SingleTerminator(b, syl, op);
    PaddedTerminators(e.items, n, b);
  }

  lemma {:induction false} PaddedTerminators(items: seq<Item>, n: nat, b: Bundle)
    requires TerminatorsReadPredicates(items) && (IsTerminatorBundle(b) ==> ReadsOnlyPredicates(b))
    ensures TerminatorsReadPredicates(items + AsItems(Nops(n) + [b]))
  {
    NopsEmpty(n);
    var more := AsItems(Nops(n) + [b]);
    assert forall i :: 0 <= i < |more| ==> more[i] == BundleItem(if i < n then [] else b);
  }

  predicate NoTerminatorsIn(syls: seq<Syllable>) {
    forall i :: 0 <= i < |syls| ==> !IsTerminatorOpcode(syls[i].opcode)
  }

  lemma {:induction false} SyllablesTerminators(proc: Processor, e: Emission, syls: seq<Syllable>, e': Emission)
    requires TerminatorsReadPredicates(e.items) && NoTerminatorsIn(syls) && EmitSyllables(proc, e, syls) == Done(e')
    ensures TerminatorsReadPredicates(e'.items)
  {
    if syls != [] {
      var n := |syls| - 1;
      var e1 := EmitSyllables(proc, e, syls[..n]).value;
      SyllablesTerminators(proc, e, syls[..n], e1);
      IssueTerminators(proc, e1, syls[n].opcode, LowerSyllable(syls[n]).value, ScalarSlot(syls[n].opcode, proc).value, e');
    }
  }

  /** A branch reads its condition; the other terminators read nothing. */
  lemma {:induction false} TerminatorSources(t: Terminator, k: RegKey)
    requires LowerTerminator(t).Done?
    requires k in SourceKeys(LowerTerminator(t).value.0, LowerTerminator(t).value.1.operands)
    ensures k.cls == Pred
  {
    var (op, asm) := LowerTerminator(t).value;
    var ops, w, p := asm.operands, WritesGpr(op), WritesPred(op);
    assert SourceKeysFrom(ops, |ops|, w, p) == [];
    if |ops| == 2 {
      assert SourceKeysFrom(ops, 1, w, p) == [] && ops[0].PredOp? && !p;
      assert SourceKeysFrom(ops, 0, w, p) == [RegKey(Pred, PReg(ops[0].p))];
    }
  }

  lemma {:induction false} BlockTerminators(proc: Processor, e: Emission, block: Block, e': Emission)
    requires TerminatorsReadPredicates(e.items) && NoTerminatorsIn(block.syllables) && EmitBlock(proc, e, block) == Done(e')
    ensures TerminatorsReadPredicates(e'.items)
  {
    var e0 := EmitLabel(e, block.name);
    LabelTerminators(e, block.name);
    var e1 := EmitSyllables(proc, e0, block.syllables).value;
    SyllablesTerminators(proc, e0, block.syllables, e1);
    var (op, asm) := LowerTerminator(block.terminator).value;
    TerminatorMnemonic(block.terminator);
    forall k | k in SourceKeys(op, asm.operands)
      ensures k.cls == Pred
    {
      TerminatorSources(block.terminator, k);
    }
    IssueTerminators(proc, e1, op, asm, XSlot(proc).value, e');
  }

  lemma {:induction false} LabelTerminators(e: Emission, name: string)
    requires TerminatorsReadPredicates(e.items)
    ensures TerminatorsReadPredicates(EmitLabel(e, name).items)
  {
  }

  predicate BodiesWithoutTerminators(f: Function) {
    forall b :: 0 <= b < |f.blocks| ==> NoTerminatorsIn(f.blocks[b].syllables)
  }

  lemma {:induction false} NextBlockTerminators(proc: Processor, e: Emission, f: Function, n: nat, e1: Emission)
    requires TerminatorsReadPredicates(e.items) && BodiesWithoutTerminators(f)
    requires n < |f.blocks| && EmitBlock(proc, BeforeBlock(e, f, n), f.blocks[n]) == Done(e1)
    ensures TerminatorsReadPredicates(e1.items)
  {
    LabelTerminators(e, f.name);
    BlockTerminators(proc, BeforeBlock(e, f, n), f.blocks[n], e1);
  }

  lemma {:induction false} FunctionTerminators(proc: Processor, e: Emission, f: Function, n: nat, e': Emission)
    requires TerminatorsReadPredicates(e.items) && BodiesWithoutTerminators(f)
    requires n <= |f.blocks| && EmitFrom(proc, e, f, n) == Done(e')
    ensures TerminatorsReadPredicates(e'.items)
    decreases |f.blocks| - n
  {
    if n < |f.blocks| {
      var e1 := NextBlock(proc, e, f, n, e');
      NextBlockTerminators(proc, e, f, n, e1);
      FunctionTerminators(proc, e1, f, n + 1, e');
    }
  }

  lemma {:induction false} ModuleTerminators(proc: Processor, fns: seq<Function>)
    requires EmitFunctions(proc, fns).Done? && forall f :: f in fns ==> BodiesWithoutTerminators(f)
    ensures TerminatorsReadPredicates(EmitFunctions(proc, fns).value)
  {
    if fns != [] {
      var n := |fns| - 1;
      ModuleTerminators(proc, fns[..n]);
      var base := EmitFunctions(proc, fns[..n]).value;
      FunctionTerminators(proc, Emission(base, ALL_READY, 0), fns[n], 0, EmitBlocks(proc, base, fns[n]).value);
    }
  }

  /** However many functions are packed together, no bundle reads a register before it is ready. */
  lemma {:induction false} PackedModuleInTime(proc: Processor, fns: seq<Function>)
    requires EmitFunctions(proc, fns).Done? && forall f :: f in fns ==> BodiesWithoutTerminators(f)
    ensures InTime(BundlesOf(PackProgram(proc, EmitFunctions(proc, fns).value)), 0, ALL_READY)
  {
    EmittedIsLegal(proc, fns);
    ModuleTerminators(proc, fns);
    PackedProgramInTime(proc, EmitFunctions(proc, fns).value);
  }
}
