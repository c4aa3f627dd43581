/** Whole functions and programs as emitted, and what packing may rely on. */
module EmittedProgram {
  import opened Collections
  import opened Opcodes
  import opened Mir
  import opened Asm
  import opened BundleVerifier
  import opened Ready
  import opened ScalarTiming
  import opened Lowering
  import opened Emitter
  import opened EmittedStream

  // ----- Source order -----

  function LowerAll(syls: seq<Syllable>): Outcome<seq<AsmSyllable>> {
    if syls == [] then Done([])
    else
      var rest :- LowerAll(syls[..|syls| - 1]);
      var last :- LowerSyllable(syls[|syls| - 1]);
      Done(rest + [last])
  }

  function LowerBlock(block: Block): Outcome<seq<AsmSyllable>> {
    var body :- LowerAll(block.syllables);
    var end :- LowerTerminator(block.terminator);
    Done(body + [end.1])
  }

  /** The syllables of the blocks from the n-th on, in layout order. */
  function LowerFrom(f: Function, n: nat): Outcome<seq<AsmSyllable>>
    requires n <= |f.blocks|
    decreases |f.blocks| - n
  {
    if n == |f.blocks| then Done([])
    else
      var block :- LowerBlock(f.blocks[n]);
      var rest :- LowerFrom(f, n + 1);
      Done(block + rest)
  }

  // ----- One function -----

  /** The items after `base` are a well-formed stream of the syllables xs. */
  ghost predicate FunctionForm(proc: Processor, base: seq<Item>, e: Emission, xs: seq<AsmSyllable>) {
    && |base| <= |e.items| && e.items[..|base|] == base
    && StreamForm(proc, BundlesOf(e.items[|base|..]), e.ready, e.cycle)
    && Flat(BundlesOf(e.items[|base|..])) == xs
  }

  lemma {:induction false} AfterBase(base: seq<Item>, items: seq<Item>, more: seq<Item>)
    requires |base| <= |items| && items[..|base|] == base
    ensures (items + more)[..|base|] == base && (items + more)[|base|..] == items[|base|..] + more
  {
  }

  lemma {:induction false} LabelKeepsForm(proc: Processor, base: seq<Item>, e: Emission, xs: seq<AsmSyllable>, name: string)
    requires FunctionForm(proc, base, e, xs)
    ensures FunctionForm(proc, base, EmitLabel(e, name), xs)
  {
    AfterBase(base, e.items, [LabelItem(name)]);
    BundlesOfAppend(e.items[|base|..], LabelItem(name));
  }

  lemma {:induction false} IssueExtendsFunction(proc: Processor, base: seq<Item>, e: Emission, xs: seq<AsmSyllable>, op: Opcode, syl: AsmSyllable, slot: nat, e': Emission)
    requires FunctionForm(proc, base, e, xs) && syl.opcode == Mnemonic(op) && EmitInSlot(proc, e, op, syl, slot) == Done(e')
    ensures FunctionForm(proc, base, e', xs + [syl])
  {
    var bs, more := BundlesOf(e.items[|base|..]), Appended(proc.width, e, syl, slot);
    IssueKeepsForm(proc, bs, e, op, syl, slot);
    AfterBase(base, e.items, AsItems(more));
    BundlesOfBundles(e.items[|base|..], more);
    FlatAppended(proc, bs, e, syl, slot);
  }

  lemma {:induction false} FlatAppended(proc: Processor, bs: seq<Bundle>, e: Emission, syl: AsmSyllable, slot: nat)
    requires slot < proc.width
    ensures Flat(bs + Appended(proc.width, e, syl, slot)) == Flat(bs) + [syl]
  {
    IssuedAlone(proc.width, slot, syl);
    FlatIssued(bs, IssueCycle(e, syl) - e.cycle, BundleWith(proc.width, slot, syl), syl);
  }

  lemma {:induction false} IssuedAlone(width: nat, slot: nat, syl: AsmSyllable)
    requires slot < width
    ensures Syllables(BundleWith(width, slot, syl)) == [syl]
  {
    OneSyllable(BundleWith(width, slot, syl), slot, syl);
  }

  lemma {:induction false} SyllablesExtendFunction(proc: Processor, base: seq<Item>, e: Emission, xs: seq<AsmSyllable>, syls: seq<Syllable>, e': Emission)
    requires FunctionForm(proc, base, e, xs) && EmitSyllables(proc, e, syls) == Done(e')
    ensures LowerAll(syls).Done? && FunctionForm(proc, base, e', xs + LowerAll(syls).value)
  {
    if syls == [] {
      assert xs + [] == xs;
    } else {
      var n := |syls| - 1;
      var e1 := EmitSyllables(proc, e, syls[..n]).value;
      SyllablesExtendFunction(proc, base, e, xs, syls[..n], e1);
      var done, asm := LowerAll(syls[..n]).value, LowerSyllable(syls[n]).value;
      IssueExtendsFunction(proc, base, e1, xs + done, syls[n].opcode, asm, ScalarSlot(syls[n].opcode, proc).value, e');
      Regroup(xs, done, asm);
    }
  }

  lemma {:induction false} TerminatorMnemonic(t: Terminator)
    requires LowerTerminator(t).Done?
    ensures LowerTerminator(t).value.1.opcode == Mnemonic(LowerTerminator(t).value.0)
    ensures IsTerminatorOpcode(LowerTerminator(t).value.0)
  {
  }

  lemma {:induction false} BlockExtendsFunction(proc: Processor, base: seq<Item>, e: Emission, xs: seq<AsmSyllable>, block: Block, e': Emission)
    requires FunctionForm(proc, base, e, xs) && EmitBlock(proc, e, block) == Done(e')
    ensures LowerBlock(block).Done? && FunctionForm(proc, base, e', xs + LowerBlock(block).value)
  {
    var e0 := EmitLabel(e, block.name);
    LabelKeepsForm(proc, base, e, xs, block.name);
    var e1 := EmitSyllables(proc, e0, block.syllables).value;
    SyllablesExtendFunction(proc, base, e0, xs, block.syllables, e1);
    var body, end := LowerAll(block.syllables).value, LowerTerminator(block.terminator).value;
    TerminatorMnemonic(block.terminator);
    IssueExtendsFunction(proc, base, e1, xs + body, end.0, end.1, XSlot(proc).value, e');
    Regroup(xs, body, end.1);
  }

  lemma {:induction false} NextLowered(f: Function, n: nat, block: seq<AsmSyllable>, rest: seq<AsmSyllable>)
    requires n < |f.blocks| && LowerBlock(f.blocks[n]) == Done(block) && LowerFrom(f, n + 1) == Done(rest)
    ensures LowerFrom(f, n) == Done(block + rest)
  {
  }

  lemma {:induction false} NextBlockForm(proc: Processor, base: seq<Item>, e: Emission, xs: seq<AsmSyllable>, f: Function, n: nat, e1: Emission)
    requires FunctionForm(proc, base, e, xs) && n < |f.blocks| && EmitBlock(proc, BeforeBlock(e, f, n), f.blocks[n]) == Done(e1)
    ensures LowerBlock(f.blocks[n]).Done? && FunctionForm(proc, base, e1, xs + LowerBlock(f.blocks[n]).value)
  {
    LabelKeepsForm(proc, base, e, xs, f.name);
    BlockExtendsFunction(proc, base, BeforeBlock(e, f, n), xs, f.blocks[n], e1);
  }

  lemma {:induction false} BlocksExtendFunction(proc: Processor, base: seq<Item>, e: Emission, xs: seq<AsmSyllable>, f: Function, n: nat, e': Emission)
    requires FunctionForm(proc, base, e, xs) && n <= |f.blocks| && EmitFrom(proc, e, f, n) == Done(e')
    ensures LowerFrom(f, n).Done? && FunctionForm(proc, base, e', xs + LowerFrom(f, n).value)
    decreases |f.blocks| - n
  {
    if n == |f.blocks| {
      assert xs + [] == xs;
    } else {
      var e1 := NextBlock(proc, e, f, n, e');
      NextBlockForm(proc, base, e, xs, f, n, e1);
      var block := LowerBlock(f.blocks[n]).value;
      BlocksExtendFunction(proc, base, e1, xs + block, f, n + 1, e');
      var rest := LowerFrom(f, n + 1).value;
      NextLowered(f, n, block, rest);
      Reassociate(xs, block, rest);
    }
  }

  lemma {:induction false} EmptyFunctionForm(proc: Processor, base: seq<Item>)
    ensures FunctionForm(proc, base, Emission(base, ALL_READY, 0), [])
  {
    assert base[|base|..] == [];
  }

  /**
   * If emission of a function succeeds, the function's bundles hold its syllables in source order, each issued
   * in the cycle of the earliest schedule, and every bundle is legal.
   */
  lemma {:induction false} EmittedFunctionForm(proc: Processor, base: seq<Item>, f: Function, e: Emission)
    requires EmitBlocks(proc, base, f) == Done(e)
    ensures LowerFrom(f, 0).Done? && FunctionForm(proc, base, e, LowerFrom(f, 0).value)
  {
    EmptyFunctionForm(proc, base);
    BlocksExtendFunction(proc, base, Emission(base, ALL_READY, 0), [], f, 0, e);
    assert [] + LowerFrom(f, 0).value == LowerFrom(f, 0).value;
  }

  /** Scalar emission is pointwise earliest, and never issues a syllable before its sources are ready. */
  lemma {:induction false} EmissionIsEarliest(proc: Processor, base: seq<Item>, f: Function, e: Emission, xs: seq<AsmSyllable>) returns (cycles: seq<nat>)
    requires EmitBlocks(proc, base, f) == Done(e) && LowerFrom(f, 0) == Done(xs)
    ensures |base| <= |e.items| && IssuedAt(BundlesOf(e.items[|base|..]), xs, cycles)
    ensures IsEarliest(Times(xs), cycles)
  {
    EmittedFunctionForm(proc, base, f, e);
    cycles := Schedule(Times(xs)).cycles;
    ScheduleIsEarliest(Times(xs));
  }

  // ----- The verifier cannot fail -----

  ghost predicate ScalarItems(proc: Processor, items: seq<Item>) {
    forall i :: 0 <= i < |items| && items[i].BundleItem? ==> ScalarLegal(proc, items[i].bundle)
  }

  lemma {:induction false} BundlesOfScalar(proc: Processor, items: seq<Item>)
    requires AllScalarLegal(proc, BundlesOf(items))
    ensures ScalarItems(proc, items)
  {
    if items != [] {
      var n := |items| - 1;
      var bs := BundlesOf(items);
      assert items == items[..n] + [items[n]];
      BundlesOfAppend(items[..n], items[n]);
      assert forall i :: 0 <= i < |BundlesOf(items[..n])| ==> BundlesOf(items[..n])[i] == bs[i];
      BundlesOfScalar(proc, items[..n]);
      if items[n].BundleItem? {
        assert bs[|bs| - 1] == items[n].bundle;
      }
    }
  }

  lemma {:induction false} ScalarTogether(proc: Processor, base: seq<Item>, items: seq<Item>)
    requires ScalarItems(proc, base) && |base| <= |items| && items[..|base|] == base && ScalarItems(proc, items[|base|..])
    ensures ScalarItems(proc, items)
  {
    var tail := items[|base|..];
    forall i | 0 <= i < |items| && items[i].BundleItem?
      ensures ScalarLegal(proc, items[i].bundle)
    {
      assert i < |base| ==> base[i] == items[i];
      assert i >= |base| ==> tail[i - |base|] == items[i];
    }
  }

  /** Whatever the processor, emitted code passes the verifier, for every list of functions. */
  lemma {:induction false} EmittedIsLegal(proc: Processor, fns: seq<Function>)
    requires EmitFunctions(proc, fns).Done?
    ensures ScalarItems(proc, EmitFunctions(proc, fns).value) && LegalItems(proc, EmitFunctions(proc, fns).value)
  {
    if fns != [] {
      var n := |fns| - 1;
      var base := EmitFunctions(proc, fns[..n]).value;
      EmittedIsLegal(proc, fns[..n]);
      var e := EmitBlocks(proc, base, fns[n]).value;
      EmittedFunctionForm(proc, base, fns[n], e);
      BundlesOfScalar(proc, e.items[|base|..]);
      ScalarTogether(proc, base, e.items);
    }
  }
}
