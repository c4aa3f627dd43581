/** Emission, packing and verification together. */
module Pipeline {
  import opened Collections
  import opened Opcodes
  import opened Mir
  import opened Machine
  import opened SchedDag
  import opened Scheduler
  import opened ScheduleMeaning
  import opened Asm
  import opened AsmMeaning
  import opened BundleVerifier
  import opened Ready
  import opened Lowering
  import opened Emitter
  import opened EmittedStream
  import opened EmittedProgram
  import opened Packer
  import opened PackerMeaning
  import opened PackedProgram

  // ----- Packing keeps programs legal -----

  ghost predicate AllLegal(proc: Processor, bs: seq<Bundle>) {
    forall i :: 0 <= i < |bs| ==> LegalBundle(proc, bs[i])
  }

  lemma {:induction false} EmptyIsLegal(proc: Processor)
    ensures LegalBundle(proc, [])
  {
  }

  lemma {:induction false} PackSegmentLegal(proc: Processor, segment: seq<Bundle>, start: nat, ready: ReadyState)
    requires AllLegal(proc, segment)
    ensures AllLegal(proc, PackSegment(proc, segment, start, ready))
  {
    if segment != [] {
      var n := |segment| - 1;
      var out, b := PackSegment(proc, segment[..n], start, ready), segment[n];
      PackSegmentLegal(proc, segment[..n], start, ready);
      match Merged(proc, out, b, start, ready)
      case Some(c) => assert LegalBundle(proc, c);
      case None =>
        EmptyIsLegal(proc);
        NopsEmpty(PadCount(out, b, start, ready));
    }
  }

  lemma {:induction false} FlushLegal(proc: Processor, st: PackState)
    requires LegalItems(proc, st.packed) && AllLegal(proc, st.segment)
    ensures LegalItems(proc, Flush(proc, st).packed)
  {
    PackSegmentLegal(proc, st.segment, st.cycle, st.ready);
  }

  lemma {:induction false} PackItemLegal(proc: Processor, st: PackState, item: Item)
    requires LegalItems(proc, st.packed) && AllLegal(proc, st.segment)
    requires item.BundleItem? ==> LegalBundle(proc, item.bundle)
    ensures LegalItems(proc, PackItem(proc, st, item).packed) && AllLegal(proc, PackItem(proc, st, item).segment)
  {
    FlushLegal(proc, st);
  }

  lemma {:induction false} PackItemsLegal(proc: Processor, items: seq<Item>)
    requires LegalItems(proc, items)
    ensures LegalItems(proc, PackItems(proc, items).packed) && AllLegal(proc, PackItems(proc, items).segment)
  {
    if items != [] {
      var n := |items| - 1;
      PackItemsLegal(proc, items[..n]);
      PackItemLegal(proc, PackItems(proc, items[..n]), items[n]);
    }
  }

  /** Packing legal bundles gives legal bundles. */
  lemma {:induction false} PackProgramLegal(proc: Processor, items: seq<Item>)
    requires LegalItems(proc, items)
    ensures LegalItems(proc, PackProgram(proc, items))
  {
    PackItemsLegal(proc, items);
    FlushLegal(proc, PackItems(proc, items));
  }

  // ----- What emission gives the packer -----

  /** What instruction selection and allocation produce: proper syllables, none of them a terminator. */
  predicate PlainSyllable(syl: Syllable) {
    ProperSyllable(syl) && !IsTerminatorOpcode(syl.opcode)
  }

  predicate PlainSyllables(syls: seq<Syllable>) {
    forall i :: 0 <= i < |syls| ==> PlainSyllable(syls[i])
  }

  lemma {:induction false} LoweredSplit(syls: seq<Syllable>, xs: seq<AsmSyllable>)
    requires syls != [] && LowerAll(syls) == Done(xs)
    ensures var n := |syls| - 1; |xs| == n + 1 && LowerAll(syls[..n]) == Done(xs[..n]) && LowerSyllable(syls[n]) == Done(xs[n])
  {
    var n := |syls| - 1;
    LowerLength(syls[..n]);
    var rest, last := LowerAll(syls[..n]).value, LowerSyllable(syls[n]).value;
    assert xs == rest + [last];
  }

  lemma {:induction false} LowerLength(syls: seq<Syllable>)
    ensures LowerAll(syls).Done? ==> |LowerAll(syls).value| == |syls|
  {
    if syls != [] {
      LowerLength(syls[..|syls| - 1]);
    }
  }

  ghost predicate AllWellFormed(xs: seq<AsmSyllable>) {
    forall i :: 0 <= i < |xs| ==> WellFormed(xs[i]) && !IsTerminatorSyllable(xs[i])
  }

  lemma {:induction false} LoweredMeaning(syls: seq<Syllable>, xs: seq<AsmSyllable>)
    requires PlainSyllables(syls) && LowerAll(syls) == Done(xs)
    ensures DecodeSyllables(xs) == DecodeAll(syls)
    ensures AllWellFormed(xs)
  {
    if syls != [] {
      var n := |syls| - 1;
      LoweredSplit(syls, xs);
      LoweredMeaning(syls[..n], xs[..n]);
      LoweredOne(syls[n], xs[n]);
      DecodePush(xs[..n], xs[n], syls[..n], syls[n]);
      TakeNext(xs, n);
      TakeNext(syls, n);
      assert forall i :: 0 <= i < n ==> xs[..n][i] == xs[i];
    }
  }

  lemma {:induction false} LoweredOne(syl: Syllable, x: AsmSyllable)
    requires PlainSyllable(syl) && LowerSyllable(syl) == Done(x)
    ensures DecodeAsm(x) == Decode(syl) && WellFormed(x) && !IsTerminatorSyllable(x)
  {
    LoweredIsWellFormed(syl);
    MnemonicRoundTrip(syl.opcode);
  }

  lemma {:induction false} DecodePush(xs: seq<AsmSyllable>, x: AsmSyllable, syls: seq<Syllable>, syl: Syllable)
    requires DecodeSyllables(xs) == DecodeAll(syls) && DecodeAsm(x) == Decode(syl)
    ensures DecodeSyllables(xs + [x]) == DecodeAll(syls + [syl])
  {
    assert DecodeSyllables(xs + [x]) == DecodeSyllables(xs) + [DecodeAsm(x)];
    assert DecodeAll(syls + [syl]) == DecodeAll(syls) + [Decode(syl)];
  }

  lemma {:induction false} EmittedBundles(proc: Processor, e: Emission, syls: seq<Syllable>, e': Emission) returns (bs: seq<Bundle>)
    requires EmitSyllables(proc, e, syls) == Done(e')
    ensures e'.items == e.items + AsItems(bs) && AllScalarLegal(proc, bs) && LowerAll(syls) == Done(Flat(bs))
  {
    if syls == [] {
      bs := [];
    } else {
      var n := |syls| - 1;
      var e1 := EmitSyllables(proc, e, syls[..n]).value;
      var bs1 := EmittedBundles(proc, e, syls[..n], e1);
      var op, asm, slot := syls[n].opcode, LowerSyllable(syls[n]).value, ScalarSlot(syls[n].opcode, proc).value;
      MnemonicRoundTrip(op);
      SingleIsLegal(proc, op, asm, slot);
      LegalExtends(proc, bs1, IssueCycle(e1, asm) - e1.cycle, BundleWith(proc.width, slot, asm));
      bs := bs1 + Appended(proc.width, e1, asm, slot);
      FlatAppended(proc, bs1, e1, asm, slot);
      ItemsTogether(e.items, bs1, Appended(proc.width, e1, asm, slot));
    }
  }

  lemma {:induction false} ItemsTogether(items: seq<Item>, bs: seq<Bundle>, more: seq<Bundle>)
    ensures items + AsItems(bs + more) == items + AsItems(bs) + AsItems(more)
  {
    assert AsItems(bs + more) == AsItems(bs) + AsItems(more);
  }

  lemma {:induction false} InFlat(bs: seq<Bundle>, i: nat, syl: AsmSyllable)
    requires i < |bs| && syl in Syllables(bs[i])
    ensures syl in Flat(bs)
  {
    if i < |bs| - 1 {
      InFlat(bs[..|bs| - 1], i, syl);
    }
  }

  /** A block's bundles are a segment the packing theorem covers, unless its predicates conflict. */
  lemma {:induction false} EmittedSegment(proc: Processor, syls: seq<Syllable>, bs: seq<Bundle>)
    requires PlainSyllables(syls) && AllScalarLegal(proc, bs) && LowerAll(syls) == Done(Flat(bs)) && PredicatesOrderly(Flat(bs))
    ensures ScalarSegment(proc, bs) && PlainBundles(proc, bs)
  {
    LoweredMeaning(syls, Flat(bs));
    forall i | 0 <= i < |bs|
      ensures ScalarBundle(proc, bs[i]) && |bs[i]| <= proc.width && !IsTerminatorBundle(bs[i])
    {
      assert ScalarLegal(proc, bs[i]);
      TerminatorSyllable(bs[i]);
      forall syl | syl in Syllables(bs[i])
        ensures WellFormed(syl) && !IsTerminatorSyllable(syl)
      {
        InFlat(bs, i, syl);
      }
    }
  }

  // ----- From a block of MIR to packed bundles -----

  /**
   * List scheduling, lowering, scalar emission and packing of one block, end to end: the packed bundles leave
   * the state the block's syllables leave in program order.
   */
  lemma {:induction false} BlockPreserved(isa: Isa, proc: Processor, syls: seq<Syllable>, g: Graph, order: seq<nat>, e: Emission, e': Emission,
                       segment: seq<Bundle>, packed: seq<Bundle>, s: State)
    requires IsSchedule(syls, g, order) && BucketsDisjoint(syls) && PlainSyllables(syls)
    requires EmitSyllables(proc, e, Reordered(syls, order)) == Done(e') && e'.items == e.items + AsItems(segment)
    requires IsPacked(proc, segment, packed) && SegmentOrderly(proc, segment, packed)
    ensures RunBundles(isa, packed, s) == Run(isa, DecodeAll(syls), s)
  {
    var scheduled := Reordered(syls, order);
    assert PlainSyllables(scheduled);
    var bs := EmittedBundles(proc, e, scheduled, e');
    ItemsInjective(e.items, bs, segment);
    LoweredMeaning(scheduled, Flat(bs));
    SegmentPreserved(isa, proc, segment, packed, s);
    ScalarMeaning(isa, proc, segment, s);
    SchedulePreservesMeaning(isa, syls, g, order, s);
  }

  lemma {:induction false} ItemsInjective(items: seq<Item>, bs: seq<Bundle>, bs': seq<Bundle>)
    requires items + AsItems(bs) == items + AsItems(bs')
    ensures bs == bs'
  {
    var a, a' := items + AsItems(bs), items + AsItems(bs');
    assert |bs| == |a| - |items| == |bs'|;
    forall i | 0 <= i < |bs|
      ensures bs[i] == bs'[i]
    {
      assert a[|items| + i] == BundleItem(bs[i]) && a'[|items| + i] == BundleItem(bs'[i]);
    }
  }

  // ----- From functions to a packed program -----

  /** Every segment is one the packing theorem covers. */
  ghost predicate Packable(proc: Processor, items: seq<Item>) {
    PlainItems(proc, items) && forall k :: 0 <= k < |Segments(items)| ==> ScalarSegment(proc, Segments(items)[k])
  }

  ghost predicate BetweenBlocks(proc: Processor, items: seq<Item>) {
    Packable(proc, items) && Segments(items)[|Segments(items)| - 1] == []
  }

  lemma {:induction false} EmptySegment(proc: Processor)
    ensures ScalarSegment(proc, [])
  {
  }

  ghost predicate AllScalar(proc: Processor, segments: seq<seq<Bundle>>) {
    forall k :: 0 <= k < |segments| ==> ScalarSegment(proc, segments[k])
  }

  lemma {:induction false} DelimiterPackable(proc: Processor, items: seq<Item>, item: Item)
    requires Packable(proc, items) && IsDelimiter(item)
    ensures BetweenBlocks(proc, items + [item])
  {
    AppendItem(items, item);
    EmptySegment(proc);
    var segments := Segments(items);
    assert AllScalar(proc, segments + [[]]);
  }

  lemma {:induction false} BundlesPackable(proc: Processor, items: seq<Item>, bs: seq<Bundle>)
    requires BetweenBlocks(proc, items) && ScalarSegment(proc, bs) && PlainBundles(proc, bs)
    ensures Packable(proc, items + AsItems(bs))
  {
    AppendBundles(items, bs);
    assert [] + bs == bs;
  }

  lemma {:induction false} NopsInSegment(proc: Processor, bs: seq<Bundle>, n: nat)
    requires ScalarSegment(proc, bs) && PlainBundles(proc, bs)
    ensures ScalarSegment(proc, bs + Nops(n)) && PlainBundles(proc, bs + Nops(n))
  {
    FlatNops(bs, n);
    NopsEmpty(n);
  }

  ghost predicate BlockInScope(block: Block) {
    PlainSyllables(block.syllables) && (LowerAll(block.syllables).Done? ==> PredicatesOrderly(LowerAll(block.syllables).value))
  }

  lemma {:induction false} EmittedTerminator(proc: Processor, e: Emission, t: Terminator, e': Emission) returns (n: nat, b: Bundle)
    requires EmitTerminator(proc, e, t) == Done(e')
    ensures e'.items == e.items + AsItems(Nops(n)) + [BundleItem(b)] && IsTerminatorBundle(b) && Syllables(b) == [LowerTerminator(t).value.1]
  {
    var (op, asm) := LowerTerminator(t).value;
    var slot := XSlot(proc).value;
    n, b := IssueCycle(e, asm) - e.cycle, BundleWith(proc.width, slot, asm);
    TerminatorAlone(t, b, slot);
    IssuedAlone(proc.width, slot, asm);
    ItemsAppend(Nops(n), b);
  }

  lemma {:induction false} TerminatorAlone(t: Terminator, b: Bundle, slot: nat)
    requires LowerTerminator(t).Done? && slot < |b| && b[slot] == Some(LowerTerminator(t).value.1)
    ensures IsTerminatorBundle(b)
  {
    TerminatorMnemonic(t);
    MnemonicRoundTrip(LowerTerminator(t).value.0);
    assert IsTerminatorSyllable(b[slot].value);
  }

  lemma {:induction false} BlockPackable(proc: Processor, e: Emission, block: Block, e': Emission)
    requires BetweenBlocks(proc, e.items) && BlockInScope(block) && EmitBlock(proc, e, block) == Done(e')
    ensures BetweenBlocks(proc, e'.items)
  {
    var e0 := EmitLabel(e, block.name);
    DelimiterPackable(proc, e.items, LabelItem(block.name));
    var e1 := EmitSyllables(proc, e0, block.syllables).value;
    var bs := EmittedBundles(proc, e0, block.syllables, e1);
    EmittedSegment(proc, block.syllables, bs);
    var n, b := EmittedTerminator(proc, e1, block.terminator, e');
    NopsInSegment(proc, bs, n);
    BundlesPackable(proc, e0.items, bs + Nops(n));
    ItemsTogether(e0.items, bs, Nops(n));
    DelimiterPackable(proc, e1.items + AsItems(Nops(n)), BundleItem(b));
  }

  ghost predicate FunctionInScope(f: Function) {
    forall b :: 0 <= b < |f.blocks| ==> BlockInScope(f.blocks[b])
  }

  lemma {:induction false} NextBlockPackable(proc: Processor, e: Emission, f: Function, n: nat, e1: Emission)
    requires BetweenBlocks(proc, e.items) && FunctionInScope(f)
    requires n < |f.blocks| && EmitBlock(proc, BeforeBlock(e, f, n), f.blocks[n]) == Done(e1)
    ensures BetweenBlocks(proc, e1.items)
  {
    DelimiterPackable(proc, e.items, LabelItem(f.name));
    BlockPackable(proc, BeforeBlock(e, f, n), f.blocks[n], e1);
  }

  lemma {:induction false} FunctionPackable(proc: Processor, e: Emission, f: Function, n: nat, e': Emission)
    requires BetweenBlocks(proc, e.items) && FunctionInScope(f) && n <= |f.blocks| && EmitFrom(proc, e, f, n) == Done(e')
    ensures BetweenBlocks(proc, e'.items)
    decreases |f.blocks| - n
  {
    if n < |f.blocks| {
      var e1 := NextBlock(proc, e, f, n, e');
      NextBlockPackable(proc, e, f, n, e1);
      FunctionPackable(proc, e1, f, n + 1, e');
    }
  }

  /** Emitted programs meet the conditions under which packing preserves their meaning. */
  lemma {:induction false} EmittedInScope(proc: Processor, fns: seq<Function>)
    requires EmitFunctions(proc, fns).Done? && forall f :: f in fns ==> FunctionInScope(f)
    ensures BetweenBlocks(proc, EmitFunctions(proc, fns).value)
  {
    if fns == [] {
      assert ScalarSegment(proc, []);
    } else {
      var n := |fns| - 1;
      EmittedInScope(proc, fns[..n]);
      var base := EmitFunctions(proc, fns[..n]).value;
      FunctionPackable(proc, Emission(base, ALL_READY, 0), fns[n], 0, EmitBlocks(proc, base, fns[n]).value);
    }
  }

  /** Every run of the packed module reaches what the scalar module reaches, and the packed module is legal. */
  lemma {:induction false} PackedModulePreserved(isa: Isa, proc: Processor, fns: seq<Function>, control: Control, k: nat, s: State, steps: nat)
    requires OneMemorySlot(proc) && EmitFunctions(proc, fns).Done? && forall f :: f in fns ==> FunctionInScope(f)
    ensures var items := EmitFunctions(proc, fns).value;
            && Walk(isa, PackProgram(proc, items), control, k, s, steps) == Walk(isa, items, control, k, s, steps)
            && LegalItems(proc, PackProgram(proc, items))
  {
    var items := EmitFunctions(proc, fns).value;
    EmittedInScope(proc, fns);
    ScalarSegmentsOrderly(proc, items);
    PackProgramPreservesMeaning(isa, proc, items, control, k, s, steps);
    EmittedIsLegal(proc, fns);
    PackProgramLegal(proc, items);
  }
}
