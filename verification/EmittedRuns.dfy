/** The emitted program runs as its machine intermediate representation does, blocks, branches, calls and returns. */
module EmittedRuns {
  import opened Opcodes
  import opened Mir
  import opened Machine
  import opened MirRuns
  import opened Asm
  import opened AsmMeaning
  import opened Ready
  import opened BundleVerifier
  import opened Lowering
  import opened Emitter
  import opened EmittedStream
  import opened EmittedProgram
  import opened PackerMeaning
  import opened PackedProgram
  import opened Pipeline
  import opened AsmRuns

  /** A lowered terminator sends control where the original does: the same predicate, target, callee. */
  lemma {:induction false} LoweredTransfer(t: Terminator, s: State)
    requires LowerTerminator(t).Done?
    ensures AsmTransfer(LowerTerminator(t).value.1, s) == Some(MirTransfer(t, s))
  {
    MnemonicRoundTrip(LowerTerminator(t).value.0);
    TerminatorMnemonic(t);
  }

  // ----- Where the code of a module stands -----

  /** The bundles do what the syllables do. */
  ghost predicate DoesAs(bs: seq<Bundle>, syls: seq<Syllable>) {
    forall isa, s :: RunBundles(isa, bs, s) == Run(isa, DecodeAll(syls), s)
  }

  predicate EndsAs(item: Item, t: Terminator) {
    item.BundleItem? && LowerTerminator(t).Done? && Syllables(item.bundle) == [LowerTerminator(t).value.1]
  }

  /** A program's delimiters, and the segments before, between and after them. */
  datatype Code = Code(delimiters: seq<Item>, segments: seq<seq<Bundle>>) {
    predicate Valid() { |segments| == |delimiters| + 1 }
  }

  function CodeOf(items: seq<Item>): (code: Code)
    ensures code.Valid() && code.delimiters == Delimiters(items) && code.segments == Segments(items)
  {
    Code(Delimiters(items), Segments(items))
  }

  /** Delimiter d is the block's label; its code and its terminator follow. */
  ghost predicate Laid(code: Code, d: nat, block: Block) {
    && code.Valid() && d + 1 < |code.delimiters|
    && code.delimiters[d] == LabelItem(block.name) && code.segments[d] == []
    && DoesAs(code.segments[d + 1], block.syllables) && EndsAs(code.delimiters[d + 1], block.terminator)
  }

  /** A label with nothing in front of it. */
  predicate LaidLabel(code: Code, d: nat, name: string) {
    code.Valid() && d < |code.delimiters| && code.delimiters[d] == LabelItem(name) && code.segments[d] == []
  }

  /** A function is its own label and its blocks; without blocks it is nothing. */
  function Delimiting(f: Function): nat {
    if f.blocks == [] then 0 else 1 + 2 * |f.blocks|
  }

  /** The first delimiter of function n. */
  function Entry(fns: seq<Function>, n: nat): nat
    requires n <= |fns|
  {
    if n == 0 then 0 else Entry(fns, n - 1) + Delimiting(fns[n - 1])
  }

  /** The label of block b of a function whose own label is delimiter `entry`. */
  function LabelFrom(entry: nat, b: nat): nat {
    entry + 1 + 2 * b
  }

  function LabelOf(fns: seq<Function>, at: BlockRef): nat
    requires at.fn < |fns|
  {
    LabelFrom(Entry(fns, at.fn), at.block)
  }

  /** The function's label stands in front of its first block, and its first n blocks stand in order behind it. */
  ghost predicate LaidBlocks(code: Code, entry: nat, f: Function, n: nat) {
    && n <= |f.blocks|
    && (n > 0 ==> LaidLabel(code, entry, f.name))
    && forall b: nat :: b < n ==> Laid(code, LabelFrom(entry, b), f.blocks[b])
  }

  ghost predicate LaidFunction(code: Code, fns: seq<Function>, f: nat)
    requires f < |fns|
  {
    LaidBlocks(code, Entry(fns, f), fns[f], |fns[f].blocks|)
  }

  ghost predicate LaidModule(code: Code, fns: seq<Function>) {
    code.Valid() && |code.delimiters| == Entry(fns, |fns|) && forall f: nat :: f < |fns| ==> LaidFunction(code, fns, f)
  }

  // ----- Emission lays the code there -----

  ghost predicate Settled(code: Code) {
    code.Valid() && code.segments[|code.segments| - 1] == []
  }

  /** More items leave what stands before the last delimiter alone. */
  ghost predicate Extends(code: Code, code': Code) {
    && code.Valid() && code'.Valid() && |code.delimiters| <= |code'.delimiters|
    && code'.delimiters[..|code.delimiters|] == code.delimiters
    && code'.segments[..|code.delimiters|] == code.segments[..|code.delimiters|]
  }

  lemma {:induction false} StillLaid(code: Code, code': Code, d: nat, block: Block)
    requires Extends(code, code') && Laid(code, d, block)
    ensures Laid(code', d, block)
  {
    assert code'.delimiters[d] == code'.delimiters[..|code.delimiters|][d];
    assert code'.delimiters[d + 1] == code'.delimiters[..|code.delimiters|][d + 1];
    assert code'.segments[d] == code'.segments[..|code.delimiters|][d];
    assert code'.segments[d + 1] == code'.segments[..|code.delimiters|][d + 1];
  }

  lemma {:induction false} StillLabel(code: Code, code': Code, d: nat, name: string)
    requires Extends(code, code') && LaidLabel(code, d, name)
    ensures LaidLabel(code', d, name)
  {
    assert code'.delimiters[d] == code'.delimiters[..|code.delimiters|][d];
    assert code'.segments[d] == code'.segments[..|code.delimiters|][d];
  }

  lemma {:induction false} LaidExtends(code: Code, code': Code, entry: nat, f: Function, n: nat)
    requires Extends(code, code') && LaidBlocks(code, entry, f, n)
    ensures LaidBlocks(code', entry, f, n)
  {
    if n > 0 { StillLabel(code, code', entry, f.name); }
    forall b: nat | b < n
      ensures Laid(code', LabelFrom(entry, b), f.blocks[b])
    {
      StillLaid(code, code', LabelFrom(entry, b), f.blocks[b]);
    }
  }

  lemma {:induction false} ExtendsOn(a: Code, b: Code, c: Code)
    requires Extends(a, b) && Extends(b, c)
    ensures Extends(a, c)
  {
    var n := |a.delimiters|;
    assert c.delimiters[..n] == c.delimiters[..|b.delimiters|][..n];
    assert c.segments[..n] == c.segments[..|b.delimiters|][..n];
    assert b.segments[..|b.delimiters|][..n] == b.segments[..n];
  }

  lemma {:induction false} ExtendsItself(code: Code)
    requires code.Valid()
    ensures Extends(code, code)
  {
  }

  lemma {:induction false} LabelSettles(items: seq<Item>, name: string)
    requires Settled(CodeOf(items))
    ensures var code, code' := CodeOf(items), CodeOf(items + [LabelItem(name)]);
            Settled(code') && Extends(code, code') && |code'.delimiters| == |code.delimiters| + 1 && LaidLabel(code', |code.delimiters|, name)
  {
    AppendItem(items, LabelItem(name));
  }

  lemma {:induction false} CodeSettles(items: seq<Item>, bs: seq<Bundle>, end: Bundle)
    requires Settled(CodeOf(items)) && NoTerminators(bs) && IsTerminatorBundle(end)
    ensures var code, code' := CodeOf(items), CodeOf(items + AsItems(bs) + [BundleItem(end)]);
            var n := |code.delimiters|;
            && Settled(code') && Extends(code, code') && |code'.delimiters| == n + 1
            && code'.delimiters[n] == BundleItem(end) && code'.segments[n] == bs
  {
    AppendBundles(items, bs);
    assert [] + bs == bs;
    AppendItem(items + AsItems(bs), BundleItem(end));
  }

  lemma {:induction false} EmittedDoesAs(proc: Processor, syls: seq<Syllable>, bs: seq<Bundle>, n: nat)
    requires PlainSyllables(syls) && AllScalarLegal(proc, bs) && LowerAll(syls) == Done(Flat(bs))
    ensures NoTerminators(bs + Nops(n)) && DoesAs(bs + Nops(n), syls)
  {
    LoweredMeaning(syls, Flat(bs));
    NopsEmpty(n);
    forall i | 0 <= i < |bs|
      ensures ScalarBundle(proc, bs[i]) && !IsTerminatorBundle(bs[i])
    {
      assert ScalarLegal(proc, bs[i]);
      TerminatorSyllable(bs[i]);
      forall syl | syl in Syllables(bs[i])
        ensures WellFormed(syl) && !IsTerminatorSyllable(syl)
      {
        InFlat(bs, i, syl);
      }
    }
    EmptyIsLegal(proc);
    FlatNops(bs, n);
    forall isa, s
      ensures RunBundles(isa, bs + Nops(n), s) == Run(isa, DecodeAll(syls), s)
    {
      ScalarMeaning(isa, proc, bs + Nops(n), s);
    }
  }

  lemma {:induction false} BlockLaid(code: Code, code0: Code, code': Code, block: Block)
    requires Extends(code0, code') && |code0.delimiters| == |code.delimiters| + 1 && |code'.delimiters| == |code.delimiters| + 2
    requires LaidLabel(code0, |code.delimiters|, block.name)
    requires var n := |code.delimiters|; DoesAs(code'.segments[n + 1], block.syllables) && EndsAs(code'.delimiters[n + 1], block.terminator)
    ensures Laid(code', |code.delimiters|, block)
  {
    StillLabel(code0, code', |code.delimiters|, block.name);
  }

  lemma {:induction false} EmittedBlockLaid(proc: Processor, e: Emission, block: Block, e': Emission)
    requires Settled(CodeOf(e.items)) && PlainSyllables(block.syllables) && EmitBlock(proc, e, block) == Done(e')
    ensures var code, code' := CodeOf(e.items), CodeOf(e'.items);
            Settled(code') && Extends(code, code') && |code'.delimiters| == |code.delimiters| + 2 && Laid(code', |code.delimiters|, block)
  {
    var e0 := EmitLabel(e, block.name);
    LabelSettles(e.items, block.name);
    var e1 := EmitSyllables(proc, e0, block.syllables).value;
    var bs := EmittedBundles(proc, e0, block.syllables, e1);
    var n, end := EmittedTerminator(proc, e1, block.terminator, e');
    EmittedDoesAs(proc, block.syllables, bs, n);
    ItemsTogether(e0.items, bs, Nops(n));
    CodeSettles(e0.items, bs + Nops(n), end);
    ExtendsOn(CodeOf(e.items), CodeOf(e0.items), CodeOf(e'.items));
    BlockLaid(CodeOf(e.items), CodeOf(e0.items), CodeOf(e'.items), block);
  }

  ghost predicate PlainFunction(f: Function) {
    forall b :: 0 <= b < |f.blocks| ==> PlainSyllables(f.blocks[b].syllables)
  }

  /** The first n blocks of the function have been emitted behind the delimiters before `entry`. */
  ghost predicate Emitted(code: Code, entry: nat, f: Function, n: nat) {
    Settled(code) && LaidBlocks(code, entry, f, n) && |code.delimiters| == entry + if n == 0 then 0 else 1 + 2 * n
  }

  lemma {:induction false} OneMoreLaid(code: Code, code0: Code, code': Code, entry: nat, f: Function, n: nat)
    requires n < |f.blocks| && Emitted(code, entry, f, n) && Extends(code, code0) && Extends(code0, code')
    requires if n == 0 then |code0.delimiters| == entry + 1 && LaidLabel(code0, entry, f.name) else code0 == code
    requires Settled(code') && |code'.delimiters| == |code0.delimiters| + 2 && Laid(code', |code0.delimiters|, f.blocks[n])
    ensures Emitted(code', entry, f, n + 1)
  {
    ExtendsOn(code, code0, code');
    LaidExtends(code, code', entry, f, n);
    if n == 0 { StillLabel(code0, code', entry, f.name); }
    assert LabelFrom(entry, n) == |code0.delimiters|;
  }

  lemma {:induction false} NextBlockLaid(proc: Processor, e: Emission, entry: nat, f: Function, n: nat, e1: Emission)
    requires PlainFunction(f) && n < |f.blocks| && Emitted(CodeOf(e.items), entry, f, n)
    requires EmitBlock(proc, BeforeBlock(e, f, n), f.blocks[n]) == Done(e1)
    ensures Emitted(CodeOf(e1.items), entry, f, n + 1) && Extends(CodeOf(e.items), CodeOf(e1.items))
  {
    var e0 := BeforeBlock(e, f, n);
    LabelSettles(e.items, f.name);
    EmittedBlockLaid(proc, e0, f.blocks[n], e1);
    OneMoreLaid(CodeOf(e.items), CodeOf(e0.items), CodeOf(e1.items), entry, f, n);
    ExtendsOn(CodeOf(e.items), CodeOf(e0.items), CodeOf(e1.items));
  }

  lemma {:induction false} BlocksLaid(proc: Processor, e: Emission, entry: nat, f: Function, n: nat, e': Emission)
    requires PlainFunction(f) && n <= |f.blocks| && Emitted(CodeOf(e.items), entry, f, n) && EmitFrom(proc, e, f, n) == Done(e')
    ensures Emitted(CodeOf(e'.items), entry, f, |f.blocks|) && Extends(CodeOf(e.items), CodeOf(e'.items))
    decreases |f.blocks| - n
  {
    if n < |f.blocks| {
      var e1 := NextBlock(proc, e, f, n, e');
      NextBlockLaid(proc, e, entry, f, n, e1);
      BlocksLaid(proc, e1, entry, f, n + 1, e');
      ExtendsOn(CodeOf(e.items), CodeOf(e1.items), CodeOf(e'.items));
    } else {
      ExtendsItself(CodeOf(e.items));
    }
  }

  lemma {:induction false} EntryOfPrefix(fns: seq<Function>, m: nat, n: nat)
    requires n <= m <= |fns|
    ensures Entry(fns[..m], n) == Entry(fns, n)
    decreases n
  {
    if n > 0 {
      EntryOfPrefix(fns, m, n - 1);
    }
  }

  lemma {:induction false} OneMoreFunction(code: Code, code': Code, fns: seq<Function>)
    requires fns != []
    requires var n := |fns| - 1;
             LaidModule(code, fns[..n]) && Extends(code, code') && Emitted(code', Entry(fns, n), fns[n], |fns[n].blocks|)
    ensures LaidModule(code', fns)
  {
    var n := |fns| - 1;
    forall f: nat | f < n
      ensures LaidFunction(code', fns, f)
    {
      EntryOfPrefix(fns, n, f);
      assert LaidFunction(code, fns[..n], f);
      LaidExtends(code, code', Entry(fns, f), fns[f], |fns[f].blocks|);
    }
  }

  /** The emitted module: every function's label in front of its code, every block's label in front of the block's. */
  lemma {:induction false} EmittedModuleLaid(proc: Processor, fns: seq<Function>)
    requires EmitFunctions(proc, fns).Done? && forall n: nat :: n < |fns| ==> PlainFunction(fns[n])
    ensures LaidModule(CodeOf(EmitFunctions(proc, fns).value), fns) && Settled(CodeOf(EmitFunctions(proc, fns).value))
  {
    if fns != [] {
      var n := |fns| - 1;
      EmittedModuleLaid(proc, fns[..n]);
      var base := EmitFunctions(proc, fns[..n]).value;
      var e := EmitBlocks(proc, base, fns[n]).value;
      EntryOfPrefix(fns, n, n);
      BlocksLaid(proc, Emission(base, ALL_READY, 0), Entry(fns, n), fns[n], 0, e);
      OneMoreFunction(CodeOf(base), CodeOf(e.items), fns);
    }
  }

  // ----- The emitted program runs as the module does -----

  /** A call continues at the block behind it. */
  predicate CallsFallThrough(f: Function) {
    forall b: nat :: b < |f.blocks| && f.blocks[b].terminator.DirectCall? ==> Named(f.blocks, f.blocks[b].terminator.cont, b + 1)
  }

  /** The program is about to run a block: right behind its label, or behind labels in front of it with nothing between. */
  predicate StandsAt(fns: seq<Function>, at: BlockRef, k: nat)
    requires at.fn < |fns|
  {
    var d := LabelOf(fns, at);
    k == d + 1 || k == d || (at.block == 0 && k == d - 1)
  }

  /** The program continues where the callers do. */
  predicate ReturnsMatch(fns: seq<Function>, calls: seq<BlockRef>, back: seq<nat>) {
    |back| == |calls| && forall i :: 0 <= i < |calls| ==> InModule(fns, calls[i]) && StandsAt(fns, calls[i], back[i])
  }

  predicate Corresponds(fns: seq<Function>, c: ModuleConfig, a: AsmConfig) {
    && InModule(fns, c.at) && StandsAt(fns, c.at, a.at) && a.state == c.state && ReturnsMatch(fns, c.calls, a.back)
  }

  lemma {:induction false} LaidAt(code: Code, fns: seq<Function>, at: BlockRef)
    requires LaidModule(code, fns) && InModule(fns, at)
    ensures Laid(code, LabelOf(fns, at), BlockOf(fns, at))
    ensures at.block == 0 ==> LaidLabel(code, LabelOf(fns, at) - 1, fns[at.fn].name)
  {
    assert LaidFunction(code, fns, at.fn);
  }

  lemma {:induction false} PassLabel(isa: Isa, items: seq<Item>, k: nat, name: string, s: State)
    requires LaidLabel(CodeOf(items), k, name)
    ensures ToTerminator(isa, items, k, s) == ToTerminator(isa, items, k + 1, s)
  {
  }

  lemma {:induction false} RunBody(isa: Isa, items: seq<Item>, d: nat, block: Block, s: State)
    requires Laid(CodeOf(items), d, block)
    ensures ToTerminator(isa, items, d + 1, s) == (d + 1, Run(isa, DecodeAll(block.syllables), s))
    ensures LaidLabel(CodeOf(items), d, block.name)
  {
    assert RunBundles(isa, CodeOf(items).segments[d + 1], s) == Run(isa, DecodeAll(block.syllables), s);
  }

  /** From right behind the label, from the label, and from the function's label in front of it. */
  lemma {:induction false} ReachFromLabels(isa: Isa, items: seq<Item>, name: string, d: nat, block: Block, k: nat, s: State)
    requires Laid(CodeOf(items), d, block) && (k == d + 1 || k == d || (k == d - 1 && LaidLabel(CodeOf(items), k, name)))
    ensures ToTerminator(isa, items, k, s) == (d + 1, Run(isa, DecodeAll(block.syllables), s))
  {
    RunBody(isa, items, d, block, s);
    if k <= d { PassLabel(isa, items, d, block.name, s); }
    if k < d { PassLabel(isa, items, k, name, s); }
  }

  lemma {:induction false} ReachTerminator(isa: Isa, items: seq<Item>, fns: seq<Function>, at: BlockRef, k: nat, s: State)
    requires LaidModule(CodeOf(items), fns) && InModule(fns, at) && StandsAt(fns, at, k)
    ensures k <= |Delimiters(items)|
    ensures ToTerminator(isa, items, k, s) == (LabelOf(fns, at) + 1, Run(isa, DecodeAll(BlockOf(fns, at).syllables), s))
  {
    LaidAt(CodeOf(items), fns, at);
    ReachFromLabels(isa, items, fns[at.fn].name, LabelOf(fns, at), BlockOf(fns, at), k, s);
  }

  lemma {:induction false} CallReturnsMatch(fns: seq<Function>, calls: seq<BlockRef>, back: seq<nat>, at: BlockRef, k: nat, calls': seq<BlockRef>)
    requires ReturnsMatch(fns, calls, back) && InModule(fns, at) && StandsAt(fns, at, k)
    requires |calls'| == |calls| + 1 && calls'[..|calls|] == calls && calls'[|calls|] == at
    ensures ReturnsMatch(fns, calls', back + [k])
  {
    forall i | 0 <= i < |calls|
      ensures InModule(fns, calls'[i]) && StandsAt(fns, calls'[i], (back + [k])[i])
    {
      assert calls'[..|calls|][i] == calls[i];
    }
  }

  /** Entering a function by its label. */
  lemma {:induction false} EntryLabelled(code: Code, fns: seq<Function>, at: BlockRef)
    requires LaidModule(code, fns) && InModule(fns, at)
    ensures Labelled(code.delimiters, BlockOf(fns, at).name, LabelOf(fns, at) + 1)
    ensures at.block == 0 ==> Labelled(code.delimiters, fns[at.fn].name, LabelOf(fns, at))
  {
    LaidAt(code, fns, at);
  }

  lemma {:induction false} ContinuesBehind(fns: seq<Function>, at: BlockRef, cont: BlockRef)
    requires InModule(fns, at) && CallsFallThrough(fns[at.fn]) && BlockOf(fns, at).terminator.DirectCall?
    requires cont.fn == at.fn && Named(fns[at.fn].blocks, BlockOf(fns, at).terminator.cont, cont.block)
    ensures InModule(fns, cont) && cont.block == at.block + 1 && StandsAt(fns, cont, LabelOf(fns, at) + 2)
  {
  }

  ghost predicate AllCallsFallThrough(fns: seq<Function>) {
    forall n: nat :: n < |fns| ==> CallsFallThrough(fns[n])
  }

  lemma {:induction false} CallCorresponds(fns: seq<Function>, c: ModuleConfig, callee: string, c': ModuleConfig, a: AsmConfig)
    requires AllCallsFallThrough(fns) && Corresponds(fns, c, a) && Continues(fns, c, Into(callee), c')
    ensures Corresponds(fns, c', AsmConfig(LabelOf(fns, c'.at), c'.state, a.back + [LabelOf(fns, c.at) + 2]))
  {
    var cont := c'.calls[|c.calls|];
    ContinuesBehind(fns, c.at, cont);
    CallReturnsMatch(fns, c.calls, a.back, cont, LabelOf(fns, c.at) + 2, c'.calls);
  }

  /** Where the emitted code goes from a block of the module. */
  function Following(fns: seq<Function>, c: ModuleConfig, t: Transfer, c': ModuleConfig, a: AsmConfig): AsmConfig
    requires InModule(fns, c.at) && InModule(fns, c'.at)
  {
    var k := LabelOf(fns, c.at) + 1;
    match t
    case Next => AsmConfig(k + 1, c'.state, a.back)
    case To(_) => AsmConfig(LabelOf(fns, c'.at) + 1, c'.state, a.back)
    case Into(_) => AsmConfig(LabelOf(fns, c'.at), c'.state, a.back + [k + 1])
    case Back => if a.back == [] then a else AsmConfig(a.back[|a.back| - 1], c'.state, a.back[..|a.back| - 1])
  }

  lemma {:induction false} FollowingCorresponds(fns: seq<Function>, c: ModuleConfig, t: Transfer, c': ModuleConfig, a: AsmConfig)
    requires AllCallsFallThrough(fns) && Corresponds(fns, c, a) && Continues(fns, c, t, c')
    ensures Corresponds(fns, c', Following(fns, c, t, c', a))
  {
    if t.Into? {
      CallCorresponds(fns, c, t.callee, c', a);
    }
  }

  /** What a lowered terminator does, in terms of the original. */
  lemma {:induction false} TransfersAs(delimiters: seq<Item>, k: nat, t: Terminator, s: State, back: seq<nat>, a': AsmConfig)
    requires k < |delimiters| && EndsAs(delimiters[k], t)
    ensures Transfers(delimiters, k, s, back, a') <==>
              match MirTransfer(t, s)
              case Next => a' == AsmConfig(k + 1, s, back)
              case To(target) => Labelled(delimiters, target, a'.at) && a' == AsmConfig(a'.at, s, back)
              case Into(callee) => Labelled(delimiters, callee, a'.at) && a' == AsmConfig(a'.at, s, back + [k + 1])
              case Back => back != [] && a' == AsmConfig(back[|back| - 1], s, back[..|back| - 1])
  {
    LoweredTransfer(t, s);
  }

  /** A block's terminator leads on as the module's. */
  lemma {:induction false} FollowingTransfers(code: Code, fns: seq<Function>, c: ModuleConfig, c': ModuleConfig, a: AsmConfig)
    requires LaidModule(code, fns) && Corresponds(fns, c, a)
    requires Continues(fns, c, MirTransfer(BlockOf(fns, c.at).terminator, c'.state), c')
    ensures var term := BlockOf(fns, c.at).terminator;
            Transfers(code.delimiters, LabelOf(fns, c.at) + 1, c'.state, a.back, Following(fns, c, MirTransfer(term, c'.state), c', a))
  {
    var term := BlockOf(fns, c.at).terminator;
    LaidAt(code, fns, c.at);
    EntryLabelled(code, fns, c'.at);
    TransfersAs(code.delimiters, LabelOf(fns, c.at) + 1, term, c'.state, a.back, Following(fns, c, MirTransfer(term, c'.state), c', a));
  }

  lemma {:induction false} StepCorresponds(items: seq<Item>, fns: seq<Function>, isa: Isa, c: ModuleConfig, c': ModuleConfig, a: AsmConfig) returns (a': AsmConfig)
    requires LaidModule(CodeOf(items), fns) && AllCallsFallThrough(fns) && IsModuleStep(isa, fns, c, c') && Corresponds(fns, c, a)
    ensures IsAsmStep(isa, items, a, a') && Corresponds(fns, c', a')
  {
    var t := MirTransfer(BlockOf(fns, c.at).terminator, c'.state);
    a' := Following(fns, c, t, c', a);
    FollowingCorresponds(fns, c, t, c', a);
    FollowingTransfers(CodeOf(items), fns, c, c', a);
    ReachTerminator(isa, items, fns, c.at, a.at, a.state);
  }

  ghost predicate RunsCorrespond(fns: seq<Function>, r: seq<ModuleConfig>, asm: seq<AsmConfig>) {
    |asm| == |r| && forall n :: 0 <= n < |r| ==> Corresponds(fns, r[n], asm[n])
  }

  lemma {:induction false} RunBefore(isa: Isa, fns: seq<Function>, r: seq<ModuleConfig>)
    requires IsModuleRun(isa, fns, r) && |r| > 1
    ensures IsModuleRun(isa, fns, r[..|r| - 1]) && IsModuleStep(isa, fns, r[|r| - 2], r[|r| - 1])
  {
  }

  lemma {:induction false} RunExtends(isa: Isa, items: seq<Item>, asm: seq<AsmConfig>, a: AsmConfig)
    requires IsAsmRun(isa, items, asm) && IsAsmStep(isa, items, asm[|asm| - 1], a)
    ensures IsAsmRun(isa, items, asm + [a])
  {
    var r := asm + [a];
    forall n | 0 < n < |r|
      ensures IsAsmStep(isa, items, r[n - 1], r[n])
    {
      assert r[n - 1] == asm[n - 1] && (n < |asm| ==> r[n] == asm[n]);
    }
  }

  lemma {:induction false} CorrespondenceExtends(fns: seq<Function>, r: seq<ModuleConfig>, asm: seq<AsmConfig>, a: AsmConfig)
    requires r != [] && RunsCorrespond(fns, r[..|r| - 1], asm) && Corresponds(fns, r[|r| - 1], a)
    ensures RunsCorrespond(fns, r, asm + [a])
  {
    assert forall n :: 0 <= n < |asm| ==> r[n] == r[..|r| - 1][n];
  }

  lemma {:induction false} RunGoesOn(items: seq<Item>, fns: seq<Function>, isa: Isa, r: seq<ModuleConfig>, done: seq<AsmConfig>) returns (asm: seq<AsmConfig>)
    requires LaidModule(CodeOf(items), fns) && AllCallsFallThrough(fns)
    requires |r| > 1 && IsModuleStep(isa, fns, r[|r| - 2], r[|r| - 1])
    requires IsAsmRun(isa, items, done) && RunsCorrespond(fns, r[..|r| - 1], done)
    ensures IsAsmRun(isa, items, asm) && asm[0] == done[0] && RunsCorrespond(fns, r, asm)
  {
    var n := |r| - 1;
    assert Corresponds(fns, r[..n][n - 1], done[n - 1]);
    var a' := StepCorresponds(items, fns, isa, r[n - 1], r[n], done[n - 1]);
    RunExtends(isa, items, done, a');
    CorrespondenceExtends(fns, r, done, a');
    asm := done + [a'];
  }

  lemma {:induction false} RunOfEmitted(items: seq<Item>, fns: seq<Function>, isa: Isa, r: seq<ModuleConfig>, a: AsmConfig) returns (asm: seq<AsmConfig>)
    requires LaidModule(CodeOf(items), fns) && AllCallsFallThrough(fns) && IsModuleRun(isa, fns, r) && Corresponds(fns, r[0], a)
    ensures IsAsmRun(isa, items, asm) && asm[0] == a && RunsCorrespond(fns, r, asm)
  {
    var n := |r| - 1;
    if n == 0 {
      asm := [a];
    } else {
      RunBefore(isa, fns, r);
      var done := RunOfEmitted(items, fns, isa, r[..n], a);
      asm := RunGoesOn(items, fns, isa, r, done);
    }
  }
}
