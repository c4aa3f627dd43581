/** Three streams the packer gets wrong: merges the hazard check lets through although they change the meaning. */
module PackerLimits {
  import opened Opcodes
  import opened Mir
  import opened Machine
  import opened Asm
  import opened AsmMeaning
  import opened BundleVerifier
  import opened Ready
  import opened Timing
  import opened RegAlloc
  import opened AllocationExamples
  import opened Lowering
  import opened Emitter
  import opened EmittedStream
  import opened Packer
  import opened PackerMeaning
  import opened MergeLimits
  import opened Accesses
  import opened StandardIsa

  // ----- The packer on two syllables -----

  /** The bundle the emitter issues a syllable in. */
  function Alone(proc: Processor, slot: nat, x: AsmSyllable): Bundle
    requires slot < proc.width
  {
    BundleWith(proc.width, slot, x)
  }

  /** The slots i and k execute x and y, and the two are apart on the general registers. */
  predicate FitTogether(proc: Processor, x: AsmSyllable, i: nat, y: AsmSyllable, k: nat) {
    && i < proc.width && k < proc.width && i != k
    && OpcodeOf(x).Some? && OpcodeOf(y).Some? && OpcodeOf(x).value != Nop && OpcodeOf(y).value != Nop
    && SlotHasUnitFor(proc, i, OpcodeOf(x).value) && SlotHasUnitFor(proc, k, OpcodeOf(y).value)
    && var wx, wy := GprWrites(OpcodeOf(x).value, x.operands), GprWrites(OpcodeOf(y).value, y.operands);
       && (forall r :: r in wx ==> r !in wy && r !in GprReads(OpcodeOf(y).value, y.operands))
       && (forall r :: r in wy ==> r !in GprReads(OpcodeOf(x).value, x.operands))
  }

  lemma {:induction false} TogetherIsLegal(proc: Processor, x: AsmSyllable, i: nat, y: AsmSyllable, k: nat)
    requires FitTogether(proc, x, i, y, k)
    ensures LegalBundle(proc, Alone(proc, i, x)[k := Some(y)])
  {
    var c := Alone(proc, i, x)[k := Some(y)];
    assert forall q :: 0 <= q < proc.width ==> c[q] == if q == i then Some(x) else if q == k then Some(y) else None;
    assert Operation(c, i) == OpcodeOf(x) && Operation(c, k) == OpcodeOf(y);
    assert forall q: nat, r: nat :: q != i && q != k ==> !WritesAt(c, q, r) && !ReadsAt(c, q, r);
  }

  lemma {:induction false} NothingRequired(b: Bundle)
    requires KnownBundle(b)
    ensures BundleReadyAt(b, 0, ALL_READY) && BundleRequired(Syllables(b), ALL_READY) == 0
  {
    assert forall k :: KeyReadyAt(ALL_READY, k) == 0;
  }

  /** The first bundle of a segment is taken as it is. */
  lemma {:induction false} FirstStep(proc: Processor, a: Bundle)
    requires KnownBundle(a) && !IsEmptyBundle(a)
    ensures PackSegment(proc, [a], 0, ALL_READY) == [a]
  {
    var seg: seq<Bundle> := [a];
    assert seg[..0] == [];
    assert PackSegment(proc, [], 0, ALL_READY) == [];
    NothingRequired(a);
    assert Padded([], a, 0, ALL_READY) == [a];
  }

  /** After one syllable of latency 1 nothing is pending in the next cycle. */
  lemma {:induction false} NothingPendingAfter(a: Bundle, x: AsmSyllable)
    requires Syllables(a) == [x] && KnownSyllable(x) && Latency(OpcodeOf(x).value) <= 1
    ensures !HasPendingAt(AfterBundles([a], 0, ALL_READY), 1)
  {
    var bs: seq<Bundle>, syls := [a], [x];
    assert bs[..0] == [] && syls[..0] == [];
    assert AfterBundles([], 0, ALL_READY) == ALL_READY && AfterSyllables([], 0, ALL_READY) == ALL_READY;
    assert AfterBundles(bs, 0, ALL_READY) == AfterAsm(x, 0, ALL_READY);
  }

  /** y goes into the slot k of the bundle of x, if the code finds that slot and the hazard check agrees. */
  lemma {:induction false} PairPacks(proc: Processor, a: Bundle, b: Bundle, x: AsmSyllable, y: AsmSyllable, k: nat)
    requires |a| == proc.width && Syllables(a) == [x] && Syllables(b) == [y] && KnownSyllable(x) && KnownSyllable(y)
    requires !IsEmptyBundle(a) && !IsEmptyBundle(b) && !IsTerminatorBundle(a) && Latency(OpcodeOf(x).value) <= 1
    requires FirstOpenSlot(proc, a, OpcodeOf(y).value, 0) == Some(k) && LegalBundle(proc, a[k := Some(y)])
    ensures MergeBundles(proc, a, b) == Some(a[k := Some(y)])
    ensures PackSegment(proc, [a, b], 0, ALL_READY) == [a[k := Some(y)]]
  {
    var seg: seq<Bundle>, out: seq<Bundle>, syls := [a, b], [a], [y];
    FirstStep(proc, a);
    NothingRequired(b);
    NothingPendingAfter(a, x);
    assert seg[..1] == [a] && out[..0] == [] && syls[..0] == [];
    assert NormalizeSlots(a, proc.width) == a;
    assert PlaceAll(proc, a, []) == Some(a);
    assert PlaceAll(proc, a, syls) == Some(a[k := Some(y)]);
    assert Merged(proc, out, b, 0, ALL_READY) == Some(a[k := Some(y)]);
    assert out[0 := a[k := Some(y)]] == [a[k := Some(y)]];
  }

  lemma {:induction false} TwoSyllables(b: Bundle, i: nat, x: AsmSyllable, k: nat, y: AsmSyllable)
    requires i < k < |b| && b[i] == Some(x) && b[k] == Some(y) && forall q :: 0 <= q < |b| && q != i && q != k ==> b[q].None?
    ensures Syllables(b) == [x, y]
  {
    var n := |b| - 1;
    if k == n {
      OneSyllable(b[..n], i, x);
    } else {
      TwoSyllables(b[..n], i, x, k, y);
    }
  }

  /** Wherever the second slot is, the slot order is known. */
  lemma {:induction false} TogetherSyllables(proc: Processor, i: nat, x: AsmSyllable, k: nat, y: AsmSyllable)
    requires i < proc.width && k < proc.width && i != k
    ensures Syllables(Alone(proc, i, x)[k := Some(y)]) == if i < k then [x, y] else [y, x]
  {
    if i < k {
      TwoSyllables(Alone(proc, i, x)[k := Some(y)], i, x, k, y);
    } else {
      TwoSyllables(Alone(proc, i, x)[k := Some(y)], k, y, i, x);
    }
  }

  predicate Plain(proc: Processor, slot: nat, x: AsmSyllable) {
    WellFormed(x) && !IsTerminatorSyllable(x) && slot < proc.width && SlotHasUnitFor(proc, slot, OpcodeOf(x).value)
  }

  lemma {:induction false} AloneFacts(proc: Processor, slot: nat, x: AsmSyllable)
    requires Plain(proc, slot, x) && OpcodeOf(x).value != Nop
    ensures var a := Alone(proc, slot, x);
            && ScalarBundle(proc, a) && Syllables(a) == [x] && !IsEmptyBundle(a) && !IsTerminatorBundle(a)
  {
    var a := Alone(proc, slot, x);
    SingleIsLegal(proc, OpcodeOf(x).value, x, slot);
    OneSyllable(a, slot, x);
    assert a[slot].Some?;
  }

  /** The packer puts x and y into one bundle: y, issued in slot j, moves to slot k next to x in slot i. */
  ghost predicate Merges(proc: Processor, x: AsmSyllable, i: nat, y: AsmSyllable, j: nat, k: nat)
    requires i < proc.width && j < proc.width && k < proc.width
  {
    PackSegment(proc, [Alone(proc, i, x), Alone(proc, j, y)], 0, ALL_READY) == [Alone(proc, i, x)[k := Some(y)]]
  }

  /** From state s the packed bundle does something else than the two scalar ones. */
  ghost predicate GoesWrong(isa: Isa, proc: Processor, x: AsmSyllable, i: nat, y: AsmSyllable, j: nat, k: nat, s: State)
    requires i < proc.width && j < proc.width && k < proc.width
  {
    RunBundles(isa, [Alone(proc, i, x)[k := Some(y)]], s) != RunBundles(isa, [Alone(proc, i, x), Alone(proc, j, y)], s)
  }

  lemma {:induction false} PairMerges(proc: Processor, x: AsmSyllable, i: nat, y: AsmSyllable, j: nat, k: nat)
    requires Plain(proc, i, x) && Plain(proc, j, y) && FitTogether(proc, x, i, y, k) && Latency(OpcodeOf(x).value) <= 1
    requires FirstOpenSlot(proc, Alone(proc, i, x), OpcodeOf(y).value, 0) == Some(k)
    ensures Merges(proc, x, i, y, j, k)
  {
    AloneFacts(proc, i, x);
    AloneFacts(proc, j, y);
    TogetherIsLegal(proc, x, i, y, k);
    PairPacks(proc, Alone(proc, i, x), Alone(proc, j, y), x, y, k);
  }

  lemma {:induction false} PairGoesWrong(isa: Isa, proc: Processor, x: AsmSyllable, i: nat, y: AsmSyllable, j: nat, k: nat, s: State)
    requires Plain(proc, i, x) && Plain(proc, j, y) && FitTogether(proc, x, i, y, k) && x != y
    ensures GoesWrong(isa, proc, x, i, y, j, k, s) <==> !Agrees(isa, DecodeAsm(x), DecodeAsm(y), k < i, s)
  {
    var a, b, c := Alone(proc, i, x), Alone(proc, j, y), Alone(proc, i, x)[k := Some(y)];
    AloneFacts(proc, i, x);
    AloneFacts(proc, j, y);
    TogetherSyllables(proc, i, x, k, y);
    assert [x, y] != [y, x] by {
      assert [x, y][0] != [y, x][0];
    }
    MergeAgreesWhen(isa, a, b, c, x, y, s);
    assert GoesWrong(isa, proc, x, i, y, j, k, s) <==> !MergeAgrees(isa, a, b, c, s);
  }

  // ----- A predicate and its reader -----

  lemma {:induction false} KindsOf(units: seq<UnitDecl>)
    requires units == DEFAULT_PROCESSOR.units
    ensures var kinds := UnitKinds(units);
            && "alu" in kinds && kinds["alu"] == IntegerAlu && "mem" in kinds && kinds["mem"] == Memory
            && "ctrl" in kinds && kinds["ctrl"] == Control && "mul" in kinds && kinds["mul"] == Multiplier
  {
    assert UnitKinds(units[..0]) == map[];
    assert units[..1][..0] == units[..0] && units[..2][..1] == units[..1] && units[..3][..2] == units[..2];
    var k1 := UnitKinds(units[..1]);
    assert k1 == map["alu" := IntegerAlu];
    var k2 := UnitKinds(units[..2]);
    assert k2 == k1["mem" := Memory];
    var k3 := UnitKinds(units[..3]);
    assert k3 == k2["ctrl" := Control];
    assert UnitKinds(units) == k3["mul" := Multiplier];
  }

  /** Slots I0, I1, M and X of the canonical processor. */
  lemma {:induction false} SlotFor(slot: nat, op: Opcode)
    requires slot < 4
    ensures SlotHasUnitFor(DEFAULT_PROCESSOR, slot, op) <==>
              if slot <= 1 then IntegerAlu in Units(op)
              else if slot == 2 then Memory in Units(op)
              else Control in Units(op) || Multiplier in Units(op)
  {
    KindsOf(DEFAULT_PROCESSOR.units);
    if slot == 3 {
      TwoUnits(DEFAULT_PROCESSOR, slot, "ctrl", "mul", op);
    } else {
      OneUnit(DEFAULT_PROCESSOR, slot, if slot <= 1 then "alu" else "mem", op);
    }
  }

  /** The comparison and the negation of "not equal"; the allocator gives the negation the register that dies in it. */
  const COMPARE := AsmSyllable("cmpeq", [PredOp(2), RegOp(3), RegOp(4)])
  const NEGATE := AsmSyllable("pnot", [PredOp(2), PredOp(2)])
  const NEGATE_OTHER := AsmSyllable("pnot", [PredOp(2), PredOp(3)])

  const P2 := RegKey(Pred, PReg(2))
  const P3 := RegKey(Pred, PReg(3))

  lemma {:induction false} PredicatesDecode()
    ensures OpcodeOf(COMPARE) == Some(CmpEq) && OpcodeOf(NEGATE) == Some(PNot) && OpcodeOf(NEGATE_OTHER) == Some(PNot)
    ensures DecodeAsm(COMPARE) == Compute(CmpEq, Some(P2), [FromReg(RegKey(Gpr, PReg(3))), FromReg(RegKey(Gpr, PReg(4)))])
    ensures DecodeAsm(NEGATE) == Compute(PNot, Some(P2), [FromReg(P2)])
    ensures DecodeAsm(NEGATE_OTHER) == Compute(PNot, Some(P2), [FromReg(P3)])
  {
    MnemonicRoundTrip(CmpEq);
    MnemonicRoundTrip(PNot);
  }

  lemma {:induction false} PredicateSlots(i: nat)
    requires i < 4
    ensures SlotHasUnitFor(DEFAULT_PROCESSOR, i, CmpEq) <==> i <= 1
    ensures SlotHasUnitFor(DEFAULT_PROCESSOR, i, PNot) <==> i == 3
  {
    SlotFor(i, CmpEq);
    SlotFor(i, PNot);
  }

  /** So does the allocator: a negation that is the last use of v gives its result the register of v. */
  lemma {:induction false} AllocatorYieldsNegation(uses: BlockUses, a: AllocState, v: nat, d: nat, pos: nat) returns (a': AllocState, code: seq<Syllable>)
    requires v in a.regOf && a.regOf[v] == 2 && d != v && d !in a.regOf && d !in a.slots
    requires uses.CanFreeAfter(v, pos) && uses.HasLaterUse(d, pos)
    ensures IsStep(uses, Syllable(PNot, Some(VReg(d)), [RegValue(VReg(v))]), pos, [0, 0], a, a', code)
    ensures |code| == 1 && LowerSyllable(code[0]) == Done(NEGATE) && d in a'.regOf && a'.regOf[d] == 2
  {
    a' := TakesOverStep(uses, a, Syllable(PNot, Some(VReg(d)), [RegValue(VReg(v))]), v, d, pos);
    code := [Syllable(PNot, Some(PReg(2)), [RegValue(PReg(2))])];
    NegationLowered();
  }

  lemma {:induction false} NegationLowered()
    ensures LowerSyllable(Syllable(PNot, Some(PReg(2)), [RegValue(PReg(2))])) == Done(NEGATE)
  {
    var srcs := [RegValue(PReg(2))];
    assert srcs[..0] == [];
    var none: seq<Operand> := [];
    assert ScalarOperands(Pred, srcs[..0]) == Done(none);
    assert ScalarOperand(Pred, srcs[0]) == Done(PredOp(2));
    assert none + [PredOp(2)] == [PredOp(2)];
    assert ScalarOperands(Pred, srcs) == Done([PredOp(2)]);
    assert [PredOp(2)] + [PredOp(2)] == [PredOp(2), PredOp(2)];
  }

  lemma {:induction false} ComparePlain()
    ensures Plain(DEFAULT_PROCESSOR, 0, COMPARE)
  {
    PredicatesDecode();
    PredicateSlots(0);
  }

  lemma {:induction false} NegatesPlain()
    ensures Plain(DEFAULT_PROCESSOR, 3, NEGATE) && Plain(DEFAULT_PROCESSOR, 3, NEGATE_OTHER)
  {
    PredicatesDecode();
    PredicateSlots(3);
  }

  lemma {:induction false} PredicatesFit()
    ensures FitTogether(DEFAULT_PROCESSOR, COMPARE, 0, NEGATE, 3) && FitTogether(DEFAULT_PROCESSOR, NEGATE_OTHER, 3, COMPARE, 0)
  {
    PredicatesDecode();
    PredicateSlots(0);
    PredicateSlots(3);
  }

  lemma {:induction false} WrittenTwice(s: State, k: RegKey, u: int, v: int)
    ensures Apply(Apply(s, Effect(map[k := u], map[])), Effect(map[k := v], map[])) == State(s.regs[k := v], s.mem)
  {
    assert s.regs + map[k := u] + map[k := v] == s.regs[k := v];
    assert s.mem + map[] + map[] == s.mem;
  }

  /** With one destination for both, the last value written is all that counts. */
  lemma {:induction false} LastValueCounts(isa: Isa, x: MicroOp, y: MicroOp, swapped: bool, s: State)
    requires Writing(x) && Writing(y) && x.dst == y.dst
    ensures Agrees(isa, x, y, swapped, s)
       <==> Alu(isa, y.op, ReadSrcs(Exec(isa, x, s), y.args))
            == if swapped then Alu(isa, x.op, ReadSrcs(s, x.args)) else Alu(isa, y.op, ReadSrcs(s, y.args))
  {
    var u, v, w := Alu(isa, x.op, ReadSrcs(s, x.args)), Alu(isa, y.op, ReadSrcs(s, y.args)), Alu(isa, y.op, ReadSrcs(Exec(isa, x, s), y.args));
    IssuePair(isa, x, y, swapped, s);
    RunTwo(isa, x, y, s);
    ValueOf(isa, x, s);
    ValueOf(isa, y, s);
    ValueOf(isa, y, Exec(isa, x, s));
    WrittenTwice(s, x.dst.value, u, v);
    WrittenTwice(s, x.dst.value, v, u);
    WrittenTwice(s, x.dst.value, u, w);
    SameWhenEqual(s, x.dst.value, w, if swapped then u else v);
  }

  lemma {:induction false} SameWhenEqual(s: State, k: RegKey, v: int, w: int)
    ensures State(s.regs[k := v], s.mem) == State(s.regs[k := w], s.mem) <==> v == w
  {
    assert s.regs[k := v][k] == v && s.regs[k := w][k] == w;
  }

  const R3 := RegKey(Gpr, PReg(3))
  const R4 := RegKey(Gpr, PReg(4))

  lemma {:induction false} CompareValue(s: State)
    ensures Alu(Standard(), CmpEq, ReadSrcs(s, [FromReg(R3), FromReg(R4)])) == Truth(ReadReg(s, R3) == ReadReg(s, R4))
  {
    assert ReadSrcs(s, [FromReg(R3), FromReg(R4)]) == [ReadReg(s, R3), ReadReg(s, R4)];
  }

  lemma {:induction false} NegateValue(s: State, k: RegKey)
    ensures Alu(Standard(), PNot, ReadSrcs(s, [FromReg(k)])) == Truth(ReadReg(s, k) == 0)
  {
    assert ReadSrcs(s, [FromReg(k)]) == [ReadReg(s, k)];
  }

  lemma {:induction false} Compared(s: State)
    ensures var s1 := Exec(Standard(), DecodeAsm(COMPARE), s); ReadReg(s1, P2) == Truth(ReadReg(s, R3) == ReadReg(s, R4))
  {
    PredicatesDecode();
    CompareValue(s);
    ValueOf(Standard(), DecodeAsm(COMPARE), s);
  }

  lemma {:induction false} NegationBehind()
    ensures FirstOpenSlot(DEFAULT_PROCESSOR, Alone(DEFAULT_PROCESSOR, 0, COMPARE), PNot, 0) == Some(3)
  {
    PredicateSlots(0);
    PredicateSlots(1);
    PredicateSlots(2);
    PredicateSlots(3);
    assert OpenSlot(DEFAULT_PROCESSOR, Alone(DEFAULT_PROCESSOR, 0, COMPARE), PNot, 3);
  }

  /**
   * On the canonical processor the packer puts `cmpeq p2, r3, r4` and `pnot p2, p2` into one bundle, where the
   * negation reads the old p2.  With the usual comparison and negation that is wrong from exactly the states in
   * which the old p2 is not the outcome of the comparison.
   */
  lemma {:induction false} PredicatePairBreaksPacking(s: State)
    ensures Merges(DEFAULT_PROCESSOR, COMPARE, 0, NEGATE, 3, 3)
    ensures GoesWrong(Standard(), DEFAULT_PROCESSOR, COMPARE, 0, NEGATE, 3, 3, s)
       <==> (ReadReg(s, P2) != 0) != (ReadReg(s, R3) == ReadReg(s, R4))
  {
    ComparePlain();
    NegatesPlain();
    PredicatesFit();
    PredicatesDecode();
    NegationBehind();
    PairMerges(DEFAULT_PROCESSOR, COMPARE, 0, NEGATE, 3, 3);
    PairGoesWrong(Standard(), DEFAULT_PROCESSOR, COMPARE, 0, NEGATE, 3, 3, s);
    NegationWrong(s);
  }

  lemma {:induction false} NegationWrong(s: State)
    ensures Agrees(Standard(), DecodeAsm(COMPARE), DecodeAsm(NEGATE), false, s)
       <==> (ReadReg(s, P2) != 0) == (ReadReg(s, R3) == ReadReg(s, R4))
  {
    PredicatesDecode();
    LastValueCounts(Standard(), DecodeAsm(COMPARE), DecodeAsm(NEGATE), false, s);
    Compared(s);
    NegateValue(Exec(Standard(), DecodeAsm(COMPARE), s), P2);
    NegateValue(s, P2);
  }

  lemma {:induction false} ComparisonInFront()
    ensures FirstOpenSlot(DEFAULT_PROCESSOR, Alone(DEFAULT_PROCESSOR, 3, NEGATE_OTHER), CmpEq, 0) == Some(0)
  {
    PredicateSlots(0);
    assert OpenSlot(DEFAULT_PROCESSOR, Alone(DEFAULT_PROCESSOR, 3, NEGATE_OTHER), CmpEq, 0);
  }

  /**
   * Two writers of one predicate: behind `pnot p2, p3` in slot X the packer finds slot I0 free for
   * `cmpeq p2, r3, r4`, and in slot order the comparison is overwritten.  That is wrong from exactly the states in
   * which p3 is the outcome of the comparison.
   */
  lemma {:induction false} PredicateWritersBreakPacking(s: State)
    ensures Merges(DEFAULT_PROCESSOR, NEGATE_OTHER, 3, COMPARE, 0, 0)
    ensures GoesWrong(Standard(), DEFAULT_PROCESSOR, NEGATE_OTHER, 3, COMPARE, 0, 0, s)
       <==> (ReadReg(s, P3) != 0) == (ReadReg(s, R3) == ReadReg(s, R4))
  {
    ComparePlain();
    NegatesPlain();
    PredicatesFit();
    PredicatesDecode();
    ComparisonInFront();
    PairMerges(DEFAULT_PROCESSOR, NEGATE_OTHER, 3, COMPARE, 0, 0);
    PairGoesWrong(Standard(), DEFAULT_PROCESSOR, NEGATE_OTHER, 3, COMPARE, 0, 0, s);
    ComparisonWrong(s);
  }

  lemma {:induction false} ComparisonWrong(s: State)
    ensures Agrees(Standard(), DecodeAsm(NEGATE_OTHER), DecodeAsm(COMPARE), true, s)
       <==> (ReadReg(s, P3) != 0) != (ReadReg(s, R3) == ReadReg(s, R4))
  {
    PredicatesDecode();
    LastValueCounts(Standard(), DecodeAsm(NEGATE_OTHER), DecodeAsm(COMPARE), true, s);
    var s1 := Exec(Standard(), DecodeAsm(NEGATE_OTHER), s);
    ExecFrame(Standard(), DecodeAsm(NEGATE_OTHER), s);
    CompareValue(s1);
    NegateValue(s, P3);
  }

  // ----- Two slots that access memory -----

  /** The wider layout of the repository's layout tests: I0 to I3, M0, M1, X, I4. */
  const WIDE_PROCESSOR := Processor(
    8,
    DEFAULT_PROCESSOR.units,
    [SlotAlias("I0", 0), SlotAlias("I1", 1), SlotAlias("I2", 2), SlotAlias("I3", 3),
     SlotAlias("M0", 4), SlotAlias("M1", 5), SlotAlias("X", 6), SlotAlias("I4", 7)],
    [["alu"], ["alu"], ["alu"], ["alu"], ["mem"], ["mem"], ["ctrl", "mul"], ["alu"]],
    1, DEFAULT_MEMORY_SIZE)

  const STORE := AsmSyllable("std", [MemAddr(1, 0), RegOp(3)])
  const LOAD := AsmSyllable("ldd", [RegOp(2), MemAddr(1, 0)])

  lemma {:induction false} OneUnit(proc: Processor, slot: nat, u: string, op: Opcode)
    requires slot < |proc.slotUnits| && proc.slotUnits[slot] == [u] && u in UnitKinds(proc.units)
    ensures SlotHasUnitFor(proc, slot, op) <==> UnitKinds(proc.units)[u] in Units(op)
  {
    assert proc.slotUnits[slot][0] == u;
  }

  lemma {:induction false} TwoUnits(proc: Processor, slot: nat, u: string, v: string, op: Opcode)
    requires slot < |proc.slotUnits| && proc.slotUnits[slot] == [u, v] && u in UnitKinds(proc.units) && v in UnitKinds(proc.units)
    ensures SlotHasUnitFor(proc, slot, op) <==> UnitKinds(proc.units)[u] in Units(op) || UnitKinds(proc.units)[v] in Units(op)
  {
    assert proc.slotUnits[slot][0] == u && proc.slotUnits[slot][1] == v;
  }

  lemma {:induction false} WideUnits(i: nat)
    requires i < 8
    ensures WIDE_PROCESSOR.slotUnits[i] == if i == 4 || i == 5 then ["mem"] else if i == 6 then ["ctrl", "mul"] else ["alu"]
  {
  }

  lemma {:induction false} MemorySlots(i: nat, op: Opcode)
    requires i < 8 && Units(op) == [Memory]
    ensures SlotHasUnitFor(WIDE_PROCESSOR, i, op) <==> i == 4 || i == 5
  {
    KindsOf(WIDE_PROCESSOR.units);
    WideUnits(i);
    if i == 6 {
      TwoUnits(WIDE_PROCESSOR, i, "ctrl", "mul", op);
    } else {
      OneUnit(WIDE_PROCESSOR, i, if i == 4 || i == 5 then "mem" else "alu", op);
    }
  }

  lemma {:induction false} AccessesDecode()
    ensures OpcodeOf(STORE) == Some(StoreD) && OpcodeOf(LOAD) == Some(LoadD)
    ensures DecodeAsm(STORE) == Store(StoreD, RegKey(Gpr, PReg(1)), 0, FromReg(RegKey(Gpr, PReg(3))))
    ensures DecodeAsm(LOAD) == Load(LoadD, Some(RegKey(Gpr, PReg(2))), RegKey(Gpr, PReg(1)), 0)
  {
    MnemonicRoundTrip(StoreD);
    MnemonicRoundTrip(LoadD);
  }

  lemma {:induction false} LoadNextToStore()
    ensures FirstOpenSlot(WIDE_PROCESSOR, Alone(WIDE_PROCESSOR, 4, STORE), LoadD, 0) == Some(5)
  {
    MemorySlots(0, LoadD);
    MemorySlots(1, LoadD);
    MemorySlots(2, LoadD);
    MemorySlots(3, LoadD);
    MemorySlots(5, LoadD);
    assert OpenSlot(WIDE_PROCESSOR, Alone(WIDE_PROCESSOR, 4, STORE), LoadD, 5);
  }

  const R1 := RegKey(Gpr, PReg(1))

  /** The value the load finds in memory. */
  ghost function WordAt(s: State): int {
    ReadByte(s, ReadReg(s, R1))
  }

  /** In one bundle the load finds what was there before, in sequence it finds what the store has put there. */
  lemma {:induction false} LoadWrong(s: State)
    ensures Agrees(Standard(), DecodeAsm(STORE), DecodeAsm(LOAD), false, s) <==> WordAt(s) == ReadReg(s, R3)
  {
    AccessesDecode();
    var x, y := DecodeAsm(STORE), DecodeAsm(LOAD);
    var s1 := Exec(Standard(), x, s);
    IssuePair(Standard(), x, y, false, s);
    RunTwo(Standard(), x, y, s);
    LoadedWord(y, s);
    LoadedWord(y, s1);
    StoredWord(x, s);
    SameWhenEqual(s1, RegKey(Gpr, PReg(2)), WordAt(s), WordAt(s1));
    AppliedLoad(s1, WordAt(s));
    AppliedLoad(s1, WordAt(s1));
  }

  lemma {:induction false} AppliedLoad(s: State, v: int)
    ensures Apply(s, Effect(map[RegKey(Gpr, PReg(2)) := v], map[])) == State(s.regs[RegKey(Gpr, PReg(2)) := v], s.mem)
  {
    assert s.mem + map[] == s.mem;
  }

  lemma {:induction false} StoredWord(x: MicroOp, s: State)
    requires x == Store(StoreD, R1, 0, FromReg(R3))
    ensures WordAt(Exec(Standard(), x, s)) == ReadReg(s, R3)
  {
    StoreKeeps(Standard(), x, s);
    assert Touches(x, s, ReadReg(s, R1));
  }

  lemma {:induction false} LoadedWord(y: MicroOp, s: State)
    requires y == Load(LoadD, Some(RegKey(Gpr, PReg(2))), R1, 0)
    ensures EffectOf(Standard(), y, s) == Effect(map[RegKey(Gpr, PReg(2)) := WordAt(s)], map[])
  {
    var bytes := ReadBytes(s, Address(y, s), 8);
    assert |bytes| > 0 && bytes[0] == WordAt(s);
  }

  lemma {:induction false} AccessesPlain()
    ensures Plain(WIDE_PROCESSOR, 4, STORE) && Plain(WIDE_PROCESSOR, 4, LOAD)
  {
    AccessesDecode();
    MemorySlots(4, StoreD);
    MemorySlots(4, LoadD);
  }

  lemma {:induction false} AccessesFit()
    ensures FitTogether(WIDE_PROCESSOR, STORE, 4, LOAD, 5)
  {
    AccessesDecode();
    MemorySlots(4, StoreD);
    MemorySlots(5, LoadD);
  }

  /**
   * With two memory slots the packer puts `std [r1], r3` and `ldd r2, [r1]` into one bundle, where the load misses
   * the store: wrong from exactly the states in which another word was there before.
   */
  lemma {:induction false} StoreThenLoadBreaksPacking(s: State)
    ensures Merges(WIDE_PROCESSOR, STORE, 4, LOAD, 4, 5)
    ensures GoesWrong(Standard(), WIDE_PROCESSOR, STORE, 4, LOAD, 4, 5, s) <==> WordAt(s) != ReadReg(s, R3)
  {
    AccessesDecode();
    AccessesPlain();
    AccessesFit();
    LoadNextToStore();
    PairMerges(WIDE_PROCESSOR, STORE, 4, LOAD, 4, 5);
    PairGoesWrong(Standard(), WIDE_PROCESSOR, STORE, 4, LOAD, 4, 5, s);
    LoadWrong(s);
  }
}
