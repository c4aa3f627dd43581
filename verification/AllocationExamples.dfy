/** Two blocks in which the allocator loses an operand, compiled from a fresh allocator. */
module AllocationExamples {
  import opened Collections
  import opened Opcodes
  import opened Mir
  import opened Machine
  import opened Regs
  import opened RegAlloc
  import opened SpillMeaning
  import opened RegAllocMeaning
  import opened BlockAllocation
  import opened Allocator

  // ----- Filling all registers -----

  /** Definition i of a block that defines v0, v1, ... one after another. */
  function Definition(first: Syllable, i: nat): Syllable {
    if i == 0 then first else Syllable(MovImm, Some(VReg(i)), [Imm(i)])
  }

  function Definitions(first: Syllable, n: nat): seq<Syllable> {
    seq(n, i requires i >= 0 => Definition(first, i))
  }

  function FilledRegs(n: nat): (m: map<nat, nat>)
    ensures forall v :: v in m <==> 0 <= v < n
    ensures forall v :: v in m ==> m[v] == v + FIRST_ALLOCATABLE_GPR
  {
    if n == 0 then map[] else FilledRegs(n - 1)[n - 1 := n - 1 + FIRST_ALLOCATABLE_GPR]
  }

  /** The allocator after the first n definitions, none of which has died. */
  function Filled(base: int, n: nat): AllocState
    requires n <= REGISTERS
  {
    AllocState(FilledRegs(n), seq(REGISTERS - n, i => i + n + FIRST_ALLOCATABLE_GPR), map[], 0, base)
  }

  predicate DefinesV0(first: Syllable) {
    first.dst == Some(VReg(0)) && forall i :: 0 <= i < |first.srcs| && first.srcs[i].RegValue? ==> first.srcs[i].reg == PReg(RETVAL_REG)
  }

  /** The first n registers are all needed later. */
  predicate AllNeeded(uses: BlockUses, n: nat) {
    forall v :: 0 <= v < n ==> v in uses.lastUse && uses.lastUse[v] >= n
  }

  function NoChoices(syl: Syllable): seq<nat> {
    seq(|syl.srcs| + 1, _ => 0)
  }

  lemma {:induction false} NoVregs(a: AllocState, srcs: seq<Value>, protected: set<nat>, victims: seq<nat>)
    requires |victims| == |srcs| && forall i :: 0 <= i < |srcs| ==> !(srcs[i].RegValue? && srcs[i].reg.VReg?)
    ensures RewriteSrcs(a, srcs, protected, victims) == Some(SrcsResult(a, srcs, [])) && SrcVregs(srcs) == []
  {
    if srcs != [] {
      var n := |srcs| - 1;
      NoVregs(a, srcs[..n], protected, victims[..n]);
      assert srcs == srcs[..n] + [srcs[n]];
    }
  }

  /** A definition without virtual sources, while a register is free. */
  lemma {:induction false} DefineFree(uses: BlockUses, a: AllocState, syl: Syllable, v: nat, pos: nat)
    requires syl.dst == Some(VReg(v)) && forall i :: 0 <= i < |syl.srcs| ==> !(syl.srcs[i].RegValue? && syl.srcs[i].reg.VReg?)
    requires v !in a.regOf && v !in a.slots && a.free != [] && uses.HasLaterUse(v, pos)
    ensures IsStep(uses, syl, pos, NoChoices(syl), a, a.(regOf := a.regOf[v := a.free[0]], free := a.free[1..]),
                   [Syllable(syl.opcode, Some(PReg(a.free[0])), syl.srcs)])
  {
    var victims := NoChoices(syl);
    NoVregs(a, syl.srcs, SetOf(SrcVregs(syl.srcs)), victims[..|syl.srcs|]);
    var code: seq<Syllable> := [];
    assert code + code == code;
    assert code + [Syllable(syl.opcode, Some(PReg(a.free[0])), syl.srcs)] == [Syllable(syl.opcode, Some(PReg(a.free[0])), syl.srcs)];
  }

  lemma {:induction false} FilledNext(base: int, n: nat)
    requires n < REGISTERS
    ensures var a := Filled(base, n);
            && a.free != [] && a.free[0] == n + FIRST_ALLOCATABLE_GPR && n !in a.regOf
            && a.(regOf := a.regOf[n := a.free[0]], free := a.free[1..]) == Filled(base, n + 1)
  {
    var a := Filled(base, n);
    assert a.regOf[n := a.free[0]] == Filled(base, n + 1).regOf;
    assert a.free[1..] == Filled(base, n + 1).free;
  }

  function FilledCode(first: Syllable, i: nat): Syllable {
    var syl := Definition(first, i);
    Syllable(syl.opcode, Some(PReg(i + FIRST_ALLOCATABLE_GPR)), syl.srcs)
  }

  /** A run of the allocator, with the code it has produced. */
  datatype Trace = Trace(choices: seq<seq<nat>>, states: seq<AllocState>, codes: seq<seq<Syllable>>)

  ghost predicate Traces(uses: BlockUses, syls: seq<Syllable>, base: int, t: Trace, end: AllocState) {
    && IsRun(uses, syls, 0, t.choices, t.states, t.codes)
    && t.states[0] == Initial(base) && t.states[|syls|] == end
  }

  lemma {:induction false} TraceOneMore(uses: BlockUses, syls: seq<Syllable>, syl: Syllable, base: int, t: Trace, a: AllocState, victims: seq<nat>,
                                        a': AllocState, code: seq<Syllable>) returns (t': Trace)
    requires Traces(uses, syls, base, t, a) && IsStep(uses, syl, |syls|, victims, a, a', code)
    ensures Traces(uses, syls + [syl], base, t', a') && t'.codes == t.codes + [code]
    ensures Concat(t'.codes) == Concat(t.codes) + code
  {
    var n, syls' := |syls|, syls + [syl];
    assert syls'[..n] == syls && syls'[..n + 1] == syls';
    RunExtends(uses, syls', 0, n, t.choices, t.states, t.codes, victims, a', code);
    t' := Trace(t.choices + [victims], t.states + [a'], t.codes + [code]);
  }

  lemma {:induction false} InitialFilled(base: int)
    ensures Filled(base, 0) == Initial(base)
  {
    assert Filled(base, 0).regOf == map[];
    assert Filled(base, 0).free == Initial(base).free;
  }

  lemma {:induction false} OneMoreDefinition(first: Syllable, n: nat)
    ensures Definitions(first, n + 1) == Definitions(first, n) + [Definition(first, n)]
  {
  }

  /** Of the predicate registers the code writes p2 only. */
  predicate WritesP2Only(code: seq<Syllable>) {
    forall i :: 0 <= i < |code| && DestRegKey(code[i]).Some? && DestRegKey(code[i]).value.cls == Pred ==>
      DestRegKey(code[i]).value.reg == PReg(FIRST_ALLOCATABLE_GPR)
  }

  lemma {:induction false} WritesP2Append(xs: seq<Syllable>, ys: seq<Syllable>)
    requires WritesP2Only(xs) && WritesP2Only(ys)
    ensures WritesP2Only(xs + ys)
  {
  }

  lemma {:induction false} FilledCodeWritesP2(first: Syllable, i: nat)
    requires DefinesV0(first)
    ensures WritesP2Only([FilledCode(first, i)])
  {
  }

  /** One more of the first 29 definitions. */
  lemma {:induction false} FillOne(uses: BlockUses, first: Syllable, base: int, i: nat, t: Trace) returns (t': Trace)
    requires i < REGISTERS && DefinesV0(first) && uses.HasLaterUse(i, i)
    requires Traces(uses, Definitions(first, i), base, t, Filled(base, i)) && WritesP2Only(Concat(t.codes))
    ensures Traces(uses, Definitions(first, i + 1), base, t', Filled(base, i + 1)) && WritesP2Only(Concat(t'.codes))
  {
    var syl := Definition(first, i);
    FilledNext(base, i);
    DefineFree(uses, Filled(base, i), syl, i, i);
    t' := TraceOneMore(uses, Definitions(first, i), syl, base, t, Filled(base, i), NoChoices(syl), Filled(base, i + 1), [FilledCode(first, i)]);
    OneMoreDefinition(first, i);
    FilledCodeWritesP2(first, i);
    WritesP2Append(Concat(t.codes), [FilledCode(first, i)]);
  }

  /** The first 29 definitions get the registers r2 to r30 in order. */
  lemma {:induction false} Fill(uses: BlockUses, first: Syllable, base: int) returns (t: Trace)
    requires DefinesV0(first) && AllNeeded(uses, REGISTERS)
    ensures Traces(uses, Definitions(first, REGISTERS), base, t, Filled(base, REGISTERS)) && WritesP2Only(Concat(t.codes))
  {
    InitialFilled(base);
    t := Trace([], [Initial(base)], []);
    assert Definitions(first, 0) == [];
    for i := 0 to REGISTERS
      invariant Traces(uses, Definitions(first, i), base, t, Filled(base, i)) && WritesP2Only(Concat(t.codes))
    {
      t := FillOne(uses, first, base, i, t);
    }
  }

  // ----- The definition that evicts v0 -----

  lemma {:induction false} EvictV0(a: AllocState, v: nat)
    requires v !in a.regOf && v !in a.slots && v != 0 && a.free == [] && 0 in a.regOf && 0 !in a.slots
    ensures var slot, p := a.base + a.nextSlot * SPILL_SLOT_BYTES, a.regOf[0];
            PregForVreg(a, v, {}, 0)
              == Some(Grant(AllocState((a.regOf - {0})[v := p], [], a.slots[0 := slot], a.nextSlot + 1, a.base), p, [SpillCode(slot, p)]))
  {
    var nothing: seq<Syllable>, slot := [], a.base + a.nextSlot * SPILL_SLOT_BYTES;
    assert [SpillCode(slot, a.regOf[0])] + nothing == [SpillCode(slot, a.regOf[0])];
  }

  /** A definition without virtual sources when all registers are taken: v0 is the victim. */
  lemma {:induction false} DefineEvicting(uses: BlockUses, a: AllocState, syl: Syllable, v: nat, pos: nat)
    requires syl.dst == Some(VReg(v)) && forall i :: 0 <= i < |syl.srcs| ==> !(syl.srcs[i].RegValue? && syl.srcs[i].reg.VReg?)
    requires v !in a.regOf && v !in a.slots && v != 0 && a.free == [] && 0 in a.regOf && 0 !in a.slots && uses.HasLaterUse(v, pos)
    ensures var slot, p := a.base + a.nextSlot * SPILL_SLOT_BYTES, a.regOf[0];
            IsStep(uses, syl, pos, NoChoices(syl), a,
                   AllocState((a.regOf - {0})[v := p], [], a.slots[0 := slot], a.nextSlot + 1, a.base),
                   [SpillCode(slot, p), Syllable(syl.opcode, Some(PReg(p)), syl.srcs)])
  {
    var victims, n := NoChoices(syl), |syl.srcs|;
    NoVregs(a, syl.srcs, SetOf(SrcVregs(syl.srcs)), victims[..n]);
    var slot, p := a.base + a.nextSlot * SPILL_SLOT_BYTES, a.regOf[0];
    EvictV0(a, v);
    assert StillProtected(uses, [], syl.dst, pos) == {};
    assert [] + [SpillCode(slot, p)] + [Syllable(syl.opcode, Some(PReg(p)), syl.srcs)]
        == [SpillCode(slot, p), Syllable(syl.opcode, Some(PReg(p)), syl.srcs)];
  }

  /** All registers taken, and v29 in the place of v0, which has moved to the first slot. */
  function Evicted(base: int): AllocState {
    AllocState((FilledRegs(REGISTERS) - {0})[REGISTERS := FIRST_ALLOCATABLE_GPR], [], map[0 := base], 1, base)
  }

  function EvictingCode(base: int): seq<Syllable> {
    [SpillCode(base, FIRST_ALLOCATABLE_GPR), Syllable(MovImm, Some(PReg(FIRST_ALLOCATABLE_GPR)), [Imm(REGISTERS)])]
  }

  lemma {:induction false} EvictStep(uses: BlockUses, first: Syllable, base: int)
    requires uses.HasLaterUse(REGISTERS, REGISTERS)
    ensures var syl := Definition(first, REGISTERS);
            IsStep(uses, syl, REGISTERS, NoChoices(syl), Filled(base, REGISTERS), Evicted(base), EvictingCode(base))
  {
    var a := Filled(base, REGISTERS);
    assert a.free == [] && 0 in a.regOf && a.regOf[0] == FIRST_ALLOCATABLE_GPR && REGISTERS !in a.regOf;
    assert a.slots[0 := base] == map[0 := base];
    DefineEvicting(uses, a, Definition(first, REGISTERS), REGISTERS, REGISTERS);
  }

  /** 30 definitions, all needed later: the last one moves v0 out. */
  lemma {:induction false} FillAndEvict(uses: BlockUses, first: Syllable, base: int) returns (t: Trace)
    requires DefinesV0(first) && AllNeeded(uses, REGISTERS + 1)
    ensures Traces(uses, Definitions(first, REGISTERS + 1), base, t, Evicted(base)) && WritesP2Only(Concat(t.codes))
  {
    NeededToo(uses);
    var t0 := Fill(uses, first, base);
    t := EvictFilled(uses, first, base, t0);
    EvictingWritesP2(base, Concat(t0.codes));
  }

  lemma {:induction false} NeededToo(uses: BlockUses)
    requires AllNeeded(uses, REGISTERS + 1)
    ensures AllNeeded(uses, REGISTERS) && uses.HasLaterUse(REGISTERS, REGISTERS)
  {
  }

  lemma {:induction false} EvictingWritesP2(base: int, before: seq<Syllable>)
    requires WritesP2Only(before)
    ensures WritesP2Only(before + EvictingCode(base))
  {
    WritesP2Append(before, EvictingCode(base));
  }

  lemma {:induction false} EvictFilled(uses: BlockUses, first: Syllable, base: int, t0: Trace) returns (t: Trace)
    requires Traces(uses, Definitions(first, REGISTERS), base, t0, Filled(base, REGISTERS)) && uses.HasLaterUse(REGISTERS, REGISTERS)
    ensures Traces(uses, Definitions(first, REGISTERS + 1), base, t, Evicted(base)) && Concat(t.codes) == Concat(t0.codes) + EvictingCode(base)
  {
    var syl := Definition(first, REGISTERS);
    EvictStep(uses, first, base);
    t := TraceOneMore(uses, Definitions(first, REGISTERS), syl, base, t0, Filled(base, REGISTERS), NoChoices(syl), Evicted(base), EvictingCode(base));
    OneMoreDefinition(first, REGISTERS);
  }

  lemma {:induction false} EvictedFacts(base: int)
    ensures var a := Evicted(base);
            && 0 !in a.regOf && 0 in a.slots && a.slots[0] == base && 1 in a.regOf && a.regOf[1] == FIRST_ALLOCATABLE_GPR + 1
            && 1 !in a.slots && REGISTERS + 1 !in a.regOf && REGISTERS + 1 !in a.slots
  {
  }

  // ----- One syllable with one virtual source -----

  /** Bringing v back for its last use, into the register of the victim w; the destination d takes it over. */
  lemma {:induction false} BringBackStep(uses: BlockUses, a: AllocState, syl: Syllable, v: nat, d: nat, w: nat, pos: nat) returns (a': AllocState)
    requires syl.srcs == [RegValue(VReg(v))] && syl.dst == Some(VReg(d)) && d != v && d != w
    requires v !in a.regOf && v in a.slots && w in a.regOf && w !in a.slots && w != v && a.free == [] && d !in a.regOf && d !in a.slots
    requires uses.CanFreeAfter(v, pos) && uses.HasLaterUse(d, pos)
    ensures var p, slot := a.regOf[w], a.base + a.nextSlot * SPILL_SLOT_BYTES;
            && IsStep(uses, syl, pos, [w, 0], a, a', [SpillCode(slot, p), ReloadCode(a.slots[v], p), Syllable(syl.opcode, Some(PReg(p)), [RegValue(PReg(p))])])
            && d in a'.regOf && a'.regOf[d] == p
  {
    var p, slot := a.regOf[w], a.base + a.nextSlot * SPILL_SLOT_BYTES;
    var code := [SpillCode(slot, p), ReloadCode(a.slots[v], p)];
    var g := BringBack(a, v, w);
    OneRewritten(a, v, [w], g);
    OneReleased(uses, g.state, v, syl.dst, pos);
    assert [w, 0][..1] == [w];
    var a2 := FreeVreg(g.state, v);
    a' := TakeOver(a2, d, p);
    var nothing: seq<Syllable> := [];
    assert code + nothing == code;
    assert code + [Syllable(syl.opcode, Some(PReg(p)), [RegValue(PReg(p))])]
        == [SpillCode(slot, p), ReloadCode(a.slots[v], p), Syllable(syl.opcode, Some(PReg(p)), [RegValue(PReg(p))])];
  }

  lemma {:induction false} BringBack(a: AllocState, v: nat, w: nat) returns (g: Grant)
    requires v !in a.regOf && v in a.slots && w in a.regOf && w !in a.slots && w != v && a.free == []
    ensures PregForVreg(a, v, {v}, w) == Some(g) && g.preg == a.regOf[w]
    ensures g.code == [SpillCode(a.base + a.nextSlot * SPILL_SLOT_BYTES, g.preg), ReloadCode(a.slots[v], g.preg)]
    ensures g.state.regOf == (a.regOf - {w})[v := g.preg] && g.state.free == []
    ensures g.state.slots == a.slots[w := a.base + a.nextSlot * SPILL_SLOT_BYTES]
  {
    g := PregForVreg(a, v, {v}, w).value;
  }

  lemma {:induction false} TakeOver(a: AllocState, d: nat, p: nat) returns (a': AllocState)
    requires a.free == [p] && d !in a.regOf && d !in a.slots
    ensures PregForVreg(a, d, {}, 0) == Some(Grant(a', p, [])) && d in a'.regOf && a'.regOf[d] == p
  {
    a' := a.(free := a.free[1..], regOf := a.regOf[d := p]);
    var nothing: seq<Syllable> := [];
    assert nothing + nothing == nothing;
  }

  lemma {:induction false} OneRewritten(a: AllocState, s: nat, victims: seq<nat>, g: Grant)
    requires |victims| == 1 && PregForVreg(a, s, {s}, victims[0]) == Some(g)
    ensures RewriteSrcs(a, [RegValue(VReg(s))], {s}, victims) == Some(SrcsResult(g.state, [RegValue(PReg(g.preg))], g.code))
    ensures SrcVregs([RegValue(VReg(s))]) == [s] && SetOf([s]) == {s}
  {
    var srcs := [RegValue(VReg(s))];
    assert srcs[..0] == [] && victims[..0] == [];
    assert RewriteSrcs(a, [], {s}, []) == Some(SrcsResult(a, [], []));
    var nothing: seq<Syllable>, none: seq<Value> := [], [];
    assert nothing + g.code == g.code && none + [RegValue(PReg(g.preg))] == [RegValue(PReg(g.preg))];
  }

  // ----- Redefining v0 while v29 dies -----

  const MOVE_ZERO := Syllable(MovImm, Some(VReg(0)), [Imm(0)])
  const COPY := Syllable(Mov, Some(VReg(0)), [RegValue(VReg(REGISTERS))])

  /** A later use of v. */
  function Keep(v: nat): Syllable {
    Syllable(StoreD, None, [Imm(8 * v), RegValue(VReg(v))])
  }

  /** v0 to v29 are defined, v0 becomes a copy of v29, and v0 to v28 are stored. */
  function CopyBlock(): Block {
    Block("entry", Definitions(MOVE_ZERO, REGISTERS + 1) + [COPY] + seq(REGISTERS, v requires v >= 0 => Keep(v)), Return)
  }

  function LaterUses(n: nat): (m: map<nat, nat>)
    ensures forall v :: v in m <==> 0 <= v < n
    ensures forall v :: v in m ==> m[v] == v + REGISTERS + 2
  {
    if n == 0 then map[] else LaterUses(n - 1)[n - 1 := n - 1 + REGISTERS + 2]
  }

  function CopyUses(): BlockUses {
    BlockUses(LaterUses(REGISTERS)[REGISTERS := REGISTERS + 1], {})
  }

  lemma {:induction false} CopyUsesRight()
    ensures UsesRight([CopyBlock()], 0, CopyUses())
  {
    var block, m, n := CopyBlock(), CopyUses().lastUse, REGISTERS;
    assert BlockStart([block], 0) == 0;
    assert block.syllables[n + 1] == COPY && forall i :: 0 <= i <= n ==> block.syllables[i] == Definition(MOVE_ZERO, i);
    assert forall v :: 0 <= v < n ==> block.syllables[n + 2 + v] == Keep(v);
    forall v | v in m
      ensures UsedAt(block, m[v], v)
    {
      if v == n {
        assert COPY.srcs[0] == RegValue(VReg(v));
      } else {
        assert Keep(v).srcs[1] == RegValue(VReg(v));
      }
    }
    forall i, v | UsedAt(block, i, v)
      ensures v in m && i <= m[v]
    {
      if i <= n {
        assert false;
      } else if i > n + 1 {
        assert block.syllables[i] == Keep(i - n - 2);
      }
    }
  }

  lemma {:induction false} OneVreg(a: AllocState, s: nat, victims: seq<nat>)
    requires s in a.regOf && |victims| == 1
    ensures RewriteSrcs(a, [RegValue(VReg(s))], {s}, victims) == Some(SrcsResult(a, [RegValue(PReg(a.regOf[s]))], []))
    ensures SrcVregs([RegValue(VReg(s))]) == [s] && SetOf([s]) == {s}
  {
    var srcs := [RegValue(VReg(s))];
    assert srcs[..0] == [] && victims[..0] == [];
    assert RewriteSrcs(a, [], {s}, []) == Some(SrcsResult(a, [], []));
    var nothing: seq<Syllable>, none: seq<Value> := [], [];
    assert nothing + nothing == nothing && none + [RegValue(PReg(a.regOf[s]))] == [RegValue(PReg(a.regOf[s]))];
  }

  lemma {:induction false} OneReleased(uses: BlockUses, a: AllocState, s: nat, dst: Option<Reg>, pos: nat)
    requires uses.CanFreeAfter(s, pos) && dst != Some(VReg(s))
    ensures FreeSources(uses, a, [s], dst, pos) == FreeVreg(a, s) && StillProtected(uses, [s], dst, pos) == {}
  {
    assert [s][..0] == [];
  }

  /** A new destination takes over the register of a source that dies. */
  lemma {:induction false} TakesOverStep(uses: BlockUses, a: AllocState, syl: Syllable, v: nat, d: nat, pos: nat) returns (a': AllocState)
    requires syl.srcs == [RegValue(VReg(v))] && syl.dst == Some(VReg(d)) && v in a.regOf && d != v && d !in a.regOf && d !in a.slots
    requires uses.CanFreeAfter(v, pos) && uses.HasLaterUse(d, pos)
    ensures var p := a.regOf[v];
            && IsStep(uses, syl, pos, [0, 0], a, a', [Syllable(syl.opcode, Some(PReg(p)), [RegValue(PReg(p))])])
            && d in a'.regOf && a'.regOf[d] == p
  {
    var p, a2 := a.regOf[v], FreeVreg(a, v);
    a' := a.(regOf := (a.regOf - {v})[d := p]);
    assert [0, 0][..1] == [0];
    OneVreg(a, v, [0]);
    OneReleased(uses, a, v, syl.dst, pos);
    assert a2.free[1..] == a.free;
    var nothing: seq<Syllable> := [];
    assert nothing + nothing + [Syllable(syl.opcode, Some(PReg(p)), [RegValue(PReg(p))])] == [Syllable(syl.opcode, Some(PReg(p)), [RegValue(PReg(p))])];
  }

  /** A copy to a spilled register from one that dies: the reload overwrites the source. */
  lemma {:induction false} CopyStep(uses: BlockUses, a: AllocState, s: nat, d: nat, pos: nat)
    requires s in a.regOf && d !in a.regOf && d in a.slots && uses.CanFreeAfter(s, pos) && uses.HasLaterUse(d, pos)
    ensures var r := a.regOf[s];
            IsStep(uses, Syllable(Mov, Some(VReg(d)), [RegValue(VReg(s))]), pos, [0, 0], a, a.(regOf := (a.regOf - {s})[d := r]),
                   [ReloadCode(a.slots[d], r), Syllable(Mov, Some(PReg(r)), [RegValue(PReg(r))])])
  {
    var r, syl, a2 := a.regOf[s], Syllable(Mov, Some(VReg(d)), [RegValue(VReg(s))]), FreeVreg(a, s);
    assert [0, 0][..1] == [0];
    OneVreg(a, s, [0]);
    OneReleased(uses, a, s, syl.dst, pos);
    assert a2.free[1..] == a.free;
    var nothing: seq<Syllable> := [];
    assert nothing + [ReloadCode(a.slots[d], r)] == [ReloadCode(a.slots[d], r)];
  }

  /** What the code of the copy does: the slot's value ends up in the register. */
  lemma {:induction false} CopyCode(isa: Isa, slot: int, r: nat, y: int, s: State)
    requires isa.DoubleWordsRoundTrip() && StoredAt(isa, s, slot, y) && r != ZERO_REG
    ensures ReadReg(Run(isa, DecodeAll([ReloadCode(slot, r), Syllable(Mov, Some(PReg(r)), [RegValue(PReg(r))])]), s), RegKey(Gpr, PReg(r))) == y
  {
    var reload, copy := ReloadCode(slot, r), Syllable(Mov, Some(PReg(r)), [RegValue(PReg(r))]);
    assert [reload] + [copy] == [reload, copy];
    RunCode(isa, [reload], [copy], s);
    RunOne(isa, reload, s);
    ExecReload(isa, slot, r, y, s);
    RunOne(isa, copy, Exec(isa, Decode(reload), s));
    ExecCopy(isa, PReg(r), PReg(r), Exec(isa, Decode(reload), s));
  }

  lemma {:induction false} ExecCopy(isa: Isa, d: Reg, src: Reg, s: State)
    requires d != PReg(ZERO_REG)
    ensures ReadReg(Exec(isa, Decode(Syllable(Mov, Some(d), [RegValue(src)])), s), RegKey(Gpr, d)) == ReadReg(s, RegKey(Gpr, src))
  {
    var m := Decode(Syllable(Mov, Some(d), [RegValue(src)]));
    assert m == Compute(Mov, Some(RegKey(Gpr, d)), [FromReg(RegKey(Gpr, src))]);
    assert ReadSrcs(s, m.args) == [ReadReg(s, RegKey(Gpr, src))];
  }

  lemma {:induction false} RunOneMore(isa: Isa, first: Syllable, n: nat, s: State)
    ensures Run(isa, DecodeAll(Definitions(first, n + 1)), s)
         == Exec(isa, Decode(Definition(first, n)), Run(isa, DecodeAll(Definitions(first, n)), s))
  {
    OneMoreDefinition(first, n);
    RunCode(isa, Definitions(first, n), [Definition(first, n)], s);
    RunOne(isa, Definition(first, n), Run(isa, DecodeAll(Definitions(first, n)), s));
  }

  /** Definition n writes vn only. */
  lemma {:induction false} DefinitionFrame(isa: Isa, first: Syllable, n: nat, k: RegKey, s: State)
    requires k.reg.VReg? && k.reg.v != n && n > 0
    ensures ReadReg(Exec(isa, Decode(Definition(first, n)), s), k) == ReadReg(s, k)
  {
    ExecFrame(isa, Decode(Definition(first, n)), s);
  }

  /** Later definitions leave a register alone. */
  lemma {:induction false} DefinitionsFrame(isa: Isa, first: Syllable, m: nat, n: nat, k: RegKey, s: State)
    requires 0 < m <= n && k.reg.VReg? && k.reg.v < m
    ensures ReadReg(Run(isa, DecodeAll(Definitions(first, n)), s), k) == ReadReg(Run(isa, DecodeAll(Definitions(first, m)), s), k)
  {
    if m < n {
      DefinitionsFrame(isa, first, m, n - 1, k, s);
      RunOneMore(isa, first, n - 1, s);
      DefinitionFrame(isa, first, n - 1, k, Run(isa, DecodeAll(Definitions(first, n - 1)), s));
    }
  }

  /** The values of the definitions: v_i is i, unless it is the first. */
  lemma {:induction false} DefinedValue(isa: Isa, first: Syllable, n: nat, v: nat, s: State)
    requires 0 < v < n
    ensures ReadReg(Run(isa, DecodeAll(Definitions(first, n)), s), RegKey(Gpr, VReg(v))) == v
  {
    DefinitionsFrame(isa, first, v + 1, n, RegKey(Gpr, VReg(v)), s);
    RunOneMore(isa, first, v, s);
    MovedValue(isa, Definition(first, v), v, Run(isa, DecodeAll(Definitions(first, v)), s));
  }

  lemma {:induction false} MovedValue(isa: Isa, syl: Syllable, v: nat, s: State)
    requires syl == Syllable(MovImm, Some(VReg(v)), [Imm(v)])
    ensures ReadReg(Exec(isa, Decode(syl), s), RegKey(Gpr, VReg(v))) == v
  {
    assert Decode(syl) == Compute(MovImm, Some(RegKey(Gpr, VReg(v))), [Const(v)]);
    assert ReadSrcs(s, [Const(v)]) == [v];
  }

  /** What the first syllable computes stays. */
  lemma {:induction false} FirstValue(isa: Isa, first: Syllable, n: nat, k: RegKey, s: State)
    requires 0 < n && k.reg == VReg(0)
    ensures ReadReg(Run(isa, DecodeAll(Definitions(first, n)), s), k) == ReadReg(Exec(isa, Decode(first), s), k)
  {
    DefinitionsFrame(isa, first, 1, n, k, s);
    RunOneMore(isa, first, 0, s);
    assert Definitions(first, 0) == [];
  }

  // ----- The definitions are in the scope of the block theorem -----

  lemma {:induction false} DefinitionsKnown(n: nat, k: RegKey)
    requires k in Known({}, Definitions(MOVE_ZERO, n))
    ensures k.cls == Gpr
  {
    if n > 0 {
      OneMoreDefinition(MOVE_ZERO, n - 1);
      assert Definitions(MOVE_ZERO, n)[..n - 1] == Definitions(MOVE_ZERO, n - 1);
      if k in Known({}, Definitions(MOVE_ZERO, n - 1)) {
        DefinitionsKnown(n - 1, k);
      }
    }
  }

  lemma {:induction false} DefinedIsKnown(n: nat, v: nat)
    requires v < n
    ensures RegKey(Gpr, VReg(v)) in Known({}, Definitions(MOVE_ZERO, n))
  {
    OneMoreDefinition(MOVE_ZERO, n - 1);
    assert Definitions(MOVE_ZERO, n)[..n - 1] == Definitions(MOVE_ZERO, n - 1);
    if v < n - 1 {
      DefinedIsKnown(n - 1, v);
    }
  }

  lemma {:induction false} DefinitionsInScope(isa: Isa, uses: BlockUses, n: nat, base: int, t: Trace, a: AllocState, s: State)
    requires isa.DoubleWordsRoundTrip() && Traces(uses, Definitions(MOVE_ZERO, n), base, t, a)
    ensures RunInScope(isa, uses, Definitions(MOVE_ZERO, n), 0, t.choices, t.states, t.codes, {}, s)
  {
    var syls := Definitions(MOVE_ZERO, n);
    InitialValid(base);
    forall k | k in Known({}, syls)
      ensures k.cls == Gpr
    {
      DefinitionsKnown(n, k);
    }
    assert forall i, d: nat :: 0 <= i < n && Mentions(syls[i], d) ==> d == i;
    NewDestsSafe(uses, syls, 0, t.choices, t.states, t.codes);
    assert forall i :: 0 <= i < n ==> Decode(syls[i]).Compute?;
  }

  lemma {:induction false} ZeroMoved(isa: Isa, n: nat, s: State)
    requires n > 0
    ensures ReadReg(Run(isa, DecodeAll(Definitions(MOVE_ZERO, n)), s), RegKey(Gpr, VReg(0))) == 0
  {
    FirstValue(isa, MOVE_ZERO, n, RegKey(Gpr, VReg(0)), s);
    MovedValue(isa, MOVE_ZERO, 0, s);
  }

  lemma {:induction false} DefinitionsSimulated(isa: Isa, uses: BlockUses, n: nat, base: int, t: Trace, a: AllocState, s: State)
    requires isa.DoubleWordsRoundTrip() && Traces(uses, Definitions(MOVE_ZERO, n), base, t, a)
    ensures Related(isa, a, a.nextSlot, LiveKeys(Known({}, Definitions(MOVE_ZERO, n)), uses, n),
                    Run(isa, DecodeAll(Definitions(MOVE_ZERO, n)), s), Run(isa, DecodeAll(Concat(t.codes)), s))
  {
    var syls := Definitions(MOVE_ZERO, n);
    DefinitionsInScope(isa, uses, n, base, t, a, s);
    NothingLive(isa, uses, 0, Initial(base), a.nextSlot, s);
    BlockSimulation(isa, uses, syls, 0, t.choices, t.states, t.codes, {}, s, s, n);
    assert syls[..n] == syls && t.codes[..n] == t.codes;
  }

  /** After 30 definitions the first slot holds the value of v0. */
  lemma {:induction false} AfterDefinitions(isa: Isa, base: int, t: Trace, s: State)
    requires isa.DoubleWordsRoundTrip()
    requires Traces(CopyUses(), Definitions(MOVE_ZERO, REGISTERS + 1), base, t, Evicted(base))
    ensures StoredAt(isa, Run(isa, DecodeAll(Concat(t.codes)), s), base, 0)
  {
    var n, k := REGISTERS + 1, RegKey(Gpr, VReg(0));
    DefinitionsSimulated(isa, CopyUses(), n, base, t, Evicted(base), s);
    DefinedIsKnown(n, 0);
    assert k in LiveKeys(Known({}, Definitions(MOVE_ZERO, n)), CopyUses(), n);
    ZeroMoved(isa, n, s);
    assert AtHome(isa, Evicted(base), Run(isa, DecodeAll(Concat(t.codes)), s), k, 0);
  }

  /** The syllables of the block up to the copy. */
  function UpToCopy(): seq<Syllable> {
    CopyBlock().syllables[..REGISTERS + 2]
  }

  /**
   * A block compiled from a fresh allocator, with its own last uses: after the copy v0 is 29, but the register that
   * the allocator has on record for v0 holds 0, from every state.
   */
  lemma {:induction false} RedefinitionBreaksBlock(isa: Isa, base: int, s: State) returns (t: Trace, a: AllocState)
    requires isa.DoubleWordsRoundTrip()
    ensures UsesRight([CopyBlock()], 0, CopyUses()) && Traces(CopyUses(), UpToCopy(), base, t, a)
    ensures 0 in a.regOf && ReadReg(Run(isa, DecodeAll(Concat(t.codes)), s), RegKey(Gpr, PReg(a.regOf[0]))) == 0
    ensures ReadReg(Run(isa, DecodeAll(UpToCopy()), s), RegKey(Gpr, VReg(0))) == REGISTERS
  {
    CopyUsesRight();
    var syls, before := Definitions(MOVE_ZERO, REGISTERS + 1), Evicted(base);
    assert UpToCopy() == syls + [COPY];
    var t0 := FillAndEvict(CopyUses(), MOVE_ZERO, base);
    AfterDefinitions(isa, base, t0, s);
    CopyStep(CopyUses(), before, REGISTERS, 0, REGISTERS + 1);
    var r := FIRST_ALLOCATABLE_GPR;
    a := before.(regOf := (before.regOf - {REGISTERS})[0 := r]);
    var code := [ReloadCode(base, r), Syllable(Mov, Some(PReg(r)), [RegValue(PReg(r))])];
    t := TraceOneMore(CopyUses(), syls, COPY, base, t0, before, [0, 0], a, code);
    RunCode(isa, Concat(t0.codes), code, s);
    CopyCode(isa, base, r, 0, Run(isa, DecodeAll(Concat(t0.codes)), s));
    RunCode(isa, syls, [COPY], s);
    RunOne(isa, COPY, Run(isa, DecodeAll(syls), s));
    DefinedValue(isa, MOVE_ZERO, REGISTERS + 1, REGISTERS, s);
    ExecCopy(isa, VReg(0), VReg(REGISTERS), Run(isa, DecodeAll(syls), s));
  }

  // ----- Redefining v1, evicted by the reload of its own source -----

  const COPY_BACK := Syllable(Mov, Some(VReg(1)), [RegValue(VReg(0))])

  /** v0 to v29 are defined, v1 becomes a copy of v0, and v1 to v29 are stored. */
  function CopyBackBlock(): Block {
    Block("entry", Definitions(MOVE_ZERO, REGISTERS + 1) + [COPY_BACK] + seq(REGISTERS, v requires v >= 0 => Keep(v + 1)), Return)
  }

  function StoredUses(n: nat): (m: map<nat, nat>)
    ensures forall v :: v in m <==> 1 <= v <= n
    ensures forall v :: v in m ==> m[v] == v + REGISTERS + 1
  {
    if n == 0 then map[] else StoredUses(n - 1)[n := n + REGISTERS + 1]
  }

  function CopyBackUses(): BlockUses {
    BlockUses(StoredUses(REGISTERS)[0 := REGISTERS + 1], {})
  }

  lemma {:induction false} CopyBackSyllables(i: nat)
    requires i < 2 * REGISTERS + 2
    ensures var syls := CopyBackBlock().syllables;
            && |syls| == 2 * REGISTERS + 2
            && syls[i] == if i <= REGISTERS then Definition(MOVE_ZERO, i) else if i == REGISTERS + 1 then COPY_BACK else Keep(i - REGISTERS - 1)
  {
  }

  lemma {:induction false} CopyBackUsesRight()
    ensures UsesRight([CopyBackBlock()], 0, CopyBackUses())
  {
    var block, m, n := CopyBackBlock(), CopyBackUses().lastUse, REGISTERS;
    assert BlockStart([block], 0) == 0;
    forall v | v in m
      ensures UsedAt(block, m[v], v)
    {
      CopyBackSyllables(m[v]);
      if v == 0 {
        assert COPY_BACK.srcs[0] == RegValue(VReg(v));
      } else {
        assert Keep(v).srcs[1] == RegValue(VReg(v));
      }
    }
    forall i: nat, v: nat | UsedAt(block, i, v)
      ensures v in m && i <= m[v]
    {
      CopyBackSyllables(if i < 2 * n + 2 then i else 0);
    }
  }

  /** The reload of a dying source evicts the destination, which is then reloaded over it. */
  lemma {:induction false} EvictedDestinationStep(uses: BlockUses, a: AllocState, v: nat, d: nat, pos: nat) returns (a': AllocState)
    requires v !in a.regOf && v in a.slots && d in a.regOf && d !in a.slots && a.free == []
    requires uses.CanFreeAfter(v, pos) && uses.HasLaterUse(d, pos)
    ensures IsStep(uses, Syllable(Mov, Some(VReg(d)), [RegValue(VReg(v))]), pos, [d, 0], a, a',
                   EvictedDestinationCode(a.base + a.nextSlot * SPILL_SLOT_BYTES, a.slots[v], a.regOf[d]))
    ensures d in a'.regOf && a'.regOf[d] == a.regOf[d]
  {
    var p, slot, syl := a.regOf[d], a.base + a.nextSlot * SPILL_SLOT_BYTES, Syllable(Mov, Some(VReg(d)), [RegValue(VReg(v))]);
    var g := BringBack(a, v, d);
    OneRewritten(a, v, [d], g);
    OneReleased(uses, g.state, v, syl.dst, pos);
    assert [d, 0][..1] == [d];
    a' := TakeBack(FreeVreg(g.state, v), d, p, slot);
    assert g.code + [ReloadCode(slot, p)] + [Syllable(Mov, Some(PReg(p)), [RegValue(PReg(p))])]
        == EvictedDestinationCode(slot, a.slots[v], p);
  }

  lemma {:induction false} TakeBack(a: AllocState, d: nat, p: nat, slot: int) returns (a': AllocState)
    requires a.free == [p] && d !in a.regOf && d in a.slots && a.slots[d] == slot
    ensures PregForVreg(a, d, {}, 0) == Some(Grant(a', p, [ReloadCode(slot, p)])) && d in a'.regOf && a'.regOf[d] == p
  {
    a' := a.(free := a.free[1..], regOf := a.regOf[d := p]);
    var nothing: seq<Syllable> := [];
    assert nothing + [ReloadCode(slot, p)] == [ReloadCode(slot, p)];
  }

  function EvictedDestinationCode(slot: int, source: int, p: nat): seq<Syllable> {
    [SpillCode(slot, p), ReloadCode(source, p), ReloadCode(slot, p), Syllable(Mov, Some(PReg(p)), [RegValue(PReg(p))])]
  }

  /** The register ends as it began. */
  lemma {:induction false} EvictedDestinationRun(isa: Isa, slot: int, source: int, p: nat, s: State)
    requires isa.DoubleWordsRoundTrip() && p != ZERO_REG
    ensures var k := RegKey(Gpr, PReg(p)); ReadReg(Run(isa, DecodeAll(EvictedDestinationCode(slot, source, p)), s), k) == ReadReg(s, k)
  {
    var code, k := EvictedDestinationCode(slot, source, p), RegKey(Gpr, PReg(p));
    var y := ReadReg(s, k);
    var s1 := Exec(isa, Decode(code[0]), s);
    var s2 := Exec(isa, Decode(code[1]), s1);
    ExecSpill(isa, slot, p, s);
    ExecReloadFrame(isa, source, p, s1);
    StoredFrame(isa, s1, s2, slot, y);
    assert code == [code[0]] + ([code[1]] + code[2..]) && code[2..] == [ReloadCode(slot, p), Syllable(Mov, Some(PReg(p)), [RegValue(PReg(p))])];
    RunCode(isa, [code[0]], [code[1]] + code[2..], s);
    RunOne(isa, code[0], s);
    RunCode(isa, [code[1]], code[2..], s1);
    RunOne(isa, code[1], s1);
    CopyCode(isa, slot, p, y, s2);
  }

  lemma {:induction false} V1Placed(isa: Isa, base: int, t: Trace, s: State)
    requires isa.DoubleWordsRoundTrip() && Traces(CopyBackUses(), Definitions(MOVE_ZERO, REGISTERS + 1), base, t, Evicted(base))
    ensures ReadReg(Run(isa, DecodeAll(Concat(t.codes)), s), RegKey(Gpr, PReg(FIRST_ALLOCATABLE_GPR + 1))) == 1
  {
    var n, k := REGISTERS + 1, RegKey(Gpr, VReg(1));
    DefinitionsSimulated(isa, CopyBackUses(), n, base, t, Evicted(base), s);
    DefinedIsKnown(n, 1);
    assert k in LiveKeys(Known({}, Definitions(MOVE_ZERO, n)), CopyBackUses(), n);
    DefinedValue(isa, MOVE_ZERO, n, 1, s);
    EvictedFacts(base);
    assert AtHome(isa, Evicted(base), Run(isa, DecodeAll(Concat(t.codes)), s), k, 1);
  }

  function UpToCopyBack(): seq<Syllable> {
    CopyBackBlock().syllables[..REGISTERS + 2]
  }

  /**
   * A block whose destination is in a register when the copy is reached: bringing the source back evicts it.  After
   * the copy v1 is 0, but its register holds its old value 1, from every state.
   */
  lemma {:induction false} EvictedDestinationBreaksBlock(isa: Isa, base: int, s: State) returns (t: Trace, a: AllocState)
    requires isa.DoubleWordsRoundTrip()
    ensures UsesRight([CopyBackBlock()], 0, CopyBackUses()) && Traces(CopyBackUses(), UpToCopyBack(), base, t, a)
    ensures 1 in a.regOf && ReadReg(Run(isa, DecodeAll(Concat(t.codes)), s), RegKey(Gpr, PReg(a.regOf[1]))) == 1
    ensures ReadReg(Run(isa, DecodeAll(UpToCopyBack()), s), RegKey(Gpr, VReg(1))) == 0
  {
    CopyBackUsesRight();
    var syls, before, p := Definitions(MOVE_ZERO, REGISTERS + 1), Evicted(base), FIRST_ALLOCATABLE_GPR + 1;
    assert UpToCopyBack() == syls + [COPY_BACK];
    var t0 := FillAndEvict(CopyBackUses(), MOVE_ZERO, base);
    V1Placed(isa, base, t0, s);
    EvictedFacts(base);
    a := EvictedDestinationStep(CopyBackUses(), before, 0, 1, REGISTERS + 1);
    var code := EvictedDestinationCode(base + SPILL_SLOT_BYTES, base, p);
    t := TraceOneMore(CopyBackUses(), syls, COPY_BACK, base, t0, before, [1, 0], a, code);
    RunCode(isa, Concat(t0.codes), code, s);
    EvictedDestinationRun(isa, base + SPILL_SLOT_BYTES, base, p, Run(isa, DecodeAll(Concat(t0.codes)), s));
    RunCode(isa, syls, [COPY_BACK], s);
    RunOne(isa, COPY_BACK, Run(isa, DecodeAll(syls), s));
    ZeroMoved(isa, REGISTERS + 1, s);
    ExecCopy(isa, VReg(1), VReg(0), Run(isa, DecodeAll(syls), s));
  }
}
