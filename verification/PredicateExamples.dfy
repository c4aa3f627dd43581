/** Two blocks in which the allocator loses a predicate, compiled from a fresh allocator. */
module PredicateExamples {
  import opened Collections
  import opened Opcodes
  import opened Mir
  import opened Machine
  import opened StandardIsa
  import opened Regs
  import opened RegAlloc
  import opened SpillMeaning
  import opened Liveness
  import opened Allocator
  import opened AllocationExamples

  // ----- A predicate that does not come back -----

  const COMPARE := Syllable(CmpEq, Some(VReg(0)), [RegValue(PReg(RETVAL_REG)), RegValue(PReg(RETVAL_REG))])
  const NEGATE := Syllable(PNot, Some(VReg(REGISTERS + 1)), [RegValue(VReg(0))])

  /** The predicate v0 and the values v1 to v29 are computed, v0 is negated, v1 to v29 are stored, and the branch tests the negation. */
  function NegateBlock(): Block {
    Block("entry", Definitions(COMPARE, REGISTERS + 1) + [NEGATE] + seq(REGISTERS, v requires v >= 0 => Keep(v + 1)),
          BranchTo(VReg(REGISTERS + 1), "exit"))
  }

  const END := 2 * REGISTERS + 2

  function NegateUses(): BlockUses {
    BlockUses(StoredUses(REGISTERS)[0 := REGISTERS + 1][REGISTERS + 1 := END], {})
  }

  lemma {:induction false} NegateSyllables(i: nat)
    requires i < END
    ensures var syls := NegateBlock().syllables;
            |syls| == END && syls[i] == if i <= REGISTERS then Definition(COMPARE, i) else if i == REGISTERS + 1 then NEGATE else Keep(i - REGISTERS - 1)
  {
  }

  /** A branch out of the only block leads nowhere the analysis knows. */
  lemma {:induction false} NoSuccessors(block: Block, target: string)
    requires block.terminator.BranchTo? && block.terminator.target == target && block.name != target
    ensures Successors([block], 0) == []
  {
  }

  lemma {:induction false} NegateUsesRight()
    ensures UsesRight([NegateBlock()], 0, NegateUses())
  {
    var block, m, n := NegateBlock(), NegateUses().lastUse, REGISTERS;
    assert BlockStart([block], 0) == 0;
    NoSuccessors(block, "exit");
    forall v | v in m
      ensures UsedAt(block, m[v], v)
    {
      NegateSyllables(if m[v] < END then m[v] else 0);
      if v == 0 {
        assert NEGATE.srcs[0] == RegValue(VReg(v));
      } else if v <= n {
        assert Keep(v).srcs[1] == RegValue(VReg(v));
      }
    }
    forall i: nat, v: nat | UsedAt(block, i, v)
      ensures v in m && i <= m[v]
    {
      NegateSyllables(if i < END then i else 0);
    }
  }

  lemma {:induction false} NegateUsesFacts()
    ensures NegateUses().CanFreeAfter(0, REGISTERS + 1) && NegateUses().HasLaterUse(REGISTERS + 1, REGISTERS + 1)
  {
  }

  /** The code that stores r3 to the second slot, loads the first into r3, and negates p3. */
  function NegateCode(base: int): seq<Syllable> {
    var p := FIRST_ALLOCATABLE_GPR + 1;
    [SpillCode(base + SPILL_SLOT_BYTES, p), ReloadCode(base, p), Syllable(PNot, Some(PReg(p)), [RegValue(PReg(p))])]
  }

  /** v0 is brought back into the register of v1, which moves out, and dies there. */
  lemma {:induction false} NegateStep(before: AllocState, base: int) returns (a: AllocState)
    requires before.base == base && before.nextSlot == 1 && before.free == []
    requires 0 !in before.regOf && 0 in before.slots && before.slots[0] == base && 1 in before.regOf && before.regOf[1] == FIRST_ALLOCATABLE_GPR + 1
    requires 1 !in before.slots && REGISTERS + 1 !in before.regOf && REGISTERS + 1 !in before.slots
    ensures IsStep(NegateUses(), NEGATE, REGISTERS + 1, [1, 0], before, a, NegateCode(base))
    ensures REGISTERS + 1 in a.regOf && a.regOf[REGISTERS + 1] == FIRST_ALLOCATABLE_GPR + 1
  {
    NegateUsesFacts();
    a := BringBackStep(NegateUses(), before, NEGATE, 0, REGISTERS + 1, 1, REGISTERS + 1);
  }

  lemma {:induction false} ExecNegate(d: Reg, src: Reg, s: State)
    ensures ReadReg(Exec(Standard(), Decode(Syllable(PNot, Some(d), [RegValue(src)])), s), RegKey(Pred, d)) == Truth(ReadReg(s, RegKey(Pred, src)) == 0)
  {
    var m := Decode(Syllable(PNot, Some(d), [RegValue(src)]));
    assert m == Compute(PNot, Some(RegKey(Pred, d)), [FromReg(RegKey(Pred, src))]);
    assert ReadSrcs(s, m.args) == [ReadReg(s, RegKey(Pred, src))];
  }

  const R1 := RegKey(Gpr, PReg(RETVAL_REG))

  lemma {:induction false} ExecCompare(op: Opcode, d: Reg, s: State)
    requires op == CmpEq || op == CmpLt
    ensures ReadReg(Exec(Standard(), Decode(Syllable(op, Some(d), [RegValue(R1.reg), RegValue(R1.reg)])), s), RegKey(Pred, d)) == Truth(op == CmpEq)
  {
    var m := Decode(Syllable(op, Some(d), [RegValue(R1.reg), RegValue(R1.reg)]));
    assert m == Compute(op, Some(RegKey(Pred, d)), [FromReg(R1), FromReg(R1)]);
    assert ReadSrcs(s, m.args) == [ReadReg(s, R1), ReadReg(s, R1)];
  }

  lemma {:induction false} Compared(n: nat, s: State)
    requires n > 0
    ensures ReadReg(Run(Standard(), DecodeAll(Definitions(COMPARE, n)), s), RegKey(Pred, VReg(0))) == 1
  {
    FirstValue(Standard(), COMPARE, n, RegKey(Pred, VReg(0)), s);
    ExecCompare(CmpEq, VReg(0), s);
  }

  /** The code of the step reads p3, which nothing has written. */
  lemma {:induction false} NegatesP3(base: int, before: seq<Syllable>, s: State)
    requires WritesP2Only(before)
    ensures var k := RegKey(Pred, PReg(FIRST_ALLOCATABLE_GPR + 1));
            ReadReg(Run(Standard(), DecodeAll(before + NegateCode(base)), s), k) == Truth(ReadReg(s, k) == 0)
  {
    var p, code := FIRST_ALLOCATABLE_GPR + 1, NegateCode(base);
    var k, moves, last := RegKey(Pred, PReg(p)), code[..2], code[2];
    assert before + code == (before + moves) + [last];
    assert WritesP2Only(moves);
    WritesP2Append(before, moves);
    RunKeeps(Standard(), before + moves, k, s);
    RunCode(Standard(), before + moves, [last], s);
    RunOne(Standard(), last, Run(Standard(), DecodeAll(before + moves), s));
    ExecNegate(PReg(p), PReg(p), Run(Standard(), DecodeAll(before + moves), s));
  }

  function UpToNegate(): seq<Syllable> {
    NegateBlock().syllables[..REGISTERS + 2]
  }

  lemma {:induction false} NegationIsFalse(before: seq<Syllable>, negate: Syllable, d: nat, s: State)
    requires negate == Syllable(PNot, Some(VReg(d)), [RegValue(VReg(0))])
    requires ReadReg(Run(Standard(), DecodeAll(before), s), RegKey(Pred, VReg(0))) == 1
    ensures ReadReg(Run(Standard(), DecodeAll(before + [negate]), s), RegKey(Pred, VReg(d))) == 0
  {
    RunCode(Standard(), before, [negate], s);
    RunOne(Standard(), negate, Run(Standard(), DecodeAll(before), s));
    ExecNegate(VReg(d), VReg(0), Run(Standard(), DecodeAll(before), s));
  }

  /**
   * A block compiled from a fresh allocator, with its own last uses: the predicate v0 is moved out and back as if it
   * were a general register, and comes back into another one.  Its negation, which the branch will test, is false,
   * but what the code computes is the negation of p3 at the start.
   */
  lemma {:induction false} SpilledPredicateBreaksBlock(base: int, s: State) returns (t: Trace, a: AllocState)
    ensures Standard().DoubleWordsRoundTrip() && UsesRight([NegateBlock()], 0, NegateUses())
    ensures Traces(NegateUses(), UpToNegate(), base, t, a) && REGISTERS + 1 in a.regOf
    ensures ReadReg(Run(Standard(), DecodeAll(UpToNegate()), s), RegKey(Pred, VReg(REGISTERS + 1))) == 0
    ensures ReadReg(Run(Standard(), DecodeAll(Concat(t.codes)), s), RegKey(Pred, PReg(a.regOf[REGISTERS + 1])))
         == Truth(ReadReg(s, RegKey(Pred, PReg(FIRST_ALLOCATABLE_GPR + 1))) == 0)
  {
    StandardRoundTrips();
    NegateUsesRight();
    var syls, before := Definitions(COMPARE, REGISTERS + 1), Evicted(base);
    assert UpToNegate() == syls + [NEGATE];
    var t0 := FillAndEvict(NegateUses(), COMPARE, base);
    EvictedFacts(base);
    a := NegateStep(before, base);
    t := TraceOneMore(NegateUses(), syls, NEGATE, base, t0, before, [1, 0], a, NegateCode(base));
    NegatesP3(base, Concat(t0.codes), s);
    Compared(REGISTERS + 1, s);
    NegationIsFalse(syls, NEGATE, REGISTERS + 1, s);
  }

  // ----- A predicate that comes back to its register, overwritten -----

  /** A comparison nobody reads. */
  const DEAD := Syllable(CmpLt, Some(VReg(REGISTERS)), [RegValue(R1.reg), RegValue(R1.reg)])

  /** The predicate v0 and the values v1 to v28, the dead comparison, the negation of v0, and later uses. */
  function DeadBlock(): Block {
    Block("entry", Definitions(COMPARE, REGISTERS) + [DEAD] + [NEGATE] + seq(REGISTERS - 1, v requires v >= 0 => Keep(v + 1)),
          BranchTo(VReg(REGISTERS + 1), "exit"))
  }

  const DEAD_END := 2 * REGISTERS + 1

  function DeadUses(): BlockUses {
    BlockUses(StoredUses(REGISTERS - 1)[0 := REGISTERS + 1][REGISTERS + 1 := DEAD_END], {})
  }

  lemma {:induction false} DeadSyllables(i: nat)
    requires i < DEAD_END
    ensures var syls := DeadBlock().syllables;
            && |syls| == DEAD_END
            && syls[i] == if i < REGISTERS then Definition(COMPARE, i) else if i == REGISTERS then DEAD else if i == REGISTERS + 1 then NEGATE
                          else Keep(i - REGISTERS - 1)
  {
  }

  lemma {:induction false} DeadUsesRight()
    ensures UsesRight([DeadBlock()], 0, DeadUses())
  {
    var block, m, n := DeadBlock(), DeadUses().lastUse, REGISTERS;
    assert BlockStart([block], 0) == 0;
    forall v | v in m
      ensures UsedAt(block, m[v], v)
    {
      DeadSyllables(if m[v] < DEAD_END then m[v] else 0);
      if v == 0 {
        assert NEGATE.srcs[0] == RegValue(VReg(v));
      } else if v < n {
        assert Keep(v).srcs[1] == RegValue(VReg(v));
      }
    }
    forall i: nat, v: nat | UsedAt(block, i, v)
      ensures v in m && i <= m[v]
    {
      DeadSyllables(if i < DEAD_END then i else 0);
    }
    NoSuccessors(block, "exit");
  }

  /** The dead comparison evicts v0, and gives its register up at once. */
  lemma {:induction false} DeadStep(uses: BlockUses, a: AllocState, syl: Syllable, v: nat, pos: nat)
    requires syl.dst == Some(VReg(v)) && forall i :: 0 <= i < |syl.srcs| ==> !(syl.srcs[i].RegValue? && syl.srcs[i].reg.VReg?)
    requires v !in a.regOf && v !in a.slots && v != 0 && a.free == [] && 0 in a.regOf && 0 !in a.slots
    requires !uses.HasLaterUse(v, pos) && v !in uses.liveOut
    ensures var slot, p := a.base + a.nextSlot * SPILL_SLOT_BYTES, a.regOf[0];
            IsStep(uses, syl, pos, NoChoices(syl), a, AllocState(a.regOf - {0}, [p], a.slots[0 := slot], a.nextSlot + 1, a.base),
                   [SpillCode(slot, p), Syllable(syl.opcode, Some(PReg(p)), syl.srcs)])
  {
    var victims, n := NoChoices(syl), |syl.srcs|;
    NoVregs(a, syl.srcs, SetOf(SrcVregs(syl.srcs)), victims[..n]);
    EvictV0(a, v);
    var slot, p := a.base + a.nextSlot * SPILL_SLOT_BYTES, a.regOf[0];
    var g := PregForVreg(a, v, {}, 0).value;
    assert FreeVreg(g.state, v).regOf == a.regOf - {0};
    assert StillProtected(uses, [], syl.dst, pos) == {};
    assert [] + [SpillCode(slot, p)] + [Syllable(syl.opcode, Some(PReg(p)), syl.srcs)]
        == [SpillCode(slot, p), Syllable(syl.opcode, Some(PReg(p)), syl.srcs)];
  }

  /** Bringing v back for its last use into the one free register; the destination d takes it over. */
  lemma {:induction false} ReloadStep(uses: BlockUses, a: AllocState, syl: Syllable, v: nat, d: nat, p: nat, pos: nat) returns (a': AllocState)
    requires syl.srcs == [RegValue(VReg(v))] && syl.dst == Some(VReg(d)) && d != v
    requires v !in a.regOf && v in a.slots && a.free == [p] && d !in a.regOf && d !in a.slots
    requires uses.CanFreeAfter(v, pos) && uses.HasLaterUse(d, pos)
    ensures IsStep(uses, syl, pos, [0, 0], a, a', [ReloadCode(a.slots[v], p), Syllable(syl.opcode, Some(PReg(p)), [RegValue(PReg(p))])])
    ensures d in a'.regOf && a'.regOf[d] == p
  {
    var g := PregForVreg(a, v, {v}, 0).value;
    var nothing: seq<Syllable> := [];
    assert nothing + [ReloadCode(a.slots[v], p)] == [ReloadCode(a.slots[v], p)] && a.free[1..] == [];
    assert g.code == [ReloadCode(a.slots[v], p)] && g.preg == p && g.state == a.(free := [], regOf := a.regOf[v := p]);
    OneRewritten(a, v, [0], g);
    OneReleased(uses, g.state, v, syl.dst, pos);
    assert [0, 0][..1] == [0];
    a' := TakeOver(FreeVreg(g.state, v), d, p);
    assert [ReloadCode(a.slots[v], p)] + nothing + [Syllable(syl.opcode, Some(PReg(p)), [RegValue(PReg(p))])]
        == [ReloadCode(a.slots[v], p), Syllable(syl.opcode, Some(PReg(p)), [RegValue(PReg(p))])];
  }

  const P := FIRST_ALLOCATABLE_GPR

  function DeadCode(base: int): seq<Syllable> {
    [SpillCode(base, P), Syllable(CmpLt, Some(PReg(P)), DEAD.srcs)]
  }

  function BackCode(base: int): seq<Syllable> {
    [ReloadCode(base, P), Syllable(PNot, Some(PReg(P)), [RegValue(PReg(P))])]
  }

  /** The negation reads what the dead comparison has left in p2. */
  lemma {:induction false} DeadRun(base: int, s: State)
    ensures ReadReg(Run(Standard(), DecodeAll(DeadCode(base) + BackCode(base)), s), RegKey(Pred, PReg(P))) == 1
  {
    var dead, back, k := DeadCode(base), BackCode(base), RegKey(Pred, PReg(P));
    assert dead == [dead[0]] + [dead[1]] && back == [back[0]] + [back[1]];
    var s1 := Exec(Standard(), Decode(dead[0]), s);
    var s2 := Exec(Standard(), Decode(dead[1]), s1);
    var s3 := Exec(Standard(), Decode(back[0]), s2);
    RunCode(Standard(), dead, back, s);
    RunCode(Standard(), [dead[0]], [dead[1]], s);
    RunOne(Standard(), dead[0], s);
    RunOne(Standard(), dead[1], s1);
    RunCode(Standard(), [back[0]], [back[1]], s2);
    RunOne(Standard(), back[0], s2);
    RunOne(Standard(), back[1], s3);
    ExecCompare(CmpLt, PReg(P), s1);
    ExecReloadFrame(Standard(), base, P, s2);
    ExecNegate(PReg(P), PReg(P), s3);
  }

  lemma {:induction false} DeadRunBehind(base: int, before: seq<Syllable>, s: State)
    ensures ReadReg(Run(Standard(), DecodeAll(before + DeadCode(base) + BackCode(base)), s), RegKey(Pred, PReg(P))) == 1
  {
    assert before + DeadCode(base) + BackCode(base) == before + (DeadCode(base) + BackCode(base));
    RunCode(Standard(), before, DeadCode(base) + BackCode(base), s);
    DeadRun(base, Run(Standard(), DecodeAll(before), s));
  }

  function UpToDeadNegate(): seq<Syllable> {
    DeadBlock().syllables[..REGISTERS + 2]
  }

  lemma {:induction false} DeadCompared(s: State)
    ensures ReadReg(Run(Standard(), DecodeAll(Definitions(COMPARE, REGISTERS) + [DEAD]), s), RegKey(Pred, VReg(0))) == 1
  {
    var syls := Definitions(COMPARE, REGISTERS);
    RunCode(Standard(), syls, [DEAD], s);
    RunOne(Standard(), DEAD, Run(Standard(), DecodeAll(syls), s));
    Compared(REGISTERS, s);
    ExecFrame(Standard(), Decode(DEAD), Run(Standard(), DecodeAll(syls), s));
  }

  /**
   * Coming back to the same register is not enough: v0 is evicted by a comparison nobody reads, which writes p2, and
   * comes back to r2.  Its negation is false, but the code computes the negation of the dead comparison, from every
   * state.
   */
  lemma {:induction false} DeadComparisonBreaksBlock(base: int, s: State) returns (t: Trace, a: AllocState)
    ensures Standard().DoubleWordsRoundTrip() && UsesRight([DeadBlock()], 0, DeadUses())
    ensures Traces(DeadUses(), UpToDeadNegate(), base, t, a) && REGISTERS + 1 in a.regOf
    ensures ReadReg(Run(Standard(), DecodeAll(UpToDeadNegate()), s), RegKey(Pred, VReg(REGISTERS + 1))) == 0
    ensures ReadReg(Run(Standard(), DecodeAll(Concat(t.codes)), s), RegKey(Pred, PReg(a.regOf[REGISTERS + 1]))) == 1
  {
    StandardRoundTrips();
    DeadUsesRight();
    var syls := Definitions(COMPARE, REGISTERS);
    assert UpToDeadNegate() == syls + [DEAD] + [NEGATE];
    var t0 := Fill(DeadUses(), COMPARE, base);
    var t1, before := DeadTrace(base, t0);
    a := ReloadStep(DeadUses(), before, NEGATE, 0, REGISTERS + 1, P, REGISTERS + 1);
    t := TraceOneMore(DeadUses(), syls + [DEAD], NEGATE, base, t1, before, [0, 0], a, BackCode(base));
    DeadRunBehind(base, Concat(t0.codes), s);
    DeadCompared(s);
    NegationIsFalse(syls + [DEAD], NEGATE, REGISTERS + 1, s);
  }

  lemma {:induction false} DeadTrace(base: int, t0: Trace) returns (t: Trace, a: AllocState)
    requires Traces(DeadUses(), Definitions(COMPARE, REGISTERS), base, t0, Filled(base, REGISTERS))
    ensures Traces(DeadUses(), Definitions(COMPARE, REGISTERS) + [DEAD], base, t, a) && Concat(t.codes) == Concat(t0.codes) + DeadCode(base)
    ensures 0 !in a.regOf && 0 in a.slots && a.slots[0] == base && a.free == [P] && REGISTERS + 1 !in a.regOf && REGISTERS + 1 !in a.slots
  {
    var before := Filled(base, REGISTERS);
    assert before.free == [] && 0 in before.regOf && before.regOf[0] == P;
    DeadStep(DeadUses(), before, DEAD, REGISTERS, REGISTERS);
    a := AllocState(before.regOf - {0}, [P], before.slots[0 := base], 1, base);
    t := TraceOneMore(DeadUses(), Definitions(COMPARE, REGISTERS), DEAD, base, t0, before, NoChoices(DEAD), a, DeadCode(base));
  }
}
