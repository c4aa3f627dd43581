/** Which functions can be emitted, and in which slots. */
module EmissionExact {
  import opened Opcodes
  import opened Mir
  import opened Machine
  import opened Asm
  import opened Ready
  import opened Lowering
  import opened Emitter
  import opened PackerLimits

  // ----- Which syllables lower -----

  predicate Physical(v: Value) {
    v.RegValue? ==> v.reg.PReg?
  }

  /** A physical register or a number. */
  predicate Scalar(v: Value) {
    Physical(v) && !v.Stack?
  }

  predicate Scalars(srcs: seq<Value>) {
    forall i :: 0 <= i < |srcs| ==> Scalar(srcs[i])
  }

  predicate PhysicalDest(dst: Option<Reg>) {
    dst.Some? && dst.value.PReg?
  }

  /** Addresses may be stack slots, other operands not; a load or a predicate writer needs its destination. */
  predicate CanLower(syl: Syllable) {
    var srcs := syl.srcs;
    if IsStore(syl.opcode) then StoreShape(srcs) && Physical(srcs[0]) && Scalar(srcs[|srcs| - 1])
    else if IsLoad(syl.opcode) then PhysicalDest(syl.dst) && LoadShape(srcs) && Physical(srcs[0])
    else (syl.dst.Some? || WritesPred(syl.opcode) ==> PhysicalDest(syl.dst)) && Scalars(srcs)
  }

  lemma {:induction false} ScalarOperandsExactlyWhen(cls: RegClass, srcs: seq<Value>)
    ensures ScalarOperands(cls, srcs).Done? <==> Scalars(srcs)
  {
    if srcs != [] {
      var n := |srcs| - 1;
      ScalarOperandsExactlyWhen(cls, srcs[..n]);
      assert Scalars(srcs) <==> Scalars(srcs[..n]) && Scalar(srcs[n]);
    }
  }

  /** Lowering fails on just those syllables no earlier pass may leave behind. */
  lemma {:induction false} LowersExactlyWhen(syl: Syllable)
    ensures LowerSyllable(syl).Done? <==> CanLower(syl)
  {
    ScalarOperandsExactlyWhen(Gpr, syl.srcs);
    ScalarOperandsExactlyWhen(Pred, syl.srcs);
  }

  // ----- Which slot -----

  /** The slot the first alias of that name stands for. */
  predicate AliasFor(aliases: seq<SlotAlias>, name: string, slot: nat) {
    exists i :: 0 <= i < |aliases| && aliases[i] == SlotAlias(name, slot) && forall j :: 0 <= j < i ==> aliases[j].name != name
  }

  lemma {:induction false} SlotByAliasExactlyWhen(aliases: seq<SlotAlias>, name: string, slot: nat)
    ensures SlotByAlias(aliases, name) == Some(slot) <==> AliasFor(aliases, name, slot)
  {
    if aliases != [] && aliases[0].name != name {
      var rest := aliases[1..];
      SlotByAliasExactlyWhen(rest, name, slot);
      if AliasFor(rest, name, slot) {
        var i :| 0 <= i < |rest| && rest[i] == SlotAlias(name, slot) && forall j :: 0 <= j < i ==> rest[j].name != name;
        assert aliases[i + 1] == SlotAlias(name, slot);
        assert forall j :: 0 < j < i + 1 ==> aliases[j] == rest[j - 1];
      }
      if AliasFor(aliases, name, slot) {
        var i :| 0 <= i < |aliases| && aliases[i] == SlotAlias(name, slot) && forall j :: 0 <= j < i ==> aliases[j].name != name;
        assert rest[i - 1] == SlotAlias(name, slot);
      }
    } else if aliases != [] {
      assert AliasFor(aliases, name, slot) <==> aliases[0] == SlotAlias(name, slot);
    }
  }

  lemma {:induction false} XSlotExactlyWhen(proc: Processor, slot: nat)
    ensures XSlot(proc) == Some(slot) <==> AliasFor(proc.slotAliases, "X", slot)
  {
    SlotByAliasExactlyWhen(proc.slotAliases, "X", slot);
  }

  /** Where the opcode belongs, if it can execute there. */
  predicate HomeSlot(op: Opcode, proc: Processor, slot: nat) {
    CanonicalAlias(op).Some? && AliasFor(proc.slotAliases, CanonicalAlias(op).value, slot) && SlotSupports(proc, slot, op)
  }

  predicate FirstSlot(op: Opcode, proc: Processor, slot: nat) {
    slot < proc.width && SlotHasUnitFor(proc, slot, op) && forall q: nat :: q < slot ==> !SlotHasUnitFor(proc, q, op)
  }

  /** The home slot if there is one, else the first slot that executes the opcode. */
  lemma {:induction false} ScalarSlotExactlyWhen(op: Opcode, proc: Processor, slot: nat)
    requires op != Nop
    ensures ScalarSlot(op, proc) == Some(slot) <==>
              HomeSlot(op, proc, slot) || ((forall q: nat :: !HomeSlot(op, proc, q)) && FirstSlot(op, proc, slot))
  {
    if CanonicalAlias(op).Some? {
      forall q: nat
        ensures CanonicalSlot(op, proc) == Some(q) <==> AliasFor(proc.slotAliases, CanonicalAlias(op).value, q)
      {
        SlotByAliasExactlyWhen(proc.slotAliases, CanonicalAlias(op).value, q);
      }
    }
    var home := CanonicalSlot(op, proc);
    assert home.Some? && SlotSupports(proc, home.value, op) ==> HomeSlot(op, proc, home.value);
    FirstCompatibleExactlyWhen(op, proc, slot);
  }

  lemma {:induction false} FirstCompatibleExactlyWhen(op: Opcode, proc: Processor, slot: nat)
    ensures FirstCompatible(op, proc, 0) == Some(slot) <==> FirstSlot(op, proc, slot)
  {
  }

  lemma {:induction false} AtHome(op: Opcode, proc: Processor, name: string, slot: nat)
    requires op != Nop && CanonicalAlias(op) == Some(name) && SlotByAlias(proc.slotAliases, name) == Some(slot)
    requires SlotHasUnitFor(proc, slot, op)
    ensures ScalarSlot(op, proc) == Some(slot)
  {
  }

  lemma {:induction false} Nowhere(op: Opcode, proc: Processor)
    requires op != Nop && CanonicalAlias(op).None? && forall slot: nat :: slot < proc.width ==> !SlotHasUnitFor(proc, slot, op)
    ensures ScalarSlot(op, proc) == None
  {
  }

  lemma {:induction false} AliasOf(op: Opcode)
    ensures IntegerAlu in Units(op) ==> CanonicalAlias(op) == Some("I0")
    ensures Memory in Units(op) ==> CanonicalAlias(op) == Some("M")
    ensures Control in Units(op) || Multiplier in Units(op) ==> CanonicalAlias(op) == Some("X")
    ensures !(IntegerAlu in Units(op) || Memory in Units(op) || Control in Units(op) || Multiplier in Units(op)) ==> CanonicalAlias(op).None?
  {
  }

  /** The slot of the canonical processor an opcode belongs in, by the kind of unit it needs. */
  function SlotByKind(op: Opcode): Option<nat> {
    if IntegerAlu in Units(op) then Some(0)
    else if Memory in Units(op) then Some(2)
    else if Control in Units(op) || Multiplier in Units(op) then Some(3) else None
  }

  lemma {:induction false} KindSlot(op: Opcode)
    requires SlotByKind(op).Some?
    ensures SlotHasUnitFor(DEFAULT_PROCESSOR, SlotByKind(op).value, op)
  {
    SlotFor(SlotByKind(op).value, op);
  }

  lemma {:induction false} NoKindSlot(op: Opcode, slot: nat)
    requires SlotByKind(op).None? && slot < DEFAULT_PROCESSOR.width
    ensures !SlotHasUnitFor(DEFAULT_PROCESSOR, slot, op)
  {
    SlotFor(slot, op);
  }

  /** On the canonical processor: integer operations in slot 0, memory in slot 2, control and multiplication in slot 3. */
  lemma {:induction false} CanonicalSlots(op: Opcode)
    requires op != Nop
    ensures ScalarSlot(op, DEFAULT_PROCESSOR) == SlotByKind(op)
  {
    AliasOf(op);
    CanonicalAliases();
    if SlotByKind(op).Some? {
      KindSlot(op);
      AtHome(op, DEFAULT_PROCESSOR, CanonicalAlias(op).value, SlotByKind(op).value);
    } else {
      forall slot: nat | slot < DEFAULT_PROCESSOR.width
        ensures !SlotHasUnitFor(DEFAULT_PROCESSOR, slot, op)
      {
        NoKindSlot(op, slot);
      }
      Nowhere(op, DEFAULT_PROCESSOR);
    }
  }

  lemma {:induction false} CanonicalAliases()
    ensures SlotByAlias(DEFAULT_PROCESSOR.slotAliases, "I0") == Some(0)
    ensures SlotByAlias(DEFAULT_PROCESSOR.slotAliases, "M") == Some(2)
    ensures SlotByAlias(DEFAULT_PROCESSOR.slotAliases, "X") == Some(3)
  {
    var aliases := DEFAULT_PROCESSOR.slotAliases;
    assert "I0" != "M" && "I0"[0] != "X"[0] && "I1"[0] != "M"[0] && "I1"[0] != "X"[0] && "M"[0] != "X"[0];
    assert aliases[0] == SlotAlias("I0", 0) && aliases[2] == SlotAlias("M", 2) && aliases[3] == SlotAlias("X", 3);
    SlotByAliasExactlyWhen(aliases, "I0", 0);
    SlotByAliasExactlyWhen(aliases, "M", 2);
    SlotByAliasExactlyWhen(aliases, "X", 3);
  }

  lemma {:induction false} CanonicalX()
    ensures XSlot(DEFAULT_PROCESSOR) == Some(3)
  {
    CanonicalAliases();
  }

  lemma {:induction false} ControlFits(op: Opcode)
    requires Control in Units(op)
    ensures op != Nop && SlotHasUnitFor(DEFAULT_PROCESSOR, 3, op)
  {
    SlotFor(3, op);
  }

  /** The canonical processor issues every terminator. */
  lemma {:induction false} TerminatorsFit(op: Opcode)
    requires Control in Units(op)
    ensures CanIssueIn(DEFAULT_PROCESSOR, XSlot(DEFAULT_PROCESSOR), op)
  {
    CanonicalX();
    ControlFits(op);
  }

  // ----- Which functions are emitted -----

  predicate CanIssueIn(proc: Processor, slot: Option<nat>, op: Opcode) {
    slot.Some? && slot.value < proc.width && SlotSupports(proc, slot.value, op)
  }

  predicate CanEmit(proc: Processor, syl: Syllable) {
    CanLower(syl) && CanIssueIn(proc, ScalarSlot(syl.opcode, proc), syl.opcode)
  }

  /** A terminator needs slot X, and a branch a physical predicate. */
  predicate CanEnd(proc: Processor, t: Terminator) {
    match t
    case BranchTo(cond, _) => cond.PReg? && CanIssueIn(proc, XSlot(proc), Branch)
    case JumpTo(_) => CanIssueIn(proc, XSlot(proc), Jump)
    case DirectCall(_, _) => CanIssueIn(proc, XSlot(proc), Call)
    case Return => CanIssueIn(proc, XSlot(proc), Ret)
  }

  predicate CanEmitAll(proc: Processor, syls: seq<Syllable>) {
    forall i :: 0 <= i < |syls| ==> CanEmit(proc, syls[i])
  }

  predicate CanEmitBlock(proc: Processor, block: Block) {
    CanEmitAll(proc, block.syllables) && CanEnd(proc, block.terminator)
  }

  predicate CanEmitFunction(proc: Processor, f: Function) {
    forall b :: 0 <= b < |f.blocks| ==> CanEmitBlock(proc, f.blocks[b])
  }

  lemma {:induction false} SyllableEmittedExactlyWhen(proc: Processor, e: Emission, syl: Syllable)
    ensures EmitSyllable(proc, e, syl).Done? <==> CanEmit(proc, syl)
  {
    LowersExactlyWhen(syl);
  }

  lemma {:induction false} EndEmittedExactlyWhen(proc: Processor, e: Emission, t: Terminator)
    ensures EmitTerminator(proc, e, t).Done? <==> CanEnd(proc, t)
  {
  }

  lemma {:induction false} CanEmitLast(proc: Processor, syls: seq<Syllable>)
    requires syls != []
    ensures var n := |syls| - 1; CanEmitAll(proc, syls) <==> CanEmitAll(proc, syls[..n]) && CanEmit(proc, syls[n])
  {
  }

  lemma {:induction false} SyllablesEmittedExactlyWhen(proc: Processor, e: Emission, syls: seq<Syllable>)
    ensures EmitSyllables(proc, e, syls).Done? <==> CanEmitAll(proc, syls)
  {
    if syls != [] {
      var n := |syls| - 1;
      SyllablesEmittedExactlyWhen(proc, e, syls[..n]);
      CanEmitLast(proc, syls);
      if EmitSyllables(proc, e, syls[..n]).Done? {
        SyllableEmittedExactlyWhen(proc, EmitSyllables(proc, e, syls[..n]).value, syls[n]);
      }
    }
  }

  lemma {:induction false} BlockEmittedExactlyWhen(proc: Processor, e: Emission, block: Block)
    ensures EmitBlock(proc, e, block).Done? <==> CanEmitBlock(proc, block)
  {
    SyllablesEmittedExactlyWhen(proc, EmitLabel(e, block.name), block.syllables);
    var body := EmitSyllables(proc, EmitLabel(e, block.name), block.syllables);
    if body.Done? {
      EndEmittedExactlyWhen(proc, body.value, block.terminator);
    }
  }

  predicate CanEmitFrom(proc: Processor, f: Function, n: nat) {
    forall b :: n <= b < |f.blocks| ==> CanEmitBlock(proc, f.blocks[b])
  }

  lemma {:induction false} BlocksEmittedExactlyWhen(proc: Processor, e: Emission, f: Function, n: nat)
    requires n <= |f.blocks|
    ensures EmitFrom(proc, e, f, n).Done? <==> CanEmitFrom(proc, f, n)
    decreases |f.blocks| - n
  {
    if n < |f.blocks| {
      var e0 := BeforeBlock(e, f, n);
      BlockEmittedExactlyWhen(proc, e0, f.blocks[n]);
      var e1 := EmitBlock(proc, e0, f.blocks[n]);
      CanEmitNext(proc, f, n);
      if e1.Done? {
        BlocksEmittedExactlyWhen(proc, e1.value, f, n + 1);
        EmitNext(proc, e, f, n, e1.value);
      } else {
        EmitStops(proc, e, f, n);
      }
    }
  }

  lemma {:induction false} CanEmitNext(proc: Processor, f: Function, n: nat)
    requires n < |f.blocks|
    ensures CanEmitFrom(proc, f, n) <==> CanEmitBlock(proc, f.blocks[n]) && CanEmitFrom(proc, f, n + 1)
  {
  }

  lemma {:induction false} EmitNext(proc: Processor, e: Emission, f: Function, n: nat, e1: Emission)
    requires n < |f.blocks| && EmitBlock(proc, BeforeBlock(e, f, n), f.blocks[n]) == Done(e1)
    ensures EmitFrom(proc, e, f, n) == EmitFrom(proc, e1, f, n + 1)
  {
  }

  lemma {:induction false} EmitStops(proc: Processor, e: Emission, f: Function, n: nat)
    requires n < |f.blocks| && !EmitBlock(proc, BeforeBlock(e, f, n), f.blocks[n]).Done?
    ensures !EmitFrom(proc, e, f, n).Done?
  {
  }

  predicate CanEmitModule(proc: Processor, fns: seq<Function>) {
    forall n :: 0 <= n < |fns| ==> CanEmitFunction(proc, fns[n])
  }

  lemma {:induction false} CanEmitLastFunction(proc: Processor, fns: seq<Function>)
    requires fns != []
    ensures var n := |fns| - 1; CanEmitModule(proc, fns) <==> CanEmitModule(proc, fns[..n]) && CanEmitFrom(proc, fns[n], 0)
  {
  }

  lemma {:induction false} FunctionEmittedExactlyWhen(proc: Processor, items: seq<Item>, f: Function)
    ensures EmitBlocks(proc, items, f).Done? <==> CanEmitFrom(proc, f, 0)
  {
    BlocksEmittedExactlyWhen(proc, Emission(items, ALL_READY, 0), f, 0);
  }

  /** A module is emitted exactly when each of its syllables and terminators lowers and has a slot. */
  lemma {:induction false} ModuleEmittedExactlyWhen(proc: Processor, fns: seq<Function>)
    ensures EmitFunctions(proc, fns).Done? <==> CanEmitModule(proc, fns)
  {
    if fns != [] {
      var n := |fns| - 1;
      ModuleEmittedExactlyWhen(proc, fns[..n]);
      CanEmitLastFunction(proc, fns);
      var before := EmitFunctions(proc, fns[..n]);
      if before.Done? {
        FunctionEmittedExactlyWhen(proc, before.value, fns[n]);
      }
    }
  }
}
