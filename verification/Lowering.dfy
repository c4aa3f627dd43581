/** From allocated MIR to assembler syllables and slots. */
module Lowering {
  import opened Opcodes
  import opened Mir
  import opened Machine
  import opened Asm
  import opened AsmMeaning
  import opened BundleVerifier

  /** `Refused` is a compile error; `Panics` is an abort on input no earlier pass should produce. */
  datatype Outcome<+T> = Done(value: T) | Refused | Panics {
    predicate IsFailure() { !Done? }
    function PropagateFailure<U>(): Outcome<U> requires !Done? { if Refused? then Refused else Panics }
    function Extract(): T requires Done? { value }
  }

  function RegNumber(r: Reg): Outcome<nat> {
    match r
    case PReg(n) => Done(n)
    case VReg(_) => Panics
  }

  /** A register of the given class or a number; never a stack address. */
  function ScalarOperand(cls: RegClass, v: Value): Outcome<Operand> {
    match v
    case Imm(n) => Done(ImmOp(n))
    case RegValue(r) =>
      var n :- RegNumber(r);
      Done(if cls == Pred then PredOp(n) else RegOp(n))
    case Stack(_) => Refused
  }

  function ScalarOperands(cls: RegClass, srcs: seq<Value>): (r: Outcome<seq<Operand>>)
    ensures r.Done? ==> |r.value| == |srcs| && forall i :: 0 <= i < |srcs| ==> ScalarOperand(cls, srcs[i]) == Done(r.value[i])
  {
    if srcs == [] then Done([])
    else
      var rest :- ScalarOperands(cls, srcs[..|srcs| - 1]);
      var last :- ScalarOperand(cls, srcs[|srcs| - 1]);
      Done(rest + [last])
  }

  function AddressOperand(base: Value, offset: int): Outcome<Operand> {
    match base
    case RegValue(r) =>
      var n :- RegNumber(r);
      Done(MemAddr(n, offset))
    case Imm(a) => Done(MemAddr(ZERO_REG, a + offset))
    case Stack(a) => Done(MemAddr(ZERO_REG, a + offset))
  }

  function LowerStore(op: Opcode, srcs: seq<Value>): Outcome<AsmSyllable> {
    if !StoreShape(srcs) then Refused
    else
      var addr :- AddressOperand(srcs[0], if |srcs| == 3 then srcs[1].imm else 0);
      var data :- ScalarOperand(Gpr, srcs[|srcs| - 1]);
      Done(AsmSyllable(Mnemonic(op), [addr, data]))
  }

  function LowerLoad(op: Opcode, dst: Option<Reg>, srcs: seq<Value>): Outcome<AsmSyllable> {
    if dst.None? then Panics
    else
      var d :- RegNumber(dst.value);
      if !LoadShape(srcs) then Refused
      else
        var addr :- AddressOperand(srcs[0], if |srcs| == 2 then srcs[1].imm else 0);
        Done(AsmSyllable(Mnemonic(op), [RegOp(d), addr]))
  }

  function LowerPredicate(op: Opcode, dst: Option<Reg>, srcs: seq<Value>): Outcome<AsmSyllable> {
    if dst.None? then Panics
    else
      var d :- RegNumber(dst.value);
      var ops :- ScalarOperands(SourceClass(op), srcs);
      Done(AsmSyllable(Mnemonic(op), [PredOp(d)] + ops))
  }

  function LowerOther(op: Opcode, dst: Option<Reg>, srcs: seq<Value>): Outcome<AsmSyllable> {
    if dst.None? then
      var ops :- ScalarOperands(Gpr, srcs);
      Done(AsmSyllable(Mnemonic(op), ops))
    else
      var d :- RegNumber(dst.value);
      var ops :- ScalarOperands(Gpr, srcs);
      Done(AsmSyllable(Mnemonic(op), [RegOp(d)] + ops))
  }

  function LowerSyllable(syl: Syllable): (r: Outcome<AsmSyllable>)
    ensures r.Done? ==> r.value.opcode == Mnemonic(syl.opcode)
  {
    var op := syl.opcode;
    if IsStore(op) then LowerStore(op, syl.srcs)
    else if IsLoad(op) then LowerLoad(op, syl.dst, syl.srcs)
    else if WritesPred(op) then LowerPredicate(op, syl.dst, syl.srcs)
    else LowerOther(op, syl.dst, syl.srcs)
  }

  // ----- What lowering means -----

  /** The destination is present when the opcode writes one, and the text cannot be misread. */
  predicate DestinationFits(syl: Syllable) {
    || IsStore(syl.opcode)
    || (if syl.dst.Some? then WritesGpr(syl.opcode) || WritesPred(syl.opcode)
        else WritesGpr(syl.opcode) && syl.srcs != [] ==> !syl.srcs[0].RegValue?)
  }

  lemma {:induction false} LoweredStore(syl: Syllable)
    requires IsStore(syl.opcode) && LowerSyllable(syl).Done?
    ensures DecodeOperands(syl.opcode, LowerSyllable(syl).value.operands) == Decode(syl)
  {
  }

  lemma {:induction false} LoweredLoad(syl: Syllable)
    requires IsLoad(syl.opcode) && LowerSyllable(syl).Done?
    ensures DecodeOperands(syl.opcode, LowerSyllable(syl).value.operands) == Decode(syl)
  {
  }

  lemma {:induction false} LoweredOperands(cls: RegClass, srcs: seq<Value>)
    requires ScalarOperands(cls, srcs).Done?
    ensures OperandSrcs(ScalarOperands(cls, srcs).value) == DecodeSrcs(cls, srcs)
  {
    var ops := ScalarOperands(cls, srcs).value;
    assert forall i :: 0 <= i < |srcs| ==> ScalarOperand(cls, srcs[i]) == Done(ops[i]) && OperandSrc(ops[i]) == ValueSrc(cls, srcs[i]);
  }

  lemma {:induction false} PredicateOperands(op: Opcode, d: nat, srcs: seq<Value>, ops: seq<Operand>)
    requires WritesPred(op) && ScalarOperands(SourceClass(op), srcs) == Done(ops)
    ensures DecodeOperands(op, [PredOp(d)] + ops) == Decode(Syllable(op, Some(PReg(d)), srcs))
  {
    LoweredOperands(SourceClass(op), srcs);
    assert ([PredOp(d)] + ops)[1..] == ops;
  }

  lemma {:induction false} LoweredPredicate(syl: Syllable)
    requires WritesPred(syl.opcode) && LowerSyllable(syl).Done?
    ensures DecodeOperands(syl.opcode, LowerSyllable(syl).value.operands) == Decode(syl)
  {
    var op := syl.opcode;
    assert LowerSyllable(syl) == LowerPredicate(op, syl.dst, syl.srcs);
    PredicateOperands(op, syl.dst.value.p, syl.srcs, ScalarOperands(SourceClass(op), syl.srcs).value);
  }

  lemma {:induction false} LoweredOther(syl: Syllable)
    requires !IsStore(syl.opcode) && !IsLoad(syl.opcode) && !WritesPred(syl.opcode) && LowerSyllable(syl).Done?
    ensures (DecodeOperands(syl.opcode, LowerSyllable(syl).value.operands) == Decode(syl)) == DestinationFits(syl)
  {
    LoweredOperands(Gpr, syl.srcs);
    var ops, srcs := LowerSyllable(syl).value.operands, ScalarOperands(Gpr, syl.srcs).value;
    if syl.dst.Some? {
      assert ops[1..] == srcs;
      assert !WritesGpr(syl.opcode) ==> |OperandSrcs(ops)| == |syl.srcs| + 1;
    } else {
      assert ops == srcs;
      assert ops != [] ==> ScalarOperand(Gpr, syl.srcs[0]) == Done(ops[0]);
    }
  }

  /** Lowering keeps the decoded operation exactly when the destination fits the opcode. */
  lemma {:induction false} LoweringDecodesExactlyWhen(syl: Syllable)
    requires LowerSyllable(syl).Done?
    ensures DecodeAsm(LowerSyllable(syl).value) == Decode(syl) <==> DestinationFits(syl)
  {
    MnemonicRoundTrip(syl.opcode);
    if IsStore(syl.opcode) {
      LoweredStore(syl);
    } else if IsLoad(syl.opcode) {
      LoweredLoad(syl);
    } else if WritesPred(syl.opcode) {
      LoweredPredicate(syl);
    } else {
      LoweredOther(syl);
    }
  }

  /** Without a destination the first source of a writing opcode would be printed, and read, in its place. */
  predicate SourceReadAsDestination(syl: Syllable) {
    && !IsStore(syl.opcode) && syl.dst.None? && WritesGpr(syl.opcode)
    && syl.srcs != [] && syl.srcs[0].RegValue? && syl.srcs[0].reg != PReg(ZERO_REG)
  }

  ghost predicate SameEffects(x: MicroOp, y: MicroOp) {
    forall isa, s :: EffectOf(isa, x, s) == EffectOf(isa, y, s)
  }

  /** Two computations without a result have the same effect: none. */
  lemma {:induction false} NoResult(x: MicroOp, y: MicroOp)
    requires x.Compute? && y.Compute? && (x.dst.None? || x.dst == Some(ZERO)) && (y.dst.None? || y.dst == Some(ZERO))
    ensures SameEffects(x, y)
  {
  }

  lemma {:induction false} ResultTells(x: MicroOp, y: MicroOp)
    requires x.Compute? && y.Compute? && x.dst.Some? && x.dst != Some(ZERO) && y.dst.None?
    ensures !SameEffects(x, y)
  {
    var isa, s := Isa((op, args) => 0, (op, v, i) => 0, (op, bytes) => 0), State(map[], map[]);
    assert x.dst.value in EffectOf(isa, x, s).regs && x.dst.value !in EffectOf(isa, y, s).regs;
  }

  /** A destination the opcode does not write: it is printed, and no one reads it. */
  lemma {:induction false} UnwrittenDestination(syl: Syllable)
    requires LowerSyllable(syl).Done? && !DestinationFits(syl) && syl.dst.Some?
    ensures var x, y := DecodeAsm(LowerSyllable(syl).value), Decode(syl); x.Compute? && y.Compute? && x.dst.None? && y.dst.None?
  {
    MnemonicRoundTrip(syl.opcode);
  }

  /** No destination where the opcode writes one: the first source takes its place. */
  lemma {:induction false} MissingDestination(syl: Syllable)
    requires LowerSyllable(syl).Done? && !DestinationFits(syl) && syl.dst.None?
    ensures var x, y := DecodeAsm(LowerSyllable(syl).value), Decode(syl);
            x.Compute? && y.Compute? && y.dst.None? && x.dst == Some(RegKey(Gpr, syl.srcs[0].reg))
  {
    MnemonicRoundTrip(syl.opcode);
    var ops := LowerSyllable(syl).value.operands;
    assert ScalarOperand(Gpr, syl.srcs[0]) == Done(ops[0]);
  }

  /** Lowering keeps what a syllable does, in every state, exactly when no source is taken for its destination. */
  lemma {:induction false} LoweringRightExactlyWhen(syl: Syllable)
    requires LowerSyllable(syl).Done?
    ensures SameEffects(DecodeAsm(LowerSyllable(syl).value), Decode(syl)) <==> !SourceReadAsDestination(syl)
  {
    LoweringDecodesExactlyWhen(syl);
    if !DestinationFits(syl) {
      var x, y := DecodeAsm(LowerSyllable(syl).value), Decode(syl);
      if syl.dst.Some? {
        UnwrittenDestination(syl);
        NoResult(x, y);
      } else {
        MissingDestination(syl);
        if SourceReadAsDestination(syl) {
          ResultTells(x, y);
        } else {
          NoResult(x, y);
        }
      }
    }
  }

  /** A destination where, and only where, the opcode writes one; nops take no operands. */
  predicate ProperSyllable(syl: Syllable) {
    && (syl.dst.Some? <==> WritesGpr(syl.opcode) || WritesPred(syl.opcode))
    && (syl.opcode == Nop ==> syl.srcs == [])
  }

  lemma {:induction false} LoweredIsWellFormed(syl: Syllable)
    requires LowerSyllable(syl).Done? && ProperSyllable(syl)
    ensures WellFormed(LowerSyllable(syl).value) && DecodeAsm(LowerSyllable(syl).value) == Decode(syl)
  {
    LoweringDecodesExactlyWhen(syl);
    MnemonicRoundTrip(syl.opcode);
  }

  /** The condition of a branch is the only register a terminator reads. */
  function LowerTerminator(t: Terminator): Outcome<(Opcode, AsmSyllable)> {
    match t
    case Return => Done((Ret, AsmSyllable("ret", [])))
    case JumpTo(target) => Done((Jump, AsmSyllable("jmp", [LabelOp(target)])))
    case BranchTo(cond, target) =>
      var p :- RegNumber(cond);
      Done((Branch, AsmSyllable("br", [PredOp(p), LabelOp(target)])))
    case DirectCall(callee, _) => Done((Call, AsmSyllable("call", [LabelOp(callee)])))
  }

  // ----- Slots -----

  function SlotByAlias(aliases: seq<SlotAlias>, name: string): (r: Option<nat>)
    ensures r.Some? ==> SlotAlias(name, r.value) in aliases
  {
    if aliases == [] then None
    else if aliases[0].name == name then Some(aliases[0].slot)
    else SlotByAlias(aliases[1..], name)
  }

  function FirstCompatible(op: Opcode, proc: Processor, slot: nat): (r: Option<nat>)
    requires slot <= proc.width
    ensures r.Some? ==> slot <= r.value < proc.width && SlotHasUnitFor(proc, r.value, op)
    ensures r.Some? ==> forall q :: slot <= q < r.value ==> !SlotHasUnitFor(proc, q, op)
    ensures r.None? ==> forall q :: slot <= q < proc.width ==> !SlotHasUnitFor(proc, q, op)
    decreases proc.width - slot
  {
    if slot == proc.width then None
    else if SlotHasUnitFor(proc, slot, op) then Some(slot)
    else FirstCompatible(op, proc, slot + 1)
  }

  function FirstCompatibleSlot(op: Opcode, proc: Processor): Option<nat> {
    if op == Nop then Some(0) else FirstCompatible(op, proc, 0)
  }

  function CanonicalAlias(op: Opcode): Option<string> {
    if Units(op) == [Memory] then Some("M")
    else if Units(op) == [Control] || Units(op) == [Multiplier] then Some("X")
    else if Units(op) == [IntegerAlu] then Some("I0")
    else None
  }

  function CanonicalSlot(op: Opcode, proc: Processor): Option<nat> {
    if CanonicalAlias(op).None? then None else SlotByAlias(proc.slotAliases, CanonicalAlias(op).value)
  }

  /** The canonical slot if it exists and fits, else the first slot that does; None only when no slot fits. */
  function ScalarSlot(op: Opcode, proc: Processor): (r: Option<nat>)
    ensures r.Some? && op != Nop ==> SlotSupports(proc, r.value, op)
    ensures r.None? ==> forall q :: 0 <= q < proc.width ==> !SlotSupports(proc, q, op)
  {
    var slot := CanonicalSlot(op, proc);
    if slot.Some? && SlotSupports(proc, slot.value, op) then slot else FirstCompatibleSlot(op, proc)
  }

  function XSlot(proc: Processor): Option<nat> {
    SlotByAlias(proc.slotAliases, "X")
  }
}
