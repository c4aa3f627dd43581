/** The scalar emitter: one syllable per bundle, nops until its sources are ready. */
module Emitter {
  import opened Opcodes
  import opened Mir
  import opened Asm
  import opened Ready
  import opened Timing
  import opened Lowering

  /** Everything emission changes. */
  datatype Emission = Emission(items: seq<Item>, ready: ReadyState, cycle: nat)

  function BundleWith(width: nat, slot: nat, syl: AsmSyllable): (b: Bundle)
    requires slot < width
    ensures |b| == width && b[slot] == Some(syl) && forall i :: 0 <= i < width && i != slot ==> b[i].None?
  {
    seq(width, i => if i == slot then Some(syl) else None)
  }

  function IssueCycle(e: Emission, syl: AsmSyllable): (c: nat)
    ensures c >= e.cycle
  {
    match OpcodeOf(syl)
    case Some(op) => Max(e.cycle, RequiredCycleOf(op, syl.operands, e.ready))
    case None => e.cycle
  }

  /** Wait for the sources, then issue the syllable alone in its slot. */
  function Issued(width: nat, e: Emission, syl: AsmSyllable, slot: nat): Emission
    requires slot < width
  {
    var at := IssueCycle(e, syl);
    Emission(e.items + AsItems(Nops(at - e.cycle) + [BundleWith(width, slot, syl)]), AfterAsm(syl, at, e.ready), at + 1)
  }

  function EmitInSlot(proc: Processor, e: Emission, op: Opcode, syl: AsmSyllable, slot: nat): Outcome<Emission> {
    if !SlotSupports(proc, slot, op) then Refused
    else if slot >= proc.width then Panics
    else Done(Issued(proc.width, e, syl, slot))
  }

  function EmitSyllable(proc: Processor, e: Emission, syl: Syllable): Outcome<Emission> {
    match LowerSyllable(syl)
    case Refused => Refused
    case Panics => Panics
    case Done(asm) =>
      match ScalarSlot(syl.opcode, proc)
      case None => Refused
      case Some(slot) => EmitInSlot(proc, e, syl.opcode, asm, slot)
  }

  function EmitTerminator(proc: Processor, e: Emission, t: Terminator): Outcome<Emission> {
    match LowerTerminator(t)
    case Refused => Refused
    case Panics => Panics
    case Done((op, asm)) =>
      match XSlot(proc)
      case None => Refused
      case Some(slot) => EmitInSlot(proc, e, op, asm, slot)
  }

  function EmitSyllables(proc: Processor, e: Emission, syls: seq<Syllable>): Outcome<Emission> {
    if syls == [] then Done(e)
    else
      match EmitSyllables(proc, e, syls[..|syls| - 1])
      case Done(e1) => EmitSyllable(proc, e1, syls[|syls| - 1])
      case Refused => Refused
      case Panics => Panics
  }

  function EmitLabel(e: Emission, name: string): Emission {
    e.(items := e.items + [LabelItem(name)])
  }

  function EmitBlock(proc: Processor, e: Emission, block: Block): Outcome<Emission> {
    match EmitSyllables(proc, EmitLabel(e, block.name), block.syllables)
    case Done(e1) => EmitTerminator(proc, e1, block.terminator)
    case Refused => Refused
    case Panics => Panics
  }

  /** The function's own label stands before its entry block. */
  function BeforeBlock(e: Emission, f: Function, n: nat): Emission {
    if n == 0 then EmitLabel(e, f.name) else e
  }

  /** The blocks from the n-th on. */
  function EmitFrom(proc: Processor, e: Emission, f: Function, n: nat): Outcome<Emission>
    requires n <= |f.blocks|
    decreases |f.blocks| - n
  {
    if n == |f.blocks| then Done(e)
    else
      match EmitBlock(proc, BeforeBlock(e, f, n), f.blocks[n])
      case Done(e1) => EmitFrom(proc, e1, f, n + 1)
      case Refused => Refused
      case Panics => Panics
  }

  function EmitBlocks(proc: Processor, items: seq<Item>, f: Function): Outcome<Emission> {
    EmitFrom(proc, Emission(items, ALL_READY, 0), f, 0)
  }

  /** The next block of a function whose emission succeeds. */
  lemma {:induction false} NextBlock(proc: Processor, e: Emission, f: Function, n: nat, e': Emission) returns (e1: Emission)
    requires n < |f.blocks| && EmitFrom(proc, e, f, n) == Done(e')
    ensures EmitBlock(proc, BeforeBlock(e, f, n), f.blocks[n]) == Done(e1) && EmitFrom(proc, e1, f, n + 1) == Done(e')
  {
    e1 := EmitBlock(proc, BeforeBlock(e, f, n), f.blocks[n]).value;
  }

  /** Each function starts with an empty ready table at cycle 0. */
  function EmitFunctions(proc: Processor, fns: seq<Function>): Outcome<seq<Item>> {
    if fns == [] then Done([])
    else
      var n := |fns| - 1;
      match EmitFunctions(proc, fns[..n])
      case Refused => Refused
      case Panics => Panics
      case Done(items) =>
        match EmitBlocks(proc, items, fns[n])
        case Done(e) => Done(e.items)
        case Refused => Refused
        case Panics => Panics
  }

  // ----- The emitter's own state -----

  class ProgramBuffer {
    const processor: Processor
    var items: seq<Item>

    constructor (processor: Processor)
      ensures this.processor == processor && items == []
    {
      this.processor := processor;
      items := [];
    }
  }

  /** An emission step either went as specified or failed the way the specification fails. */
  ghost predicate Follows(r: Outcome<()>, spec: Outcome<Emission>, now: Emission) {
    match spec
    case Done(e) => r.Done? && now == e
    case Refused => r.Refused?
    case Panics => r.Panics?
  }

  class CodegenCtx {
    var ready: ReadyState
    var cycle: nat

    constructor ()
      ensures ready == ALL_READY && cycle == 0
    {
      ready, cycle := ALL_READY, 0;
    }

    ghost function View(program: ProgramBuffer): Emission
      reads this, program
    {
      Emission(program.items, ready, cycle)
    }

    method WaitUntil(target: nat, program: ProgramBuffer)
      modifies this`cycle, program
      ensures cycle == Max(old(cycle), target)
      ensures program.items == old(program.items) + AsItems(Nops(cycle - old(cycle)))
    {
      while cycle < target
        invariant old(cycle) <= cycle <= Max(old(cycle), target)
        invariant program.items == old(program.items) + AsItems(Nops(cycle - old(cycle)))
      {
        NopItem(cycle - old(cycle));
        program.items := program.items + [BundleItem([])];
        cycle := cycle + 1;
      }
    }

    method EmitAsmSyllableInSlot(program: ProgramBuffer, op: Opcode, syl: AsmSyllable, slot: nat) returns (r: Outcome<()>)
      requires syl.opcode == Mnemonic(op)
      modifies this, program
      ensures Follows(r, EmitInSlot(program.processor, old(View(program)), op, syl, slot), View(program))
    {
      if !SlotSupports(program.processor, slot, op) {
        return Refused;
      }
      ghost var e := View(program);
      WaitUntil(RequiredCycleOf(op, syl.operands, ready), program);
      var width := program.processor.width;
      if slot >= width {
        return Panics;
      }
      ghost var at := cycle;
      program.items := program.items + [BundleItem(BundleWith(width, slot, syl))];
      ready := AfterAsm(syl, cycle, ready);
      cycle := cycle + 1;
      IssuedIs(width, e, op, syl, slot, at, View(program));
      r := Done(());
    }

    method EmitOne(program: ProgramBuffer, syl: Syllable) returns (r: Outcome<()>)
      modifies this, program
      ensures Follows(r, EmitSyllable(program.processor, old(View(program)), syl), View(program))
    {
      var asm := LowerSyllable(syl);
      if !asm.Done? {
        return if asm.Refused? then Refused else Panics;
      }
      var slot := ScalarSlot(syl.opcode, program.processor);
      if slot.None? {
        return Refused;
      }
      r := EmitAsmSyllableInSlot(program, syl.opcode, asm.value, slot.value);
    }

    method EmitEnd(program: ProgramBuffer, t: Terminator) returns (r: Outcome<()>)
      modifies this, program
      ensures Follows(r, EmitTerminator(program.processor, old(View(program)), t), View(program))
    {
      var lowered := LowerTerminator(t);
      if !lowered.Done? {
        return Panics;
      }
      var slot := XSlot(program.processor);
      if slot.None? {
        return Refused;
      }
      r := EmitAsmSyllableInSlot(program, lowered.value.0, lowered.value.1, slot.value);
    }

    method EmitAll(program: ProgramBuffer, block: Block) returns (r: Outcome<()>)
      modifies this, program
      ensures Follows(r, EmitBlock(program.processor, old(View(program)), block), View(program))
    {
      program.items := program.items + [LabelItem(block.name)];
      ghost var start := View(program);
      var syls := block.syllables;
      for i := 0 to |syls|
        invariant EmitSyllables(program.processor, start, syls[..i]) == Done(View(program))
      {
        assert syls[..i + 1][..i] == syls[..i];
        r := EmitOne(program, syls[i]);
        if !r.Done? {
          FailureSpreads(program.processor, start, syls, i + 1);
          return;
        }
      }
      assert syls[..|syls|] == syls;
      r := EmitEnd(program, block.terminator);
    }
  }

  lemma {:induction false} NopItem(n: nat)
    ensures AsItems(Nops(n + 1)) == AsItems(Nops(n)) + [BundleItem([])]
  {
  }

  lemma {:induction false} ItemsAppend(bs: seq<Bundle>, b: Bundle)
    ensures AsItems(bs + [b]) == AsItems(bs) + [BundleItem(b)]
  {
  }

  lemma {:induction false} IssuedIs(width: nat, e: Emission, op: Opcode, syl: AsmSyllable, slot: nat, at: nat, now: Emission)
    requires syl.opcode == Mnemonic(op) && slot < width
    requires at == Max(e.cycle, RequiredCycleOf(op, syl.operands, e.ready))
    requires now == Emission(e.items + AsItems(Nops(at - e.cycle)) + [BundleItem(BundleWith(width, slot, syl))], AfterAsm(syl, at, e.ready), at + 1)
    ensures now == Issued(width, e, syl, slot)
  {
    MnemonicRoundTrip(op);
    ItemsAppend(Nops(at - e.cycle), BundleWith(width, slot, syl));
  }

  lemma {:induction false} FailureSpreads(proc: Processor, e: Emission, syls: seq<Syllable>, n: nat)
    requires n <= |syls| && !EmitSyllables(proc, e, syls[..n]).Done?
    ensures EmitSyllables(proc, e, syls) == EmitSyllables(proc, e, syls[..n])
    decreases |syls|
  {
    if n == |syls| {
      assert syls[..n] == syls;
    } else {
      var m := |syls| - 1;
      assert syls[..m][..n] == syls[..n];
      FailureSpreads(proc, e, syls[..m], n);
    }
  }
}
