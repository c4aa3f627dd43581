/** Emitting a whole module, scalar or packed. */
module ModuleEmission {
  import opened Mir
  import opened Scheduler
  import opened Asm
  import opened BundleVerifier
  import opened Lowering
  import opened Emitter
  import opened EmittedProgram
  import opened Packer
  import opened Pipeline

  /** One block, after the function's own label if it is the first. */
  method EmitNext(ctx: CodegenCtx, program: ProgramBuffer, f: Function, n: nat) returns (r: Outcome<()>)
    requires n < |f.blocks|
    modifies ctx, program
    ensures match r
            case Done(_) => EmitFrom(program.processor, old(ctx.View(program)), f, n) == EmitFrom(program.processor, ctx.View(program), f, n + 1)
            case Refused => EmitFrom(program.processor, old(ctx.View(program)), f, n).Refused?
            case Panics => EmitFrom(program.processor, old(ctx.View(program)), f, n).Panics?
  {
    ghost var e := ctx.View(program);
    EmitFromNext(program.processor, e, f, n, EmitBlock(program.processor, BeforeBlock(e, f, n), f.blocks[n]));
    if n == 0 {
      program.items := program.items + [LabelItem(f.name)];
    }
    r := ctx.EmitAll(program, f.blocks[n]);
  }

  lemma {:induction false} EmitFromNext(proc: Processor, e: Emission, f: Function, n: nat, r: Outcome<Emission>)
    requires n < |f.blocks| && EmitBlock(proc, BeforeBlock(e, f, n), f.blocks[n]) == r
    ensures EmitFrom(proc, e, f, n) == match r case Done(e1) => EmitFrom(proc, e1, f, n + 1) case Refused => Refused case Panics => Panics
  {
  }

  method EmitFunction(program: ProgramBuffer, f: Function) returns (r: Outcome<()>)
    modifies program
    ensures match EmitBlocks(program.processor, old(program.items), f)
            case Done(e) => r.Done? && program.items == e.items
            case Refused => r.Refused?
            case Panics => r.Panics?
  {
    var ctx := new CodegenCtx();
    ghost var items, proc := program.items, program.processor;
    for n := 0 to |f.blocks|
      invariant EmitBlocks(proc, items, f) == EmitFrom(proc, ctx.View(program), f, n)
    {
      r := EmitNext(ctx, program, f, n);
      if !r.Done? {
        return;
      }
    }
    r := Done(());
  }

  lemma {:induction false} FunctionsFail(proc: Processor, fns: seq<Function>, n: nat)
    requires n <= |fns| && !EmitFunctions(proc, fns[..n]).Done?
    ensures EmitFunctions(proc, fns) == EmitFunctions(proc, fns[..n])
    decreases |fns|
  {
    if n == |fns| {
      assert fns[..n] == fns;
    } else {
      assert fns[..|fns| - 1][..n] == fns[..n];
      FunctionsFail(proc, fns[..|fns| - 1], n);
    }
  }

  method EmitAllFunctions(proc: Processor, fns: seq<Function>) returns (r: Outcome<seq<Item>>)
    ensures r == EmitFunctions(proc, fns)
  {
    var program := new ProgramBuffer(proc);
    for n := 0 to |fns|
      invariant EmitFunctions(proc, fns[..n]) == Done(program.items)
    {
      assert fns[..n + 1][..n] == fns[..n];
      var done := EmitFunction(program, fns[n]);
      if !done.Done? {
        FunctionsFail(proc, fns, n + 1);
        return if done.Refused? then Refused else Panics;
      }
    }
    assert fns[..|fns|] == fns;
    r := Done(program.items);
  }

  /** Only emission itself can fail: the final check never does. */
  method EmitScalarModule(fns: seq<Function>, proc: Processor) returns (r: Outcome<Program>)
    ensures r == match EmitFunctions(proc, fns)
                 case Done(items) => Done(Program(proc, items))
                 case Refused => Refused
                 case Panics => Panics
    ensures r.Done? ==> LegalItems(proc, r.value.items)
  {
    var items := EmitAllFunctions(proc, fns);
    if !items.Done? {
      return if items.Refused? then Refused else Panics;
    }
    EmittedIsLegal(proc, fns);
    var program := Program(proc, items.value);
    var verdict := VerifyProgram(program);
    r := if verdict.Accepted? then Done(program) else Refused;
  }

  // ----- Packed -----

  ghost predicate ScheduledFrom(syls: seq<Syllable>, out: seq<Syllable>) {
    exists g, order :: IsSchedule(syls, g, order) && out == Reordered(syls, order)
  }

  ghost predicate BlockScheduledFrom(block: Block, out: Block) {
    out.name == block.name && out.terminator == block.terminator && ScheduledFrom(block.syllables, out.syllables)
  }

  ghost predicate FunctionScheduledFrom(f: Function, out: Function) {
    out.name == f.name && |out.blocks| == |f.blocks| && forall b :: 0 <= b < |f.blocks| ==> BlockScheduledFrom(f.blocks[b], out.blocks[b])
  }

  method ListScheduleFunction(f: Function) returns (out: Function)
    ensures FunctionScheduledFrom(f, out)
  {
    var blocks := [];
    for n := 0 to |f.blocks|
      invariant |blocks| == n && forall b :: 0 <= b < n ==> BlockScheduledFrom(f.blocks[b], blocks[b])
    {
      var block := f.blocks[n];
      var syls, g, heights, order := ListSchedule(block.syllables);
      assert ScheduledFrom(block.syllables, syls);
      blocks := blocks + [Block(block.name, syls, block.terminator)];
    }
    out := Function(f.name, blocks);
  }

  /** The packed module is the packed form of the scheduled functions, and again the final check never fails. */
  method EmitPackedModule(fns: seq<Function>, proc: Processor) returns (r: Outcome<Program>, scheduled: seq<Function>)
    ensures |scheduled| == |fns| && forall i :: 0 <= i < |fns| ==> FunctionScheduledFrom(fns[i], scheduled[i])
    ensures EmitFunctions(proc, scheduled).Done? == r.Done?
    ensures r.Done? ==> r.value == Program(proc, PackProgram(proc, EmitFunctions(proc, scheduled).value))
    ensures r.Done? ==> LegalItems(proc, r.value.items)
  {
    scheduled := [];
    for n := 0 to |fns|
      invariant |scheduled| == n && forall i :: 0 <= i < n ==> FunctionScheduledFrom(fns[i], scheduled[i])
    {
      var f := ListScheduleFunction(fns[n]);
      scheduled := scheduled + [f];
    }
    var items := EmitAllFunctions(proc, scheduled);
    if !items.Done? {
      return if items.Refused? then Refused else Panics, scheduled;
    }
    EmittedIsLegal(proc, scheduled);
    PackProgramLegal(proc, items.value);
    var packed := PackScalarProgram(Program(proc, items.value));
    var verdict := VerifyProgram(packed);
    r := if verdict.Accepted? then Done(packed) else Refused;
  }
}
