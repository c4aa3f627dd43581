/** Runs of an assembler program with labels, terminators and calls. */
module AsmRuns {
  import opened Opcodes
  import opened Mir
  import opened Machine
  import opened MirRuns
  import opened Asm
  import opened AsmMeaning
  import opened Packer
  import opened PackedProgram

  /** Where a terminator sends control, read off its mnemonic and operands. */
  function AsmTransfer(syl: AsmSyllable, s: State): Option<Transfer> {
    var ops := syl.operands;
    match OpcodeOf(syl)
    case Some(Branch) =>
      if |ops| == 2 && ops[0].PredOp? && ops[1].LabelOp? then Some(if Taken(s, PReg(ops[0].p)) then To(ops[1].name) else Next) else None
    case Some(Jump) => if |ops| == 1 && ops[0].LabelOp? then Some(To(ops[0].name)) else None
    case Some(Call) => if |ops| == 1 && ops[0].LabelOp? then Some(Into(ops[0].name)) else None
    case Some(Ret) => if ops == [] then Some(Back) else None
    case _ => None
  }

  /** About to run segment `at`; `back` holds the segments behind the calls under way. */
  datatype AsmConfig = AsmConfig(at: nat, state: State, back: seq<nat>)

  /** Labels are passed on the way to the next terminator. */
  ghost function ToTerminator(isa: Isa, items: seq<Item>, at: nat, s: State): (r: (nat, State))
    requires at <= |Delimiters(items)|
    ensures at <= r.0 <= |Delimiters(items)|
    ensures r.0 < |Delimiters(items)| ==> Delimiters(items)[r.0].BundleItem?
    decreases |Delimiters(items)| - at
  {
    var s1 := RunBundles(isa, Segments(items)[at], s);
    if at < |Delimiters(items)| && Delimiters(items)[at].LabelItem? then ToTerminator(isa, items, at + 1, s1) else (at, s1)
  }

  /** The label stands right in front of segment `at`. */
  predicate Labelled(delimiters: seq<Item>, name: string, at: nat) {
    0 < at <= |delimiters| && delimiters[at - 1] == LabelItem(name)
  }

  /** In state s, delimiter k, a bundle of just a terminator, leads to a'; `back` holds the calls under way. */
  predicate Transfers(delimiters: seq<Item>, k: nat, s: State, back: seq<nat>, a': AsmConfig) {
    && k < |delimiters| && delimiters[k].BundleItem? && |Syllables(delimiters[k].bundle)| == 1
    && match AsmTransfer(Syllables(delimiters[k].bundle)[0], s)
       case None => false
       case Some(Next) => a' == AsmConfig(k + 1, s, back)
       case Some(To(target)) => Labelled(delimiters, target, a'.at) && a' == AsmConfig(a'.at, s, back)
       case Some(Into(callee)) => Labelled(delimiters, callee, a'.at) && a' == AsmConfig(a'.at, s, back + [k + 1])
       case Some(Back) => back != [] && a' == AsmConfig(back[|back| - 1], s, back[..|back| - 1])
  }

  /** Run to the next terminator, and go where it says. */
  ghost predicate IsAsmStep(isa: Isa, items: seq<Item>, a: AsmConfig, a': AsmConfig) {
    && a.at <= |Delimiters(items)|
    && var (k, s) := ToTerminator(isa, items, a.at, a.state);
       Transfers(Delimiters(items), k, s, a.back, a')
  }

  ghost predicate IsAsmRun(isa: Isa, items: seq<Item>, r: seq<AsmConfig>) {
    r != [] && forall n :: 0 < n < |r| ==> IsAsmStep(isa, items, r[n - 1], r[n])
  }

  ghost predicate LabelsDistinct(items: seq<Item>) {
    forall i, j :: 0 <= i < j < |Delimiters(items)| && Delimiters(items)[i].LabelItem? ==> Delimiters(items)[i] != Delimiters(items)[j]
  }

  /** With distinct labels a step is determined. */
  lemma {:induction false} AsmStepDeterministic(isa: Isa, items: seq<Item>, a: AsmConfig, b: AsmConfig, c: AsmConfig)
    requires LabelsDistinct(items) && IsAsmStep(isa, items, a, b) && IsAsmStep(isa, items, a, c)
    ensures b == c
  {
  }

  // ----- Packing -----

  lemma {:induction false} SameToTerminator(isa: Isa, proc: Processor, items: seq<Item>, r: seq<Item>, at: nat, s: State)
    requires SegmentsPacked(proc, items, r) && SegmentsOrderly(proc, items, r) && at <= |Delimiters(items)|
    ensures ToTerminator(isa, r, at, s) == ToTerminator(isa, items, at, s)
    decreases |Delimiters(items)| - at
  {
    SegmentPreserved(isa, proc, Segments(items)[at], Segments(r)[at], s);
    if at < |Delimiters(items)| && Delimiters(items)[at].LabelItem? {
      SameToTerminator(isa, proc, items, r, at + 1, RunBundles(isa, Segments(items)[at], s));
    }
  }

  lemma {:induction false} SameStep(isa: Isa, proc: Processor, items: seq<Item>, r: seq<Item>, a: AsmConfig, a': AsmConfig)
    requires SegmentsPacked(proc, items, r) && SegmentsOrderly(proc, items, r)
    ensures IsAsmStep(isa, r, a, a') <==> IsAsmStep(isa, items, a, a')
  {
    if a.at <= |Delimiters(items)| {
      SameToTerminator(isa, proc, items, r, a.at, a.state);
    }
  }

  /** The packed program has just the runs of the scalar program, calls and returns included. */
  lemma {:induction false} PackedRunsExactlyWhen(isa: Isa, proc: Processor, items: seq<Item>, run: seq<AsmConfig>)
    requires PlainItems(proc, items) && SegmentsOrderly(proc, items, PackProgram(proc, items))
    ensures IsAsmRun(isa, PackProgram(proc, items), run) <==> IsAsmRun(isa, items, run)
  {
    var r := PackProgram(proc, items);
    PackProgramStructure(proc, items);
    forall n | 0 < n < |run|
      ensures IsAsmStep(isa, r, run[n - 1], run[n]) <==> IsAsmStep(isa, items, run[n - 1], run[n])
    {
      SameStep(isa, proc, items, r, run[n - 1], run[n]);
    }
  }
}
