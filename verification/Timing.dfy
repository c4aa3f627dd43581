/** Ready cycles of assembler syllables and bundles. */
module Timing {
  import opened Opcodes
  import opened Mir
  import opened Asm
  import opened AsmMeaning
  import opened Ready

  /** Registers read, skipping the first operand of each class the opcode writes. */
  function SourceKeysFrom(ops: seq<Operand>, i: nat, skipGpr: bool, skipPred: bool): seq<RegKey>
    requires i <= |ops|
    decreases |ops| - i
  {
    if i == |ops| then []
    else match ops[i]
      case RegOp(r) =>
        if skipGpr then SourceKeysFrom(ops, i + 1, false, skipPred)
        else [RegKey(Gpr, PReg(r))] + SourceKeysFrom(ops, i + 1, skipGpr, skipPred)
      case PredOp(p) =>
        if skipPred then SourceKeysFrom(ops, i + 1, skipGpr, false)
        else [RegKey(Pred, PReg(p))] + SourceKeysFrom(ops, i + 1, skipGpr, skipPred)
      case MemAddr(base, _) => [RegKey(Gpr, PReg(base))] + SourceKeysFrom(ops, i + 1, skipGpr, skipPred)
      case _ => SourceKeysFrom(ops, i + 1, skipGpr, skipPred)
  }

  function SourceKeys(op: Opcode, ops: seq<Operand>): seq<RegKey> {
    SourceKeysFrom(ops, 0, WritesGpr(op), WritesPred(op))
  }

  /** The cycle from which all sources can be read. */
  function RequiredCycleOf(op: Opcode, ops: seq<Operand>, ready: ReadyState): nat {
    MaxReadyAt(ready, SourceKeys(op, ops))
  }

  predicate SourcesReadyAt(op: Opcode, ops: seq<Operand>, cycle: nat, ready: ReadyState) {
    forall k :: k in SourceKeys(op, ops) ==> KeyReadyAt(ready, k) <= cycle
  }

  function AfterAsm(syl: AsmSyllable, cycle: nat, ready: ReadyState): ReadyState {
    match OpcodeOf(syl)
    case None => ready
    case Some(op) =>
      match AsmDest(op, syl.operands)
      case Some(RegKey(cls, PReg(n))) => ready.Set(cls, n, cycle + Latency(op))
      case _ => ready
  }

  function AfterSyllables(syls: seq<AsmSyllable>, cycle: nat, ready: ReadyState): ReadyState {
    if syls == [] then ready
    else AfterAsm(syls[|syls| - 1], cycle, AfterSyllables(syls[..|syls| - 1], cycle, ready))
  }

  function AfterBundle(b: Bundle, cycle: nat, ready: ReadyState): ReadyState {
    AfterSyllables(Syllables(b), cycle, ready)
  }

  /** The table after a run of bundles, the first of them issued in cycle start. */
  function AfterBundles(bs: seq<Bundle>, start: nat, ready: ReadyState): ReadyState {
    if bs == [] then ready
    else AfterBundle(bs[|bs| - 1], start + |bs| - 1, AfterBundles(bs[..|bs| - 1], start, ready))
  }

  predicate KnownSyllable(syl: AsmSyllable) {
    OpcodeOf(syl).Some?
  }

  predicate KnownBundle(b: Bundle) {
    forall syl :: syl in Syllables(b) ==> KnownSyllable(syl)
  }

  predicate SyllableReadyAt(syl: AsmSyllable, cycle: nat, ready: ReadyState) {
    OpcodeOf(syl).Some? && SourcesReadyAt(OpcodeOf(syl).value, syl.operands, cycle, ready)
  }

  /** A bundle with an unknown mnemonic is never ready. */
  predicate BundleReadyAt(b: Bundle, cycle: nat, ready: ReadyState) {
    forall syl :: syl in Syllables(b) ==> SyllableReadyAt(syl, cycle, ready)
  }

  /** Some result is still on its way in the given cycle. */
  predicate HasPendingAt(ready: ReadyState, cycle: nat) {
    (exists r :: r in ready.gpr && ready.gpr[r] > cycle) || (exists p :: p in ready.pred && ready.pred[p] > cycle)
  }

  // ----- Nops and the table -----

  lemma {:induction false} AfterNop(out: seq<Bundle>, start: nat, ready: ReadyState)
    ensures AfterBundles(out + [[]], start, ready) == AfterBundles(out, start, ready)
  {
    assert (out + [[]])[..|out|] == out;
  }

  lemma {:induction false} AfterNops(out: seq<Bundle>, n: nat, start: nat, ready: ReadyState)
    ensures AfterBundles(out + Nops(n), start, ready) == AfterBundles(out, start, ready)
  {
    if n == 0 {
      assert out + Nops(n) == out;
    } else {
      AfterNops(out, n - 1, start, ready);
      AfterNop(out + Nops(n - 1), start, ready);
      assert out + Nops(n) == out + Nops(n - 1) + [[]];
    }
  }

  // ----- Bundles whose sources are all ready -----

  /** In each bundle's cycle its sources are ready, given the bundles before it. */
  predicate InTime(bs: seq<Bundle>, start: nat, ready: ReadyState) {
    bs == [] ||
    var n := |bs| - 1;
    InTime(bs[..n], start, ready) && BundleReadyAt(bs[n], start + n, AfterBundles(bs[..n], start, ready))
  }

  lemma {:induction false} PushInTime(bs: seq<Bundle>, b: Bundle, start: nat, ready: ReadyState, at: nat, after: ReadyState)
    requires at == start + |bs| && after == AfterBundles(bs, start, ready)
    ensures AfterBundles(bs + [b], start, ready) == AfterBundle(b, at, after)
    ensures InTime(bs, start, ready) && BundleReadyAt(b, at, after) ==> InTime(bs + [b], start, ready)
  {
    assert (bs + [b])[..|bs|] == bs;
  }

  lemma {:induction false} NopsInTime(bs: seq<Bundle>, n: nat, start: nat, ready: ReadyState)
    requires InTime(bs, start, ready)
    ensures InTime(bs + Nops(n), start, ready)
  {
    if n == 0 {
      assert bs + Nops(n) == bs;
    } else {
      NopsInTime(bs, n - 1, start, ready);
      PushInTime(bs + Nops(n - 1), [], start, ready, start + |bs| + n - 1, AfterBundles(bs + Nops(n - 1), start, ready));
      assert bs + Nops(n) == bs + Nops(n - 1) + [[]];
    }
  }

  /** Streams can be timed piece by piece. */
  lemma {:induction false} InTimeTogether(xs: seq<Bundle>, ys: seq<Bundle>, start: nat, ready: ReadyState)
    ensures AfterBundles(xs + ys, start, ready) == AfterBundles(ys, start + |xs|, AfterBundles(xs, start, ready))
    ensures InTime(xs + ys, start, ready) <==> InTime(xs, start, ready) && InTime(ys, start + |xs|, AfterBundles(xs, start, ready))
    decreases |ys|
  {
    if ys == [] {
      assert xs + ys == xs;
    } else {
      var n := |ys| - 1;
      InTimeTogether(xs, ys[..n], start, ready);
      assert (xs + ys)[..|xs + ys| - 1] == xs + ys[..n];
    }
  }
}
