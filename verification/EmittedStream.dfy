/** What the emitter's stream looks like: on the earliest schedule, padded for latency, legal, with the block's meaning. */
module EmittedStream {
  import opened Collections
  import opened Opcodes
  import opened Asm
  import opened BundleVerifier
  import opened Ready
  import opened Timing
  import opened ScalarTiming
  import opened Emitter

  function BundlesOf(items: seq<Item>): seq<Bundle> {
    if items == [] then []
    else
      var n := |items| - 1;
      if items[n].BundleItem? then BundlesOf(items[..n]) + [items[n].bundle] else BundlesOf(items[..n])
  }

  lemma {:induction false} BundlesOfAppend(items: seq<Item>, item: Item)
    ensures BundlesOf(items + [item]) == if item.BundleItem? then BundlesOf(items) + [item.bundle] else BundlesOf(items)
  {
    assert (items + [item])[..|items|] == items;
  }

  lemma {:induction false} SplitItems(items: seq<Item>, bs: seq<Bundle>)
    requires bs != []
    ensures var n := |bs| - 1; items + AsItems(bs) == items + AsItems(bs[..n]) + [BundleItem(bs[n])]
  {
  }

  lemma {:induction false} BundlesOfBundles(items: seq<Item>, bs: seq<Bundle>)
    ensures BundlesOf(items + AsItems(bs)) == BundlesOf(items) + bs
  {
    if bs == [] {
      assert items + AsItems(bs) == items;
    } else {
      var n := |bs| - 1;
      BundlesOfBundles(items, bs[..n]);
      SplitItems(items, bs);
      BundlesOfAppend(items + AsItems(bs[..n]), BundleItem(bs[n]));
      Regroup(BundlesOf(items), bs[..n], bs[n]);
      SplitLast(bs, bs[n]);
    }
  }

  // ----- The four facts about the stream of one function -----

  /** Syllable n is alone in the bundle of its cycle; all other bundles are empty. */
  ghost predicate IssuedAt(bs: seq<Bundle>, xs: seq<AsmSyllable>, cycles: seq<nat>) {
    && |cycles| == |xs|
    && (forall n :: 0 <= n < |xs| ==> cycles[n] < |bs| && Syllables(bs[cycles[n]]) == [xs[n]])
    && (forall i :: 0 <= i < |bs| && i !in cycles ==> IsEmptyBundle(bs[i]))
  }

  /** The stream follows the earliest schedule of its syllables, and the context is that schedule's clock. */
  ghost predicate OnSchedule(bs: seq<Bundle>, ready: ReadyState, cycle: nat) {
    var xs := Flat(bs);
    var c := Schedule(Times(xs));
    c.ready == ready && c.next == cycle == |bs| && IssuedAt(bs, xs, c.cycles)
  }

  /** A legal bundle of at most one syllable, of a known opcode. */
  ghost predicate ScalarLegal(proc: Processor, b: Bundle) {
    |b| <= proc.width && |Syllables(b)| <= 1 && LegalBundle(proc, b) && KnownBundle(b)
  }

  ghost predicate AllScalarLegal(proc: Processor, bs: seq<Bundle>) {
    forall i :: 0 <= i < |bs| ==> ScalarLegal(proc, bs[i])
  }

  /** `bs` are the bundles emitted so far for the current function. */
  ghost predicate StreamForm(proc: Processor, bs: seq<Bundle>, ready: ReadyState, cycle: nat) {
    && OnSchedule(bs, ready, cycle)
    && InTime(bs, 0, ALL_READY) && AfterBundles(bs, 0, ALL_READY) == ready
    && AllScalarLegal(proc, bs)
  }

  // ----- Issuing keeps them -----

  lemma {:induction false} OneSyllable(b: Bundle, slot: nat, syl: AsmSyllable)
    requires slot < |b| && b[slot] == Some(syl) && forall i :: 0 <= i < |b| && i != slot ==> b[i].None?
    ensures Syllables(b) == [syl]
  {
    var n := |b| - 1;
    if slot == n {
      assert IsEmptyBundle(b[..n]);
      EmptyBundleSyllables(b[..n]);
    } else {
      OneSyllable(b[..n], slot, syl);
    }
  }

  lemma {:induction false} SingleIsLegal(proc: Processor, op: Opcode, syl: AsmSyllable, slot: nat)
    requires slot < proc.width && SlotSupports(proc, slot, op) && OpcodeOf(syl) == Some(op)
    ensures ScalarLegal(proc, BundleWith(proc.width, slot, syl))
  {
    var b := BundleWith(proc.width, slot, syl);
    OneSyllable(b, slot, syl);
    forall q | 0 <= q < proc.width
      ensures SlotLegal(proc, b, q)
    {
      assert q != slot ==> b[q].None?;
    }
    assert forall i: nat, r: nat :: i < proc.width && i != slot ==> !WritesAt(b, i, r) && !ReadsAt(b, i, r);
  }

  lemma {:induction false} NopIsLegal(proc: Processor)
    ensures ScalarLegal(proc, [])
  {
  }

  lemma {:induction false} TimedAgrees(x: AsmSyllable, cycle: nat, ready: ReadyState)
    requires OpcodeOf(x).Some?
    ensures AfterAsm(x, cycle, ready) == AfterTimed(TimedOf(x), cycle, ready)
    ensures RequiredCycleOf(OpcodeOf(x).value, x.operands, ready) == MaxReadyAt(ready, TimedOf(x).sources)
  {
  }

  /** What one issue appends. */
  ghost function Appended(width: nat, e: Emission, syl: AsmSyllable, slot: nat): seq<Bundle>
    requires slot < width
  {
    Nops(IssueCycle(e, syl) - e.cycle) + [BundleWith(width, slot, syl)]
  }

  lemma {:induction false} FlatIssued(bs: seq<Bundle>, n: nat, b: Bundle, syl: AsmSyllable)
    requires Syllables(b) == [syl]
    ensures Flat(bs + (Nops(n) + [b])) == Flat(bs) + [syl]
  {
    FlatNops(bs, n);
    FlatAppend(bs + Nops(n), b);
    Regroup(bs, Nops(n), b);
  }

  /** Issuing a syllable is one tick of the schedule's clock. */
  lemma {:induction false} IssueIsTick(x: AsmSyllable, e: Emission, c: Clock)
    requires OpcodeOf(x).Some? && c.ready == e.ready && c.next == e.cycle
    ensures Tick(c, TimedOf(x)) == Clock(AfterAsm(x, IssueCycle(e, x), e.ready), IssueCycle(e, x) + 1, c.cycles + [IssueCycle(e, x)])
  {
    TimedAgrees(x, IssueCycle(e, x), e.ready);
  }

  lemma {:induction false} TimesAppend(xs: seq<AsmSyllable>, x: AsmSyllable)
    ensures Times(xs + [x]) == Times(xs) + [TimedOf(x)]
  {
  }

  lemma {:induction false} IssuedAtExtends(bs: seq<Bundle>, xs: seq<AsmSyllable>, cycles: seq<nat>, n: nat, at: nat, b: Bundle, x: AsmSyllable)
    requires IssuedAt(bs, xs, cycles) && Syllables(b) == [x] && at == |bs| + n
    ensures IssuedAt(bs + (Nops(n) + [b]), xs + [x], cycles + [at])
  {
    NopsEmpty(n);
    var bs', cycles' := bs + (Nops(n) + [b]), cycles + [at];
    forall i | 0 <= i < |bs'| && i !in cycles'
      ensures IsEmptyBundle(bs'[i])
    {
      assert cycles'[|cycles|] == at && cycles'[..|cycles|] == cycles;
    }
  }

  lemma {:induction false} NopsEmpty(n: nat)
    ensures forall i :: 0 <= i < n ==> Nops(n)[i] == []
  {
    if n > 0 {
      NopsEmpty(n - 1);
    }
  }

  lemma {:induction false} OnScheduleExtends(bs: seq<Bundle>, e: Emission, b: Bundle, x: AsmSyllable, at: nat)
    requires OnSchedule(bs, e.ready, e.cycle) && OpcodeOf(x).Some? && Syllables(b) == [x] && at == IssueCycle(e, x)
    ensures OnSchedule(bs + (Nops(at - e.cycle) + [b]), AfterAsm(x, at, e.ready), at + 1)
  {
    var xs := Flat(bs);
    var c := Schedule(Times(xs));
    FlatIssued(bs, at - e.cycle, b, x);
    TimesAppend(xs, x);
    ScheduleAppend(Times(xs), TimedOf(x));
    IssueIsTick(x, e, c);
    IssuedAtExtends(bs, xs, c.cycles, at - e.cycle, at, b, x);
  }

  lemma {:induction false} SingleReady(b: Bundle, x: AsmSyllable, cycle: nat, ready: ReadyState)
    requires Syllables(b) == [x] && OpcodeOf(x).Some? && RequiredCycleOf(OpcodeOf(x).value, x.operands, ready) <= cycle
    ensures BundleReadyAt(b, cycle, ready)
  {
  }

  lemma {:induction false} SingleAfter(b: Bundle, x: AsmSyllable, cycle: nat, ready: ReadyState)
    requires Syllables(b) == [x]
    ensures AfterBundle(b, cycle, ready) == AfterAsm(x, cycle, ready)
  {
    assert [x][..0] == [];
    assert AfterSyllables([x], cycle, ready) == AfterAsm([x][0], cycle, AfterSyllables([], cycle, ready));
  }

  lemma {:induction false} InTimeExtends(bs: seq<Bundle>, ready: ReadyState, n: nat, b: Bundle, at: nat, after: ReadyState)
    requires InTime(bs, 0, ALL_READY) && AfterBundles(bs, 0, ALL_READY) == ready && at == |bs| + n
    requires BundleReadyAt(b, at, ready) && AfterBundle(b, at, ready) == after
    ensures var bs' := bs + (Nops(n) + [b]); InTime(bs', 0, ALL_READY) && AfterBundles(bs', 0, ALL_READY) == after
  {
    AfterNops(bs, n, 0, ALL_READY);
    NopsInTime(bs, n, 0, ALL_READY);
    var front := bs + Nops(n);
    PushInTime(front, b, 0, ALL_READY, at, ready);
    Regroup(bs, Nops(n), b);
  }

  lemma {:induction false} SingleIssue(e: Emission, b: Bundle, x: AsmSyllable)
    requires OpcodeOf(x).Some? && Syllables(b) == [x]
    ensures var at := IssueCycle(e, x); BundleReadyAt(b, at, e.ready) && AfterBundle(b, at, e.ready) == AfterAsm(x, at, e.ready)
  {
    SingleAfter(b, x, IssueCycle(e, x), e.ready);
    SingleReady(b, x, IssueCycle(e, x), e.ready);
  }

  lemma {:induction false} IssueInTime(bs: seq<Bundle>, e: Emission, b: Bundle, x: AsmSyllable, at: nat)
    requires InTime(bs, 0, ALL_READY) && AfterBundles(bs, 0, ALL_READY) == e.ready && e.cycle == |bs|
    requires OpcodeOf(x).Some? && Syllables(b) == [x] && at == IssueCycle(e, x)
    ensures var bs' := bs + (Nops(at - e.cycle) + [b]);
            InTime(bs', 0, ALL_READY) && AfterBundles(bs', 0, ALL_READY) == AfterAsm(x, at, e.ready)
  {
    SingleIssue(e, b, x);
    InTimeExtends(bs, e.ready, at - e.cycle, b, at, AfterAsm(x, at, e.ready));
  }

  lemma {:induction false} LegalExtends(proc: Processor, bs: seq<Bundle>, n: nat, b: Bundle)
    requires AllScalarLegal(proc, bs) && ScalarLegal(proc, b)
    ensures AllScalarLegal(proc, bs + (Nops(n) + [b]))
  {
    NopIsLegal(proc);
    NopsEmpty(n);
  }

  lemma {:induction false} IssueKeepsForm(proc: Processor, bs: seq<Bundle>, e: Emission, op: Opcode, syl: AsmSyllable, slot: nat)
    requires StreamForm(proc, bs, e.ready, e.cycle) && syl.opcode == Mnemonic(op) && slot < proc.width && SlotSupports(proc, slot, op)
    ensures var e' := Issued(proc.width, e, syl, slot); StreamForm(proc, bs + Appended(proc.width, e, syl, slot), e'.ready, e'.cycle)
  {
    MnemonicRoundTrip(op);
    var b, at := BundleWith(proc.width, slot, syl), IssueCycle(e, syl);
    OneSyllable(b, slot, syl);
    OnScheduleExtends(bs, e, b, syl, at);
    IssueInTime(bs, e, b, syl, at);
    SingleIsLegal(proc, op, syl, slot);
    LegalExtends(proc, bs, at - e.cycle, b);
  }
}
