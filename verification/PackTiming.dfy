/** Packed code reads no register early, and packing never makes a function longer. */
module PackTiming {
  import opened Collections
  import opened Opcodes
  import opened Mir
  import opened Asm
  import opened AsmMeaning
  import opened Ready
  import opened Timing
  import opened Packer
  import opened PackerMeaning
  import opened EmittedStream

  // ----- The table, register by register -----

  /** Only physical registers other than r0 become pending. */
  predicate WritesReg(x: AsmSyllable, k: RegKey) {
    OpcodeOf(x).Some? && AsmDest(OpcodeOf(x).value, x.operands) == Some(k) && k != ZERO
  }

  function LatencyOf(x: AsmSyllable): nat {
    if OpcodeOf(x).Some? then Latency(OpcodeOf(x).value) else 0
  }

  lemma {:induction false} AfterAsmAt(x: AsmSyllable, cycle: nat, ready: ReadyState, k: RegKey)
    ensures KeyReadyAt(AfterAsm(x, cycle, ready), k) == if WritesReg(x, k) then cycle + LatencyOf(x) else KeyReadyAt(ready, k)
  {
  }

  /** A register is ready as before, or when the result of one of its writers arrives. */
  lemma {:induction false} AfterSyllablesAt(syls: seq<AsmSyllable>, cycle: nat, ready: ReadyState, k: RegKey) returns (x: Option<AsmSyllable>)
    ensures x.None? ==> KeyReadyAt(AfterSyllables(syls, cycle, ready), k) == KeyReadyAt(ready, k)
    ensures x.None? ==> forall y :: y in syls ==> !WritesReg(y, k)
    ensures x.Some? ==> x.value in syls && WritesReg(x.value, k)
    ensures x.Some? ==> KeyReadyAt(AfterSyllables(syls, cycle, ready), k) == cycle + LatencyOf(x.value)
  {
    if syls == [] {
      x := None;
    } else {
      var n := |syls| - 1;
      AfterAsmAt(syls[n], cycle, AfterSyllables(syls[..n], cycle, ready), k);
      if WritesReg(syls[n], k) {
        x := Some(syls[n]);
      } else {
        x := AfterSyllablesAt(syls[..n], cycle, ready, k);
        assert forall y :: y in syls ==> y in syls[..n] || y == syls[n];
      }
    }
  }

  // ----- Predicates are always ready -----

  ghost predicate PredsReadyBy(ready: ReadyState, cycle: nat) {
    forall p :: ready.At(Pred, p) <= cycle
  }

  /** Predicate writers take one cycle. */
  lemma {:induction false} PredLatency(x: AsmSyllable, p: nat)
    requires WritesReg(x, RegKey(Pred, PReg(p)))
    ensures LatencyOf(x) == 1
  {
  }

  lemma {:induction false} BundlePreds(b: Bundle, cycle: nat, ready: ReadyState)
    requires PredsReadyBy(ready, cycle)
    ensures PredsReadyBy(AfterBundle(b, cycle, ready), cycle + 1)
  {
    var after := AfterBundle(b, cycle, ready);
    forall p
      ensures after.At(Pred, p) <= cycle + 1
    {
      var k := RegKey(Pred, PReg(p));
      assert KeyReadyAt(after, k) == after.At(Pred, p) && KeyReadyAt(ready, k) == ready.At(Pred, p);
      var x := AfterSyllablesAt(Syllables(b), cycle, ready, k);
      if x.Some? {
        PredLatency(x.value, p);
      }
    }
  }

  lemma {:induction false} BundlesPreds(bs: seq<Bundle>, start: nat, ready: ReadyState)
    requires PredsReadyBy(ready, start)
    ensures PredsReadyBy(AfterBundles(bs, start, ready), start + |bs|)
  {
    if bs != [] {
      var n := |bs| - 1;
      BundlesPreds(bs[..n], start, ready);
      BundlePreds(bs[n], start + n, AfterBundles(bs[..n], start, ready));
    }
  }

  // ----- Packed segments are in time -----

  lemma {:induction false} PlacedSyllables(proc: Processor, b: Bundle, syls: seq<AsmSyllable>, syl: AsmSyllable)
    requires PlaceAll(proc, b, syls).Some? && syl in Syllables(PlaceAll(proc, b, syls).value)
    ensures syl in Syllables(b) || syl in syls
  {
    PlaceAllKeeps(proc, b, syls);
    assert syl in multiset(Syllables(PlaceAll(proc, b, syls).value));
    assert syl in multiset(Syllables(b)) + multiset(syls);
  }

  lemma {:induction false} TruncatedSyllables(b: Bundle, n: nat, syl: AsmSyllable)
    requires n <= |b| && syl in Syllables(b[..n])
    ensures syl in Syllables(b)
  {
    if n < |b| {
      assert b[..|b| - 1][..n] == b[..n];
      TruncatedSyllables(b[..|b| - 1], n, syl);
    } else {
      assert b[..n] == b;
    }
  }

  /** Merging invents no syllable. */
  lemma {:induction false} MergedSyllables(proc: Processor, a: Bundle, b: Bundle, c: Bundle, syl: AsmSyllable)
    requires MergeBundles(proc, a, b) == Some(c) && syl in Syllables(c)
    ensures syl in Syllables(a) || syl in Syllables(b)
  {
    PlacedSyllables(proc, NormalizeSlots(a, proc.width), Syllables(b), syl);
    if proc.width <= |a| {
      if syl in Syllables(a[..proc.width]) {
        TruncatedSyllables(a, proc.width, syl);
      }
    } else {
      NormalizeKeeps(a, proc.width);
    }
  }

  lemma {:induction false} MergedReady(proc: Processor, a: Bundle, b: Bundle, c: Bundle, cycle: nat, ready: ReadyState)
    requires MergeBundles(proc, a, b) == Some(c) && BundleReadyAt(a, cycle, ready) && BundleReadyAt(b, cycle, ready)
    ensures BundleReadyAt(c, cycle, ready)
  {
    forall syl | syl in Syllables(c)
      ensures SyllableReadyAt(syl, cycle, ready)
    {
      MergedSyllables(proc, a, b, c, syl);
    }
  }

  lemma {:induction false} EmptyReady(b: Bundle, cycle: nat, ready: ReadyState)
    requires IsEmptyBundle(b)
    ensures BundleReadyAt(b, cycle, ready)
  {
    EmptyBundleSyllables(b);
  }

  lemma {:induction false} InTimeLast(bs: seq<Bundle>, start: nat, ready: ReadyState)
    requires bs != [] && InTime(bs, start, ready)
    ensures var n := |bs| - 1; InTime(bs[..n], start, ready) && BundleReadyAt(bs[n], start + n, AfterBundles(bs[..n], start, ready))
  {
  }

  lemma {:induction false} MergeInTime(proc: Processor, out: seq<Bundle>, b: Bundle, start: nat, ready: ReadyState, c: Bundle)
    requires InTime(out, start, ready) && Merged(proc, out, b, start, ready) == Some(c)
    ensures InTime(out[|out| - 1 := c], start, ready)
  {
    var n := |out| - 1;
    InTimeLast(out, start, ready);
    MergedReady(proc, out[n], b, c, start + n, AfterBundles(out[..n], start, ready));
    PushInTime(out[..n], c, start, ready, start + n, AfterBundles(out[..n], start, ready));
    SplitLast(out, c);
  }

  lemma {:induction false} PaddedInTime(out: seq<Bundle>, b: Bundle, start: nat, ready: ReadyState)
    requires InTime(out, start, ready) && KnownBundle(b)
    ensures InTime(Padded(out, b, start, ready), start, ready)
  {
    var n := PadCount(out, b, start, ready);
    var r := out + Nops(n);
    NopsInTime(out, n, start, ready);
    PadsReady(out, n, r, b, start, ready);
    PushInTime(r, b, start, ready, start + |r|, AfterBundles(r, start, ready));
  }

  lemma {:induction false} PackSegmentInTime(proc: Processor, segment: seq<Bundle>, start: nat, ready: ReadyState)
    requires KnownSegment(segment)
    ensures InTime(PackSegment(proc, segment, start, ready), start, ready)
  {
    if segment != [] {
      var n := |segment| - 1;
      var out, b := PackSegment(proc, segment[..n], start, ready), segment[n];
      PackSegmentInTime(proc, segment[..n], start, ready);
      if IsEmptyBundle(b) {
        EmptyReady(b, start + |out|, AfterBundles(out, start, ready));
        PushInTime(out, b, start, ready, start + |out|, AfterBundles(out, start, ready));
      } else {
        match Merged(proc, out, b, start, ready)
        case Some(c) => MergeInTime(proc, out, b, start, ready, c);
        case None => PaddedInTime(out, b, start, ready);
      }
    }
  }

  // ----- Packed programs are in time -----

  /** Emitted terminators read at most a branch predicate. */
  predicate ReadsOnlyPredicates(b: Bundle) {
    forall syl :: syl in Syllables(b) ==>
      KnownSyllable(syl) && forall k :: k in SourceKeys(OpcodeOf(syl).value, syl.operands) ==> k.cls == Pred
  }

  predicate TerminatorsReadPredicates(items: seq<Item>) {
    forall i :: 0 <= i < |items| && items[i].BundleItem? && IsTerminatorBundle(items[i].bundle) ==> ReadsOnlyPredicates(items[i].bundle)
  }

  /** Between two items the packer's clock and table are those of what it has packed. */
  ghost predicate PackedSoFar(st: PackState) {
    var bs := BundlesOf(st.packed);
    && st.cycle == |bs| && st.ready == AfterBundles(bs, 0, ALL_READY) && InTime(bs, 0, ALL_READY)
    && KnownSegment(st.segment)
  }

  lemma {:induction false} FlushInTime(proc: Processor, st: PackState)
    requires PackedSoFar(st)
    ensures PackedSoFar(Flush(proc, st))
  {
    var bs, out := BundlesOf(st.packed), PackSegment(proc, st.segment, st.cycle, st.ready);
    PackSegmentInTime(proc, st.segment, st.cycle, st.ready);
    InTimeTogether(bs, out, 0, ALL_READY);
    BundlesOfBundles(st.packed, out);
  }

  lemma {:induction false} TerminatorReady(b: Bundle, cycle: nat, ready: ReadyState)
    requires PredsReadyBy(ready, cycle) && ReadsOnlyPredicates(b)
    ensures BundleReadyAt(b, cycle, ready)
  {
    forall syl, k | syl in Syllables(b) && k in SourceKeys(OpcodeOf(syl).value, syl.operands)
      ensures KeyReadyAt(ready, k) <= cycle
    {
      assert k.cls == Pred && (k.reg.PReg? ==> KeyReadyAt(ready, k) == ready.At(Pred, k.reg.p));
    }
  }

  lemma {:induction false} TerminatorInTime(st: PackState, b: Bundle)
    requires PackedSoFar(st) && ReadsOnlyPredicates(b)
    ensures PackedSoFar(PackState(st.packed + [BundleItem(b)], [], AfterBundle(b, st.cycle, st.ready), st.cycle + 1))
  {
    var bs := BundlesOf(st.packed);
    BundlesPreds(bs, 0, ALL_READY);
    TerminatorReady(b, st.cycle, st.ready);
    PushInTime(bs, b, 0, ALL_READY, st.cycle, st.ready);
    BundlesOfAppend(st.packed, BundleItem(b));
  }

  lemma {:induction false} LabelInTime(st: PackState, item: Item)
    requires PackedSoFar(st) && item.LabelItem?
    ensures PackedSoFar(st.(packed := st.packed + [item]))
  {
    BundlesOfAppend(st.packed, item);
  }

  lemma {:induction false} ItemInTime(proc: Processor, st: PackState, item: Item)
    requires PackedSoFar(st) && (item.BundleItem? ==> KnownBundle(item.bundle))
    requires item.BundleItem? && IsTerminatorBundle(item.bundle) ==> ReadsOnlyPredicates(item.bundle)
    ensures PackedSoFar(PackItem(proc, st, item))
  {
    FlushInTime(proc, st);
    if item.LabelItem? {
      LabelInTime(Flush(proc, st), item);
    } else if IsTerminatorBundle(item.bundle) {
      TerminatorInTime(Flush(proc, st), item.bundle);
    }
  }

  lemma {:induction false} ItemsInTime(proc: Processor, items: seq<Item>)
    requires KnownItems(items) && TerminatorsReadPredicates(items)
    ensures PackedSoFar(PackItems(proc, items))
  {
    if items != [] {
      var n := |items| - 1;
      ItemsInTime(proc, items[..n]);
      ItemInTime(proc, PackItems(proc, items[..n]), items[n]);
    }
  }

  /**
   * In every packed program each bundle's sources are ready in its cycle, branch predicates included, although
   * terminators are not checked.
   */
  lemma {:induction false} PackedProgramInTime(proc: Processor, items: seq<Item>)
    requires KnownItems(items) && TerminatorsReadPredicates(items)
    ensures InTime(BundlesOf(PackProgram(proc, items)), 0, ALL_READY)
  {
    ItemsInTime(proc, items);
    FlushInTime(proc, PackItems(proc, items));
  }

  // ----- What being in time means for readers and writers -----

  predicate ReadsReg(y: AsmSyllable, k: RegKey) {
    OpcodeOf(y).Some? && k in SourceKeys(OpcodeOf(y).value, y.operands)
  }

  /** x, in bundle i, is the last writer of k before bundle j, and nothing else in its bundle writes k. */
  ghost predicate IsLastWriter(bs: seq<Bundle>, k: RegKey, i: nat, j: nat, x: AsmSyllable) {
    && i < j <= |bs| && x in Syllables(bs[i]) && WritesReg(x, k)
    && (forall z :: z in Syllables(bs[i]) && WritesReg(z, k) ==> z == x)
    && forall q, z :: i < q < j && z in Syllables(bs[q]) ==> !WritesReg(z, k)
  }

  lemma {:induction false} StillLastWriter(bs: seq<Bundle>, k: RegKey, i: nat, n: nat, x: AsmSyllable)
    requires IsLastWriter(bs, k, i, n + 1, x) && i < n
    ensures IsLastWriter(bs, k, i, n, x) && forall z :: z in Syllables(bs[n]) ==> !WritesReg(z, k)
  {
  }

  lemma {:induction false} TableAfterBundle(b: Bundle, n: nat, before: ReadyState, k: RegKey)
    requires forall z :: z in Syllables(b) ==> !WritesReg(z, k)
    ensures KeyReadyAt(AfterBundle(b, n, before), k) == KeyReadyAt(before, k)
  {
    var y := AfterSyllablesAt(Syllables(b), n, before, k);
  }

  lemma {:induction false} TableAfterWriter(b: Bundle, n: nat, before: ReadyState, k: RegKey, x: AsmSyllable)
    requires x in Syllables(b) && WritesReg(x, k) && forall z :: z in Syllables(b) && WritesReg(z, k) ==> z == x
    ensures KeyReadyAt(AfterBundle(b, n, before), k) == n + LatencyOf(x)
  {
    var y := AfterSyllablesAt(Syllables(b), n, before, k);
  }

  lemma {:induction false} NextTable(bs: seq<Bundle>, n: nat)
    requires n < |bs|
    ensures AfterBundles(bs[..n + 1], 0, ALL_READY) == AfterBundle(bs[n], n, AfterBundles(bs[..n], 0, ALL_READY))
  {
    assert bs[..n + 1][..n] == bs[..n];
  }

  lemma {:induction false} TableHasLastWriter(bs: seq<Bundle>, k: RegKey, i: nat, j: nat, x: AsmSyllable)
    requires IsLastWriter(bs, k, i, j, x)
    ensures KeyReadyAt(AfterBundles(bs[..j], 0, ALL_READY), k) == i + LatencyOf(x)
    decreases j
  {
    var n := j - 1;
    NextTable(bs, n);
    if i < n {
      StillLastWriter(bs, k, i, n, x);
      TableHasLastWriter(bs, k, i, n, x);
      TableAfterBundle(bs[n], n, AfterBundles(bs[..n], 0, ALL_READY), k);
    } else {
      TableAfterWriter(bs[n], n, AfterBundles(bs[..n], 0, ALL_READY), k, x);
    }
  }

  lemma {:induction false} InTimeAt(bs: seq<Bundle>, j: nat)
    requires InTime(bs, 0, ALL_READY) && j < |bs|
    ensures BundleReadyAt(bs[j], j, AfterBundles(bs[..j], 0, ALL_READY))
  {
    if j < |bs| - 1 {
      InTimeAt(bs[..|bs| - 1], j);
      assert bs[..|bs| - 1][..j] == bs[..j];
    }
  }

  /** The result of the last writer has arrived when a reader issues. */
  lemma {:induction false} InTimeLatency(bs: seq<Bundle>, k: RegKey, i: nat, j: nat, x: AsmSyllable, y: AsmSyllable)
    requires InTime(bs, 0, ALL_READY) && j < |bs| && IsLastWriter(bs, k, i, j, x)
    requires y in Syllables(bs[j]) && ReadsReg(y, k)
    ensures i + LatencyOf(x) <= j
  {
    InTimeAt(bs, j);
    TableHasLastWriter(bs, k, i, j, x);
    assert SyllableReadyAt(y, j, AfterBundles(bs[..j], 0, ALL_READY));
  }
}
