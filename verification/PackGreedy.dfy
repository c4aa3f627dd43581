/** What the packer must do, said without its own steps: when a bundle joins the one before it, and where. */
module PackGreedy {
  import opened Collections
  import opened Opcodes
  import opened Mir
  import opened Asm
  import opened BundleVerifier
  import opened Ready
  import opened Timing
  import opened Packer
  import opened EmittedStream
  import opened PackTiming

  // ----- Placing syllables -----

  /** The slot is empty, not taken by an earlier syllable, and executes the opcode. */
  predicate Fits(proc: Processor, a: Bundle, op: Opcode, taken: seq<nat>, slot: nat) {
    slot < proc.width && slot < |a| && a[slot].None? && slot !in taken && SlotSupports(proc, slot, op)
  }

  predicate FitsFirst(proc: Processor, a: Bundle, syl: AsmSyllable, taken: seq<nat>, slot: nat) {
    && OpcodeOf(syl).Some? && Fits(proc, a, OpcodeOf(syl).value, taken, slot)
    && forall q: nat :: q < slot ==> !Fits(proc, a, OpcodeOf(syl).value, taken, q)
  }

  /** One after another, the syllables take the first slots they fit in. */
  predicate FirstFit(proc: Processor, a: Bundle, syls: seq<AsmSyllable>, slots: seq<nat>) {
    |slots| == |syls| && forall i :: 0 <= i < |syls| ==> FitsFirst(proc, a, syls[i], slots[..i], slots[i])
  }

  /** c is a with the syllables in those slots. */
  predicate Filled(a: Bundle, syls: seq<AsmSyllable>, slots: seq<nat>, c: Bundle) {
    && |c| == |a| && |slots| == |syls|
    && (forall i :: 0 <= i < |slots| ==> slots[i] < |c| && c[slots[i]] == Some(syls[i]))
    && forall q: nat :: q < |a| && q !in slots ==> c[q] == a[q]
  }

  lemma {:induction false} StillOpen(proc: Processor, a: Bundle, syls: seq<AsmSyllable>, slots: seq<nat>, c: Bundle, op: Opcode)
    requires Filled(a, syls, slots, c)
    ensures forall q: nat :: OpenSlot(proc, c, op, q) <==> Fits(proc, a, op, slots, q)
  {
    forall q: nat
      ensures OpenSlot(proc, c, op, q) <==> Fits(proc, a, op, slots, q)
    {
      if q in slots {
        var i :| 0 <= i < |slots| && slots[i] == q;
      }
    }
  }

  lemma {:induction false} OneMoreFit(proc: Processor, a: Bundle, syls: seq<AsmSyllable>, slots: seq<nat>, c: Bundle, syl: AsmSyllable, slot: nat)
    requires FirstFit(proc, a, syls, slots) && Filled(a, syls, slots, c)
    requires slot < |a| && FitsFirst(proc, a, syl, slots, slot)
    ensures FirstFit(proc, a, syls + [syl], slots + [slot]) && Filled(a, syls + [syl], slots + [slot], c[slot := Some(syl)])
  {
    var all, taken := syls + [syl], slots + [slot];
    forall i | 0 <= i < |all|
      ensures FitsFirst(proc, a, all[i], taken[..i], taken[i])
    {
      if i < |syls| {
        assert taken[..i] == slots[..i];
      } else {
        assert taken[..i] == slots;
      }
    }
  }

  lemma {:induction false} PlacedFit(proc: Processor, a: Bundle, syls: seq<AsmSyllable>) returns (slots: seq<nat>)
    requires PlaceAll(proc, a, syls).Some?
    ensures FirstFit(proc, a, syls, slots) && Filled(a, syls, slots, PlaceAll(proc, a, syls).value)
  {
    if syls == [] {
      slots := [];
    } else {
      var n := |syls| - 1;
      slots := PlacedFit(proc, a, syls[..n]);
      var b := PlaceAll(proc, a, syls[..n]).value;
      var op := OpcodeOf(syls[n]).value;
      var slot := FirstOpenSlot(proc, b, op, 0).value;
      StillOpen(proc, a, syls[..n], slots, b, op);
      OneMoreFit(proc, a, syls[..n], slots, b, syls[n], slot);
      slots := slots + [slot];
      TakeNext(syls, n);
    }
  }

  lemma {:induction false} FitBefore(proc: Processor, a: Bundle, syls: seq<AsmSyllable>, slots: seq<nat>)
    requires syls != [] && FirstFit(proc, a, syls, slots)
    ensures var n := |syls| - 1;
            FirstFit(proc, a, syls[..n], slots[..n]) && FitsFirst(proc, a, syls[n], slots[..n], slots[n]) && slots[n] !in slots[..n]
  {
    var n := |syls| - 1;
    assert FitsFirst(proc, a, syls[n], slots[..n], slots[n]);
    forall i | 0 <= i < n
      ensures FitsFirst(proc, a, syls[..n][i], slots[..n][..i], slots[..n][i])
    {
      assert slots[..n][..i] == slots[..i];
    }
  }

  lemma {:induction false} FilledBefore(a: Bundle, syls: seq<AsmSyllable>, slots: seq<nat>, c: Bundle)
    requires syls != [] && Filled(a, syls, slots, c)
    requires var n := |syls| - 1; slots[n] !in slots[..n] && slots[n] < |a| && a[slots[n]].None?
    ensures var n := |syls| - 1; var b := c[slots[n] := None];
            Filled(a, syls[..n], slots[..n], b) && c == b[slots[n] := Some(syls[n])]
  {
    var n := |syls| - 1;
    forall i | 0 <= i < n
      ensures slots[i] != slots[n]
    {
      assert slots[i] == slots[..n][i];
    }
    forall q: nat | q < |a| && q !in slots[..n] && q != slots[n]
      ensures q !in slots
    {
    }
  }

  lemma {:induction false} FitPlaced(proc: Processor, a: Bundle, syls: seq<AsmSyllable>, slots: seq<nat>, c: Bundle)
    requires FirstFit(proc, a, syls, slots) && Filled(a, syls, slots, c)
    ensures PlaceAll(proc, a, syls) == Some(c)
  {
    if syls != [] {
      var n := |syls| - 1;
      var b := c[slots[n] := None];
      FitBefore(proc, a, syls, slots);
      FilledBefore(a, syls, slots, c);
      FitPlaced(proc, a, syls[..n], slots[..n], b);
      StillOpen(proc, a, syls[..n], slots[..n], b, OpcodeOf(syls[n]).value);
      assert FirstOpenSlot(proc, b, OpcodeOf(syls[n]).value, 0) == Some(slots[n]);
    } else {
      assert c == a;
    }
  }

  // ----- Joining the bundle before -----

  /** The bundle with as many slots as the processor has. */
  predicate Resized(a: Bundle, width: nat, w: Bundle) {
    |w| == width && forall i :: 0 <= i < width ==> w[i] == if i < |a| then a[i] else None
  }

  lemma {:induction false} NormalizedIsResized(a: Bundle, width: nat, w: Bundle)
    ensures w == NormalizeSlots(a, width) <==> Resized(a, width, w)
  {
  }

  /** c is bundle a and bundle b together: b's syllables, in slot order, in the first slots of a they fit in. */
  ghost predicate Together(proc: Processor, a: Bundle, b: Bundle, c: Bundle) {
    exists w, slots :: Resized(a, proc.width, w) && FirstFit(proc, w, Syllables(b), slots) && Filled(w, Syllables(b), slots, c)
  }

  lemma {:induction false} MergedTogether(proc: Processor, a: Bundle, b: Bundle, c: Bundle)
    ensures MergeBundles(proc, a, b) == Some(c) <==> Together(proc, a, b, c)
  {
    var w := NormalizeSlots(a, proc.width);
    NormalizedIsResized(a, proc.width, w);
    if MergeBundles(proc, a, b) == Some(c) {
      var slots := PlacedFit(proc, w, Syllables(b));
      assert Resized(a, proc.width, w) && FirstFit(proc, w, Syllables(b), slots) && Filled(w, Syllables(b), slots, c);
    }
    if Together(proc, a, b, c) {
      var w', slots :| Resized(a, proc.width, w') && FirstFit(proc, w', Syllables(b), slots) && Filled(w', Syllables(b), slots, c);
      NormalizedIsResized(a, proc.width, w');
      FitPlaced(proc, w, Syllables(b), slots, c);
    }
  }

  /** Every register has arrived by the cycle. */
  ghost predicate AllArrived(table: ReadyState, cycle: nat) {
    forall k :: KeyReadyAt(table, k) <= cycle
  }

  /** So have the registers the bundle reads. */
  ghost predicate SourcesArrived(b: Bundle, table: ReadyState, cycle: nat) {
    forall syl, k :: syl in Syllables(b) && ReadsReg(syl, k) ==> KeyReadyAt(table, k) <= cycle
  }

  lemma {:induction false} NothingPendingExactlyWhen(table: ReadyState, cycle: nat)
    ensures AllArrived(table, cycle) <==> !HasPendingAt(table, cycle)
  {
    if AllArrived(table, cycle) {
      forall r | r in table.gpr
        ensures table.gpr[r] <= cycle
      {
        assert KeyReadyAt(table, RegKey(Gpr, PReg(r))) <= cycle;
      }
      forall p | p in table.pred
        ensures table.pred[p] <= cycle
      {
        assert KeyReadyAt(table, RegKey(Pred, PReg(p))) <= cycle;
      }
    }
  }

  lemma {:induction false} ReadyIsArrived(b: Bundle, cycle: nat, table: ReadyState)
    requires KnownBundle(b)
    ensures BundleReadyAt(b, cycle, table) <==> SourcesArrived(b, table, cycle)
  {
    if SourcesArrived(b, table, cycle) {
      forall syl | syl in Syllables(b)
        ensures SyllableReadyAt(syl, cycle, table)
      {
        assert forall k :: k in SourceKeys(OpcodeOf(syl).value, syl.operands) ==> ReadsReg(syl, k);
      }
    }
  }

  /**
   * b joins the last bundle, as c: that one holds something and no terminator, all results written so far arrive
   * by the next cycle, b's sources have arrived one cycle before, and the joined bundle is legal.
   */
  ghost predicate JoinsLast(proc: Processor, out: seq<Bundle>, b: Bundle, start: nat, ready: ReadyState, c: Bundle) {
    && out != []
    && var n := |out| - 1;
    && !IsEmptyBundle(out[n]) && !IsTerminatorBundle(out[n])
    && AllArrived(AfterBundles(out, start, ready), start + |out|)
    && SourcesArrived(b, AfterBundles(out[..n], start, ready), start + n)
    && Together(proc, out[n], b, c) && LegalBundle(proc, c)
  }

  lemma {:induction false} MergedExactlyWhen(proc: Processor, out: seq<Bundle>, b: Bundle, start: nat, ready: ReadyState, c: Bundle)
    requires KnownBundle(b)
    ensures Merged(proc, out, b, start, ready) == Some(c) <==> JoinsLast(proc, out, b, start, ready, c)
  {
    if out != [] {
      var n := |out| - 1;
      NothingPendingExactlyWhen(AfterBundles(out, start, ready), start + |out|);
      ReadyIsArrived(b, start + n, AfterBundles(out[..n], start, ready));
      MergedTogether(proc, out[n], b, c);
    }
  }

  // ----- One step -----

  /** After n more nops the sources of b have arrived. */
  ghost predicate ArrivedAfter(out: seq<Bundle>, b: Bundle, start: nat, ready: ReadyState, n: nat) {
    SourcesArrived(b, AfterBundles(out, start, ready), start + |out| + n)
  }

  ghost predicate FewestNops(out: seq<Bundle>, b: Bundle, start: nat, ready: ReadyState, pads: nat) {
    ArrivedAfter(out, b, start, ready, pads) && forall n: nat :: n < pads ==> !ArrivedAfter(out, b, start, ready, n)
  }

  lemma {:induction false} ArrivedAfterExactlyWhen(out: seq<Bundle>, b: Bundle, start: nat, ready: ReadyState, n: nat)
    requires KnownBundle(b)
    ensures ArrivedAfter(out, b, start, ready, n) <==> n >= PadCount(out, b, start, ready)
  {
    var table, at := AfterBundles(out, start, ready), start + |out| + n;
    ReadyIsArrived(b, at, table);
    ReadyFromRequired(b, at, table);
  }

  lemma {:induction false} PadCountExactlyWhen(out: seq<Bundle>, b: Bundle, start: nat, ready: ReadyState, pads: nat)
    requires KnownBundle(b)
    ensures pads == PadCount(out, b, start, ready) <==> FewestNops(out, b, start, ready, pads)
  {
    forall n: nat
      ensures ArrivedAfter(out, b, start, ready, n) <==> n >= PadCount(out, b, start, ready)
    {
      ArrivedAfterExactlyWhen(out, b, start, ready, n);
    }
    assert ArrivedAfter(out, b, start, ready, PadCount(out, b, start, ready));
  }

  /** Bundle b joins the last bundle when it can; when not, it follows after the fewest nops. Empty bundles are kept. */
  ghost predicate GreedyNext(proc: Processor, out: seq<Bundle>, b: Bundle, start: nat, ready: ReadyState, out': seq<Bundle>) {
    if IsEmptyBundle(b) then out' == out + [b]
    else
      || (exists c :: JoinsLast(proc, out, b, start, ready, c) && out' == out[..|out| - 1] + [c])
      || ((forall c :: !JoinsLast(proc, out, b, start, ready, c))
          && exists pads :: FewestNops(out, b, start, ready, pads) && out' == out + Nops(pads) + [b])
  }

  lemma {:induction false} JoiningStep(proc: Processor, out: seq<Bundle>, b: Bundle, start: nat, ready: ReadyState, c: Bundle)
    requires KnownBundle(b) && !IsEmptyBundle(b) && JoinsLast(proc, out, b, start, ready, c)
    ensures PackStep(proc, out, b, start, ready) == out[..|out| - 1] + [c]
  {
    MergedExactlyWhen(proc, out, b, start, ready, c);
    SplitLast(out, c);
  }

  lemma {:induction false} FollowingStep(proc: Processor, out: seq<Bundle>, b: Bundle, start: nat, ready: ReadyState)
    requires KnownBundle(b) && !IsEmptyBundle(b) && forall c :: !JoinsLast(proc, out, b, start, ready, c)
    ensures PackStep(proc, out, b, start, ready) == out + Nops(PadCount(out, b, start, ready)) + [b]
  {
    if Merged(proc, out, b, start, ready).Some? {
      MergedExactlyWhen(proc, out, b, start, ready, Merged(proc, out, b, start, ready).value);
    }
  }

  /** One step of the packer, for bundles of any occupancy, any start cycle and any table. */
  lemma {:induction false} PackStepExactlyWhen(proc: Processor, out: seq<Bundle>, b: Bundle, start: nat, ready: ReadyState, out': seq<Bundle>)
    requires KnownBundle(b)
    ensures out' == PackStep(proc, out, b, start, ready) <==> GreedyNext(proc, out, b, start, ready, out')
  {
    if !IsEmptyBundle(b) {
      forall c | JoinsLast(proc, out, b, start, ready, c)
        ensures PackStep(proc, out, b, start, ready) == out[..|out| - 1] + [c]
      {
        JoiningStep(proc, out, b, start, ready, c);
      }
      if forall c :: !JoinsLast(proc, out, b, start, ready, c) {
        FollowingStep(proc, out, b, start, ready);
        forall pads: nat
          ensures pads == PadCount(out, b, start, ready) <==> FewestNops(out, b, start, ready, pads)
        {
          PadCountExactlyWhen(out, b, start, ready, pads);
        }
      }
    }
  }

  // ----- One segment -----

  ghost predicate GreedyRun(proc: Processor, segment: seq<Bundle>, start: nat, ready: ReadyState, outs: seq<seq<Bundle>>) {
    && |outs| == |segment| + 1 && outs[0] == []
    && forall n :: 0 <= n < |segment| ==> GreedyNext(proc, outs[n], segment[n], start, ready, outs[n + 1])
  }

  lemma {:induction false} GreedyRunIs(proc: Processor, segment: seq<Bundle>, start: nat, ready: ReadyState, outs: seq<seq<Bundle>>, n: nat)
    requires KnownSegment(segment) && GreedyRun(proc, segment, start, ready, outs) && n <= |segment|
    ensures outs[n] == PackSegment(proc, segment[..n], start, ready)
  {
    if n > 0 {
      GreedyRunIs(proc, segment, start, ready, outs, n - 1);
      assert segment[..n][..n - 1] == segment[..n - 1];
      PackStepExactlyWhen(proc, outs[n - 1], segment[n - 1], start, ready, outs[n - 1 + 1]);
    }
  }

  lemma {:induction false} PrefixGreedy(proc: Processor, segment: seq<Bundle>, start: nat, ready: ReadyState, n: nat)
    requires KnownSegment(segment) && n < |segment|
    ensures GreedyNext(proc, PackSegment(proc, segment[..n], start, ready), segment[n], start, ready, PackSegment(proc, segment[..n + 1], start, ready))
  {
    assert segment[..n + 1][..n] == segment[..n];
    PackStepExactlyWhen(proc, PackSegment(proc, segment[..n], start, ready), segment[n], start, ready, PackSegment(proc, segment[..n + 1], start, ready));
  }

  lemma {:induction false} GreedyRunExists(proc: Processor, segment: seq<Bundle>, start: nat, ready: ReadyState) returns (outs: seq<seq<Bundle>>)
    requires KnownSegment(segment)
    ensures GreedyRun(proc, segment, start, ready, outs) && outs[|segment|] == PackSegment(proc, segment, start, ready)
  {
    outs := seq(|segment| + 1, n requires 0 <= n <= |segment| => PackSegment(proc, segment[..n], start, ready));
    forall n | 0 <= n < |segment|
      ensures GreedyNext(proc, outs[n], segment[n], start, ready, outs[n + 1])
    {
      PrefixGreedy(proc, segment, start, ready, n);
    }
    assert segment[..|segment|] == segment;
  }

  /** A segment is packed greedily, bundle by bundle, and in no other way. */
  lemma {:induction false} PackSegmentExactlyWhen(proc: Processor, segment: seq<Bundle>, start: nat, ready: ReadyState, out: seq<Bundle>)
    requires KnownSegment(segment)
    ensures out == PackSegment(proc, segment, start, ready) <==>
            exists outs :: GreedyRun(proc, segment, start, ready, outs) && outs[|segment|] == out
  {
    if out == PackSegment(proc, segment, start, ready) {
      var outs := GreedyRunExists(proc, segment, start, ready);
    }
    if exists outs :: GreedyRun(proc, segment, start, ready, outs) && outs[|segment|] == out {
      var outs :| GreedyRun(proc, segment, start, ready, outs) && outs[|segment|] == out;
      GreedyRunIs(proc, segment, start, ready, outs, |segment|);
      assert segment[..|segment|] == segment;
    }
  }

  // ----- Segment after segment -----

  /** The packer's clock and table are those of the bundles it has packed. */
  ghost predicate OnClock(st: PackState) {
    st.cycle == |BundlesOf(st.packed)| && st.ready == AfterBundles(BundlesOf(st.packed), 0, ALL_READY)
  }

  lemma {:induction false} BundlesOnClock(st: PackState, bs: seq<Bundle>)
    requires OnClock(st)
    ensures OnClock(PackState(st.packed + AsItems(bs), [], AfterBundles(bs, st.cycle, st.ready), st.cycle + |bs|))
  {
    BundlesOfBundles(st.packed, bs);
    InTimeTogether(BundlesOf(st.packed), bs, 0, ALL_READY);
  }

  lemma {:induction false} FlushOnClock(proc: Processor, st: PackState)
    requires OnClock(st)
    ensures OnClock(Flush(proc, st))
  {
    BundlesOnClock(st, PackSegment(proc, st.segment, st.cycle, st.ready));
  }

  lemma {:induction false} TerminatorOnClock(st: PackState, b: Bundle)
    requires OnClock(st)
    ensures OnClock(PackState(st.packed + [BundleItem(b)], [], AfterBundle(b, st.cycle, st.ready), st.cycle + 1))
  {
    BundlesOfAppend(st.packed, BundleItem(b));
    PushInTime(BundlesOf(st.packed), b, 0, ALL_READY, st.cycle, st.ready);
  }

  lemma {:induction false} LabelOnClock(st: PackState, item: Item)
    requires OnClock(st) && item.LabelItem?
    ensures OnClock(st.(packed := st.packed + [item]))
  {
    BundlesOfAppend(st.packed, item);
  }

  lemma {:induction false} ItemOnClock(proc: Processor, st: PackState, item: Item)
    requires OnClock(st)
    ensures OnClock(PackItem(proc, st, item))
  {
    FlushOnClock(proc, st);
    if item.LabelItem? {
      LabelOnClock(Flush(proc, st), item);
    } else if IsTerminatorBundle(item.bundle) {
      TerminatorOnClock(Flush(proc, st), item.bundle);
    }
  }

  /** Every segment is packed in the cycle, and with the table, that all bundles packed before it leave. */
  lemma {:induction false} PackItemsOnClock(proc: Processor, items: seq<Item>)
    ensures OnClock(PackItems(proc, items))
  {
    if items != [] {
      var n := |items| - 1;
      PackItemsOnClock(proc, items[..n]);
      ItemOnClock(proc, PackItems(proc, items[..n]), items[n]);
    }
  }
}
