/** Packing a whole function: no extra nops, and every syllable at or before its scalar cycle. */
module PackLanding {
  import opened Collections
  import opened Asm
  import opened Ready
  import opened Timing
  import opened Packer
  import opened PackedProgram
  import opened EmittedStream
  import opened PackLength

  // ----- No padding -----

  /** Nops added when the waiting segment is packed. */
  ghost function FlushPadding(proc: Processor, st: PackState): nat {
    PaddingIn(proc, st.segment, st.cycle, st.ready)
  }

  ghost function ItemsPadding(proc: Processor, items: seq<Item>): nat {
    if items == [] then 0
    else
      var n := |items| - 1;
      ItemsPadding(proc, items[..n]) + if IsDelimiter(items[n]) then FlushPadding(proc, PackItems(proc, items[..n])) else 0
  }

  /** Nops the packer adds to the whole stream. */
  ghost function ProgramPadding(proc: Processor, items: seq<Item>): nat {
    ItemsPadding(proc, items) + FlushPadding(proc, PackItems(proc, items))
  }

  /** The packer's clock and table are ahead of the scalar stream `done` it has packed. */
  ghost predicate StateAhead(st: PackState, done: seq<Bundle>) {
    Ahead(st.ready, st.cycle, AfterBundles(done, 0, ALL_READY), |done|) && st.cycle == |BundlesOf(st.packed)|
  }

  lemma {:induction false} SegmentDone(out: seq<Bundle>, start: nat, ready: ReadyState, done: seq<Bundle>, segment: seq<Bundle>)
    requires SegmentAhead(out, start, ready, segment, |done|, AfterBundles(done, 0, ALL_READY))
    ensures Ahead(AfterBundles(out, start, ready), start + |out|, AfterBundles(done + segment, 0, ALL_READY), |done + segment|)
  {
    InTimeTogether(done, segment, 0, ALL_READY);
  }

  lemma {:induction false} SegmentInTime(done: seq<Bundle>, segment: seq<Bundle>)
    requires InTime(done + segment, 0, ALL_READY)
    ensures InTime(segment, |done|, AfterBundles(done, 0, ALL_READY))
  {
    InTimeTogether(done, segment, 0, ALL_READY);
  }

  lemma {:induction false} FlushAdvances(proc: Processor, st: PackState)
    requires st.cycle == |BundlesOf(st.packed)|
    ensures Flush(proc, st).cycle == |BundlesOf(Flush(proc, st).packed)|
  {
    BundlesOfBundles(st.packed, PackSegment(proc, st.segment, st.cycle, st.ready));
  }

  lemma {:induction false} PackedSegmentAhead(proc: Processor, segment: seq<Bundle>, cycle: nat, ready: ReadyState, done: seq<Bundle>, out: seq<Bundle>)
    requires Ahead(ready, cycle, AfterBundles(done, 0, ALL_READY), |done|) && out == PackSegment(proc, segment, cycle, ready)
    requires SingleBundles(proc, segment) && InTime(done + segment, 0, ALL_READY)
    ensures Ahead(AfterBundles(out, cycle, ready), cycle + |out|, AfterBundles(done + segment, 0, ALL_READY), |done + segment|)
  {
    assert SegmentAhead(out, cycle, ready, segment, |done|, AfterBundles(done, 0, ALL_READY)) by {
      SegmentInTime(done, segment);
      SegmentStaysAhead(proc, segment, cycle, ready, |done|, AfterBundles(done, 0, ALL_READY));
    }
    SegmentDone(out, cycle, ready, done, segment);
  }

  lemma {:induction false} FlushFields(proc: Processor, st: PackState, out: seq<Bundle>)
    requires out == PackSegment(proc, st.segment, st.cycle, st.ready)
    ensures Flush(proc, st).ready == AfterBundles(out, st.cycle, st.ready) && Flush(proc, st).cycle == st.cycle + |out|
  {
  }

  lemma {:induction false} FlushIsAhead(proc: Processor, st: PackState, done: seq<Bundle>)
    requires StateAhead(st, done) && SingleBundles(proc, st.segment) && InTime(done + st.segment, 0, ALL_READY)
    ensures StateAhead(Flush(proc, st), done + st.segment)
  {
    var out := PackSegment(proc, st.segment, st.cycle, st.ready);
    FlushAdvances(proc, st);
    FlushFields(proc, st, out);
    PackedSegmentAhead(proc, st.segment, st.cycle, st.ready, done, out);
  }

  lemma {:induction false} NoFlushPadding(proc: Processor, st: PackState, done: seq<Bundle>)
    requires StateAhead(st, done) && SingleBundles(proc, st.segment) && InTime(done + st.segment, 0, ALL_READY)
    ensures FlushPadding(proc, st) == 0
  {
    SegmentInTime(done, st.segment);
    SegmentStaysAhead(proc, st.segment, st.cycle, st.ready, |done|, AfterBundles(done, 0, ALL_READY));
  }

  lemma {:induction false} FlushStaysAhead(proc: Processor, st: PackState, done: seq<Bundle>)
    requires StateAhead(st, done) && SingleBundles(proc, st.segment) && InTime(done + st.segment, 0, ALL_READY)
    ensures StateAhead(Flush(proc, st), done + st.segment) && FlushPadding(proc, st) == 0
  {
    FlushIsAhead(proc, st, done);
    NoFlushPadding(proc, st, done);
  }

  lemma {:induction false} LabelStaysAhead(st: PackState, done: seq<Bundle>, item: Item)
    requires StateAhead(st, done) && item.LabelItem?
    ensures StateAhead(st.(packed := st.packed + [item]), done)
  {
    BundlesOfAppend(st.packed, item);
  }

  lemma {:induction false} TerminatorStaysAhead(st: PackState, done: seq<Bundle>, b: Bundle)
    requires StateAhead(st, done) && |Syllables(b)| <= 1
    ensures StateAhead(PackState(st.packed + [BundleItem(b)], [], AfterBundle(b, st.cycle, st.ready), st.cycle + 1), done + [b])
  {
    BundlesOfAppend(st.packed, BundleItem(b));
    AfterPush(done, b, 0, ALL_READY);
    PushStaysAhead(st.ready, st.cycle, AfterBundles(done, 0, ALL_READY), |done|, b);
  }

  /** The items are those bundles the packer has finished, then those that wait. */
  ghost predicate ItemsAhead(items: seq<Item>, st: PackState, done: seq<Bundle>) {
    BundlesOf(items) == done + st.segment && StateAhead(st, done)
  }

  lemma {:induction false} DelimiterStaysAhead(proc: Processor, st: PackState, done: seq<Bundle>, item: Item)
    requires StateAhead(Flush(proc, st), done) && IsDelimiter(item) && (item.BundleItem? ==> SingleBundle(proc, item.bundle))
    ensures StateAhead(PackItem(proc, st, item), if item.BundleItem? then done + [item.bundle] else done)
    ensures PackItem(proc, st, item).segment == []
  {
    if item.LabelItem? {
      LabelStaysAhead(Flush(proc, st), done, item);
    } else {
      TerminatorStaysAhead(Flush(proc, st), done, item.bundle);
    }
  }

  lemma {:induction false} ItemStaysAhead(proc: Processor, items: seq<Item>, item: Item, st: PackState, done: seq<Bundle>) returns (done': seq<Bundle>)
    requires ItemsAhead(items, st, done) && SingleBundles(proc, BundlesOf(items)) && InTime(BundlesOf(items), 0, ALL_READY)
    requires item.BundleItem? ==> SingleBundle(proc, item.bundle)
    ensures ItemsAhead(items + [item], PackItem(proc, st, item), done')
    ensures IsDelimiter(item) ==> FlushPadding(proc, st) == 0
  {
    BundlesOfAppend(items, item);
    if IsDelimiter(item) {
      WaitingAreSingle(proc, done, st.segment);
      FlushStaysAhead(proc, st, done);
      DelimiterStaysAhead(proc, st, done + st.segment, item);
      done' := BundlesOf(items + [item]);
      AppendNothing(done');
    } else {
      done' := done;
      Regroup(done, st.segment, item.bundle);
    }
  }

  lemma {:induction false} WaitingAreSingle(proc: Processor, done: seq<Bundle>, segment: seq<Bundle>)
    requires SingleBundles(proc, done + segment)
    ensures SingleBundles(proc, segment)
  {
    assert forall i :: 0 <= i < |segment| ==> (done + segment)[|done| + i] == segment[i];
  }

  lemma {:induction false} RunStaysAhead(proc: Processor, items: seq<Item>) returns (done: seq<Bundle>)
    requires SingleBundles(proc, BundlesOf(items)) && InTime(BundlesOf(items), 0, ALL_READY)
    ensures ItemsAhead(items, PackItems(proc, items), done) && ItemsPadding(proc, items) == 0
  {
    if items == [] {
      done := [];
    } else {
      var n := |items| - 1;
      SplitLast(items, items[n]);
      BundlesOfPrefix(proc, items, n);
      var done0 := RunStaysAhead(proc, items[..n]);
      done := ItemStaysAhead(proc, items[..n], items[n], PackItems(proc, items[..n]), done0);
    }
  }

  lemma {:induction false} BundlesOfPrefix(proc: Processor, items: seq<Item>, n: nat)
    requires n == |items| - 1 && SingleBundles(proc, BundlesOf(items)) && InTime(BundlesOf(items), 0, ALL_READY)
    ensures SingleBundles(proc, BundlesOf(items[..n])) && InTime(BundlesOf(items[..n]), 0, ALL_READY)
    ensures items[n].BundleItem? ==> SingleBundle(proc, items[n].bundle)
  {
    assert items[..n] + [items[n]] == items;
    BundlesOfAppend(items[..n], items[n]);
    if items[n].BundleItem? {
      var bs, b := BundlesOf(items[..n]), items[n].bundle;
      InTimeTogether(bs, [b], 0, ALL_READY);
      assert (bs + [b])[|bs|] == b;
      assert forall i :: 0 <= i < |bs| ==> (bs + [b])[i] == bs[i];
    }
  }

  /** A stream padded for latency is packed without a single extra nop, into no more bundles. */
  lemma {:induction false} PackingNeverLengthens(proc: Processor, items: seq<Item>)
    requires SingleBundles(proc, BundlesOf(items)) && InTime(BundlesOf(items), 0, ALL_READY)
    ensures |BundlesOf(PackProgram(proc, items))| <= |BundlesOf(items)|
    ensures ProgramPadding(proc, items) == 0
  {
    var st := PackItems(proc, items);
    var done := RunStaysAhead(proc, items);
    WaitingAreSingle(proc, done, st.segment);
    FlushStaysAhead(proc, st, done);
  }

  // ----- Where each syllable lands -----

  /** The later stream has every syllable of the earlier one in the same cycle. */
  ghost predicate Grows(bs: seq<Bundle>, bs': seq<Bundle>) {
    |bs| <= |bs'| && forall i, syl :: 0 <= i < |bs| && syl in Syllables(bs[i]) ==> syl in Syllables(bs'[i])
  }

  /** The last bundle has every syllable of b. */
  ghost predicate EndsWith(bs: seq<Bundle>, b: Bundle) {
    bs != [] && forall syl :: syl in Syllables(b) ==> syl in Syllables(bs[|bs| - 1])
  }

  lemma {:induction false} StepGrows(proc: Processor, out: seq<Bundle>, b: Bundle, start: nat, ready: ReadyState)
    requires WithinWidth(proc, out)
    ensures Grows(out, PackStep(proc, out, b, start, ready)) && EndsWith(PackStep(proc, out, b, start, ready), b)
  {
    if !IsEmptyBundle(b) && Merged(proc, out, b, start, ready).Some? {
      MergedIntoLast(proc, out, b, start, ready, Merged(proc, out, b, start, ready).value);
    }
  }

  lemma {:induction false} SegmentWidth(proc: Processor, segment: seq<Bundle>, start: nat, ready: ReadyState)
    requires WithinWidth(proc, segment)
    ensures WithinWidth(proc, PackSegment(proc, segment, start, ready))
  {
    if segment != [] {
      var n := |segment| - 1;
      SegmentWidth(proc, segment[..n], start, ready);
      StepWithinWidth(proc, PackSegment(proc, segment[..n], start, ready), segment[n], start, ready);
    }
  }

  lemma {:induction false} GrowsBehind(front: seq<Bundle>, bs: seq<Bundle>, bs': seq<Bundle>)
    requires Grows(bs, bs')
    ensures Grows(front + bs, front + bs')
  {
  }

  lemma {:induction false} EndsBehind(front: seq<Bundle>, bs: seq<Bundle>, b: Bundle)
    requires EndsWith(bs, b)
    ensures EndsWith(front + bs, b)
  {
  }

  lemma {:induction false} FlushedBundles(proc: Processor, st: PackState)
    ensures BundlesOf(Flush(proc, st).packed) == BundlesOf(st.packed) + PackSegment(proc, st.segment, st.cycle, st.ready)
  {
    BundlesOfBundles(st.packed, PackSegment(proc, st.segment, st.cycle, st.ready));
  }

  lemma {:induction false} DelimiterFlushed(proc: Processor, st: PackState, item: Item)
    requires IsDelimiter(item)
    ensures var bs := BundlesOf(Flush(proc, st).packed);
            BundlesOf(Flush(proc, PackItem(proc, st, item)).packed) == if item.BundleItem? then bs + [item.bundle] else bs
  {
    var st1 := PackItem(proc, st, item);
    FlushedBundles(proc, st1);
    BundlesOfAppend(Flush(proc, st).packed, item);
    AppendNothing(BundlesOf(st1.packed));
  }

  lemma {:induction false} BundleFlushed(proc: Processor, st: PackState, b: Bundle)
    requires WithinWidth(proc, st.segment) && !IsTerminatorBundle(b)
    ensures var bs, bs' := BundlesOf(Flush(proc, st).packed), BundlesOf(Flush(proc, PackItem(proc, st, BundleItem(b))).packed);
            Grows(bs, bs') && EndsWith(bs', b)
  {
    var st1 := PackItem(proc, st, BundleItem(b));
    var out, out' := PackSegment(proc, st.segment, st.cycle, st.ready), PackSegment(proc, st1.segment, st.cycle, st.ready);
    FlushedBundles(proc, st);
    FlushedBundles(proc, st1);
    assert out' == PackStep(proc, out, b, st.cycle, st.ready) by {
      assert st1.segment[..|st.segment|] == st.segment;
    }
    SegmentWidth(proc, st.segment, st.cycle, st.ready);
    StepGrows(proc, out, b, st.cycle, st.ready);
    GrowsBehind(BundlesOf(st.packed), out, out');
    EndsBehind(BundlesOf(st.packed), out', b);
  }

  ghost function Packed(proc: Processor, items: seq<Item>): seq<Bundle> {
    BundlesOf(PackProgram(proc, items))
  }

  lemma {:induction false} WaitingWidth(proc: Processor, items: seq<Item>)
    requires PlainItems(proc, items)
    ensures WithinWidth(proc, PackItems(proc, items).segment)
  {
    PackItemsInvariant(proc, items);
  }

  /** One more item only adds to what has been packed, and its syllables are in the last bundle. */
  lemma {:induction false} ItemLands(proc: Processor, items: seq<Item>, item: Item)
    requires PlainItems(proc, items)
    ensures Grows(Packed(proc, items), Packed(proc, items + [item]))
    ensures item.BundleItem? ==> EndsWith(Packed(proc, items + [item]), item.bundle)
  {
    var st := PackItems(proc, items);
    assert PackItems(proc, items + [item]) == PackItem(proc, st, item) by {
      assert (items + [item])[..|items|] == items;
    }
    if IsDelimiter(item) {
      DelimiterFlushed(proc, st, item);
    } else {
      WaitingWidth(proc, items);
      BundleFlushed(proc, st, item.bundle);
    }
  }

  lemma {:induction false} PrefixLands(proc: Processor, items: seq<Item>, n: nat)
    requires PlainItems(proc, items) && n <= |items|
    ensures Grows(Packed(proc, items[..n]), Packed(proc, items))
    decreases |items|
  {
    if n == |items| {
      assert items[..n] == items;
    } else {
      var m := |items| - 1;
      assert items[..m][..n] == items[..n];
      PrefixLands(proc, items[..m], n);
      ItemLands(proc, items[..m], items[m]);
      SplitLast(items, items[m]);
    }
  }

  /** The cycle of the packed bundle that is the last one when item n has been packed. */
  ghost function LandingCycle(proc: Processor, items: seq<Item>, n: nat): int
    requires n < |items|
  {
    |Packed(proc, items[..n + 1])| - 1
  }

  /**
   * Every bundle of a latency-padded stream lands at or before its scalar cycle: its syllables are all in the packed
   * bundle of its landing cycle, which is no later.
   */
  lemma {:induction false} LandsInTime(proc: Processor, items: seq<Item>, n: nat)
    requires SingleBundles(proc, BundlesOf(items)) && InTime(BundlesOf(items), 0, ALL_READY) && PlainItems(proc, items)
    requires n < |items| && items[n].BundleItem?
    ensures var cycle := LandingCycle(proc, items, n);
            && 0 <= cycle <= |BundlesOf(items[..n])| && cycle < |Packed(proc, items)|
            && forall syl :: syl in Syllables(items[n].bundle) ==> syl in Syllables(Packed(proc, items)[cycle])
  {
    TakeNext(items, n);
    PrefixIsShort(proc, items, n);
    ItemLands(proc, items[..n], items[n]);
    PrefixLands(proc, items, n + 1);
  }

  lemma {:induction false} PrefixIsShort(proc: Processor, items: seq<Item>, n: nat)
    requires SingleBundles(proc, BundlesOf(items)) && InTime(BundlesOf(items), 0, ALL_READY)
    requires n < |items| && items[n].BundleItem?
    ensures |Packed(proc, items[..n + 1])| <= |BundlesOf(items[..n])| + 1
  {
    PrefixInTime(proc, items, n + 1);
    PackingNeverLengthens(proc, items[..n + 1]);
    TakeNext(items, n);
    BundlesOfAppend(items[..n], items[n]);
  }

  /** Landing cycles follow the text order. */
  lemma {:induction false} LandingInOrder(proc: Processor, items: seq<Item>, m: nat, n: nat)
    requires PlainItems(proc, items) && m <= n < |items|
    ensures LandingCycle(proc, items, m) <= LandingCycle(proc, items, n)
  {
    assert items[..n + 1][..m + 1] == items[..m + 1];
    PrefixLands(proc, items[..n + 1], m + 1);
  }

  lemma {:induction false} PrefixInTime(proc: Processor, items: seq<Item>, n: nat)
    requires n <= |items| && SingleBundles(proc, BundlesOf(items)) && InTime(BundlesOf(items), 0, ALL_READY)
    ensures SingleBundles(proc, BundlesOf(items[..n])) && InTime(BundlesOf(items[..n]), 0, ALL_READY)
    decreases |items|
  {
    if n == |items| {
      assert items[..n] == items;
    } else {
      BundlesOfPrefix(proc, items, |items| - 1);
      PrefixInTime(proc, items[..|items| - 1], n);
      assert items[..|items| - 1][..n] == items[..n];
    }
  }
}
