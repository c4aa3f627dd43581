/** Packing a whole stream: delimiters stay where they are, segments keep their meaning. */
module PackedProgram {
  import opened Collections
  import opened Opcodes
  import opened Machine
  import opened Asm
  import opened AsmMeaning
  import opened Ready
  import opened Packer
  import opened PackerMeaning

  /** Labels and terminators separate segments. */
  predicate IsDelimiter(item: Item) {
    item.LabelItem? || IsTerminatorBundle(item.bundle)
  }

  function Delimiters(items: seq<Item>): seq<Item> {
    if items == [] then []
    else
      var n := |items| - 1;
      Delimiters(items[..n]) + if IsDelimiter(items[n]) then [items[n]] else []
  }

  /** The bundles before, between and after the delimiters. */
  function Segments(items: seq<Item>): (r: seq<seq<Bundle>>)
    ensures |r| == |Delimiters(items)| + 1
  {
    if items == [] then [[]]
    else
      var n := |items| - 1;
      var r := Segments(items[..n]);
      if IsDelimiter(items[n]) then r + [[]]
      else r[|r| - 1 := r[|r| - 1] + [items[n].bundle]]
  }

  lemma {:induction false} AppendItem(items: seq<Item>, item: Item)
    ensures Delimiters(items + [item]) == Delimiters(items) + (if IsDelimiter(item) then [item] else [])
    ensures var r := Segments(items);
            Segments(items + [item]) == if IsDelimiter(item) then r + [[]] else r[|r| - 1 := r[|r| - 1] + [item.bundle]]
  {
    assert (items + [item])[..|items|] == items;
  }

  predicate NoTerminators(bs: seq<Bundle>) {
    forall i :: 0 <= i < |bs| ==> !IsTerminatorBundle(bs[i])
  }

  lemma {:induction false} ExtendLast(r: seq<seq<Bundle>>, bs: seq<Bundle>, b: Bundle)
    requires r != []
    ensures var n := |r| - 1; var r1 := r[n := r[n] + bs]; r1[n := r1[n] + [b]] == r[n := r[n] + (bs + [b])]
  {
    var n := |r| - 1;
    assert r[n] + bs + [b] == r[n] + (bs + [b]);
  }

  lemma {:induction false} AppendBundles(items: seq<Item>, bs: seq<Bundle>)
    requires NoTerminators(bs)
    ensures Delimiters(items + AsItems(bs)) == Delimiters(items)
    ensures var r := Segments(items); Segments(items + AsItems(bs)) == r[|r| - 1 := r[|r| - 1] + bs]
    decreases |bs|
  {
    var r := Segments(items);
    if bs == [] {
      assert items + AsItems(bs) == items;
      assert r[|r| - 1] + bs == r[|r| - 1];
    } else {
      var n := |bs| - 1;
      AppendBundles(items, bs[..n]);
      AsItemsLast(items, bs);
      AppendItem(items + AsItems(bs[..n]), BundleItem(bs[n]));
      ExtendLast(r, bs[..n], bs[n]);
      TakeNext(bs, n);
    }
  }

  lemma {:induction false} AsItemsLast(items: seq<Item>, bs: seq<Bundle>)
    requires bs != []
    ensures var n := |bs| - 1; items + AsItems(bs) == items + AsItems(bs[..n]) + [BundleItem(bs[n])]
  {
  }

  // ----- No terminator appears or disappears -----

  lemma {:induction false} TerminatorSyllable(b: Bundle)
    ensures IsTerminatorBundle(b) <==> exists syl :: syl in Syllables(b) && IsTerminatorSyllable(syl)
  {
    if IsTerminatorBundle(b) {
      var i :| 0 <= i < |b| && b[i].Some? && IsTerminatorSyllable(b[i].value);
      SyllableInSlot(b, i);
    }
    if exists syl :: syl in Syllables(b) && IsTerminatorSyllable(syl) {
      var syl :| syl in Syllables(b) && IsTerminatorSyllable(syl);
      var i :| 0 <= i < |Syllables(b)| && Syllables(b)[i] == syl;
      assert b[SlotOf(b, i)] == Some(syl);
    }
  }

  lemma {:induction false} MergeNoTerminator(proc: Processor, a: Bundle, b: Bundle, c: Bundle)
    requires MergeBundles(proc, a, b) == Some(c) && |a| <= proc.width && !IsTerminatorBundle(a) && !IsTerminatorBundle(b)
    ensures !IsTerminatorBundle(c) && |c| == proc.width
  {
    MergeKeeps(proc, a, b);
    TerminatorSyllable(a);
    TerminatorSyllable(b);
    TerminatorSyllable(c);
    forall syl | syl in Syllables(c)
      ensures syl in Syllables(a) || syl in Syllables(b)
    {
      assert syl in multiset(Syllables(c));
      assert syl in multiset(Syllables(a)) || syl in multiset(Syllables(b));
    }
  }

  predicate PlainBundles(proc: Processor, bs: seq<Bundle>) {
    forall i :: 0 <= i < |bs| ==> |bs[i]| <= proc.width && !IsTerminatorBundle(bs[i])
  }

  lemma {:induction false} PackSegmentPlain(proc: Processor, segment: seq<Bundle>, start: nat, ready: ReadyState)
    requires PlainBundles(proc, segment)
    ensures PlainBundles(proc, PackSegment(proc, segment, start, ready))
  {
    if segment != [] {
      var n := |segment| - 1;
      var out, b := PackSegment(proc, segment[..n], start, ready), segment[n];
      PackSegmentPlain(proc, segment[..n], start, ready);
      if !IsEmptyBundle(b) {
        match Merged(proc, out, b, start, ready)
        case Some(c) => MergeNoTerminator(proc, out[|out| - 1], b, c);
        case None => NopsPlain(proc, PadCount(out, b, start, ready));
      }
    }
  }

  lemma {:induction false} NopsPlain(proc: Processor, n: nat)
    ensures PlainBundles(proc, Nops(n))
  {
    if n > 0 {
      NopsPlain(proc, n - 1);
    }
  }

  // ----- Segment by segment -----

  ghost predicate IsPacked(proc: Processor, segment: seq<Bundle>, packed: seq<Bundle>) {
    exists start, ready :: packed == PackSegment(proc, segment, start, ready)
  }

  predicate PlainItems(proc: Processor, items: seq<Item>) {
    forall i :: 0 <= i < |items| && items[i].BundleItem? && !IsTerminatorBundle(items[i].bundle) ==> |items[i].bundle| <= proc.width
  }

  /** Between two items: finished segments are packed, the current one waits. */
  ghost predicate PackInvariant(proc: Processor, items: seq<Item>, st: PackState) {
    var segs, done := Segments(items), Segments(st.packed);
    && Delimiters(st.packed) == Delimiters(items)
    && done[|done| - 1] == [] && st.segment == segs[|segs| - 1]
    && PlainBundles(proc, st.segment)
    && forall k :: 0 <= k < |segs| - 1 ==> IsPacked(proc, segs[k], done[k])
  }

  lemma {:induction false} FlushPacks(proc: Processor, items: seq<Item>, st: PackState)
    requires PackInvariant(proc, items, st)
    ensures var r := Flush(proc, st).packed;
            && Delimiters(r) == Delimiters(items)
            && forall k :: 0 <= k < |Segments(items)| ==> IsPacked(proc, Segments(items)[k], Segments(r)[k])
  {
    var bs := PackSegment(proc, st.segment, st.cycle, st.ready);
    PackSegmentPlain(proc, st.segment, st.cycle, st.ready);
    AppendBundles(st.packed, bs);
    assert [] + bs == bs;
    assert IsPacked(proc, st.segment, bs);
  }

  lemma {:induction false} ItemKeepsInvariant(proc: Processor, items: seq<Item>, st: PackState, item: Item)
    requires PackInvariant(proc, items, st)
    requires item.BundleItem? && !IsTerminatorBundle(item.bundle) ==> |item.bundle| <= proc.width
    ensures PackInvariant(proc, items + [item], PackItem(proc, st, item))
  {
    if IsDelimiter(item) {
      DelimiterKeepsInvariant(proc, items, st, item);
    } else {
      AppendItem(items, item);
    }
  }

  lemma {:induction false} DelimiterKeepsInvariant(proc: Processor, items: seq<Item>, st: PackState, item: Item)
    requires PackInvariant(proc, items, st) && IsDelimiter(item)
    ensures PackInvariant(proc, items + [item], PackItem(proc, st, item))
  {
    var r := Flush(proc, st).packed;
    FlushPacks(proc, items, st);
    AppendItem(items, item);
    AppendItem(r, item);
    assert PackItem(proc, st, item).packed == r + [item] && PackItem(proc, st, item).segment == [];
  }

  lemma {:induction false} PackItemsInvariant(proc: Processor, items: seq<Item>)
    requires PlainItems(proc, items)
    ensures PackInvariant(proc, items, PackItems(proc, items))
  {
    if items != [] {
      var n := |items| - 1;
      PackItemsInvariant(proc, items[..n]);
      ItemKeepsInvariant(proc, items[..n], PackItems(proc, items[..n]), items[n]);
      assert items[..n] + [items[n]] == items;
    }
  }

  /** Labels and terminators keep their order, each terminator alone in its bundle; what lies between is packed. */
  lemma {:induction false} PackProgramStructure(proc: Processor, items: seq<Item>)
    requires PlainItems(proc, items)
    ensures var r := PackProgram(proc, items);
            && Delimiters(r) == Delimiters(items)
            && forall k :: 0 <= k < |Segments(items)| ==> IsPacked(proc, Segments(items)[k], Segments(r)[k])
  {
    PackItemsInvariant(proc, items);
    FlushPacks(proc, items, PackItems(proc, items));
  }

  // ----- Control flow -----

  /**
   * Where control goes at a delimiter: any rule that looks at the delimiters, the current one and the state.
   * None stops the program.
   */
  type Control = (seq<Item>, nat, State) -> Option<nat>

  /** Run segment k, then follow control for at most `steps` delimiters. */
  function Walk(isa: Isa, items: seq<Item>, control: Control, k: nat, s: State, steps: nat): State
    decreases steps
  {
    if k >= |Segments(items)| then s
    else
      var s1 := RunBundles(isa, Segments(items)[k], s);
      if steps == 0 || k >= |Delimiters(items)| then s1
      else
        match control(Delimiters(items), k, s1)
        case None => s1
        case Some(k') => Walk(isa, items, control, k', s1, steps - 1)
  }

  /** Every segment of items and the segment of r in its place are such that packing keeps the meaning. */
  ghost predicate SegmentsOrderly(proc: Processor, items: seq<Item>, r: seq<Item>) {
    |Segments(r)| == |Segments(items)| && forall k :: 0 <= k < |Segments(items)| ==> SegmentOrderly(proc, Segments(items)[k], Segments(r)[k])
  }

  /**
   * Every run of the packed program, wherever control goes, reaches the states the scalar program reaches, if
   * within no packed bundle a syllable writes a predicate or a byte that a later one is concerned with.
   */
  lemma {:induction false} PackProgramPreservesMeaning(isa: Isa, proc: Processor, items: seq<Item>, control: Control, k: nat, s: State, steps: nat)
    requires PlainItems(proc, items) && SegmentsOrderly(proc, items, PackProgram(proc, items))
    ensures Walk(isa, PackProgram(proc, items), control, k, s, steps) == Walk(isa, items, control, k, s, steps)
  {
    PackProgramStructure(proc, items);
    SameWalk(isa, proc, items, PackProgram(proc, items), control, k, s, steps);
  }

  ghost predicate SegmentsPacked(proc: Processor, items: seq<Item>, r: seq<Item>) {
    && Delimiters(r) == Delimiters(items)
    && forall k :: 0 <= k < |Segments(items)| ==> IsPacked(proc, Segments(items)[k], Segments(r)[k])
  }

  lemma {:induction false} SameWalk(isa: Isa, proc: Processor, items: seq<Item>, r: seq<Item>, control: Control, k: nat, s: State, steps: nat)
    requires SegmentsPacked(proc, items, r) && SegmentsOrderly(proc, items, r)
    ensures Walk(isa, r, control, k, s, steps) == Walk(isa, items, control, k, s, steps)
    decreases steps
  {
    if k < |Segments(items)| {
      SegmentPreserved(isa, proc, Segments(items)[k], Segments(r)[k], s);
      var s1 := RunBundles(isa, Segments(items)[k], s);
      if steps > 0 && k < |Delimiters(items)| {
        match control(Delimiters(items), k, s1)
        case None =>
        case Some(k') => SameWalk(isa, proc, items, r, control, k', s1, steps - 1);
      }
    }
  }

  lemma {:induction false} SegmentPreserved(isa: Isa, proc: Processor, segment: seq<Bundle>, packed: seq<Bundle>, s: State)
    requires SegmentOrderly(proc, segment, packed) && IsPacked(proc, segment, packed)
    ensures RunBundles(isa, packed, s) == RunBundles(isa, segment, s)
  {
    var start, ready :| packed == PackSegment(proc, segment, start, ready);
    PackSegmentPreservesMeaning(isa, proc, segment, start, ready, s);
  }

  /** With one memory slot it is enough that in no segment a predicate is read or overwritten behind its writer. */
  lemma {:induction false} ScalarSegmentsOrderly(proc: Processor, items: seq<Item>)
    requires OneMemorySlot(proc) && PlainItems(proc, items)
    requires forall k :: 0 <= k < |Segments(items)| ==> ScalarSegment(proc, Segments(items)[k])
    ensures SegmentsOrderly(proc, items, PackProgram(proc, items))
  {
    var r := PackProgram(proc, items);
    PackProgramStructure(proc, items);
    forall k | 0 <= k < |Segments(items)|
      ensures SegmentOrderly(proc, Segments(items)[k], Segments(r)[k])
    {
      var start, ready :| Segments(r)[k] == PackSegment(proc, Segments(items)[k], start, ready);
      ScalarSegmentOrderly(proc, Segments(items)[k], start, ready);
    }
  }
}
