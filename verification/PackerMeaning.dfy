/** Packed bundles compute what the one-per-bundle stream computes. */
module PackerMeaning {
  import opened Collections
  import opened Opcodes
  import opened Mir
  import opened Machine
  import opened Asm
  import opened AsmMeaning
  import opened BundleVerifier
  import opened Ready
  import opened Packer

  // ----- Merging keeps every syllable -----

  lemma {:induction false} NoneAppended(b: Bundle, n: nat)
    ensures Syllables(b + seq(n, _ => None)) == Syllables(b)
  {
    var b' := b + seq(n, _ => None);
    if n == 0 {
      assert b' == b;
    } else {
      assert b'[..|b'| - 1] == b + seq(n - 1, _ => None);
      NoneAppended(b, n - 1);
    }
  }

  lemma {:induction false} NormalizeKeeps(b: Bundle, width: nat)
    requires |b| <= width
    ensures Syllables(NormalizeSlots(b, width)) == Syllables(b)
  {
    if width <= |b| {
      assert b[..width] == b;
    } else {
      NoneAppended(b, width - |b|);
    }
  }

  lemma {:induction false} PlaceAllKeeps(proc: Processor, b: Bundle, syls: seq<AsmSyllable>)
    requires PlaceAll(proc, b, syls).Some?
    ensures var c := PlaceAll(proc, b, syls).value;
            |c| == |b| && multiset(Syllables(c)) == multiset(Syllables(b)) + multiset(syls)
  {
    if syls != [] {
      var n := |syls| - 1;
      PlaceAllKeeps(proc, b, syls[..n]);
      var b1 := PlaceAll(proc, b, syls[..n]).value;
      var slot := FirstOpenSlot(proc, b1, OpcodeOf(syls[n]).value, 0).value;
      FillSlot(b1, slot, syls[n]);
      assert syls == syls[..n] + [syls[n]];
    }
  }

  /** A merged bundle holds the syllables of both, each exactly once. */
  lemma {:induction false} MergeKeeps(proc: Processor, a: Bundle, b: Bundle)
    requires MergeBundles(proc, a, b).Some? && |a| <= proc.width
    ensures var c := MergeBundles(proc, a, b).value;
            |c| == proc.width && multiset(Syllables(c)) == multiset(Syllables(a)) + multiset(Syllables(b))
  {
    NormalizeKeeps(a, proc.width);
    PlaceAllKeeps(proc, NormalizeSlots(a, proc.width), Syllables(b));
  }

  // ----- Predicates and memory -----

  lemma {:induction false} TwoPositions<T>(x: T, y: T, b: seq<T>) returns (p: nat, q: nat)
    requires multiset{x, y} <= multiset(b)
    ensures p < |b| && q < |b| && p != q && b[p] == x && b[q] == y
  {
    assert multiset{x, y}[x] >= 1;
    assert x in multiset(b);
    p :| 0 <= p < |b| && b[p] == x;
    RemoveAt(b, p);
    var rest := b[..p] + b[p + 1..];
    assert y in multiset(rest) by {
      assert multiset{x, y}[y] == multiset{x}[y] + 1;
      assert multiset(b)[y] == multiset(rest)[y] + multiset{x}[y];
    }
    var i :| 0 <= i < |rest| && rest[i] == y;
    q := if i < p then i else i + 1;
  }

  lemma {:induction false} PairInSeq<T>(a: seq<T>, i: nat, j: nat)
    requires i < j < |a|
    ensures multiset{a[i], a[j]} <= multiset(a)
  {
    assert a == a[..i] + [a[i]] + a[i + 1..j] + [a[j]] + a[j + 1..];
  }

  /** The later of two syllables neither reads nor overwrites a predicate the earlier one writes. */
  ghost predicate PredicatesInOrder(x: AsmSyllable, y: AsmSyllable) {
    forall k: RegKey :: k.cls == Pred ==> !(Writes(DecodeAsm(x), k) && (Reads(DecodeAsm(y), k) || Writes(DecodeAsm(y), k)))
  }

  ghost predicate PredicatesOrderly(text: seq<AsmSyllable>) {
    forall i, j :: 0 <= i < j < |text| ==> PredicatesInOrder(text[i], text[j])
  }

  /** The later of two syllables does not access a byte the earlier one stores. */
  ghost predicate StoresInOrder(x: AsmSyllable, y: AsmSyllable) {
    DecodeAsm(x).Store? ==> NeverMeet(DecodeAsm(x), DecodeAsm(y))
  }

  ghost predicate StoresOrderly(text: seq<AsmSyllable>) {
    forall i, j :: 0 <= i < j < |text| ==> StoresInOrder(text[i], text[j])
  }

  /** Only one slot of the processor can execute loads and stores. */
  predicate OneMemorySlot(proc: Processor) {
    forall i, j :: 0 <= i < j < |proc.slotUnits| ==> !(SlotHasUnitFor(proc, i, LoadD) && SlotHasUnitFor(proc, j, LoadD))
  }

  /** Then a legal bundle has at most one access to memory. */
  lemma {:induction false} LegalIsMemoryFree(proc: Processor, b: Bundle)
    requires OneMemorySlot(proc) && LegalBundle(proc, b) && |b| <= proc.width
    ensures MemoryFree(Syllables(b))
  {
    var syls := Syllables(b);
    forall i, j | 0 <= i < j < |syls|
      ensures MemApart(DecodeAsm(syls[i]), DecodeAsm(syls[j]))
    {
      SlotsInOrder(b, i, j);
      if !DecodeAsm(syls[i]).Compute? && !DecodeAsm(syls[j]).Compute? {
        MemorySlotOf(proc, b, SlotOf(b, i));
        MemorySlotOf(proc, b, SlotOf(b, j));
      }
    }
  }

  lemma {:induction false} MemorySlotOf(proc: Processor, b: Bundle, slot: nat)
    requires LegalBundle(proc, b) && slot < |b| <= proc.width && b[slot].Some? && !DecodeAsm(b[slot].value).Compute?
    ensures SlotHasUnitFor(proc, slot, LoadD)
  {
    assert SlotLegal(proc, b, slot);
    var op := OpcodeOf(b[slot].value).value;
    assert Units(op) == Units(LoadD);
  }

  // ----- One bundle -----

  ghost predicate ScalarBundle(proc: Processor, b: Bundle) {
    && |b| <= proc.width && |Syllables(b)| <= 1 && LegalBundle(proc, b)
    && forall syl :: syl in Syllables(b) ==> WellFormed(syl)
  }

  ghost predicate ScalarBundles(proc: Processor, segment: seq<Bundle>) {
    forall i :: 0 <= i < |segment| ==> ScalarBundle(proc, segment[i])
  }

  ghost predicate PackedBundle(proc: Processor, b: Bundle) {
    |b| <= proc.width && LegalBundle(proc, b) && forall syl :: syl in Syllables(b) ==> WellFormed(syl)
  }

  ghost predicate PackedBundles(proc: Processor, out: seq<Bundle>) {
    forall i :: 0 <= i < |out| ==> PackedBundle(proc, out[i])
  }

  lemma {:induction false} DecodeRemove(b: seq<AsmSyllable>, m: nat)
    requires m < |b|
    ensures multiset(DecodeSyllables(b)) == multiset(DecodeSyllables(b[..m] + b[m + 1..])) + multiset{DecodeAsm(b[m])}
  {
    var ms := DecodeSyllables(b);
    RemoveAt(ms, m);
    assert ms[..m] + ms[m + 1..] == DecodeSyllables(b[..m] + b[m + 1..]);
  }

  lemma {:induction false} DecodePermutation(a: seq<AsmSyllable>, b: seq<AsmSyllable>)
    requires multiset(a) == multiset(b)
    ensures multiset(DecodeSyllables(a)) == multiset(DecodeSyllables(b))
    decreases |b|
  {
    if b == [] {
      assert |a| == |multiset(a)| == 0;
    } else {
      var m := PlaceOf(a, b);
      DecodePermutation(a[..m] + a[m + 1..], b[1..]);
      DecodeRemove(a, m);
      DecodeRest(b);
    }
  }

  lemma {:induction false} DecodeRest(b: seq<AsmSyllable>)
    requires b != []
    ensures multiset(DecodeSyllables(b)) == multiset(DecodeSyllables(b[1..])) + multiset{DecodeAsm(b[0])}
  {
    DecodeRemove(b, 0);
    assert b[..0] + b[0 + 1..] == b[1..];
  }

  /** Two syllables of an accepted bundle, in whatever order, are apart on the general registers. */
  lemma {:induction false} TextApartOnGprs(proc: Processor, b: Bundle, text: seq<AsmSyllable>, i: nat, j: nat)
    requires PackedBundle(proc, b) && multiset(text) == multiset(Syllables(b)) && i < j < |text|
    ensures ApartOn(Gpr, DecodeAsm(text[i]), DecodeAsm(text[j]))
  {
    PairInSeq(text, i, j);
    var p, q := TwoPositions(text[i], text[j], Syllables(b));
    if p < q {
      SlotsInOrder(b, p, q);
    } else {
      SlotsInOrder(b, q, p);
    }
    SlotsApartOnGprs(b, proc.width, SlotOf(b, p), SlotOf(b, q));
  }

  /** What the verifier sees and what it does not see: together the later syllable is not harmed. */
  lemma {:induction false} OrderlyIsHarmless(x: AsmSyllable, y: AsmSyllable)
    requires ApartOn(Gpr, DecodeAsm(x), DecodeAsm(y)) && PredicatesInOrder(x, y) && StoresInOrder(x, y)
    ensures Harmless(DecodeAsm(x), DecodeAsm(y)) && WritesApart(DecodeAsm(x), DecodeAsm(y))
  {
    forall k
      ensures !(Writes(DecodeAsm(x), k) && (Reads(DecodeAsm(y), k) || Writes(DecodeAsm(y), k)))
    {
      if k.cls == Gpr {
        assert ApartOn(Gpr, DecodeAsm(x), DecodeAsm(y));
      }
    }
  }

  /**
   * An accepted bundle does what its syllables do one after the other in text order, wherever its slots put them,
   * unless an earlier one writes a predicate or a byte a later one is concerned with.
   */
  lemma {:induction false} BundleInTextOrder(isa: Isa, proc: Processor, b: Bundle, text: seq<AsmSyllable>, s: State)
    requires PackedBundle(proc, b) && multiset(text) == multiset(Syllables(b))
    requires PredicatesOrderly(text) && StoresOrderly(text)
    ensures ExecBundle(isa, b, s) == Run(isa, DecodeSyllables(text), s)
  {
    var ms := DecodeSyllables(text);
    forall i, j | 0 <= i < j < |text|
      ensures Harmless(ms[i], ms[j]) && WritesApart(ms[i], ms[j])
    {
      TextApartOnGprs(proc, b, text, i, j);
      OrderlyIsHarmless(text[i], text[j]);
    }
    DecodePermutation(text, Syllables(b));
    WriteBackAnyOrder(isa, ms, DecodeSyllables(Syllables(b)), s, s);
    IssueIsRun(isa, ms, s);
  }

  // ----- Bundle by bundle -----

  /** The bundles hold the text cut into pieces, one piece each, with the slots of a bundle in any order. */
  ghost predicate Grouped(text: seq<AsmSyllable>, out: seq<Bundle>)
    decreases |out|
  {
    if out == [] then text == []
    else
      var n, k := |out| - 1, |text| - |Syllables(out[|out| - 1])|;
      k >= 0 && multiset(text[k..]) == multiset(Syllables(out[n])) && Grouped(text[..k], out[..n])
  }

  /** Within no bundle does a syllable write a predicate or a byte that a later one is concerned with. */
  ghost predicate GroupsOrderly(text: seq<AsmSyllable>, out: seq<Bundle>)
    requires Grouped(text, out)
    decreases |out|
  {
    out != [] ==>
      var n, k := |out| - 1, |text| - |Syllables(out[|out| - 1])|;
      PredicatesOrderly(text[k..]) && StoresOrderly(text[k..]) && GroupsOrderly(text[..k], out[..n])
  }

  lemma {:induction false} GroupedKeeps(text: seq<AsmSyllable>, out: seq<Bundle>)
    requires Grouped(text, out)
    ensures multiset(Flat(out)) == multiset(text)
    decreases |out|
  {
    if out != [] {
      var n, k := |out| - 1, |text| - |Syllables(out[|out| - 1])|;
      GroupedKeeps(text[..k], out[..n]);
      assert text == text[..k] + text[k..];
    }
  }

  lemma {:induction false} RunSyllables(isa: Isa, xs: seq<AsmSyllable>, ys: seq<AsmSyllable>, s: State)
    ensures Run(isa, DecodeSyllables(xs + ys), s) == Run(isa, DecodeSyllables(ys), Run(isa, DecodeSyllables(xs), s))
  {
    assert DecodeSyllables(xs + ys) == DecodeSyllables(xs) + DecodeSyllables(ys);
    RunAppend(isa, DecodeSyllables(xs), DecodeSyllables(ys), s);
  }

  /** Bundles that hold a text piece by piece do what the text does. */
  lemma {:induction false} GroupedMeaning(isa: Isa, proc: Processor, text: seq<AsmSyllable>, out: seq<Bundle>, s: State)
    requires PackedBundles(proc, out) && Grouped(text, out) && GroupsOrderly(text, out)
    ensures RunBundles(isa, out, s) == Run(isa, DecodeSyllables(text), s)
    decreases |out|
  {
    if out != [] {
      var n, k := |out| - 1, |text| - |Syllables(out[|out| - 1])|;
      GroupedMeaning(isa, proc, text[..k], out[..n], s);
      NextGroup(isa, proc, out, text[..k], text[k..], s);
      assert text == text[..k] + text[k..];
    }
  }

  lemma {:induction false} NextGroup(isa: Isa, proc: Processor, out: seq<Bundle>, front: seq<AsmSyllable>, back: seq<AsmSyllable>, s: State)
    requires out != [] && PackedBundle(proc, out[|out| - 1])
    requires multiset(back) == multiset(Syllables(out[|out| - 1])) && PredicatesOrderly(back) && StoresOrderly(back)
    requires RunBundles(isa, out[..|out| - 1], s) == Run(isa, DecodeSyllables(front), s)
    ensures RunBundles(isa, out, s) == Run(isa, DecodeSyllables(front + back), s)
  {
    BundleInTextOrder(isa, proc, out[|out| - 1], back, RunBundles(isa, out[..|out| - 1], s));
    RunSyllables(isa, front, back, s);
  }

  lemma {:induction false} OrderlyPiece(text: seq<AsmSyllable>, k: nat)
    requires k <= |text| && PredicatesOrderly(text)
    ensures PredicatesOrderly(text[..k]) && PredicatesOrderly(text[k..])
  {
  }

  lemma {:induction false} OneAccessIsOrderly(proc: Processor, b: Bundle, text: seq<AsmSyllable>)
    requires OneMemorySlot(proc) && PackedBundle(proc, b) && multiset(text) == multiset(Syllables(b))
    ensures StoresOrderly(text)
  {
    LegalIsMemoryFree(proc, b);
    forall i, j | 0 <= i < j < |text|
      ensures StoresInOrder(text[i], text[j])
    {
      PairInSeq(text, i, j);
      var p, q := TwoPositions(text[i], text[j], Syllables(b));
      assert MemApart(DecodeAsm(Syllables(b)[if p < q then p else q]), DecodeAsm(Syllables(b)[if p < q then q else p]));
    }
  }

  /** A condition on the text alone: one memory slot, and no predicate read or overwritten behind its writer. */
  lemma {:induction false} OrderlyText(proc: Processor, text: seq<AsmSyllable>, out: seq<Bundle>)
    requires OneMemorySlot(proc) && PackedBundles(proc, out) && Grouped(text, out) && PredicatesOrderly(text)
    ensures GroupsOrderly(text, out)
    decreases |out|
  {
    if out != [] {
      var n, k := |out| - 1, |text| - |Syllables(out[|out| - 1])|;
      OrderlyPiece(text, k);
      OneAccessIsOrderly(proc, out[n], text[k..]);
      OrderlyText(proc, text[..k], out[..n]);
    }
  }

  // ----- What the packer does -----

  ghost predicate PackedText(proc: Processor, text: seq<AsmSyllable>, out: seq<Bundle>) {
    PackedBundles(proc, out) && Grouped(text, out)
  }

  /** Pushing a bundle, or a nop, behind what has been packed. */
  lemma {:induction false} PushGroups(proc: Processor, text: seq<AsmSyllable>, out: seq<Bundle>, b: Bundle)
    requires PackedText(proc, text, out) && PackedBundle(proc, b)
    ensures PackedText(proc, text + Syllables(b), out + [b])
  {
    var text', out', k := text + Syllables(b), out + [b], |text|;
    assert out'[..|out|] == out && text'[..k] == text && text'[k..] == Syllables(b);
  }

  lemma {:induction false} PushNop(proc: Processor, text: seq<AsmSyllable>, out: seq<Bundle>)
    requires PackedText(proc, text, out)
    ensures PackedText(proc, text, out + [[]])
  {
    PushGroups(proc, text, out, []);
    AppendNothing(text);
  }

  lemma {:induction false} PaddingGroups(proc: Processor, text: seq<AsmSyllable>, out: seq<Bundle>, n: nat)
    requires PackedText(proc, text, out)
    ensures PackedText(proc, text, out + Nops(n))
  {
    if n == 0 {
      AppendNothing(out);
    } else {
      PaddingGroups(proc, text, out, n - 1);
      PushNop(proc, text, out + Nops(n - 1));
      Regroup(out, Nops(n - 1), []);
    }
  }

  lemma {:induction false} MergedWellFormed(proc: Processor, a: Bundle, b: Bundle, c: Bundle)
    requires multiset(Syllables(c)) == multiset(Syllables(a)) + multiset(Syllables(b))
    requires forall syl :: syl in Syllables(a) || syl in Syllables(b) ==> WellFormed(syl)
    ensures forall syl :: syl in Syllables(c) ==> WellFormed(syl)
  {
    forall syl | syl in Syllables(c)
      ensures WellFormed(syl)
    {
      assert syl in multiset(Syllables(c));
      assert syl in multiset(Syllables(a)) || syl in multiset(Syllables(b));
    }
  }

  lemma {:induction false} MergeFacts(proc: Processor, last: Bundle, b: Bundle, c: Bundle)
    requires PackedBundle(proc, last) && ScalarBundle(proc, b)
    requires MergeBundles(proc, last, b) == Some(c) && LegalBundle(proc, c)
    ensures PackedBundle(proc, c) && multiset(Syllables(c)) == multiset(Syllables(last)) + multiset(Syllables(b))
  {
    MergeKeeps(proc, last, b);
    MergedWellFormed(proc, last, b, c);
  }

  lemma {:induction false} ReplaceLast(proc: Processor, out: seq<Bundle>, c: Bundle)
    requires out != [] && PackedBundles(proc, out) && PackedBundle(proc, c)
    ensures PackedBundles(proc, out[|out| - 1 := c])
  {
  }

  lemma {:induction false} SameSize<T>(c: seq<T>, a: seq<T>, b: seq<T>)
    requires multiset(c) == multiset(a) + multiset(b)
    ensures |c| == |a| + |b|
  {
    assert |multiset(c)| == |multiset(a)| + |multiset(b)|;
  }

  /** The last piece grows by the syllables of the merged bundle. */
  lemma {:induction false} MergeGroups(text: seq<AsmSyllable>, out: seq<Bundle>, b: Bundle, c: Bundle)
    requires out != [] && Grouped(text, out)
    requires multiset(Syllables(c)) == multiset(Syllables(out[|out| - 1])) + multiset(Syllables(b))
    ensures Grouped(text + Syllables(b), out[|out| - 1 := c])
  {
    var n, k := |out| - 1, |text| - |Syllables(out[|out| - 1])|;
    var text', out' := text + Syllables(b), out[n := c];
    SameSize(Syllables(c), Syllables(out[n]), Syllables(b));
    assert out'[..n] == out[..n] && text'[..k] == text[..k] && text'[k..] == text[k..] + Syllables(b);
  }

  lemma {:induction false} StepGroups(proc: Processor, text: seq<AsmSyllable>, out: seq<Bundle>, b: Bundle, start: nat, ready: ReadyState)
    requires PackedText(proc, text, out) && ScalarBundle(proc, b)
    ensures PackedText(proc, text + Syllables(b), PackStep(proc, out, b, start, ready))
  {
    if IsEmptyBundle(b) {
      PushGroups(proc, text, out, b);
    } else {
      match Merged(proc, out, b, start, ready)
      case Some(c) =>
        MergeFacts(proc, out[|out| - 1], b, c);
        ReplaceLast(proc, out, c);
        MergeGroups(text, out, b, c);
      case None =>
        var pads := PadCount(out, b, start, ready);
        PaddingGroups(proc, text, out, pads);
        PushGroups(proc, text, out + Nops(pads), b);
    }
  }

  /** Every syllable is kept exactly once, and from bundle to bundle the text order is kept. */
  lemma {:induction false} PackSegmentGroups(proc: Processor, segment: seq<Bundle>, start: nat, ready: ReadyState)
    requires ScalarBundles(proc, segment)
    ensures PackedText(proc, Flat(segment), PackSegment(proc, segment, start, ready))
    ensures multiset(Flat(PackSegment(proc, segment, start, ready))) == multiset(Flat(segment))
  {
    if segment != [] {
      var n := |segment| - 1;
      PackSegmentGroups(proc, segment[..n], start, ready);
      StepGroups(proc, Flat(segment[..n]), PackSegment(proc, segment[..n], start, ready), segment[n], start, ready);
    }
    GroupedKeeps(Flat(segment), PackSegment(proc, segment, start, ready));
  }

  lemma {:induction false} ExecScalar(isa: Isa, b: Bundle, s: State)
    requires |Syllables(b)| <= 1
    ensures ExecBundle(isa, b, s) == Run(isa, DecodeSyllables(Syllables(b)), s)
  {
    IssueIsRun(isa, DecodeSyllables(Syllables(b)), s);
  }

  /** Scalar bundles do what their syllables do in sequence. */
  lemma {:induction false} ScalarMeaning(isa: Isa, proc: Processor, segment: seq<Bundle>, s: State)
    requires ScalarBundles(proc, segment)
    ensures RunBundles(isa, segment, s) == Run(isa, DecodeSyllables(Flat(segment)), s)
  {
    if segment != [] {
      var n := |segment| - 1;
      ScalarMeaning(isa, proc, segment[..n], s);
      ExecScalar(isa, segment[n], RunBundles(isa, segment[..n], s));
      RunSyllables(isa, Flat(segment[..n]), Syllables(segment[n]), s);
    }
  }

  /** What is asked of a packed segment: only what shares a bundle matters. */
  ghost predicate SegmentOrderly(proc: Processor, segment: seq<Bundle>, packed: seq<Bundle>) {
    ScalarBundles(proc, segment) && (Grouped(Flat(segment), packed) ==> GroupsOrderly(Flat(segment), packed))
  }

  /**
   * Packing a segment leaves, from every state and under every instruction set, the state the scalar bundles
   * leave, if within no packed bundle a syllable writes a predicate or a byte that a later one is concerned with.
   */
  lemma {:induction false} PackSegmentPreservesMeaning(isa: Isa, proc: Processor, segment: seq<Bundle>, start: nat, ready: ReadyState, s: State)
    requires SegmentOrderly(proc, segment, PackSegment(proc, segment, start, ready))
    ensures RunBundles(isa, PackSegment(proc, segment, start, ready), s) == RunBundles(isa, segment, s)
  {
    var out := PackSegment(proc, segment, start, ready);
    PackSegmentGroups(proc, segment, start, ready);
    GroupedMeaning(isa, proc, Flat(segment), out, s);
    ScalarMeaning(isa, proc, segment, s);
  }

  /** What the emitter produces between two delimiters, with no predicate read or overwritten behind its writer. */
  ghost predicate ScalarSegment(proc: Processor, segment: seq<Bundle>) {
    ScalarBundles(proc, segment) && PredicatesOrderly(Flat(segment))
  }

  /** With one memory slot the segment itself can be looked at instead. */
  lemma {:induction false} ScalarSegmentOrderly(proc: Processor, segment: seq<Bundle>, start: nat, ready: ReadyState)
    requires OneMemorySlot(proc) && ScalarSegment(proc, segment)
    ensures SegmentOrderly(proc, segment, PackSegment(proc, segment, start, ready))
  {
    PackSegmentGroups(proc, segment, start, ready);
    OrderlyText(proc, Flat(segment), PackSegment(proc, segment, start, ready));
  }
}
