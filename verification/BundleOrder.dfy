/** Bundles of any size: right as soon as every two of their syllables are right as a pair. */
module BundleOrder {
  import opened Collections
  import opened Mir
  import opened Machine
  import opened Reorder
  import opened Accesses
  import opened Asm
  import opened AsmMeaning
  import opened BundleVerifier
  import opened Ready
  import opened Packer
  import opened PackerMeaning
  import opened MergeLimits

  // ----- Issuing operations in text order -----

  /** Slot q holds operation order[q]: every operation is in one slot. */
  predicate Arranges(order: seq<nat>, n: nat) {
    |order| == n && Distinct(order) && (forall q :: 0 <= q < n ==> order[q] < n) && forall i :: 0 <= i < n ==> i in order
  }

  /** Operation j stands in a slot before operation i. */
  predicate Ahead(order: seq<nat>, j: nat, i: nat) {
    exists q, q' :: 0 <= q < q' < |order| && order[q] == j && order[q'] == i
  }

  /** Every two operations are right as a pair, in text order and in their slots. */
  ghost predicate PairsRight(ms: seq<MicroOp>, order: seq<nat>, s: State) {
    forall i, j :: 0 <= i < j < |ms| ==> PairRight(ms[i], ms[j], Ahead(order, j, i), s)
  }

  ghost predicate AllApart(ms: seq<MicroOp>) {
    && (forall i :: 0 <= i < |ms| ==> Typical(ms[i]))
    && forall i, j :: 0 <= i < j < |ms| ==> ApartOn(Gpr, ms[i], ms[j])
  }

  lemma {:induction false} ApplyAllLast(s: State, es: seq<Effect>, e: Effect)
    ensures ApplyAll(s, es + [e]) == Apply(ApplyAll(s, es), e)
    decreases |es|
  {
    if es == [] {
      assert es + [e] == [e] && [e][1..] == [];
      assert ApplyAll(Apply(s, e), []) == Apply(s, e);
    } else {
      assert (es + [e])[1..] == es[1..] + [e];
      ApplyAllLast(Apply(s, es[0]), es[1..], e);
    }
  }

  /** What none of the effects writes stays. */
  lemma {:induction false} ApplyAllFrame(s: State, es: seq<Effect>)
    ensures forall k :: (forall i :: 0 <= i < |es| ==> k !in es[i].regs) ==> ReadReg(ApplyAll(s, es), k) == ReadReg(s, k)
    ensures forall a :: (forall i :: 0 <= i < |es| ==> a !in es[i].mem) ==> ReadByte(ApplyAll(s, es), a) == ReadByte(s, a)
  {
    if es != [] {
      var n := |es| - 1;
      assert es == es[..n] + [es[n]];
      ApplyAllLast(s, es[..n], es[n]);
      ApplyAllFrame(s, es[..n]);
      forall k | forall i :: 0 <= i < |es| ==> k !in es[i].regs
        ensures ReadReg(ApplyAll(s, es), k) == ReadReg(s, k)
      {
        assert forall i :: 0 <= i < n ==> es[..n][i] == es[i];
      }
      forall a | forall i :: 0 <= i < |es| ==> a !in es[i].mem
        ensures ReadByte(ApplyAll(s, es), a) == ReadByte(s, a)
      {
        assert forall i :: 0 <= i < n ==> es[..n][i] == es[i];
      }
    }
  }

  /** y does after x, and any other operations it is right with, what it does before them. */
  lemma {:induction false} SameEffectBehind(isa: Isa, xs: seq<MicroOp>, y: MicroOp, s: State)
    requires Typical(y) && forall i :: 0 <= i < |xs| ==> Typical(xs[i]) && ApartOn(Gpr, xs[i], y)
    requires forall i :: 0 <= i < |xs| ==> PairRight(xs[i], y, false, s)
    ensures EffectOf(isa, y, ApplyAll(s, EffectsOf(isa, xs, s))) == EffectOf(isa, y, s)
  {
    var es := EffectsOf(isa, xs, s);
    var s1 := ApplyAll(s, es);
    ApplyAllFrame(s, es);
    if (y.Compute? && !Writing(y)) || (y.Load? && !Lands(y)) {
      assert EffectOf(isa, y, s1) == EffectOf(isa, y, s);
    } else {
      forall k | Reads(y, k)
        ensures ReadReg(s, k) == ReadReg(s1, k)
      {
        forall i | 0 <= i < |es|
          ensures k !in es[i].regs
        {
          NotWritten(isa, xs[i], y, k, s);
        }
      }
      forall a | y.Load? && Touches(y, s, a)
        ensures ReadByte(s, a) == ReadByte(s1, a)
      {
        forall i | 0 <= i < |es|
          ensures a !in es[i].mem
        {
          ExecFrame(isa, xs[i], s);
        }
      }
      EffectFrame(isa, y, s, s1);
    }
  }

  lemma {:induction false} NotWritten(isa: Isa, x: MicroOp, y: MicroOp, k: RegKey, s: State)
    requires Typical(x) && Typical(y) && ApartOn(Gpr, x, y) && PairRight(x, y, false, s)
    requires Reads(y, k) && (y.Compute? ==> Writing(y))
    ensures k !in EffectOf(isa, x, s).regs
  {
    ExecFrame(isa, x, s);
  }

  /** Executed in text order, the operations write what they would write together. */
  lemma {:induction false} RunIsWriteBack(isa: Isa, ms: seq<MicroOp>, order: seq<nat>, s: State)
    requires AllApart(ms) && PairsRight(ms, order, s)
    ensures Run(isa, ms, s) == ApplyAll(s, EffectsOf(isa, ms, s))
  {
    if ms != [] {
      var n := |ms| - 1;
      assert ms == ms[..n] + [ms[n]];
      RunIsWriteBack(isa, ms[..n], order, s);
      RunAppend(isa, ms[..n], [ms[n]], s);
      RunLast(isa, ms[n], Run(isa, ms[..n], s));
      forall i | 0 <= i < n
        ensures PairRight(ms[..n][i], ms[n], false, s) && Typical(ms[..n][i]) && ApartOn(Gpr, ms[..n][i], ms[n])
      {
        assert PairRight(ms[i], ms[n], Ahead(order, n, i), s);
      }
      SameEffectBehind(isa, ms[..n], ms[n], s);
      assert EffectsOf(isa, ms, s) == EffectsOf(isa, ms[..n], s) + [EffectOf(isa, ms[n], s)];
      ApplyAllLast(s, EffectsOf(isa, ms[..n], s), EffectOf(isa, ms[n], s));
    }
  }

  lemma {:induction false} RunLast(isa: Isa, m: MicroOp, s: State)
    ensures Run(isa, [m], s) == Exec(isa, m, s)
  {
    assert [m][1..] == [];
  }

  // ----- Writing back in slot order -----

  function Applying(): Action<Effect> {
    (e: Effect, s: State) => Apply(s, e)
  }

  lemma {:induction false} ApplyAllIsFold(s: State, es: seq<Effect>)
    ensures ApplyAll(s, es) == Fold(Applying(), es, s)
    decreases |es|
  {
    if es != [] {
      ApplyAllIsFold(Apply(s, es[0]), es[1..]);
    }
  }

  function Identity(n: nat): seq<nat> {
    seq(n, i => i)
  }

  lemma {:induction false} WriteBackInSlots(isa: Isa, ms: seq<MicroOp>, order: seq<nat>, s: State)
    requires AllApart(ms) && Arranges(order, |ms|) && PairsRight(ms, order, s)
    ensures ApplyAll(s, Pick(EffectsOf(isa, ms, s), order)) == ApplyAll(s, EffectsOf(isa, ms, s))
  {
    var es, id := EffectsOf(isa, ms, s), Identity(|ms|);
    forall i, j | Inverted(id, order, i, j)
      ensures Swappable(Applying(), es[id[i]], es[id[j]])
    {
      assert Ahead(order, j, i);
      SwappedEffects(isa, ms[i], ms[j], s);
      if es[i] != es[j] {
        forall t
          ensures Apply(Apply(t, es[i]), es[j]) == Apply(Apply(t, es[j]), es[i])
        {
          ApplyCommutes(t, es[i], es[j]);
        }
      }
    }
    SameMembers(order, |ms|);
    ReorderPreserves(Applying(), es, id, order, s);
    assert Pick(es, id) == es;
    ApplyAllIsFold(s, es);
    ApplyAllIsFold(s, Pick(es, order));
  }

  lemma {:induction false} SameMembers(order: seq<nat>, n: nat)
    requires Arranges(order, n)
    ensures forall x :: x in Identity(n) <==> x in order
  {
    forall x
      ensures x in Identity(n) <==> x in order
    {
      if 0 <= x < n {
        assert Identity(n)[x] == x;
      }
    }
  }

  /** Operations any two of which are right as a pair do together, in their slots, what they do in text order. */
  lemma {:induction false} PairsSuffice(isa: Isa, ms: seq<MicroOp>, order: seq<nat>, s: State)
    requires AllApart(ms) && Arranges(order, |ms|) && PairsRight(ms, order, s)
    ensures Issue(isa, Pick(ms, order), s) == Run(isa, ms, s)
  {
    RunIsWriteBack(isa, ms, order, s);
    WriteBackInSlots(isa, ms, order, s);
    assert EffectsOf(isa, Pick(ms, order), s) == Pick(EffectsOf(isa, ms, s), order);
  }

  // ----- Accepted bundles -----

  /** The slots of the bundle hold the text in the given order. */
  ghost predicate Holds(b: Bundle, text: seq<AsmSyllable>, order: seq<nat>) {
    Arranges(order, |text|) && Syllables(b) == Pick(text, order)
  }

  lemma {:induction false} SlotHolding(order: seq<nat>, n: nat, i: nat) returns (q: nat)
    requires Arranges(order, n) && i < n
    ensures q < n && order[q] == i
  {
    assert i in order;
    q :| 0 <= q < |order| && order[q] == i;
  }

  lemma {:induction false} AcceptedAllApart(proc: Processor, b: Bundle, text: seq<AsmSyllable>, order: seq<nat>)
    requires PackedBundle(proc, b) && Holds(b, text, order)
    ensures AllApart(DecodeSyllables(text))
  {
    var ms := DecodeSyllables(text);
    forall i | 0 <= i < |text|
      ensures WellFormed(text[i]) && Typical(ms[i])
    {
      var q := SlotHolding(order, |text|, i);
      assert Syllables(b)[q] == text[i];
      WellFormedIsTypical(text[i]);
    }
    forall i, j | 0 <= i < j < |text|
      ensures ApartOn(Gpr, ms[i], ms[j])
    {
      var p := SlotHolding(order, |text|, i);
      var q := SlotHolding(order, |text|, j);
      SlotsApart(proc, b, p, q);
    }
  }

  lemma {:induction false} SlotsApart(proc: Processor, b: Bundle, p: nat, q: nat)
    requires PackedBundle(proc, b) && p < |Syllables(b)| && q < |Syllables(b)| && p != q
    ensures ApartOn(Gpr, DecodeAsm(Syllables(b)[p]), DecodeAsm(Syllables(b)[q]))
  {
    if p < q {
      SlotsInOrder(b, p, q);
    } else {
      SlotsInOrder(b, q, p);
    }
    SlotsApartOnGprs(b, proc.width, SlotOf(b, p), SlotOf(b, q));
  }

  /** An accepted bundle of any size is right, from a state and under every instruction set, if every two of its syllables are. */
  lemma {:induction false} BundleRight(isa: Isa, proc: Processor, b: Bundle, text: seq<AsmSyllable>, order: seq<nat>, s: State)
    requires PackedBundle(proc, b) && Holds(b, text, order) && PairsRight(DecodeSyllables(text), order, s)
    ensures ExecBundle(isa, b, s) == Run(isa, DecodeSyllables(text), s)
  {
    AcceptedAllApart(proc, b, text, order);
    PairsSuffice(isa, DecodeSyllables(text), order, s);
    assert DecodeSyllables(Syllables(b)) == Pick(DecodeSyllables(text), order);
  }

  // ----- Packed segments -----

  /** The bundles hold the text piece by piece, and each is right in the state in which it is issued. */
  ghost predicate GroupsRight(isa: Isa, text: seq<AsmSyllable>, out: seq<Bundle>, s: State)
    decreases |out|
  {
    if out == [] then text == []
    else
      var n, k := |out| - 1, |text| - |Syllables(out[|out| - 1])|;
      && k >= 0 && GroupsRight(isa, text[..k], out[..n], s)
      && exists order :: Holds(out[n], text[k..], order) && PairsRight(DecodeSyllables(text[k..]), order, RunBundles(isa, out[..n], s))
  }

  lemma {:induction false} GroupsRightMeaning(isa: Isa, proc: Processor, text: seq<AsmSyllable>, out: seq<Bundle>, s: State)
    requires PackedBundles(proc, out) && GroupsRight(isa, text, out, s)
    ensures RunBundles(isa, out, s) == Run(isa, DecodeSyllables(text), s)
    decreases |out|
  {
    if out != [] {
      var n, k := |out| - 1, |text| - |Syllables(out[|out| - 1])|;
      GroupsRightMeaning(isa, proc, text[..k], out[..n], s);
      var order :| Holds(out[n], text[k..], order) && PairsRight(DecodeSyllables(text[k..]), order, RunBundles(isa, out[..n], s));
      NextRight(isa, proc, out, text[..k], text[k..], order, s);
      assert text == text[..k] + text[k..];
    }
  }

  lemma {:induction false} NextRight(isa: Isa, proc: Processor, out: seq<Bundle>, front: seq<AsmSyllable>, back: seq<AsmSyllable>, order: seq<nat>, s: State)
    requires out != [] && PackedBundle(proc, out[|out| - 1]) && Holds(out[|out| - 1], back, order)
    requires PairsRight(DecodeSyllables(back), order, RunBundles(isa, out[..|out| - 1], s))
    requires RunBundles(isa, out[..|out| - 1], s) == Run(isa, DecodeSyllables(front), s)
    ensures RunBundles(isa, out, s) == Run(isa, DecodeSyllables(front + back), s)
  {
    BundleRight(isa, proc, out[|out| - 1], back, order, RunBundles(isa, out[..|out| - 1], s));
    RunSyllables(isa, front, back, s);
  }

  /**
   * Packing a segment leaves the state the scalar bundles leave if in every packed bundle, in the state in which it
   * is issued, every two syllables are right as a pair: harmless writers in slot order and equal stores may share one.
   */
  lemma {:induction false} PackSegmentRight(isa: Isa, proc: Processor, segment: seq<Bundle>, start: nat, ready: ReadyState, s: State)
    requires ScalarBundles(proc, segment) && GroupsRight(isa, Flat(segment), PackSegment(proc, segment, start, ready), s)
    ensures RunBundles(isa, PackSegment(proc, segment, start, ready), s) == RunBundles(isa, segment, s)
  {
    PackSegmentGroups(proc, segment, start, ready);
    GroupsRightMeaning(isa, proc, Flat(segment), PackSegment(proc, segment, start, ready), s);
    ScalarMeaning(isa, proc, segment, s);
  }
}
