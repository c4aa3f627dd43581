/** Packing never makes a function's padded stream longer. */
module PackLength {
  import opened Collections
  import opened Opcodes
  import opened Mir
  import opened Asm
  import opened BundleVerifier
  import opened Ready
  import opened Timing
  import opened Packer
  import opened PackerMeaning
  import opened EmittedStream
  import opened PackTiming

  /**
   * The packed stream, in cycle c with table p, is ahead of the scalar one, in cycle t with table s: it is no
   * later, and each register has arrived or arrives at least as much ahead.
   */
  ghost predicate Ahead(p: ReadyState, c: nat, s: ReadyState, t: nat) {
    c <= t && forall k: RegKey :: AheadAt(p, c, s, t, k)
  }

  predicate AheadAt(p: ReadyState, c: nat, s: ReadyState, t: nat, k: RegKey) {
    KeyReadyAt(p, k) <= c || KeyReadyAt(p, k) + t <= KeyReadyAt(s, k) + c
  }

  ghost predicate AllReadyBy(ready: ReadyState, cycle: nat) {
    forall k: RegKey :: KeyReadyAt(ready, k) <= cycle
  }

  /** What is ready for the scalar stream is ready for the packed one. */
  lemma {:induction false} AheadIsReady(p: ReadyState, c: nat, s: ReadyState, t: nat, b: Bundle)
    requires Ahead(p, c, s, t) && BundleReadyAt(b, t, s)
    ensures BundleReadyAt(b, c, p)
  {
    forall syl | syl in Syllables(b)
      ensures SyllableReadyAt(syl, c, p)
    {
      assert SyllableReadyAt(syl, t, s);
      forall k | k in SourceKeys(OpcodeOf(syl).value, syl.operands)
        ensures KeyReadyAt(p, k) <= c
      {
        assert AheadAt(p, c, s, t, k) && KeyReadyAt(s, k) <= t;
      }
    }
  }

  predicate WritesIn(b: Bundle, k: RegKey) {
    Syllables(b) != [] && WritesReg(Syllables(b)[0], k)
  }

  lemma {:induction false} AfterOne(b: Bundle, x: AsmSyllable, cycle: nat, ready: ReadyState, k: RegKey)
    requires Syllables(b) == [x]
    ensures KeyReadyAt(AfterBundle(b, cycle, ready), k) == if WritesReg(x, k) then cycle + LatencyOf(x) else KeyReadyAt(ready, k)
  {
    SingleAfter(b, x, cycle, ready);
    AfterAsmAt(x, cycle, ready, k);
  }

  lemma {:induction false} AfterSingle(b: Bundle, cycle: nat, ready: ReadyState, k: RegKey)
    requires |Syllables(b)| <= 1
    ensures KeyReadyAt(AfterBundle(b, cycle, ready), k) ==
              if WritesIn(b, k) then cycle + LatencyOf(Syllables(b)[0]) else KeyReadyAt(ready, k)
  {
    if |Syllables(b)| == 1 {
      AfterOne(b, Syllables(b)[0], cycle, ready, k);
    }
  }

  lemma {:induction false} PushStaysAheadAt(p: ReadyState, c: nat, s: ReadyState, t: nat, b: Bundle, k: RegKey)
    requires AheadAt(p, c, s, t, k) && |Syllables(b)| <= 1
    ensures AheadAt(AfterBundle(b, c, p), c + 1, AfterBundle(b, t, s), t + 1, k)
  {
    AfterSingle(b, c, p, k);
    AfterSingle(b, t, s, k);
  }

  lemma {:induction false} PushStaysAhead(p: ReadyState, c: nat, s: ReadyState, t: nat, b: Bundle)
    requires Ahead(p, c, s, t) && |Syllables(b)| <= 1
    ensures Ahead(AfterBundle(b, c, p), c + 1, AfterBundle(b, t, s), t + 1)
  {
    var p', c', s', t' := AfterBundle(b, c, p), c + 1, AfterBundle(b, t, s), t + 1;
    forall k: RegKey
      ensures AheadAt(p', c', s', t', k)
    {
      PushStaysAheadAt(p, c, s, t, b, k);
    }
  }

  // ----- Merging -----

  lemma {:induction false} FindSlot(b: Bundle, x: AsmSyllable) returns (slot: nat)
    requires x in Syllables(b)
    ensures slot < |b| && b[slot] == Some(x)
  {
    var i :| 0 <= i < |Syllables(b)| && Syllables(b)[i] == x;
    slot := SlotOf(b, i);
  }

  /** A legal bundle has one writer per general register. */
  lemma {:induction false} OneWriter(proc: Processor, b: Bundle, x: AsmSyllable, y: AsmSyllable, k: RegKey)
    requires LegalBundle(proc, b) && |b| <= proc.width && x in Syllables(b) && y in Syllables(b)
    requires k.cls == Gpr && WritesReg(x, k) && WritesReg(y, k)
    ensures x == y
  {
    var i := FindSlot(b, x);
    var j := FindSlot(b, y);
    WriterInSlot(b, i, x, k);
    WriterInSlot(b, j, y, k);
    OneSlotWrites(b, proc.width, i, j, k.reg.p);
  }

  lemma {:induction false} OneSlotWrites(b: Bundle, width: nat, i: nat, j: nat, r: nat)
    requires HazardFree(b, width) && i < width && j < width && WritesAt(b, i, r) && WritesAt(b, j, r)
    ensures i == j
  {
  }

  lemma {:induction false} WriterInSlot(b: Bundle, slot: nat, x: AsmSyllable, k: RegKey)
    requires slot < |b| && b[slot] == Some(x) && k.cls == Gpr && WritesReg(x, k)
    ensures WritesAt(b, slot, k.reg.p)
  {
  }

  /** Nothing the last bundle writes is late, and merging into it does not change when it arrives. */
  lemma {:induction false} LastWriterIsIn(proc: Processor, last: Bundle, m: Bundle, cycle: nat, ready: ReadyState, x: AsmSyllable, k: RegKey)
    requires LegalBundle(proc, m) && |m| <= proc.width && (forall y :: y in Syllables(last) ==> y in Syllables(m))
    requires x in Syllables(last) && WritesReg(x, k) && KeyReadyAt(AfterBundle(last, cycle, ready), k) <= cycle + 1
    ensures cycle + LatencyOf(x) <= cycle + 1
  {
    var y := AfterSyllablesAt(Syllables(last), cycle, ready, k);
    assert y.Some?;
    if k.cls == Gpr {
      OneWriter(proc, m, x, y.value, k);
    } else {
      PredLatency(x, k.reg.p);
    }
  }

  /** m holds the syllables of last and b. */
  ghost predicate Joins(proc: Processor, last: Bundle, b: Bundle, m: Bundle) {
    && LegalBundle(proc, m) && |m| <= proc.width
    && (forall y :: y in Syllables(m) <==> y in Syllables(last) || y in Syllables(b))
  }

  lemma {:induction false} ArrivesAhead(last: Bundle, b: Bundle, m: Bundle, c: nat, t: nat, s: ReadyState, x: AsmSyllable, k: RegKey)
    requires |Syllables(b)| <= 1 && x in Syllables(b) && WritesReg(x, k)
    ensures KeyReadyAt(AfterBundle(b, t, s), k) == t + LatencyOf(x)
  {
    assert Syllables(b) == [x];
    AfterOne(b, x, t, s, k);
  }

  lemma {:induction false} MergeStaysAheadAt(proc: Processor, r: ReadyState, c: nat, last: Bundle, b: Bundle, m: Bundle, s: ReadyState, t: nat, k: RegKey)
    requires |Syllables(b)| <= 1 && Joins(proc, last, b, m)
    requires KeyReadyAt(AfterBundle(last, c, r), k) <= c + 1
    ensures AheadAt(AfterBundle(m, c, r), c + 1, AfterBundle(b, t, s), t + 1, k)
  {
    var x := AfterSyllablesAt(Syllables(m), c, r, k);
    if x.None? {
      NotWritten(last, m, c, r, k);
    } else if x.value in Syllables(last) {
      LastWriterIsIn(proc, last, m, c, r, x.value, k);
    } else {
      ArrivesAhead(last, b, m, c, t, s, x.value, k);
    }
  }

  lemma {:induction false} MergeStaysAhead(proc: Processor, r: ReadyState, c: nat, last: Bundle, b: Bundle, m: Bundle, s: ReadyState, t: nat,
                        p: ReadyState, p': ReadyState, c': nat, s': ReadyState, t': nat)
    requires c < t && |Syllables(b)| <= 1 && Joins(proc, last, b, m)
    requires p == AfterBundle(last, c, r) && AllReadyBy(p, c + 1)
    requires p' == AfterBundle(m, c, r) && c' == c + 1 && s' == AfterBundle(b, t, s) && t' == t + 1
    ensures Ahead(p', c', s', t')
  {
    forall k: RegKey
      ensures AheadAt(p', c', s', t', k)
    {
      MergeStaysAheadAt(proc, r, c, last, b, m, s, t, k);
    }
  }

  lemma {:induction false} NotWritten(last: Bundle, m: Bundle, c: nat, r: ReadyState, k: RegKey)
    requires forall y :: y in Syllables(last) ==> y in Syllables(m)
    requires forall y :: y in Syllables(m) ==> !WritesReg(y, k)
    ensures KeyReadyAt(AfterBundle(last, c, r), k) == KeyReadyAt(r, k)
  {
    var x := AfterSyllablesAt(Syllables(last), c, r, k);
  }

  lemma {:induction false} NothingPending(ready: ReadyState, cycle: nat)
    requires !HasPendingAt(ready, cycle)
    ensures AllReadyBy(ready, cycle)
  {
  }

  lemma {:induction false} MergeJoins(proc: Processor, last: Bundle, b: Bundle, m: Bundle)
    requires MergeBundles(proc, last, b) == Some(m) && |last| <= proc.width && LegalBundle(proc, m)
    ensures Joins(proc, last, b, m)
  {
    MergeKeeps(proc, last, b);
    forall y
      ensures y in Syllables(m) <==> y in Syllables(last) || y in Syllables(b)
    {
      assert y in multiset(Syllables(m)) <==> y in multiset(Syllables(last)) + multiset(Syllables(b));
    }
  }

  // ----- One step, one segment -----

  /** What the packer has after a prefix of the segment, against the scalar bundles of that prefix. */
  ghost predicate SegmentAhead(out: seq<Bundle>, start: nat, ready: ReadyState, done: seq<Bundle>, t0: nat, s0: ReadyState) {
    Ahead(AfterBundles(out, start, ready), start + |out|, AfterBundles(done, t0, s0), t0 + |done|)
  }

  predicate SingleBundle(proc: Processor, b: Bundle) {
    |b| <= proc.width && |Syllables(b)| <= 1 && KnownBundle(b)
  }

  predicate SingleBundles(proc: Processor, bs: seq<Bundle>) {
    forall i :: 0 <= i < |bs| ==> SingleBundle(proc, bs[i])
  }

  predicate WithinWidth(proc: Processor, bs: seq<Bundle>) {
    forall i :: 0 <= i < |bs| ==> |bs[i]| <= proc.width
  }

  /** The padding loop does not run. */
  lemma {:induction false} NoPadding(out: seq<Bundle>, b: Bundle, start: nat, ready: ReadyState, done: seq<Bundle>, t0: nat, s0: ReadyState)
    requires SegmentAhead(out, start, ready, done, t0, s0) && KnownBundle(b)
    requires BundleReadyAt(b, t0 + |done|, AfterBundles(done, t0, s0))
    ensures PadCount(out, b, start, ready) == 0
  {
    AheadIsReady(AfterBundles(out, start, ready), start + |out|, AfterBundles(done, t0, s0), t0 + |done|, b);
    ReadyFromRequired(b, start + |out|, AfterBundles(out, start, ready));
  }

  lemma {:induction false} AfterPush(bs: seq<Bundle>, b: Bundle, start: nat, ready: ReadyState)
    ensures AfterBundles(bs + [b], start, ready) == AfterBundle(b, start + |bs|, AfterBundles(bs, start, ready))
  {
    assert (bs + [b])[..|bs|] == bs;
  }

  lemma {:induction false} PushKeepsAhead(out: seq<Bundle>, b: Bundle, start: nat, ready: ReadyState, done: seq<Bundle>, t0: nat, s0: ReadyState)
    requires SegmentAhead(out, start, ready, done, t0, s0) && |Syllables(b)| <= 1
    ensures SegmentAhead(out + [b], start, ready, done + [b], t0, s0)
  {
    AfterPush(out, b, start, ready);
    AfterPush(done, b, t0, s0);
    var p, c, s, t := AfterBundles(out, start, ready), start + |out|, AfterBundles(done, t0, s0), t0 + |done|;
    PushStaysAhead(p, c, s, t, b);
  }

  lemma {:induction false} MergedIntoLast(proc: Processor, out: seq<Bundle>, b: Bundle, start: nat, ready: ReadyState, m: Bundle)
    requires WithinWidth(proc, out) && Merged(proc, out, b, start, ready) == Some(m)
    ensures out != [] && Joins(proc, out[|out| - 1], b, m) && AllReadyBy(AfterBundles(out, start, ready), start + |out|)
  {
    NothingPending(AfterBundles(out, start, ready), start + |out|);
    MergeJoins(proc, out[|out| - 1], b, m);
  }

  /** What merging m into the last bundle leaves: the table after m, against the table after b. */
  lemma {:induction false} MergeIsAhead(proc: Processor, r: ReadyState, c: nat, last: Bundle, b: Bundle, m: Bundle, s: ReadyState, t: nat)
    requires c < t && |Syllables(b)| <= 1 && Joins(proc, last, b, m) && AllReadyBy(AfterBundle(last, c, r), c + 1)
    ensures Ahead(AfterBundle(m, c, r), c + 1, AfterBundle(b, t, s), t + 1)
  {
    MergeStaysAhead(proc, r, c, last, b, m, s, t, AfterBundle(last, c, r), AfterBundle(m, c, r), c + 1, AfterBundle(b, t, s), t + 1);
  }

  lemma {:induction false} PushedAhead(out: seq<Bundle>, m: Bundle, start: nat, ready: ReadyState, done: seq<Bundle>, b: Bundle, t0: nat, s0: ReadyState)
    requires Ahead(AfterBundle(m, start + |out|, AfterBundles(out, start, ready)), start + |out| + 1,
                   AfterBundle(b, t0 + |done|, AfterBundles(done, t0, s0)), t0 + |done| + 1)
    ensures SegmentAhead(out + [m], start, ready, done + [b], t0, s0)
  {
    AfterPush(out, m, start, ready);
    AfterPush(done, b, t0, s0);
  }

  lemma {:induction false} MergeKeepsAhead(proc: Processor, front: seq<Bundle>, last: Bundle, b: Bundle, start: nat, ready: ReadyState, m: Bundle, done: seq<Bundle>, t0: nat, s0: ReadyState)
    requires start + |front| < t0 + |done| && |Syllables(b)| <= 1 && Joins(proc, last, b, m)
    requires AllReadyBy(AfterBundles(front + [last], start, ready), start + |front| + 1)
    ensures SegmentAhead(front + [m], start, ready, done + [b], t0, s0)
  {
    AfterPush(front, last, start, ready);
    MergeIsAhead(proc, AfterBundles(front, start, ready), start + |front|, last, b, m, AfterBundles(done, t0, s0), t0 + |done|);
    PushedAhead(front, m, start, ready, done, b, t0, s0);
  }

  lemma {:induction false} MergedKeepsAhead(proc: Processor, out: seq<Bundle>, b: Bundle, start: nat, ready: ReadyState, m: Bundle, done: seq<Bundle>, t0: nat, s0: ReadyState)
    requires start + |out| <= t0 + |done| && |Syllables(b)| <= 1 && WithinWidth(proc, out)
    requires Merged(proc, out, b, start, ready) == Some(m)
    ensures SegmentAhead(out[..|out| - 1] + [m], start, ready, done + [b], t0, s0)
  {
    MergedIntoLast(proc, out, b, start, ready, m);
    var front, last := out[..|out| - 1], out[|out| - 1];
    SplitLast(out, m);
    MergeKeepsAhead(proc, front, last, b, start, ready, m, done, t0, s0);
  }

  /** The nops the padding loop adds in a segment. */
  ghost function PaddingIn(proc: Processor, segment: seq<Bundle>, start: nat, ready: ReadyState): nat {
    if segment == [] then 0
    else
      var n := |segment| - 1;
      var out, b := PackSegment(proc, segment[..n], start, ready), segment[n];
      PaddingIn(proc, segment[..n], start, ready) +
      if IsEmptyBundle(b) || Merged(proc, out, b, start, ready).Some? then 0 else PadCount(out, b, start, ready)
  }

  lemma {:induction false} StepWithinWidth(proc: Processor, out: seq<Bundle>, b: Bundle, start: nat, ready: ReadyState)
    requires WithinWidth(proc, out) && |b| <= proc.width
    ensures WithinWidth(proc, PackStep(proc, out, b, start, ready))
  {
    NopsEmpty(PadCount(out, b, start, ready));
    if Merged(proc, out, b, start, ready).Some? {
      MergeKeeps(proc, out[|out| - 1], b);
    }
  }

  lemma {:induction false} StepStaysAhead(proc: Processor, out: seq<Bundle>, b: Bundle, start: nat, ready: ReadyState, done: seq<Bundle>, t0: nat, s0: ReadyState)
    requires SegmentAhead(out, start, ready, done, t0, s0) && WithinWidth(proc, out) && SingleBundle(proc, b)
    requires BundleReadyAt(b, t0 + |done|, AfterBundles(done, t0, s0))
    ensures SegmentAhead(PackStep(proc, out, b, start, ready), start, ready, done + [b], t0, s0)
    ensures PadCount(out, b, start, ready) == 0
  {
    NoPadding(out, b, start, ready, done, t0, s0);
    if !IsEmptyBundle(b) && Merged(proc, out, b, start, ready).Some? {
      var m := Merged(proc, out, b, start, ready).value;
      MergedKeepsAhead(proc, out, b, start, ready, m, done, t0, s0);
      SplitLast(out, m);
    } else {
      PushKeepsAhead(out, b, start, ready, done, t0, s0);
      assert out + Nops(0) + [b] == out + [b];
    }
  }

  lemma {:induction false} SegmentStaysAhead(proc: Processor, segment: seq<Bundle>, start: nat, ready: ReadyState, t0: nat, s0: ReadyState)
    requires Ahead(ready, start, s0, t0) && SingleBundles(proc, segment) && InTime(segment, t0, s0)
    ensures SegmentAhead(PackSegment(proc, segment, start, ready), start, ready, segment, t0, s0)
    ensures WithinWidth(proc, PackSegment(proc, segment, start, ready))
    ensures PaddingIn(proc, segment, start, ready) == 0
  {
    if segment != [] {
      var n := |segment| - 1;
      var b, done := segment[n], segment[..n];
      var out := PackSegment(proc, done, start, ready);
      SegmentStaysAhead(proc, done, start, ready, t0, s0);
      StepStaysAhead(proc, out, b, start, ready, done, t0, s0);
      StepWithinWidth(proc, out, b, start, ready);
      assert done + [b] == segment;
    }
  }
}
