/** The greedy packer: merges each scalar bundle into the bundle before it when it can. */
module Packer {
  import opened Opcodes
  import opened Mir
  import opened Asm
  import opened BundleVerifier
  import opened Ready
  import opened Timing

  // ----- Merging -----

  function NormalizeSlots(b: Bundle, width: nat): (r: Bundle)
    ensures |r| == width
  {
    if width <= |b| then b[..width] else b + seq(width - |b|, _ => None)
  }

  predicate OpenSlot(proc: Processor, b: Bundle, op: Opcode, slot: nat) {
    slot < proc.width && slot < |b| && b[slot].None? && SlotSupports(proc, slot, op)
  }

  /** The first empty slot from `slot` on that supports the opcode. */
  function FirstOpenSlot(proc: Processor, b: Bundle, op: Opcode, slot: nat): (r: Option<nat>)
    requires slot <= proc.width
    ensures r.Some? ==> slot <= r.value && OpenSlot(proc, b, op, r.value) && forall q :: slot <= q < r.value ==> !OpenSlot(proc, b, op, q)
    ensures r.None? ==> forall q :: slot <= q ==> !OpenSlot(proc, b, op, q)
    decreases proc.width - slot
  {
    if slot == proc.width then None
    else if OpenSlot(proc, b, op, slot) then Some(slot)
    else FirstOpenSlot(proc, b, op, slot + 1)
  }

  function PlaceAll(proc: Processor, b: Bundle, syls: seq<AsmSyllable>): Option<Bundle> {
    if syls == [] then Some(b)
    else
      match PlaceAll(proc, b, syls[..|syls| - 1])
      case None => None
      case Some(b1) =>
        var syl := syls[|syls| - 1];
        match OpcodeOf(syl)
        case None => None
        case Some(op) =>
          match FirstOpenSlot(proc, b1, op, 0)
          case None => None
          case Some(slot) => Some(b1[slot := Some(syl)])
  }

  function MergeBundles(proc: Processor, a: Bundle, b: Bundle): Option<Bundle> {
    PlaceAll(proc, NormalizeSlots(a, proc.width), Syllables(b))
  }

  // ----- One segment -----

  /** Every register some syllable reads. */
  function BundleSourceKeys(syls: seq<AsmSyllable>): seq<RegKey> {
    if syls == [] then []
    else
      var n := |syls| - 1;
      BundleSourceKeys(syls[..n]) + if KnownSyllable(syls[n]) then SourceKeys(OpcodeOf(syls[n]).value, syls[n].operands) else []
  }

  /** The cycle from which every source in the bundle can be read. */
  function BundleRequired(syls: seq<AsmSyllable>, ready: ReadyState): nat {
    MaxReadyAt(ready, BundleSourceKeys(syls))
  }

  /** b goes into the last bundle of out; None when it must not or cannot. */
  ghost function Merged(proc: Processor, out: seq<Bundle>, b: Bundle, start: nat, ready: ReadyState): Option<Bundle> {
    if out == [] then None
    else
      var n := |out| - 1;
      if IsEmptyBundle(out[n]) || IsTerminatorBundle(out[n]) then None
      else if HasPendingAt(AfterBundles(out, start, ready), start + |out|) then None
      else if !BundleReadyAt(b, start + n, AfterBundles(out[..n], start, ready)) then None
      else
        match MergeBundles(proc, out[n], b)
        case Some(c) => if LegalBundle(proc, c) then Some(c) else None
        case None => None
  }

  /** Nops until the sources of b are ready, then b. */
  function Padded(out: seq<Bundle>, b: Bundle, start: nat, ready: ReadyState): seq<Bundle> {
    out + Nops(PadCount(out, b, start, ready)) + [b]
  }

  function PadCount(out: seq<Bundle>, b: Bundle, start: nat, ready: ReadyState): nat {
    var c := BundleRequired(Syllables(b), AfterBundles(out, start, ready));
    if c > start + |out| then c - (start + |out|) else 0
  }

  ghost function PackStep(proc: Processor, out: seq<Bundle>, b: Bundle, start: nat, ready: ReadyState): seq<Bundle> {
    if IsEmptyBundle(b) then out + [b]
    else
      match Merged(proc, out, b, start, ready)
      case Some(c) => out[|out| - 1 := c]
      case None => Padded(out, b, start, ready)
  }

  ghost function PackSegment(proc: Processor, segment: seq<Bundle>, start: nat, ready: ReadyState): seq<Bundle> {
    if segment == [] then []
    else PackStep(proc, PackSegment(proc, segment[..|segment| - 1], start, ready), segment[|segment| - 1], start, ready)
  }

  // ----- The whole stream -----

  /** The packer between two items: bundles not yet packed wait in `segment`. */
  datatype PackState = PackState(packed: seq<Item>, segment: seq<Bundle>, ready: ReadyState, cycle: nat)

  ghost function Flush(proc: Processor, st: PackState): PackState {
    var bs := PackSegment(proc, st.segment, st.cycle, st.ready);
    PackState(st.packed + AsItems(bs), [], AfterBundles(bs, st.cycle, st.ready), st.cycle + |bs|)
  }

  ghost function PackItem(proc: Processor, st: PackState, item: Item): PackState {
    match item
    case LabelItem(_) =>
      var st1 := Flush(proc, st);
      st1.(packed := st1.packed + [item])
    case BundleItem(b) =>
      if IsTerminatorBundle(b) then
        var st1 := Flush(proc, st);
        PackState(st1.packed + [item], [], AfterBundle(b, st1.cycle, st1.ready), st1.cycle + 1)
      else
        st.(segment := st.segment + [b])
  }

  ghost function PackItems(proc: Processor, items: seq<Item>): PackState {
    if items == [] then PackState([], [], ALL_READY, 0)
    else PackItem(proc, PackItems(proc, items[..|items| - 1]), items[|items| - 1])
  }

  ghost function PackProgram(proc: Processor, items: seq<Item>): seq<Item> {
    Flush(proc, PackItems(proc, items)).packed
  }

  // ----- The methods -----

  method TryMerge(proc: Processor, out: seq<Bundle>, b: Bundle, start: nat, ready: ReadyState) returns (r: Option<Bundle>)
    ensures r == Merged(proc, out, b, start, ready)
  {
    if out == [] {
      return None;
    }
    var n := |out| - 1;
    if IsEmptyBundle(out[n]) || IsTerminatorBundle(out[n]) {
      return None;
    }
    if HasPendingAt(AfterBundles(out, start, ready), start + |out|) {
      return None;
    }
    if !BundleReadyAt(b, start + n, AfterBundles(out[..n], start, ready)) {
      return None;
    }
    var candidate := MergeBundles(proc, out[n], b);
    if candidate.None? {
      return None;
    }
    var verdict := VerifyBundle(proc, candidate.value);
    r := if verdict.Accepted? then candidate else None;
  }

  lemma {:induction false} SourceKeysOfSyllables(syls: seq<AsmSyllable>, k: RegKey)
    ensures k in BundleSourceKeys(syls) <==>
              exists syl :: syl in syls && KnownSyllable(syl) && k in SourceKeys(OpcodeOf(syl).value, syl.operands)
  {
    if syls != [] {
      var n := |syls| - 1;
      SourceKeysOfSyllables(syls[..n], k);
      assert syls == syls[..n] + [syls[n]];
    }
  }

  lemma {:induction false} ReadyFromRequired(b: Bundle, cycle: nat, ready: ReadyState)
    requires KnownBundle(b)
    ensures BundleReadyAt(b, cycle, ready) == (BundleRequired(Syllables(b), ready) <= cycle)
  {
    var syls := Syllables(b);
    forall k
      ensures k in BundleSourceKeys(syls) <==>
                exists syl :: syl in syls && KnownSyllable(syl) && k in SourceKeys(OpcodeOf(syl).value, syl.operands)
    {
      SourceKeysOfSyllables(syls, k);
    }
  }

  /** The padding loop ends: a nop leaves the table alone and moves the clock on. */
  method PadAndPush(out: seq<Bundle>, b: Bundle, start: nat, ready: ReadyState) returns (r: seq<Bundle>)
    requires KnownBundle(b)
    ensures r == Padded(out, b, start, ready)
  {
    ghost var pads := 0;
    r := out;
    PadsReady(out, 0, r, b, start, ready);
    var done := BundleReadyAt(b, start + |r|, AfterBundles(r, start, ready));
    while !done
      invariant r == out + Nops(pads) && pads <= PadCount(out, b, start, ready)
      invariant done == (pads >= PadCount(out, b, start, ready))
      decreases PadCount(out, b, start, ready) - pads
    {
      r, pads := r + [[]], pads + 1;
      PadsReady(out, pads, r, b, start, ready);
      done := BundleReadyAt(b, start + |r|, AfterBundles(r, start, ready));
    }
    r := r + [b];
  }

  lemma {:induction false} PadsReady(out: seq<Bundle>, n: nat, r: seq<Bundle>, b: Bundle, start: nat, ready: ReadyState)
    requires KnownBundle(b) && r == out + Nops(n)
    ensures BundleReadyAt(b, start + |r|, AfterBundles(r, start, ready)) == (n >= PadCount(out, b, start, ready))
  {
    AfterNops(out, n, start, ready);
    ReadyFromRequired(b, start + |r|, AfterBundles(r, start, ready));
  }

  method PackBundleSegment(proc: Processor, segment: seq<Bundle>, start: nat, ready: ReadyState) returns (out: seq<Bundle>)
    requires KnownSegment(segment)
    ensures out == PackSegment(proc, segment, start, ready)
  {
    out := [];
    for n := 0 to |segment|
      invariant out == PackSegment(proc, segment[..n], start, ready)
    {
      var b := segment[n];
      assert segment[..n + 1][..n] == segment[..n];
      if IsEmptyBundle(b) {
        out := out + [b];
      } else {
        var merged := TryMerge(proc, out, b, start, ready);
        if merged.Some? {
          out := out[|out| - 1 := merged.value];
        } else {
          out := PadAndPush(out, b, start, ready);
        }
      }
    }
    assert segment[..|segment|] == segment;
  }

  method FlushSegment(proc: Processor, st: PackState) returns (r: PackState)
    requires KnownSegment(st.segment)
    ensures r == Flush(proc, st)
  {
    var bs := PackBundleSegment(proc, st.segment, st.cycle, st.ready);
    r := PackState(st.packed + AsItems(bs), [], AfterBundles(bs, st.cycle, st.ready), st.cycle + |bs|);
  }

  predicate KnownItems(items: seq<Item>) {
    forall i :: 0 <= i < |items| && items[i].BundleItem? ==> KnownBundle(items[i].bundle)
  }

  predicate KnownSegment(segment: seq<Bundle>) {
    forall i :: 0 <= i < |segment| ==> KnownBundle(segment[i])
  }

  method PackNext(proc: Processor, st: PackState, item: Item) returns (r: PackState)
    requires KnownSegment(st.segment) && (item.BundleItem? ==> KnownBundle(item.bundle))
    ensures r == PackItem(proc, st, item) && KnownSegment(r.segment)
  {
    match item {
      case LabelItem(_) =>
        r := FlushSegment(proc, st);
        r := r.(packed := r.packed + [item]);
      case BundleItem(b) =>
        if IsTerminatorBundle(b) {
          r := FlushSegment(proc, st);
          r := PackState(r.packed + [item], [], AfterBundle(b, r.cycle, r.ready), r.cycle + 1);
        } else {
          r := st.(segment := st.segment + [b]);
        }
    }
  }

  method PackScalarProgram(program: Program) returns (r: Program)
    requires KnownItems(program.items)
    ensures r == Program(program.processor, PackProgram(program.processor, program.items))
  {
    var proc, items := program.processor, program.items;
    var st := PackState([], [], ALL_READY, 0);
    for n := 0 to |items|
      invariant st == PackItems(proc, items[..n]) && KnownSegment(st.segment)
    {
      assert items[..n + 1][..n] == items[..n];
      st := PackNext(proc, st, items[n]);
    }
    assert items[..|items|] == items;
    st := FlushSegment(proc, st);
    r := Program(proc, st.packed);
  }
}
