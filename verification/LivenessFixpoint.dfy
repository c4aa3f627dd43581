/** The iterative liveness analysis: it ends, and finds exactly the live registers. */
module LivenessFixpoint {
  import opened Collections
  import opened Mir
  import opened LiveSets
  import opened Liveness

  datatype BlockInfo = BlockInfo(useBeforeDef: LiveSet, def: LiveSet, liveIn: LiveSet, liveOut: LiveSet)

  predicate SmallSyllable(syl: Syllable) {
    && (forall v :: v in syl.srcs && v.RegValue? && v.reg.VReg? ==> v.reg.v < 64)
    && (syl.dst.Some? && syl.dst.value.VReg? ==> syl.dst.value.v < 64)
  }

  /** The masks have room for 64 registers. */
  predicate SmallBlock(block: Block) {
    && (forall i :: 0 <= i < |block.syllables| ==> SmallSyllable(block.syllables[i]))
    && (block.terminator.BranchTo? && block.terminator.cond.VReg? ==> block.terminator.cond.v < 64)
  }

  // ----- Pass 1: each block on its own -----

  ghost predicate Scanned(syls: seq<Syllable>, use: LiveSet, def: LiveSet) {
    forall v: nat :: use.Contains(v) == ExposedIn(syls, v) && def.Contains(v) == DefinedIn(syls, v)
  }

  lemma {:induction false} ScanPush(syls: seq<Syllable>, syl: Syllable, v: nat)
    ensures DefinedIn(syls + [syl], v) == (DefinedIn(syls, v) || DefinesReg(syl, v))
    ensures ExposedIn(syls + [syl], v) == (ExposedIn(syls, v) || (UsesReg(syl, v) && !DefinedIn(syls, v)))
  {
    var all := syls + [syl];
    assert all[|syls|] == syl && all[..|syls|] == syls;
    assert forall i :: 0 <= i < |syls| ==> all[i] == syls[i] && all[..i] == syls[..i];
  }

  /** Adds the registers a syllable reads that are not yet defined. */
  method ScanSources(syl: Syllable, use: LiveSet, def: LiveSet) returns (r: LiveSet)
    requires SmallSyllable(syl)
    ensures forall v: nat :: r.Contains(v) == (use.Contains(v) || (UsesReg(syl, v) && !def.Contains(v)))
  {
    r := use;
    for i := 0 to |syl.srcs|
      invariant forall v: nat :: r.Contains(v) == (use.Contains(v) || (RegValue(VReg(v)) in syl.srcs[..i] && !def.Contains(v)))
    {
      var src := syl.srcs[i];
      assert forall v: nat :: RegValue(VReg(v)) in syl.srcs[..i + 1] <==> RegValue(VReg(v)) in syl.srcs[..i] || src == RegValue(VReg(v));
      if src.RegValue? && src.reg.VReg? && !def.Contains(src.reg.v) {
        r := Insert(r, src.reg.v);
      }
    }
    assert syl.srcs[..|syl.srcs|] == syl.srcs;
  }

  lemma {:induction false} ScannedPush(syls: seq<Syllable>, syl: Syllable, use: LiveSet, def: LiveSet, use': LiveSet, def': LiveSet)
    requires Scanned(syls, use, def)
    requires forall v: nat :: use'.Contains(v) == (use.Contains(v) || (UsesReg(syl, v) && !def.Contains(v)))
    requires forall v: nat :: def'.Contains(v) == (def.Contains(v) || DefinesReg(syl, v))
    ensures Scanned(syls + [syl], use', def')
  {
    forall v: nat
      ensures use'.Contains(v) == ExposedIn(syls + [syl], v) && def'.Contains(v) == DefinedIn(syls + [syl], v)
    {
      ScanPush(syls, syl, v);
    }
  }

  lemma {:induction false} ScanStart()
    ensures Scanned([], EMPTY, EMPTY)
  {
    EmptyHasNothing();
  }

  method ScanBlock(block: Block) returns (info: BlockInfo)
    requires SmallBlock(block)
    ensures forall v: nat :: info.useBeforeDef.Contains(v) == Exposed(block, v) && info.def.Contains(v) == Defined(block, v)
    ensures info.liveIn == EMPTY && info.liveOut == EMPTY
  {
    var syls := block.syllables;
    var use, def := EMPTY, EMPTY;
    ScanStart();
    for i := 0 to |syls|
      invariant Scanned(syls[..i], use, def)
    {
      var syl := syls[i];
      var use' := ScanSources(syl, use, def);
      var def' := if syl.dst.Some? && syl.dst.value.VReg? then Insert(def, syl.dst.value.v) else def;
      ScannedPush(syls[..i], syl, use, def, use', def');
      assert syls[..i + 1] == syls[..i] + [syl];
      use, def := use', def';
    }
    assert syls[..|syls|] == syls;
    if block.terminator.BranchTo? && block.terminator.cond.VReg? && !def.Contains(block.terminator.cond.v) {
      use := Insert(use, block.terminator.cond.v);
    }
    info := BlockInfo(use, def, EMPTY, EMPTY);
  }

  // ----- Pass 2: the equations -----

  ghost predicate SomeSuccIn(blocks: seq<Block>, infos: seq<BlockInfo>, i: nat, v: nat)
    requires i < |blocks| == |infos|
  {
    exists s :: s in Successors(blocks, i) && infos[s].liveIn.Contains(v)
  }

  ghost predicate FromOut(info: BlockInfo, v: nat) {
    info.useBeforeDef.Contains(v) || (info.liveOut.Contains(v) && !info.def.Contains(v))
  }

  /** The block's own sets are right. */
  ghost predicate Local(blocks: seq<Block>, infos: seq<BlockInfo>) {
    && |infos| == |blocks|
    && forall i: nat, v: nat :: i < |blocks| ==>
         infos[i].useBeforeDef.Contains(v) == Exposed(blocks[i], v) && infos[i].def.Contains(v) == Defined(blocks[i], v)
  }

  /** Nothing is called live that is not. */
  ghost predicate SoundAt(blocks: seq<Block>, info: BlockInfo, i: nat)
    requires i < |blocks|
  {
    forall v: nat :: (info.liveIn.Contains(v) ==> LiveAt(blocks, i, v)) && (info.liveOut.Contains(v) ==> LiveAfter(blocks, i, v))
  }

  /** The sets only contain what the equations give, so recomputing them can only add. */
  ghost predicate GrowingAt(blocks: seq<Block>, infos: seq<BlockInfo>, i: nat)
    requires i < |blocks| == |infos|
  {
    forall v: nat :: (infos[i].liveIn.Contains(v) ==> FromOut(infos[i], v)) && (infos[i].liveOut.Contains(v) ==> SomeSuccIn(blocks, infos, i, v))
  }

  ghost predicate StableAt(blocks: seq<Block>, infos: seq<BlockInfo>, i: nat)
    requires i < |blocks| == |infos|
  {
    forall v: nat :: infos[i].liveIn.Contains(v) == FromOut(infos[i], v) && infos[i].liveOut.Contains(v) == SomeSuccIn(blocks, infos, i, v)
  }

  ghost predicate Invariant(blocks: seq<Block>, infos: seq<BlockInfo>) {
    && Local(blocks, infos)
    && (forall i :: 0 <= i < |blocks| ==> SoundAt(blocks, infos[i], i))
    && (forall i :: 0 <= i < |blocks| ==> GrowingAt(blocks, infos, i))
  }

  method JoinSuccessors(blocks: seq<Block>, infos: seq<BlockInfo>, i: nat) returns (r: LiveSet)
    requires i < |blocks| == |infos|
    ensures forall v: nat :: r.Contains(v) == SomeSuccIn(blocks, infos, i, v)
  {
    var succs := Successors(blocks, i);
    r := EMPTY;
    EmptyHasNothing();
    for k := 0 to |succs|
      invariant forall v: nat :: r.Contains(v) == exists s :: s in succs[..k] && infos[s].liveIn.Contains(v)
    {
      assert forall s :: s in succs[..k + 1] <==> s in succs[..k] || s == succs[k];
      assert succs[k] in succs;
      r := Union(r, infos[succs[k]].liveIn);
    }
    assert succs[..|succs|] == succs;
  }

  // ----- One update -----

  /** b has at least what a has. */
  ghost predicate AtLeast(a: LiveSet, b: LiveSet) {
    forall v: nat :: a.Contains(v) ==> b.Contains(v)
  }

  ghost predicate IsUpdate(blocks: seq<Block>, infos: seq<BlockInfo>, i: nat, info: BlockInfo)
    requires i < |blocks| == |infos|
  {
    && info.useBeforeDef == infos[i].useBeforeDef && info.def == infos[i].def
    && forall v: nat :: info.liveOut.Contains(v) == SomeSuccIn(blocks, infos, i, v) && info.liveIn.Contains(v) == FromOut(info, v)
  }

  lemma {:induction false} UpdateGrows(blocks: seq<Block>, infos: seq<BlockInfo>, i: nat, info: BlockInfo)
    requires |infos| == |blocks| && i < |blocks| && GrowingAt(blocks, infos, i) && IsUpdate(blocks, infos, i, info)
    ensures AtLeast(infos[i].liveIn, info.liveIn) && AtLeast(infos[i].liveOut, info.liveOut)
  {
    forall v: nat
      ensures (infos[i].liveIn.Contains(v) ==> info.liveIn.Contains(v)) && (infos[i].liveOut.Contains(v) ==> info.liveOut.Contains(v))
    {
    }
  }

  lemma {:induction false} UpdateSound(blocks: seq<Block>, infos: seq<BlockInfo>, i: nat, info: BlockInfo)
    requires Invariant(blocks, infos) && i < |blocks| && IsUpdate(blocks, infos, i, info)
    ensures SoundAt(blocks, info, i)
  {
    forall v: nat
      ensures info.liveOut.Contains(v) ==> LiveAfter(blocks, i, v)
      ensures info.liveIn.Contains(v) ==> LiveAt(blocks, i, v)
    {
      if info.liveOut.Contains(v) {
        var s :| s in Successors(blocks, i) && infos[s].liveIn.Contains(v);
        assert SoundAt(blocks, infos[s], s);
      }
      LiveEquation(blocks, i, v);
    }
  }

  lemma {:induction false} StillSomeSucc(blocks: seq<Block>, infos: seq<BlockInfo>, infos': seq<BlockInfo>, k: nat, v: nat)
    requires |infos| == |blocks| == |infos'| && k < |blocks| && SomeSuccIn(blocks, infos, k, v)
    requires forall j :: 0 <= j < |infos| ==> AtLeast(infos[j].liveIn, infos'[j].liveIn)
    ensures SomeSuccIn(blocks, infos', k, v)
  {
    var s :| s in Successors(blocks, k) && infos[s].liveIn.Contains(v);
    assert AtLeast(infos[s].liveIn, infos'[s].liveIn);
  }

  lemma {:induction false} UpdateGrowing(blocks: seq<Block>, infos: seq<BlockInfo>, i: nat, info: BlockInfo, k: nat)
    requires |infos| == |blocks| && i < |blocks| && k < |blocks| && GrowingAt(blocks, infos, i) && GrowingAt(blocks, infos, k)
    requires IsUpdate(blocks, infos, i, info)
    ensures GrowingAt(blocks, infos[i := info], k)
  {
    var infos' := infos[i := info];
    UpdateGrows(blocks, infos, i, info);
    forall v: nat
      ensures infos'[k].liveIn.Contains(v) ==> FromOut(infos'[k], v)
      ensures infos'[k].liveOut.Contains(v) ==> SomeSuccIn(blocks, infos', k, v)
    {
      if infos'[k].liveOut.Contains(v) {
        StillSomeSucc(blocks, infos, infos', k, v);
      }
    }
  }

  lemma {:induction false} UpdateKeepsInvariant(blocks: seq<Block>, infos: seq<BlockInfo>, i: nat, info: BlockInfo)
    requires Invariant(blocks, infos) && i < |blocks| && IsUpdate(blocks, infos, i, info)
    ensures Invariant(blocks, infos[i := info])
  {
    UpdateSound(blocks, infos, i, info);
    var infos' := infos[i := info];
    forall k | 0 <= k < |blocks|
      ensures GrowingAt(blocks, infos', k)
    {
      UpdateGrowing(blocks, infos, i, info, k);
    }
  }

  // ----- The number of missing members falls -----

  ghost function Missing(sets: seq<LiveSet>): set<(nat, nat)> {
    set i: nat, v: nat | i < |sets| && v < 64 && !sets[i].Contains(v) :: (i, v)
  }

  ghost function Ins(infos: seq<BlockInfo>): seq<LiveSet> {
    seq(|infos|, i requires 0 <= i < |infos| => infos[i].liveIn)
  }

  ghost function Outs(infos: seq<BlockInfo>): seq<LiveSet> {
    seq(|infos|, i requires 0 <= i < |infos| => infos[i].liveOut)
  }

  ghost function MissingCount(infos: seq<BlockInfo>): nat {
    |Missing(Ins(infos))| + |Missing(Outs(infos))|
  }

  lemma {:induction false} MissingShrinks(sets: seq<LiveSet>, i: nat, s: LiveSet)
    requires i < |sets| && AtLeast(sets[i], s)
    ensures |Missing(sets[i := s])| <= |Missing(sets)|
    ensures s != sets[i] ==> |Missing(sets[i := s])| < |Missing(sets)|
  {
    var sets' := sets[i := s];
    assert Missing(sets') <= Missing(sets);
    if s != sets[i] {
      var v := DifferentMember(s, sets[i]);
      assert (i, v) in Missing(sets) && (i, v) !in Missing(sets');
    }
    SubsetSize(Missing(sets'), Missing(sets));
  }

  lemma {:induction false} UpdateCounts(blocks: seq<Block>, infos: seq<BlockInfo>, i: nat, info: BlockInfo)
    requires |infos| == |blocks| && i < |blocks| && GrowingAt(blocks, infos, i) && IsUpdate(blocks, infos, i, info)
    requires info.liveIn != infos[i].liveIn || info.liveOut != infos[i].liveOut
    ensures MissingCount(infos[i := info]) < MissingCount(infos)
  {
    UpdateGrows(blocks, infos, i, info);
    MissingShrinks(Ins(infos), i, info.liveIn);
    MissingShrinks(Outs(infos), i, info.liveOut);
    assert Ins(infos[i := info]) == Ins(infos)[i := info.liveIn];
    assert Outs(infos[i := info]) == Outs(infos)[i := info.liveOut];
  }

  // ----- When nothing changes, nothing is missing -----

  ghost predicate Stable(blocks: seq<Block>, infos: seq<BlockInfo>) {
    |infos| == |blocks| && forall i :: 0 <= i < |blocks| ==> StableAt(blocks, infos, i)
  }

  lemma {:induction false} StablePath(blocks: seq<Block>, infos: seq<BlockInfo>, p: seq<nat>, v: nat)
    requires Local(blocks, infos) && Stable(blocks, infos) && IsLivePath(blocks, p, v)
    ensures infos[p[0]].liveIn.Contains(v)
    decreases |p|
  {
    assert StableAt(blocks, infos, p[0]);
    if |p| > 1 {
      TailIsLive(blocks, p, v);
      StablePath(blocks, infos, p[1..], v);
      assert SomeSuccIn(blocks, infos, p[0], v);
    }
  }

  /** The result is exact, register by register. */
  ghost predicate Exact(blocks: seq<Block>, infos: seq<BlockInfo>) {
    && |infos| == |blocks|
    && forall i: nat, v: nat :: i < |blocks| ==>
         infos[i].liveIn.Contains(v) == LiveAt(blocks, i, v) && infos[i].liveOut.Contains(v) == LiveAfter(blocks, i, v)
  }

  lemma {:induction false} StableIsExact(blocks: seq<Block>, infos: seq<BlockInfo>)
    requires Invariant(blocks, infos) && Stable(blocks, infos)
    ensures Exact(blocks, infos)
  {
    forall i: nat, v: nat | i < |blocks| && LiveAt(blocks, i, v)
      ensures infos[i].liveIn.Contains(v)
    {
      var p :| IsLivePath(blocks, p, v) && p[0] == i;
      StablePath(blocks, infos, p, v);
    }
    forall i: nat, v: nat | i < |blocks|
      ensures infos[i].liveIn.Contains(v) == LiveAt(blocks, i, v) && infos[i].liveOut.Contains(v) == LiveAfter(blocks, i, v)
    {
      assert SoundAt(blocks, infos[i], i) && StableAt(blocks, infos, i);
      if LiveAfter(blocks, i, v) {
        var s :| s in Successors(blocks, i) && LiveAt(blocks, s, v);
        assert SomeSuccIn(blocks, infos, i, v);
      }
    }
  }

  // ----- The analysis -----

  method Recompute(blocks: seq<Block>, infos: seq<BlockInfo>, i: nat) returns (info: BlockInfo)
    requires i < |blocks| == |infos|
    ensures IsUpdate(blocks, infos, i, info)
  {
    var out := JoinSuccessors(blocks, infos, i);
    var live := Union(infos[i].useBeforeDef, Difference(out, infos[i].def));
    info := infos[i].(liveIn := live, liveOut := out);
  }

  lemma {:induction false} UnchangedIsStable(blocks: seq<Block>, infos: seq<BlockInfo>, i: nat, info: BlockInfo)
    requires i < |blocks| == |infos| && IsUpdate(blocks, infos, i, info)
    requires info.liveIn == infos[i].liveIn && info.liveOut == infos[i].liveOut
    ensures StableAt(blocks, infos, i)
  {
  }

  /** One sweep over the blocks, last to first. */
  method Sweep(blocks: seq<Block>, before: seq<BlockInfo>) returns (infos: seq<BlockInfo>, changed: bool)
    requires Invariant(blocks, before)
    ensures Invariant(blocks, infos)
    ensures changed ==> MissingCount(infos) < MissingCount(before)
    ensures !changed ==> infos == before && Stable(blocks, infos)
  {
    infos, changed := before, false;
    for i := |blocks| downto 0
      invariant Invariant(blocks, infos)
      invariant changed ==> MissingCount(infos) < MissingCount(before)
      invariant !changed ==> infos == before && forall k :: i <= k < |blocks| ==> StableAt(blocks, infos, k)
    {
      var info := Recompute(blocks, infos, i);
      if info.liveOut != infos[i].liveOut || info.liveIn != infos[i].liveIn {
        UpdateKeepsInvariant(blocks, infos, i, info);
        UpdateCounts(blocks, infos, i, info);
        changed := true;
        infos := infos[i := info];
      } else {
        UnchangedIsStable(blocks, infos, i, info);
      }
    }
  }

  lemma {:induction false} StartInvariant(blocks: seq<Block>, infos: seq<BlockInfo>)
    requires Local(blocks, infos) && forall i :: 0 <= i < |infos| ==> infos[i].liveIn == EMPTY && infos[i].liveOut == EMPTY
    ensures Invariant(blocks, infos)
  {
    EmptyHasNothing();
  }

  /** The analysis ends, with exactly the registers that are live at the start and the end of each block. */
  method Compute(blocks: seq<Block>) returns (infos: seq<BlockInfo>)
    requires forall i :: 0 <= i < |blocks| ==> SmallBlock(blocks[i])
    ensures Local(blocks, infos) && Exact(blocks, infos)
  {
    infos := [];
    for i := 0 to |blocks|
      invariant |infos| == i && Local(blocks[..i], infos)
      invariant forall k :: 0 <= k < i ==> infos[k].liveIn == EMPTY && infos[k].liveOut == EMPTY
    {
      var info := ScanBlock(blocks[i]);
      infos := infos + [info];
    }
    assert blocks[..|blocks|] == blocks;
    StartInvariant(blocks, infos);
    var changed := true;
    while changed
      invariant Invariant(blocks, infos) && (!changed ==> Stable(blocks, infos))
      decreases MissingCount(infos), if changed then 1 else 0
    {
      infos, changed := Sweep(blocks, infos);
    }
    StableIsExact(blocks, infos);
  }
}
