/** What it means for a virtual register to be live, and its dataflow equations. */
module Liveness {
  import opened Opcodes
  import opened Mir

  predicate UsesReg(syl: Syllable, v: nat) { RegValue(VReg(v)) in syl.srcs }

  predicate DefinesReg(syl: Syllable, v: nat) { syl.dst == Some(VReg(v)) }

  predicate DefinedIn(syls: seq<Syllable>, v: nat) {
    exists i :: 0 <= i < |syls| && DefinesReg(syls[i], v)
  }

  /** Used before any definition. */
  predicate ExposedIn(syls: seq<Syllable>, v: nat) {
    exists i :: 0 <= i < |syls| && UsesReg(syls[i], v) && !DefinedIn(syls[..i], v)
  }

  predicate Defined(block: Block, v: nat) { DefinedIn(block.syllables, v) }

  predicate Exposed(block: Block, v: nat) {
    ExposedIn(block.syllables, v) || (block.terminator.BranchTo? && block.terminator.cond == VReg(v) && !Defined(block, v))
  }

  // ----- The control-flow graph -----

  /** The index of a label; the last block of that name counts. */
  function LabelIndex(blocks: seq<Block>, name: string, n: nat): (r: Option<nat>)
    requires n <= |blocks|
    ensures r.Some? ==> r.value < n && blocks[r.value].name == name
    ensures r.None? ==> forall i :: 0 <= i < n ==> blocks[i].name != name
  {
    if n == 0 then None
    else if blocks[n - 1].name == name then Some(n - 1)
    else LabelIndex(blocks, name, n - 1)
  }

  function Target(blocks: seq<Block>, name: string): (r: seq<nat>)
    ensures forall j :: j in r ==> j < |blocks|
  {
    match LabelIndex(blocks, name, |blocks|)
    case Some(j) => [j]
    case None => []
  }

  /** A branch may also fall through; a call continues at its continuation. */
  function Successors(blocks: seq<Block>, i: nat): (r: seq<nat>)
    requires i < |blocks|
    ensures forall j :: j in r ==> j < |blocks|
  {
    match blocks[i].terminator
    case BranchTo(_, target) =>
      var succs := Target(blocks, target);
      if i + 1 < |blocks| && i + 1 !in succs then succs + [i + 1] else succs
    case JumpTo(target) => Target(blocks, target)
    case Return => []
    case DirectCall(_, cont) => Target(blocks, cont)
  }

  ghost predicate IsPath(blocks: seq<Block>, p: seq<nat>) {
    && p != [] && (forall k :: 0 <= k < |p| ==> p[k] < |blocks|)
    && forall k :: 0 <= k < |p| - 1 ==> p[k + 1] in Successors(blocks, p[k])
  }

  /** p leads from a use of v backwards over blocks that do not redefine it. */
  ghost predicate IsLivePath(blocks: seq<Block>, p: seq<nat>, v: nat) {
    && IsPath(blocks, p) && Exposed(blocks[p[|p| - 1]], v)
    && forall k :: 0 <= k < |p| - 1 ==> !Defined(blocks[p[k]], v)
  }

  /** Some path from the start of block i reaches a use of v before any redefinition. */
  ghost predicate LiveAt(blocks: seq<Block>, i: nat, v: nat) {
    exists p :: IsLivePath(blocks, p, v) && p[0] == i
  }

  ghost predicate LiveAfter(blocks: seq<Block>, i: nat, v: nat)
    requires i < |blocks|
  {
    exists s :: s in Successors(blocks, i) && LiveAt(blocks, s, v)
  }

  lemma {:induction false} ExposedIsLive(blocks: seq<Block>, i: nat, v: nat)
    requires i < |blocks| && Exposed(blocks[i], v)
    ensures LiveAt(blocks, i, v)
  {
    assert IsLivePath(blocks, [i], v);
  }

  lemma {:induction false} LiveThrough(blocks: seq<Block>, i: nat, v: nat)
    requires i < |blocks| && !Defined(blocks[i], v) && LiveAfter(blocks, i, v)
    ensures LiveAt(blocks, i, v)
  {
    var s :| s in Successors(blocks, i) && LiveAt(blocks, s, v);
    var p :| IsLivePath(blocks, p, v) && p[0] == s;
    var q := [i] + p;
    assert forall k :: 0 < k < |q| ==> q[k] == p[k - 1];
    assert IsPath(blocks, q) by {
      forall k | 0 <= k < |q| - 1
        ensures q[k + 1] in Successors(blocks, q[k])
      {
        assert k > 0 ==> p[k - 1 + 1] in Successors(blocks, p[k - 1]);
      }
    }
    assert IsLivePath(blocks, q, v);
  }

  lemma {:induction false} TailIsLive(blocks: seq<Block>, p: seq<nat>, v: nat)
    requires IsLivePath(blocks, p, v) && |p| > 1
    ensures !Defined(blocks[p[0]], v) && p[1] in Successors(blocks, p[0]) && IsLivePath(blocks, p[1..], v)
  {
    var q := p[1..];
    assert forall k :: 0 <= k < |q| ==> q[k] == p[k + 1];
    assert p[0 + 1] in Successors(blocks, p[0]);
    forall k | 0 <= k < |q| - 1
      ensures q[k + 1] in Successors(blocks, q[k]) && !Defined(blocks[q[k]], v)
    {
      assert p[k + 1 + 1] in Successors(blocks, p[k + 1]);
    }
  }

  /** The live registers solve the dataflow equations. */
  lemma {:induction false} LiveEquation(blocks: seq<Block>, i: nat, v: nat)
    requires i < |blocks|
    ensures LiveAt(blocks, i, v) <==> Exposed(blocks[i], v) || (!Defined(blocks[i], v) && LiveAfter(blocks, i, v))
  {
    if LiveAt(blocks, i, v) {
      var p :| IsLivePath(blocks, p, v) && p[0] == i;
      if |p| > 1 {
        TailIsLive(blocks, p, v);
        assert LiveAt(blocks, p[1], v);
      }
    }
    if Exposed(blocks[i], v) {
      ExposedIsLive(blocks, i, v);
    } else if !Defined(blocks[i], v) && LiveAfter(blocks, i, v) {
      LiveThrough(blocks, i, v);
    }
  }

  // ----- Any solution contains the live registers -----

  /** `holds(i, v)` is closed under the equations. */
  ghost predicate ClosedUnder(blocks: seq<Block>, holds: (nat, nat) -> bool) {
    forall i: nat, v: nat :: i < |blocks| && (Exposed(blocks[i], v) || (!Defined(blocks[i], v) && exists s :: s in Successors(blocks, i) && holds(s, v))) ==>
      holds(i, v)
  }

  lemma {:induction false} LivePathHolds(blocks: seq<Block>, holds: (nat, nat) -> bool, p: seq<nat>, v: nat)
    requires ClosedUnder(blocks, holds) && IsLivePath(blocks, p, v)
    ensures holds(p[0], v)
    decreases |p|
  {
    if |p| > 1 {
      TailIsLive(blocks, p, v);
      LivePathHolds(blocks, holds, p[1..], v);
    }
  }

  /** The live registers are the least solution. */
  lemma {:induction false} LiveIsLeast(blocks: seq<Block>, holds: (nat, nat) -> bool, i: nat, v: nat)
    requires ClosedUnder(blocks, holds) && LiveAt(blocks, i, v)
    ensures holds(i, v)
  {
    var p :| IsLivePath(blocks, p, v) && p[0] == i;
    LivePathHolds(blocks, holds, p, v);
  }
}
