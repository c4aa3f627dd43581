/** The live registers are those whose values can still be used, wherever control can go. */
module LivenessMeaning {
  import opened Opcodes
  import opened Mir
  import opened MirRuns
  import opened Liveness

  // ----- Where control can go -----

  lemma {:induction false} LabelIndexNamed(blocks: seq<Block>, name: string, j: nat, n: nat)
    requires n <= |blocks| && forall m :: n <= m < |blocks| ==> blocks[m].name != name
    ensures LabelIndex(blocks, name, n) == Some(j) <==> Named(blocks, name, j)
  {
    if n > 0 && blocks[n - 1].name != name {
      LabelIndexNamed(blocks, name, j, n - 1);
    }
  }

  /** The analysis follows every way control can go, and no other. */
  lemma {:induction false} SuccessorsExactlyWhen(blocks: seq<Block>, i: nat, j: nat)
    requires i < |blocks|
    ensures j in Successors(blocks, i) <==> Goes(blocks, i, j)
  {
    match blocks[i].terminator
    case BranchTo(_, target) => LabelIndexNamed(blocks, target, j, |blocks|);
    case JumpTo(target) => LabelIndexNamed(blocks, target, j, |blocks|);
    case DirectCall(_, cont) => LabelIndexNamed(blocks, cont, j, |blocks|);
    case Return =>
  }

  // ----- Registers still to be used -----

  predicate CanFollow(blocks: seq<Block>, p: Place, q: Place)
    requires IsPlace(blocks, p)
  {
    if AtTerminator(blocks, p) then q.at == 0 && Goes(blocks, p.block, q.block) else q == Place(p.block, p.at + 1)
  }

  predicate UsedAt(blocks: seq<Block>, p: Place, v: nat)
    requires IsPlace(blocks, p)
  {
    if AtTerminator(blocks, p) then
      TerminatorAt(blocks, p).BranchTo? && TerminatorAt(blocks, p).cond == VReg(v)
    else
      UsesReg(SyllableAt(blocks, p), v)
  }

  predicate DefinedAt(blocks: seq<Block>, p: Place, v: nat)
    requires IsPlace(blocks, p)
  {
    !AtTerminator(blocks, p) && DefinesReg(SyllableAt(blocks, p), v)
  }

  /** A way through the function that ends at a use of v and passes no definition of it before. */
  ghost predicate LeadsToUse(blocks: seq<Block>, t: seq<Place>, v: nat) {
    && t != [] && (forall k :: 0 <= k < |t| ==> IsPlace(blocks, t[k]))
    && (forall k :: 0 <= k < |t| - 1 ==> CanFollow(blocks, t[k], t[k + 1]) && !DefinedAt(blocks, t[k], v))
    && UsedAt(blocks, t[|t| - 1], v)
  }

  /** The value v holds at place p can still be used. */
  ghost predicate Needed(blocks: seq<Block>, p: Place, v: nat) {
    exists t :: LeadsToUse(blocks, t, v) && t[0] == p
  }

  lemma {:induction false} UsedIsNeeded(blocks: seq<Block>, p: Place, v: nat)
    requires IsPlace(blocks, p) && UsedAt(blocks, p, v)
    ensures Needed(blocks, p, v)
  {
    assert LeadsToUse(blocks, [p], v);
  }

  lemma {:induction false} NeededBefore(blocks: seq<Block>, p: Place, q: Place, v: nat)
    requires IsPlace(blocks, p) && CanFollow(blocks, p, q) && !DefinedAt(blocks, p, v) && Needed(blocks, q, v)
    ensures Needed(blocks, p, v)
  {
    var t :| LeadsToUse(blocks, t, v) && t[0] == q;
    var u := [p] + t;
    forall k | 0 <= k < |u| - 1
      ensures CanFollow(blocks, u[k], u[k + 1]) && !DefinedAt(blocks, u[k], v)
    {
      assert k > 0 ==> u[k] == t[k - 1] && u[k + 1] == t[k - 1 + 1];
    }
    assert LeadsToUse(blocks, u, v);
  }

  // ----- The analysis finds just the registers that can still be used -----

  /** Used in the rest of the block before any definition. */
  predicate ExposedFrom(block: Block, at: nat, v: nat) {
    || (exists i :: at <= i < |block.syllables| && UsesReg(block.syllables[i], v) && UndefinedFrom(block, at, i, v))
    || (block.terminator.BranchTo? && block.terminator.cond == VReg(v) && UndefinedFrom(block, at, |block.syllables|, v))
  }

  predicate UndefinedFrom(block: Block, at: nat, end: nat, v: nat) {
    forall i :: at <= i < end && i < |block.syllables| ==> !DefinesReg(block.syllables[i], v)
  }

  lemma {:induction false} ExposedFromStart(block: Block, v: nat)
    ensures ExposedFrom(block, 0, v) <==> Exposed(block, v)
    ensures UndefinedFrom(block, 0, |block.syllables|, v) <==> !Defined(block, v)
  {
    var syls := block.syllables;
    forall i | 0 <= i <= |syls|
      ensures UndefinedFrom(block, 0, i, v) <==> !DefinedIn(syls[..i], v)
    {
      assert forall k :: 0 <= k < i ==> syls[..i][k] == syls[k];
    }
    assert syls[..|syls|] == syls;
  }

  /** v is live in the middle of a block. */
  ghost predicate LiveFrom(blocks: seq<Block>, p: Place, v: nat)
    requires IsPlace(blocks, p)
  {
    var block := blocks[p.block];
    ExposedFrom(block, p.at, v) || (UndefinedFrom(block, p.at, |block.syllables|, v) && LiveAfter(blocks, p.block, v))
  }

  lemma {:induction false} LiveFromStart(blocks: seq<Block>, i: nat, v: nat)
    requires i < |blocks|
    ensures LiveFrom(blocks, Place(i, 0), v) <==> LiveAt(blocks, i, v)
  {
    ExposedFromStart(blocks[i], v);
    LiveEquation(blocks, i, v);
  }

  lemma {:induction false} ExposedFromNext(block: Block, at: nat, v: nat)
    requires at < |block.syllables|
    ensures var syl := block.syllables[at];
            && (ExposedFrom(block, at, v) <==> UsesReg(syl, v) || (!DefinesReg(syl, v) && ExposedFrom(block, at + 1, v)))
            && (UndefinedFrom(block, at, |block.syllables|, v) <==> !DefinesReg(syl, v) && UndefinedFrom(block, at + 1, |block.syllables|, v))
  {
    var syls := block.syllables;
    forall i: nat | at < i
      ensures UndefinedFrom(block, at, i, v) <==> !DefinesReg(syls[at], v) && UndefinedFrom(block, at + 1, i, v)
    {
    }
    if UsesReg(syls[at], v) {
      assert UndefinedFrom(block, at, at, v);
    }
  }

  lemma {:induction false} LiveFromNext(blocks: seq<Block>, p: Place, v: nat)
    requires IsPlace(blocks, p) && !AtTerminator(blocks, p)
    ensures LiveFrom(blocks, p, v) <==> UsedAt(blocks, p, v) || (!DefinedAt(blocks, p, v) && LiveFrom(blocks, Place(p.block, p.at + 1), v))
  {
    ExposedFromNext(blocks[p.block], p.at, v);
  }

  lemma {:induction false} LiveFromEnd(blocks: seq<Block>, p: Place, v: nat)
    requires IsPlace(blocks, p) && AtTerminator(blocks, p)
    ensures LiveFrom(blocks, p, v) <==> UsedAt(blocks, p, v) || exists j: nat :: Goes(blocks, p.block, j) && LiveAt(blocks, j, v)
  {
    forall j: nat
      ensures j in Successors(blocks, p.block) <==> Goes(blocks, p.block, j)
    {
      SuccessorsExactlyWhen(blocks, p.block, j);
    }
  }

  lemma {:induction false} LeadsToUseIsLive(blocks: seq<Block>, t: seq<Place>, v: nat)
    requires LeadsToUse(blocks, t, v)
    ensures LiveFrom(blocks, t[0], v)
    decreases |t|
  {
    var p := t[0];
    if |t| > 1 {
      var u := t[1..];
      assert CanFollow(blocks, t[0], t[0 + 1]);
      assert forall k :: 0 <= k < |u| ==> u[k] == t[k + 1];
      forall k | 0 <= k < |u| - 1
        ensures CanFollow(blocks, u[k], u[k + 1]) && !DefinedAt(blocks, u[k], v)
      {
        assert CanFollow(blocks, t[k + 1], t[k + 1 + 1]);
      }
      LeadsToUseIsLive(blocks, u, v);
      if AtTerminator(blocks, p) { LiveFromStart(blocks, u[0].block, v); }
    }
    if AtTerminator(blocks, p) { LiveFromEnd(blocks, p, v); } else { LiveFromNext(blocks, p, v); }
  }

  lemma {:induction false} ExposedIsNeeded(blocks: seq<Block>, p: Place, v: nat)
    requires IsPlace(blocks, p) && ExposedFrom(blocks[p.block], p.at, v)
    ensures Needed(blocks, p, v)
    decreases |blocks[p.block].syllables| - p.at
  {
    if UsedAt(blocks, p, v) {
      UsedIsNeeded(blocks, p, v);
    } else {
      ExposedFromNext(blocks[p.block], p.at, v);
      ExposedIsNeeded(blocks, Place(p.block, p.at + 1), v);
      NeededBefore(blocks, p, Place(p.block, p.at + 1), v);
    }
  }

  lemma {:induction false} NeededThrough(blocks: seq<Block>, p: Place, j: nat, v: nat)
    requires IsPlace(blocks, p) && UndefinedFrom(blocks[p.block], p.at, |blocks[p.block].syllables|, v)
    requires Goes(blocks, p.block, j) && Needed(blocks, Place(j, 0), v)
    ensures Needed(blocks, p, v)
    decreases |blocks[p.block].syllables| - p.at
  {
    if AtTerminator(blocks, p) {
      NeededBefore(blocks, p, Place(j, 0), v);
    } else {
      ExposedFromNext(blocks[p.block], p.at, v);
      NeededThrough(blocks, Place(p.block, p.at + 1), j, v);
      NeededBefore(blocks, p, Place(p.block, p.at + 1), v);
    }
  }

  lemma {:induction false} LivePathIsNeeded(blocks: seq<Block>, p: seq<nat>, v: nat)
    requires IsLivePath(blocks, p, v)
    ensures Needed(blocks, Place(p[0], 0), v)
    decreases |p|
  {
    ExposedFromStart(blocks[p[0]], v);
    if |p| == 1 {
      ExposedIsNeeded(blocks, Place(p[0], 0), v);
    } else {
      TailIsLive(blocks, p, v);
      LivePathIsNeeded(blocks, p[1..], v);
      SuccessorsExactlyWhen(blocks, p[0], p[1]);
      NeededThrough(blocks, Place(p[0], 0), p[1], v);
    }
  }

  /** A register is live at a block just when its value there can still be used. */
  lemma {:induction false} LiveExactlyWhen(blocks: seq<Block>, i: nat, v: nat)
    requires i < |blocks|
    ensures LiveAt(blocks, i, v) <==> Needed(blocks, Place(i, 0), v)
  {
    if LiveAt(blocks, i, v) {
      var p :| IsLivePath(blocks, p, v) && p[0] == i;
      LivePathIsNeeded(blocks, p, v);
    }
    if Needed(blocks, Place(i, 0), v) {
      var t :| LeadsToUse(blocks, t, v) && t[0] == Place(i, 0);
      LeadsToUseIsLive(blocks, t, v);
      LiveFromStart(blocks, i, v);
    }
  }

  /** Live after a block: its value is still needed at some place control can go to from there. */
  lemma {:induction false} LiveAfterExactlyWhen(blocks: seq<Block>, i: nat, v: nat)
    requires i < |blocks|
    ensures LiveAfter(blocks, i, v) <==> exists j: nat :: Goes(blocks, i, j) && Needed(blocks, Place(j, 0), v)
  {
    forall j: nat
      ensures j in Successors(blocks, i) <==> Goes(blocks, i, j)
      ensures j < |blocks| ==> (LiveAt(blocks, j, v) <==> Needed(blocks, Place(j, 0), v))
    {
      SuccessorsExactlyWhen(blocks, i, j);
      if j < |blocks| { LiveExactlyWhen(blocks, j, v); }
    }
  }
}
