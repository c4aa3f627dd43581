/** Every schedule the list scheduler may produce computes what the block computed. */
module ScheduleMeaning {
  import opened Opcodes
  import opened Mir
  import opened Machine
  import opened Reorder
  import opened SchedDag
  import opened Scheduler

  /** The bytes of an access whose address is a constant. */
  predicate StaticTouches(syl: Syllable, a: int) {
    var m := Decode(syl);
    !m.Compute? && m.base == ZERO && m.offset <= a < m.offset + Width(m.op)
  }

  predicate StoresOne(x: Syllable, y: Syllable) {
    Decode(x).Store? || Decode(y).Store?
  }

  /** What the alias analysis takes for granted: no store to a stack slot or an absolute address meets the other kind. */
  ghost predicate BucketsDisjoint(syls: seq<Syllable>) {
    forall x, y, a :: x in syls && y in syls && BucketOf(x) == StackBucket && BucketOf(y) == GlobalBucket && StoresOne(x, y) ==>
      !(StaticTouches(x, a) && StaticTouches(y, a))
  }

  lemma {:induction false} PathRespectsOrder(g: Graph, order: seq<nat>, p: seq<nat>, q: nat)
    requires Topological(g, order) && IsPath(g, p) && q < |order| && order[q] == p[|p| - 1]
    ensures p[0] in order[..q + 1]
    ensures |p| > 1 ==> p[0] in order[..q]
    decreases |p|
  {
    if |p| > 1 {
      var prev := p[|p| - 2];
      assert p[|p| - 2 + 1] in g[prev];
      assert prev in Preds(g, order[q]);
      var q' :| 0 <= q' < q && order[q'] == prev;
      PathRespectsOrder(g, order, p[..|p| - 1], q');
    } else {
      assert order[..q + 1][q] == p[0];
    }
  }

  lemma {:induction false} ConflictsKeepOrder(syls: seq<Syllable>, g: Graph, order: seq<nat>, i: nat, j: nat, qi: nat, qj: nat)
    requires IsSchedule(syls, g, order) && Conflict(syls, i, j)
    requires qi < |order| && qj < |order| && order[qi] == i && order[qj] == j
    ensures qi < qj
  {
    ConflictsAreJoined(syls, g, i, j);
    var p :| IsPathBetween(g, p, i, j);
    PathRespectsOrder(g, order, p, qj);
    var q :| 0 <= q < qj && order[q] == i;
  }

  lemma {:induction false} UnorderedAreSwappable(isa: Isa, syls: seq<Syllable>, i: nat, j: nat)
    requires i < j < |syls| && !Conflict(syls, i, j) && BucketsDisjoint(syls)
    ensures Swappable(Executing(isa), Decode(syls[i]), Decode(syls[j]))
  {
    var x, y := Decode(syls[i]), Decode(syls[j]);
    forall k
      ensures !(Writes(x, k) && (Reads(y, k) || Writes(y, k))) && !(Reads(x, k) && Writes(y, k))
    {
      assert !KeyConflict(syls[i], syls[j], k);
      DecodeKeys(syls[i], k);
      DecodeKeys(syls[j], k);
    }
    assert RegIndependent(x, y);
    forall s: State
      ensures Exec(isa, y, Exec(isa, x, s)) == Exec(isa, x, Exec(isa, y, s))
    {
      if !x.Compute? && !y.Compute? && (x.Store? || y.Store?) {
        ConstantBucketsApart(syls, i, j, s);
      }
      IndependentCommute(isa, x, y, s);
    }
  }

  lemma {:induction false} ConstantBucketsApart(syls: seq<Syllable>, i: nat, j: nat, s: State)
    requires i < j < |syls| && !Conflict(syls, i, j) && BucketsDisjoint(syls)
    requires !Decode(syls[i]).Compute? && !Decode(syls[j]).Compute? && StoresOne(syls[i], syls[j])
    ensures forall a :: !(Touches(Decode(syls[i]), s, a) && Touches(Decode(syls[j]), s, a))
  {
    var x, y := syls[i], syls[j];
    assert IsMemoryOpcode(x.opcode) && IsMemoryOpcode(y.opcode);
    assert !MayAlias(BucketOf(x), BucketOf(y));
    forall a
      ensures !(Touches(Decode(x), s, a) && Touches(Decode(y), s, a))
    {
      assert Touches(Decode(x), s, a) <==> StaticTouches(x, a);
      assert Touches(Decode(y), s, a) <==> StaticTouches(y, a);
      assert x in syls && y in syls;
    }
  }

  function Identity(n: nat): seq<nat> {
    seq(n, i => i)
  }

  /**
   * Meaning preservation: from every start state, under every instruction set, the scheduled order leaves
   * the same registers, predicates and memory as program order.
   */
  lemma {:induction false} SchedulePreservesMeaning(isa: Isa, syls: seq<Syllable>, g: Graph, order: seq<nat>, s: State)
    requires IsSchedule(syls, g, order) && BucketsDisjoint(syls)
    ensures Run(isa, DecodeAll(Reordered(syls, order)), s) == Run(isa, DecodeAll(syls), s)
  {
    var ms, id := DecodeAll(syls), Identity(|syls|);
    assert Pick(ms, id) == ms;
    assert Pick(ms, order) == DecodeAll(Reordered(syls, order));
    forall x
      ensures x in id <==> x in order
    {
      if 0 <= x < |syls| {
        assert id[x] == x;
      }
      MissingNode(order, |syls|);
    }
    forall i, j | Inverted(id, order, i, j)
      ensures Swappable(Executing(isa), ms[id[i]], ms[id[j]])
    {
      var qj, qi :| 0 <= qj < qi < |order| && order[qj] == id[j] && order[qi] == id[i];
      if Conflict(syls, i, j) {
        ConflictsKeepOrder(syls, g, order, i, j, qi, qj);
      }
      UnorderedAreSwappable(isa, syls, i, j);
    }
    ReorderPreservesRun(isa, ms, id, order, s);
  }
}
