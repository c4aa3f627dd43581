/** How much freedom the dependence graph leaves: just the pairs that may be exchanged. */
module ScheduleFreedom {
  import opened Collections
  import opened Opcodes
  import opened Mir
  import opened SchedDag
  import opened Scheduler
  import opened ScheduleMeaning

  /** A stack slot and an absolute address. */
  predicate StackAccess(x: Syllable) {
    (IsLoad(x.opcode) || IsStore(x.opcode)) && x.srcs != [] && x.srcs[0].Stack?
  }

  predicate AbsoluteAccess(x: Syllable) {
    (IsLoad(x.opcode) || IsStore(x.opcode)) && x.srcs != [] && x.srcs[0].Imm?
  }

  /** A memory operation with any other address is ordered against everything. */
  predicate UnknownAccess(x: Syllable) {
    IsMemoryOpcode(x.opcode) && !StackAccess(x) && !AbsoluteAccess(x)
  }

  /** Two syllables are kept in order for a register, for an unknown address, or for two addresses of one kind. */
  lemma {:induction false} ConflictExactlyWhen(syls: seq<Syllable>, i: nat, j: nat)
    requires i < j < |syls|
    ensures var x, y := syls[i], syls[j];
            Conflict(syls, i, j) <==>
              || (exists k :: KeyConflict(x, y, k)) || UnknownAccess(x) || UnknownAccess(y)
              || (StackAccess(x) && StackAccess(y)) || (AbsoluteAccess(x) && AbsoluteAccess(y))
  {
    var x, y := syls[i], syls[j];
    assert IsLoad(x.opcode) || IsStore(x.opcode) ==> IsMemoryOpcode(x.opcode);
    assert IsLoad(y.opcode) || IsStore(y.opcode) ==> IsMemoryOpcode(y.opcode);
    assert IsBarrier(x) <==> UnknownAccess(x);
    assert IsBarrier(y) <==> UnknownAccess(y);
  }

  lemma {:induction false} EdgesAreConflicts(syls: seq<Syllable>, i: nat, j: nat)
    requires Edge(syls, i, j)
    ensures Conflict(syls, i, j)
  {
    if SourceEdge(syls, i, j) {
      var k :| ReadsKey(syls[j], k) && IsLastWriter(syls, k, j, i);
      assert KeyConflict(syls[i], syls[j], k);
    } else if DestEdge(syls, i, j) {
      assert KeyConflict(syls[i], syls[j], DestRegKey(syls[j]).value);
    }
  }

  /** The order has every conflicting pair as the program has it. */
  ghost predicate KeepsConflicts(syls: seq<Syllable>, order: seq<nat>) {
    forall p, q :: 0 <= p < q < |order| ==> !Conflict(syls, order[q], order[p])
  }

  /** The graph admits just the orders of the block in which every conflicting pair keeps its order. */
  lemma {:induction false} ScheduleExactlyWhen(syls: seq<Syllable>, g: Graph, order: seq<nat>)
    requires IsSchedDag(syls, g) && |order| == |syls| && Distinct(order) && InBounds(order, |syls|)
    ensures IsSchedule(syls, g, order) <==> KeepsConflicts(syls, order)
  {
    if IsSchedule(syls, g, order) {
      forall p, q | 0 <= p < q < |order|
        ensures !Conflict(syls, order[q], order[p])
      {
        if Conflict(syls, order[q], order[p]) {
          ConflictsKeepOrder(syls, g, order, order[q], order[p], q, p);
        }
      }
    }
    if KeepsConflicts(syls, order) {
      forall p, i | 0 <= p < |order| && i in Preds(g, order[p])
        ensures i in order[..p]
      {
        EdgesAreConflicts(syls, i, order[p]);
        var q := PlaceOf(syls, order, i);
        assert q < p ==> order[..p][q] == i;
      }
    }
  }

  lemma {:induction false} PlaceOf(syls: seq<Syllable>, order: seq<nat>, i: nat) returns (q: nat)
    requires |order| == |syls| && Distinct(order) && InBounds(order, |syls|) && i < |syls|
    ensures q < |order| && order[q] == i
  {
    MissingNode(order, |syls|);
    assert i in order;
    q :| 0 <= q < |order| && order[q] == i;
  }
}
