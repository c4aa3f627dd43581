/** Critical-path list scheduling of one block. */
module Scheduler {
  import opened Collections
  import opened Opcodes
  import opened Mir
  import opened Ready
  import opened SchedDag
  import opened DagBuilder

  // ----- Node lists -----

  /** The members of s from lo up, in increasing order. */
  function InOrder(s: set<nat>, lo: nat, n: nat): (r: seq<nat>)
    requires lo <= n
    ensures forall x :: x in r <==> x in s && lo <= x < n
    ensures forall q :: 0 <= q < |r| ==> lo <= r[q] < n
    ensures Distinct(r)
    decreases n - lo
  {
    if lo == n then [] else
    if lo in s then [lo] + InOrder(s, lo + 1, n) else InOrder(s, lo + 1, n)
  }

  predicate Forward(g: Graph) {
    forall i, j :: 0 <= i < |g| && j in g[i] ==> i < j < |g|
  }

  ghost function Preds(g: Graph, k: nat): set<nat> {
    set i | 0 <= i < |g| && k in g[i]
  }

  method CountPreds(g: Graph) returns (counts: seq<nat>)
    requires Forward(g)
    ensures |counts| == |g| && forall k :: 0 <= k < |g| ==> counts[k] == |Preds(g, k)|
  {
    counts := seq(|g|, _ => 0);
    for i := 0 to |g|
      invariant |counts| == |g|
      invariant forall k :: 0 <= k < |g| ==> counts[k] == |Preds(g[..i], k)|
    {
      var succs := InOrder(g[i], 0, |g|);
      for n := 0 to |succs|
        invariant |counts| == |g|
        invariant forall k :: 0 <= k < |g| ==> counts[k] == |Preds(g[..i], k)| + if k in succs[..n] then 1 else 0
      {
        assert succs[n] in succs;
        counts := counts[succs[n] := counts[succs[n]] + 1];
      }
      forall k | 0 <= k < |g|
        ensures counts[k] == |Preds(g[..i + 1], k)|
      {
        assert succs[..|succs|] == succs;
        assert Preds(g[..i + 1], k) == Preds(g[..i], k) + if k in g[i] then {i} else {};
      }
    }
    assert g[..|g|] == g;
  }

  // ----- Heights -----

  ghost function PathLatency(syls: seq<Syllable>, p: seq<nat>): nat
    requires forall i :: 0 <= i < |p| ==> p[i] < |syls|
  {
    if p == [] then 0 else Latency(syls[p[0]].opcode) + PathLatency(syls, p[1..])
  }

  ghost predicate PathFrom(g: Graph, p: seq<nat>, i: nat) {
    IsPath(g, p) && p[0] == i
  }

  /** The height of a node is the longest latency of a path that starts there. */
  ghost predicate IsHeight(syls: seq<Syllable>, g: Graph, i: nat, h: nat)
    requires |g| == |syls|
  {
    && (forall p :: PathFrom(g, p, i) ==> PathLatency(syls, p) <= h)
    && (exists p :: PathFrom(g, p, i) && PathLatency(syls, p) == h)
  }

  lemma {:induction false} HeightStep(syls: seq<Syllable>, g: Graph, i: nat, heights: seq<nat>, best: nat)
    requires |g| == |syls| == |heights| && i < |g| && Forward(g)
    requires forall j :: j in g[i] ==> IsHeight(syls, g, j, heights[j]) && heights[j] <= best
    requires best == 0 || exists j :: j in g[i] && heights[j] == best
    ensures IsHeight(syls, g, i, Latency(syls[i].opcode) + best)
  {
    var h := Latency(syls[i].opcode) + best;
    forall p | PathFrom(g, p, i)
      ensures PathLatency(syls, p) <= h
    {
      if |p| > 1 {
        assert p[0 + 1] in g[p[0]];
        assert PathFrom(g, p[1..], p[1]);
      }
    }
    if best == 0 {
      assert PathFrom(g, [i], i);
      assert PathLatency(syls, [i]) == h;
    } else {
      var j :| j in g[i] && heights[j] == best;
      var q :| PathFrom(g, q, j) && PathLatency(syls, q) == best;
      var p := [i] + q;
      assert p[1..] == q;
      assert PathFrom(g, p, i);
    }
  }

  /** One reverse sweep suffices because every edge leads to a higher index. */
  method ComputeHeights(syls: seq<Syllable>, g: Graph) returns (heights: seq<nat>)
    requires |g| == |syls| && Forward(g)
    ensures |heights| == |g| && forall i :: 0 <= i < |g| ==> IsHeight(syls, g, i, heights[i])
  {
    heights := seq(|g|, _ => 0);
    var idx := |g|;
    while idx > 0
      invariant 0 <= idx <= |g| && |heights| == |g|
      invariant forall i :: idx <= i < |g| ==> IsHeight(syls, g, i, heights[i])
    {
      idx := idx - 1;
      var succs := InOrder(g[idx], 0, |g|);
      assert forall q :: 0 <= q < |succs| ==> succs[q] in succs;
      var best := 0;
      for n := 0 to |succs|
        invariant forall q :: 0 <= q < n ==> heights[succs[q]] <= best
        invariant best == 0 || exists q :: 0 <= q < n && heights[succs[q]] == best
      {
        best := Max(best, heights[succs[n]]);
      }
      HeightStep(syls, g, idx, heights, best);
      heights := heights[idx := Latency(syls[idx].opcode) + best];
    }
  }

  // ----- Choosing the next node -----

  /** Greater height first, then the lower index. */
  predicate Preferred(heights: seq<nat>, i: nat, j: nat)
    requires i < |heights| && j < |heights|
  {
    Outranks(heights[i], i, heights[j], j)
  }

  predicate Outranks(h: nat, i: nat, h': nat, j: nat) {
    h > h' || (h == h' && i <= j)
  }

  predicate InBounds(a: seq<nat>, n: nat) {
    forall q :: 0 <= q < |a| ==> a[q] < n
  }

  predicate CanIssue(syls: seq<Syllable>, table: ReadyState, cycle: nat, i: nat)
    requires i < |syls|
  {
    RequiredCycle(syls[i], table) <= cycle
  }

  /** The position of the best ready node that can issue in this cycle, if any can. */
  method PickReadyNode(syls: seq<Syllable>, heights: seq<nat>, ready: seq<nat>, table: ReadyState, cycle: nat)
    returns (pos: Option<nat>)
    requires |heights| == |syls| && InBounds(ready, |syls|)
    ensures pos.None? <==> forall q :: 0 <= q < |ready| ==> !CanIssue(syls, table, cycle, ready[q])
    ensures pos.Some? ==> pos.value < |ready| && CanIssue(syls, table, cycle, ready[pos.value])
    ensures pos.Some? ==> forall q :: 0 <= q < |ready| && CanIssue(syls, table, cycle, ready[q]) ==>
              Preferred(heights, ready[pos.value], ready[q])
  {
    pos := None;
    for n := 0 to |ready|
      invariant BestOf(syls, heights, ready, table, cycle, n, pos)
    {
      var issues := CanIssue(syls, table, cycle, ready[n]);
      if issues && (pos.None? || Preferred(heights, ready[n], ready[pos.value])) {
        BetterFound(syls, heights, ready, table, cycle, n, pos);
        pos := Some(n);
      } else {
        BestKept(syls, heights, ready, table, cycle, n, pos);
      }
    }
  }

  /** The most preferred among the first n ready nodes that can issue. */
  predicate BestOf(syls: seq<Syllable>, heights: seq<nat>, ready: seq<nat>, table: ReadyState, cycle: nat, n: nat, pos: Option<nat>)
    requires |heights| == |syls| && InBounds(ready, |syls|) && n <= |ready|
  {
    match pos
    case None => forall q :: 0 <= q < n ==> !CanIssue(syls, table, cycle, ready[q])
    case Some(p) =>
      && p < n && CanIssue(syls, table, cycle, ready[p])
      && forall q :: 0 <= q < n && CanIssue(syls, table, cycle, ready[q]) ==> Preferred(heights, ready[p], ready[q])
  }

  lemma {:induction false} BestKept(syls: seq<Syllable>, heights: seq<nat>, ready: seq<nat>, table: ReadyState, cycle: nat, n: nat, pos: Option<nat>)
    requires |heights| == |syls| && InBounds(ready, |syls|) && n < |ready| && BestOf(syls, heights, ready, table, cycle, n, pos)
    requires !CanIssue(syls, table, cycle, ready[n]) || (pos.Some? && !Preferred(heights, ready[n], ready[pos.value]))
    ensures BestOf(syls, heights, ready, table, cycle, n + 1, pos)
  {
  }

  lemma {:induction false} BetterFound(syls: seq<Syllable>, heights: seq<nat>, ready: seq<nat>, table: ReadyState, cycle: nat, n: nat, pos: Option<nat>)
    requires |heights| == |syls| && InBounds(ready, |syls|) && n < |ready| && BestOf(syls, heights, ready, table, cycle, n, pos)
    requires CanIssue(syls, table, cycle, ready[n]) && (pos.None? || Preferred(heights, ready[n], ready[pos.value]))
    ensures BestOf(syls, heights, ready, table, cycle, n + 1, Some(n))
  {
  }

  /** Earliest issue first, then the preference order. */
  predicate IssuesNoLater(syls: seq<Syllable>, heights: seq<nat>, table: ReadyState, i: nat, j: nat)
    requires |heights| == |syls| && i < |syls| && j < |syls|
  {
    var ci, cj := RequiredCycle(syls[i], table), RequiredCycle(syls[j], table);
    ci < cj || (ci == cj && Preferred(heights, i, j))
  }

  method PickEarliestNode(syls: seq<Syllable>, heights: seq<nat>, ready: seq<nat>, table: ReadyState)
    returns (pos: nat)
    requires |heights| == |syls| && ready != [] && InBounds(ready, |syls|)
    ensures pos < |ready|
    ensures forall q :: 0 <= q < |ready| ==> IssuesNoLater(syls, heights, table, ready[pos], ready[q])
  {
    pos := 0;
    for n := 1 to |ready|
      invariant pos < n
      invariant forall q :: 0 <= q < n ==> IssuesNoLater(syls, heights, table, ready[pos], ready[q])
    {
      if IssuesNoLater(syls, heights, table, ready[n], ready[pos]) {
        pos := n;
      }
    }
  }

  // ----- The scheduling loop -----

  /** Every node stands after all its predecessors. */
  ghost predicate Topological(g: Graph, order: seq<nat>) {
    forall p, i :: 0 <= p < |order| && i in Preds(g, order[p]) ==> i in order[..p]
  }

  ghost predicate PendingCounts(g: Graph, order: seq<nat>, pending: seq<nat>) {
    |pending| == |g| && forall k :: 0 <= k < |g| ==> pending[k] == |Preds(g, k) - SetOf(order)|
  }

  ghost predicate ReadyList(g: Graph, order: seq<nat>, pending: seq<nat>, ready: seq<nat>)
    requires |pending| == |g|
  {
    Distinct(ready) && forall k :: k in ready <==> 0 <= k < |g| && k !in order && pending[k] == 0
  }

  ghost predicate PartialSchedule(g: Graph, order: seq<nat>) {
    Distinct(order) && (forall k :: k in order ==> k < |g|) && Topological(g, order)
  }

  lemma {:induction false} DistinctCardinality(a: seq<nat>)
    requires Distinct(a)
    ensures |SetOf(a)| == |a|
  {
    if a != [] {
      var b := a[..|a| - 1];
      DistinctCardinality(b);
      assert a == b + [a[|a| - 1]];
      assert SetOf(a) == SetOf(b) + {a[|a| - 1]};
    }
  }

  ghost function Below(n: nat): (s: set<nat>)
    ensures |s| == n && forall x :: x in s <==> 0 <= x < n
  {
    if n == 0 then {} else Below(n - 1) + {n - 1}
  }

  /** A schedule shorter than the block leaves out some node; a full one leaves out none. */
  lemma {:induction false} MissingNode(order: seq<nat>, n: nat)
    requires Distinct(order) && forall k :: k in order ==> k < n
    ensures |order| <= n
    ensures |order| < n <==> exists k :: 0 <= k < n && k !in order
  {
    DistinctCardinality(order);
    SubsetSize(SetOf(order), Below(n));
    if |order| < n {
      assert SetOf(order) != Below(n);
    } else if exists k :: 0 <= k < n && k !in order {
      var k :| 0 <= k < n && k !in order;
      SubsetSize(SetOf(order), Below(n) - {k});
    }
  }

  /** Before the schedule is complete some node is ready, so the loop never gets stuck. */
  lemma {:induction false} SomeNodeReady(g: Graph, order: seq<nat>, pending: seq<nat>, ready: seq<nat>)
    requires Forward(g) && PartialSchedule(g, order) && |order| < |g|
    requires PendingCounts(g, order, pending) && ReadyList(g, order, pending, ready)
    ensures ready != []
  {
    MissingNode(order, |g|);
    var k :| 0 <= k < |g| && k !in order;
    var first := FirstMissing(order, k);
    assert Preds(g, first) - SetOf(order) == {};
    assert first in ready;
  }

  lemma {:induction false} FirstMissing(order: seq<nat>, k: nat) returns (first: nat)
    requires k !in order
    ensures first <= k && first !in order && forall i :: 0 <= i < first ==> i in order
  {
    first := 0;
    while first in order
      invariant first <= k && forall i :: 0 <= i < first ==> i in order
      decreases k - first
    {
      first := first + 1;
    }
  }

  lemma {:induction false} RetireCounts(g: Graph, order: seq<nat>, idx: nat, k: nat)
    requires idx < |g| && idx !in order
    ensures |Preds(g, k) - SetOf(order)| == |Preds(g, k) - SetOf(order + [idx])| + if k in g[idx] then 1 else 0
  {
    var before, after := Preds(g, k) - SetOf(order), Preds(g, k) - SetOf(order + [idx]);
    if k in g[idx] {
      assert before == after + {idx};
    } else {
      assert before == after;
    }
  }

  lemma {:induction false} RetiredCounts(g: Graph, order: seq<nat>, idx: nat, pending: seq<nat>, pending': seq<nat>)
    requires idx < |g| && idx !in order && PendingCounts(g, order, pending)
    requires |pending'| == |g|
    requires forall k :: 0 <= k < |g| ==> pending[k] == pending'[k] + if k in g[idx] then 1 else 0
    ensures PendingCounts(g, order + [idx], pending')
  {
    forall k | 0 <= k < |g|
      ensures pending'[k] == |Preds(g, k) - SetOf(order + [idx])|
    {
      RetireCounts(g, order, idx, k);
    }
  }

  ghost predicate Unblocked(pending: seq<nat>, scheduled: seq<bool>, ready: seq<nat>)
    requires |pending| == |scheduled|
  {
    Distinct(ready) && forall k :: k in ready <==> 0 <= k < |pending| && !scheduled[k] && pending[k] == 0
  }

  /** A node's successors lose one pending predecessor and join the ready list at zero. */
  method Release(succs: seq<nat>, pending: seq<nat>, ready: seq<nat>, scheduled: seq<bool>)
    returns (pending': seq<nat>, ready': seq<nat>)
    requires |pending| == |scheduled| && Distinct(succs) && InBounds(succs, |pending|)
    requires forall q :: 0 <= q < |succs| ==> pending[succs[q]] > 0
    requires Unblocked(pending, scheduled, ready)
    ensures |pending'| == |pending|
    ensures forall k :: 0 <= k < |pending| ==> pending[k] == pending'[k] + if k in succs then 1 else 0
    ensures Unblocked(pending', scheduled, ready')
  {
    pending', ready' := pending, ready;
    ghost var seen: set<nat> := {};
    for n := 0 to |succs|
      invariant forall q :: 0 <= q < |succs| ==> (succs[q] in seen <==> q < n)
      invariant forall k :: k in seen ==> k in succs
      invariant |pending'| == |pending|
      invariant forall k :: 0 <= k < |pending| ==> pending[k] == pending'[k] + if k in seen then 1 else 0
      invariant Unblocked(pending', scheduled, ready')
    {
      seen := seen + {succs[n]};
      pending', ready' := DropPending(succs[n], pending', ready', scheduled);
    }
  }

  method DropPending(succ: nat, pending: seq<nat>, ready: seq<nat>, scheduled: seq<bool>)
    returns (pending': seq<nat>, ready': seq<nat>)
    requires |pending| == |scheduled| && succ < |pending| && pending[succ] > 0
    requires Unblocked(pending, scheduled, ready)
    ensures pending' == pending[succ := pending[succ] - 1]
    ensures Unblocked(pending', scheduled, ready')
  {
    pending', ready' := pending[succ := pending[succ] - 1], ready;
    if pending'[succ] == 0 && !scheduled[succ] {
      ready' := ready' + [succ];
    }
  }

  /** `ready.swap_remove(pos)`: the last element takes the place of the removed one. */
  function SwapRemove(ready: seq<nat>, pos: nat): (r: seq<nat>)
    requires pos < |ready| && Distinct(ready)
    ensures Distinct(r) && forall k :: k in r <==> k in ready && k != ready[pos]
  {
    var last := |ready| - 1;
    var r := ready[pos := ready[last]][..last];
    assert forall q :: 0 <= q < last ==> r[q] == if q == pos then ready[last] else ready[q];
    assert forall k :: k in ready && k != ready[pos] ==> k in r by {
      forall k | k in ready && k != ready[pos]
        ensures k in r
      {
        var q :| 0 <= q < |ready| && ready[q] == k;
        assert q == last ==> r[pos] == k;
        assert q < last ==> r[q] == k;
      }
    }
    r
  }

  lemma {:induction false} DagIsForward(syls: seq<Syllable>, g: Graph)
    requires IsSchedDag(syls, g)
    ensures Forward(g)
  {
  }

  ghost function Reordered(syls: seq<Syllable>, order: seq<nat>): seq<Syllable>
    requires InBounds(order, |syls|)
  {
    seq(|order|, p requires 0 <= p < |order| => syls[order[p]])
  }

  /** A complete schedule: a permutation of the block in topological order of its dependence graph. */
  ghost predicate IsSchedule(syls: seq<Syllable>, g: Graph, order: seq<nat>) {
    IsSchedDag(syls, g) && |order| == |syls| && Distinct(order) && InBounds(order, |syls|) && Topological(g, order)
  }

  // ----- The code's choice -----

  /** The table of pending results and the clock. */
  datatype Clock = Clock(table: ReadyState, cycle: nat)

  function ClockAfter(syls: seq<Syllable>, order: seq<nat>): Clock
    requires InBounds(order, |syls|)
  {
    if order == [] then Clock(ALL_READY, 0)
    else
      var n := |order| - 1;
      var clock := ClockAfter(syls, order[..n]);
      var issue := Max(clock.cycle, RequiredCycle(syls[order[n]], clock.table));
      Clock(AfterSyllable(syls[order[n]], issue, clock.table), issue + 1)
  }

  /** A node that can issue now is taken before any that must wait; among those that wait, the earliest. */
  predicate Beats(syls: seq<Syllable>, heights: seq<nat>, clock: Clock, i: nat, j: nat)
    requires |heights| == |syls| && i < |syls| && j < |syls|
  {
    if CanIssue(syls, clock.table, clock.cycle, i)
    then CanIssue(syls, clock.table, clock.cycle, j) ==> Preferred(heights, i, j)
    else !CanIssue(syls, clock.table, clock.cycle, j) && IssuesNoLater(syls, heights, clock.table, i, j)
  }

  ghost predicate Available(g: Graph, order: seq<nat>, i: nat) {
    i < |g| && i !in order && Preds(g, i) <= SetOf(order)
  }

  /** Of all nodes whose predecessors are done, node i is the one the code takes next. */
  ghost predicate IsChoice(syls: seq<Syllable>, g: Graph, heights: seq<nat>, order: seq<nat>, i: nat)
    requires |g| == |heights| == |syls| && InBounds(order, |syls|)
  {
    Available(g, order, i) && forall j :: Available(g, order, j) ==> Beats(syls, heights, ClockAfter(syls, order), i, j)
  }

  /** Every node of the order is the code's choice after the nodes before it. */
  ghost predicate IsGreedy(syls: seq<Syllable>, g: Graph, heights: seq<nat>, order: seq<nat>) {
    && |g| == |heights| == |syls| && InBounds(order, |syls|)
    && (order == [] ||
        var n := |order| - 1;
        IsGreedy(syls, g, heights, order[..n]) && IsChoice(syls, g, heights, order[..n], order[n]))
  }

  ghost predicate AreHeights(syls: seq<Syllable>, g: Graph, heights: seq<nat>)
    requires |g| == |syls|
  {
    |heights| == |g| && forall i :: 0 <= i < |g| ==> IsHeight(syls, g, i, heights[i])
  }

  lemma {:induction false} BeatsBoth(syls: seq<Syllable>, heights: seq<nat>, clock: Clock, i: nat, j: nat)
    requires |heights| == |syls| && i < |syls| && j < |syls|
    requires Beats(syls, heights, clock, i, j) && Beats(syls, heights, clock, j, i)
    ensures i == j
  {
  }

  lemma {:induction false} OneChoice(syls: seq<Syllable>, g: Graph, heights: seq<nat>, order: seq<nat>, order': seq<nat>, n: nat)
    requires |order| == |order'| == n + 1 && order[..n] == order'[..n]
    requires IsGreedy(syls, g, heights, order) && IsGreedy(syls, g, heights, order')
    ensures order == order'
  {
    BeatsBoth(syls, heights, ClockAfter(syls, order[..n]), order[n], order'[n]);
    SplitLast(order, order[n]);
    SplitLast(order', order[n]);
  }

  /** The code's choices leave nothing open: there is one greedy order. */
  lemma {:induction false} GreedyUnique(syls: seq<Syllable>, g: Graph, heights: seq<nat>, order: seq<nat>, order': seq<nat>)
    requires IsGreedy(syls, g, heights, order) && IsGreedy(syls, g, heights, order') && |order| == |order'|
    ensures order == order'
  {
    if order != [] {
      var n := |order| - 1;
      GreedyUnique(syls, g, heights, order[..n], order'[..n]);
      OneChoice(syls, g, heights, order, order', n);
    }
  }

  lemma {:induction false} ReadyIsAvailable(g: Graph, order: seq<nat>, pending: seq<nat>, ready: seq<nat>, i: nat)
    requires PendingCounts(g, order, pending) && ReadyList(g, order, pending, ready)
    ensures i in ready <==> Available(g, order, i)
  {
    if i < |g| {
      var missing := Preds(g, i) - SetOf(order);
      assert pending[i] == |missing|;
      if missing == {} && i !in order {
        assert forall p :: p in Preds(g, i) && p !in SetOf(order) ==> p in missing;
      }
    }
  }

  lemma {:induction false} SelectedIsChoice(syls: seq<Syllable>, g: Graph, heights: seq<nat>, order: seq<nat>, pending: seq<nat>, ready: seq<nat>, pos: nat)
    requires |g| == |heights| == |syls| && InBounds(order, |syls|) && InBounds(ready, |syls|) && pos < |ready|
    requires PendingCounts(g, order, pending) && ReadyList(g, order, pending, ready)
    requires forall q :: 0 <= q < |ready| ==> Beats(syls, heights, ClockAfter(syls, order), ready[pos], ready[q])
    ensures IsChoice(syls, g, heights, order, ready[pos])
  {
    assert ready[pos] in ready;
    ReadyIsAvailable(g, order, pending, ready, ready[pos]);
    forall j | Available(g, order, j)
      ensures Beats(syls, heights, ClockAfter(syls, order), ready[pos], j)
    {
      ReadyIsAvailable(g, order, pending, ready, j);
      var q :| 0 <= q < |ready| && ready[q] == j;
    }
  }

  /** The clock's reading and the order so far are those of the code's choices. */
  ghost predicate OnGreedyPath(syls: seq<Syllable>, g: Graph, heights: seq<nat>, order: seq<nat>, clock: Clock) {
    IsGreedy(syls, g, heights, order) && clock == ClockAfter(syls, order)
  }

  lemma {:induction false} GreedyStep(syls: seq<Syllable>, g: Graph, heights: seq<nat>, order: seq<nat>, pending: seq<nat>, ready: seq<nat>,
                                      pos: nat, clock: Clock, clock': Clock)
    requires OnGreedyPath(syls, g, heights, order, clock) && InBounds(ready, |syls|) && pos < |ready|
    requires PendingCounts(g, order, pending) && ReadyList(g, order, pending, ready)
    requires forall q :: 0 <= q < |ready| ==> Beats(syls, heights, clock, ready[pos], ready[q])
    requires var issue := Max(clock.cycle, RequiredCycle(syls[ready[pos]], clock.table));
             clock' == Clock(AfterSyllable(syls[ready[pos]], issue, clock.table), issue + 1)
    ensures OnGreedyPath(syls, g, heights, order + [ready[pos]], clock')
  {
    SelectedIsChoice(syls, g, heights, order, pending, ready, pos);
    assert (order + [ready[pos]])[..|order|] == order;
  }

  /** The choice the code makes among the ready nodes. */
  method SelectNode(syls: seq<Syllable>, heights: seq<nat>, ready: seq<nat>, table: ReadyState, cycle: nat)
    returns (pos: nat)
    requires |heights| == |syls| && ready != [] && InBounds(ready, |syls|)
    ensures pos < |ready|
    ensures forall q :: 0 <= q < |ready| ==> Beats(syls, heights, Clock(table, cycle), ready[pos], ready[q])
  {
    var choice := PickReadyNode(syls, heights, ready, table, cycle);
    if choice.Some? {
      pos := choice.value;
    } else {
      pos := PickEarliestNode(syls, heights, ready, table);
    }
  }

  method InitialReady(g: Graph, pending: seq<nat>) returns (ready: seq<nat>)
    requires |pending| == |g|
    ensures ReadyList(g, [], pending, ready)
  {
    ready := [];
    for n := 0 to |pending|
      invariant Distinct(ready) && forall k :: k in ready <==> 0 <= k < n && pending[k] == 0
    {
      if pending[n] == 0 {
        ready := ready + [n];
      }
    }
  }

  /**
   * The counts of pending predecessors never underflow, some node is always ready, and the result is the
   * block's syllables in a topological order of the dependence graph: the one order in which every node is the
   * code's choice.
   */
  method ListSchedule(syls: seq<Syllable>) returns (out: seq<Syllable>, ghost g: Graph, ghost heights: seq<nat>, ghost order: seq<nat>)
    ensures IsSchedule(syls, g, order) && out == Reordered(syls, order)
    ensures |syls| > 1 ==> AreHeights(syls, g, heights) && IsGreedy(syls, g, heights, order)
  {
    var dag := BuildGraph(syls);
    g := dag;
    DagIsForward(syls, g);
    if |syls| <= 1 {
      out, heights, order := syls, [], seq(|syls|, i => i);
      return;
    }
    var best := ComputeHeights(syls, dag);
    heights := best;
    out, order := IssueAll(syls, dag, best);
  }

  lemma {:induction false} NothingScheduled(g: Graph, pending: seq<nat>)
    requires |pending| == |g| && forall k :: 0 <= k < |g| ==> pending[k] == |Preds(g, k)|
    ensures PendingCounts(g, [], pending)
  {
    assert forall k :: 0 <= k < |g| ==> Preds(g, k) - SetOf([]) == Preds(g, k);
  }

  method IssueNext(syls: seq<Syllable>, heights: seq<nat>, ready: seq<nat>, table: ReadyState, cycle: nat,
                   ghost g: Graph, ghost order: seq<nat>, ghost pending: seq<nat>)
    returns (pos: nat, table': ReadyState, cycle': nat)
    requires |heights| == |syls| && ready != [] && InBounds(ready, |syls|)
    requires OnGreedyPath(syls, g, heights, order, Clock(table, cycle))
    requires PendingCounts(g, order, pending) && ReadyList(g, order, pending, ready)
    ensures pos < |ready|
    ensures OnGreedyPath(syls, g, heights, order + [ready[pos]], Clock(table', cycle'))
  {
    pos := SelectNode(syls, heights, ready, table, cycle);
    cycle' := Max(cycle, RequiredCycle(syls[ready[pos]], table));
    table' := AfterSyllable(syls[ready[pos]], cycle', table);
    cycle' := cycle' + 1;
    GreedyStep(syls, g, heights, order, pending, ready, pos, Clock(table, cycle), Clock(table', cycle'));
  }

  /** The loop's invariant: what is pending, what is ready, and that only the code's choices have been made. */
  ghost predicate Underway(syls: seq<Syllable>, g: Graph, heights: seq<nat>, order: seq<nat>, pending: seq<nat>,
                           ready: seq<nat>, scheduled: seq<bool>, clock: Clock) {
    && Forward(g) && PartialSchedule(g, order) && OnGreedyPath(syls, g, heights, order, clock)
    && PendingCounts(g, order, pending) && ReadyList(g, order, pending, ready)
    && |scheduled| == |g| && forall k :: 0 <= k < |g| ==> (scheduled[k] <==> k in order)
  }

  /** One round of the loop: the chosen node is issued and retired. */
  method IssueOne(syls: seq<Syllable>, g: Graph, heights: seq<nat>, ghost order: seq<nat>, pending: seq<nat>,
                  ready: seq<nat>, scheduled: seq<bool>, table: ReadyState, cycle: nat)
    returns (idx: nat, pending': seq<nat>, ready': seq<nat>, scheduled': seq<bool>, table': ReadyState, cycle': nat)
    requires Underway(syls, g, heights, order, pending, ready, scheduled, Clock(table, cycle)) && |order| < |syls|
    ensures idx < |syls|
    ensures Underway(syls, g, heights, order + [idx], pending', ready', scheduled', Clock(table', cycle'))
  {
    SomeNodeReady(g, order, pending, ready);
    ReadyInBounds(g, order, pending, ready);
    var pos;
    pos, table', cycle' := IssueNext(syls, heights, ready, table, cycle, g, order, pending);
    idx := ready[pos];
    pending', ready', scheduled' := Retire(g, order, pending, ready, scheduled, pos);
  }

  ghost predicate ListedSoFar(syls: seq<Syllable>, order: seq<nat>, out: seq<Syllable>) {
    |out| == |order| && InBounds(order, |syls|) && forall q :: 0 <= q < |out| ==> out[q] == syls[order[q]]
  }

  lemma {:induction false} ListOneMore(syls: seq<Syllable>, order: seq<nat>, out: seq<Syllable>, idx: nat)
    requires ListedSoFar(syls, order, out) && idx < |syls|
    ensures ListedSoFar(syls, order + [idx], out + [syls[idx]])
  {
  }

  lemma {:induction false} ListedAll(syls: seq<Syllable>, order: seq<nat>, out: seq<Syllable>)
    requires ListedSoFar(syls, order, out)
    ensures out == Reordered(syls, order)
  {
  }

  method IssueAll(syls: seq<Syllable>, g: Graph, heights: seq<nat>) returns (out: seq<Syllable>, ghost order: seq<nat>)
    requires |g| == |syls| == |heights| && Forward(g)
    ensures |order| == |syls| && PartialSchedule(g, order) && InBounds(order, |syls|)
    ensures out == Reordered(syls, order) && IsGreedy(syls, g, heights, order)
  {
    var pending := CountPreds(g);
    var ready := InitialReady(g, pending);
    var scheduled := seq(|syls|, _ => false);
    var table, cycle := ALL_READY, 0;
    out, order := [], [];
    NothingScheduled(g, pending);
    while |out| < |syls|
      invariant |out| <= |syls| && Underway(syls, g, heights, order, pending, ready, scheduled, Clock(table, cycle))
      invariant ListedSoFar(syls, order, out)
      decreases |syls| - |out|
    {
      var idx;
      idx, pending, ready, scheduled, table, cycle := IssueOne(syls, g, heights, order, pending, ready, scheduled, table, cycle);
      ListOneMore(syls, order, out, idx);
      out, order := out + [syls[idx]], order + [idx];
    }
    ListedAll(syls, order, out);
  }

  method Retire(g: Graph, ghost order: seq<nat>, pending: seq<nat>, ready: seq<nat>, scheduled: seq<bool>, pos: nat)
    returns (pending': seq<nat>, ready': seq<nat>, scheduled': seq<bool>)
    requires Forward(g) && PartialSchedule(g, order)
    requires PendingCounts(g, order, pending) && ReadyList(g, order, pending, ready) && pos < |ready|
    requires |scheduled| == |g| && forall k :: 0 <= k < |g| ==> (scheduled[k] <==> k in order)
    ensures ready[pos] < |g| && |order| < |g| && PartialSchedule(g, order + [ready[pos]])
    ensures PendingCounts(g, order + [ready[pos]], pending') && ReadyList(g, order + [ready[pos]], pending', ready')
    ensures |scheduled'| == |g|
    ensures forall k :: 0 <= k < |g| ==> (scheduled'[k] <==> k in order + [ready[pos]])
  {
    var idx := ready[pos];
    assert idx in ready;
    var rest := SwapRemove(ready, pos);
    scheduled' := scheduled[idx := true];
    AppendReady(g, order, pending, idx);
    var succs := InOrder(g[idx], 0, |g|);
    SuccessorsPending(g, order, idx, pending, succs);
    pending', ready' := Release(succs, pending, rest, scheduled');
    RetiredCounts(g, order, idx, pending, pending');
  }

  lemma {:induction false} SuccessorsPending(g: Graph, order: seq<nat>, idx: nat, pending: seq<nat>, succs: seq<nat>)
    requires idx < |g| && idx !in order && PendingCounts(g, order, pending) && InBounds(succs, |g|)
    requires forall k :: k in succs ==> k in g[idx]
    ensures forall q :: 0 <= q < |succs| ==> pending[succs[q]] > 0
  {
    forall q | 0 <= q < |succs|
      ensures pending[succs[q]] > 0
    {
      assert succs[q] in succs;
      RetireCounts(g, order, idx, succs[q]);
    }
  }

  lemma {:induction false} ReadyInBounds(g: Graph, order: seq<nat>, pending: seq<nat>, ready: seq<nat>)
    requires |pending| == |g| && ReadyList(g, order, pending, ready)
    ensures InBounds(ready, |g|)
  {
    assert forall q :: 0 <= q < |ready| ==> ready[q] in ready;
  }

  lemma {:induction false} AppendReady(g: Graph, order: seq<nat>, pending: seq<nat>, idx: nat)
    requires PartialSchedule(g, order) && PendingCounts(g, order, pending)
    requires idx < |g| && idx !in order && pending[idx] == 0
    ensures PartialSchedule(g, order + [idx])
    ensures |order| < |g|
  {
    var order' := order + [idx];
    assert Preds(g, idx) - SetOf(order) == {};
    forall p, i | 0 <= p < |order'| && i in Preds(g, order'[p])
      ensures i in order'[..p]
    {
      if p < |order| {
        assert order'[..p] == order[..p];
      } else {
        assert order'[..p] == order;
        assert i !in Preds(g, idx) - SetOf(order);
      }
    }
    MissingNode(order, |g|);
  }
}
