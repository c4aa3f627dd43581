/** Block layout: the worklist that decides the order of blocks, and the latches it inserts. */
module Layout {
  import opened Collections

  /** How a basic block ends. */
  datatype Exit = Leaves | Goto(target: nat) | Cond(ifTrue: nat, ifFalse: nat)

  /** A basic block with a number of calls in it, each of which splits it. */
  datatype CfgBlock = CfgBlock(calls: nat, exit: Exit)

  /** A control-flow graph; block 0 is the entry. */
  type Cfg = seq<CfgBlock>

  datatype Label = Named(b: nat) | Cont(b: nat, call: nat) | Latch(b: nat, to: nat)

  datatype End = EndReturn | EndJump(to: Label) | EndBranch(to: Label) | EndCall(cont: Label)

  datatype Placed = Placed(name: Label, end: End)

  predicate ExitInside(e: Exit, n: nat) {
    match e
    case Leaves => true
    case Goto(t) => t < n
    case Cond(t, f) => t < n && f < n
  }

  predicate WellFormedCfg(cfg: Cfg) {
    cfg != [] && forall b :: 0 <= b < |cfg| ==> ExitInside(cfg[b].exit, |cfg|)
  }

  predicate IsEdge(cfg: Cfg, b: nat, b': nat) {
    b < |cfg| && b' < |cfg| &&
    match cfg[b].exit
    case Leaves => false
    case Goto(t) => b' == t
    case Cond(t, f) => b' == t || b' == f
  }

  ghost predicate IsCfgPath(cfg: Cfg, p: seq<nat>) {
    && p != [] && p[0] < |cfg|
    && forall k :: 0 <= k < |p| - 1 ==> IsEdge(cfg, p[k], p[k + 1])
  }

  ghost predicate Reachable(cfg: Cfg, b: nat) {
    exists p :: IsCfgPath(cfg, p) && p[0] == 0 && p[|p| - 1] == b
  }

  // ----- What an order of blocks becomes -----

  /** The pieces of a block: the k-th starts after call k - 1. */
  function PieceName(b: nat, k: nat): Label {
    if k == 0 then Named(b) else Cont(b, k - 1)
  }

  function LastEnd(e: Exit): End {
    match e
    case Leaves => EndReturn
    case Goto(t) => EndJump(Named(t))
    case Cond(t, _) => EndBranch(Named(t))
  }

  function Piece(block: CfgBlock, b: nat, k: nat): Placed {
    Placed(PieceName(b, k), if k < block.calls then EndCall(Cont(b, k)) else LastEnd(block.exit))
  }

  function Pieces(block: CfgBlock, b: nat): seq<Placed> {
    seq(block.calls + 1, k requires 0 <= k <= block.calls => Piece(block, b, k))
  }

  predicate OrderInside(cfg: Cfg, order: seq<nat>) {
    forall i :: 0 <= i < |order| ==> order[i] < |cfg|
  }

  /** The false successor is already placed, so a latch must jump to it. */
  predicate NeedsLatch(cfg: Cfg, order: seq<nat>, i: nat)
    requires i < |order| && OrderInside(cfg, order)
  {
    cfg[order[i]].exit.Cond? && cfg[order[i]].exit.ifFalse in order[..i + 1]
  }

  function LatchAfter(b: nat, to: nat): Placed {
    Placed(Latch(b, to), EndJump(Named(to)))
  }

  function Group(cfg: Cfg, order: seq<nat>, i: nat): seq<Placed>
    requires i < |order| && OrderInside(cfg, order)
  {
    var b := order[i];
    Pieces(cfg[b], b) + if NeedsLatch(cfg, order, i) then [LatchAfter(b, cfg[b].exit.ifFalse)] else []
  }

  function LayoutOf(cfg: Cfg, order: seq<nat>): seq<Placed>
    requires OrderInside(cfg, order)
  {
    if order == [] then []
    else
      var n := |order| - 1;
      LayoutOf(cfg, order[..n]) + Group(cfg, order, n)
  }

  // ----- What the worklist guarantees -----

  /** Block i of the order falls through, on a false condition, to a block not placed before it. */
  predicate FallsThrough(cfg: Cfg, order: seq<nat>, i: nat)
    requires i < |order| && OrderInside(cfg, order)
  {
    cfg[order[i]].exit.Cond? && cfg[order[i]].exit.ifFalse !in order[..i + 1]
  }

  /** A block that falls through is followed by its false successor; the last one by what comes next. */
  predicate FallThroughAt(cfg: Cfg, order: seq<nat>, next: seq<nat>, i: nat)
    requires i < |order| && OrderInside(cfg, order)
  {
    FallsThrough(cfg, order, i) ==>
      if i + 1 < |order| then order[i + 1] == cfg[order[i]].exit.ifFalse
      else next != [] && next[0] == cfg[order[i]].exit.ifFalse
  }

  predicate FallThroughRight(cfg: Cfg, order: seq<nat>, next: seq<nat>)
    requires OrderInside(cfg, order)
  {
    forall i :: 0 <= i < |order| ==> FallThroughAt(cfg, order, next, i)
  }

  predicate SuccessorsKnown(cfg: Cfg, order: seq<nat>, work: seq<nat>)
    requires OrderInside(cfg, order)
  {
    forall i :: 0 <= i < |order| ==>
      match cfg[order[i]].exit
      case Leaves => true
      case Goto(t) => t in order || t in work
      case Cond(t, f) => (t in order || t in work) && (f in order || f in work)
  }

  ghost predicate WorkInvariant(cfg: Cfg, order: seq<nat>, work: seq<nat>) {
    && OrderInside(cfg, order) && OrderInside(cfg, work) && Distinct(order)
    && (forall b :: b in order || b in work ==> Reachable(cfg, b))
    && FallThroughRight(cfg, order, work) && SuccessorsKnown(cfg, order, work)
    && (if order == [] then work == [0] else order[0] == 0)
  }

  /** The finished order: every reachable block once, the entry first, fall-through right everywhere. */
  ghost predicate GoodOrder(cfg: Cfg, order: seq<nat>) {
    && OrderInside(cfg, order) && Distinct(order) && order != [] && order[0] == 0
    && (forall b :: b in order <==> Reachable(cfg, b))
    && FallThroughRight(cfg, order, [])
  }

  lemma {:induction false} EntryReachable(cfg: Cfg)
    requires cfg != []
    ensures Reachable(cfg, 0)
  {
    assert IsCfgPath(cfg, [0]);
  }

  lemma {:induction false} EdgeReachable(cfg: Cfg, b: nat, b': nat)
    requires Reachable(cfg, b) && IsEdge(cfg, b, b')
    ensures Reachable(cfg, b')
  {
    var p :| IsCfgPath(cfg, p) && p[0] == 0 && p[|p| - 1] == b;
    var q := p + [b'];
    assert IsCfgPath(cfg, q) by {
      forall k | 0 <= k < |q| - 1
        ensures IsEdge(cfg, q[k], q[k + 1])
      {
        assert k < |p| - 1 ==> IsEdge(cfg, p[k], p[k + 1]);
      }
    }
    assert q[0] == 0 && q[|q| - 1] == b';
  }

  /** A set closed under edges that has the start of a path has all of it. */
  lemma {:induction false} ClosedHasPath(cfg: Cfg, order: seq<nat>, p: seq<nat>, k: nat)
    requires WellFormedCfg(cfg) && WorkInvariant(cfg, order, []) && order != [] && IsCfgPath(cfg, p) && p[0] == 0 && k < |p|
    ensures p[k] in order
  {
    if k == 0 {
      assert order[0] == 0;
    } else {
      ClosedHasPath(cfg, order, p, k - 1);
      assert IsEdge(cfg, p[k - 1], p[k - 1 + 1]);
      var i :| 0 <= i < |order| && order[i] == p[k - 1];
    }
  }

  lemma {:induction false} FinishedIsGood(cfg: Cfg, order: seq<nat>)
    requires WellFormedCfg(cfg) && WorkInvariant(cfg, order, [])
    ensures GoodOrder(cfg, order)
  {
    forall b | Reachable(cfg, b)
      ensures b in order
    {
      var p :| IsCfgPath(cfg, p) && p[0] == 0 && p[|p| - 1] == b;
      ClosedHasPath(cfg, order, p, |p| - 1);
    }
  }

  // ----- The worklist -----

  /** False successors go to the front, to be placed next; the others to the back. */
  function Enqueue(e: Exit, order: seq<nat>, work: seq<nat>): seq<nat> {
    match e
    case Leaves => work
    case Goto(t) => if t in order then work else work + [t]
    case Cond(t, f) =>
      var front := if f in order then work else [f] + work;
      if t in order then front else front + [t]
  }

  lemma {:induction false} EnqueueHas(e: Exit, order: seq<nat>, work: seq<nat>, b: nat)
    ensures b in work ==> b in Enqueue(e, order, work)
    ensures b in Enqueue(e, order, work) ==> b in work || (e.Goto? && b == e.target) || (e.Cond? && (b == e.ifTrue || b == e.ifFalse))
    ensures e.Goto? ==> e.target in order || e.target in Enqueue(e, order, work)
    ensures e.Cond? ==> (e.ifTrue in order || e.ifTrue in Enqueue(e, order, work)) && (e.ifFalse in order || e.ifFalse in Enqueue(e, order, work))
  {
  }

  lemma {:induction false} SkipKeepsInvariant(cfg: Cfg, order: seq<nat>, work: seq<nat>)
    requires WorkInvariant(cfg, order, work) && work != [] && work[0] in order
    ensures WorkInvariant(cfg, order, work[1..])
  {
    var rest := work[1..];
    assert order[..|order|] == order;
    assert forall b :: b in work ==> b == work[0] || b in rest;
    forall i | 0 <= i < |order| && FallsThrough(cfg, order, i)
      ensures i + 1 < |order| && order[i + 1] == cfg[order[i]].exit.ifFalse
    {
      assert FallThroughAt(cfg, order, work, i);
    }
  }

  lemma {:induction false} PlaceReachable(cfg: Cfg, order: seq<nat>, work: seq<nat>, b: nat)
    requires WellFormedCfg(cfg) && b < |cfg| && WorkInvariant(cfg, order, [b] + work)
    ensures var order', work' := order + [b], Enqueue(cfg[b].exit, order + [b], work);
            OrderInside(cfg, work') && forall v :: v in order' || v in work' ==> Reachable(cfg, v)
  {
    var order', work', e := order + [b], Enqueue(cfg[b].exit, order + [b], work), cfg[b].exit;
    assert b in [b] + work;
    forall v | v in work'
      ensures v < |cfg| && Reachable(cfg, v)
    {
      EnqueueHas(e, order', work, v);
      if v in work {
        var i :| 0 <= i < |work| && work[i] == v;
        assert ([b] + work)[i + 1] == v;
      } else {
        EdgeReachable(cfg, b, v);
      }
    }
    assert forall i :: 0 <= i < |work'| ==> work'[i] in work';
  }

  lemma {:induction false} PlaceFallThrough(cfg: Cfg, order: seq<nat>, work: seq<nat>, b: nat)
    requires WellFormedCfg(cfg) && b < |cfg| && WorkInvariant(cfg, order, [b] + work) && b !in order
    ensures FallThroughRight(cfg, order + [b], Enqueue(cfg[b].exit, order + [b], work))
  {
    var order', n := order + [b], |order|;
    var work' := Enqueue(cfg[b].exit, order', work);
    assert order'[..n + 1] == order' && ([b] + work)[0] == b;
    forall i | 0 <= i < |order'|
      ensures FallThroughAt(cfg, order', work', i)
    {
      if i < n {
        assert order'[..i + 1] == order[..i + 1];
        assert FallThroughAt(cfg, order, [b] + work, i);
      }
    }
  }

  lemma {:induction false} PlaceSuccessors(cfg: Cfg, order: seq<nat>, work: seq<nat>, b: nat)
    requires WellFormedCfg(cfg) && b < |cfg| && WorkInvariant(cfg, order, [b] + work)
    ensures OrderInside(cfg, order + [b]) && SuccessorsKnown(cfg, order + [b], Enqueue(cfg[b].exit, order + [b], work))
  {
    var order', work' := order + [b], Enqueue(cfg[b].exit, order + [b], work);
    forall v: nat
      ensures v in order || v in [b] + work ==> v in order' || v in work'
    {
      EnqueueHas(cfg[b].exit, order', work, v);
    }
    EnqueueHas(cfg[b].exit, order', work, 0);
    forall i | 0 <= i < |order|
      ensures order'[i] == order[i]
    {
    }
  }

  lemma {:induction false} PlaceKeepsInvariant(cfg: Cfg, order: seq<nat>, work: seq<nat>, b: nat)
    requires WellFormedCfg(cfg) && b < |cfg| && WorkInvariant(cfg, order, [b] + work) && b !in order
    ensures WorkInvariant(cfg, order + [b], Enqueue(cfg[b].exit, order + [b], work))
  {
    PlaceReachable(cfg, order, work, b);
    PlaceFallThrough(cfg, order, work, b);
    PlaceSuccessors(cfg, order, work, b);
    assert ([b] + work)[0] == b;
  }

  // ----- Which block comes next -----

  /** The jump targets and true successors of the placed blocks, in the order of those blocks. */
  function Announced(cfg: Cfg, order: seq<nat>): seq<nat>
    requires OrderInside(cfg, order)
  {
    if order == [] then [] else Announced(cfg, order[..|order| - 1]) + Announces(cfg[order[|order| - 1]].exit)
  }

  function Announces(e: Exit): seq<nat> {
    match e
    case Leaves => []
    case Goto(t) => [t]
    case Cond(t, _) => [t]
  }

  /** The false successor of the last block, if that falls through to it. */
  function FallTarget(cfg: Cfg, order: seq<nat>): seq<nat>
    requires OrderInside(cfg, order)
  {
    if order != [] && FallsThrough(cfg, order, |order| - 1) then [cfg[order[|order| - 1]].exit.ifFalse] else []
  }

  /**
   * b follows the placed blocks: the false successor of the last one, if that is not placed yet, else the block
   * not placed yet that was announced first.
   */
  predicate IsNextBlock(cfg: Cfg, order: seq<nat>, b: nat)
    requires OrderInside(cfg, order)
  {
    && b !in order
    && if FallTarget(cfg, order) != [] then FallTarget(cfg, order) == [b]
       else
         exists i :: 0 <= i < |Announced(cfg, order)| && Announced(cfg, order)[i] == b && forall j :: 0 <= j < i ==> Announced(cfg, order)[j] in order
  }

  predicate InLayoutOrder(cfg: Cfg, order: seq<nat>)
    requires OrderInside(cfg, order)
  {
    forall n :: 0 < n < |order| ==> IsNextBlock(cfg, order[..n], order[n])
  }

  /** Those not placed yet. */
  function Open(xs: seq<nat>, order: seq<nat>): seq<nat> {
    if xs == [] then []
    else Open(xs[..|xs| - 1], order) + if xs[|xs| - 1] in order then [] else [xs[|xs| - 1]]
  }

  lemma {:induction false} OpenConcat(xs: seq<nat>, ys: seq<nat>, order: seq<nat>)
    ensures Open(xs + ys, order) == Open(xs, order) + Open(ys, order)
    decreases |ys|
  {
    if ys == [] {
      assert xs + ys == xs;
    } else {
      var n := |ys| - 1;
      OpenConcat(xs, ys[..n], order);
      assert (xs + ys)[..|xs + ys| - 1] == xs + ys[..n];
    }
  }

  lemma {:induction false} OpenOne(x: nat, order: seq<nat>)
    ensures Open([x], order) == if x in order then [] else [x]
  {
    assert [x][..0] == [];
  }

  /** Placing one more block. */
  lemma {:induction false} OpenMore(xs: seq<nat>, order: seq<nat>, b: nat)
    ensures Open(xs, order + [b]) == Open(Open(xs, order), [b])
  {
    if xs != [] {
      var n := |xs| - 1;
      OpenMore(xs[..n], order, b);
      var last := if xs[n] in order then [] else [xs[n]];
      OpenConcat(Open(xs[..n], order), last, [b]);
      if last != [] { OpenOne(xs[n], [b]); }
    }
  }

  lemma {:induction false} OpenFirst(xs: seq<nat>, order: seq<nat>) returns (i: nat)
    requires Open(xs, order) != []
    ensures i < |xs| && xs[i] == Open(xs, order)[0] && forall j :: 0 <= j < i ==> xs[j] in order
    ensures xs[i] !in order
  {
    var n := |xs| - 1;
    if Open(xs[..n], order) != [] {
      i := OpenFirst(xs[..n], order);
      assert forall j :: 0 <= j < i ==> xs[j] == xs[..n][j];
    } else {
      i := n;
      AllPlaced(xs[..n], order);
      assert forall j :: 0 <= j < n ==> xs[j] == xs[..n][j];
    }
  }

  lemma {:induction false} AllPlaced(xs: seq<nat>, order: seq<nat>)
    requires Open(xs, order) == []
    ensures forall j :: 0 <= j < |xs| ==> xs[j] in order
  {
    if xs != [] {
      AllPlaced(xs[..|xs| - 1], order);
      assert forall j :: 0 <= j < |xs| - 1 ==> xs[j] == xs[..|xs| - 1][j];
    }
  }

  /** The worklist, without what is placed, is the fall-through target and what was announced. */
  predicate QueueRight(cfg: Cfg, order: seq<nat>, work: seq<nat>)
    requires OrderInside(cfg, order)
  {
    order != [] ==> Open(work, order) == Open(FallTarget(cfg, order) + Announced(cfg, order), order)
  }

  lemma {:induction false} SkipKeepsQueue(cfg: Cfg, order: seq<nat>, b: nat, rest: seq<nat>)
    requires OrderInside(cfg, order) && QueueRight(cfg, order, [b] + rest) && b in order
    ensures QueueRight(cfg, order, rest)
  {
    OpenConcat([b], rest, order);
    OpenOne(b, order);
    assert [] + Open(rest, order) == Open(rest, order);
  }

  lemma {:induction false} QueueHead(cfg: Cfg, order: seq<nat>, b: nat, rest: seq<nat>)
    requires OrderInside(cfg, order) && QueueRight(cfg, order, [b] + rest) && b !in order && order != []
    ensures IsNextBlock(cfg, order, b)
    ensures Open(rest, order + [b]) == Open(Announced(cfg, order), order + [b])
  {
    var front, all := FallTarget(cfg, order), Announced(cfg, order);
    OpenConcat([b], rest, order);
    OpenOne(b, order);
    OpenConcat(front, all, order);
    assert Open([b] + rest, order)[0] == b;
    OpenMore([b] + rest, order, b);
    OpenMore(front + all, order, b);
    OpenConcat([b], rest, order + [b]);
    OpenConcat(front, all, order + [b]);
    OpenOne(b, order + [b]);
    if front == [] {
      assert front + all == all;
      var i := OpenFirst(all, order);
    } else {
      OpenOne(front[0], order);
      OpenOne(front[0], order + [b]);
      assert front == [front[0]] && front[0] == b;
    }
    assert [] + Open(rest, order + [b]) == Open(rest, order + [b]);
    assert [] + Open(all, order + [b]) == Open(all, order + [b]);
  }

  lemma {:induction false} OpenBack(work: seq<nat>, t: nat, order: seq<nat>)
    ensures Open(if t in order then work else work + [t], order) == Open(work + [t], order)
  {
    OpenConcat(work, [t], order);
    OpenOne(t, order);
    AppendNothing(Open(work, order));
  }

  lemma {:induction false} OpenFront(work: seq<nat>, f: nat, order: seq<nat>)
    ensures Open(if f in order then work else [f] + work, order) == Open([f] + work, order)
  {
    OpenConcat([f], work, order);
    OpenOne(f, order);
    assert [] + Open(work, order) == Open(work, order);
  }

  lemma {:induction false} OpenBoth(work: seq<nat>, t: nat, f: nat, order: seq<nat>)
    ensures Open((if f in order then work else [f] + work) + [t], order) == Open([f] + work + [t], order)
  {
    OpenFront(work, f, order);
    OpenConcat(if f in order then work else [f] + work, [t], order);
    OpenConcat([f] + work, [t], order);
  }

  lemma {:induction false} EnqueuedOpen(e: Exit, order: seq<nat>, work: seq<nat>)
    ensures Open(Enqueue(e, order, work), order) == Open((if e.Cond? then [e.ifFalse] else []) + work + Announces(e), order)
  {
    match e
    case Leaves => assert [] + work + [] == work;
    case Goto(t) =>
      assert [] + work == work;
      OpenBack(work, t, order);
    case Cond(t, f) =>
      OpenBack(if f in order then work else [f] + work, t, order);
      OpenBoth(work, t, f, order);
  }

  lemma {:induction false} PlaceKeepsQueue(cfg: Cfg, order: seq<nat>, b: nat, rest: seq<nat>)
    requires b < |cfg| && OrderInside(cfg, order + [b]) && OrderInside(cfg, order) && QueueRight(cfg, order, [b] + rest) && b !in order
    requires order == [] ==> rest == []
    ensures order != [] ==> IsNextBlock(cfg, order, b)
    ensures QueueRight(cfg, order + [b], Enqueue(cfg[b].exit, order + [b], rest))
  {
    var order', e := order + [b], cfg[b].exit;
    assert order'[..|order|] == order && order'[|order|] == b && order'[..|order| + 1] == order';
    if order != [] { QueueHead(cfg, order, b, rest); }
    EnqueuedOpen(e, order', rest);
    var front, all := if e.Cond? then [e.ifFalse] else [], Announced(cfg, order);
    OpenConcat(front + rest, Announces(e), order');
    OpenConcat(front, rest, order');
    assert Announced(cfg, order') == all + Announces(e);
    OpenConcat(FallTarget(cfg, order'), all + Announces(e), order');
    OpenConcat(all, Announces(e), order');
    OpenFall(cfg, order, b);
    Regather(Open(front, order'), Open(rest, order'), Open(Announces(e), order'));
  }

  lemma {:induction false} OpenFall(cfg: Cfg, order: seq<nat>, b: nat)
    requires b < |cfg| && OrderInside(cfg, order + [b])
    ensures var order', e := order + [b], cfg[b].exit; Open(if e.Cond? then [e.ifFalse] else [], order') == Open(FallTarget(cfg, order'), order')
  {
    var order', e := order + [b], cfg[b].exit;
    assert order'[|order|] == b && order'[..|order| + 1] == order';
    if e.Cond? { OpenOne(e.ifFalse, order'); }
  }

  lemma {:induction false} Regather(xs: seq<nat>, ys: seq<nat>, zs: seq<nat>)
    ensures xs + ys + zs == xs + (ys + zs)
  {
  }

  lemma {:induction false} NextInOrder(cfg: Cfg, order: seq<nat>, b: nat)
    requires OrderInside(cfg, order) && InLayoutOrder(cfg, order) && b < |cfg| && (order != [] ==> IsNextBlock(cfg, order, b))
    ensures OrderInside(cfg, order + [b]) && InLayoutOrder(cfg, order + [b])
  {
    var order' := order + [b];
    forall n | 0 < n < |order'|
      ensures IsNextBlock(cfg, order'[..n], order'[n])
    {
      assert order'[..n] == order[..n];
      assert n == |order| ==> order[..n] == order;
    }
  }

  lemma {:induction false} NextBlockUnique(cfg: Cfg, order: seq<nat>, b: nat, c: nat)
    requires OrderInside(cfg, order) && IsNextBlock(cfg, order, b) && IsNextBlock(cfg, order, c)
    ensures b == c
  {
    if FallTarget(cfg, order) == [] {
      var all := Announced(cfg, order);
      var i :| 0 <= i < |all| && all[i] == b && forall j :: 0 <= j < i ==> all[j] in order;
      var k :| 0 <= k < |all| && all[k] == c && forall j :: 0 <= j < k ==> all[j] in order;
    }
  }

  lemma {:induction false} SameUpTo(x: seq<nat>, y: seq<nat>, n: nat)
    requires n <= |x| && n <= |y| && forall k :: 0 <= k < n ==> x[k] == y[k]
    ensures x[..n] == y[..n]
  {
  }

  lemma {:induction false} SamePrefix(cfg: Cfg, x: seq<nat>, y: seq<nat>, n: nat)
    requires OrderInside(cfg, x) && OrderInside(cfg, y) && InLayoutOrder(cfg, x) && InLayoutOrder(cfg, y)
    requires 0 < n <= |x| && n <= |y| && x[0] == y[0]
    ensures forall k :: 0 <= k < n ==> x[k] == y[k]
  {
    if n > 1 {
      SamePrefix(cfg, x, y, n - 1);
      SameUpTo(x, y, n - 1);
      NextBlockUnique(cfg, x[..n - 1], x[n - 1], y[n - 1]);
    }
  }

  /** There is one such order of the reachable blocks. */
  lemma {:induction false} LayoutOrderUnique(cfg: Cfg, x: seq<nat>, y: seq<nat>)
    requires GoodOrder(cfg, x) && GoodOrder(cfg, y) && InLayoutOrder(cfg, x) && InLayoutOrder(cfg, y)
    ensures x == y
  {
    if |x| <= |y| {
      NotLonger(cfg, x, y);
    } else {
      NotLonger(cfg, y, x);
    }
  }

  lemma {:induction false} NotLonger(cfg: Cfg, x: seq<nat>, y: seq<nat>)
    requires GoodOrder(cfg, x) && GoodOrder(cfg, y) && InLayoutOrder(cfg, x) && InLayoutOrder(cfg, y) && |x| <= |y|
    ensures x == y
  {
    SamePrefix(cfg, x, y, |x|);
    SameUpTo(x, y, |x|);
    assert x[..|x|] == x && y[..|y|] == y;
  }

  // ----- The layout loop -----

  ghost function Unplaced(cfg: Cfg, order: seq<nat>): set<nat> {
    set b | 0 <= b < |cfg| && b !in order
  }

  lemma {:induction false} OneLessUnplaced(cfg: Cfg, order: seq<nat>, b: nat)
    requires b < |cfg| && b !in order
    ensures |Unplaced(cfg, order + [b])| < |Unplaced(cfg, order)|
  {
    assert Unplaced(cfg, order + [b]) == Unplaced(cfg, order) - {b};
    assert b in Unplaced(cfg, order);
  }

  /** Pushes a block, split at its calls. */
  method PlacePieces(block: CfgBlock, b: nat, placed: seq<Placed>) returns (r: seq<Placed>)
    ensures r == placed + Pieces(block, b)
  {
    r := placed;
    var name := Named(b);
    for k := 0 to block.calls
      invariant name == PieceName(b, k)
      invariant |r| == |placed| + k && r[..|placed|] == placed
      invariant forall q :: 0 <= q < k ==> r[|placed| + q] == Piece(block, b, q)
    {
      r := r + [Placed(name, EndCall(Cont(b, k)))];
      name := Cont(b, k);
    }
    r := r + [Placed(name, LastEnd(block.exit))];
  }

  lemma {:induction false} LayoutPush(cfg: Cfg, order: seq<nat>, b: nat)
    requires OrderInside(cfg, order) && b < |cfg|
    ensures OrderInside(cfg, order + [b])
    ensures LayoutOf(cfg, order + [b]) == LayoutOf(cfg, order) + Group(cfg, order + [b], |order|)
  {
    assert (order + [b])[..|order|] == order;
  }

  /** The edges that got a latch. */
  ghost predicate LatchesRecorded(cfg: Cfg, order: seq<nat>, remap: map<(nat, nat), Label>)
    requires OrderInside(cfg, order)
  {
    forall b: nat, f: nat :: (b, f) in remap <==>
      exists i :: 0 <= i < |order| && order[i] == b && NeedsLatch(cfg, order, i) && cfg[b].exit.ifFalse == f
  }

  lemma {:induction false} NeedsLatchPrefix(cfg: Cfg, order: seq<nat>, b: nat, i: nat)
    requires OrderInside(cfg, order) && b < |cfg| && i < |order|
    ensures OrderInside(cfg, order + [b]) && NeedsLatch(cfg, order + [b], i) == NeedsLatch(cfg, order, i)
  {
    assert (order + [b])[..i + 1] == order[..i + 1];
  }

  lemma {:induction false} RecordLatch(cfg: Cfg, order: seq<nat>, b: nat, remap: map<(nat, nat), Label>)
    requires OrderInside(cfg, order) && b < |cfg| && LatchesRecorded(cfg, order, remap)
    ensures OrderInside(cfg, order + [b])
    ensures var e, order' := cfg[b].exit, order + [b];
            LatchesRecorded(cfg, order', if e.Cond? && e.ifFalse in order' then remap[(b, e.ifFalse) := Latch(b, e.ifFalse)] else remap)
  {
    var e, order' := cfg[b].exit, order + [b];
    var remap' := if e.Cond? && e.ifFalse in order' then remap[(b, e.ifFalse) := Latch(b, e.ifFalse)] else remap;
    assert order'[..|order| + 1] == order';
    forall i | 0 <= i < |order|
      ensures NeedsLatch(cfg, order', i) == NeedsLatch(cfg, order, i) && order'[i] == order[i]
    {
      NeedsLatchPrefix(cfg, order, b, i);
    }
    forall c: nat, f: nat
      ensures (c, f) in remap' <==> exists i :: 0 <= i < |order'| && order'[i] == c && NeedsLatch(cfg, order', i) && cfg[c].exit.ifFalse == f
    {
      if (c, f) in remap' {
        if (c, f) in remap {
          var i :| 0 <= i < |order| && order[i] == c && NeedsLatch(cfg, order, i) && cfg[c].exit.ifFalse == f;
          assert order'[i] == c;
        } else {
          assert order'[|order|] == c;
        }
      }
    }
  }

  /** Adds the latch, if one is needed, and enqueues the successors. */
  method Finish(cfg: Cfg, b: nat, placed: seq<Placed>, order: seq<nat>, remap: map<(nat, nat), Label>, rest: seq<nat>)
    returns (placed': seq<Placed>, order': seq<nat>, remap': map<(nat, nat), Label>, work': seq<nat>)
    requires b < |cfg| && OrderInside(cfg, order)
    ensures order' == order + [b] && OrderInside(cfg, order')
    ensures NeedsLatch(cfg, order', |order|) == (cfg[b].exit.Cond? && cfg[b].exit.ifFalse in order')
    ensures placed' == placed + if NeedsLatch(cfg, order', |order|) then [LatchAfter(b, cfg[b].exit.ifFalse)] else []
    ensures remap' == if NeedsLatch(cfg, order', |order|) then remap[(b, cfg[b].exit.ifFalse) := Latch(b, cfg[b].exit.ifFalse)] else remap
    ensures work' == Enqueue(cfg[b].exit, order', rest)
  {
    placed', order', remap', work' := placed, order + [b], remap, rest;
    assert order'[..|order| + 1] == order';
    match cfg[b].exit {
      case Leaves =>
      case Goto(t) =>
        if t !in order' {
          work' := work' + [t];
        }
      case Cond(t, f) =>
        if f in order' {
          remap' := remap'[(b, f) := Latch(b, f)];
          placed' := placed' + [LatchAfter(b, f)];
        } else {
          work' := [f] + work';
        }
        if t !in order' {
          work' := work' + [t];
        }
    }
  }

  ghost predicate LayoutInvariant(cfg: Cfg, placed: seq<Placed>, order: seq<nat>, remap: map<(nat, nat), Label>, work: seq<nat>) {
    && WorkInvariant(cfg, order, work) && placed == LayoutOf(cfg, order) && LatchesRecorded(cfg, order, remap)
    && QueueRight(cfg, order, work) && InLayoutOrder(cfg, order)
  }

  function Remapped(cfg: Cfg, b: nat, order': seq<nat>, remap: map<(nat, nat), Label>): map<(nat, nat), Label>
    requires b < |cfg|
  {
    var e := cfg[b].exit;
    if e.Cond? && e.ifFalse in order' then remap[(b, e.ifFalse) := Latch(b, e.ifFalse)] else remap
  }

  lemma {:induction false} PlaceKeepsLayout(cfg: Cfg, b: nat, placed: seq<Placed>, order: seq<nat>, remap: map<(nat, nat), Label>, rest: seq<nat>)
    requires WellFormedCfg(cfg) && b < |cfg| && b !in order && LayoutInvariant(cfg, placed, order, remap, [b] + rest)
    ensures OrderInside(cfg, order + [b])
    ensures var order' := order + [b];
            LayoutInvariant(cfg, placed + Group(cfg, order', |order|), order', Remapped(cfg, b, order', remap), Enqueue(cfg[b].exit, order', rest))
  {
    PlaceKeepsInvariant(cfg, order, rest, b);
    FirstWork(order, b, rest, [b] + rest);
    PlaceKeepsQueue(cfg, order, b, rest);
    NextInOrder(cfg, order, b);
    LayoutPush(cfg, order, b);
    RecordLatch(cfg, order, b, remap);
  }

  lemma {:induction false} GroupInPieces(cfg: Cfg, b: nat, order: seq<nat>, placed: seq<Placed>)
    requires b < |cfg| && OrderInside(cfg, order + [b])
    ensures var order' := order + [b];
            placed + Group(cfg, order', |order|)
              == placed + Pieces(cfg[b], b) + if NeedsLatch(cfg, order', |order|) then [LatchAfter(b, cfg[b].exit.ifFalse)] else []
  {
  }

  method PlaceNext(cfg: Cfg, b: nat, placed: seq<Placed>, order: seq<nat>, remap: map<(nat, nat), Label>, rest: seq<nat>)
    returns (placed': seq<Placed>, order': seq<nat>, remap': map<(nat, nat), Label>, work': seq<nat>)
    requires WellFormedCfg(cfg) && b < |cfg| && b !in order && LayoutInvariant(cfg, placed, order, remap, [b] + rest)
    ensures order' == order + [b] && LayoutInvariant(cfg, placed', order', remap', work')
  {
    PlaceKeepsLayout(cfg, b, placed, order, remap, rest);
    GroupInPieces(cfg, b, order, placed);
    placed' := PlacePieces(cfg[b], b, placed);
    placed', order', remap', work' := Finish(cfg, b, placed', order, remap, rest);
  }

  lemma {:induction false} FirstWork(order: seq<nat>, b: nat, rest: seq<nat>, work: seq<nat>)
    requires work == [b] + rest && (order == [] ==> work == [0])
    ensures order == [] ==> rest == []
  {
    assert |work| == 1 + |rest|;
  }

  /**
   * The worklist ends and places every reachable block exactly once, entry first: after each block its false
   * successor, if that is not placed yet, else the block announced first.  A block with a condition is followed by
   * its false successor or by a latch, and the layout is a function of the order alone.
   */
  method LayOut(cfg: Cfg) returns (placed: seq<Placed>, order: seq<nat>, remap: map<(nat, nat), Label>)
    requires WellFormedCfg(cfg)
    ensures GoodOrder(cfg, order) && InLayoutOrder(cfg, order)
    ensures placed == LayoutOf(cfg, order) && LatchesRecorded(cfg, order, remap)
  {
    var work := [0];
    placed, order, remap := [], [], map[];
    EntryReachable(cfg);
    while work != []
      invariant LayoutInvariant(cfg, placed, order, remap, work)
      decreases |Unplaced(cfg, order)|, |work|
    {
      var b, rest := work[0], work[1..];
      if b in order {
        FirstOf(work);
        SkipKeepsQueue(cfg, order, b, rest);
        SkipKeepsInvariant(cfg, order, work);
        work := rest;
      } else {
        FirstOf(work);
        OneLessUnplaced(cfg, order, b);
        placed, order, remap, work := PlaceNext(cfg, b, placed, order, remap, rest);
      }
    }
    FinishedIsGood(cfg, order);
  }

  lemma {:induction false} FirstOf<T>(xs: seq<T>)
    requires xs != []
    ensures xs == [xs[0]] + xs[1..]
  {
  }
}
