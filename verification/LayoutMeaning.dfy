/** Running the placed blocks, with fall-through, follows the control-flow graph. */
module LayoutMeaning {
  import opened Collections
  import opened Layout

  /** Control goes from block i to block j of the layout; `taken` is what a branch decides. */
  predicate IsStep(placed: seq<Placed>, i: nat, taken: bool, j: nat) {
    i < |placed| && j < |placed| &&
    match placed[i].end
    case EndReturn => false
    case EndJump(l) => placed[j].name == l
    case EndBranch(l) => if taken then placed[j].name == l else j == i + 1
    case EndCall(_) => j == i + 1
  }

  predicate IsCfgStep(cfg: Cfg, b: nat, taken: bool, b': nat) {
    b < |cfg| && b' < |cfg| &&
    match cfg[b].exit
    case Leaves => false
    case Goto(t) => b' == t
    case Cond(t, f) => b' == if taken then t else f
  }

  // ----- Where things are -----

  /** Where block i of the order starts. */
  function Start(cfg: Cfg, order: seq<nat>, i: nat): nat
    requires OrderInside(cfg, order) && i <= |order|
  {
    |LayoutOf(cfg, order[..i])|
  }

  lemma {:induction false} GroupOfPrefix(cfg: Cfg, order: seq<nat>, n: nat, i: nat)
    requires OrderInside(cfg, order) && i < n <= |order|
    ensures Group(cfg, order[..n], i) == Group(cfg, order, i)
  {
    assert order[..n][..i + 1] == order[..i + 1];
  }

  lemma {:induction false} StartNext(cfg: Cfg, order: seq<nat>, i: nat)
    requires OrderInside(cfg, order) && i < |order|
    ensures LayoutOf(cfg, order[..i + 1]) == LayoutOf(cfg, order[..i]) + Group(cfg, order, i)
    ensures Start(cfg, order, i + 1) == Start(cfg, order, i) + |Group(cfg, order, i)|
  {
    assert order[..i + 1][..i] == order[..i];
    GroupOfPrefix(cfg, order, i + 1, i);
  }

  lemma {:induction false} LayoutPrefix(cfg: Cfg, order: seq<nat>, n: nat, p: nat)
    requires OrderInside(cfg, order) && n <= |order| && p < Start(cfg, order, n)
    ensures Start(cfg, order, n) <= |LayoutOf(cfg, order)| && LayoutOf(cfg, order)[p] == LayoutOf(cfg, order[..n])[p]
    decreases |order| - n
  {
    if n == |order| {
      assert order[..n] == order;
    } else {
      StartNext(cfg, order, n);
      LayoutPrefix(cfg, order, n + 1, p);
    }
  }

  /** The k-th thing of block i's group. */
  lemma {:induction false} GroupAt(cfg: Cfg, order: seq<nat>, i: nat, k: nat)
    requires OrderInside(cfg, order) && i < |order| && k < |Group(cfg, order, i)|
    ensures Start(cfg, order, i) + k < |LayoutOf(cfg, order)|
    ensures LayoutOf(cfg, order)[Start(cfg, order, i) + k] == Group(cfg, order, i)[k]
  {
    StartNext(cfg, order, i);
    LayoutPrefix(cfg, order, i + 1, Start(cfg, order, i) + k);
  }

  /** Every position is in some group. */
  lemma {:induction false} FindGroup(cfg: Cfg, order: seq<nat>, p: nat) returns (i: nat, k: nat)
    requires OrderInside(cfg, order) && p < |LayoutOf(cfg, order)|
    ensures i < |order| && k < |Group(cfg, order, i)| && p == Start(cfg, order, i) + k
    ensures LayoutOf(cfg, order)[p] == Group(cfg, order, i)[k]
    decreases |order|
  {
    var n := |order| - 1;
    assert order[..n + 1] == order;
    StartNext(cfg, order, n);
    if p >= Start(cfg, order, n) {
      i, k := n, p - Start(cfg, order, n);
    } else {
      i, k := FindGroup(cfg, order[..n], p);
      assert order[..n][..i] == order[..i];
      GroupOfPrefix(cfg, order, n, i);
    }
  }

  // ----- Names -----

  predicate OfBlock(l: Label, b: nat) {
    match l
    case Named(c) => c == b
    case Cont(c, _) => c == b
    case Latch(c, _) => c == b
  }

  lemma {:induction false} GroupNames(cfg: Cfg, order: seq<nat>, i: nat, k: nat)
    requires OrderInside(cfg, order) && i < |order| && k < |Group(cfg, order, i)|
    ensures OfBlock(Group(cfg, order, i)[k].name, order[i])
    ensures forall q :: 0 <= q < k ==> Group(cfg, order, i)[q].name != Group(cfg, order, i)[k].name
    ensures Group(cfg, order, i)[k].name.Named? <==> k == 0
  {
  }

  /** No two placed blocks have the same name. */
  lemma {:induction false} NamesDistinct(cfg: Cfg, order: seq<nat>, p: nat, q: nat)
    requires OrderInside(cfg, order) && Distinct(order) && p < |LayoutOf(cfg, order)| && q < |LayoutOf(cfg, order)|
    requires LayoutOf(cfg, order)[p].name == LayoutOf(cfg, order)[q].name
    ensures p == q
  {
    var i, k := FindGroup(cfg, order, p);
    var j, m := FindGroup(cfg, order, q);
    GroupNames(cfg, order, i, k);
    GroupNames(cfg, order, j, m);
    assert order[i] == order[j];
    assert i == j;
  }

  /** The start of block order[i] carries its name. */
  lemma {:induction false} NamedAt(cfg: Cfg, order: seq<nat>, i: nat)
    requires OrderInside(cfg, order) && i < |order|
    ensures Start(cfg, order, i) < |LayoutOf(cfg, order)| && LayoutOf(cfg, order)[Start(cfg, order, i)].name == Named(order[i])
  {
    GroupAt(cfg, order, i, 0);
  }

  // ----- One step of the layout -----

  /** What may follow a placed block, by name. */
  predicate NameStep(cfg: Cfg, from: Label, taken: bool, to: Label) {
    match from
    case Named(b) => b < |cfg| && PieceStep(cfg[b], b, 0, taken, to)
    case Cont(b, call) => b < |cfg| && PieceStep(cfg[b], b, call + 1, taken, to)
    case Latch(b, f) => b < |cfg| && cfg[b].exit.Cond? && cfg[b].exit.ifFalse == f && to == Named(f)
  }

  /** A call returns to its continuation; only the last piece leaves the block, on a false condition maybe by a latch. */
  predicate PieceStep(block: CfgBlock, b: nat, k: nat, taken: bool, to: Label) {
    if k < block.calls then to == Cont(b, k)
    else match block.exit
      case Leaves => false
      case Goto(t) => to == Named(t)
      case Cond(t, f) => if taken then to == Named(t) else to == Named(f) || to == Latch(b, f)
  }

  lemma {:induction false} GroupShape(cfg: Cfg, order: seq<nat>, i: nat)
    requires OrderInside(cfg, order) && i < |order|
    ensures var b := order[i];
            var g := Group(cfg, order, i);
            && |g| == cfg[b].calls + 1 + (if NeedsLatch(cfg, order, i) then 1 else 0)
            && (forall k :: 0 <= k <= cfg[b].calls ==> g[k] == Piece(cfg[b], b, k))
            && (NeedsLatch(cfg, order, i) ==> g[cfg[b].calls + 1] == LatchAfter(b, cfg[b].exit.ifFalse))
  {
  }

  /** On a false condition the next block is the false successor, or a latch that jumps to it. */
  lemma {:induction false} AfterBranch(cfg: Cfg, order: seq<nat>, i: nat)
    requires GoodOrder(cfg, order) && i < |order| && cfg[order[i]].exit.Cond?
    ensures var b := order[i];
            var placed, p, f := LayoutOf(cfg, order), Start(cfg, order, i) + cfg[b].calls, cfg[b].exit.ifFalse;
            && p + 1 < |placed|
            && (if NeedsLatch(cfg, order, i) then placed[p + 1] == LatchAfter(b, f) else placed[p + 1].name == Named(f))
  {
    var calls := cfg[order[i]].calls;
    GroupShape(cfg, order, i);
    if NeedsLatch(cfg, order, i) {
      GroupAt(cfg, order, i, calls + 1);
    } else {
      assert FallThroughAt(cfg, order, [], i);
      StartNext(cfg, order, i);
      NamedAt(cfg, order, i + 1);
    }
  }

  lemma {:induction false} AfterCall(cfg: Cfg, order: seq<nat>, i: nat, k: nat)
    requires OrderInside(cfg, order) && i < |order| && k < cfg[order[i]].calls
    ensures var placed, p := LayoutOf(cfg, order), Start(cfg, order, i) + k;
            p + 1 < |placed| && placed[p + 1].name == Cont(order[i], k)
  {
    GroupShape(cfg, order, i);
    GroupAt(cfg, order, i, k + 1);
  }

  /** Every step of the layout is one the control-flow graph allows. */
  lemma {:induction false} StepFollowsCfg(cfg: Cfg, order: seq<nat>, p: nat, taken: bool, q: nat)
    requires GoodOrder(cfg, order) && IsStep(LayoutOf(cfg, order), p, taken, q)
    ensures NameStep(cfg, LayoutOf(cfg, order)[p].name, taken, LayoutOf(cfg, order)[q].name)
  {
    var i, k := FindGroup(cfg, order, p);
    var b := order[i];
    GroupShape(cfg, order, i);
    if k < cfg[b].calls {
      AfterCall(cfg, order, i, k);
    } else if k == cfg[b].calls && cfg[b].exit.Cond? {
      AfterBranch(cfg, order, i);
    }
  }

  // ----- Whole runs -----

  ghost predicate IsRun(placed: seq<Placed>, path: seq<nat>, taken: seq<bool>) {
    && path != [] && |taken| == |path| - 1 && path[0] < |placed|
    && forall k :: 0 <= k < |taken| ==> IsStep(placed, path[k], taken[k], path[k + 1])
  }

  /** The control-flow blocks a run enters. */
  function Trace(placed: seq<Placed>, path: seq<nat>): seq<nat>
    requires forall k :: 0 <= k < |path| ==> path[k] < |placed|
  {
    if path == [] then []
    else
      var n := |path| - 1;
      var name := placed[path[n]].name;
      if name.Named? then Trace(placed, path[..n]) + [name.b] else Trace(placed, path[..n])
  }

  lemma {:induction false} RunInside(placed: seq<Placed>, path: seq<nat>, taken: seq<bool>)
    requires IsRun(placed, path, taken)
    ensures forall k :: 0 <= k < |path| ==> path[k] < |placed|
  {
    forall k | 0 <= k < |path|
      ensures path[k] < |placed|
    {
      if k > 0 {
        assert IsStep(placed, path[k - 1], taken[k - 1], path[k - 1 + 1]);
      }
    }
  }

  function BlockOf(l: Label): nat {
    match l
    case Named(b) => b
    case Cont(b, _) => b
    case Latch(b, _) => b
  }

  lemma {:induction false} NameStepEdge(cfg: Cfg, from: Label, taken: bool, to: Label)
    requires WellFormedCfg(cfg) && NameStep(cfg, from, taken, to)
    ensures if to.Named? then IsEdge(cfg, BlockOf(from), to.b) else BlockOf(to) == BlockOf(from)
  {
  }

  lemma {:induction false} PathPush(cfg: Cfg, p: seq<nat>, b: nat)
    requires IsCfgPath(cfg, p) && IsEdge(cfg, p[|p| - 1], b)
    ensures IsCfgPath(cfg, p + [b])
  {
    var q := p + [b];
    forall k | 0 <= k < |q| - 1
      ensures IsEdge(cfg, q[k], q[k + 1])
    {
      assert k < |p| - 1 ==> IsEdge(cfg, p[k], p[k + 1]);
    }
  }

  /** Every run from the entry enters the blocks of a path of the control-flow graph. */
  lemma {:induction false} RunFollowsCfg(cfg: Cfg, order: seq<nat>, path: seq<nat>, taken: seq<bool>)
    requires WellFormedCfg(cfg) && GoodOrder(cfg, order) && IsRun(LayoutOf(cfg, order), path, taken) && path[0] == 0
    ensures forall k :: 0 <= k < |path| ==> path[k] < |LayoutOf(cfg, order)|
    ensures var t := Trace(LayoutOf(cfg, order), path);
            IsCfgPath(cfg, t) && t[0] == 0 && t[|t| - 1] == BlockOf(LayoutOf(cfg, order)[path[|path| - 1]].name)
    decreases |path|
  {
    var placed, n := LayoutOf(cfg, order), |path| - 1;
    RunInside(placed, path, taken);
    if n == 0 {
      NamedAt(cfg, order, 0);
      assert path[..0] == [] && Trace(placed, path) == [0];
    } else {
      assert IsRun(placed, path[..n], taken[..n - 1]);
      RunFollowsCfg(cfg, order, path[..n], taken[..n - 1]);
      var last := path[n - 1];
      assert IsStep(placed, path[n - 1], taken[n - 1], path[n - 1 + 1]);
      StepFollowsCfg(cfg, order, last, taken[n - 1], path[n]);
      NameStepEdge(cfg, placed[last].name, taken[n - 1], placed[path[n]].name);
      if placed[path[n]].name.Named? {
        PathPush(cfg, Trace(placed, path[..n]), placed[path[n]].name.b);
      }
    }
  }

  /** Labels are unique, so what is decided determines where control goes. */
  lemma {:induction false} StepsDeterministic(cfg: Cfg, order: seq<nat>, p: nat, taken: bool, q: nat, q': nat)
    requires GoodOrder(cfg, order) && IsStep(LayoutOf(cfg, order), p, taken, q) && IsStep(LayoutOf(cfg, order), p, taken, q')
    ensures q == q'
  {
    if LayoutOf(cfg, order)[q].name == LayoutOf(cfg, order)[q'].name {
      NamesDistinct(cfg, order, q, q');
    }
  }

  // ----- Every path of the graph is run -----

  /** What the branches of a run decided, in order. */
  function Decisions(placed: seq<Placed>, path: seq<nat>, taken: seq<bool>): seq<bool>
    requires |path| == |taken| + 1 && forall k :: 0 <= k < |path| ==> path[k] < |placed|
    decreases |taken|
  {
    if taken == [] then []
    else
      var n := |taken| - 1;
      var rest := Decisions(placed, path[..n + 1], taken[..n]);
      if placed[path[n]].end.EndBranch? then rest + [taken[n]] else rest
  }

  function CfgDecisions(cfg: Cfg, p: seq<nat>, ds: seq<bool>): seq<bool>
    requires |p| == |ds| + 1 && OrderInside(cfg, p)
    decreases |ds|
  {
    if ds == [] then []
    else
      var n := |ds| - 1;
      var rest := CfgDecisions(cfg, p[..n + 1], ds[..n]);
      if cfg[p[n]].exit.Cond? then rest + [ds[n]] else rest
  }

  ghost predicate IsCfgRun(cfg: Cfg, p: seq<nat>, ds: seq<bool>) {
    && |p| == |ds| + 1 && OrderInside(cfg, p)
    && forall k :: 0 <= k < |ds| ==> IsCfgStep(cfg, p[k], ds[k], p[k + 1])
  }

  /** A run that has entered the blocks `trace`, decided `ds`, and is at `at`. */
  datatype Walk = Walk(path: seq<nat>, taken: seq<bool>)

  ghost predicate WalkTo(placed: seq<Placed>, w: Walk, at: nat, trace: seq<nat>, ds: seq<bool>) {
    && IsRun(placed, w.path, w.taken) && (forall k :: 0 <= k < |w.path| ==> w.path[k] < |placed|)
    && w.path[0] == 0 && w.path[|w.path| - 1] == at
    && Trace(placed, w.path) == trace && Decisions(placed, w.path, w.taken) == ds
  }

  lemma {:induction false} RunOn(placed: seq<Placed>, path: seq<nat>, taken: seq<bool>, d: bool, q: nat)
    requires IsRun(placed, path, taken) && path != [] && IsStep(placed, path[|path| - 1], d, q)
    ensures IsRun(placed, path + [q], taken + [d])
  {
    var path', taken' := path + [q], taken + [d];
    forall k | 0 <= k < |taken'|
      ensures IsStep(placed, path'[k], taken'[k], path'[k + 1])
    {
      if k < |taken| {
        assert IsStep(placed, path[k], taken[k], path[k + 1]);
      }
    }
  }

  lemma {:induction false} WalkOn(placed: seq<Placed>, w: Walk, at: nat, trace: seq<nat>, ds: seq<bool>, d: bool, q: nat)
    requires WalkTo(placed, w, at, trace, ds) && IsStep(placed, at, d, q)
    ensures WalkTo(placed, Walk(w.path + [q], w.taken + [d]), q,
                   if placed[q].name.Named? then trace + [placed[q].name.b] else trace,
                   if placed[at].end.EndBranch? then ds + [d] else ds)
  {
    RunOn(placed, w.path, w.taken, d, q);
    assert (w.path + [q])[..|w.path|] == w.path && (w.taken + [d])[..|w.taken|] == w.taken;
  }

  lemma {:induction false} CallStep(cfg: Cfg, order: seq<nat>, i: nat, k: nat)
    requires OrderInside(cfg, order) && i < |order| && k < cfg[order[i]].calls
    ensures var placed, p := LayoutOf(cfg, order), Start(cfg, order, i) + k;
            IsStep(placed, p, false, p + 1) && !placed[p + 1].name.Named? && !placed[p].end.EndBranch?
  {
    GroupShape(cfg, order, i);
    GroupAt(cfg, order, i, k);
    AfterCall(cfg, order, i, k);
  }

  /** Through the calls of a block to its last piece. */
  lemma {:induction false} WalkPieces(cfg: Cfg, order: seq<nat>, i: nat, k: nat, w: Walk, trace: seq<nat>, ds: seq<bool>) returns (w': Walk)
    requires OrderInside(cfg, order) && i < |order| && k <= cfg[order[i]].calls
    requires WalkTo(LayoutOf(cfg, order), w, Start(cfg, order, i), trace, ds)
    ensures WalkTo(LayoutOf(cfg, order), w', Start(cfg, order, i) + k, trace, ds)
  {
    w' := w;
    if k > 0 {
      var p := Start(cfg, order, i) + (k - 1);
      w' := WalkPieces(cfg, order, i, k - 1, w, trace, ds);
      CallStep(cfg, order, i, k - 1);
      WalkOn(LayoutOf(cfg, order), w', p, trace, ds, false, p + 1);
      w' := Walk(w'.path + [p + 1], w'.taken + [false]);
    }
  }

  /** The last piece of a block, at its end. */
  lemma {:induction false} LastPiece(cfg: Cfg, order: seq<nat>, i: nat)
    requires OrderInside(cfg, order) && i < |order|
    ensures var b := order[i];
            var placed, p := LayoutOf(cfg, order), Start(cfg, order, i) + cfg[b].calls;
            p < |placed| && placed[p].end == LastEnd(cfg[b].exit)
  {
    GroupShape(cfg, order, i);
    GroupAt(cfg, order, i, cfg[order[i]].calls);
  }

  /** A jump, or a branch that is taken, goes straight to the block it names. */
  lemma {:induction false} DirectStep(cfg: Cfg, order: seq<nat>, i: nat, d: bool, j: nat)
    requires GoodOrder(cfg, order) && i < |order| && j < |order| && IsCfgStep(cfg, order[i], d, order[j])
    requires !(cfg[order[i]].exit.Cond? && !d)
    ensures var placed, p, q := LayoutOf(cfg, order), Start(cfg, order, i) + cfg[order[i]].calls, Start(cfg, order, j);
            IsStep(placed, p, d, q) && placed[q].name == Named(order[j]) && (placed[p].end.EndBranch? <==> cfg[order[i]].exit.Cond?)
  {
    LastPiece(cfg, order, i);
    NamedAt(cfg, order, j);
  }

  /** A branch that is not taken falls through, to the false successor or to its latch. */
  lemma {:induction false} FallStep(cfg: Cfg, order: seq<nat>, i: nat, j: nat)
    requires GoodOrder(cfg, order) && i < |order| && j < |order| && cfg[order[i]].exit.Cond? && order[j] == cfg[order[i]].exit.ifFalse
    ensures var placed, p, q := LayoutOf(cfg, order), Start(cfg, order, i) + cfg[order[i]].calls, Start(cfg, order, j);
            && IsStep(placed, p, false, p + 1) && placed[p].end.EndBranch? && q < |placed| && placed[q].name == Named(order[j])
            && if NeedsLatch(cfg, order, i) then
                 IsStep(placed, p + 1, false, q) && !placed[p + 1].name.Named? && !placed[p + 1].end.EndBranch?
               else p + 1 == q
  {
    LastPiece(cfg, order, i);
    NamedAt(cfg, order, j);
    AfterBranch(cfg, order, i);
    if !NeedsLatch(cfg, order, i) {
      NamesDistinct(cfg, order, Start(cfg, order, i) + cfg[order[i]].calls + 1, Start(cfg, order, j));
    }
  }

  lemma {:induction false} WalkFall(cfg: Cfg, order: seq<nat>, i: nat, j: nat, w: Walk, trace: seq<nat>, ds: seq<bool>) returns (w': Walk)
    requires GoodOrder(cfg, order) && i < |order| && j < |order| && cfg[order[i]].exit.Cond? && order[j] == cfg[order[i]].exit.ifFalse
    requires WalkTo(LayoutOf(cfg, order), w, Start(cfg, order, i) + cfg[order[i]].calls, trace, ds)
    ensures WalkTo(LayoutOf(cfg, order), w', Start(cfg, order, j), trace + [order[j]], ds + [false])
  {
    FallStep(cfg, order, i, j);
    w' := WalkBehind(LayoutOf(cfg, order), w, Start(cfg, order, i) + cfg[order[i]].calls, trace, ds, Start(cfg, order, j),
                     NeedsLatch(cfg, order, i), order[j]);
  }

  /** Past a branch that is not taken, through the latch if there is one. */
  lemma {:induction false} WalkBehind(placed: seq<Placed>, w: Walk, p: nat, trace: seq<nat>, ds: seq<bool>, q: nat, latch: bool, b: nat) returns (w': Walk)
    requires WalkTo(placed, w, p, trace, ds)
    requires IsStep(placed, p, false, p + 1) && placed[p].end.EndBranch? && q < |placed| && placed[q].name == Named(b)
    requires if latch then IsStep(placed, p + 1, false, q) && !placed[p + 1].name.Named? && !placed[p + 1].end.EndBranch? else p + 1 == q
    ensures WalkTo(placed, w', q, trace + [b], ds + [false])
  {
    WalkOn(placed, w, p, trace, ds, false, p + 1);
    w' := Walk(w.path + [p + 1], w.taken + [false]);
    if latch {
      WalkOn(placed, w', p + 1, trace, ds + [false], false, q);
      w' := Walk(w'.path + [q], w'.taken + [false]);
    }
  }

  /** Out of a block along one edge. */
  lemma {:induction false} WalkEdge(cfg: Cfg, order: seq<nat>, i: nat, d: bool, j: nat, w: Walk, trace: seq<nat>, ds: seq<bool>) returns (w': Walk)
    requires GoodOrder(cfg, order) && i < |order| && j < |order| && IsCfgStep(cfg, order[i], d, order[j])
    requires WalkTo(LayoutOf(cfg, order), w, Start(cfg, order, i) + cfg[order[i]].calls, trace, ds)
    ensures WalkTo(LayoutOf(cfg, order), w', Start(cfg, order, j), trace + [order[j]], if cfg[order[i]].exit.Cond? then ds + [d] else ds)
  {
    var placed, p, q := LayoutOf(cfg, order), Start(cfg, order, i) + cfg[order[i]].calls, Start(cfg, order, j);
    if cfg[order[i]].exit.Cond? && !d {
      w' := WalkFall(cfg, order, i, j, w, trace, ds);
    } else {
      DirectStep(cfg, order, i, d, j);
      WalkOn(placed, w, p, trace, ds, d, q);
      w' := Walk(w.path + [q], w.taken + [d]);
    }
  }

  lemma {:induction false} EdgeFromStep(cfg: Cfg, b: nat, d: bool, b': nat)
    requires IsCfgStep(cfg, b, d, b')
    ensures IsEdge(cfg, b, b')
  {
  }

  lemma {:induction false} CfgRunReachable(cfg: Cfg, p: seq<nat>, ds: seq<bool>, k: nat)
    requires cfg != [] && IsCfgRun(cfg, p, ds) && p[0] == 0 && k < |p|
    ensures Reachable(cfg, p[k])
  {
    if k == 0 {
      EntryReachable(cfg);
    } else {
      CfgRunReachable(cfg, p, ds, k - 1);
      assert IsCfgStep(cfg, p[k - 1], ds[k - 1], p[k - 1 + 1]);
      EdgeFromStep(cfg, p[k - 1], ds[k - 1], p[k]);
      EdgeReachable(cfg, p[k - 1], p[k]);
    }
  }

  lemma {:induction false} IndexOf(order: seq<nat>, b: nat) returns (i: nat)
    requires b in order
    ensures i < |order| && order[i] == b
  {
    i :| i < |order| && order[i] == b;
  }

  /** Through a block and out along one edge. */
  lemma {:induction false} WalkBlock(cfg: Cfg, order: seq<nat>, i: nat, d: bool, j: nat, w: Walk, trace: seq<nat>, ds: seq<bool>) returns (w': Walk)
    requires GoodOrder(cfg, order) && i < |order| && j < |order| && IsCfgStep(cfg, order[i], d, order[j])
    requires WalkTo(LayoutOf(cfg, order), w, Start(cfg, order, i), trace, ds)
    ensures WalkTo(LayoutOf(cfg, order), w', Start(cfg, order, j), trace + [order[j]], if cfg[order[i]].exit.Cond? then ds + [d] else ds)
  {
    var w1 := WalkPieces(cfg, order, i, cfg[order[i]].calls, w, trace, ds);
    w' := WalkEdge(cfg, order, i, d, j, w1, trace, ds);
  }

  lemma {:induction false} StartWalk(cfg: Cfg, order: seq<nat>, w: Walk, p: seq<nat>, ds: seq<bool>)
    requires WellFormedCfg(cfg) && GoodOrder(cfg, order) && IsCfgRun(cfg, p, ds) && p == [0] && w == Walk([0], [])
    ensures 0 < |order| && order[0] == 0 && WalkTo(LayoutOf(cfg, order), w, Start(cfg, order, 0), p, CfgDecisions(cfg, p, ds))
  {
    NamedAt(cfg, order, 0);
    assert w.path[..0] == [] && Trace(LayoutOf(cfg, order), w.path) == [0];
  }

  /**
   * The layout runs every path of the control-flow graph: some run from the entry enters exactly the path's
   * blocks, its branches deciding what the path's conditions decide.
   */
  lemma {:induction false} CfgRunIsRun(cfg: Cfg, order: seq<nat>, p: seq<nat>, ds: seq<bool>) returns (w: Walk, at: nat)
    requires WellFormedCfg(cfg) && GoodOrder(cfg, order) && IsCfgRun(cfg, p, ds) && p[0] == 0
    ensures at < |order| && order[at] == p[|p| - 1]
    ensures WalkTo(LayoutOf(cfg, order), w, Start(cfg, order, at), p, CfgDecisions(cfg, p, ds))
    decreases |p|
  {
    var n := |p| - 1;
    if n == 0 {
      at, w := 0, Walk([0], []);
      assert p == [0];
      StartWalk(cfg, order, w, p, ds);
    } else {
      var w0, i := CfgRunIsRun(cfg, order, p[..n], ds[..n - 1]);
      CfgRunReachable(cfg, p, ds, n);
      at := IndexOf(order, p[n]);
      assert IsCfgStep(cfg, p[n - 1], ds[n - 1], p[n - 1 + 1]);
      w := WalkBlock(cfg, order, i, ds[n - 1], at, w0, p[..n], CfgDecisions(cfg, p[..n], ds[..n - 1]));
      assert p[..n] + [p[n]] == p;
    }
  }
}
