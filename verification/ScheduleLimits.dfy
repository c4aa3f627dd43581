/** When the scheduler may exchange a stack access and an access to an absolute address. */
module ScheduleLimits {
  import opened Opcodes
  import opened Mir
  import opened Machine
  import opened Accesses
  import opened Ready
  import opened SchedDag
  import opened Scheduler
  import opened ScheduleMeaning

  // ----- The same, read off two syllables -----

  ghost predicate StaticApart(x: Syllable, y: Syllable) {
    forall a :: !(StaticTouches(x, a) && StaticTouches(y, a))
  }

  predicate ReadsZero(d: Src) {
    d == FromReg(ZERO) || d == Const(0)
  }

  /** The two sources have the same value in every state. */
  predicate SameData(d: Src, d': Src) {
    d == d' || (ReadsZero(d) && ReadsZero(d'))
  }

  lemma {:induction false} SameDataExactlyWhen(d: Src, d': Src)
    ensures SameData(d, d') <==> forall s :: ReadSrc(s, d) == ReadSrc(s, d')
  {
    if !SameData(d, d') {
      if d.FromReg? && d.key != ZERO {
        DataTells(d, d');
      } else if d'.FromReg? && d'.key != ZERO {
        DataTells(d', d);
      } else {
        assert ReadSrc(State(map[], map[]), d) != ReadSrc(State(map[], map[]), d');
      }
    }
  }

  lemma {:induction false} DataTells(d: Src, d': Src)
    requires d.FromReg? && d.key != ZERO && d != d'
    ensures exists s :: ReadSrc(s, d) != ReadSrc(s, d')
  {
    var n := if d'.Const? then d'.n + 1 else 1;
    assert ReadSrc(State(map[d.key := n], map[]), d) != ReadSrc(State(map[d.key := n], map[]), d');
  }

  /** One accesses a stack slot, the other an absolute address, and they have no register in common. */
  ghost predicate AccessPair(x: Syllable, y: Syllable) {
    && !Decode(x).Compute? && !Decode(y).Compute? && Lands(Decode(x)) && Lands(Decode(y))
    && {BucketOf(x), BucketOf(y)} == {StackBucket, GlobalBucket}
    && forall k :: !KeyConflict(x, y, k)
  }

  /** Both load, no byte is shared, or both store the same to the same place. */
  ghost predicate FreeToSwap(x: Syllable, y: Syllable)
    requires AccessPair(x, y)
  {
    var mx, my := Decode(x), Decode(y);
    || (mx.Load? && my.Load?) || StaticApart(x, y)
    || (mx.Store? && my.Store? && mx.op == my.op && mx.offset == my.offset && SameData(mx.data, my.data))
  }

  lemma {:induction false} ConstantAddress(x: Syllable, s: State)
    requires !Decode(x).Compute? && BucketOf(x) != UnknownBucket
    ensures Decode(x).base == ZERO && Address(Decode(x), s) == Decode(x).offset
    ensures forall a :: Touches(Decode(x), s, a) <==> StaticTouches(x, a)
  {
  }

  lemma {:induction false} PairBuckets(x: Syllable, y: Syllable)
    requires AccessPair(x, y)
    ensures BucketOf(x) != UnknownBucket && BucketOf(y) != UnknownBucket && BucketOf(x) != BucketOf(y)
  {
    assert BucketOf(x) in {BucketOf(x), BucketOf(y)} && BucketOf(y) in {BucketOf(x), BucketOf(y)};
    assert StackBucket in {BucketOf(x), BucketOf(y)} && GlobalBucket in {BucketOf(x), BucketOf(y)};
  }

  lemma {:induction false} FreeToSwapExactlyWhen(x: Syllable, y: Syllable)
    requires AccessPair(x, y)
    ensures FreeToSwap(x, y) <==> forall s :: Exchangeable(Decode(x), Decode(y), s)
  {
    var mx, my := Decode(x), Decode(y);
    PairBuckets(x, y);
    forall s
      ensures ShareNoByte(mx, my, s) == StaticApart(x, y)
      ensures Address(mx, s) == mx.offset && Address(my, s) == my.offset
    {
      ConstantAddress(x, s);
      ConstantAddress(y, s);
    }
    if mx.Store? && my.Store? {
      SameDataExactlyWhen(mx.data, my.data);
      if !FreeToSwap(x, y) {
        var s :| mx.op == my.op && mx.offset == my.offset ==> ReadSrc(s, mx.data) != ReadSrc(s, my.data);
        assert !Exchangeable(mx, my, s);
      }
    } else {
      assert !FreeToSwap(x, y) ==> !Exchangeable(mx, my, State(map[], map[]));
    }
  }

  // ----- Blocks of two accesses -----

  lemma {:induction false} NotJoined(x: Syllable, y: Syllable)
    requires AccessPair(x, y)
    ensures !Edge([x, y], 0, 1)
  {
    var syls := [x, y];
    PairBuckets(x, y);
    assert !IsLastBarrier(syls, 1, 0) && !MemoryEdge(syls, 0, 1);
    if SourceEdge(syls, 0, 1) {
      var k :| ReadsKey(syls[1], k) && IsLastWriter(syls, k, 1, 0);
      assert KeyConflict(x, y, k);
      assert false;
    }
    if DestEdge(syls, 0, 1) {
      assert KeyConflict(x, y, DestRegKey(y).value);
      assert false;
    }
  }

  lemma {:induction false} EitherOrder(x: Syllable, y: Syllable)
    requires AccessPair(x, y)
    ensures IsSchedule([x, y], [{}, {}], [1, 0])
  {
    NotJoined(x, y);
    assert IsSchedDag([x, y], [{}, {}]);
  }

  lemma {:induction false} NoEdges(x: Syllable, y: Syllable, g: Graph)
    requires AccessPair(x, y) && IsSchedDag([x, y], g)
    ensures g == [{}, {}]
  {
    NotJoined(x, y);
    assert g[0] == {} by {
      assert forall j :: j in g[0] ==> Edge([x, y], 0, j) && j == 1;
    }
    assert g[1] == {} by {
      assert forall j :: j in g[1] ==> Edge([x, y], 1, j);
    }
  }

  lemma {:induction false} RunPair(isa: Isa, x: MicroOp, y: MicroOp, s: State)
    ensures Run(isa, [x, y], s) == Exec(isa, y, Exec(isa, x, s))
  {
    assert [x, y][1..] == [y] && [y][1..] == [];
    assert Run(isa, [y], Exec(isa, x, s)) == Run(isa, [], Exec(isa, y, Exec(isa, x, s)));
  }

  /** The block [x, y] and the block [y, x] leave the same state. */
  ghost predicate OrdersAgree(isa: Isa, x: Syllable, y: Syllable, s: State) {
    Run(isa, DecodeAll([y, x]), s) == Run(isa, DecodeAll([x, y]), s)
  }

  lemma {:induction false} PairRuns(isa: Isa, x: Syllable, y: Syllable, s: State)
    ensures OrdersAgree(isa, x, y, s) <==> Commute(isa, Decode(x), Decode(y), s)
  {
    assert DecodeAll([x, y]) == [Decode(x), Decode(y)] && DecodeAll([y, x]) == [Decode(y), Decode(x)];
    RunPair(isa, Decode(x), Decode(y), s);
    RunPair(isa, Decode(y), Decode(x), s);
  }

  lemma {:induction false} PairReordered(x: Syllable, y: Syllable)
    ensures Reordered([x, y], [1, 0]) == [y, x] && Reordered([x, y], [0, 1]) == [x, y]
  {
  }

  lemma {:induction false} PairIndependent(x: Syllable, y: Syllable)
    requires AccessPair(x, y)
    ensures RegIndependent(Decode(x), Decode(y))
  {
    forall k
      ensures !(Writes(Decode(x), k) && (Reads(Decode(y), k) || Writes(Decode(y), k))) && !(Reads(Decode(x), k) && Writes(Decode(y), k))
    {
      DecodeKeys(x, k);
      DecodeKeys(y, k);
      assert !KeyConflict(x, y, k);
    }
  }

  /** The two orders of the pair agree everywhere exactly when the pair is free to swap. */
  lemma {:induction false} OrdersAgreeExactlyWhen(x: Syllable, y: Syllable)
    requires AccessPair(x, y)
    ensures (forall isa, s :: OrdersAgree(isa, x, y, s)) <==> FreeToSwap(x, y)
  {
    FreeToSwapExactlyWhen(x, y);
    if FreeToSwap(x, y) {
      forall isa, s
        ensures OrdersAgree(isa, x, y, s)
      {
        PairExchange(x, y, s);
        PairRuns(isa, x, y, s);
      }
    } else {
      var s :| !Exchangeable(Decode(x), Decode(y), s);
      PairExchange(x, y, s);
      var isa :| !Commute(isa, Decode(x), Decode(y), s);
      PairRuns(isa, x, y, s);
    }
  }

  lemma {:induction false} PairExchange(x: Syllable, y: Syllable, s: State)
    requires AccessPair(x, y)
    ensures (forall isa :: Commute(isa, Decode(x), Decode(y), s)) <==> Exchangeable(Decode(x), Decode(y), s)
  {
    PairIndependent(x, y);
    ExchangeRightExactlyWhen(Decode(x), Decode(y), s);
  }

  ghost predicate OrderRight(isa: Isa, x: Syllable, y: Syllable, order: seq<nat>, s: State)
    requires InBounds(order, 2)
  {
    Run(isa, DecodeAll(Reordered([x, y], order)), s) == Run(isa, DecodeAll([x, y]), s)
  }

  lemma {:induction false} OrderRightMeans(isa: Isa, x: Syllable, y: Syllable, order: seq<nat>, s: State)
    requires order == [0, 1] || order == [1, 0]
    ensures OrderRight(isa, x, y, order, s) <==> order == [0, 1] || OrdersAgree(isa, x, y, s)
  {
    PairReordered(x, y);
  }

  lemma {:induction false} TwoOrders(order: seq<nat>)
    requires |order| == 2 && InBounds(order, 2) && order[0] != order[1]
    ensures order == [0, 1] || order == [1, 0]
  {
  }

  /**
   * For such a pair, what the dependence graph allows is right exactly when the pair is free to swap: the alias
   * analysis never orders it.
   */
  lemma {:induction false} ScheduleRightExactlyWhen(x: Syllable, y: Syllable)
    requires AccessPair(x, y)
    ensures (forall g, order, isa, s :: IsSchedule([x, y], g, order) ==> OrderRight(isa, x, y, order, s)) <==> FreeToSwap(x, y)
  {
    OrdersAgreeExactlyWhen(x, y);
    if FreeToSwap(x, y) {
      forall g, order, isa, s | IsSchedule([x, y], g, order)
        ensures OrderRight(isa, x, y, order, s)
      {
        TwoOrders(order);
        OrderRightMeans(isa, x, y, order, s);
      }
    } else {
      var isa, s :| !OrdersAgree(isa, x, y, s);
      EitherOrder(x, y);
      OrderRightMeans(isa, x, y, [1, 0], s);
    }
  }

  // ----- What the code chooses -----

  lemma {:induction false} FirstEdge(g: Graph, p: seq<nat>)
    requires IsPath(g, p) && |p| > 1
    ensures p[1] in g[p[0]]
  {
    assert p[0 + 1] in g[p[0]];
  }

  lemma {:induction false} OnlyPath(g: Graph, p: seq<nat>, i: nat)
    requires i < |g| && g[i] == {} && PathFrom(g, p, i)
    ensures p == [i]
  {
    if |p| > 1 {
      FirstEdge(g, p);
    }
  }

  lemma {:induction false} SinkHeight(syls: seq<Syllable>, g: Graph, i: nat, h: nat)
    requires |g| == |syls| && i < |g| && g[i] == {} && IsHeight(syls, g, i, h)
    ensures h == Latency(syls[i].opcode)
  {
    var p :| PathFrom(g, p, i) && PathLatency(syls, p) == h;
    OnlyPath(g, p, i);
    assert [i][1..] == [];
    assert PathLatency(syls, [i]) == Latency(syls[i].opcode);
  }

  /** Of two nodes without an edge, the code takes the one with the greater latency first, else the first. */
  lemma {:induction false} GreedyPair(x: Syllable, y: Syllable, g: Graph, heights: seq<nat>, order: seq<nat>)
    requires |g| == 2 && g[0] == {} && g[1] == {} && |order| == 2 && InBounds(order, 2)
    requires AreHeights([x, y], g, heights) && IsGreedy([x, y], g, heights, order)
    ensures order == if Latency(y.opcode) > Latency(x.opcode) then [1, 0] else [0, 1]
  {
    var syls := [x, y];
    SinkHeight(syls, g, 0, heights[0]);
    SinkHeight(syls, g, 1, heights[1]);
    GreedyFirst(syls, g, heights, order);
  }

  lemma {:induction false} NothingPending(syl: Syllable)
    ensures RequiredCycle(syl, ALL_READY) == 0
  {
    assert forall k :: KeyReadyAt(ALL_READY, k) == 0;
  }

  lemma {:induction false} FirstChoice(syls: seq<Syllable>, g: Graph, heights: seq<nat>, i: nat)
    requires |syls| == |g| == |heights| == 2 && g[0] == {} && g[1] == {} && i < 2 && IsChoice(syls, g, heights, [], i)
    ensures Preferred(heights, i, 1 - i)
  {
    assert Available(g, [], 1 - i);
    NothingPending(syls[0]);
    NothingPending(syls[1]);
    assert Beats(syls, heights, Clock(ALL_READY, 0), i, 1 - i);
  }

  lemma {:induction false} GreedyFirst(syls: seq<Syllable>, g: Graph, heights: seq<nat>, order: seq<nat>)
    requires |syls| == 2 && |g| == 2 && g[0] == {} && g[1] == {} && |order| == 2
    requires IsGreedy(syls, g, heights, order)
    ensures order == if heights[1] > heights[0] then [1, 0] else [0, 1]
  {
    var first := order[..1];
    assert IsGreedy(syls, g, heights, first) && IsChoice(syls, g, heights, first, order[1]);
    assert first[..0] == [] && first[0] == order[0];
    FirstChoice(syls, g, heights, order[0]);
    assert order[0] in first;
  }

  /**
   * What the code does with such a pair is right, from every state and under every instruction set, exactly when
   * it is not a store followed by a load of the same bytes: a load has the greater height and is put first.
   */
  lemma {:induction false} ListScheduleRightExactlyWhen(x: Syllable, y: Syllable, g: Graph, heights: seq<nat>, order: seq<nat>)
    requires AccessPair(x, y) && IsSchedule([x, y], g, order)
    requires AreHeights([x, y], g, heights) && IsGreedy([x, y], g, heights, order)
    ensures (forall isa, s :: OrderRight(isa, x, y, order, s)) <==> !(Decode(x).Store? && Decode(y).Load?) || StaticApart(x, y)
  {
    NoEdges(x, y, g);
    GreedyPair(x, y, g, heights, order);
    OrdersAgreeExactlyWhen(x, y);
    StoreThenLoad(x, y);
    forall isa, s
      ensures OrderRight(isa, x, y, order, s) <==> order == [0, 1] || OrdersAgree(isa, x, y, s)
    {
      OrderRightMeans(isa, x, y, order, s);
    }
  }

  lemma {:induction false} StoreThenLoad(x: Syllable, y: Syllable)
    requires AccessPair(x, y)
    ensures Latency(y.opcode) > Latency(x.opcode) <==> Decode(x).Store? && Decode(y).Load?
  {
  }

  // ----- One pair that does overlap -----

  const SPILL := Syllable(StoreD, None, [Stack(0x100), Imm(7)])
  const FETCH := Syllable(LoadD, Some(PReg(2)), [Imm(0x100)])

  /** The scheduler puts the load first, and it then misses the stored value. */
  lemma {:induction false} OverlapBreaksMeaning(g: Graph, heights: seq<nat>, order: seq<nat>) returns (isa: Isa, s: State)
    requires IsSchedule([SPILL, FETCH], g, order)
    requires AreHeights([SPILL, FETCH], g, heights) && IsGreedy([SPILL, FETCH], g, heights, order)
    ensures Reordered([SPILL, FETCH], order) == [FETCH, SPILL]
    ensures Run(isa, DecodeAll(Reordered([SPILL, FETCH], order)), s) != Run(isa, DecodeAll([SPILL, FETCH]), s)
  {
    OverlappingPair();
    NoEdges(SPILL, FETCH, g);
    GreedyPair(SPILL, FETCH, g, heights, order);
    isa, s := OverlapTells();
    PairReordered(SPILL, FETCH);
  }

  lemma {:induction false} OverlapTells() returns (isa: Isa, s: State)
    ensures !OrdersAgree(isa, SPILL, FETCH, s)
  {
    OverlappingPair();
    OrdersAgreeExactlyWhen(SPILL, FETCH);
    isa, s :| !OrdersAgree(isa, SPILL, FETCH, s);
  }

  lemma {:induction false} OverlappingPair()
    ensures AccessPair(SPILL, FETCH) && !FreeToSwap(SPILL, FETCH)
  {
    assert forall k :: !KeyConflict(SPILL, FETCH, k);
    assert StaticTouches(SPILL, 0x100) && StaticTouches(FETCH, 0x100);
  }
}
