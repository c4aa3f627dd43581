/** Issue cycles of the scalar stream: as early as the latencies allow, and no earlier. */
module ScalarTiming {
  import opened Opcodes
  import opened Mir
  import opened Asm
  import opened AsmMeaning
  import opened Ready
  import opened Timing

  /** What decides when a syllable may issue and when its result arrives. */
  datatype Timed = Timed(sources: seq<RegKey>, dest: Option<RegKey>, latency: nat)

  function TimedOf(x: AsmSyllable): Timed {
    match OpcodeOf(x)
    case None => Timed([], None, 0)
    case Some(op) => Timed(SourceKeys(op, x.operands), AsmDest(op, x.operands), Latency(op))
  }

  function Times(xs: seq<AsmSyllable>): seq<Timed> {
    seq(|xs|, i requires 0 <= i < |xs| => TimedOf(xs[i]))
  }

  function AfterTimed(t: Timed, cycle: nat, ready: ReadyState): ReadyState {
    match t.dest
    case Some(RegKey(cls, PReg(n))) => ready.Set(cls, n, cycle + t.latency)
    case _ => ready
  }

  /** The emitter after a list of syllables: its ready table, its clock and the cycles it issued in. */
  datatype Clock = Clock(ready: ReadyState, next: nat, cycles: seq<nat>)

  function Tick(c: Clock, t: Timed): Clock {
    var issue := Max(c.next, MaxReadyAt(c.ready, t.sources));
    Clock(AfterTimed(t, issue, c.ready), issue + 1, c.cycles + [issue])
  }

  function Schedule(ts: seq<Timed>): (c: Clock)
    ensures |c.cycles| == |ts|
    ensures c.next == if ts == [] then 0 else c.cycles[|ts| - 1] + 1
  {
    if ts == [] then Clock(ALL_READY, 0, []) else Tick(Schedule(ts[..|ts| - 1]), ts[|ts| - 1])
  }

  lemma {:induction false} ScheduleAppend(ts: seq<Timed>, t: Timed)
    ensures Schedule(ts + [t]) == Tick(Schedule(ts), t)
  {
    assert (ts + [t])[..|ts|] == ts;
  }

  // ----- What a correct schedule is -----

  /** Only physical registers other than r0 carry results. */
  predicate WritesTo(t: Timed, k: RegKey) {
    t.dest == Some(k) && k != ZERO && k.reg.PReg?
  }

  predicate IsLastWriterOf(ts: seq<Timed>, k: RegKey, n: int, w: int) {
    0 <= w < n <= |ts| && WritesTo(ts[w], k) && forall q :: w < q < n ==> !WritesTo(ts[q], k)
  }

  /** Issue cycles d keep the order, one syllable a cycle, and wait for the last writer of every source. */
  ghost predicate Feasible(ts: seq<Timed>, d: seq<nat>) {
    && |d| == |ts|
    && (forall n :: 0 < n < |ts| ==> d[n - 1] < d[n])
    && forall n, k, w :: 0 <= n < |ts| && k in ts[n].sources && IsLastWriterOf(ts, k, n, w) ==> d[w] + ts[w].latency <= d[n]
  }

  // ----- The ready table -----

  /** The table holds, for each register, when the result of its last writer arrives. */
  ghost predicate TableRight(ts: seq<Timed>, cycles: seq<nat>, ready: ReadyState)
    requires |cycles| == |ts|
  {
    && (forall k, w :: IsLastWriterOf(ts, k, |ts|, w) ==> KeyReadyAt(ready, k) == cycles[w] + ts[w].latency)
    && (forall k: RegKey :: (forall w :: 0 <= w < |ts| ==> !WritesTo(ts[w], k)) ==> KeyReadyAt(ready, k) == 0)
  }

  lemma {:induction false} AfterTimedKey(t: Timed, cycle: nat, ready: ReadyState, k: RegKey)
    ensures KeyReadyAt(AfterTimed(t, cycle, ready), k) == if WritesTo(t, k) then cycle + t.latency else KeyReadyAt(ready, k)
  {
  }

  lemma {:induction false} ScheduleTableRight(ts: seq<Timed>)
    ensures TableRight(ts, Schedule(ts).cycles, Schedule(ts).ready)
  {
    if ts != [] {
      var n := |ts| - 1;
      var us, t := ts[..n], ts[n];
      ScheduleTableRight(us);
      var c, c' := Schedule(us), Schedule(ts);
      var issue := c'.cycles[n];
      assert c'.ready == AfterTimed(t, issue, c.ready);
      forall k, w | IsLastWriterOf(ts, k, |ts|, w)
        ensures KeyReadyAt(c'.ready, k) == c'.cycles[w] + ts[w].latency
      {
        AfterTimedKey(t, issue, c.ready, k);
        if w < n {
          assert IsLastWriterOf(us, k, n, w) && !WritesTo(ts[n], k);
        }
      }
      forall k: RegKey | forall w :: 0 <= w < |ts| ==> !WritesTo(ts[w], k)
        ensures KeyReadyAt(c'.ready, k) == 0
      {
        AfterTimedKey(t, issue, c.ready, k);
        assert forall w :: 0 <= w < n ==> us[w] == ts[w] && !WritesTo(us[w], k);
      }
    }
  }

  lemma {:induction false} FindLastWriter(ts: seq<Timed>, k: RegKey) returns (w: int)
    ensures w < |ts|
    ensures if w < 0 then forall q :: 0 <= q < |ts| ==> !WritesTo(ts[q], k) else IsLastWriterOf(ts, k, |ts|, w)
  {
    w := |ts| - 1;
    while w >= 0 && !WritesTo(ts[w], k)
      invariant -1 <= w < |ts| && forall q :: w < q < |ts| ==> !WritesTo(ts[q], k)
    {
      w := w - 1;
    }
  }

  // ----- Feasible -----

  lemma {:induction false} FeasibleExtends(ts: seq<Timed>, d: seq<nat>)
    requires ts != [] && |d| == |ts|
    requires var m := |ts| - 1;
             && Feasible(ts[..m], d[..m]) && (m > 0 ==> d[m - 1] < d[m])
             && forall k, w :: k in ts[m].sources && IsLastWriterOf(ts, k, m, w) ==> d[w] + ts[w].latency <= d[m]
    ensures Feasible(ts, d)
  {
    var m := |ts| - 1;
    var us, e := ts[..m], d[..m];
    forall n, k, w | 0 <= n < |ts| && k in ts[n].sources && IsLastWriterOf(ts, k, n, w)
      ensures d[w] + ts[w].latency <= d[n]
    {
      if n < m {
        assert us[n] == ts[n] && IsLastWriterOf(us, k, n, w);
        assert e[w] + us[w].latency <= e[n];
      }
    }
    forall n | 0 < n < |ts|
      ensures d[n - 1] < d[n]
    {
      assert n < m ==> e[n - 1] < e[n];
    }
  }

  /** No syllable issues before the results of the last writers of its sources arrive. */
  lemma {:induction false} ScheduleFeasible(ts: seq<Timed>)
    ensures Feasible(ts, Schedule(ts).cycles)
  {
    if ts != [] {
      var m := |ts| - 1;
      var us, d := ts[..m], Schedule(ts).cycles;
      ScheduleFeasible(us);
      ScheduleTableRight(us);
      var c := Schedule(us);
      LastWaits(ts, m, c.cycles, c.ready);
      assert d == c.cycles + [d[m]] && MaxReadyAt(c.ready, ts[m].sources) <= d[m];
      FeasibleExtends(ts, d);
    }
  }

  /** Once the table says its sources are ready, the results of their last writers have arrived. */
  lemma {:induction false} LastWaits(ts: seq<Timed>, m: nat, cycles: seq<nat>, ready: ReadyState)
    requires m == |ts| - 1 && |cycles| == m && TableRight(ts[..m], cycles, ready)
    ensures forall k, w :: k in ts[m].sources && IsLastWriterOf(ts, k, m, w) ==> cycles[w] + ts[w].latency <= MaxReadyAt(ready, ts[m].sources)
  {
    forall k, w | k in ts[m].sources && IsLastWriterOf(ts, k, m, w)
      ensures cycles[w] + ts[w].latency <= MaxReadyAt(ready, ts[m].sources)
    {
      assert IsLastWriterOf(ts[..m], k, m, w);
      assert KeyReadyAt(ready, k) <= MaxReadyAt(ready, ts[m].sources);
    }
  }

  // ----- Earliest -----

  lemma {:induction false} RequiredBound(ts: seq<Timed>, cycles: seq<nat>, ready: ReadyState, sources: seq<RegKey>, bound: nat)
    requires |cycles| == |ts| && TableRight(ts, cycles, ready)
    requires forall k, w :: k in sources && IsLastWriterOf(ts, k, |ts|, w) ==> cycles[w] + ts[w].latency <= bound
    ensures MaxReadyAt(ready, sources) <= bound
  {
    if MaxReadyAt(ready, sources) > 0 {
      var k :| k in sources && KeyReadyAt(ready, k) == MaxReadyAt(ready, sources);
      var w := FindLastWriter(ts, k);
    }
  }

  lemma {:induction false} FeasiblePrefix(ts: seq<Timed>, d: seq<nat>, m: nat)
    requires Feasible(ts, d) && m <= |ts|
    ensures Feasible(ts[..m], d[..m])
  {
    var us, e := ts[..m], d[..m];
    forall n, k, w | 0 <= n < m && k in us[n].sources && IsLastWriterOf(us, k, n, w)
      ensures e[w] + us[w].latency <= e[n]
    {
      assert IsLastWriterOf(ts, k, n, w);
    }
  }

  /** Pointwise earliest: no feasible schedule issues any syllable sooner. */
  lemma {:induction false} ScheduleEarliest(ts: seq<Timed>, d: seq<nat>)
    requires Feasible(ts, d)
    ensures forall n :: 0 <= n < |ts| ==> Schedule(ts).cycles[n] <= d[n]
  {
    if ts != [] {
      var m := |ts| - 1;
      var us, e := ts[..m], d[..m];
      FeasiblePrefix(ts, d, m);
      ScheduleEarliest(us, e);
      ScheduleTableRight(us);
      var c := Schedule(us);
      assert forall w :: 0 <= w < m ==> c.cycles[w] <= e[w] && e[w] == d[w];
      SourcesByThen(ts, d, m, c.cycles, c.ready);
      assert m > 0 ==> c.cycles[m - 1] <= d[m - 1] < d[m];
      TickNoLater(c, ts[m], d);
    }
  }

  lemma {:induction false} TickNoLater(c: Clock, t: Timed, d: seq<nat>)
    requires |d| == |c.cycles| + 1 && forall n :: 0 <= n < |c.cycles| ==> c.cycles[n] <= d[n]
    requires c.next <= d[|c.cycles|] && MaxReadyAt(c.ready, t.sources) <= d[|c.cycles|]
    ensures |Tick(c, t).cycles| == |d| && forall n :: 0 <= n < |d| ==> Tick(c, t).cycles[n] <= d[n]
  {
  }

  /** If the earlier syllables issued no later than in d, the last one's sources are ready by its cycle in d. */
  lemma {:induction false} SourcesByThen(ts: seq<Timed>, d: seq<nat>, m: nat, cycles: seq<nat>, ready: ReadyState)
    requires Feasible(ts, d) && m == |ts| - 1 && |cycles| == m && TableRight(ts[..m], cycles, ready)
    requires forall w :: 0 <= w < m ==> cycles[w] <= d[w]
    ensures MaxReadyAt(ready, ts[m].sources) <= d[m]
  {
    var us := ts[..m];
    forall k, w | k in ts[m].sources && IsLastWriterOf(us, k, |us|, w)
      ensures cycles[w] + us[w].latency <= d[m]
    {
      assert IsLastWriterOf(ts, k, m, w);
    }
    RequiredBound(us, cycles, ready, ts[m].sources, d[m]);
  }

  ghost predicate NoLater(d: seq<nat>, d': seq<nat>) {
    |d| == |d'| && forall n :: 0 <= n < |d| ==> d[n] <= d'[n]
  }

  ghost predicate IsEarliest(ts: seq<Timed>, d: seq<nat>) {
    Feasible(ts, d) && forall d' :: Feasible(ts, d') ==> NoLater(d, d')
  }

  lemma {:induction false} ScheduleIsEarliest(ts: seq<Timed>)
    ensures IsEarliest(ts, Schedule(ts).cycles)
  {
    ScheduleFeasible(ts);
    forall d | Feasible(ts, d)
      ensures NoLater(Schedule(ts).cycles, d)
    {
      ScheduleEarliest(ts, d);
    }
  }
}
