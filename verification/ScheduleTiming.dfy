/** The list scheduler's clock, and its choices, in terms of last writers and latencies. */
module ScheduleTiming {
  import opened Opcodes
  import opened Mir
  import opened Ready
  import opened SchedDag
  import opened Scheduler
  import ScalarTiming

  type Timed = ScalarTiming.Timed

  /** What a syllable reads and writes, and how long its result takes. */
  function TimedOf(syl: Syllable): Timed {
    ScalarTiming.Timed(SourceRegKeys(syl), DestRegKey(syl), Latency(syl.opcode))
  }

  function TimesOf(syls: seq<Syllable>, order: seq<nat>): seq<Timed>
    requires InBounds(order, |syls|)
  {
    seq(|order|, q requires 0 <= q < |order| => TimedOf(syls[order[q]]))
  }

  /** The earliest cycles in which the syllables can issue in this order, one a cycle. */
  function IssueCycles(syls: seq<Syllable>, order: seq<nat>): (cycles: seq<nat>)
    requires InBounds(order, |syls|)
    ensures |cycles| == |order|
  {
    ScalarTiming.Schedule(TimesOf(syls, order)).cycles
  }

  /** The first cycle after those of the order. */
  function NextCycle(syls: seq<Syllable>, order: seq<nat>): nat
    requires InBounds(order, |syls|)
  {
    if order == [] then 0 else IssueCycles(syls, order)[|order| - 1] + 1
  }

  lemma {:induction false} TimesOfNext(syls: seq<Syllable>, order: seq<nat>)
    requires order != [] && InBounds(order, |syls|)
    ensures var n := |order| - 1; TimesOf(syls, order)[..n] == TimesOf(syls, order[..n])
  {
  }

  lemma {:induction false} ScheduleNext(ts: seq<Timed>)
    requires ts != []
    ensures var n := |ts| - 1; ScalarTiming.Schedule(ts) == ScalarTiming.Tick(ScalarTiming.Schedule(ts[..n]), ts[n])
  {
  }

  lemma {:induction false} SameStep(syl: Syllable, issue: nat, table: ReadyState)
    ensures AfterSyllable(syl, issue, table) == ScalarTiming.AfterTimed(TimedOf(syl), issue, table)
  {
  }

  /** The scheduler's table and clock are those of the earliest schedule. */
  lemma {:induction false} ClockIsSchedule(syls: seq<Syllable>, order: seq<nat>)
    requires InBounds(order, |syls|)
    ensures ClockAfter(syls, order).table == ScalarTiming.Schedule(TimesOf(syls, order)).ready
    ensures ClockAfter(syls, order).cycle == ScalarTiming.Schedule(TimesOf(syls, order)).next
  {
    if order != [] {
      var n := |order| - 1;
      ClockIsSchedule(syls, order[..n]);
      TimesOfNext(syls, order);
      ScheduleNext(TimesOf(syls, order));
      var clock, syl := ClockAfter(syls, order[..n]), syls[order[n]];
      SameStep(syl, Max(clock.cycle, RequiredCycle(syl, clock.table)), clock.table);
    }
  }

  /** Position w of the order is the last writer of register k. */
  predicate LastWriter(syls: seq<Syllable>, order: seq<nat>, k: RegKey, w: int)
    requires InBounds(order, |syls|)
  {
    && 0 <= w < |order| && WritesKey(syls[order[w]], k)
    && forall q :: w < q < |order| ==> !WritesKey(syls[order[q]], k)
  }

  /** Registers whose results the table follows. */
  predicate Followed(k: RegKey) {
    k != ZERO && k.reg.PReg?
  }

  lemma {:induction false} LastWriterTimed(syls: seq<Syllable>, order: seq<nat>, k: RegKey, w: int)
    requires InBounds(order, |syls|) && Followed(k)
    ensures LastWriter(syls, order, k, w) <==> ScalarTiming.IsLastWriterOf(TimesOf(syls, order), k, |order|, w)
  {
    var ts := TimesOf(syls, order);
    assert forall q :: 0 <= q < |order| ==> (ScalarTiming.WritesTo(ts[q], k) <==> WritesKey(syls[order[q]], k));
  }

  /**
   * For every order, the scheduler's table holds for each physical register the issue cycle of its last writer plus
   * that opcode's latency, and 0 if it has no writer.
   */
  lemma {:induction false} SchedulerTableRight(syls: seq<Syllable>, order: seq<nat>, k: RegKey)
    requires InBounds(order, |syls|) && Followed(k)
    ensures var at := KeyReadyAt(ClockAfter(syls, order).table, k);
            && (forall w :: LastWriter(syls, order, k, w) ==> at == IssueCycles(syls, order)[w] + Latency(syls[order[w]].opcode))
            && ((forall w :: !LastWriter(syls, order, k, w)) ==> at == 0)
  {
    var ts := TimesOf(syls, order);
    ClockIsSchedule(syls, order);
    ScalarTiming.ScheduleTableRight(ts);
    var w := ScalarTiming.FindLastWriter(ts, k);
    forall q
      ensures LastWriter(syls, order, k, q) <==> ScalarTiming.IsLastWriterOf(ts, k, |order|, q)
    {
      LastWriterTimed(syls, order, k, q);
    }
  }

  /** Its clock: the cycles are feasible for the order, and no feasible ones are earlier anywhere. */
  lemma {:induction false} SchedulerIssuesEarliest(syls: seq<Syllable>, order: seq<nat>)
    requires InBounds(order, |syls|)
    ensures ScalarTiming.IsEarliest(TimesOf(syls, order), IssueCycles(syls, order))
    ensures ClockAfter(syls, order).cycle == NextCycle(syls, order)
  {
    ScalarTiming.ScheduleIsEarliest(TimesOf(syls, order));
    ClockIsSchedule(syls, order);
    assert TimesOf(syls, order) == [] <==> order == [];
  }

  // ----- Which nodes can issue -----

  /** The results of the last writers of all registers the syllable reads have arrived by cycle c. */
  ghost predicate ArrivedBy(syls: seq<Syllable>, order: seq<nat>, i: nat, c: nat)
    requires InBounds(order, |syls|) && i < |syls|
  {
    forall k, w :: ReadsKey(syls[i], k) && Followed(k) && LastWriter(syls, order, k, w) ==>
      IssueCycles(syls, order)[w] + Latency(syls[order[w]].opcode) <= c
  }

  lemma {:induction false} RequiredExactlyWhen(syls: seq<Syllable>, order: seq<nat>, i: nat, c: nat)
    requires InBounds(order, |syls|) && i < |syls|
    ensures RequiredCycle(syls[i], ClockAfter(syls, order).table) <= c <==> ArrivedBy(syls, order, i, c)
  {
    var table := ClockAfter(syls, order).table;
    var required := RequiredCycle(syls[i], table);
    forall k
      ensures Followed(k) && (exists w :: LastWriter(syls, order, k, w)) ==>
                forall w :: LastWriter(syls, order, k, w) ==> KeyReadyAt(table, k) == IssueCycles(syls, order)[w] + Latency(syls[order[w]].opcode)
      ensures !(Followed(k) && exists w :: LastWriter(syls, order, k, w)) ==> KeyReadyAt(table, k) == 0
    {
      if Followed(k) {
        SchedulerTableRight(syls, order, k);
      } else {
        UnfollowedIsReady(syls, order, k);
      }
    }
    if required <= c {
      forall k, w | ReadsKey(syls[i], k) && Followed(k) && LastWriter(syls, order, k, w)
        ensures IssueCycles(syls, order)[w] + Latency(syls[order[w]].opcode) <= c
      {
        assert k in SourceRegKeys(syls[i]);
      }
    } else {
      var k :| k in SourceRegKeys(syls[i]) && KeyReadyAt(table, k) == required;
      var w :| LastWriter(syls, order, k, w);
      assert ReadsKey(syls[i], k);
    }
  }

  /** A node can issue in the next cycle just when the results of the last writers of its sources have arrived. */
  lemma {:induction false} CanIssueExactlyWhen(syls: seq<Syllable>, order: seq<nat>, i: nat)
    requires InBounds(order, |syls|) && i < |syls|
    ensures var clock := ClockAfter(syls, order);
            CanIssue(syls, clock.table, clock.cycle, i) <==> ArrivedBy(syls, order, i, NextCycle(syls, order))
  {
    SchedulerIssuesEarliest(syls, order);
    RequiredExactlyWhen(syls, order, i, NextCycle(syls, order));
  }

  lemma {:induction false} UnfollowedIsReady(syls: seq<Syllable>, order: seq<nat>, k: RegKey)
    requires InBounds(order, |syls|) && !Followed(k)
    ensures KeyReadyAt(ClockAfter(syls, order).table, k) == 0
  {
    if order != [] {
      UnfollowedIsReady(syls, order[..|order| - 1], k);
    }
  }

  // ----- The choice -----

  /**
   * Node i before node j, without the code's table: if the results j needs have arrived, so have those i needs, and i
   * has the longer path below it or, on equal ones, the lower index; else i's arrive no later than j's, and together
   * with them only in that case.
   */
  ghost predicate TakenBefore(syls: seq<Syllable>, heights: seq<nat>, order: seq<nat>, i: nat, j: nat)
    requires |heights| == |syls| && InBounds(order, |syls|) && i < |syls| && j < |syls|
  {
    var now, better := NextCycle(syls, order), Outranks(heights[i], i, heights[j], j);
    && (ArrivedBy(syls, order, j, now) ==> ArrivedBy(syls, order, i, now) && better)
    && forall c: nat :: c > now && ArrivedBy(syls, order, j, c) ==> ArrivedBy(syls, order, i, c) && (ArrivedBy(syls, order, i, c - 1) || better)
  }

  /** Node i's results have all arrived by c just when c >= r. */
  ghost predicate ArrivesAt(syls: seq<Syllable>, order: seq<nat>, i: nat, r: nat)
    requires InBounds(order, |syls|) && i < |syls|
  {
    forall c: nat :: r <= c <==> ArrivedBy(syls, order, i, c)
  }

  lemma {:induction false} ArrivalOrder(syls: seq<Syllable>, order: seq<nat>, i: nat, j: nat, ri: nat, rj: nat, now: nat, better: bool)
    requires InBounds(order, |syls|) && i < |syls| && j < |syls|
    requires ArrivesAt(syls, order, i, ri) && ArrivesAt(syls, order, j, rj)
    ensures (forall c: nat :: c > now && ArrivedBy(syls, order, j, c) ==> ArrivedBy(syls, order, i, c) && (ArrivedBy(syls, order, i, c - 1) || better))
       <==> ri <= now || (if rj > now then ri < rj || (ri == rj && better) else ri == now + 1 && better)
  {
    var first := if rj > now then rj else now + 1;
    assert ArrivedBy(syls, order, j, first);
    assert ri <= first <==> ArrivedBy(syls, order, i, first);
    assert ri <= first - 1 <==> ArrivedBy(syls, order, i, first - 1);
    if ri <= now || (if rj > now then ri < rj || (ri == rj && better) else ri == now + 1 && better) {
      forall c: nat | c > now && ArrivedBy(syls, order, j, c)
        ensures ArrivedBy(syls, order, i, c) && (ArrivedBy(syls, order, i, c - 1) || better)
      {
        assert first <= c;
        assert ri <= c - 1 <==> ArrivedBy(syls, order, i, c - 1);
      }
    }
  }

  lemma {:induction false} TakenByCycle(syls: seq<Syllable>, heights: seq<nat>, order: seq<nat>, i: nat, j: nat, ri: nat, rj: nat)
    requires |heights| == |syls| && InBounds(order, |syls|) && i < |syls| && j < |syls|
    requires ArrivesAt(syls, order, i, ri) && ArrivesAt(syls, order, j, rj)
    ensures var now, better := NextCycle(syls, order), Outranks(heights[i], i, heights[j], j);
            TakenBefore(syls, heights, order, i, j) <==> if ri <= now then rj <= now ==> better else rj > now && (ri < rj || (ri == rj && better))
  {
    var now, better := NextCycle(syls, order), Outranks(heights[i], i, heights[j], j);
    ArrivalOrder(syls, order, i, j, ri, rj, now, better);
  }

  lemma {:induction false} BeatsExactlyWhen(syls: seq<Syllable>, heights: seq<nat>, order: seq<nat>, i: nat, j: nat)
    requires |heights| == |syls| && InBounds(order, |syls|) && i < |syls| && j < |syls|
    ensures Beats(syls, heights, ClockAfter(syls, order), i, j) <==> TakenBefore(syls, heights, order, i, j)
  {
    var table := ClockAfter(syls, order).table;
    SchedulerIssuesEarliest(syls, order);
    forall c: nat
      ensures RequiredCycle(syls[i], table) <= c <==> ArrivedBy(syls, order, i, c)
      ensures RequiredCycle(syls[j], table) <= c <==> ArrivedBy(syls, order, j, c)
    {
      RequiredExactlyWhen(syls, order, i, c);
      RequiredExactlyWhen(syls, order, j, c);
    }
    assert ArrivesAt(syls, order, i, RequiredCycle(syls[i], table)) && ArrivesAt(syls, order, j, RequiredCycle(syls[j], table));
    TakenByCycle(syls, heights, order, i, j, RequiredCycle(syls[i], table), RequiredCycle(syls[j], table));
  }

  /**
   * The code's choice after an order, in terms of last writers, latencies and longest paths only: the available node
   * that is taken before every other.
   */
  lemma {:induction false} ChoiceExactlyWhen(syls: seq<Syllable>, g: Graph, heights: seq<nat>, order: seq<nat>, i: nat)
    requires |g| == |heights| == |syls| && InBounds(order, |syls|)
    ensures IsChoice(syls, g, heights, order, i)
       <==> Available(g, order, i) && forall j: nat :: Available(g, order, j) ==> TakenBefore(syls, heights, order, i, j)
  {
    if Available(g, order, i) {
      forall j: nat | Available(g, order, j)
        ensures Beats(syls, heights, ClockAfter(syls, order), i, j) <==> TakenBefore(syls, heights, order, i, j)
      {
        BeatsExactlyWhen(syls, heights, order, i, j);
      }
    }
  }
}
