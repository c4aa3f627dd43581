/** Reordering a straight-line sequence of steps without changing what it computes. */
module Reorder {
  import opened Collections
  import opened Machine

  predicate Indexes<T>(ms: seq<T>, a: seq<nat>) {
    forall i :: 0 <= i < |a| ==> a[i] < |ms|
  }

  function Pick<T>(ms: seq<T>, order: seq<nat>): seq<T>
    requires Indexes(ms, order)
  {
    seq(|order|, i requires 0 <= i < |order| => ms[order[i]])
  }

  /** What one step does to the state. */
  type Action<!T> = (T, State) -> State

  function Fold<T>(f: Action<T>, ms: seq<T>, s: State): State {
    if ms == [] then s else Fold(f, ms[1..], f(ms[0], s))
  }

  lemma {:induction false} FoldAppend<T>(f: Action<T>, xs: seq<T>, ys: seq<T>, s: State)
    ensures Fold(f, xs + ys, s) == Fold(f, ys, Fold(f, xs, s))
    decreases |xs|
  {
    if xs == [] {
      assert xs + ys == ys;
    } else {
      assert (xs + ys)[1..] == xs[1..] + ys;
      FoldAppend(f, xs[1..], ys, f(xs[0], s));
    }
  }

  ghost predicate Swappable<T>(f: Action<T>, x: T, y: T) {
    forall s :: f(y, f(x, s)) == f(x, f(y, s))
  }

  /** The elements at positions i < j of a stand the other way round in b. */
  predicate Inverted(a: seq<nat>, b: seq<nat>, i: int, j: int) {
    0 <= i < j < |a| && exists i', j' :: 0 <= i' < j' < |b| && b[i'] == a[j] && b[j'] == a[i]
  }

  /** Every pair that changes order is a pair of swappable operations. */
  ghost predicate InversionsSwappable<T>(f: Action<T>, ms: seq<T>, a: seq<nat>, b: seq<nat>)
    requires Indexes(ms, a)
  {
    forall i, j :: Inverted(a, b, i, j) ==> Swappable(f, ms[a[i]], ms[a[j]])
  }

  lemma {:induction false} BubbleToFront<T>(f: Action<T>, xs: seq<T>, y: T, s: State)
    requires forall x :: x in xs ==> Swappable(f, x, y)
    ensures Fold(f, xs + [y], s) == Fold(f, xs, f(y, s))
    decreases |xs|
  {
    if xs == [] {
      assert xs + [y] == [y];
    } else {
      assert (xs + [y])[1..] == xs[1..] + [y];
      assert Swappable(f, xs[0], y);
      BubbleToFront(f, xs[1..], y, f(xs[0], s));
    }
  }

  /** Two orders of the same steps compute the same if only swappable pairs change places. */
  lemma {:induction false} ReorderPreserves<T>(f: Action<T>, ms: seq<T>, a: seq<nat>, b: seq<nat>, s: State)
    requires Indexes(ms, a) && Indexes(ms, b) && Distinct(a) && Distinct(b)
    requires |a| == |b| && forall x :: x in a <==> x in b
    requires InversionsSwappable(f, ms, a, b)
    ensures Fold(f, Pick(ms, a), s) == Fold(f, Pick(ms, b), s)
    decreases |b|
  {
    if |b| > 0 {
      assert b[0] in a;
      var m :| 0 <= m < |a| && a[m] == b[0];
      EarlierSwappable(f, ms, a, b, m);
      MoveToFront(f, ms, a, m, s);
      RemovalKeepsOrder(f, ms, a, b, m);
      ReorderPreserves(f, ms, a[..m] + a[m + 1..], b[1..], f(ms[b[0]], s));
      assert Pick(ms, b)[1..] == Pick(ms, b[1..]);
    }
  }

  lemma {:induction false} MoveToFront<T>(f: Action<T>, ms: seq<T>, a: seq<nat>, m: nat, s: State)
    requires Indexes(ms, a) && m < |a|
    requires forall x :: x in Pick(ms, a[..m]) ==> Swappable(f, x, ms[a[m]])
    ensures Indexes(ms, a[..m] + a[m + 1..])
    ensures Fold(f, Pick(ms, a), s) == Fold(f, Pick(ms, a[..m] + a[m + 1..]), f(ms[a[m]], s))
  {
    var front, y, back := Pick(ms, a[..m]), ms[a[m]], Pick(ms, a[m + 1..]);
    assert Pick(ms, a) == (front + [y]) + back;
    assert Pick(ms, a[..m] + a[m + 1..]) == front + back;
    FoldAppend(f, front + [y], back, s);
    BubbleToFront(f, front, y, s);
    FoldAppend(f, front, back, f(y, s));
  }

  lemma {:induction false} EarlierSwappable<T>(f: Action<T>, ms: seq<T>, a: seq<nat>, b: seq<nat>, m: nat)
    requires Indexes(ms, a) && Distinct(a)
    requires forall x :: x in a <==> x in b
    requires InversionsSwappable(f, ms, a, b)
    requires m < |a| && b != [] && a[m] == b[0]
    ensures forall x :: x in Pick(ms, a[..m]) ==> Swappable(f, x, ms[a[m]])
  {
    forall i | 0 <= i < m
      ensures Swappable(f, ms[a[i]], ms[a[m]])
    {
      assert a[i] in b;
      var q :| 0 <= q < |b| && b[q] == a[i];
      assert b[0] == a[m] && b[q] == a[i];
      assert Inverted(a, b, i, m);
    }
  }

  lemma {:induction false} RemovalKeepsOrder<T>(f: Action<T>, ms: seq<T>, a: seq<nat>, b: seq<nat>, m: nat)
    requires Indexes(ms, a) && Indexes(ms, b) && Distinct(a) && Distinct(b)
    requires forall x :: x in a <==> x in b
    requires InversionsSwappable(f, ms, a, b)
    requires m < |a| && b != [] && a[m] == b[0]
    ensures var a', b' := a[..m] + a[m + 1..], b[1..];
            && Indexes(ms, a') && Indexes(ms, b') && Distinct(a') && Distinct(b')
            && (forall x :: x in a' <==> x in b')
            && InversionsSwappable(f, ms, a', b')
  {
    var a', b' := a[..m] + a[m + 1..], b[1..];
    forall x
      ensures x in a' <==> x in b'
    {
      assert x in a' <==> x in a && x != a[m];
      assert x in b' <==> x in b && x != b[0];
    }
    forall i, j | Inverted(a', b', i, j)
      ensures Swappable(f, ms[a'[i]], ms[a'[j]])
    {
      var i', j' :| 0 <= i' < j' < |b'| && b'[i'] == a'[j] && b'[j'] == a'[i];
      var p, q := if i < m then i else i + 1, if j < m then j else j + 1;
      assert b[i' + 1] == a[q] && b[j' + 1] == a[p];
      assert Inverted(a, b, p, q);
    }
  }

  // ----- Operations -----

  function Executing(isa: Isa): Action<MicroOp> {
    (m: MicroOp, s: State) => Exec(isa, m, s)
  }

  lemma {:induction false} RunIsFold(isa: Isa, ms: seq<MicroOp>, s: State)
    ensures Run(isa, ms, s) == Fold(Executing(isa), ms, s)
    decreases |ms|
  {
    if ms != [] {
      RunIsFold(isa, ms[1..], Exec(isa, ms[0], s));
    }
  }

  /** Two orders of the same operations compute the same if only swappable pairs change places. */
  lemma {:induction false} ReorderPreservesRun(isa: Isa, ms: seq<MicroOp>, a: seq<nat>, b: seq<nat>, s: State)
    requires Indexes(ms, a) && Indexes(ms, b) && Distinct(a) && Distinct(b)
    requires |a| == |b| && forall x :: x in a <==> x in b
    requires InversionsSwappable(Executing(isa), ms, a, b)
    ensures Run(isa, Pick(ms, a), s) == Run(isa, Pick(ms, b), s)
  {
    ReorderPreserves(Executing(isa), ms, a, b, s);
    RunIsFold(isa, Pick(ms, a), s);
    RunIsFold(isa, Pick(ms, b), s);
  }
}
