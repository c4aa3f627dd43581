/** Facts about sequences and sets that several modules need. */
module Collections {
  function SetOf(vs: seq<nat>): set<nat> {
    set v | v in vs
  }

  predicate Distinct(a: seq<nat>) {
    forall i, j :: 0 <= i < j < |a| ==> a[i] != a[j]
  }

  lemma {:induction false} SplitLast<T>(xs: seq<T>, y: T)
    requires xs != []
    ensures var n := |xs| - 1; xs == xs[..n] + [xs[n]] && xs[n := y] == xs[..n] + [y]
  {
  }

  lemma {:induction false} Regroup<T>(xs: seq<T>, ys: seq<T>, z: T)
    ensures xs + (ys + [z]) == xs + ys + [z]
  {
  }

  lemma {:induction false} Reassociate<T>(xs: seq<T>, ys: seq<T>, zs: seq<T>)
    ensures xs + ys + zs == xs + (ys + zs)
  {
  }

  lemma {:induction false} AppendNothing<T>(xs: seq<T>)
    ensures xs + [] == xs
  {
  }

  lemma {:induction false} TakeNext<T>(xs: seq<T>, i: nat)
    requires i < |xs|
    ensures xs[..i] + [xs[i]] == xs[..i + 1] && xs[..|xs|] == xs && xs[..0] == []
  {
  }

  lemma {:induction false} SubsetSize<T>(a: set<T>, b: set<T>)
    requires a <= b
    ensures |a| <= |b|
    ensures a != b ==> |a| < |b|
  {
    assert b == a + (b - a);
    assert a != b ==> b - a != {};
  }
}
