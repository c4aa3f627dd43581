/** Which lines are read as a block, whatever its lines mean. */
module BlockGrammar {
  import opened Opcodes
  import opened LinesText

  /** The line after those before `from`, blank ones left out where they are skipped. */
  predicate NextAt(ts: seq<string>, skip: bool, from: nat, at: nat) {
    && from <= at < |ts| && (forall k :: from <= k < at ==> ts[k] == "")
    && if skip then ts[at] != "" else at == from
  }

  /** Line `at` is the next one and is taken in, from s to s'. */
  ghost predicate TakesLine<S(!new)>(ts: seq<string>, skip: bool, step: (string, S) -> Option<S>, from: nat, at: nat, s: S, s': S) {
    NextAt(ts, skip, from, at) && ts[at] != "}" && step(ts[at], s) == Some(s')
  }

  /** The line behind the k-th of the given ones. */
  function Behind(from: nat, ats: seq<nat>, k: nat): nat
    requires k <= |ats|
  {
    if k == 0 then from else ats[k - 1] + 1
  }

  ghost predicate TakenAt<S(!new)>(ts: seq<string>, skip: bool, step: (string, S) -> Option<S>, from: nat, ats: seq<nat>, states: seq<S>, k: nat)
    requires k < |ats| && k + 1 < |states|
  {
    TakesLine(ts, skip, step, Behind(from, ats, k), ats[k], states[k], states[k + 1])
  }

  /** Lines `ats` are taken in one after another, then a closing brace ends the block. */
  ghost predicate BlockTrace<S(!new)>(ts: seq<string>, skip: bool, step: (string, S) -> Option<S>, from: nat, to: nat, ats: seq<nat>, states: seq<S>) {
    && |states| == |ats| + 1
    && (forall k: nat :: k < |ats| ==> TakenAt(ts, skip, step, from, ats, states, k))
    && to > 0 && NextAt(ts, skip, Behind(from, ats, |ats|), to - 1) && ts[to - 1] == "}"
  }

  lemma {:induction false} SkipFinds(ts: seq<string>, from: nat)
    requires from <= |ts|
    ensures var at := SkipBlank(ts, from); (forall k :: from <= k < at ==> ts[k] == "") && (at < |ts| ==> ts[at] != "")
    decreases |ts| - from
  {
    if from < |ts| && ts[from] == "" {
      SkipFinds(ts, from + 1);
    }
  }

  lemma {:induction false} NextExactlyWhen(ts: seq<string>, skip: bool, from: nat, at: nat)
    requires from <= |ts| && at < |ts|
    ensures (if skip then SkipBlank(ts, from) else from) == at <==> NextAt(ts, skip, from, at)
  {
    SkipFinds(ts, from);
  }

  lemma {:induction false} TakeFirst<S(!new)>(ts: seq<string>, skip: bool, step: (string, S) -> Option<S>, from: nat, at: nat, s: S, s': S)
    requires from <= |ts| && TakesLine(ts, skip, step, from, at, s, s')
    ensures ReadBlock(ts, from, skip, step, s) == ReadBlock(ts, at + 1, skip, step, s')
  {
    NextExactlyWhen(ts, skip, from, at);
  }

  lemma {:induction false} TraceReads<S(!new)>(ts: seq<string>, skip: bool, step: (string, S) -> Option<S>, from: nat, to: nat, ats: seq<nat>, states: seq<S>, k: nat)
    requires BlockTrace(ts, skip, step, from, to, ats, states) && k <= |ats|
    ensures Behind(from, ats, k) <= |ts| && ReadBlock(ts, Behind(from, ats, k), skip, step, states[k]) == Parsed(states[|ats|], to)
    decreases |ats| - k
  {
    if k == |ats| {
      NextExactlyWhen(ts, skip, Behind(from, ats, k), to - 1);
    } else {
      TraceReads(ts, skip, step, from, to, ats, states, k + 1);
      assert TakenAt(ts, skip, step, from, ats, states, k);
      TakeFirst(ts, skip, step, Behind(from, ats, k), ats[k], states[k], states[k + 1]);
    }
  }

  lemma {:induction false} TraceFront<S(!new)>(ts: seq<string>, skip: bool, step: (string, S) -> Option<S>, from: nat, to: nat, at: nat, s: S, ats: seq<nat>, states: seq<S>)
    requires BlockTrace(ts, skip, step, at + 1, to, ats, states) && TakesLine(ts, skip, step, from, at, s, states[0])
    ensures BlockTrace(ts, skip, step, from, to, [at] + ats, [s] + states)
  {
    var ats', states' := [at] + ats, [s] + states;
    forall k: nat | k < |ats'|
      ensures TakenAt(ts, skip, step, from, ats', states', k)
    {
      if k > 0 {
        assert TakenAt(ts, skip, step, at + 1, ats, states, k - 1);
      }
    }
  }

  lemma {:induction false} ReadTraces<S(!new)>(ts: seq<string>, skip: bool, step: (string, S) -> Option<S>, from: nat, to: nat, s: S, end: S) returns (ats: seq<nat>, states: seq<S>)
    requires from <= |ts| && ReadBlock(ts, from, skip, step, s) == Parsed(end, to)
    ensures BlockTrace(ts, skip, step, from, to, ats, states) && states[0] == s && states[|ats|] == end
    decreases |ts| - from
  {
    var at := if skip then SkipBlank(ts, from) else from;
    NextExactlyWhen(ts, skip, from, at);
    if ts[at] == "}" {
      ats, states := [], [s];
    } else {
      var s' := step(ts[at], s).value;
      ats, states := ReadTraces(ts, skip, step, at + 1, to, s', end);
      TraceFront(ts, skip, step, from, to, at, s, ats, states);
      ats, states := [at] + ats, [s] + states;
    }
  }

  ghost predicate ReadsTo<S(!new)>(ts: seq<string>, skip: bool, step: (string, S) -> Option<S>, from: nat, to: nat, s: S, end: S) {
    exists ats, states :: BlockTrace(ts, skip, step, from, to, ats, states) && states[0] == s && states[|ats|] == end
  }

  /** A block is read just when its lines up to the first closing brace are taken in one by one. */
  lemma {:induction false} BlockExactlyWhen<S(!new)>(ts: seq<string>, skip: bool, step: (string, S) -> Option<S>, from: nat, to: nat, s: S, end: S)
    requires from <= |ts|
    ensures ReadBlock(ts, from, skip, step, s) == Parsed(end, to) <==> ReadsTo(ts, skip, step, from, to, s, end)
  {
    if ReadBlock(ts, from, skip, step, s) == Parsed(end, to) {
      var ats, states := ReadTraces(ts, skip, step, from, to, s, end);
    }
    if ReadsTo(ts, skip, step, from, to, s, end) {
      var ats, states :| BlockTrace(ts, skip, step, from, to, ats, states) && states[0] == s && states[|ats|] == end;
      TraceReads(ts, skip, step, from, to, ats, states, 0);
    }
  }

  // ----- Lines that each say something -----

  /** A reader that takes in what a line says, and only lines that say something. */
  ghost predicate Understands<S(!new), C(!new)>(step: (string, S) -> Option<S>, says: (string, C) -> bool, after: (S, C) -> S) {
    && (forall t, s, c :: says(t, c) ==> step(t, s) == Some(after(s, c)))
    && (forall t, s :: step(t, s).Some? ==> exists c :: says(t, c))
  }

  function FoldAll<S, C>(after: (S, C) -> S, s: S, cs: seq<C>): S {
    if cs == [] then s else after(FoldAll(after, s, cs[..|cs| - 1]), cs[|cs| - 1])
  }

  ghost predicate SaysAt<C(!new)>(ts: seq<string>, skip: bool, says: (string, C) -> bool, from: nat, at: nat, c: C) {
    NextAt(ts, skip, from, at) && ts[at] != "}" && says(ts[at], c)
  }

  ghost predicate SaidAt<C(!new)>(ts: seq<string>, skip: bool, says: (string, C) -> bool, from: nat, ats: seq<nat>, cs: seq<C>, k: nat)
    requires k < |ats| && k < |cs|
  {
    SaysAt(ts, skip, says, Behind(from, ats, k), ats[k], cs[k])
  }

  /** Lines `ats` say what is in cs, then a closing brace ends the block. */
  ghost predicate BlockSays<C(!new)>(ts: seq<string>, skip: bool, says: (string, C) -> bool, from: nat, to: nat, ats: seq<nat>, cs: seq<C>) {
    && |cs| == |ats|
    && (forall k: nat :: k < |ats| ==> SaidAt(ts, skip, says, from, ats, cs, k))
    && to > 0 && NextAt(ts, skip, Behind(from, ats, |ats|), to - 1) && ts[to - 1] == "}"
  }

  lemma {:induction false} FoldNext<S, C>(after: (S, C) -> S, s: S, cs: seq<C>, k: nat)
    requires k < |cs|
    ensures FoldAll(after, s, cs[..k + 1]) == after(FoldAll(after, s, cs[..k]), cs[k])
  {
    assert cs[..k + 1][..k] == cs[..k];
  }

  lemma {:induction false} SaysTakes<S(!new), C(!new)>(ts: seq<string>, skip: bool, step: (string, S) -> Option<S>, says: (string, C) -> bool, after: (S, C) -> S,
                                       from: nat, at: nat, s: S, c: C)
    requires Understands(step, says, after) && SaysAt(ts, skip, says, from, at, c)
    ensures TakesLine(ts, skip, step, from, at, s, after(s, c))
  {
  }

  lemma {:induction false} TakesSays<S(!new), C(!new)>(ts: seq<string>, skip: bool, step: (string, S) -> Option<S>, says: (string, C) -> bool, after: (S, C) -> S,
                                       from: nat, at: nat, s: S, s': S) returns (c: C)
    requires Understands(step, says, after) && TakesLine(ts, skip, step, from, at, s, s')
    ensures SaysAt(ts, skip, says, from, at, c) && s' == after(s, c)
  {
    c :| says(ts[at], c);
  }

  lemma {:induction false} SaysTrace<S(!new), C(!new)>(ts: seq<string>, skip: bool, step: (string, S) -> Option<S>, says: (string, C) -> bool, after: (S, C) -> S,
                                       from: nat, to: nat, s: S, ats: seq<nat>, cs: seq<C>)
    requires Understands(step, says, after) && BlockSays(ts, skip, says, from, to, ats, cs)
    ensures ReadsTo(ts, skip, step, from, to, s, FoldAll(after, s, cs))
  {
    var states := seq(|cs| + 1, k requires 0 <= k <= |cs| => FoldAll(after, s, cs[..k]));
    forall k: nat | k < |ats|
      ensures TakenAt(ts, skip, step, from, ats, states, k)
    {
      assert SaidAt(ts, skip, says, from, ats, cs, k);
      SaysTakes(ts, skip, step, says, after, Behind(from, ats, k), ats[k], states[k], cs[k]);
      FoldNext(after, s, cs, k);
    }
    assert cs[..0] == [] && cs[..|cs|] == cs;
    assert BlockTrace(ts, skip, step, from, to, ats, states);
  }

  lemma {:induction false} TraceSays<S(!new), C(!new)>(ts: seq<string>, skip: bool, step: (string, S) -> Option<S>, says: (string, C) -> bool, after: (S, C) -> S,
                                       from: nat, to: nat, ats: seq<nat>, states: seq<S>, k: nat) returns (cs: seq<C>)
    requires Understands(step, says, after) && BlockTrace(ts, skip, step, from, to, ats, states) && k <= |ats|
    ensures |cs| == k && states[k] == FoldAll(after, states[0], cs)
    ensures forall i: nat :: i < k ==> SaidAt(ts, skip, says, from, ats, cs, i)
  {
    if k == 0 {
      cs := [];
    } else {
      var before := TraceSays(ts, skip, step, says, after, from, to, ats, states, k - 1);
      assert TakenAt(ts, skip, step, from, ats, states, k - 1);
      var c := TakesSays(ts, skip, step, says, after, Behind(from, ats, k - 1), ats[k - 1], states[k - 1], states[k]);
      cs := before + [c];
      assert cs[..k - 1] == before && cs[..k] == cs;
      FoldNext(after, states[0], cs, k - 1);
      forall i: nat | i < k
        ensures SaidAt(ts, skip, says, from, ats, cs, i)
      {
        assert i < k - 1 ==> SaidAt(ts, skip, says, from, ats, before, i);
      }
    }
  }

  ghost predicate BlockSaysAll<S(!new), C(!new)>(ts: seq<string>, skip: bool, says: (string, C) -> bool, after: (S, C) -> S, from: nat, to: nat, s: S, end: S) {
    exists ats, cs :: BlockSays(ts, skip, says, from, to, ats, cs) && end == FoldAll(after, s, cs)
  }

  /** A block is read just when each of its lines says something, and the result is what they say together. */
  lemma {:induction false} BlockSaysExactlyWhen<S(!new), C(!new)>(ts: seq<string>, skip: bool, step: (string, S) -> Option<S>, says: (string, C) -> bool, after: (S, C) -> S,
                                                  from: nat, to: nat, s: S, end: S)
    requires Understands(step, says, after) && from <= |ts|
    ensures ReadBlock(ts, from, skip, step, s) == Parsed(end, to) <==> BlockSaysAll(ts, skip, says, after, from, to, s, end)
  {
    BlockExactlyWhen(ts, skip, step, from, to, s, end);
    if ReadsTo(ts, skip, step, from, to, s, end) {
      var ats, states :| BlockTrace(ts, skip, step, from, to, ats, states) && states[0] == s && states[|ats|] == end;
      var cs := TraceSays(ts, skip, step, says, after, from, to, ats, states, |ats|);
      assert BlockSays(ts, skip, says, from, to, ats, cs);
    }
    if BlockSaysAll(ts, skip, says, after, from, to, s, end) {
      var ats, cs :| BlockSays(ts, skip, says, from, to, ats, cs) && end == FoldAll(after, s, cs);
      SaysTrace(ts, skip, step, says, after, from, to, s, ats, cs);
    }
  }
}
