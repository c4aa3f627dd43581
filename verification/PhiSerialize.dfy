/** The serialising loop, proved equal to simultaneous assignment. */
module PhiSerialize {
  import opened Opcodes
  import opened Mir
  import opened Machine
  import opened Phi

  predicate SelfCopy(c: PhiCopy) { c.src == RegSrc(c.dst) }

  function Pending(copies: seq<PhiCopy>): (r: seq<PhiCopy>)
    ensures forall c :: c in r <==> c in copies && !SelfCopy(c)
    ensures |r| <= |copies|
  {
    if copies == [] then []
    else
      var n := |copies| - 1;
      if SelfCopy(copies[n]) then Pending(copies[..n]) else Pending(copies[..n]) + [copies[n]]
  }

  lemma {:induction false} PendingDistinct(copies: seq<PhiCopy>)
    requires DistinctDsts(copies)
    ensures DistinctDsts(Pending(copies))
  {
    if copies != [] {
      var n := |copies| - 1;
      PendingDistinct(copies[..n]);
      var rest := Pending(copies[..n]);
      forall i | 0 <= i < |rest|
        ensures rest[i].dst != copies[n].dst
      {
        assert rest[i] in copies[..n];
      }
    }
  }

  // ----- The invariant -----

  /** Destinations are old registers, sources old registers or temporaries, and no copy is to itself. */
  ghost predicate InRange(rem: seq<PhiCopy>, first: nat, next: nat) {
    first <= next && forall i :: 0 <= i < |rem| ==>
      rem[i].dst < first && !SelfCopy(rem[i]) && (rem[i].src.RegSrc? ==> rem[i].src.v < next)
  }

  /** What is pending reads the right values, what is done holds them, and nothing else has changed. */
  ghost predicate Progress(all: seq<PhiCopy>, rem: seq<PhiCopy>, done: seq<PhiCopy>, first: nat, next: nat) {
    && (forall i, j :: 0 <= i < |rem| && 0 <= j < |all| && rem[i].dst == all[j].dst ==> Resolve(done, rem[i].src) == all[j].src)
    && (forall j :: 0 <= j < |all| && !IsDst(rem, all[j].dst) ==> Holds(done, all[j].dst) == all[j].src)
    && (forall v: nat :: !IsDst(all, v) && !(first <= v < next) ==> Holds(done, v) == RegSrc(v))
    && (forall i :: 0 <= i < |rem| ==> IsDst(all, rem[i].dst))
  }

  lemma {:induction false} EmitKeepsProgress(all: seq<PhiCopy>, rem: seq<PhiCopy>, done: seq<PhiCopy>, first: nat, next: nat, pos: nat)
    requires DistinctDsts(rem) && InRange(rem, first, next) && Progress(all, rem, done, first, next) && ReadyAt(rem, pos)
    ensures DistinctDsts(Without(rem, pos)) && InRange(Without(rem, pos), first, next)
    ensures Progress(all, Without(rem, pos), done + [rem[pos]], first, next)
  {
    var c, rem', done' := rem[pos], Without(rem, pos), done + [rem[pos]];
    forall v: nat
      ensures Holds(done', v) == if c.dst == v then Resolve(done, c.src) else Holds(done, v)
    {
      HoldsPush(done, c, v);
    }
    forall i, j | 0 <= i < |rem'| && 0 <= j < |all| && rem'[i].dst == all[j].dst
      ensures Resolve(done', rem'[i].src) == all[j].src
    {
      assert rem'[i].src != RegSrc(c.dst);
    }
    forall j | 0 <= j < |all| && !IsDst(rem', all[j].dst)
      ensures Holds(done', all[j].dst) == all[j].src
    {
      if all[j].dst != c.dst && IsDst(rem, all[j].dst) {
        DstStays(rem, pos, all[j].dst);
      }
    }
  }

  lemma {:induction false} DstStays(rem: seq<PhiCopy>, pos: nat, d: nat)
    requires pos < |rem| && rem[pos].dst != d && IsDst(rem, d)
    ensures IsDst(Without(rem, pos), d)
  {
    var q :| 0 <= q < |rem| && rem[q].dst == d;
    var r := if q < pos then q else q - 1;
    assert Without(rem, pos)[r].dst == d;
  }

  function Redirected(rem: seq<PhiCopy>, s: nat, tmp: nat): seq<PhiCopy> {
    seq(|rem|, i requires 0 <= i < |rem| => if rem[i].src == RegSrc(s) then PhiCopy(rem[i].dst, RegSrc(tmp)) else rem[i])
  }

  lemma {:induction false} BreakKeepsRange(rem: seq<PhiCopy>, first: nat, next: nat, s: nat)
    requires DistinctDsts(rem) && InRange(rem, first, next) && s < first
    ensures DistinctDsts(Redirected(rem, s, next)) && InRange(Redirected(rem, s, next), first, next + 1)
  {
  }

  /** After saving s in the temporary, the redirected copies still read what they read before. */
  lemma {:induction false} BreakKeepsValues(rem: seq<PhiCopy>, done: seq<PhiCopy>, first: nat, next: nat, s: nat, i: nat)
    requires InRange(rem, first, next) && s < first && i < |rem|
    ensures Resolve(done + [PhiCopy(next, RegSrc(s))], Redirected(rem, s, next)[i].src) == Resolve(done, rem[i].src)
  {
    if rem[i].src.RegSrc? {
      HoldsPush(done, PhiCopy(next, RegSrc(s)), Redirected(rem, s, next)[i].src.v);
    }
  }

  lemma {:induction false} BreakKeepsProgress(all: seq<PhiCopy>, rem: seq<PhiCopy>, done: seq<PhiCopy>, first: nat, next: nat, s: nat)
    requires DistinctDsts(rem) && InRange(rem, first, next) && Progress(all, rem, done, first, next) && s < first
    requires forall j :: 0 <= j < |all| ==> all[j].dst < first
    ensures DistinctDsts(Redirected(rem, s, next)) && InRange(Redirected(rem, s, next), first, next + 1)
    ensures Progress(all, Redirected(rem, s, next), done + [PhiCopy(next, RegSrc(s))], first, next + 1)
  {
    var rem', done' := Redirected(rem, s, next), done + [PhiCopy(next, RegSrc(s))];
    BreakKeepsRange(rem, first, next, s);
    forall i | 0 <= i < |rem|
      ensures Resolve(done', rem'[i].src) == Resolve(done, rem[i].src)
    {
      BreakKeepsValues(rem, done, first, next, s, i);
    }
    forall v: nat
      ensures Holds(done', v) == if next == v then Holds(done, s) else Holds(done, v)
    {
      HoldsPush(done, PhiCopy(next, RegSrc(s)), v);
    }
    forall d: nat
      ensures IsDst(rem', d) == IsDst(rem, d)
    {
      SameDsts(rem, rem', d);
    }
  }

  lemma {:induction false} SameDsts(rem: seq<PhiCopy>, rem': seq<PhiCopy>, d: nat)
    requires |rem| == |rem'| && forall i :: 0 <= i < |rem| ==> rem[i].dst == rem'[i].dst
    ensures IsDst(rem', d) == IsDst(rem, d)
  {
    if IsDst(rem, d) {
      var i :| 0 <= i < |rem| && rem[i].dst == d;
      assert rem'[i].dst == d;
    }
  }

  // ----- Counting temporaries -----

  /** Copy p reads something that is no pending destination. */
  predicate LooseAt(rem: seq<PhiCopy>, p: nat) {
    p < |rem| && !(rem[p].src.RegSrc? && IsDst(rem, rem[p].src.v))
  }

  /** A temporary is paid for by the two copies that follow it. */
  ghost predicate Owed(rem: seq<PhiCopy>, credit: nat) {
    && credit <= 2
    && (credit == 1 ==> exists p: nat :: LooseAt(rem, p))
    && (credit == 2 ==> exists p: nat :: LooseAt(rem, p) && !ReadyAt(rem, p))
  }

  lemma {:induction false} StuckOwesNothing(rem: seq<PhiCopy>, credit: nat)
    requires DistinctDsts(rem) && Stuck(rem) && Owed(rem, credit)
    ensures credit == 0
  {
    if credit > 0 {
      var p: nat :| LooseAt(rem, p);
      StuckIsPermutation(rem, p);
    }
  }

  lemma {:induction false} FewerDsts(rem: seq<PhiCopy>, pos: nat, d: nat)
    requires pos < |rem|
    ensures IsDst(Without(rem, pos), d) ==> IsDst(rem, d)
  {
    var rem' := Without(rem, pos);
    assert forall i :: 0 <= i < |rem'| ==> rem'[i] in rem;
  }

  lemma {:induction false} LooseStays(rem: seq<PhiCopy>, pos: nat, p: nat)
    requires pos < |rem| && LooseAt(rem, p) && p != pos
    ensures LooseAt(Without(rem, pos), if p < pos then p else p - 1)
  {
    if rem[p].src.RegSrc? {
      FewerDsts(rem, pos, rem[p].src.v);
    }
  }

  lemma {:induction false} EmitPays(rem: seq<PhiCopy>, pos: nat, credit: nat)
    requires Owed(rem, credit) && ReadyAt(rem, pos)
    ensures Owed(Without(rem, pos), if credit > 0 then credit - 1 else 0)
  {
    if credit == 2 {
      var p: nat :| LooseAt(rem, p) && !ReadyAt(rem, p);
      LooseStays(rem, pos, p);
    }
  }

  lemma {:induction false} RedirectedIsLoose(rem: seq<PhiCopy>, first: nat, next: nat, p: nat, s: nat)
    requires InRange(rem, first, next) && p < |rem| && rem[p].src == RegSrc(s)
    ensures LooseAt(Redirected(rem, s, next), p)
  {
    var rem' := Redirected(rem, s, next);
    assert rem'[p].src == RegSrc(next);
    assert forall i :: 0 <= i < |rem'| ==> rem'[i].dst == rem[i].dst < first <= next;
  }

  lemma {:induction false} RedirectedIsUsed(rem: seq<PhiCopy>, tmp: nat, p: nat, s: nat)
    requires Stuck(rem) && p < |rem| && rem[p].src == RegSrc(s) && rem[p].dst != s
    ensures !ReadyAt(Redirected(rem, s, tmp), p)
  {
    assert IsSource(rem, rem[p].dst);
    var q :| 0 <= q < |rem| && rem[q].src == RegSrc(rem[p].dst);
    assert Redirected(rem, s, tmp)[q].src == RegSrc(rem[p].dst);
  }

  lemma {:induction false} BreakOwesTwo(rem: seq<PhiCopy>, first: nat, next: nat, p: nat, s: nat)
    requires InRange(rem, first, next) && p < |rem| && rem[p].src == RegSrc(s) && Stuck(rem)
    ensures Owed(Redirected(rem, s, next), 2)
  {
    RedirectedIsLoose(rem, first, next, p, s);
    RedirectedIsUsed(rem, next, p, s);
  }

  /** After the break the saved register can be overwritten. */
  lemma {:induction false} BreakFreesOne(rem: seq<PhiCopy>, s: nat, tmp: nat)
    requires IsDst(rem, s) && s != tmp
    ensures !Stuck(Redirected(rem, s, tmp))
  {
    var rem' := Redirected(rem, s, tmp);
    var i :| 0 <= i < |rem| && rem[i].dst == s;
    assert rem'[i].dst == s;
    assert !IsSource(rem', s);
  }

  // ----- The loop -----

  method IsUsed(rem: seq<PhiCopy>, d: nat) returns (r: bool)
    ensures r == IsSource(rem, d)
  {
    for i := 0 to |rem|
      invariant forall q :: 0 <= q < i ==> rem[q].src != RegSrc(d)
    {
      if rem[i].src == RegSrc(d) {
        return true;
      }
    }
    return false;
  }

  method FindReady(rem: seq<PhiCopy>) returns (pos: Option<nat>)
    ensures pos.Some? ==> ReadyAt(rem, pos.value) && forall q :: 0 <= q < pos.value ==> !ReadyAt(rem, q)
    ensures pos.None? <==> Stuck(rem)
  {
    for p := 0 to |rem|
      invariant forall q :: 0 <= q < p ==> !ReadyAt(rem, q) && IsSource(rem, rem[q].dst)
    {
      var used := IsUsed(rem, rem[p].dst);
      if !used {
        return Some(p);
      }
    }
    return None;
  }

  /** Finds the source the code expects; stuck copies always have one. */
  method FindRegSource(rem: seq<PhiCopy>) returns (p: nat)
    requires DistinctDsts(rem) && Stuck(rem) && rem != []
    ensures p < |rem| && rem[p].src.RegSrc? && forall q :: 0 <= q < p ==> !rem[q].src.RegSrc?
  {
    p := 0;
    while p < |rem|
      invariant p <= |rem| && forall q :: 0 <= q < p ==> !rem[q].src.RegSrc?
    {
      if rem[p].src.RegSrc? {
        return;
      }
      p := p + 1;
    }
    StuckIsPermutation(rem, 0);
    assert false;
  }

  method Redirect(rem: seq<PhiCopy>, s: nat, tmp: nat) returns (r: seq<PhiCopy>)
    ensures r == Redirected(rem, s, tmp)
  {
    r := rem;
    for i := 0 to |rem|
      invariant |r| == |rem|
      invariant forall q :: 0 <= q < |rem| ==> r[q] == if q < i then Redirected(rem, s, tmp)[q] else rem[q]
    {
      if r[i].src == RegSrc(s) {
        r := r[i := PhiCopy(r[i].dst, RegSrc(tmp))];
      }
    }
  }

  lemma {:induction false} StartProgress(all: seq<PhiCopy>, first: nat)
    requires DistinctDsts(all)
    ensures Progress(all, all, [], first, first)
  {
    forall i, j | 0 <= i < |all| && 0 <= j < |all| && all[i].dst == all[j].dst
      ensures Resolve([], all[i].src) == all[j].src
    {
      assert i == j;
    }
  }

  lemma {:induction false} FinishedIsSimultaneous(copies: seq<PhiCopy>, done: seq<PhiCopy>, first: nat, next: nat, isa: Isa, s: State)
    requires DistinctDsts(copies) && Progress(Pending(copies), [], done, first, next)
    requires forall i :: 0 <= i < |copies| ==> copies[i].dst < first
    ensures Simultaneous(copies, s, Run(isa, DecodeAll(Code(done)), s), first, next)
  {
    var all, s' := Pending(copies), Run(isa, DecodeAll(Code(done)), s);
    RunHolds(isa, done, s);
    forall i | 0 <= i < |copies|
      ensures Holds(done, copies[i].dst) == copies[i].src
    {
      FinishedHolds(copies, done, first, next, i);
    }
    forall k: RegKey | k.cls == Gpr && k.reg.VReg? && !IsDst(copies, k.reg.v) && !(first <= k.reg.v < next)
      ensures ReadReg(s', k) == ReadReg(s, k)
    {
      assert !IsDst(all, k.reg.v) by {
        assert forall j :: 0 <= j < |all| ==> all[j] in copies;
      }
      assert k == VKey(k.reg.v) && Holds(done, k.reg.v) == RegSrc(k.reg.v);
    }
  }

  lemma {:induction false} FinishedHolds(copies: seq<PhiCopy>, done: seq<PhiCopy>, first: nat, next: nat, i: nat)
    requires DistinctDsts(copies) && Progress(Pending(copies), [], done, first, next) && i < |copies| && copies[i].dst < first
    ensures Holds(done, copies[i].dst) == copies[i].src
  {
    var all, c := Pending(copies), copies[i];
    if SelfCopy(c) {
      assert !IsDst(all, c.dst) by {
        forall j | 0 <= j < |all|
          ensures all[j].dst != c.dst
        {
          assert all[j] in copies;
        }
      }
    } else {
      assert c in all;
    }
  }

  /** Old registers in, old registers out: temporaries are numbered from `next` on. */
  predicate OldRegisters(copies: seq<PhiCopy>, next: nat) {
    forall i :: 0 <= i < |copies| ==> copies[i].dst < next && (copies[i].src.RegSrc? ==> copies[i].src.v < next)
  }

  /** Everything the loop keeps. */
  ghost predicate LoopInvariant(all: seq<PhiCopy>, rem: seq<PhiCopy>, done: seq<PhiCopy>, first: nat, next: nat, credit: nat) {
    && DistinctDsts(rem) && InRange(rem, first, next) && Progress(all, rem, done, first, next)
    && |done| + |rem| == |all| + (next - first)
    && Owed(rem, credit) && 2 * (next - first) + |rem| <= |all| + credit
  }

  lemma {:induction false} StartInvariant(copies: seq<PhiCopy>, first: nat)
    requires DistinctDsts(copies) && OldRegisters(copies, first)
    ensures LoopInvariant(Pending(copies), Pending(copies), [], first, first, 0)
    ensures forall j :: 0 <= j < |Pending(copies)| ==> Pending(copies)[j].dst < first
  {
    var all := Pending(copies);
    PendingDistinct(copies);
    StartProgress(all, first);
    forall i | 0 <= i < |all|
      ensures all[i].dst < first && !SelfCopy(all[i]) && (all[i].src.RegSrc? ==> all[i].src.v < first)
    {
      assert all[i] in copies;
    }
  }

  lemma {:induction false} EmitInvariant(all: seq<PhiCopy>, rem: seq<PhiCopy>, done: seq<PhiCopy>, first: nat, next: nat, credit: nat, pos: nat)
    requires LoopInvariant(all, rem, done, first, next, credit) && ReadyAt(rem, pos)
    ensures LoopInvariant(all, Without(rem, pos), done + [rem[pos]], first, next, if credit > 0 then credit - 1 else 0)
  {
    EmitKeepsProgress(all, rem, done, first, next, pos);
    EmitPays(rem, pos, credit);
  }

  lemma {:induction false} BreakInvariant(all: seq<PhiCopy>, rem: seq<PhiCopy>, done: seq<PhiCopy>, first: nat, next: nat, credit: nat, p: nat, s: nat)
    requires LoopInvariant(all, rem, done, first, next, credit) && Stuck(rem) && p < |rem| && rem[p].src == RegSrc(s)
    requires forall j :: 0 <= j < |all| ==> all[j].dst < first
    ensures LoopInvariant(all, Redirected(rem, s, next), done + [PhiCopy(next, RegSrc(s))], first, next + 1, 2)
    ensures !Stuck(Redirected(rem, s, next))
  {
    StuckOwesNothing(rem, credit);
    StuckIsPermutation(rem, p);
    BreakKeepsProgress(all, rem, done, first, next, s);
    BreakOwesTwo(rem, first, next, p, s);
    BreakFreesOne(rem, s, next);
  }

  lemma {:induction false} CodePush(done: seq<PhiCopy>, c: PhiCopy)
    ensures Code(done + [c]) == Code(done) + [SyllableForCopy(c)]
  {
  }

  ghost predicate FirstReady(rem: seq<PhiCopy>, pos: nat) {
    ReadyAt(rem, pos) && forall q :: 0 <= q < pos ==> !ReadyAt(rem, q)
  }

  ghost predicate FirstSource(rem: seq<PhiCopy>, p: nat) {
    p < |rem| && rem[p].src.RegSrc? && forall q :: 0 <= q < p ==> !rem[q].src.RegSrc?
  }

  /** One round of the loop: the first ready copy is emitted, or the first source of a cycle is saved in a temporary. */
  ghost predicate Emits(rem: seq<PhiCopy>, next: nat, copy: PhiCopy, rem': seq<PhiCopy>, next': nat) {
    || (exists pos: nat :: FirstReady(rem, pos) && copy == rem[pos] && rem' == Without(rem, pos) && next' == next)
    || (Stuck(rem) && exists p: nat ::
          FirstSource(rem, p) && copy == PhiCopy(next, rem[p].src) && rem' == Redirected(rem, rem[p].src.v, next) && next' == next + 1)
  }

  ghost predicate Round(rem: seq<PhiCopy>, next: nat, rem': seq<PhiCopy>, next': nat) {
    exists copy :: Emits(rem, next, copy, rem', next')
  }

  /** What the loop works on between two rounds. */
  datatype LoopState = LoopState(rem: seq<PhiCopy>, next: nat)

  /** The rounds from the given copies, and what they emit. */
  ghost predicate Trace(copies: seq<PhiCopy>, first: nat, states: seq<LoopState>, done: seq<PhiCopy>) {
    |states| == |done| + 1 && states[0] == LoopState(copies, first) && forall i: nat :: i < |done| ==> RoundAt(states, done, i)
  }

  ghost predicate RoundAt(states: seq<LoopState>, done: seq<PhiCopy>, i: nat)
    requires i + 1 < |states| && i < |done|
  {
    states[i].rem != [] && Emits(states[i].rem, states[i].next, done[i], states[i + 1].rem, states[i + 1].next)
  }

  lemma {:induction false} TracePush(copies: seq<PhiCopy>, first: nat, states: seq<LoopState>, done: seq<PhiCopy>, copy: PhiCopy, after: LoopState)
    requires Trace(copies, first, states, done) && states[|done|].rem != []
    requires Emits(states[|done|].rem, states[|done|].next, copy, after.rem, after.next)
    ensures Trace(copies, first, states + [after], done + [copy])
  {
    var states', done' := states + [after], done + [copy];
    forall i: nat | i < |done'|
      ensures RoundAt(states', done', i)
    {
      assert i < |done| ==> RoundAt(states, done, i) && states'[i + 1] == states[i + 1];
    }
  }

  lemma {:induction false} EmitsOne(rem: seq<PhiCopy>, next: nat, c: PhiCopy, c': PhiCopy, x: LoopState, y: LoopState)
    requires rem != [] && Emits(rem, next, c, x.rem, x.next) && Emits(rem, next, c', y.rem, y.next)
    ensures c == c' && x == y
  {
  }

  lemma {:induction false} RoundsAgree(xs: seq<LoopState>, x: seq<PhiCopy>, ys: seq<LoopState>, y: seq<PhiCopy>, i: nat)
    requires i + 1 < |xs| && i < |x| && i + 1 < |ys| && i < |y| && RoundAt(xs, x, i) && RoundAt(ys, y, i) && xs[i] == ys[i]
    ensures x[i] == y[i] && xs[i + 1] == ys[i + 1]
  {
    EmitsOne(xs[i].rem, xs[i].next, x[i], y[i], xs[i + 1], ys[i + 1]);
  }

  lemma {:induction false} TracesAgree(copies: seq<PhiCopy>, first: nat, xs: seq<LoopState>, x: seq<PhiCopy>, ys: seq<LoopState>, y: seq<PhiCopy>, n: nat)
    requires Trace(copies, first, xs, x) && Trace(copies, first, ys, y) && n <= |x| && n <= |y|
    ensures xs[n] == ys[n] && forall i :: 0 <= i < n ==> x[i] == y[i]
  {
    if n > 0 {
      TracesAgree(copies, first, xs, x, ys, y, n - 1);
      assert RoundAt(xs, x, n - 1) && RoundAt(ys, y, n - 1);
      RoundsAgree(xs, x, ys, y, n - 1);
    }
  }

  /** The rounds determine the code: two finished traces emit the same copies. */
  lemma {:induction false} TraceUnique(copies: seq<PhiCopy>, first: nat, xs: seq<LoopState>, x: seq<PhiCopy>, ys: seq<LoopState>, y: seq<PhiCopy>)
    requires Trace(copies, first, xs, x) && Trace(copies, first, ys, y) && xs[|x|].rem == [] && ys[|y|].rem == []
    ensures x == y && xs[|x|] == ys[|y|]
  {
    if |x| <= |y| {
      FinishedTogether(copies, first, xs, x, ys, y);
    } else {
      FinishedTogether(copies, first, ys, y, xs, x);
    }
  }

  lemma {:induction false} FinishedTogether(copies: seq<PhiCopy>, first: nat, xs: seq<LoopState>, x: seq<PhiCopy>, ys: seq<LoopState>, y: seq<PhiCopy>)
    requires Trace(copies, first, xs, x) && Trace(copies, first, ys, y) && xs[|x|].rem == [] && |x| <= |y|
    ensures x == y && xs[|x|] == ys[|y|]
  {
    TracesAgree(copies, first, xs, x, ys, y, |x|);
    assert |x| < |y| ==> RoundAt(ys, y, |x|);
  }

  /** Emits one ready copy, or saves one source of a cycle; either way the invariant holds on. */
  method SerializeStep(rem: seq<PhiCopy>, next: nat, ghost all: seq<PhiCopy>, ghost done: seq<PhiCopy>, ghost first: nat, ghost credit: nat)
    returns (rem': seq<PhiCopy>, next': nat, copy: PhiCopy, ghost credit': nat)
    requires rem != [] && LoopInvariant(all, rem, done, first, next, credit)
    requires forall j :: 0 <= j < |all| ==> all[j].dst < first
    ensures LoopInvariant(all, rem', done + [copy], first, next', credit')
    ensures Emits(rem, next, copy, rem', next')
    ensures |rem'| < |rem| || (|rem'| == |rem| && Stuck(rem) && !Stuck(rem'))
  {
    var pos := FindReady(rem);
    if pos.Some? {
      assert FirstReady(rem, pos.value);
      EmitInvariant(all, rem, done, first, next, credit, pos.value);
      rem', next', copy, credit' := Without(rem, pos.value), next, rem[pos.value], if credit > 0 then credit - 1 else 0;
    } else {
      var p := FindRegSource(rem);
      var src := rem[p].src.v;
      assert FirstSource(rem, p);
      BreakInvariant(all, rem, done, first, next, credit, p, src);
      next', copy, credit' := next + 1, PhiCopy(next, RegSrc(src)), 2;
      rem' := Redirect(rem, src, next);
    }
  }

  /**
   * Copies with distinct destinations are serialised to code that does them all at once, for every start state,
   * with at most one temporary for every two copies.  The code is what the rounds of the loop emit, first ready copy
   * first.  The loop ends and its `expect` cannot fail.
   */
  method SerializeParallelCopies(copies: seq<PhiCopy>, nextVreg: nat)
    returns (result: seq<Syllable>, next: nat, ghost states: seq<LoopState>, ghost done: seq<PhiCopy>)
    requires DistinctDsts(copies) && OldRegisters(copies, nextVreg)
    ensures forall isa: Isa, s: State :: Simultaneous(copies, s, Run(isa, DecodeAll(result), s), nextVreg, next)
    ensures nextVreg <= next && 2 * (next - nextVreg) <= |Pending(copies)|
    ensures |result| == |Pending(copies)| + (next - nextVreg)
    ensures result == Code(done) && Trace(Pending(copies), nextVreg, states, done) && states[|done|] == LoopState([], next)
  {
    var rem := Pending(copies);
    result, next, done, states := [], nextVreg, [], [LoopState(rem, nextVreg)];
    ghost var all: seq<PhiCopy>, credit: nat := rem, 0;
    StartInvariant(copies, nextVreg);
    while rem != []
      invariant LoopInvariant(all, rem, done, nextVreg, next, credit) && result == Code(done)
      invariant Trace(all, nextVreg, states, done) && states[|done|] == LoopState(rem, next)
      decreases |rem|, if Stuck(rem) then 1 else 0
    {
      var copy;
      rem, next, copy, credit := SerializeStep(rem, next, all, done, nextVreg, credit);
      CodePush(done, copy);
      TracePush(all, nextVreg, states, done, copy, LoopState(rem, next));
      result, done, states := result + [SyllableForCopy(copy)], done + [copy], states + [LoopState(rem, next)];
    }
    forall isa: Isa, s: State
      ensures Simultaneous(copies, s, Run(isa, DecodeAll(result), s), nextVreg, next)
    {
      FinishedIsSimultaneous(copies, done, nextVreg, next, isa, s);
    }
  }

  /** Two copies into v1, one of them in a cycle with v2. */
  predicate TwoIntoOne(rem: seq<PhiCopy>, t: nat) {
    |rem| == 3 && rem[0] == PhiCopy(1, RegSrc(t)) && rem[1] == PhiCopy(1, RegSrc(2)) && rem[2] == PhiCopy(2, RegSrc(1))
  }

  lemma {:induction false} StaysStuck(rem: seq<PhiCopy>, t: nat)
    requires TwoIntoOne(rem, t)
    ensures Stuck(rem) && FirstSource(rem, 0) && !DistinctDsts(rem)
  {
    assert IsSource(rem, 1) by { assert rem[2].src == RegSrc(1); }
    assert IsSource(rem, 2) by { assert rem[1].src == RegSrc(2); }
  }

  lemma {:induction false} RoundStays(rem: seq<PhiCopy>, t: nat, next: nat, rem': seq<PhiCopy>, next': nat)
    requires TwoIntoOne(rem, t) && t > 2 && Round(rem, next, rem', next')
    ensures TwoIntoOne(rem', next) && next' == next + 1
  {
    StaysStuck(rem, t);
    assert forall pos :: !FirstReady(rem, pos);
    var copy :| Emits(rem, next, copy, rem', next');
    var p: nat :| FirstSource(rem, p) && rem' == Redirected(rem, rem[p].src.v, next) && next' == next + 1;
    OnlyFirst(rem, t, p);
  }

  lemma {:induction false} OnlyFirst(rem: seq<PhiCopy>, t: nat, p: nat)
    requires TwoIntoOne(rem, t) && FirstSource(rem, p)
    ensures p == 0
  {
  }

  ghost predicate Rounds(states: seq<LoopState>) {
    forall i :: 0 <= i < |states| - 1 ==> Round(states[i].rem, states[i].next, states[i + 1].rem, states[i + 1].next)
  }

  /**
   * Two copies into one register, one of them in a cycle: after any number of rounds of the loop all three copies
   * remain and there is a further round, so the loop never ends.
   */
  lemma {:induction false} DuplicateDestinationsLoop(states: seq<LoopState>, t: nat) returns (last: nat, more: LoopState)
    requires states != [] && Rounds(states) && TwoIntoOne(states[0].rem, t) && 2 < t < states[0].next
    ensures var end := states[|states| - 1]; 2 < last < end.next && TwoIntoOne(end.rem, last) && Rounds(states + [more])
  {
    var n := |states| - 1;
    last := t;
    if n > 0 {
      var before, further := DuplicateDestinationsLoop(states[..n], t);
      RoundStays(states[n - 1].rem, before, states[n - 1].next, states[n].rem, states[n].next);
      last := states[n - 1].next;
    }
    more := NextRound(states[n], last);
    RoundsExtend(states, more);
  }

  lemma {:induction false} NextRound(st: LoopState, t: nat) returns (more: LoopState)
    requires TwoIntoOne(st.rem, t) && t > 2
    ensures Round(st.rem, st.next, more.rem, more.next)
  {
    StaysStuck(st.rem, t);
    more := LoopState(Redirected(st.rem, t, st.next), st.next + 1);
    assert Emits(st.rem, st.next, PhiCopy(st.next, RegSrc(t)), more.rem, more.next);
  }

  lemma {:induction false} RoundsExtend(states: seq<LoopState>, more: LoopState)
    requires states != [] && Rounds(states) && Round(states[|states| - 1].rem, states[|states| - 1].next, more.rem, more.next)
    ensures Rounds(states + [more])
  {
    var all := states + [more];
    forall i | 0 <= i < |all| - 1
      ensures Round(all[i].rem, all[i].next, all[i + 1].rem, all[i + 1].next)
    {
      assert i < |states| - 1 ==> Round(states[i].rem, states[i].next, states[i + 1].rem, states[i + 1].next);
    }
  }
}
