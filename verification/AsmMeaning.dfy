/** What assembler syllables and bundles do. */
module AsmMeaning {
  import opened Opcodes
  import opened Mir
  import opened Machine
  import opened Asm

  function OperandSrc(o: Operand): Src {
    match o
    case RegOp(r) => FromReg(RegKey(Gpr, PReg(r)))
    case PredOp(p) => FromReg(RegKey(Pred, PReg(p)))
    case ImmOp(n) => Const(n)
    case MemAddr(base, _) => FromReg(RegKey(Gpr, PReg(base)))
    case LabelOp(_) => Const(0)
  }

  function OperandSrcs(ops: seq<Operand>): seq<Src> {
    seq(|ops|, i requires 0 <= i < |ops| => OperandSrc(ops[i]))
  }

  /** The destination is the first operand, of the class the opcode writes. */
  function AsmDest(op: Opcode, ops: seq<Operand>): Option<RegKey> {
    if ops == [] then None
    else if WritesGpr(op) && ops[0].RegOp? then Some(RegKey(Gpr, PReg(ops[0].r)))
    else if WritesPred(op) && ops[0].PredOp? then Some(RegKey(Pred, PReg(ops[0].p)))
    else None
  }

  function DecodeOperands(op: Opcode, ops: seq<Operand>): MicroOp {
    if IsLoad(op) && |ops| == 2 && ops[0].RegOp? && ops[1].MemAddr? then
      Load(op, AsmDest(op, ops), RegKey(Gpr, PReg(ops[1].base)), ops[1].offset)
    else if IsStore(op) && |ops| == 2 && ops[0].MemAddr? && (ops[1].RegOp? || ops[1].ImmOp?) then
      Store(op, RegKey(Gpr, PReg(ops[0].base)), ops[0].offset, OperandSrc(ops[1]))
    else
      Compute(op, AsmDest(op, ops), OperandSrcs(if AsmDest(op, ops).Some? then ops[1..] else ops))
  }

  /** A mnemonic no opcode has does nothing. */
  function DecodeAsm(syl: AsmSyllable): MicroOp {
    match OpcodeOf(syl)
    case Some(op) => DecodeOperands(op, syl.operands)
    case None => Compute(Nop, None, [])
  }

  function DecodeSyllables(syls: seq<AsmSyllable>): seq<MicroOp> {
    seq(|syls|, i requires 0 <= i < |syls| => DecodeAsm(syls[i]))
  }

  // ----- Simultaneous issue -----

  function EffectsOf(isa: Isa, ms: seq<MicroOp>, s: State): seq<Effect> {
    seq(|ms|, i requires 0 <= i < |ms| => EffectOf(isa, ms[i], s))
  }

  function ApplyAll(s: State, es: seq<Effect>): State
    decreases |es|
  {
    if es == [] then s else ApplyAll(Apply(s, es[0]), es[1..])
  }

  /** All syllables of a bundle read the state before it; then all write. */
  function Issue(isa: Isa, ms: seq<MicroOp>, s: State): State {
    ApplyAll(s, EffectsOf(isa, ms, s))
  }

  function ExecBundle(isa: Isa, b: Bundle, s: State): State {
    Issue(isa, DecodeSyllables(Syllables(b)), s)
  }

  function RunBundles(isa: Isa, bs: seq<Bundle>, s: State): State {
    if bs == [] then s
    else ExecBundle(isa, bs[|bs| - 1], RunBundles(isa, bs[..|bs| - 1], s))
  }

  // ----- Independent operations -----

  /** At most one of the two touches memory, or neither stores. */
  predicate MemApart(x: MicroOp, y: MicroOp) {
    x.Compute? || y.Compute? || (x.Load? && y.Load?)
  }

  predicate Independent(x: MicroOp, y: MicroOp) {
    RegIndependent(x, y) && MemApart(x, y)
  }

  predicate PairwiseIndependent(ms: seq<MicroOp>) {
    forall i, j :: 0 <= i < j < |ms| ==> Independent(ms[i], ms[j])
  }

  // ----- Operations in text order -----

  /** In no state do the two accesses meet. */
  ghost predicate NeverMeet(x: MicroOp, y: MicroOp) {
    x.Compute? || y.Compute? || forall s, a :: !(Touches(x, s, a) && Touches(y, s, a))
  }

  /** y, behind x, neither reads nor overwrites what x writes. */
  ghost predicate Harmless(x: MicroOp, y: MicroOp) {
    && (forall k :: !(Writes(x, k) && (Reads(y, k) || Writes(y, k))))
    && (x.Store? ==> NeverMeet(x, y))
  }

  ghost predicate AllHarmless(ms: seq<MicroOp>) {
    forall i, j :: 0 <= i < j < |ms| ==> Harmless(ms[i], ms[j])
  }

  lemma {:induction false} HarmlessKeepsEffect(isa: Isa, x: MicroOp, y: MicroOp, s: State)
    requires Harmless(x, y)
    ensures EffectOf(isa, y, Exec(isa, x, s)) == EffectOf(isa, y, s)
  {
    ExecFrame(isa, x, s);
    EffectFrame(isa, y, s, Exec(isa, x, s));
  }

  lemma {:induction false} EffectsUnchanged(isa: Isa, x: MicroOp, ms: seq<MicroOp>, s: State)
    requires forall i :: 0 <= i < |ms| ==> Harmless(x, ms[i])
    ensures EffectsOf(isa, ms, Exec(isa, x, s)) == EffectsOf(isa, ms, s)
  {
    forall i | 0 <= i < |ms|
      ensures EffectOf(isa, ms[i], Exec(isa, x, s)) == EffectOf(isa, ms[i], s)
    {
      HarmlessKeepsEffect(isa, x, ms[i], s);
    }
  }

  /** Operations none of which harms a later one do together what they do one after the other. */
  lemma {:induction false} IssueIsRun(isa: Isa, ms: seq<MicroOp>, s: State)
    requires AllHarmless(ms)
    ensures Issue(isa, ms, s) == Run(isa, ms, s)
    decreases |ms|
  {
    if ms != [] {
      var s1 := Exec(isa, ms[0], s);
      EffectsUnchanged(isa, ms[0], ms[1..], s);
      assert EffectsOf(isa, ms, s)[1..] == EffectsOf(isa, ms[1..], s);
      IssueIsRun(isa, ms[1..], s1);
    }
  }

  lemma {:induction false} IndependentIsHarmless(ms: seq<MicroOp>)
    requires PairwiseIndependent(ms)
    ensures AllHarmless(ms)
  {
    forall i, j | 0 <= i < j < |ms|
      ensures Harmless(ms[i], ms[j])
    {
      assert Independent(ms[i], ms[j]);
    }
  }

  // ----- Writes in any order -----

  ghost predicate EffectsApart(e: Effect, f: Effect) {
    e.regs.Keys !! f.regs.Keys && e.mem.Keys !! f.mem.Keys
  }

  lemma {:induction false} ApplyCommutes(s: State, e: Effect, f: Effect)
    requires EffectsApart(e, f)
    ensures Apply(Apply(s, e), f) == Apply(Apply(s, f), e)
  {
    DisjointUnionsCommute(s.regs, e.regs, f.regs);
    DisjointUnionsCommute(s.mem, e.mem, f.mem);
  }

  /** An effect apart from those before it may be applied first. */
  lemma {:induction false} ApplyEarlier(s: State, es: seq<Effect>, m: nat)
    requires m < |es| && forall i :: 0 <= i < m ==> EffectsApart(es[i], es[m])
    ensures ApplyAll(s, es) == ApplyAll(Apply(s, es[m]), es[..m] + es[m + 1..])
    decreases m
  {
    if m == 0 {
      assert es[..0] + es[1..] == es[1..];
    } else {
      var rest := es[..m] + es[m + 1..];
      ApplyEarlier(Apply(s, es[0]), es[1..], m - 1);
      assert rest[0] == es[0] && rest[1..] == es[1..][..m - 1] + es[1..][m..];
      ApplyCommutes(s, es[0], es[m]);
    }
  }

  /** The two operations write different registers and different bytes. */
  ghost predicate WritesApart(x: MicroOp, y: MicroOp) {
    (forall k :: !(Writes(x, k) && Writes(y, k))) && (x.Store? && y.Store? ==> NeverMeet(x, y))
  }

  ghost predicate AllWritesApart(ms: seq<MicroOp>) {
    forall i, j :: 0 <= i < j < |ms| ==> WritesApart(ms[i], ms[j])
  }

  lemma {:induction false} WritesApartEffects(isa: Isa, x: MicroOp, y: MicroOp, s: State)
    requires WritesApart(x, y)
    ensures EffectsApart(EffectOf(isa, x, s), EffectOf(isa, y, s))
  {
    ExecFrame(isa, x, s);
    ExecFrame(isa, y, s);
  }

  lemma {:induction false} EffectsWithout(isa: Isa, ms: seq<MicroOp>, m: nat, s: State)
    requires m < |ms|
    ensures EffectsOf(isa, ms[..m] + ms[m + 1..], s) == EffectsOf(isa, ms, s)[..m] + EffectsOf(isa, ms, s)[m + 1..]
  {
  }

  /** Operations that write apart may be written back in any order. */
  lemma {:induction false} WriteBackAnyOrder(isa: Isa, ms: seq<MicroOp>, ms': seq<MicroOp>, s0: State, s: State)
    requires AllWritesApart(ms) && multiset(ms) == multiset(ms')
    ensures ApplyAll(s, EffectsOf(isa, ms, s0)) == ApplyAll(s, EffectsOf(isa, ms', s0))
    decreases |ms'|
  {
    if ms' == [] {
      assert |ms| == |multiset(ms)| == 0;
    } else {
      var m := PlaceOf(ms, ms');
      var rest, es := ms[..m] + ms[m + 1..], EffectsOf(isa, ms, s0);
      forall i | 0 <= i < m
        ensures EffectsApart(es[i], es[m])
      {
        WritesApartEffects(isa, ms[i], ms[m], s0);
      }
      ApplyEarlier(s, es, m);
      EffectsWithout(isa, ms, m, s0);
      RemovalStaysApart(ms, m);
      WriteBackAnyOrder(isa, rest, ms'[1..], s0, Apply(s, es[m]));
      assert EffectsOf(isa, ms', s0)[1..] == EffectsOf(isa, ms'[1..], s0);
    }
  }

  lemma {:induction false} PlaceOf<T>(xs: seq<T>, ys: seq<T>) returns (m: nat)
    requires multiset(xs) == multiset(ys) && ys != []
    ensures m < |xs| && xs[m] == ys[0] && multiset(xs[..m] + xs[m + 1..]) == multiset(ys[1..])
  {
    assert ys[0] in multiset(xs);
    m :| 0 <= m < |xs| && xs[m] == ys[0];
    RemoveAt(xs, m);
    RemoveAt(ys, 0);
    assert ys[..0] + ys[0 + 1..] == ys[1..];
    SameAfterRemoval(multiset(xs[..m] + xs[m + 1..]), multiset(ys[1..]), multiset{xs[m]});
  }

  lemma {:induction false} RemovalStaysApart(ms: seq<MicroOp>, m: nat)
    requires AllWritesApart(ms) && m < |ms|
    ensures AllWritesApart(ms[..m] + ms[m + 1..])
  {
    var rest := ms[..m] + ms[m + 1..];
    assert forall i :: 0 <= i < |rest| ==> rest[i] == if i < m then ms[i] else ms[i + 1];
  }

  // ----- Independent operations in any order -----

  lemma {:induction false} MoveFirst(isa: Isa, xs: seq<MicroOp>, y: MicroOp, s: State)
    requires forall i :: 0 <= i < |xs| ==> Independent(xs[i], y)
    ensures Run(isa, xs + [y], s) == Run(isa, xs, Exec(isa, y, s))
    decreases |xs|
  {
    if xs == [] {
      assert xs + [y] == [y];
    } else {
      assert (xs + [y])[1..] == xs[1..] + [y];
      IndependentCommute(isa, xs[0], y, s);
      MoveFirst(isa, xs[1..], y, Exec(isa, xs[0], s));
    }
  }

  lemma {:induction false} RemoveAt<T>(xs: seq<T>, m: nat)
    requires m < |xs|
    ensures multiset(xs) == multiset(xs[..m] + xs[m + 1..]) + multiset{xs[m]}
  {
    assert xs == xs[..m] + [xs[m]] + xs[m + 1..];
  }

  lemma {:induction false} SameAfterRemoval<T>(a: multiset<T>, b: multiset<T>, c: multiset<T>)
    requires a + c == b + c
    ensures a == b
  {
    assert forall x :: (a + c)[x] == (b + c)[x];
    assert forall x :: a[x] == b[x] by {
      forall x
        ensures a[x] == b[x]
      {
        assert (a + c)[x] == a[x] + c[x] && (b + c)[x] == b[x] + c[x];
      }
    }
  }

  lemma {:induction false} PullFirst(isa: Isa, ms: seq<MicroOp>, m: nat, s: State)
    requires PairwiseIndependent(ms) && m < |ms|
    ensures Run(isa, ms, s) == Run(isa, ms[..m] + ms[m + 1..], Exec(isa, ms[m], s))
  {
    var front, back := ms[..m], ms[m + 1..];
    assert ms == (front + [ms[m]]) + back;
    RunAppend(isa, front + [ms[m]], back, s);
    MoveFirst(isa, front, ms[m], s);
    RunAppend(isa, front, back, Exec(isa, ms[m], s));
  }

  lemma {:induction false} RemovalStaysIndependent(ms: seq<MicroOp>, m: nat)
    requires PairwiseIndependent(ms) && m < |ms|
    ensures PairwiseIndependent(ms[..m] + ms[m + 1..])
  {
    var rest := ms[..m] + ms[m + 1..];
    assert forall i :: 0 <= i < |rest| ==> rest[i] == if i < m then ms[i] else ms[i + 1];
  }

  /** ... in every order. */
  lemma {:induction false} IndependentAnyOrder(isa: Isa, ms: seq<MicroOp>, ms': seq<MicroOp>, s: State)
    requires PairwiseIndependent(ms) && multiset(ms) == multiset(ms')
    ensures Run(isa, ms, s) == Run(isa, ms', s)
    decreases |ms'|
  {
    if ms' == [] {
      assert |ms| == |multiset(ms)| == 0;
    } else {
      var m := PlaceOf(ms, ms');
      PullFirst(isa, ms, m, s);
      RemovalStaysIndependent(ms, m);
      IndependentAnyOrder(isa, ms[..m] + ms[m + 1..], ms'[1..], Exec(isa, ms[m], s));
    }
  }
}
