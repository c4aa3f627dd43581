/** Exactly when it is right to put two syllables into one bundle. */
module MergeLimits {
  import opened Opcodes
  import opened Mir
  import opened Machine
  import opened Accesses
  import opened Asm
  import opened AsmMeaning
  import opened BundleVerifier
  import opened Packer
  import opened PackerMeaning

  // ----- Two operations -----

  /** The operations of two slots, in slot order. */
  function InSlots(x: MicroOp, y: MicroOp, swapped: bool): seq<MicroOp> {
    if swapped then [y, x] else [x, y]
  }

  /** Issued together they do what x and then y do. */
  ghost predicate Agrees(isa: Isa, x: MicroOp, y: MicroOp, swapped: bool, s: State) {
    Issue(isa, InSlots(x, y, swapped), s) == Run(isa, [x, y], s)
  }

  /** Its result is kept. */
  predicate Writing(m: MicroOp) {
    m.Compute? && m.dst.Some? && m.dst.value != ZERO
  }

  predicate SameComputation(x: MicroOp, y: MicroOp, s: State)
    requires x.Compute? && y.Compute?
  {
    x.op == y.op && ReadSrcs(s, x.args) == ReadSrcs(s, y.args)
  }

  /**
   * y reads nothing that x computes, nor loads what x stores; and if y stands in front of x, they compute or
   * store different things only to different places.
   */
  ghost predicate PairRight(x: MicroOp, y: MicroOp, swapped: bool, s: State) {
    && (Writing(x) && Writing(y) ==>
          FromReg(x.dst.value) !in y.args && (swapped && x.dst == y.dst ==> SameComputation(x, y, s)))
    && (x.Store? && y.Load? && Lands(y) ==> ShareNoByte(x, y, s))
    && (x.Store? && y.Store? && swapped ==> ShareNoByte(x, y, s) || SameStore(x, y, s))
  }

  /** Moves go to general registers, accesses use general registers only. */
  predicate Typical(m: MicroOp) {
    match m
    case Compute(op, dst, _) => op in {Mov, MovImm} && dst.Some? ==> dst.value.cls == Gpr
    case Load(_, dst, base, _) => base.cls == Gpr && (dst.Some? ==> dst.value.cls == Gpr)
    case Store(_, base, _, data) => base.cls == Gpr && (data.FromReg? ==> data.key.cls == Gpr)
  }

  lemma {:induction false} IssuePair(isa: Isa, x: MicroOp, y: MicroOp, swapped: bool, s: State)
    ensures var ex, ey := EffectOf(isa, x, s), EffectOf(isa, y, s);
            Issue(isa, InSlots(x, y, swapped), s) == if swapped then Apply(Apply(s, ey), ex) else Apply(Apply(s, ex), ey)
  {
    IssueTwo(isa, x, y, s);
    IssueTwo(isa, y, x, s);
  }

  lemma {:induction false} IssueTwo(isa: Isa, x: MicroOp, y: MicroOp, s: State)
    ensures Issue(isa, [x, y], s) == Apply(Apply(s, EffectOf(isa, x, s)), EffectOf(isa, y, s))
  {
    var es, ey, s1 := EffectsOf(isa, [x, y], s), EffectOf(isa, y, s), Exec(isa, x, s);
    assert es[0] == EffectOf(isa, x, s) && es[1..] == [ey] && [ey][1..] == [];
    assert ApplyAll(s1, [ey]) == Apply(s1, ey);
  }

  lemma {:induction false} RunTwo(isa: Isa, x: MicroOp, y: MicroOp, s: State)
    ensures Run(isa, [x, y], s) == Exec(isa, y, Exec(isa, x, s))
  {
    var s1 := Exec(isa, x, s);
    assert [x, y][1..] == [y] && [y][1..] == [];
    assert Run(isa, [y], s1) == Exec(isa, y, s1);
  }

  // ----- When it is right -----

  lemma {:induction false} SameEffectOfSecond(isa: Isa, x: MicroOp, y: MicroOp, swapped: bool, s: State)
    requires Typical(x) && Typical(y) && ApartOn(Gpr, x, y) && PairRight(x, y, swapped, s)
    ensures EffectOf(isa, y, Exec(isa, x, s)) == EffectOf(isa, y, s)
  {
    var s1 := Exec(isa, x, s);
    ExecFrame(isa, x, s);
    if (y.Compute? && !Writing(y)) || (y.Load? && !Lands(y)) {
      assert EffectOf(isa, y, s1) == EffectOf(isa, y, s);
    } else {
      forall k | Reads(y, k)
        ensures ReadReg(s, k) == ReadReg(s1, k)
      {
      }
      EffectFrame(isa, y, s, s1);
    }
  }

  lemma {:induction false} RightAgrees(isa: Isa, x: MicroOp, y: MicroOp, swapped: bool, s: State)
    requires Typical(x) && Typical(y) && ApartOn(Gpr, x, y) && PairRight(x, y, swapped, s)
    ensures Agrees(isa, x, y, swapped, s)
  {
    var ex, ey := EffectOf(isa, x, s), EffectOf(isa, y, s);
    SameEffectOfSecond(isa, x, y, swapped, s);
    IssuePair(isa, x, y, swapped, s);
    RunTwo(isa, x, y, s);
    if swapped {
      SwappedEffects(isa, x, y, s);
      if ex != ey {
        ApplyCommutes(s, ex, ey);
      }
    }
  }

  lemma {:induction false} SwappedEffects(isa: Isa, x: MicroOp, y: MicroOp, s: State)
    requires Typical(x) && Typical(y) && ApartOn(Gpr, x, y) && PairRight(x, y, true, s)
    ensures var ex, ey := EffectOf(isa, x, s), EffectOf(isa, y, s); ex == ey || EffectsApart(ex, ey)
  {
    ExecFrame(isa, x, s);
    ExecFrame(isa, y, s);
    if Writing(x) && Writing(y) && x.dst == y.dst {
      assert EffectOf(isa, x, s) == EffectOf(isa, y, s);
    } else if SameStore(x, y, s) {
      assert EffectOf(isa, x, s) == EffectOf(isa, y, s);
    }
  }

  // ----- When it is not -----

  function FreshAbove(xs: seq<int>): (c: int)
    ensures c !in xs && forall x :: x in xs ==> x < c
  {
    if xs == [] then 0
    else
      var d := FreshAbove(xs[..|xs| - 1]);
      assert xs == xs[..|xs| - 1] + [xs[|xs| - 1]];
      if xs[|xs| - 1] < d then d else xs[|xs| - 1] + 1
  }

  /** An instruction set that can tell whether an operand is c. */
  ghost function OperandIsa(c: int): (isa: Isa)
    ensures forall op, args :: isa.alu(op, args) == if c in args then c + 1 else c
  {
    Isa((op, args) => if c in args then c + 1 else c, (op, v, i) => 0, (op, bytes) => 0)
  }

  lemma {:induction false} ValueOf(isa: Isa, m: MicroOp, s: State)
    requires Writing(m)
    ensures EffectOf(isa, m, s) == Effect(map[m.dst.value := Alu(isa, m.op, ReadSrcs(s, m.args))], map[])
  {
  }

  /** What is left in y's destination. */
  lemma {:induction false} Results(isa: Isa, x: MicroOp, y: MicroOp, swapped: bool, s: State)
    requires Writing(x) && Writing(y)
    ensures ReadReg(Run(isa, [x, y], s), y.dst.value) == Alu(isa, y.op, ReadSrcs(Exec(isa, x, s), y.args))
    ensures ReadReg(Issue(isa, InSlots(x, y, swapped), s), y.dst.value)
         == if swapped && x.dst == y.dst then Alu(isa, x.op, ReadSrcs(s, x.args)) else Alu(isa, y.op, ReadSrcs(s, y.args))
  {
    IssuePair(isa, x, y, swapped, s);
    RunTwo(isa, x, y, s);
    ValueOf(isa, x, s);
    ValueOf(isa, y, s);
    ValueOf(isa, y, Exec(isa, x, s));
  }

  lemma {:induction false} OperandValue(c: int, op: Opcode, args: seq<int>)
    requires !(op in {Mov, MovImm} && |args| == 1)
    ensures Alu(OperandIsa(c), op, args) == if c in args then c + 1 else c
  {
  }

  lemma {:induction false} NewOperand(isa: Isa, x: MicroOp, y: MicroOp, s: State)
    requires Writing(x) && y.Compute? && FromReg(x.dst.value) in y.args
    ensures Alu(isa, x.op, ReadSrcs(s, x.args)) in ReadSrcs(Exec(isa, x, s), y.args)
  {
    ValueOf(isa, x, s);
    var i :| 0 <= i < |y.args| && y.args[i] == FromReg(x.dst.value);
    assert ReadSrcs(Exec(isa, x, s), y.args)[i] == Alu(isa, x.op, ReadSrcs(s, x.args));
  }

  /** y reads the predicate x computes: issued together, it reads the old one. */
  lemma {:induction false} ReadTells(x: MicroOp, y: MicroOp, swapped: bool, s: State)
    requires Writing(x) && Writing(y) && Typical(x) && Typical(y)
    requires x.dst.value.cls == Pred && FromReg(x.dst.value) in y.args
    ensures exists isa :: !Agrees(isa, x, y, swapped, s)
  {
    var xs, ys := ReadSrcs(s, x.args), ReadSrcs(s, y.args);
    var c := FreshAbove(xs + ys);
    assert c !in xs && c !in ys by {
      assert forall v :: v in xs || v in ys ==> v in xs + ys;
    }
    var isa := OperandIsa(c);
    OperandValue(c, x.op, xs);
    NewOperand(isa, x, y, s);
    Results(isa, x, y, swapped, s);
    var ys' := ReadSrcs(Exec(isa, x, s), y.args);
    if y.op in {Mov, MovImm} && |y.args| == 1 {
      assert ys' == [c] && ys[0] in ys;
    } else {
      OperandValue(c, y.op, ys);
      OperandValue(c, y.op, ys');
    }
    assert !Agrees(isa, x, y, swapped, s);
  }

  ghost function MarkIsa(op0: Opcode, args0: seq<int>): (isa: Isa)
    ensures forall op, args :: isa.alu(op, args) == if op == op0 && args == args0 then 1 else 0
  {
    Isa((op, args) => if op == op0 && args == args0 then 1 else 0, (op, v, i) => 0, (op, bytes) => 0)
  }

  lemma {:induction false} MarkTells(op0: Opcode, args0: seq<int>, op: Opcode, args: seq<int>) returns (isa: Isa)
    requires op != op0 || args != args0
    ensures isa.alu(op0, args0) != isa.alu(op, args)
  {
    isa := MarkIsa(op0, args0);
  }

  /** y stands in front of x, and x's value wins. */
  lemma {:induction false} WriteTells(x: MicroOp, y: MicroOp, s: State)
    requires Writing(x) && Writing(y) && x.op !in {Mov, MovImm} && y.op !in {Mov, MovImm}
    requires x.dst == y.dst && FromReg(x.dst.value) !in y.args && !SameComputation(x, y, s)
    ensures exists isa :: !Agrees(isa, x, y, true, s)
  {
    var isa := MarkTells(x.op, ReadSrcs(s, x.args), y.op, ReadSrcs(s, y.args));
    WriteDiffers(isa, x, y, s);
  }

  lemma {:induction false} OperandsKept(isa: Isa, x: MicroOp, args: seq<Src>, s: State)
    requires Writing(x) && FromReg(x.dst.value) !in args
    ensures ReadSrcs(Exec(isa, x, s), args) == ReadSrcs(s, args)
  {
    ValueOf(isa, x, s);
  }

  lemma {:induction false} WriteDiffers(isa: Isa, x: MicroOp, y: MicroOp, s: State)
    requires Writing(x) && Writing(y) && x.op !in {Mov, MovImm} && y.op !in {Mov, MovImm}
    requires x.dst == y.dst && FromReg(x.dst.value) !in y.args
    requires isa.alu(x.op, ReadSrcs(s, x.args)) != isa.alu(y.op, ReadSrcs(s, y.args))
    ensures !Agrees(isa, x, y, true, s)
  {
    Results(isa, x, y, true, s);
    OperandsKept(isa, x, y.args, s);
  }

  /** With a store for x, issuing the two means executing y first. */
  lemma {:induction false} StoreGoesLast(isa: Isa, x: MicroOp, y: MicroOp, swapped: bool, s: State)
    requires x.Store? && !y.Compute? && Typical(x) && Typical(y) && ApartOn(Gpr, x, y) && (y.Load? || swapped)
    ensures Issue(isa, InSlots(x, y, swapped), s) == Exec(isa, x, Exec(isa, y, s))
  {
    var s1 := Exec(isa, y, s);
    ExecFrame(isa, y, s);
    EffectFrame(isa, x, s, s1);
    IssuePair(isa, x, y, swapped, s);
    if !swapped {
      ExecFrame(isa, x, s);
      ApplyCommutes(s, EffectOf(isa, x, s), EffectOf(isa, y, s));
    }
  }

  lemma {:induction false} AccessTells(x: MicroOp, y: MicroOp, swapped: bool, s: State)
    requires x.Store? && !y.Compute? && Lands(y) && Typical(x) && Typical(y) && ApartOn(Gpr, x, y) && (y.Load? || swapped)
    requires !Exchangeable(x, y, s)
    ensures exists isa :: !Agrees(isa, x, y, swapped, s)
  {
    OrdersDiffer(x, y, s);
    var isa :| !Commute(isa, x, y, s);
    AgreesIfCommute(isa, x, y, swapped, s);
  }

  lemma {:induction false} AgreesIfCommute(isa: Isa, x: MicroOp, y: MicroOp, swapped: bool, s: State)
    requires x.Store? && !y.Compute? && Typical(x) && Typical(y) && ApartOn(Gpr, x, y) && (y.Load? || swapped)
    ensures Agrees(isa, x, y, swapped, s) <==> Commute(isa, x, y, s)
  {
    StoreGoesLast(isa, x, y, swapped, s);
    RunTwo(isa, x, y, s);
  }

  lemma {:induction false} WrongDiffers(x: MicroOp, y: MicroOp, swapped: bool, s: State)
    requires Typical(x) && Typical(y) && ApartOn(Gpr, x, y) && !PairRight(x, y, swapped, s)
    ensures exists isa :: !Agrees(isa, x, y, swapped, s)
  {
    if x.Store? {
      AccessTells(x, y, swapped, s);
    } else {
      SharedPredicate(x, y);
      if FromReg(x.dst.value) in y.args {
        ReadTells(x, y, swapped, s);
      } else {
        WriteTells(x, y, s);
      }
    }
  }

  lemma {:induction false} SharedPredicate(x: MicroOp, y: MicroOp)
    requires Writing(x) && Writing(y) && ApartOn(Gpr, x, y) && (FromReg(x.dst.value) in y.args || x.dst == y.dst)
    ensures x.dst.value.cls == Pred
  {
    assert Writes(x, x.dst.value);
  }

  /**
   * Two operations that are apart on the general registers may be issued together, in one state and under every
   * instruction set, exactly when they are right as a pair.
   */
  lemma {:induction false} IssueRightExactlyWhen(x: MicroOp, y: MicroOp, swapped: bool, s: State)
    requires Typical(x) && Typical(y) && ApartOn(Gpr, x, y)
    ensures (forall isa :: Agrees(isa, x, y, swapped, s)) <==> PairRight(x, y, swapped, s)
  {
    if PairRight(x, y, swapped, s) {
      forall isa: Isa
        ensures Agrees(isa, x, y, swapped, s)
      {
        RightAgrees(isa, x, y, swapped, s);
      }
    } else {
      WrongDiffers(x, y, swapped, s);
    }
  }

  // ----- Two bundles the packer merges -----

  lemma {:induction false} WellFormedIsTypical(syl: AsmSyllable)
    requires WellFormed(syl)
    ensures Typical(DecodeAsm(syl))
  {
  }

  lemma {:induction false} MergedPair(proc: Processor, a: Bundle, b: Bundle, c: Bundle, x: AsmSyllable, y: AsmSyllable)
    requires |a| <= proc.width && Syllables(a) == [x] && Syllables(b) == [y] && MergeBundles(proc, a, b) == Some(c)
    ensures multiset([x, y]) == multiset(Syllables(c)) && (Syllables(c) == [x, y] || Syllables(c) == [y, x])
  {
    MergeKeeps(proc, a, b);
    TwoElements(Syllables(c), x, y);
  }

  lemma {:induction false} TwoElements<T>(z: seq<T>, x: T, y: T)
    requires multiset(z) == multiset([x]) + multiset([y])
    ensures multiset([x, y]) == multiset(z) && (z == [x, y] || z == [y, x])
  {
    SameSize(z, [x], [y]);
    assert z == [z[0], z[1]];
    TwoOfTwo(z[0], z[1], x, y);
  }

  lemma {:induction false} TwoOfTwo<T>(a: T, b: T, x: T, y: T)
    requires multiset{a, b} == multiset{x, y}
    ensures (a == x && b == y) || (a == y && b == x)
  {
    assert a in multiset{x, y} && b in multiset{x, y} && x in multiset{a, b} && y in multiset{a, b};
    assert multiset{a, b}[a] == multiset{x, y}[a];
  }

  ghost predicate MergeAgrees(isa: Isa, a: Bundle, b: Bundle, c: Bundle, s: State) {
    RunBundles(isa, [c], s) == RunBundles(isa, [a, b], s)
  }

  lemma {:induction false} RunOneBundle(isa: Isa, b: Bundle, s: State)
    ensures RunBundles(isa, [b], s) == ExecBundle(isa, b, s)
  {
    var bs: seq<Bundle> := [b];
    assert bs[..0] == [];
  }

  lemma {:induction false} RunTwoBundles(isa: Isa, a: Bundle, b: Bundle, x: AsmSyllable, y: AsmSyllable, s: State)
    requires Syllables(a) == [x] && Syllables(b) == [y]
    ensures RunBundles(isa, [a, b], s) == Run(isa, [DecodeAsm(x), DecodeAsm(y)], s)
  {
    var bs: seq<Bundle> := [a, b];
    assert bs[..1] == [a];
    RunOneBundle(isa, a, s);
    ExecScalar(isa, a, s);
    ExecScalar(isa, b, ExecBundle(isa, a, s));
    assert DecodeSyllables([x]) == [DecodeAsm(x)] && DecodeSyllables([y]) == [DecodeAsm(y)];
    assert DecodeSyllables([x, y]) == [DecodeAsm(x), DecodeAsm(y)];
    assert [x] + [y] == [x, y];
    RunSyllables(isa, [x], [y], s);
  }

  lemma {:induction false} MergeAgreesWhen(isa: Isa, a: Bundle, b: Bundle, c: Bundle, x: AsmSyllable, y: AsmSyllable, s: State)
    requires Syllables(a) == [x] && Syllables(b) == [y] && (Syllables(c) == [x, y] || Syllables(c) == [y, x])
    ensures MergeAgrees(isa, a, b, c, s) <==> Agrees(isa, DecodeAsm(x), DecodeAsm(y), Syllables(c) != [x, y], s)
  {
    RunOneBundle(isa, c, s);
    RunTwoBundles(isa, a, b, x, y, s);
    assert DecodeSyllables([x, y]) == [DecodeAsm(x), DecodeAsm(y)] && DecodeSyllables([y, x]) == [DecodeAsm(y), DecodeAsm(x)];
  }

  /**
   * When the packer has merged two scalar bundles, in whatever slots it found, the merged bundle is right, in one
   * state and under every instruction set, exactly when the two are right as a pair.
   */
  lemma {:induction false} MergeRightExactlyWhen(proc: Processor, a: Bundle, b: Bundle, c: Bundle, x: AsmSyllable, y: AsmSyllable, s: State)
    requires ScalarBundle(proc, a) && ScalarBundle(proc, b) && Syllables(a) == [x] && Syllables(b) == [y]
    requires MergeBundles(proc, a, b) == Some(c) && LegalBundle(proc, c)
    ensures Syllables(c) == [x, y] || Syllables(c) == [y, x]
    ensures (forall isa :: MergeAgrees(isa, a, b, c, s)) <==> PairRight(DecodeAsm(x), DecodeAsm(y), Syllables(c) != [x, y], s)
  {
    var mx, my, swapped := DecodeAsm(x), DecodeAsm(y), Syllables(c) != [x, y];
    MergedPair(proc, a, b, c, x, y);
    MergeFacts(proc, a, b, c);
    TextApartOnGprs(proc, c, [x, y], 0, 1);
    WellFormedIsTypical(x);
    WellFormedIsTypical(y);
    IssueRightExactlyWhen(mx, my, swapped, s);
    forall isa: Isa
      ensures MergeAgrees(isa, a, b, c, s) <==> Agrees(isa, mx, my, swapped, s)
    {
      MergeAgreesWhen(isa, a, b, c, x, y, s);
    }
  }
}
