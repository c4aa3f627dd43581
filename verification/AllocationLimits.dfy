/** Exactly when a predicate survives being spilled. */
module AllocationLimits {
  import opened Opcodes
  import opened Mir
  import opened Machine
  import opened RegAlloc
  import opened SpillMeaning
  import opened Redefinition

  /** The register a request gets, seen from the state before it. */
  function RegisterFor(a: AllocState, victim: nat): nat
    requires a.free != [] || victim in a.regOf
  {
    if a.free != [] then a.free[0] else a.regOf[victim]
  }

  lemma {:induction false} GrantedRegister(a: AllocState, v: nat, protected: set<nat>, victim: nat)
    requires v !in a.regOf && PregForVreg(a, v, protected, victim).Some?
    ensures (a.free != [] || victim in a.regOf) && PregForVreg(a, v, protected, victim).value.preg == RegisterFor(a, victim)
  {
  }

  /** Some syllable of the code computes predicate register p. */
  predicate WritesPredicate(code: seq<Syllable>, p: nat) {
    exists i :: 0 <= i < |code| && DestRegKey(code[i]) == Some(RegKey(Pred, PReg(p)))
  }

  /** An instruction set in which every computation gives 1. */
  ghost function OnesIsa(): (isa: Isa)
    ensures forall op, args :: isa.alu(op, args) == 1
    ensures forall op, v, i :: isa.byteOf(op, v, i) == v
    ensures forall op, bytes :: |bytes| > 0 ==> isa.join(op, bytes) == bytes[0]
  {
    Isa((op, args) => 1, (op, v, i) => v, (op, bytes) => if |bytes| > 0 then bytes[0] else 0)
  }

  lemma {:induction false} OnesRoundTrips()
    ensures OnesIsa().DoubleWordsRoundTrip()
  {
    forall v
      ensures OnesIsa().join(LoadD, OnesIsa().WordBytes(v)) == v
    {
      assert OnesIsa().WordBytes(v)[0] == v;
    }
  }

  lemma {:induction false} PredicateWrite(syl: Syllable, p: nat, s: State)
    requires DestRegKey(syl) == Some(RegKey(Pred, PReg(p)))
    ensures ReadReg(Exec(OnesIsa(), Decode(syl), s), RegKey(Pred, PReg(p))) == 1
  {
    var m := Decode(syl);
    assert m.Compute? && m.op == syl.opcode && m.dst == DestRegKey(syl) && m.op !in {Mov, MovImm};
  }

  lemma {:induction false} OneSyllableMore(isa: Isa, code: seq<Syllable>, s: State)
    requires code != []
    ensures var n := |code| - 1; Run(isa, DecodeAll(code), s) == Exec(isa, Decode(code[n]), Run(isa, DecodeAll(code[..n]), s))
  {
    var n := |code| - 1;
    assert code == code[..n] + [code[n]];
    RunCode(isa, code[..n], [code[n]], s);
    RunOne(isa, code[n], Run(isa, DecodeAll(code[..n]), s));
  }

  /** With ones everywhere, a predicate register ends with 1 if the code writes it, and as it was if not. */
  lemma {:induction false} PredicateAfter(code: seq<Syllable>, p: nat, s: State)
    ensures var k := RegKey(Pred, PReg(p));
            ReadReg(Run(OnesIsa(), DecodeAll(code), s), k) == if WritesPredicate(code, p) then 1 else ReadReg(s, k)
  {
    if code != [] {
      var n, k := |code| - 1, RegKey(Pred, PReg(p));
      PredicateAfter(code[..n], p, s);
      OneSyllableMore(OnesIsa(), code, s);
      if DestRegKey(code[n]) == Some(k) {
        PredicateWrite(code[n], p, Run(OnesIsa(), DecodeAll(code[..n]), s));
      } else {
        DecodeKeys(code[n], k);
        ExecFrame(OnesIsa(), Decode(code[n]), Run(OnesIsa(), DecodeAll(code[..n]), s));
        WritesLast(code, p);
      }
    }
  }

  lemma {:induction false} WritesLast(code: seq<Syllable>, p: nat)
    requires code != []
    ensures var n := |code| - 1;
            WritesPredicate(code, p) <==> WritesPredicate(code[..n], p) || DestRegKey(code[n]) == Some(RegKey(Pred, PReg(p)))
  {
    var n := |code| - 1;
    if WritesPredicate(code[..n], p) {
      var i :| 0 <= i < n && DestRegKey(code[..n][i]) == Some(RegKey(Pred, PReg(p)));
      assert DestRegKey(code[i]) == Some(RegKey(Pred, PReg(p)));
    }
    if WritesPredicate(code, p) {
      var i :| 0 <= i < |code| && DestRegKey(code[i]) == Some(RegKey(Pred, PReg(p)));
      assert i < n ==> code[..n][i] == code[i];
    }
  }

  /** The predicate that was in register p is in register q after the code between and the code of the request. */
  ghost predicate Back(isa: Isa, between: seq<Syllable>, grant: seq<Syllable>, p: nat, q: nat, sp: State) {
    ReadReg(Run(isa, DecodeAll(between + grant), sp), RegKey(Pred, PReg(q))) == ReadReg(sp, RegKey(Pred, PReg(p)))
  }

  /** From every machine state, under every instruction set that reloads what it spills. */
  ghost predicate AlwaysBack(between: seq<Syllable>, grant: seq<Syllable>, p: nat, q: nat) {
    forall isa: Isa, sp: State :: isa.DoubleWordsRoundTrip() ==> Back(isa, between, grant, p, q, sp)
  }

  lemma {:induction false} BackIfKept(isa: Isa, between: seq<Syllable>, a: AllocState, v: nat, protected: set<nat>, victim: nat, p: nat, sp: State)
    requires PregForVreg(a, v, protected, victim).Some? && !WritesPredicate(between, p)
    ensures Back(isa, between, PregForVreg(a, v, protected, victim).value.code, p, p, sp)
  {
    var k, grant := RegKey(Pred, PReg(p)), PregForVreg(a, v, protected, victim).value.code;
    RunKeeps(isa, between, k, sp);
    RunCode(isa, between, grant, sp);
    GrantKeepsOthers(isa, a, v, protected, victim, k, Run(isa, DecodeAll(between), sp));
  }

  lemma {:induction false} NotBackElse(between: seq<Syllable>, a: AllocState, v: nat, protected: set<nat>, victim: nat, p: nat, q: nat)
    requires PregForVreg(a, v, protected, victim).Some? && (p != q || WritesPredicate(between, p))
    ensures !Back(OnesIsa(), between, PregForVreg(a, v, protected, victim).value.code, p, q, State(map[RegKey(Pred, PReg(p)) := 2], map[]))
  {
    var k, grant, sp := RegKey(Pred, PReg(q)), PregForVreg(a, v, protected, victim).value.code, State(map[RegKey(Pred, PReg(p)) := 2], map[]);
    PredicateAfter(between, q, sp);
    RunCode(OnesIsa(), between, grant, sp);
    GrantKeepsOthers(OnesIsa(), a, v, protected, victim, k, Run(OnesIsa(), DecodeAll(between), sp));
  }

  /**
   * Over any stretch of a run that starts with v in a register and ends with a request that brings v back: the
   * predicate v held is back, from every machine state and under every instruction set that reloads what it spills,
   * if and only if the register v gets is the one it had and no syllable in between has computed that predicate
   * register.  Spill code itself never moves a predicate.
   */
  lemma {:induction false} PredicateBackExactlyWhen(uses: BlockUses, syls: seq<Syllable>, pos: nat, choices: seq<seq<nat>>,
                                                    states: seq<AllocState>, codes: seq<seq<Syllable>>, v: nat, protected: set<nat>, victim: nat)
    requires IsRun(uses, syls, pos, choices, states, codes) && v in states[0].regOf && v !in states[|syls|].regOf
    requires PregForVreg(states[|syls|], v, protected, victim).Some?
    ensures var a, p := states[|syls|], states[0].regOf[v];
            && (a.free != [] || victim in a.regOf)
            && (AlwaysBack(Concat(codes), PregForVreg(a, v, protected, victim).value.code, p, RegisterFor(a, victim))
                <==> RegisterFor(a, victim) == p && !WritesPredicate(Concat(codes), p))
  {
    BackExactlyWhen(Concat(codes), states[|syls|], v, protected, victim, states[0].regOf[v]);
  }

  lemma {:induction false} BackExactlyWhen(between: seq<Syllable>, a: AllocState, v: nat, protected: set<nat>, victim: nat, p: nat)
    requires v !in a.regOf && PregForVreg(a, v, protected, victim).Some?
    ensures (a.free != [] || victim in a.regOf)
    ensures AlwaysBack(between, PregForVreg(a, v, protected, victim).value.code, p, RegisterFor(a, victim))
            <==> RegisterFor(a, victim) == p && !WritesPredicate(between, p)
  {
    GrantedRegister(a, v, protected, victim);
    var q, grant := RegisterFor(a, victim), PregForVreg(a, v, protected, victim).value.code;
    if q == p && !WritesPredicate(between, p) {
      forall isa: Isa, sp: State
        ensures Back(isa, between, grant, p, q, sp)
      {
        BackIfKept(isa, between, a, v, protected, victim, p, sp);
      }
    } else {
      OnesRoundTrips();
      NotBackElse(between, a, v, protected, victim, p, q);
    }
  }
}
