/** A register that is not live never matters to a run. */
module LivenessRuns {
  import opened Mir
  import opened Machine
  import opened MirRuns
  import opened Liveness
  import opened LivenessMeaning

  /** Every mention of v is of the one register key k. */
  ghost predicate NamesKey(blocks: seq<Block>, v: nat, k: RegKey) {
    && k.reg == VReg(v)
    && forall p :: IsPlace(blocks, p) ==>
         if AtTerminator(blocks, p) then UsedAt(blocks, p, v) ==> k.cls == Pred
         else
           var syl := SyllableAt(blocks, p);
           (UsesReg(syl, v) ==> SourceClass(syl.opcode) == k.cls) && (DefinesReg(syl, v) ==> WritesKey(syl, k))
  }

  /** The states differ in register k at most. */
  ghost predicate SameBut(s: State, s': State, k: RegKey) {
    (forall k' :: k' != k ==> ReadReg(s, k') == ReadReg(s', k')) && forall a :: ReadByte(s, a) == ReadByte(s', a)
  }

  /** Callees neither read nor write the caller's virtual register. */
  ghost predicate BlindTo(calls: Calls, k: RegKey) {
    && (forall g, s, s' :: SameBut(s, s', k) ==> SameBut(calls(g, s), calls(g, s'), k))
    && (forall g, s :: ReadReg(calls(g, s), k) == ReadReg(s, k))
  }

  /** Two runs at the same place whose states differ in k at most, and not at all if its value can still be used. */
  ghost predicate Alike(blocks: seq<Block>, v: nat, k: RegKey, c: Config, c': Config) {
    && c'.place == c.place && SameBut(c.state, c'.state, k)
    && (Needed(blocks, c.place, v) ==> ReadReg(c.state, k) == ReadReg(c'.state, k))
  }

  lemma {:induction false} SameEffect(isa: Isa, m: MicroOp, s: State, s': State, k: RegKey)
    requires SameBut(s, s', k) && (Reads(m, k) ==> ReadReg(s, k) == ReadReg(s', k))
    ensures SameBut(Exec(isa, m, s), Exec(isa, m, s'), k)
    ensures Writes(m, k) || ReadReg(s, k) == ReadReg(s', k) ==> ReadReg(Exec(isa, m, s), k) == ReadReg(Exec(isa, m, s'), k)
  {
    assert AgreeOnReads(m, s, s');
    EffectFrame(isa, m, s, s');
    var e := EffectOf(isa, m, s);
    ExecFrame(isa, m, s);
    forall k'
      ensures k' in e.regs ==> ReadReg(Exec(isa, m, s), k') == ReadReg(Exec(isa, m, s'), k')
      ensures k' !in e.regs ==> ReadReg(Exec(isa, m, s), k') == ReadReg(s, k') && ReadReg(Exec(isa, m, s'), k') == ReadReg(s', k')
    {
    }
    forall a
      ensures ReadByte(Exec(isa, m, s), a) == ReadByte(Exec(isa, m, s'), a)
    {
      assert ReadByte(s, a) == ReadByte(s', a);
    }
  }

  lemma {:induction false} SyllableAlike(isa: Isa, calls: Calls, blocks: seq<Block>, v: nat, k: RegKey, c: Config, d: Config, c': Config) returns (d': Config)
    requires NamesKey(blocks, v, k) && IsLocalStep(isa, calls, blocks, c, d) && Alike(blocks, v, k, c, c')
    requires !AtTerminator(blocks, c.place)
    ensures IsLocalStep(isa, calls, blocks, c', d') && Alike(blocks, v, k, d, d')
  {
    var p, syl := c.place, SyllableAt(blocks, c.place);
    var m := Decode(syl);
    d' := Config(d.place, Exec(isa, m, c'.state));
    DecodeKeys(syl, k);
    if Reads(m, k) { UsedIsNeeded(blocks, p, v); }
    SameEffect(isa, m, c.state, c'.state, k);
    if Needed(blocks, d.place, v) && !DefinesReg(syl, v) {
      NeededBefore(blocks, p, d.place, v);
    }
  }

  lemma {:induction false} TerminatorAlike(isa: Isa, calls: Calls, blocks: seq<Block>, v: nat, k: RegKey, c: Config, d: Config, c': Config) returns (d': Config)
    requires NamesKey(blocks, v, k) && BlindTo(calls, k) && IsLocalStep(isa, calls, blocks, c, d) && Alike(blocks, v, k, c, c')
    requires AtTerminator(blocks, c.place)
    ensures IsLocalStep(isa, calls, blocks, c', d') && Alike(blocks, v, k, d, d')
  {
    var p, t := c.place, TerminatorAt(blocks, c.place);
    d' := Config(d.place, if t.DirectCall? then calls(t.callee, c'.state) else c'.state);
    if t.BranchTo? {
      if t.cond == VReg(v) { UsedIsNeeded(blocks, p, v); }
      assert Taken(c.state, t.cond) == Taken(c'.state, t.cond);
    }
    if Needed(blocks, d.place, v) {
      GoesExactlyWhen(blocks, p.block, d.place.block);
      NeededBefore(blocks, p, d.place, v);
    }
  }

  lemma {:induction false} StepAlike(isa: Isa, calls: Calls, blocks: seq<Block>, v: nat, k: RegKey, c: Config, d: Config, c': Config) returns (d': Config)
    requires NamesKey(blocks, v, k) && BlindTo(calls, k) && IsLocalStep(isa, calls, blocks, c, d) && Alike(blocks, v, k, c, c')
    ensures IsLocalStep(isa, calls, blocks, c', d') && Alike(blocks, v, k, d, d')
  {
    if AtTerminator(blocks, c.place) {
      d' := TerminatorAlike(isa, calls, blocks, v, k, c, d, c');
    } else {
      d' := SyllableAlike(isa, calls, blocks, v, k, c, d, c');
    }
  }

  ghost predicate RunsAlike(blocks: seq<Block>, v: nat, k: RegKey, r: seq<Config>, r': seq<Config>) {
    |r'| == |r| && forall n :: 0 <= n < |r| ==> Alike(blocks, v, k, r[n], r'[n])
  }

  lemma {:induction false} RunBefore(isa: Isa, calls: Calls, blocks: seq<Block>, r: seq<Config>)
    requires IsLocalRun(isa, calls, blocks, r) && |r| > 1
    ensures IsLocalRun(isa, calls, blocks, r[..|r| - 1]) && IsLocalStep(isa, calls, blocks, r[|r| - 2], r[|r| - 1])
  {
  }

  lemma {:induction false} RunExtends(isa: Isa, calls: Calls, blocks: seq<Block>, r: seq<Config>, d: Config)
    requires IsLocalRun(isa, calls, blocks, r) && IsLocalStep(isa, calls, blocks, r[|r| - 1], d)
    ensures IsLocalRun(isa, calls, blocks, r + [d])
  {
  }

  /**
   * Start a run again from the same place with another value in a register that is not needed there: it goes
   * through the same places, and the states differ in that register only, and only where it is not needed.
   */
  lemma {:induction false} DeadNeverMatters(isa: Isa, calls: Calls, blocks: seq<Block>, v: nat, k: RegKey, r: seq<Config>, s': State) returns (r': seq<Config>)
    requires IsLocalRun(isa, calls, blocks, r) && NamesKey(blocks, v, k) && BlindTo(calls, k)
    requires SameBut(r[0].state, s', k) && !Needed(blocks, r[0].place, v)
    ensures IsLocalRun(isa, calls, blocks, r') && r'[0] == Config(r[0].place, s') && RunsAlike(blocks, v, k, r, r')
  {
    var n := |r| - 1;
    if n == 0 {
      r' := [Config(r[0].place, s')];
    } else {
      RunBefore(isa, calls, blocks, r);
      var done := DeadNeverMatters(isa, calls, blocks, v, k, r[..n], s');
      assert Alike(blocks, v, k, r[..n][n - 1], done[n - 1]);
      var d := StepAlike(isa, calls, blocks, v, k, r[n - 1], r[n], done[n - 1]);
      RunExtends(isa, calls, blocks, done, d);
      r' := done + [d];
      assert forall q :: 0 <= q < n ==> r[q] == r[..n][q];
    }
  }

  /** In particular from the start of a block, with a register that is not live there. */
  lemma {:induction false} NotLiveNeverMatters(isa: Isa, calls: Calls, blocks: seq<Block>, v: nat, k: RegKey, r: seq<Config>, s': State) returns (r': seq<Config>)
    requires IsLocalRun(isa, calls, blocks, r) && NamesKey(blocks, v, k) && BlindTo(calls, k)
    requires r[0].place.at == 0 && !LiveAt(blocks, r[0].place.block, v) && SameBut(r[0].state, s', k)
    ensures IsLocalRun(isa, calls, blocks, r') && |r'| == |r| && r'[0] == Config(r[0].place, s')
    ensures forall n :: 0 <= n < |r| ==> r'[n].place == r[n].place && SameBut(r[n].state, r'[n].state, k)
  {
    var p := r[0].place;
    LiveExactlyWhen(blocks, p.block, v);
    assert p == Place(p.block, 0);
    r' := DeadNeverMatters(isa, calls, blocks, v, k, r, s');
  }
}
