/** Allocated code computes what the virtual-register code computes, whatever is evicted when. */
module RegAllocMeaning {
  import opened Collections
  import opened Opcodes
  import opened Mir
  import opened Machine
  import opened Regs
  import opened RegAlloc
  import opened SpillMeaning
  import opened Redefinition

  // ----- Rewriting the sources -----

  lemma {:induction false} NoPredicateSpilledEarlier(a: AllocState, a': AllocState, live: set<RegKey>)
    requires NoPredicateSpilled(a', live) && forall u :: u in a.slots ==> u in a'.slots
    ensures NoPredicateSpilled(a, live)
  {
  }

  /** Requests only add slots for registers that were in use, and only add registers for the sources. */
  ghost predicate GrowsBy(a: AllocState, a': AllocState, srcs: seq<Value>) {
    && a'.base == a.base && a.nextSlot <= a'.nextSlot
    && (forall u :: u in a.slots ==> u in a'.slots)
    && (forall u :: u in a'.slots || u in a'.regOf ==> u in a.slots || u in a.regOf || RegValue(VReg(u)) in srcs)
  }

  lemma {:induction false} RewriteSrcsGrows(a: AllocState, srcs: seq<Value>, protected: set<nat>, victims: seq<nat>)
    requires |victims| == |srcs| && RewriteSrcs(a, srcs, protected, victims).Some?
    ensures GrowsBy(a, RewriteSrcs(a, srcs, protected, victims).value.state, srcs)
  {
    if srcs != [] {
      var n := |srcs| - 1;
      RewriteSrcsGrows(a, srcs[..n], protected, victims[..n]);
      var a1 := RewriteSrcs(a, srcs[..n], protected, victims[..n]).value.state;
      if srcs[n].RegValue? && srcs[n].reg.VReg? {
        PregForVregFrame(a1, srcs[n].reg.v, protected, victims[n]);
        var a2 := PregForVreg(a1, srcs[n].reg.v, protected, victims[n]).value.state;
        assert RewriteSrcs(a, srcs, protected, victims).value.state == a2;
        assert KeepsRest(a1, a2, srcs[n].reg.v, protected);
      }
    }
  }

  lemma {:induction false} SrcsKeepRelated(isa: Isa, a: AllocState, srcs: seq<Value>, protected: set<nat>, victims: seq<nat>,
                                           area: nat, live: set<RegKey>, sv: State, sp: State)
    requires isa.DoubleWordsRoundTrip() && Valid(a)
    requires |victims| == |srcs| && RewriteSrcs(a, srcs, protected, victims).Some?
    requires RewriteSrcs(a, srcs, protected, victims).value.state.nextSlot <= area
    requires NoPredicateSpilled(RewriteSrcs(a, srcs, protected, victims).value.state, live)
    requires Related(isa, a, area, live, sv, sp)
    ensures var r := RewriteSrcs(a, srcs, protected, victims).value;
            Related(isa, r.state, area, live, sv, Run(isa, DecodeAll(r.code), sp))
  {
    if srcs != [] {
      var n := |srcs| - 1;
      var r1 := RewriteSrcs(a, srcs[..n], protected, victims[..n]).value;
      var r := RewriteSrcs(a, srcs, protected, victims).value;
      RewriteSrcsValid(a, srcs[..n], protected, victims[..n]);
      if srcs[n].RegValue? && srcs[n].reg.VReg? {
        var v := srcs[n].reg.v;
        var g := PregForVreg(r1.state, v, protected, victims[n]).value;
        PregForVregFrame(r1.state, v, protected, victims[n]);
        assert r == SrcsResult(g.state, r1.srcs + [RegValue(PReg(g.preg))], r1.code + g.code);
        NoPredicateSpilledEarlier(r1.state, g.state, live);
        SrcsKeepRelated(isa, a, srcs[..n], protected, victims[..n], area, live, sv, sp);
        GrantKeepsRelated(isa, r1.state, v, protected, victims[n], area, live, sv, Run(isa, DecodeAll(r1.code), sp));
        RunCode(isa, r1.code, g.code, sp);
      } else {
        assert r == SrcsResult(r1.state, r1.srcs + [srcs[n]], r1.code);
        SrcsKeepRelated(isa, a, srcs[..n], protected, victims[..n], area, live, sv, sp);
      }
    }
  }

  // ----- Reading the rewritten sources -----

  ghost predicate SrcAgrees(cls: RegClass, src: Value, src': Value, sv: State, sp: State) {
    && ReadSrc(sp, ValueSrc(cls, src')) == ReadSrc(sv, ValueSrc(cls, src))
    && (if src.RegValue? then src'.RegValue? else src' == src)
  }

  ghost predicate SrcsAgree(cls: RegClass, srcs: seq<Value>, srcs': seq<Value>, sv: State, sp: State) {
    |srcs'| == |srcs| && forall i :: 0 <= i < |srcs| ==> SrcAgrees(cls, srcs[i], srcs'[i], sv, sp)
  }

  /** A source the two machines agree on: a live virtual register, a fixed register or a constant. */
  ghost predicate Readable(live: set<RegKey>, cls: RegClass, src: Value) {
    src.RegValue? ==> var k := RegKey(cls, src.reg); if src.reg.VReg? then k in live else Fixed(k)
  }

  lemma {:induction false} SourcesAgree(isa: Isa, a: AllocState, area: nat, live: set<RegKey>, cls: RegClass, srcs: seq<Value>, srcs': seq<Value>,
                     sv: State, sp: State)
    requires Related(isa, a, area, live, sv, sp)
    requires |srcs'| == |srcs| && forall i :: 0 <= i < |srcs| ==> RewrittenSrc(a, srcs[i], srcs'[i])
    requires forall i :: 0 <= i < |srcs| ==> Readable(live, cls, srcs[i])
    ensures SrcsAgree(cls, srcs, srcs', sv, sp)
  {
    forall i | 0 <= i < |srcs|
      ensures SrcAgrees(cls, srcs[i], srcs'[i], sv, sp)
    {
      if srcs[i].RegValue? {
        var k := RegKey(cls, srcs[i].reg);
        if srcs[i].reg.VReg? {
          assert AtHome(isa, a, sp, k, ReadReg(sv, k));
        } else {
          assert Fixed(k);
        }
      }
    }
  }

  /** The operation and its rewritten form write the same value and store the same bytes. */
  lemma {:induction false} SameEffect(isa: Isa, syl: Syllable, dst': Option<Reg>, srcs': seq<Value>, sv: State, sp: State) returns (x: int)
    requires SrcsAgree(SourceClass(syl.opcode), syl.srcs, srcs', sv, sp)
    requires forall y :: Touches(Decode(syl), sv, y) ==> ReadByte(sp, y) == ReadByte(sv, y)
    ensures var syl' := Syllable(syl.opcode, dst', srcs');
            && EffectOf(isa, Decode(syl), sv).regs == RegWrite(DestRegKey(syl), x)
            && EffectOf(isa, Decode(syl'), sp).regs == RegWrite(DestRegKey(syl'), x)
            && EffectOf(isa, Decode(syl'), sp).mem == EffectOf(isa, Decode(syl), sv).mem
  {
    var syl' := Syllable(syl.opcode, dst', srcs');
    var m, m' := Decode(syl), Decode(syl');
    var cls := SourceClass(syl.opcode);
    match m
    case Compute(op, dst, args) =>
      var xs, xs' := ReadSrcs(sv, args), ReadSrcs(sp, m'.args);
      assert forall i :: 0 <= i < |syl.srcs| ==> SrcAgrees(cls, syl.srcs[i], srcs'[i], sv, sp) && xs[i] == xs'[i];
      assert xs == xs';
      x := Alu(isa, op, xs);
    case Load(op, dst, base, offset) =>
      assert SrcAgrees(cls, syl.srcs[0], srcs'[0], sv, sp);
      assert |syl.srcs| == 2 ==> SrcAgrees(cls, syl.srcs[1], srcs'[1], sv, sp);
      var a := Address(m, sv);
      assert Address(m', sp) == a;
      var bytes, bytes' := ReadBytes(sv, a, Width(op)), ReadBytes(sp, a, Width(op));
      assert forall i :: 0 <= i < Width(op) ==> Touches(m, sv, a + i) && bytes[i] == bytes'[i];
      assert bytes == bytes';
      x := isa.join(op, bytes);
    case Store(op, base, offset, data) =>
      assert SrcAgrees(cls, syl.srcs[0], srcs'[0], sv, sp);
      assert SrcAgrees(cls, syl.srcs[1], srcs'[1], sv, sp);
      var last := |syl.srcs| - 1;
      assert SrcAgrees(cls, syl.srcs[last], srcs'[last], sv, sp);
      assert Address(m', sp) == Address(m, sv);
      x := 0;
  }

  // ----- One syllable -----

  /** Forgetting some live registers, and the registers of those that are forgotten. */
  lemma {:induction false} RelatedShrinks(isa: Isa, a: AllocState, a': AllocState, area: nat, live: set<RegKey>, live': set<RegKey>, sv: State, sp: State)
    requires Related(isa, a, area, live, sv, sp) && live' <= live
    requires a'.slots == a.slots && a'.nextSlot == a.nextSlot && a'.base == a.base
    requires forall v :: v in a'.regOf ==> v in a.regOf && a'.regOf[v] == a.regOf[v]
    requires forall k :: k in live' && k.reg.VReg? && k.reg.v in a.regOf ==> k.reg.v in a'.regOf
    ensures Related(isa, a', area, live', sv, sp)
  {
    forall k | k in live'
      ensures AtHome(isa, a', sp, k, ReadReg(sv, k))
    {
      assert AtHome(isa, a, sp, k, ReadReg(sv, k));
    }
  }

  /** The destination as the two machines see it: the same fixed register, or d and the register given to d. */
  ghost predicate DestMatches(a: AllocState, dst: Option<RegKey>, dst': Option<RegKey>) {
    match dst
    case None => dst' == None
    case Some(RegKey(cls, VReg(d))) => d in a.regOf && dst' == Some(RegKey(cls, PReg(a.regOf[d])))
    case Some(k) => dst' == dst && Fixed(k)
  }

  function DestVreg(dst: Option<RegKey>): set<RegKey> {
    if dst.Some? && dst.value.reg.VReg? then {dst.value} else {}
  }

  ghost predicate OutsideArea(base: int, area: nat, mem: map<int, int>) {
    forall y :: y in mem ==> !InSpillArea(base, area, y)
  }

  lemma {:induction false} WriteKeepsHome(isa: Isa, a: AllocState, area: nat, k: RegKey, y: int, sp: State, dst': Option<RegKey>, x: int, mem: map<int, int>)
    requires SlotsApart(a) && a.nextSlot <= area && OutsideArea(a.base, area, mem)
    requires AtHome(isa, a, sp, k, y)
    requires k.reg.v in a.regOf ==> dst' != Some(RegKey(k.cls, PReg(a.regOf[k.reg.v])))
    ensures AtHome(isa, a, Apply(sp, Effect(RegWrite(dst', x), mem)), k, y)
  {
    var sp' := Apply(sp, Effect(RegWrite(dst', x), mem));
    if k.reg.v !in a.regOf {
      SlotInArea(a, k.reg.v, area);
      StoredFrame(isa, sp, sp', a.slots[k.reg.v], y);
    }
  }

  ghost predicate HomesSeparate(a: AllocState) {
    SlotsApart(a) && Injective(a.regOf) && forall v :: v in a.regOf ==> Allocatable(a.regOf[v])
  }

  lemma {:induction false} ValidSeparates(a: AllocState)
    requires Valid(a)
    ensures HomesSeparate(a)
  {
    assert forall v :: v in a.regOf ==> a.regOf[v] in a.regOf.Values;
  }

  lemma {:induction false} WritesKeepFixed(a: AllocState, k: RegKey, sv: State, sp: State,
                        dst: Option<RegKey>, dst': Option<RegKey>, x: int, mem: map<int, int>)
    requires HomesSeparate(a) && DestMatches(a, dst, dst')
    requires Fixed(k) && ReadReg(sp, k) == ReadReg(sv, k)
    ensures ReadReg(Apply(sp, Effect(RegWrite(dst', x), mem)), k) == ReadReg(Apply(sv, Effect(RegWrite(dst, x), mem)), k)
  {
  }

  /** A live register other than the destination keeps its home. */
  lemma {:induction false} WritesKeepOther(isa: Isa, a: AllocState, area: nat, k: RegKey, sv: State, sp: State,
                        dst: Option<RegKey>, dst': Option<RegKey>, x: int, mem: map<int, int>)
    requires HomesSeparate(a) && a.nextSlot <= area && DestMatches(a, dst, dst') && OutsideArea(a.base, area, mem)
    requires AtHome(isa, a, sp, k, ReadReg(sv, k)) && dst != Some(k)
    ensures AtHome(isa, a, Apply(sp, Effect(RegWrite(dst', x), mem)), k, ReadReg(Apply(sv, Effect(RegWrite(dst, x), mem)), k))
  {
    WriteKeepsHome(isa, a, area, k, ReadReg(sv, k), sp, dst', x, mem);
  }

  /** Writing the same value to matching destinations, and the same bytes outside the spill area. */
  lemma {:induction false} WritesKeepRelated(isa: Isa, a: AllocState, area: nat, live: set<RegKey>, sv: State, sp: State,
                          dst: Option<RegKey>, dst': Option<RegKey>, x: int, mem: map<int, int>)
    requires HomesSeparate(a) && Related(isa, a, area, live, sv, sp)
    requires DestMatches(a, dst, dst') && OutsideArea(a.base, area, mem)
    ensures Related(isa, a, area, live + DestVreg(dst),
                    Apply(sv, Effect(RegWrite(dst, x), mem)), Apply(sp, Effect(RegWrite(dst', x), mem)))
  {
    var sv', sp' := Apply(sv, Effect(RegWrite(dst, x), mem)), Apply(sp, Effect(RegWrite(dst', x), mem));
    forall k | k in live + DestVreg(dst)
      ensures AtHome(isa, a, sp', k, ReadReg(sv', k))
    {
      if dst != Some(k) {
        WritesKeepOther(isa, a, area, k, sv, sp, dst, dst', x, mem);
      }
    }
    forall k | Fixed(k)
      ensures ReadReg(sp', k) == ReadReg(sv', k)
    {
      WritesKeepFixed(a, k, sv, sp, dst, dst', x, mem);
    }
  }

  /** The known registers that this position or a later one still reads. */
  ghost function LiveKeys(known: set<RegKey>, uses: BlockUses, pos: nat): set<RegKey> {
    set k | k in known && k.reg.VReg? && uses.NeededFrom(k.reg.v, pos)
  }

  /** What is read has a value of its class, and its last use is recorded. */
  ghost predicate SyllableInScope(uses: BlockUses, syl: Syllable, pos: nat, known: set<RegKey>) {
    && (forall i :: 0 <= i < |syl.srcs| ==> Readable(known, SourceClass(syl.opcode), syl.srcs[i]))
    && (forall v :: RegValue(VReg(v)) in syl.srcs ==> v in uses.lastUse && uses.lastUse[v] >= pos)
  }

  /** A fixed destination, or one whose register can be had without harm to the operands. */
  ghost predicate DestSafe(uses: BlockUses, a: AllocState, syl: Syllable, pos: nat, victims: seq<nat>) {
    syl.dst.Some? ==>
      match syl.dst.value
      case PReg(p) => !Allocatable(p)
      case VReg(d) =>
        |victims| == |syl.srcs| + 1 ==>
          var r := RewriteSrcs(a, syl.srcs, SetOf(SrcVregs(syl.srcs)), victims[..|syl.srcs|]);
          r.Some? ==> OperandsSafe(uses, r.value.state, syl, d, pos)
  }

  /** Every source a syllable reads is protected while they are rewritten, and live. */
  lemma {:induction false} SourcesNeeded(uses: BlockUses, syl: Syllable, pos: nat, known: set<RegKey>)
    requires SyllableInScope(uses, syl, pos, known)
    ensures forall i :: 0 <= i < |syl.srcs| ==> Readable(LiveKeys(known, uses, pos), SourceClass(syl.opcode), syl.srcs[i])
    ensures forall i :: 0 <= i < |syl.srcs| && syl.srcs[i].RegValue? && syl.srcs[i].reg.VReg? ==> syl.srcs[i].reg.v in SetOf(SrcVregs(syl.srcs))
  {
    forall i | 0 <= i < |syl.srcs|
      ensures syl.srcs[i].RegValue? && syl.srcs[i].reg.VReg? ==> syl.srcs[i].reg.v in SetOf(SrcVregs(syl.srcs))
      ensures Readable(LiveKeys(known, uses, pos), SourceClass(syl.opcode), syl.srcs[i])
    {
      assert Readable(known, SourceClass(syl.opcode), syl.srcs[i]);
      assert syl.srcs[i] in syl.srcs;
    }
  }

  /** The sources are rewritten and reloaded. */
  lemma {:induction false} SourcesPlaced(isa: Isa, uses: BlockUses, a: AllocState, syl: Syllable, pos: nat, victims: seq<nat>,
                     r: SrcsResult, area: nat, known: set<RegKey>, sv: State, sp: State)
    requires isa.DoubleWordsRoundTrip() && Valid(a) && SyllableInScope(uses, syl, pos, known)
    requires Related(isa, a, area, LiveKeys(known, uses, pos), sv, sp)
    requires |victims| == |syl.srcs| && RewriteSrcs(a, syl.srcs, SetOf(SrcVregs(syl.srcs)), victims) == Some(r)
    requires r.state.nextSlot <= area && NoPredicateSpilled(r.state, known)
    ensures Valid(r.state) && r.state.base == a.base
    ensures var sp1 := Run(isa, DecodeAll(r.code), sp);
            SrcsAgree(SourceClass(syl.opcode), syl.srcs, r.srcs, sv, sp1) && Related(isa, r.state, area, LiveKeys(known, uses, pos), sv, sp1)
  {
    var vs, live := SrcVregs(syl.srcs), LiveKeys(known, uses, pos);
    RewriteSrcsValid(a, syl.srcs, SetOf(vs), victims);
    RewriteSrcsGrows(a, syl.srcs, SetOf(vs), victims);
    SourcesNeeded(uses, syl, pos, known);
    RewriteSrcsNames(a, syl.srcs, SetOf(vs), victims);
    SrcsKeepRelated(isa, a, syl.srcs, SetOf(vs), victims, area, live, sv, sp);
    SourcesAgree(isa, r.state, area, live, SourceClass(syl.opcode), syl.srcs, r.srcs, sv, Run(isa, DecodeAll(r.code), sp));
  }

  /** Where this is their last use, they are released. */
  lemma {:induction false} SourcesReady(isa: Isa, uses: BlockUses, a: AllocState, syl: Syllable, pos: nat, victims: seq<nat>,
                     r: SrcsResult, area: nat, known: set<RegKey>, sv: State, sp: State)
    requires isa.DoubleWordsRoundTrip() && Valid(a) && SyllableInScope(uses, syl, pos, known)
    requires Related(isa, a, area, LiveKeys(known, uses, pos), sv, sp)
    requires |victims| == |syl.srcs| && RewriteSrcs(a, syl.srcs, SetOf(SrcVregs(syl.srcs)), victims) == Some(r)
    requires r.state.nextSlot <= area && NoPredicateSpilled(r.state, known)
    ensures var a2 := FreeSources(uses, r.state, SrcVregs(syl.srcs), syl.dst, pos);
            var sp1 := Run(isa, DecodeAll(r.code), sp);
            && Valid(a2) && a2.base == a.base
            && SrcsAgree(SourceClass(syl.opcode), syl.srcs, r.srcs, sv, sp1)
            && Related(isa, a2, area, LiveKeys(known, uses, pos + 1), sv, sp1)
  {
    var vs := SrcVregs(syl.srcs);
    SourcesPlaced(isa, uses, a, syl, pos, victims, r, area, known, sv, sp);
    FreeSourcesValid(uses, r.state, vs, syl.dst, pos);
    RelatedShrinks(isa, r.state, FreeSources(uses, r.state, vs, syl.dst, pos), area, LiveKeys(known, uses, pos),
                   LiveKeys(known, uses, pos + 1), sv, Run(isa, DecodeAll(r.code), sp));
  }

  /** Executing the rewritten operation once its operands and its destination register are in place. */
  lemma {:induction false} OperationKeepsRelated(isa: Isa, a: AllocState, syl: Syllable, dst': Option<Reg>, srcs': seq<Value>,
                              area: nat, live: set<RegKey>, sv: State, sp: State)
    requires Valid(a) && Related(isa, a, area, live, sv, sp)
    requires SrcsAgree(SourceClass(syl.opcode), syl.srcs, srcs', sv, sp)
    requires forall y :: Touches(Decode(syl), sv, y) ==> !InSpillArea(a.base, area, y)
    requires DestMatches(a, DestRegKey(syl), DestRegKey(Syllable(syl.opcode, dst', srcs')))
    ensures Related(isa, a, area, live + DestVreg(DestRegKey(syl)), Exec(isa, Decode(syl), sv),
                    Exec(isa, Decode(Syllable(syl.opcode, dst', srcs')), sp))
  {
    var x := SameEffect(isa, syl, dst', srcs', sv, sp);
    var mem := EffectOf(isa, Decode(syl), sv).mem;
    ExecFrame(isa, Decode(syl), sv);
    ValidSeparates(a);
    WritesKeepRelated(isa, a, area, live, sv, sp, DestRegKey(syl), DestRegKey(Syllable(syl.opcode, dst', srcs')), x, mem);
  }

  lemma {:induction false} SrcsStillAgree(isa: Isa, cls: RegClass, srcs: seq<Value>, r: SrcsResult, g: Grant, sv: State, sp: State)
    requires SrcsAgree(cls, srcs, r.srcs, sv, sp) && OperandsKept(isa, cls, r, g, sp)
    ensures SrcsAgree(cls, srcs, r.srcs, sv, Run(isa, DecodeAll(g.code), sp))
  {
    forall i | 0 <= i < |srcs|
      ensures SrcAgrees(cls, srcs[i], r.srcs[i], sv, Run(isa, DecodeAll(g.code), sp))
    {
      assert SrcAgrees(cls, srcs[i], r.srcs[i], sv, sp);
    }
  }

  ghost predicate StaysOutside(base: int, area: nat, syl: Syllable, sv: State) {
    forall y :: Touches(Decode(syl), sv, y) ==> !InSpillArea(base, area, y)
  }

  ghost predicate StepInScope(isa: Isa, uses: BlockUses, a: AllocState, syl: Syllable, pos: nat, victims: seq<nat>,
                              a': AllocState, code: seq<Syllable>, area: nat, known: set<RegKey>, sv: State, sp: State) {
    && isa.DoubleWordsRoundTrip() && Valid(a)
    && IsStep(uses, syl, pos, victims, a, a', code)
    && SyllableInScope(uses, syl, pos, known) && DestSafe(uses, a, syl, pos, victims)
    && a'.nextSlot <= area && NoPredicateSpilled(a', known)
    && StaysOutside(a.base, area, syl, sv)
    && Related(isa, a, area, LiveKeys(known, uses, pos), sv, sp)
  }

  /** The destination gets a register, and the operands are still in theirs. */
  lemma {:induction false} DestinationReady(isa: Isa, a: AllocState, d: nat, protected: set<nat>, victim: nat, cls: RegClass, srcs: seq<Value>,
                         r: SrcsResult, g: Grant, area: nat, live: set<RegKey>, sv: State, sp: State)
    requires isa.DoubleWordsRoundTrip() && Valid(a) && PregForVreg(a, d, protected, victim) == Some(g)
    requires g.state.nextSlot <= area && NoPredicateSpilled(g.state, live)
    requires var sp1 := Run(isa, DecodeAll(r.code), sp);
             SrcsAgree(cls, srcs, r.srcs, sv, sp1) && Related(isa, a, area, live, sv, sp1) && OperandsKept(isa, cls, r, g, sp1)
    ensures var sp2 := Run(isa, DecodeAll(r.code + g.code), sp);
            && Valid(g.state) && g.state.base == a.base && d in g.state.regOf && g.state.regOf[d] == g.preg
            && SrcsAgree(cls, srcs, r.srcs, sv, sp2) && Related(isa, g.state, area, live, sv, sp2)
  {
    var sp1 := Run(isa, DecodeAll(r.code), sp);
    GrantKeepsRelated(isa, a, d, protected, victim, area, live, sv, sp1);
    PregForVregValid(a, d, protected, victim);
    PregForVregFrame(a, d, protected, victim);
    RunCode(isa, r.code, g.code, sp);
    SrcsStillAgree(isa, cls, srcs, r, g, sv, sp1);
  }

  lemma {:induction false} ReadableNamesFixed(known: set<RegKey>, syl: Syllable)
    requires forall i :: 0 <= i < |syl.srcs| ==> Readable(known, SourceClass(syl.opcode), syl.srcs[i])
    ensures NamesFixedOnly(syl.srcs)
  {
  }

  /** A syllable with a virtual destination. */
  lemma {:induction false} DefiningStepKeepsRelated(isa: Isa, uses: BlockUses, a: AllocState, syl: Syllable, pos: nat, victims: seq<nat>,
                                 a': AllocState, code: seq<Syllable>, area: nat, known: set<RegKey>, sv: State, sp: State)
    requires StepInScope(isa, uses, a, syl, pos, victims, a', code, area, known, sv, sp)
    requires syl.dst.Some? && syl.dst.value.VReg?
    ensures Related(isa, a', area, LiveKeys(known + DestVreg(DestRegKey(syl)), uses, pos + 1),
                    Exec(isa, Decode(syl), sv), Run(isa, DecodeAll(code), sp))
  {
    var n, vs, d := |syl.srcs|, SrcVregs(syl.srcs), syl.dst.value.v;
    var r := RewriteSrcs(a, syl.srcs, SetOf(vs), victims[..n]).value;
    var a2 := FreeSources(uses, r.state, vs, syl.dst, pos);
    var protected := StillProtected(uses, vs, syl.dst, pos);
    var g := PregForVreg(a2, d, protected, victims[n]).value;
    assert StepParts(uses, a, syl, d, pos, victims, r, g);
    assert code == r.code + g.code + [Syllable(syl.opcode, Some(PReg(g.preg)), r.srcs)];
    assert a' == if !uses.HasLaterUse(d, pos) && d !in uses.liveOut then FreeVreg(g.state, d) else g.state;
    SlotsOnlyGrow(uses, a, syl, pos, victims);
    NoPredicateSpilledEarlier(r.state, a', known);
    NoPredicateSpilledEarlier(g.state, a', known);
    SourcesReady(isa, uses, a, syl, pos, victims[..n], r, area, known, sv, sp);
    var live := LiveKeys(known, uses, pos + 1);
    ReadableNamesFixed(known, syl);
    SafeIsKept(isa, uses, a, syl, d, pos, victims, r, g, Run(isa, DecodeAll(r.code), sp));
    DestinationReady(isa, a2, d, protected, victims[n], SourceClass(syl.opcode), syl.srcs, r, g, area, live, sv, sp);
    FinishDefinition(isa, uses, g.state, a', syl, pos, g.preg, r.srcs, r.code + g.code, area, known, sv, sp);
  }

  lemma {:induction false} SlotsOnlyGrow(uses: BlockUses, a: AllocState, syl: Syllable, pos: nat, victims: seq<nat>)
    requires |victims| == |syl.srcs| + 1 && RewriteSyllable(uses, a, syl, pos, victims).Some?
    requires Valid(a)
    ensures var r := RewriteSrcs(a, syl.srcs, SetOf(SrcVregs(syl.srcs)), victims[..|syl.srcs|]).value.state;
            var a' := RewriteSyllable(uses, a, syl, pos, victims).value.state;
            r.nextSlot <= a'.nextSlot && forall u :: u in r.slots ==> u in a'.slots
  {
    var n, vs := |syl.srcs|, SrcVregs(syl.srcs);
    RewriteSrcsValid(a, syl.srcs, SetOf(vs), victims[..n]);
    var r := RewriteSrcs(a, syl.srcs, SetOf(vs), victims[..n]).value.state;
    FreeSourcesValid(uses, r, vs, syl.dst, pos);
    if syl.dst.Some? && syl.dst.value.VReg? {
      PregForVregFrame(FreeSources(uses, r, vs, syl.dst, pos), syl.dst.value.v, StillProtected(uses, vs, syl.dst, pos), victims[n]);
    }
  }

  lemma {:induction false} FinishDefinition(isa: Isa, uses: BlockUses, a: AllocState, a': AllocState, syl: Syllable, pos: nat, preg: nat,
                         srcs': seq<Value>, code: seq<Syllable>, area: nat, known: set<RegKey>, sv: State, sp: State)
    requires syl.dst.Some? && syl.dst.value.VReg?
    requires Valid(a) && syl.dst.value.v in a.regOf && a.regOf[syl.dst.value.v] == preg
    requires var d := syl.dst.value.v;
             a' == if !uses.HasLaterUse(d, pos) && d !in uses.liveOut then FreeVreg(a, d) else a
    requires StaysOutside(a.base, area, syl, sv)
    requires var sp2 := Run(isa, DecodeAll(code), sp);
             && SrcsAgree(SourceClass(syl.opcode), syl.srcs, srcs', sv, sp2)
             && Related(isa, a, area, LiveKeys(known, uses, pos + 1), sv, sp2)
    ensures Related(isa, a', area, LiveKeys(known + DestVreg(DestRegKey(syl)), uses, pos + 1), Exec(isa, Decode(syl), sv),
                    Run(isa, DecodeAll(code + [Syllable(syl.opcode, Some(PReg(preg)), srcs')]), sp))
  {
    var syl' := Syllable(syl.opcode, Some(PReg(preg)), srcs');
    var live, sp2 := LiveKeys(known, uses, pos + 1), Run(isa, DecodeAll(code), sp);
    OperationKeepsRelated(isa, a, syl, Some(PReg(preg)), srcs', area, live, sv, sp2);
    RunCode(isa, code, [syl'], sp);
    RunOne(isa, syl', sp2);
    RelatedShrinks(isa, a, a', area, live + DestVreg(DestRegKey(syl)),
                   LiveKeys(known + DestVreg(DestRegKey(syl)), uses, pos + 1), Exec(isa, Decode(syl), sv), Exec(isa, Decode(syl'), sp2));
  }

  /** A syllable with a fixed destination or none. */
  lemma {:induction false} PlainStepKeepsRelated(isa: Isa, uses: BlockUses, a: AllocState, syl: Syllable, pos: nat, victims: seq<nat>,
                              a': AllocState, code: seq<Syllable>, area: nat, known: set<RegKey>, sv: State, sp: State)
    requires StepInScope(isa, uses, a, syl, pos, victims, a', code, area, known, sv, sp)
    requires syl.dst.None? || syl.dst.value.PReg?
    ensures Related(isa, a', area, LiveKeys(known, uses, pos + 1), Exec(isa, Decode(syl), sv), Run(isa, DecodeAll(code), sp))
  {
    var n, vs := |syl.srcs|, SrcVregs(syl.srcs);
    var r := RewriteSrcs(a, syl.srcs, SetOf(vs), victims[..n]).value;
    var syl' := Syllable(syl.opcode, syl.dst, r.srcs);
    assert a' == FreeSources(uses, r.state, vs, syl.dst, pos);
    assert code == r.code + [syl'];
    RewriteSrcsValid(a, syl.srcs, SetOf(vs), victims[..n]);
    FreeSourcesValid(uses, r.state, vs, syl.dst, pos);
    NoPredicateSpilledEarlier(r.state, a', known);
    SourcesReady(isa, uses, a, syl, pos, victims[..n], r, area, known, sv, sp);
    var live := LiveKeys(known, uses, pos + 1);
    var sp1 := Run(isa, DecodeAll(r.code), sp);
    OperationKeepsRelated(isa, a', syl, syl.dst, r.srcs, area, live, sv, sp1);
    assert live + DestVreg(DestRegKey(syl)) == live;
    RunCode(isa, r.code, [syl'], sp);
    RunOne(isa, syl', sp1);
  }
}
