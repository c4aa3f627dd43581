/**
 * Register allocation as functions of the allocator's state.
 *
 * Which register is evicted depends on hash order in the source, so every function that may evict takes
 * the victim as an argument: a statement for all arguments is a statement for every choice.
 */
module RegAlloc {
  import opened Collections
  import opened Opcodes
  import opened Mir
  import opened Regs

  datatype AllocState = AllocState(
    regOf: map<nat, nat>, free: seq<nat>, slots: map<nat, int>, nextSlot: nat, base: int)

  /** Last use position of each virtual register in a block, and the registers live at its end. */
  datatype BlockUses = BlockUses(lastUse: map<nat, nat>, liveOut: set<nat>) {
    predicate CanFreeAfter(v: nat, pos: nat) {
      v in lastUse && lastUse[v] == pos && v !in liveOut
    }

    predicate HasLaterUse(v: nat, pos: nat) {
      v in lastUse && lastUse[v] > pos
    }

    /** A later syllable of the block or a later block reads v. */
    predicate NeededFrom(v: nat, pos: nat) {
      (v in lastUse && lastUse[v] >= pos) || v in liveOut
    }
  }

  function Initial(base: int): AllocState {
    AllocState(map[], seq(LAST_ALLOCATABLE_GPR - FIRST_ALLOCATABLE_GPR + 1, i => i + FIRST_ALLOCATABLE_GPR), map[], 0, base)
  }

  // ----- Operations -----

  /** A register for v, and the code that must run before it is used. */
  datatype Grant = Grant(state: AllocState, preg: nat, code: seq<Syllable>)

  function SpillCode(slot: int, preg: nat): Syllable {
    Syllable(StoreD, None, [Stack(slot), RegValue(PReg(preg))])
  }

  function ReloadCode(slot: int, preg: nat): Syllable {
    Syllable(LoadD, Some(PReg(preg)), [Stack(slot)])
  }

  function WithSlot(a: AllocState, v: nat): AllocState {
    if v in a.slots then a
    else a.(slots := a.slots[v := a.base + a.nextSlot * SPILL_SLOT_BYTES], nextSlot := a.nextSlot + 1)
  }

  function AllocPreg(a: AllocState, protected: set<nat>, victim: nat): Option<Grant> {
    if a.free != [] then
      Some(Grant(a.(free := a.free[1..]), a.free[0], []))
    else if victim in a.regOf && victim !in protected then
      var preg := a.regOf[victim];
      var a1 := WithSlot(a.(regOf := a.regOf - {victim}), victim);
      Some(Grant(a1, preg, [SpillCode(a1.slots[victim], preg)]))
    else
      None
  }

  function PregForVreg(a: AllocState, v: nat, protected: set<nat>, victim: nat): Option<Grant> {
    if v in a.regOf then
      Some(Grant(a, a.regOf[v], []))
    else
      match AllocPreg(a, protected, victim)
      case None => None
      case Some(Grant(a1, preg, code)) =>
        var reload := if v in a1.slots then [ReloadCode(a1.slots[v], preg)] else [];
        Some(Grant(a1.(regOf := a1.regOf[v := preg]), preg, code + reload))
  }

  function FreeVreg(a: AllocState, v: nat): AllocState {
    if v in a.regOf then a.(regOf := a.regOf - {v}, free := [a.regOf[v]] + a.free) else a
  }

  datatype SrcsResult = SrcsResult(state: AllocState, srcs: seq<Value>, code: seq<Syllable>)

  /** Rewrite the sources from first to last. */
  function RewriteSrcs(a: AllocState, srcs: seq<Value>, protected: set<nat>, victims: seq<nat>): Option<SrcsResult>
    requires |victims| == |srcs|
  {
    if srcs == [] then Some(SrcsResult(a, [], []))
    else
      var n := |srcs| - 1;
      match RewriteSrcs(a, srcs[..n], protected, victims[..n])
      case None => None
      case Some(SrcsResult(a1, done, code)) =>
        match srcs[n] {
          case RegValue(VReg(v)) =>
            (match PregForVreg(a1, v, protected, victims[n])
             case None => None
             case Some(Grant(a2, preg, code')) => Some(SrcsResult(a2, done + [RegValue(PReg(preg))], code + code')))
          case other => Some(SrcsResult(a1, done + [other], code))
        }
  }

  /** The virtual registers among the sources, in operand order. */
  function SrcVregs(srcs: seq<Value>): (vs: seq<nat>)
    ensures forall v :: v in vs <==> RegValue(VReg(v)) in srcs
  {
    if srcs == [] then []
    else
      var n := |srcs| - 1;
      SrcVregs(srcs[..n]) + if srcs[n].RegValue? && srcs[n].reg.VReg? then [srcs[n].reg.v] else []
  }

  /** The sources whose last use this is give up their registers, except one that is also the destination. */
  function FreeSources(uses: BlockUses, a: AllocState, vs: seq<nat>, dst: Option<Reg>, pos: nat): AllocState {
    if vs == [] then a
    else
      var n := |vs| - 1;
      var a1 := FreeSources(uses, a, vs[..n], dst, pos);
      if dst != Some(VReg(vs[n])) && uses.CanFreeAfter(vs[n], pos) then FreeVreg(a1, vs[n]) else a1
  }

  function StillProtected(uses: BlockUses, vs: seq<nat>, dst: Option<Reg>, pos: nat): set<nat> {
    set v | v in vs && !(dst != Some(VReg(v)) && uses.CanFreeAfter(v, pos))
  }

  datatype SylResult = SylResult(state: AllocState, code: seq<Syllable>)

  /** victims[i] is the choice for source i, the last one the choice for the destination. */
  function RewriteSyllable(uses: BlockUses, a: AllocState, syl: Syllable, pos: nat, victims: seq<nat>): Option<SylResult>
    requires |victims| == |syl.srcs| + 1
  {
    var n := |syl.srcs|;
    var vs := SrcVregs(syl.srcs);
    match RewriteSrcs(a, syl.srcs, SetOf(vs), victims[..n])
    case None => None
    case Some(SrcsResult(a1, srcs, code)) =>
      var a2 := FreeSources(uses, a1, vs, syl.dst, pos);
      match syl.dst {
        case Some(VReg(d)) =>
          (match PregForVreg(a2, d, StillProtected(uses, vs, syl.dst, pos), victims[n])
           case None => None
           case Some(Grant(a3, preg, code')) =>
             var a4 := if !uses.HasLaterUse(d, pos) && d !in uses.liveOut then FreeVreg(a3, d) else a3;
             Some(SylResult(a4, code + code' + [Syllable(syl.opcode, Some(PReg(preg)), srcs)])))
        case other => Some(SylResult(a2, code + [Syllable(syl.opcode, other, srcs)]))
      }
  }

  datatype EndResult = EndResult(state: AllocState, code: seq<Syllable>, end: Terminator)

  /** A branch on a virtual register: its value is brought into a register, which may be freed at once. */
  function RewriteEnd(uses: BlockUses, a: AllocState, term: Terminator, pos: nat, victim: nat): Option<EndResult> {
    match term
    case BranchTo(VReg(v), target) =>
      (match PregForVreg(a, v, {v}, victim)
       case None => None
       case Some(g) =>
         var a' := if uses.CanFreeAfter(v, pos) then FreeVreg(g.state, v) else g.state;
         Some(EndResult(a', g.code, BranchTo(PReg(g.preg), target))))
    case _ => Some(EndResult(a, [], term))
  }

  /**
   * One run over the syllables of a block, the first of them at position pos: the allocator's states before,
   * between and after the syllables, and the code each one is replaced by.
   */
  ghost predicate IsRun(uses: BlockUses, syls: seq<Syllable>, pos: nat, choices: seq<seq<nat>>,
                        states: seq<AllocState>, codes: seq<seq<Syllable>>) {
    && |choices| == |codes| == |syls| && |states| == |syls| + 1
    && forall i :: 0 <= i < |syls| ==> IsStep(uses, syls[i], pos + i, choices[i], states[i], states[i + 1], codes[i])
  }

  ghost predicate IsStep(uses: BlockUses, syl: Syllable, pos: nat, victims: seq<nat>,
                         a: AllocState, a': AllocState, code: seq<Syllable>) {
    && |victims| == |syl.srcs| + 1
    && var r := RewriteSyllable(uses, a, syl, pos, victims);
       r.Some? && r.value.state == a' && r.value.code == code
  }

  function Concat(codes: seq<seq<Syllable>>): seq<Syllable> {
    if codes == [] then [] else Concat(codes[..|codes| - 1]) + codes[|codes| - 1]
  }

  /** Out is what the allocator makes of a block between the states a and a'. */
  ghost predicate BlockAllocated(uses: BlockUses, block: Block, pos: nat, a: AllocState, a': AllocState, out: Block) {
    exists choices, states, codes, victim ::
      BlockAllocatedBy(uses, block, pos, a, a', out, choices, states, codes, victim)
  }

  ghost predicate BlockAllocatedBy(uses: BlockUses, block: Block, pos: nat, a: AllocState, a': AllocState, out: Block,
                                   choices: seq<seq<nat>>, states: seq<AllocState>, codes: seq<seq<Syllable>>, victim: nat) {
    var syls := block.syllables;
    && IsRun(uses, syls, pos, choices, states, codes) && states[0] == a
    && var end := RewriteEnd(uses, states[|syls|], block.terminator, pos + |syls|, victim);
       end.Some? && end.value.state == a' && out == Block(block.name, Concat(codes) + end.value.code, end.value.end)
  }

  // ----- The allocator's invariant -----

  predicate Injective(m: map<nat, nat>) {
    forall v, w :: v in m && w in m && m[v] == m[w] ==> v == w
  }

  /** Free registers, assigned registers and the registers in `taken` are a partition of r2..r30. */
  ghost predicate Partition(a: AllocState, taken: set<nat>) {
    && Injective(a.regOf) && Distinct(a.free)
    && (forall v :: v in a.regOf ==> a.regOf[v] !in a.free && a.regOf[v] !in taken)
    && (forall p :: p in taken ==> p !in a.free)
    && (forall p: nat :: Allocatable(p) <==> p in a.free || p in taken || p in a.regOf.Values)
  }

  /** Spill slots are whole words of the spill area, no two of them the same. */
  predicate SlotsApart(a: AllocState) {
    && (forall v :: v in a.slots ==>
          a.base <= a.slots[v] < a.base + SPILL_SLOT_BYTES * a.nextSlot && (a.slots[v] - a.base) % SPILL_SLOT_BYTES == 0)
    && (forall v, w :: v in a.slots && w in a.slots && a.slots[v] == a.slots[w] ==> v == w)
  }

  ghost predicate Valid(a: AllocState) {
    Partition(a, {}) && SlotsApart(a)
  }

  lemma {:induction false} InitialValid(base: int)
    ensures Valid(Initial(base))
  {
    var a := Initial(base);
    forall p: nat
      ensures Allocatable(p) <==> p in a.free
    {
      if Allocatable(p) {
        assert a.free[p - FIRST_ALLOCATABLE_GPR] == p;
      }
    }
  }

  lemma {:induction false} WithSlotApart(a: AllocState, v: nat)
    requires SlotsApart(a)
    ensures SlotsApart(WithSlot(a, v))
  {
  }

  lemma {:induction false} AllocPregPartition(a: AllocState, protected: set<nat>, victim: nat)
    requires Valid(a) && AllocPreg(a, protected, victim).Some?
    ensures var g := AllocPreg(a, protected, victim).value;
            Partition(g.state, {g.preg}) && SlotsApart(g.state) && g.state.regOf.Keys <= a.regOf.Keys
  {
    var g := AllocPreg(a, protected, victim).value;
    if a.free != [] {
      assert a.free == [g.preg] + g.state.free;
      assert g.state.regOf == a.regOf;
    } else {
      WithSlotApart(a.(regOf := a.regOf - {victim}), victim);
      forall p: nat
        ensures Allocatable(p) <==> p == g.preg || p in g.state.regOf.Values
      {
        if p in a.regOf.Values && p != g.preg {
          var v :| v in a.regOf && a.regOf[v] == p;
          assert v in g.state.regOf && g.state.regOf[v] == p;
        }
      }
    }
  }

  /** What a request leaves alone: protected registers, existing slots and everybody else's register. */
  ghost predicate KeepsRest(a: AllocState, a': AllocState, v: nat, protected: set<nat>) {
    && a'.base == a.base && a.nextSlot <= a'.nextSlot
    && (forall u :: u in a.regOf && u in protected ==> u in a'.regOf && a'.regOf[u] == a.regOf[u])
    && (forall u :: u in a'.regOf && u != v ==> u in a.regOf && a'.regOf[u] == a.regOf[u])
    && (forall u :: u in a.slots ==> u in a'.slots && a'.slots[u] == a.slots[u])
    && (forall u :: u in a'.slots && u !in a.slots ==> u in a.regOf && u != v)
  }

  lemma {:induction false} PregForVregFrame(a: AllocState, v: nat, protected: set<nat>, victim: nat)
    requires PregForVreg(a, v, protected, victim).Some?
    ensures var g := PregForVreg(a, v, protected, victim).value;
            KeepsRest(a, g.state, v, protected) && v in g.state.regOf && g.state.regOf[v] == g.preg
  {
  }

  /** A granted register is allocatable and v's alone; the partition survives evictions. */
  lemma {:induction false} PregForVregValid(a: AllocState, v: nat, protected: set<nat>, victim: nat)
    requires Valid(a) && PregForVreg(a, v, protected, victim).Some?
    ensures var g := PregForVreg(a, v, protected, victim).value;
            Valid(g.state) && Allocatable(g.preg)
  {
    if v in a.regOf {
      assert a.regOf[v] in a.regOf.Values;
    } else {
      var g1 := AllocPreg(a, protected, victim).value;
      AllocPregPartition(a, protected, victim);
      GrantTaken(g1.state, v, g1.preg);
    }
  }

  lemma {:induction false} GrantTaken(a: AllocState, v: nat, preg: nat)
    requires Partition(a, {preg}) && SlotsApart(a) && v !in a.regOf
    ensures Valid(a.(regOf := a.regOf[v := preg])) && Allocatable(preg)
  {
    assert preg in {preg};
    AssignTaken(a, v, preg);
  }

  lemma {:induction false} AssignTaken(a: AllocState, v: nat, preg: nat)
    requires Partition(a, {preg}) && v !in a.regOf
    ensures Partition(a.(regOf := a.regOf[v := preg]), {})
  {
    var regOf' := a.regOf[v := preg];
    forall p: nat
      ensures p in regOf'.Values <==> p == preg || p in a.regOf.Values
    {
      if p == preg {
        assert regOf'[v] == p;
      } else if p in a.regOf.Values {
        var u :| u in a.regOf && a.regOf[u] == p;
        assert regOf'[u] == p;
      }
    }
    assert preg in {preg};
  }

  lemma {:induction false} FreeVregValid(a: AllocState, v: nat)
    requires Valid(a)
    ensures Valid(FreeVreg(a, v))
  {
    if v in a.regOf {
      var a' := FreeVreg(a, v);
      forall p: nat
        ensures Allocatable(p) <==> p in a'.free || p in a'.regOf.Values
      {
        if p in a.regOf.Values {
          var u :| u in a.regOf && a.regOf[u] == p;
          assert u != v ==> a'.regOf[u] == p;
          assert u == v ==> a'.free[0] == p;
        } else if p in a.free {
          assert p in a'.free;
        }
      }
    }
  }

  lemma {:induction false} RewriteSrcsValid(a: AllocState, srcs: seq<Value>, protected: set<nat>, victims: seq<nat>)
    requires Valid(a) && |victims| == |srcs| && RewriteSrcs(a, srcs, protected, victims).Some?
    ensures Valid(RewriteSrcs(a, srcs, protected, victims).value.state)
  {
    if srcs != [] {
      var n := |srcs| - 1;
      RewriteSrcsValid(a, srcs[..n], protected, victims[..n]);
      var a1 := RewriteSrcs(a, srcs[..n], protected, victims[..n]).value.state;
      if srcs[n].RegValue? && srcs[n].reg.VReg? {
        PregForVregValid(a1, srcs[n].reg.v, protected, victims[n]);
        assert RewriteSrcs(a, srcs, protected, victims).value.state
            == PregForVreg(a1, srcs[n].reg.v, protected, victims[n]).value.state;
      }
    }
  }

  /** Sources are protected, so each keeps the register it was given until all are rewritten. */
  lemma {:induction false} RewriteSrcsNames(a: AllocState, srcs: seq<Value>, protected: set<nat>, victims: seq<nat>)
    requires |victims| == |srcs| && RewriteSrcs(a, srcs, protected, victims).Some?
    requires forall i :: 0 <= i < |srcs| && srcs[i].RegValue? && srcs[i].reg.VReg? ==> srcs[i].reg.v in protected
    ensures var r := RewriteSrcs(a, srcs, protected, victims).value;
            |r.srcs| == |srcs| && forall i :: 0 <= i < |srcs| ==> RewrittenSrc(r.state, srcs[i], r.srcs[i])
  {
    if srcs != [] {
      var n := |srcs| - 1;
      RewriteSrcsNames(a, srcs[..n], protected, victims[..n]);
      var r1 := RewriteSrcs(a, srcs[..n], protected, victims[..n]).value;
      var r := RewriteSrcs(a, srcs, protected, victims).value;
      forall i | 0 <= i < n
        ensures r.srcs[i] == r1.srcs[i] && RewrittenSrc(r1.state, srcs[i], r1.srcs[i])
      {
        assert srcs[..n][i] == srcs[i];
      }
      if srcs[n].RegValue? && srcs[n].reg.VReg? {
        PregForVregFrame(r1.state, srcs[n].reg.v, protected, victims[n]);
        assert KeepsRest(r1.state, r.state, srcs[n].reg.v, protected);
      }
    }
  }

  /** A rewritten source names the register its virtual register has been given. */
  predicate RewrittenSrc(a: AllocState, src: Value, src': Value) {
    if src.RegValue? && src.reg.VReg?
    then src.reg.v in a.regOf && src' == RegValue(PReg(a.regOf[src.reg.v]))
    else src' == src
  }

  lemma {:induction false} FreeSourcesValid(uses: BlockUses, a: AllocState, vs: seq<nat>, dst: Option<Reg>, pos: nat)
    requires Valid(a)
    ensures Valid(FreeSources(uses, a, vs, dst, pos))
    ensures var a' := FreeSources(uses, a, vs, dst, pos);
            && a'.slots == a.slots && a'.nextSlot == a.nextSlot && a'.base == a.base
            && (forall v :: v in a'.regOf ==> v in a.regOf && a'.regOf[v] == a.regOf[v])
            && (forall v :: v in a.regOf && v !in a'.regOf ==>
                  v in vs && dst != Some(VReg(v)) && uses.CanFreeAfter(v, pos))
  {
    if vs != [] {
      var n := |vs| - 1;
      FreeSourcesValid(uses, a, vs[..n], dst, pos);
      FreeVregValid(FreeSources(uses, a, vs[..n], dst, pos), vs[n]);
    }
  }

  /** Every step of every run keeps the partition of r2..r30 and the slots apart. */
  lemma {:induction false} RewriteSyllableValid(uses: BlockUses, a: AllocState, syl: Syllable, pos: nat, victims: seq<nat>)
    requires Valid(a) && |victims| == |syl.srcs| + 1 && RewriteSyllable(uses, a, syl, pos, victims).Some?
    ensures Valid(RewriteSyllable(uses, a, syl, pos, victims).value.state)
  {
    var n, vs := |syl.srcs|, SrcVregs(syl.srcs);
    RewriteSrcsValid(a, syl.srcs, SetOf(vs), victims[..n]);
    var a1 := RewriteSrcs(a, syl.srcs, SetOf(vs), victims[..n]).value.state;
    FreeSourcesValid(uses, a1, vs, syl.dst, pos);
    var a2 := FreeSources(uses, a1, vs, syl.dst, pos);
    if syl.dst.Some? && syl.dst.value.VReg? {
      var d, protected := syl.dst.value.v, StillProtected(uses, vs, syl.dst, pos);
      PregForVregValid(a2, d, protected, victims[n]);
      FreeVregValid(PregForVreg(a2, d, protected, victims[n]).value.state, d);
    }
  }

  lemma {:induction false} StepOfRun(uses: BlockUses, syls: seq<Syllable>, pos: nat, choices: seq<seq<nat>>,
                                     states: seq<AllocState>, codes: seq<seq<Syllable>>, i: nat)
    requires IsRun(uses, syls, pos, choices, states, codes) && i < |syls|
    ensures IsStep(uses, syls[i], pos + i, choices[i], states[i], states[i + 1], codes[i])
  {
  }

  lemma {:induction false} RunStepValid(uses: BlockUses, syls: seq<Syllable>, pos: nat, choices: seq<seq<nat>>,
                                        states: seq<AllocState>, codes: seq<seq<Syllable>>, i: nat)
    requires IsRun(uses, syls, pos, choices, states, codes) && i < |syls| && Valid(states[i])
    ensures Valid(states[i + 1])
  {
    StepOfRun(uses, syls, pos, choices, states, codes, i);
    RewriteSyllableValid(uses, states[i], syls[i], pos + i, choices[i]);
  }

  /** Whatever victims are chosen, the partition and the spill slots stay intact throughout a run. */
  lemma {:induction false} RunValid(uses: BlockUses, syls: seq<Syllable>, pos: nat, choices: seq<seq<nat>>,
                                    states: seq<AllocState>, codes: seq<seq<Syllable>>, i: nat)
    requires IsRun(uses, syls, pos, choices, states, codes) && Valid(states[0]) && i < |states|
    ensures Valid(states[i])
    decreases i
  {
    if i > 0 {
      RunValid(uses, syls, pos, choices, states, codes, i - 1);
      RunStepValid(uses, syls, pos, choices, states, codes, i - 1);
    }
  }

  // ----- The spill area -----

  /** One slot per spilled register: a register spilled again goes to the slot it already has. */
  predicate SlotsCounted(a: AllocState) {
    a.nextSlot == |a.slots.Keys|
  }

  lemma {:induction false} PregForVregCounts(a: AllocState, v: nat, protected: set<nat>, victim: nat)
    requires SlotsCounted(a) && PregForVreg(a, v, protected, victim).Some?
    ensures SlotsCounted(PregForVreg(a, v, protected, victim).value.state)
  {
    if v !in a.regOf && a.free == [] && victim !in a.slots {
      assert WithSlot(a.(regOf := a.regOf - {victim}), victim).slots.Keys == a.slots.Keys + {victim};
    }
  }

  lemma {:induction false} RewriteSrcsCounts(a: AllocState, srcs: seq<Value>, protected: set<nat>, victims: seq<nat>)
    requires SlotsCounted(a) && |victims| == |srcs| && RewriteSrcs(a, srcs, protected, victims).Some?
    ensures SlotsCounted(RewriteSrcs(a, srcs, protected, victims).value.state)
  {
    if srcs != [] {
      var n := |srcs| - 1;
      RewriteSrcsCounts(a, srcs[..n], protected, victims[..n]);
      if srcs[n].RegValue? && srcs[n].reg.VReg? {
        PregForVregCounts(RewriteSrcs(a, srcs[..n], protected, victims[..n]).value.state, srcs[n].reg.v, protected, victims[n]);
      }
    }
  }

  lemma {:induction false} FreeSourcesKeepsSlots(uses: BlockUses, a: AllocState, vs: seq<nat>, dst: Option<Reg>, pos: nat)
    ensures FreeSources(uses, a, vs, dst, pos).slots == a.slots && FreeSources(uses, a, vs, dst, pos).nextSlot == a.nextSlot
  {
    if vs != [] {
      FreeSourcesKeepsSlots(uses, a, vs[..|vs| - 1], dst, pos);
    }
  }

  lemma {:induction false} StepCounts(uses: BlockUses, syl: Syllable, pos: nat, victims: seq<nat>, a: AllocState, a': AllocState, code: seq<Syllable>)
    requires IsStep(uses, syl, pos, victims, a, a', code) && SlotsCounted(a)
    ensures SlotsCounted(a')
  {
    var n, vs := |syl.srcs|, SrcVregs(syl.srcs);
    RewriteSrcsCounts(a, syl.srcs, SetOf(vs), victims[..n]);
    var a1 := RewriteSrcs(a, syl.srcs, SetOf(vs), victims[..n]).value.state;
    FreeSourcesKeepsSlots(uses, a1, vs, syl.dst, pos);
    var a2 := FreeSources(uses, a1, vs, syl.dst, pos);
    if syl.dst.Some? && syl.dst.value.VReg? {
      PregForVregCounts(a2, syl.dst.value.v, StillProtected(uses, vs, syl.dst, pos), victims[n]);
    }
  }

  lemma {:induction false} RunStepCounts(uses: BlockUses, syls: seq<Syllable>, pos: nat, choices: seq<seq<nat>>,
                                         states: seq<AllocState>, codes: seq<seq<Syllable>>, i: nat)
    requires IsRun(uses, syls, pos, choices, states, codes) && i < |syls| && SlotsCounted(states[i])
    ensures SlotsCounted(states[i + 1])
  {
    StepOfRun(uses, syls, pos, choices, states, codes, i);
    StepCounts(uses, syls[i], pos + i, choices[i], states[i], states[i + 1], codes[i]);
  }

  lemma {:induction false} RunCounts(uses: BlockUses, syls: seq<Syllable>, pos: nat, choices: seq<seq<nat>>,
                                     states: seq<AllocState>, codes: seq<seq<Syllable>>, i: nat)
    requires IsRun(uses, syls, pos, choices, states, codes) && SlotsCounted(states[0]) && i < |states|
    ensures SlotsCounted(states[i])
    decreases i
  {
    if i > 0 {
      RunCounts(uses, syls, pos, choices, states, codes, i - 1);
      RunStepCounts(uses, syls, pos, choices, states, codes, i - 1);
    }
  }

  /**
   * Slots are pairwise disjoint words above the saved link register; with at most 64 virtual registers and at
   * least 8 KiB of memory they all lie inside memory.
   */
  lemma {:induction false} SpillSlotsFit(a: AllocState, memorySize: nat, vregs: set<nat>)
    requires SlotsApart(a) && SlotsCounted(a) && a.base == SpillBase(memorySize)
    requires a.slots.Keys <= vregs && |vregs| <= 64 && memorySize >= 8192
    ensures forall v :: v in a.slots ==>
              LinkRegSaveAddr(memorySize) + 8 <= a.slots[v] && a.slots[v] + SPILL_SLOT_BYTES <= memorySize
    ensures forall v, w :: v in a.slots && w in a.slots && v != w ==>
              a.slots[v] + SPILL_SLOT_BYTES <= a.slots[w] || a.slots[w] + SPILL_SLOT_BYTES <= a.slots[v]
  {
    assert a.nextSlot <= 64 by {
      var rest := vregs - a.slots.Keys;
      assert vregs == a.slots.Keys + rest;
    }
    forall v | v in a.slots
      ensures LinkRegSaveAddr(memorySize) + 8 <= a.slots[v] && a.slots[v] + SPILL_SLOT_BYTES <= memorySize
    {
      SlotInArea(a, v, 64);
    }
    forall v, w | v in a.slots && w in a.slots && v != w
      ensures a.slots[v] + SPILL_SLOT_BYTES <= a.slots[w] || a.slots[w] + SPILL_SLOT_BYTES <= a.slots[v]
    {
      SlotsDisjoint(a, v, w);
    }
  }

  lemma {:induction false} SlotsDisjoint(a: AllocState, v: nat, w: nat)
    requires SlotsApart(a) && v in a.slots && w in a.slots && v != w
    ensures a.slots[v] + 8 <= a.slots[w] || a.slots[w] + 8 <= a.slots[v]
  {
  }

  lemma {:induction false} SlotInArea(a: AllocState, v: nat, area: nat)
    requires SlotsApart(a) && v in a.slots && a.nextSlot <= area
    ensures a.base <= a.slots[v] && a.slots[v] + 8 <= a.base + SPILL_SLOT_BYTES * area
  {
  }

  // ----- No virtual register is left -----

  predicate Physical(syl: Syllable) {
    && (syl.dst.Some? ==> syl.dst.value.PReg?)
    && forall i :: 0 <= i < |syl.srcs| && syl.srcs[i].RegValue? ==> syl.srcs[i].reg.PReg?
  }

  predicate AllPhysical(code: seq<Syllable>) {
    forall i :: 0 <= i < |code| ==> Physical(code[i])
  }

  lemma {:induction false} RewriteSrcsPhysical(a: AllocState, srcs: seq<Value>, protected: set<nat>, victims: seq<nat>)
    requires |victims| == |srcs| && RewriteSrcs(a, srcs, protected, victims).Some?
    ensures AllPhysical(RewriteSrcs(a, srcs, protected, victims).value.code)
  {
    if srcs != [] {
      var n := |srcs| - 1;
      RewriteSrcsPhysical(a, srcs[..n], protected, victims[..n]);
    }
  }

  /** The code a syllable is replaced by names physical registers only. */
  lemma {:induction false} StepPhysical(uses: BlockUses, syl: Syllable, pos: nat, victims: seq<nat>, a: AllocState, a': AllocState, code: seq<Syllable>)
    requires IsStep(uses, syl, pos, victims, a, a', code)
    ensures AllPhysical(code)
  {
    var n, vs := |syl.srcs|, SrcVregs(syl.srcs);
    RewriteSrcsPhysical(a, syl.srcs, SetOf(vs), victims[..n]);
    forall i | 0 <= i < n && syl.srcs[i].RegValue? && syl.srcs[i].reg.VReg?
      ensures syl.srcs[i].reg.v in SetOf(vs)
    {
      assert syl.srcs[i] in syl.srcs;
    }
    RewriteSrcsNames(a, syl.srcs, SetOf(vs), victims[..n]);
    var r := RewriteSrcs(a, syl.srcs, SetOf(vs), victims[..n]).value;
    assert forall i :: 0 <= i < n ==> RewrittenSrc(r.state, syl.srcs[i], r.srcs[i]);
    var last := code[|code| - 1];
    assert last.srcs == r.srcs && Physical(last);
    assert AllPhysical(code[..|code| - 1]) by {
      if syl.dst.Some? && syl.dst.value.VReg? {
        var a2 := FreeSources(uses, r.state, vs, syl.dst, pos);
        var g := PregForVreg(a2, syl.dst.value.v, StillProtected(uses, vs, syl.dst, pos), victims[n]).value;
        assert code[..|code| - 1] == r.code + g.code;
        PregForVregPhysical(a2, syl.dst.value.v, StillProtected(uses, vs, syl.dst, pos), victims[n]);
        PhysicalConcat(r.code, g.code);
      } else {
        assert code[..|code| - 1] == r.code;
      }
    }
    assert code == code[..|code| - 1] + [last];
    PhysicalConcat(code[..|code| - 1], [last]);
  }

  lemma {:induction false} PregForVregPhysical(a: AllocState, v: nat, protected: set<nat>, victim: nat)
    requires PregForVreg(a, v, protected, victim).Some?
    ensures AllPhysical(PregForVreg(a, v, protected, victim).value.code)
  {
  }

  lemma {:induction false} PhysicalConcat(xs: seq<Syllable>, ys: seq<Syllable>)
    requires AllPhysical(xs) && AllPhysical(ys)
    ensures AllPhysical(xs + ys)
  {
  }

  lemma {:induction false} RunStepPhysical(uses: BlockUses, syls: seq<Syllable>, pos: nat, choices: seq<seq<nat>>,
                                           states: seq<AllocState>, codes: seq<seq<Syllable>>, i: nat)
    requires IsRun(uses, syls, pos, choices, states, codes) && i < |syls|
    ensures AllPhysical(codes[i])
  {
    StepOfRun(uses, syls, pos, choices, states, codes, i);
    StepPhysical(uses, syls[i], pos + i, choices[i], states[i], states[i + 1], codes[i]);
  }

  lemma {:induction false} RunPhysical(uses: BlockUses, syls: seq<Syllable>, pos: nat, choices: seq<seq<nat>>,
                                       states: seq<AllocState>, codes: seq<seq<Syllable>>, n: nat)
    requires IsRun(uses, syls, pos, choices, states, codes) && n <= |syls|
    ensures AllPhysical(Concat(codes[..n]))
    decreases n
  {
    if n > 0 {
      RunPhysical(uses, syls, pos, choices, states, codes, n - 1);
      assert codes[..n][..n - 1] == codes[..n - 1];
      RunStepPhysical(uses, syls, pos, choices, states, codes, n - 1);
      PhysicalConcat(Concat(codes[..n - 1]), codes[n - 1]);
    }
  }
}
