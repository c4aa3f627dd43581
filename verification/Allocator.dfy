/** The allocator object: its methods compute the functions of `RegAlloc` for some choice of victims. */
module Allocator {
  import opened Collections
  import opened Opcodes
  import opened Mir
  import opened Regs
  import opened RegAlloc
  import opened LiveSets
  import opened Liveness
  import opened LivenessFixpoint

  datatype AllocResult<+T> = Ok(value: T) | OutOfRegisters(vreg: nat)

  const REGISTERS: nat := LAST_ALLOCATABLE_GPR - FIRST_ALLOCATABLE_GPR + 1

  /** Fewer than 29 distinct source registers. */
  predicate SourcesFit(syl: Syllable) {
    |SetOf(SrcVregs(syl.srcs))| < REGISTERS
  }

  // ----- Counting registers -----

  ghost function Range(n: nat): (s: set<nat>)
    ensures |s| == n && forall p :: p in s <==> FIRST_ALLOCATABLE_GPR <= p < FIRST_ALLOCATABLE_GPR + n
  {
    if n == 0 then {} else Range(n - 1) + {FIRST_ALLOCATABLE_GPR + n - 1}
  }

  lemma {:induction false} ValuesNotMoreThanKeys(m: map<nat, nat>)
    ensures |m.Values| <= |m.Keys|
    decreases |m.Keys|
  {
    if m.Keys != {} {
      var k :| k in m.Keys;
      var m' := m - {k};
      assert m'.Keys == m.Keys - {k};
      ValuesNotMoreThanKeys(m');
      assert m.Values <= m'.Values + {m[k]} by {
        forall v | v in m.Values
          ensures v in m'.Values + {m[k]}
        {
          var k' :| k' in m && m[k'] == v;
          assert k' != k ==> k' in m' && m'[k'] == v;
        }
      }
      SubsetSize(m.Values, m'.Values + {m[k]});
      assert |m'.Values + {m[k]}| <= |m'.Values| + 1;
    }
  }

  /** With fewer than 29 other registers protected there is always a free register or a victim. */
  lemma {:induction false} VictimExists(a: AllocState, v: nat, protected: set<nat>)
    requires RegAlloc.Valid(a) && a.free == [] && v !in a.regOf && |protected - {v}| < REGISTERS
    ensures exists w :: w in a.regOf && w !in protected
  {
    if forall w :: w in a.regOf ==> w in protected {
      assert Range(REGISTERS) <= a.regOf.Values by {
        assert forall p :: p in Range(REGISTERS) ==> Allocatable(p);
      }
      SubsetSize(Range(REGISTERS), a.regOf.Values);
      ValuesNotMoreThanKeys(a.regOf);
      SubsetSize(a.regOf.Keys, protected - {v});
    }
  }

  lemma {:induction false} RunExtends(uses: BlockUses, syls: seq<Syllable>, pos: nat, n: nat, choices: seq<seq<nat>>, states: seq<AllocState>,
                   codes: seq<seq<Syllable>>, victims: seq<nat>, a: AllocState, code: seq<Syllable>)
    requires n < |syls| && IsRun(uses, syls[..n], pos, choices, states, codes)
    requires IsStep(uses, syls[n], pos + n, victims, states[n], a, code)
    ensures IsRun(uses, syls[..n + 1], pos, choices + [victims], states + [a], codes + [code])
    ensures Concat(codes + [code]) == Concat(codes) + code
  {
    var choices', states', codes' := choices + [victims], states + [a], codes + [code];
    assert codes'[..n] == codes;
    forall i | 0 <= i < n + 1
      ensures IsStep(uses, syls[..n + 1][i], pos + i, choices'[i], states'[i], states'[i + 1], codes'[i])
    {
      if i < n {
        assert IsStep(uses, syls[..n][i], pos + i, choices[i], states[i], states[i + 1], codes[i]);
      }
    }
  }

  class Allocator {
    var regOf: map<nat, nat>
    var free: seq<nat>
    var slots: map<nat, int>
    var nextSlot: nat
    const base: int

    ghost function State(): AllocState
      reads this
    {
      AllocState(regOf, free, slots, nextSlot, base)
    }

    ghost predicate Valid()
      reads this
    {
      RegAlloc.Valid(State())
    }

    constructor (base: int)
      ensures Valid() && State() == Initial(base)
    {
      this.base := base;
      regOf, slots, nextSlot := map[], map[], 0;
      free := seq(REGISTERS, i => i + FIRST_ALLOCATABLE_GPR);
      new;
      InitialValid(base);
      assert free == Initial(base).free;
    }

    /** The slot of a register that is spilled, a new one the first time. */
    method SpillSlot(v: nat) returns (slot: int)
      modifies this`slots, this`nextSlot
      ensures State() == WithSlot(old(State()), v) && v in slots && slot == slots[v]
    {
      if v !in slots {
        slots := slots[v := base + nextSlot * SPILL_SLOT_BYTES];
        nextSlot := nextSlot + 1;
      }
      slot := slots[v];
    }

    /** `v` is the register asked for; it must not be protected into a corner. */
    method AllocPreg(v: nat, protected: set<nat>) returns (r: AllocResult<nat>, code: seq<Syllable>, ghost victim: nat)
      requires Valid() && v !in regOf
      modifies this
      ensures r.Ok? ==> RegAlloc.AllocPreg(old(State()), protected, victim) == Some(Grant(State(), r.value, code))
      ensures r.OutOfRegisters? ==> r.vreg == v && State() == old(State()) && |protected - {v}| >= REGISTERS
    {
      code, victim := [], 0;
      if free != [] {
        r := Ok(free[0]);
        free := free[1..];
      } else if w :| w in regOf && w !in protected {
        victim := w;
        var preg := regOf[w];
        regOf := regOf - {w};
        var slot := SpillSlot(w);
        code := [SpillCode(slot, preg)];
        r := Ok(preg);
      } else {
        r := OutOfRegisters(v);
        if |protected - {v}| < REGISTERS {
          VictimExists(State(), v, protected);
        }
      }
    }

    method PregForVreg(v: nat, protected: set<nat>) returns (r: AllocResult<nat>, code: seq<Syllable>, ghost victim: nat)
      requires Valid()
      modifies this
      ensures r.Ok? ==> Valid() && RegAlloc.PregForVreg(old(State()), v, protected, victim) == Some(Grant(State(), r.value, code))
      ensures r.OutOfRegisters? ==> r.vreg == v && |protected - {v}| >= REGISTERS
    {
      if v in regOf {
        r, code, victim := Ok(regOf[v]), [], 0;
      } else {
        r, code, victim := AllocPreg(v, protected);
        if r.Ok? {
          regOf := regOf[v := r.value];
          if v in slots {
            code := code + [ReloadCode(slots[v], r.value)];
          } else {
            code := code + [];
          }
          assert RegAlloc.PregForVreg(old(State()), v, protected, victim) == Some(Grant(State(), r.value, code));
        }
      }
      if r.Ok? {
        PregForVregValid(old(State()), v, protected, victim);
      }
    }

    method FreeVreg(v: nat)
      requires Valid()
      modifies this`regOf, this`free
      ensures Valid() && State() == RegAlloc.FreeVreg(old(State()), v)
    {
      FreeVregValid(State(), v);
      if v in regOf {
        free := [regOf[v]] + free;
        regOf := regOf - {v};
      }
    }

    /** Give every virtual source a register, first to last. */
    method RewriteSrcs(srcs: seq<Value>, protected: set<nat>)
      returns (r: AllocResult<seq<Value>>, code: seq<Syllable>, vregs: seq<nat>, ghost victims: seq<nat>)
      requires Valid()
      modifies this
      ensures r.Ok? ==> Valid() && vregs == SrcVregs(srcs) && |victims| == |srcs|
      ensures r.Ok? ==> RegAlloc.RewriteSrcs(old(State()), srcs, protected, victims) == Some(SrcsResult(State(), r.value, code))
      ensures r.OutOfRegisters? ==> |protected| >= REGISTERS
    {
      var done: seq<Value> := [];
      code, vregs, victims := [], [], [];
      for n := 0 to |srcs|
        invariant Valid() && |victims| == n && vregs == SrcVregs(srcs[..n])
        invariant RegAlloc.RewriteSrcs(old(State()), srcs[..n], protected, victims) == Some(SrcsResult(State(), done, code))
      {
        ghost var before := State();
        assert srcs[..n + 1][..n] == srcs[..n];
        match srcs[n] {
          case RegValue(VReg(v)) =>
            var p, code', w := PregForVreg(v, protected);
            if p.OutOfRegisters? {
              SubsetSize(protected - {v}, protected);
              return OutOfRegisters(p.vreg), code, vregs, victims;
            }
            vregs := vregs + [v];
            done, code := done + [RegValue(PReg(p.value))], code + code';
            victims := victims + [w];
          case other =>
            done := done + [other];
            victims := victims + [0];
        }
      }
      assert srcs[..|srcs|] == srcs;
      r := Ok(done);
    }

    /** Release the sources that die here; the returned set is what is still protected. */
    method FreeSources(uses: BlockUses, vregs: seq<nat>, dst: Option<Reg>, pos: nat, all: set<nat>) returns (protected: set<nat>)
      requires Valid() && all == SetOf(vregs)
      modifies this`regOf, this`free
      ensures Valid() && State() == RegAlloc.FreeSources(uses, old(State()), vregs, dst, pos)
      ensures protected == StillProtected(uses, vregs, dst, pos)
    {
      protected := all;
      for n := 0 to |vregs|
        invariant Valid() && State() == RegAlloc.FreeSources(uses, old(State()), vregs[..n], dst, pos)
        invariant protected == set v | v in all && !(v in vregs[..n] && dst != Some(VReg(v)) && uses.CanFreeAfter(v, pos))
      {
        assert vregs[..n + 1][..n] == vregs[..n];
        if dst != Some(VReg(vregs[n])) && uses.CanFreeAfter(vregs[n], pos) {
          FreeVreg(vregs[n]);
          protected := protected - {vregs[n]};
        }
      }
      assert vregs[..|vregs|] == vregs;
    }

    /** One syllable; it can only fail if it has 29 different virtual sources. */
    method RewriteSyllable(uses: BlockUses, syl: Syllable, pos: nat) returns (r: AllocResult<seq<Syllable>>, ghost victims: seq<nat>)
      requires Valid()
      modifies this
      ensures r.Ok? ==> Valid() && IsStep(uses, syl, pos, victims, old(State()), State(), r.value)
      ensures r.OutOfRegisters? ==> !SourcesFit(syl)
    {
      var all := SetOf(SrcVregs(syl.srcs));
      var srcs, code, vregs, ws := RewriteSrcs(syl.srcs, all);
      victims := ws + [0];
      if srcs.OutOfRegisters? {
        return OutOfRegisters(srcs.vreg), victims;
      }
      var protected := FreeSources(uses, vregs, syl.dst, pos, all);
      assert (ws + [0])[..|syl.srcs|] == ws;
      match syl.dst {
        case Some(VReg(d)) =>
          var p, code', w := PregForVreg(d, protected);
          victims := ws + [w];
          assert victims[..|syl.srcs|] == ws;
          if p.OutOfRegisters? {
            SubsetSize(protected - {d}, all);
            return OutOfRegisters(p.vreg), victims;
          }
          if !uses.HasLaterUse(d, pos) && d !in uses.liveOut {
            FreeVreg(d);
          }
          r := Ok(code + code' + [Syllable(syl.opcode, Some(PReg(p.value)), srcs.value)]);
        case other =>
          r := Ok(code + [Syllable(syl.opcode, other, srcs.value)]);
      }
    }

    method RewriteTerminator(uses: BlockUses, term: Terminator, pos: nat)
      returns (r: AllocResult<Terminator>, prefix: seq<Syllable>, ghost victim: nat)
      requires Valid()
      modifies this
      ensures r.Ok? && Valid() && AllPhysical(prefix)
      ensures r.value.BranchTo? ==> term.BranchTo? && (term.cond.VReg? ==> r.value.cond.PReg?)
      ensures RegAlloc.RewriteEnd(uses, old(State()), term, pos, victim) == Some(EndResult(State(), prefix, r.value))
    {
      prefix, victim := [], 0;
      match term {
        case BranchTo(VReg(v), target) =>
          var p;
          p, prefix, victim := PregForVreg(v, {v});
          PregForVregPhysical(old(State()), v, {v}, victim);
          assert {v} - {v} == {};
          if uses.CanFreeAfter(v, pos) {
            FreeVreg(v);
          }
          r := Ok(BranchTo(PReg(p.value), target));
        case other =>
          r := Ok(other);
      }
    }

    /** The syllables of one block in order. */
    method RewriteBlock(uses: BlockUses, syls: seq<Syllable>, pos: nat)
      returns (r: AllocResult<seq<Syllable>>, ghost choices: seq<seq<nat>>, ghost states: seq<AllocState>, ghost codes: seq<seq<Syllable>>)
      requires Valid()
      modifies this
      ensures r.Ok? ==> Valid() && IsRun(uses, syls, pos, choices, states, codes) && r.value == Concat(codes)
      ensures r.Ok? ==> states[0] == old(State()) && states[|syls|] == State()
      ensures (forall i :: 0 <= i < |syls| ==> SourcesFit(syls[i])) ==> r.Ok?
    {
      var out: seq<Syllable> := [];
      choices, states, codes := [], [State()], [];
      for n := 0 to |syls|
        invariant Valid() && IsRun(uses, syls[..n], pos, choices, states, codes)
        invariant states[0] == old(State()) && states[n] == State() && out == Concat(codes)
      {
        var code, victims := RewriteSyllable(uses, syls[n], pos + n);
        if code.OutOfRegisters? {
          return OutOfRegisters(code.vreg), choices, states, codes;
        }
        RunExtends(uses, syls, pos, n, choices, states, codes, victims, State(), code.value);
        out := out + code.value;
        choices, states, codes := choices + [victims], states + [State()], codes + [code.value];
      }
      assert syls[..|syls|] == syls;
      r := Ok(out);
    }
  }

  // ----- Last uses -----

  /** Position |syllables| of a block is its terminator. */
  predicate UsedAt(block: Block, i: int, v: nat) {
    if 0 <= i < |block.syllables| then RegValue(VReg(v)) in block.syllables[i].srcs
    else i == |block.syllables| && block.terminator.BranchTo? && block.terminator.cond == VReg(v)
  }

  /** m maps each register a block uses to the position of its last use, counted from pos. */
  ghost predicate IsLastUses(block: Block, pos: nat, m: map<nat, nat>) {
    && (forall v :: v in m ==> UsedAt(block, m[v] - pos, v))
    && (forall i, v :: UsedAt(block, i, v) ==> v in m && pos + i <= m[v])
  }

  method LastUsesOf(block: Block, pos: nat) returns (m: map<nat, nat>)
    ensures IsLastUses(block, pos, m)
  {
    m := map[];
    var n := |block.syllables|;
    for i := 0 to n
      invariant forall v :: v in m ==> m[v] - pos < i && UsedAt(block, m[v] - pos, v)
      invariant forall j, v :: 0 <= j < i && UsedAt(block, j, v) ==> v in m && pos + j <= m[v]
    {
      var srcs := block.syllables[i].srcs;
      ghost var before := m;
      for q := 0 to |srcs|
        invariant forall v :: v in m ==> if RegValue(VReg(v)) in srcs[..q] then m[v] == pos + i else v in before && m[v] == before[v]
        invariant forall v :: v in before || RegValue(VReg(v)) in srcs[..q] ==> v in m
      {
        assert srcs[..q + 1] == srcs[..q] + [srcs[q]];
        if srcs[q].RegValue? && srcs[q].reg.VReg? {
          m := m[srcs[q].reg.v := pos + i];
        }
      }
      assert srcs[..|srcs|] == srcs;
    }
    if block.terminator.BranchTo? && block.terminator.cond.VReg? {
      m := m[block.terminator.cond.v := pos + n];
    }
  }

  /** The position of a block's first syllable: blocks are numbered through, terminators included. */
  function BlockStart(blocks: seq<Block>, b: nat): nat
    requires b <= |blocks|
  {
    if b == 0 then 0 else BlockStart(blocks, b - 1) + |blocks[b - 1].syllables| + 1
  }

  ghost predicate AllLastUses(blocks: seq<Block>, all: seq<map<nat, nat>>) {
    |all| <= |blocks| &&
    (all == [] ||
     var n := |all| - 1;
     AllLastUses(blocks, all[..n]) && IsLastUses(blocks[n], BlockStart(blocks, n), all[n]))
  }

  lemma {:induction false} NextLastUses(blocks: seq<Block>, all: seq<map<nat, nat>>, m: map<nat, nat>)
    requires AllLastUses(blocks, all) && |all| < |blocks| && IsLastUses(blocks[|all|], BlockStart(blocks, |all|), m)
    ensures AllLastUses(blocks, all + [m])
  {
    assert (all + [m])[..|all|] == all;
  }

  lemma {:induction false} LastUsesAt(blocks: seq<Block>, all: seq<map<nat, nat>>, b: nat)
    requires AllLastUses(blocks, all) && b < |all|
    ensures IsLastUses(blocks[b], BlockStart(blocks, b), all[b])
    decreases |all|
  {
    if b < |all| - 1 {
      LastUsesAt(blocks, all[..|all| - 1], b);
    }
  }

  method ComputeBlockLastUses(blocks: seq<Block>) returns (all: seq<map<nat, nat>>)
    ensures |all| == |blocks| && forall b :: 0 <= b < |blocks| ==> IsLastUses(blocks[b], BlockStart(blocks, b), all[b])
  {
    all := [];
    var pos := 0;
    for b := 0 to |blocks|
      invariant |all| == b && pos == BlockStart(blocks, b) && AllLastUses(blocks, all)
    {
      var m := LastUsesOf(blocks[b], pos);
      NextLastUses(blocks, all, m);
      all := all + [m];
      pos := pos + |blocks[b].syllables| + 1;
    }
    forall b | 0 <= b < |blocks|
      ensures IsLastUses(blocks[b], BlockStart(blocks, b), all[b])
    {
      LastUsesAt(blocks, all, b);
    }
  }

  // ----- Functions -----

  predicate PhysicalBlock(block: Block) {
    AllPhysical(block.syllables) && (block.terminator.BranchTo? ==> block.terminator.cond.PReg?)
  }

  predicate PhysicalBlocks(blocks: seq<Block>) {
    forall b :: 0 <= b < |blocks| ==> PhysicalBlock(blocks[b])
  }

  lemma {:induction false} PhysicalBlocksAppend(blocks: seq<Block>, block: Block)
    requires PhysicalBlocks(blocks) && PhysicalBlock(block)
    ensures PhysicalBlocks(blocks + [block])
  {
  }

  predicate FewSources(block: Block) {
    forall i :: 0 <= i < |block.syllables| ==> SourcesFit(block.syllables[i])
  }

  method AllocateBlock(alloc: Allocator, uses: BlockUses, block: Block, pos: nat) returns (r: AllocResult<Block>)
    requires alloc.Valid()
    modifies alloc
    ensures r.Ok? ==> alloc.Valid() && PhysicalBlock(r.value) && BlockAllocated(uses, block, pos, old(alloc.State()), alloc.State(), r.value)
    ensures FewSources(block) ==> r.Ok?
  {
    ghost var before := alloc.State();
    var code, choices, states, codes := alloc.RewriteBlock(uses, block.syllables, pos);
    if code.OutOfRegisters? {
      return OutOfRegisters(code.vreg);
    }
    RunPhysical(uses, block.syllables, pos, choices, states, codes, |codes|);
    assert codes[..|codes|] == codes;
    var term, prefix, victim := alloc.RewriteTerminator(uses, block.terminator, pos + |block.syllables|);
    PhysicalConcat(code.value, prefix);
    r := Ok(Block(block.name, code.value + prefix, term.value));
    assert BlockAllocatedBy(uses, block, pos, before, alloc.State(), r.value, choices, states, codes, victim);
  }

  /** Every block is allocated in layout order, each from the state the one before it leaves. */
  ghost predicate BlocksAllocated(uses: seq<BlockUses>, blocks: seq<Block>, states: seq<AllocState>, out: seq<Block>) {
    && |out| <= |blocks| == |uses| && |states| == |out| + 1
    && forall b :: 0 <= b < |out| ==> BlockAllocated(uses[b], blocks[b], BlockStart(blocks, b), states[b], states[b + 1], out[b])
  }

  lemma {:induction false} NextBlockAllocated(uses: seq<BlockUses>, blocks: seq<Block>, states: seq<AllocState>, out: seq<Block>, a: AllocState, block: Block)
    requires BlocksAllocated(uses, blocks, states, out) && |out| < |blocks|
    requires BlockAllocated(uses[|out|], blocks[|out|], BlockStart(blocks, |out|), states[|out|], a, block)
    ensures BlocksAllocated(uses, blocks, states + [a], out + [block])
  {
    var states', out' := states + [a], out + [block];
    forall b | 0 <= b < |out'|
      ensures BlockAllocated(uses[b], blocks[b], BlockStart(blocks, b), states'[b], states'[b + 1], out'[b])
    {
      assert b < |out| ==> states'[b] == states[b] && states'[b + 1] == states[b + 1] && out'[b] == out[b];
    }
  }

  method AllocateBlocks(alloc: Allocator, blocks: seq<Block>, uses: seq<BlockUses>) returns (r: AllocResult<seq<Block>>, ghost states: seq<AllocState>)
    requires alloc.Valid() && |uses| == |blocks|
    modifies alloc
    ensures r.Ok? ==> |r.value| == |blocks| && PhysicalBlocks(r.value) && BlocksAllocated(uses, blocks, states, r.value)
    ensures r.Ok? ==> states[0] == old(alloc.State())
    ensures (forall b :: 0 <= b < |blocks| ==> FewSources(blocks[b])) ==> r.Ok?
  {
    var out: seq<Block> := [];
    var pos: nat := 0;
    states := [alloc.State()];
    for b := 0 to |blocks|
      invariant alloc.Valid() && |out| == b && pos == BlockStart(blocks, b)
      invariant PhysicalBlocks(out) && BlocksAllocated(uses, blocks, states, out)
      invariant states[0] == old(alloc.State()) && states[b] == alloc.State()
    {
      var block := AllocateBlock(alloc, uses[b], blocks[b], pos);
      if block.OutOfRegisters? {
        return OutOfRegisters(block.vreg), states;
      }
      NextBlockAllocated(uses, blocks, states, out, alloc.State(), block.value);
      PhysicalBlocksAppend(out, block.value);
      pos := pos + |blocks[b].syllables| + 1;
      out, states := out + [block.value], states + [alloc.State()];
    }
    r := Ok(out);
  }

  /** What the allocator knows of each block: its last uses, and what is live at its end. */
  ghost predicate UsesOf(blocks: seq<Block>, uses: seq<BlockUses>) {
    && |uses| == |blocks|
    && forall b :: 0 <= b < |blocks| ==> UsesRight(blocks, b, uses[b])
  }

  ghost predicate UsesRight(blocks: seq<Block>, b: nat, uses: BlockUses)
    requires b < |blocks|
  {
    && IsLastUses(blocks[b], BlockStart(blocks, b), uses.lastUse)
    && forall v: nat :: v in uses.liveOut <==> LiveAfter(blocks, b, v)
  }

  method ComputeUses(blocks: seq<Block>) returns (uses: seq<BlockUses>)
    requires forall b :: 0 <= b < |blocks| ==> SmallBlock(blocks[b])
    ensures UsesOf(blocks, uses)
  {
    var lastUses := ComputeBlockLastUses(blocks);
    var infos := Compute(blocks);
    uses := seq(|blocks|, b requires 0 <= b < |blocks| && b < |lastUses| && b < |infos| => BlockUses(lastUses[b], MembersOf(infos[b].liveOut)));
  }

  function MembersOf(s: LiveSet): (r: set<nat>)
    ensures forall v: nat :: v in r <==> s.Contains(v)
  {
    set v: nat | v < 64 && s.Contains(v)
  }

  /**
   * Rewrite every virtual register of a function, block after block, from an allocator with all registers free;
   * only a syllable with 29 virtual sources can make it fail.
   */
  method AllocateRegisters(blocks: seq<Block>, memorySize: nat)
    returns (r: AllocResult<seq<Block>>, uses: seq<BlockUses>, ghost states: seq<AllocState>)
    requires forall b :: 0 <= b < |blocks| ==> SmallBlock(blocks[b])
    ensures UsesOf(blocks, uses)
    ensures r.Ok? ==> |r.value| == |blocks| && PhysicalBlocks(r.value) && BlocksAllocated(uses, blocks, states, r.value)
    ensures r.Ok? ==> states[0] == Initial(SpillBase(memorySize))
    ensures (forall b :: 0 <= b < |blocks| ==> FewSources(blocks[b])) ==> r.Ok?
  {
    uses := ComputeUses(blocks);
    var alloc := new Allocator(SpillBase(memorySize));
    r, states := AllocateBlocks(alloc, blocks, uses);
  }
}
