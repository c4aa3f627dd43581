/** Parallel copies for phis: serialising them with fresh temporaries. */
module Phi {
  import opened Collections
  import opened Opcodes
  import opened Mir
  import opened Machine

  datatype CopySrc = ConstSrc(n: int) | RegSrc(v: nat)

  datatype PhiCopy = PhiCopy(dst: nat, src: CopySrc)

  function SyllableForCopy(c: PhiCopy): Syllable {
    match c.src
    case ConstSrc(n) => Syllable(MovImm, Some(VReg(c.dst)), [Imm(n)])
    case RegSrc(v) => Syllable(Mov, Some(VReg(c.dst)), [RegValue(VReg(v))])
  }

  function Code(copies: seq<PhiCopy>): seq<Syllable> {
    seq(|copies|, i requires 0 <= i < |copies| => SyllableForCopy(copies[i]))
  }

  // ----- What the copies must do -----

  function VKey(v: nat): RegKey { RegKey(Gpr, VReg(v)) }

  function SrcValue(s: State, src: CopySrc): int {
    match src
    case ConstSrc(n) => n
    case RegSrc(v) => ReadReg(s, VKey(v))
  }

  predicate IsDst(copies: seq<PhiCopy>, v: nat) {
    exists i :: 0 <= i < |copies| && copies[i].dst == v
  }

  predicate IsSource(copies: seq<PhiCopy>, v: nat) {
    exists i :: 0 <= i < |copies| && copies[i].src == RegSrc(v)
  }

  predicate DistinctDsts(copies: seq<PhiCopy>) {
    forall i, j :: 0 <= i < j < |copies| ==> copies[i].dst != copies[j].dst
  }

  /** All copies at once: each destination gets its source's old value, and only temporaries change besides. */
  ghost predicate Simultaneous(copies: seq<PhiCopy>, s: State, s': State, firstTemp: nat, endTemp: nat) {
    && s'.mem == s.mem
    && (forall i :: 0 <= i < |copies| ==> ReadReg(s', VKey(copies[i].dst)) == SrcValue(s, copies[i].src))
    && (forall k: RegKey :: !(k.cls == Gpr && k.reg.VReg? && (IsDst(copies, k.reg.v) || firstTemp <= k.reg.v < endTemp)) ==>
          ReadReg(s', k) == ReadReg(s, k))
  }

  // ----- What a sequence of copies leaves in each register, in terms of the start -----

  function Resolve(done: seq<PhiCopy>, src: CopySrc): CopySrc
    decreases |done|, 1
  {
    match src
    case ConstSrc(_) => src
    case RegSrc(v) => Holds(done, v)
  }

  function Holds(done: seq<PhiCopy>, v: nat): CopySrc
    decreases |done|, 0
  {
    if done == [] then RegSrc(v)
    else
      var n := |done| - 1;
      if done[n].dst == v then Resolve(done[..n], done[n].src) else Holds(done[..n], v)
  }

  lemma {:induction false} ExecCopy(isa: Isa, c: PhiCopy, s: State)
    ensures var s' := Exec(isa, Decode(SyllableForCopy(c)), s);
            && s'.mem == s.mem && ReadReg(s', VKey(c.dst)) == SrcValue(s, c.src)
            && forall k: RegKey :: k != VKey(c.dst) ==> ReadReg(s', k) == ReadReg(s, k)
  {
    var m := Decode(SyllableForCopy(c));
    ExecFrame(isa, m, s);
    match c.src
    case ConstSrc(n) => assert ReadSrcs(s, m.args) == [n];
    case RegSrc(v) => assert ReadSrcs(s, m.args) == [ReadReg(s, VKey(v))];
  }

  lemma {:induction false} CodeAppend(isa: Isa, done: seq<PhiCopy>, s: State)
    requires done != []
    ensures var n := |done| - 1;
            Run(isa, DecodeAll(Code(done)), s) == Exec(isa, Decode(SyllableForCopy(done[n])), Run(isa, DecodeAll(Code(done[..n])), s))
  {
    var n := |done| - 1;
    var last := [Decode(SyllableForCopy(done[n]))];
    assert DecodeAll(Code(done)) == DecodeAll(Code(done[..n])) + last;
    RunAppend(isa, DecodeAll(Code(done[..n])), last, s);
    assert last[1..] == [];
  }

  /** Executing the copies leaves exactly what `Holds` says, and leaves everything that is no destination alone. */
  lemma {:induction false} RunHolds(isa: Isa, done: seq<PhiCopy>, s: State)
    ensures var s' := Run(isa, DecodeAll(Code(done)), s);
            && s'.mem == s.mem
            && (forall v: nat :: ReadReg(s', VKey(v)) == SrcValue(s, Holds(done, v)))
            && (forall k: RegKey :: !(k.cls == Gpr && k.reg.VReg?) ==> ReadReg(s', k) == ReadReg(s, k))
  {
    if done != [] {
      var n := |done| - 1;
      var s1 := Run(isa, DecodeAll(Code(done[..n])), s);
      RunHolds(isa, done[..n], s);
      CodeAppend(isa, done, s);
      ExecCopy(isa, done[n], s1);
    }
  }

  lemma {:induction false} HoldsPush(done: seq<PhiCopy>, c: PhiCopy, v: nat)
    ensures Holds(done + [c], v) == if c.dst == v then Resolve(done, c.src) else Holds(done, v)
  {
    assert (done + [c])[..|done|] == done;
  }

  // ----- Stuck copies are a permutation -----

  predicate ReadyAt(copies: seq<PhiCopy>, pos: nat) {
    pos < |copies| && !IsSource(copies, copies[pos].dst)
  }

  predicate Stuck(copies: seq<PhiCopy>) {
    forall p :: 0 <= p < |copies| ==> IsSource(copies, copies[p].dst)
  }

  ghost function Dsts(copies: seq<PhiCopy>): set<nat> {
    set i | 0 <= i < |copies| :: copies[i].dst
  }

  ghost function Sources(copies: seq<PhiCopy>): set<nat> {
    set i | 0 <= i < |copies| && copies[i].src.RegSrc? :: copies[i].src.v
  }

  lemma {:induction false} CountDsts(copies: seq<PhiCopy>)
    requires DistinctDsts(copies)
    ensures |Dsts(copies)| == |copies|
  {
    if copies != [] {
      var n := |copies| - 1;
      CountDsts(copies[..n]);
      assert Dsts(copies) == Dsts(copies[..n]) + {copies[n].dst};
    }
  }

  lemma {:induction false} CountSources(copies: seq<PhiCopy>)
    ensures |Sources(copies)| <= |copies|
  {
    if copies != [] {
      var n := |copies| - 1;
      CountSources(copies[..n]);
      assert Sources(copies) <= Sources(copies[..n]) + if copies[n].src.RegSrc? then {copies[n].src.v} else {};
      SubsetSize(Sources(copies), Sources(copies[..n]) + if copies[n].src.RegSrc? then {copies[n].src.v} else {});
    }
  }

  function Without(copies: seq<PhiCopy>, p: nat): (r: seq<PhiCopy>)
    requires p < |copies|
    ensures |r| == |copies| - 1 && forall q :: 0 <= q < |r| ==> r[q] == copies[if q < p then q else q + 1]
  {
    copies[..p] + copies[p + 1..]
  }

  lemma {:induction false} StaysSource(copies: seq<PhiCopy>, p: nat, d: nat)
    requires p < |copies| && IsSource(copies, d) && copies[p].src != RegSrc(d)
    ensures d in Sources(Without(copies, p))
  {
    var q :| 0 <= q < |copies| && copies[q].src == RegSrc(d);
    var others, r := Without(copies, p), if q < p then q else q - 1;
    assert others[r] == copies[q];
  }

  /** When no copy is ready, every source is a pending destination: the copies form cycles. */
  lemma {:induction false} StuckIsPermutation(copies: seq<PhiCopy>, p: nat)
    requires DistinctDsts(copies) && Stuck(copies) && p < |copies|
    ensures copies[p].src.RegSrc? && IsDst(copies, copies[p].src.v)
  {
    if !(copies[p].src.RegSrc? && IsDst(copies, copies[p].src.v)) {
      var others := Without(copies, p);
      forall d | d in Dsts(copies)
        ensures d in Sources(others)
      {
        StaysSource(copies, p, d);
      }
      CountDsts(copies);
      CountSources(others);
      SubsetSize(Dsts(copies), Sources(others));
    }
  }
}
