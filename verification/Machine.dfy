/**
 * What operations do to registers and memory.
 *
 * MIR syllables and assembler syllables are both decoded to a `MicroOp`, so every pass is judged by one
 * semantics.  Arithmetic and the byte layout of words are parameters (`Isa`); only the moves are fixed.
 */
module Machine {
  import opened Opcodes
  import opened Mir

  datatype Isa = Isa(
    alu: (Opcode, seq<int>) -> int,
    byteOf: (Opcode, int, int) -> int,
    join: (Opcode, seq<int>) -> int)
  {
    /** A double-word load gives back what a double-word store to the same address put there. */
    ghost predicate DoubleWordsRoundTrip() {
      forall v :: join(LoadD, WordBytes(v)) == v
    }

    ghost function WordBytes(v: int): seq<int> {
      seq(8, i => byteOf(StoreD, v, i))
    }
  }

  /** Registers and bytes that are not in the maps hold zero. */
  datatype State = State(regs: map<RegKey, int>, mem: map<int, int>)

  function ReadReg(s: State, k: RegKey): int {
    if k == ZERO || k !in s.regs then 0 else s.regs[k]
  }

  function ReadByte(s: State, a: int): int {
    if a in s.mem then s.mem[a] else 0
  }

  function ReadBytes(s: State, a: int, n: nat): seq<int> {
    seq(n, i => ReadByte(s, a + i))
  }

  datatype Src = FromReg(key: RegKey) | Const(n: int)

  datatype MicroOp =
    | Compute(op: Opcode, dst: Option<RegKey>, args: seq<Src>)
    | Load(op: Opcode, dst: Option<RegKey>, base: RegKey, offset: int)
    | Store(op: Opcode, base: RegKey, offset: int, data: Src)

  /** What one operation writes, as computed from the state it reads. */
  datatype Effect = Effect(regs: map<RegKey, int>, mem: map<int, int>)

  function ReadSrc(s: State, src: Src): int {
    match src
    case FromReg(k) => ReadReg(s, k)
    case Const(n) => n
  }

  function ReadSrcs(s: State, srcs: seq<Src>): seq<int> {
    seq(|srcs|, i requires 0 <= i < |srcs| => ReadSrc(s, srcs[i]))
  }

  function Alu(isa: Isa, op: Opcode, args: seq<int>): int {
    if op in {Mov, MovImm} && |args| == 1 then args[0] else isa.alu(op, args)
  }

  function RegWrite(dst: Option<RegKey>, v: int): map<RegKey, int> {
    if dst.None? || dst.value == ZERO then map[] else map[dst.value := v]
  }

  function Address(m: MicroOp, s: State): int
    requires !m.Compute?
  {
    ReadReg(s, m.base) + m.offset
  }

  function StoreBytes(isa: Isa, op: Opcode, v: int, a: int, n: nat): (bytes: map<int, int>)
    ensures forall b :: b in bytes <==> a <= b < a + n
    ensures forall b :: b in bytes ==> bytes[b] == isa.byteOf(op, v, b - a)
  {
    if n == 0 then map[] else StoreBytes(isa, op, v, a, n - 1)[a + n - 1 := isa.byteOf(op, v, n - 1)]
  }

  function EffectOf(isa: Isa, m: MicroOp, s: State): Effect {
    match m
    case Compute(op, dst, args) => Effect(RegWrite(dst, Alu(isa, op, ReadSrcs(s, args))), map[])
    case Load(op, dst, base, offset) =>
      var a := Address(m, s);
      Effect(RegWrite(dst, isa.join(op, ReadBytes(s, a, Width(op)))), map[])
    case Store(op, base, offset, data) =>
      var a := Address(m, s);
      Effect(map[], StoreBytes(isa, op, ReadSrc(s, data), a, Width(op)))
  }

  function Apply(s: State, e: Effect): State {
    State(s.regs + e.regs, s.mem + e.mem)
  }

  function Exec(isa: Isa, m: MicroOp, s: State): State {
    Apply(s, EffectOf(isa, m, s))
  }

  function Run(isa: Isa, ms: seq<MicroOp>, s: State): State {
    if ms == [] then s else Run(isa, ms[1..], Exec(isa, ms[0], s))
  }

  lemma {:induction false} RunAppend(isa: Isa, xs: seq<MicroOp>, ys: seq<MicroOp>, s: State)
    ensures Run(isa, xs + ys, s) == Run(isa, ys, Run(isa, xs, s))
    decreases |xs|
  {
    if xs == [] {
      assert xs + ys == ys;
    } else {
      assert (xs + ys)[1..] == xs[1..] + ys;
      RunAppend(isa, xs[1..], ys, Exec(isa, xs[0], s));
    }
  }

  // ----- What an operation may read and write -----

  /** Reading r0 is not a dependence. */
  predicate Reads(m: MicroOp, k: RegKey) {
    k != ZERO &&
    match m
    case Compute(_, _, args) => FromReg(k) in args
    case Load(_, _, base, _) => k == base
    case Store(_, base, _, data) => k == base || data == FromReg(k)
  }

  predicate Writes(m: MicroOp, k: RegKey) {
    k != ZERO && !m.Store? && m.dst == Some(k)
  }

  /** The bytes a load or store touches in a given state. */
  predicate Touches(m: MicroOp, s: State, a: int) {
    !m.Compute? && Address(m, s) <= a < Address(m, s) + Width(m.op)
  }

  ghost predicate AgreeOnReads(m: MicroOp, s: State, s': State) {
    && (forall k :: Reads(m, k) ==> ReadReg(s, k) == ReadReg(s', k))
    && (m.Load? ==> forall a :: Touches(m, s, a) ==> ReadByte(s, a) == ReadByte(s', a))
  }

  /** An operation's effect depends on nothing but what it reads. */
  lemma {:induction false} EffectFrame(isa: Isa, m: MicroOp, s: State, s': State)
    requires AgreeOnReads(m, s, s')
    ensures EffectOf(isa, m, s) == EffectOf(isa, m, s')
  {
    match m
    case Compute(op, dst, args) =>
      forall i | 0 <= i < |args|
        ensures ReadSrc(s, args[i]) == ReadSrc(s', args[i])
      {
        if args[i].FromReg? && args[i].key != ZERO {
          assert Reads(m, args[i].key);
        }
      }
      assert ReadSrcs(s, args) == ReadSrcs(s', args);
    case Load(op, dst, base, offset) =>
      assert Reads(m, base) || base == ZERO;
      var a := Address(m, s);
      var bytes, bytes' := ReadBytes(s, a, Width(op)), ReadBytes(s', a, Width(op));
      forall i | 0 <= i < Width(op)
        ensures bytes[i] == bytes'[i]
      {
        assert Touches(m, s, a + i);
      }
      assert bytes == bytes';
    case Store(op, base, offset, data) =>
      assert Reads(m, base) || base == ZERO;
      assert ReadSrc(s, data) == ReadSrc(s', data);
  }

  /** Executing an operation changes exactly the registers it writes and the bytes it stores to. */
  lemma {:induction false} ExecFrame(isa: Isa, m: MicroOp, s: State)
    ensures forall k :: !Writes(m, k) ==> ReadReg(Exec(isa, m, s), k) == ReadReg(s, k)
    ensures forall a :: !(m.Store? && Touches(m, s, a)) ==> ReadByte(Exec(isa, m, s), a) == ReadByte(s, a)
    ensures forall k :: k in EffectOf(isa, m, s).regs <==> Writes(m, k)
    ensures forall a :: a in EffectOf(isa, m, s).mem <==> m.Store? && Touches(m, s, a)
  {
  }

  // ----- Commuting operations -----

  predicate RegIndependent(x: MicroOp, y: MicroOp) {
    && (x.Store? || x.dst.None? || (!Reads(y, x.dst.value) && !Writes(y, x.dst.value)))
    && (y.Store? || y.dst.None? || !Reads(x, y.dst.value))
  }

  ghost predicate MemIndependent(x: MicroOp, y: MicroOp, s: State) {
    (x.Store? && !y.Compute?) || (y.Store? && !x.Compute?) ==>
      forall a :: !(Touches(x, s, a) && Touches(y, s, a))
  }

  lemma {:induction false} IndependentKeepsEffect(isa: Isa, x: MicroOp, y: MicroOp, s: State)
    requires RegIndependent(x, y) && MemIndependent(x, y, s)
    ensures EffectOf(isa, y, Exec(isa, x, s)) == EffectOf(isa, y, s)
  {
    ExecFrame(isa, x, s);
    EffectFrame(isa, y, s, Exec(isa, x, s));
  }

  lemma {:induction false} DisjointUnionsCommute<K, V>(m: map<K, V>, a: map<K, V>, b: map<K, V>)
    requires forall k :: !(k in a && k in b)
    ensures m + a + b == m + b + a
  {
  }

  /** Operations with no register conflict and no overlapping store may be swapped. */
  lemma {:induction false} IndependentCommute(isa: Isa, x: MicroOp, y: MicroOp, s: State)
    requires RegIndependent(x, y) && MemIndependent(x, y, s)
    ensures Exec(isa, y, Exec(isa, x, s)) == Exec(isa, x, Exec(isa, y, s))
  {
    var ex, ey := EffectOf(isa, x, s), EffectOf(isa, y, s);
    IndependentKeepsEffect(isa, x, y, s);
    IndependentKeepsEffect(isa, y, x, s);
    ExecFrame(isa, x, s);
    ExecFrame(isa, y, s);
    DisjointUnionsCommute(s.regs, ex.regs, ey.regs);
    DisjointUnionsCommute(s.mem, ex.mem, ey.mem);
  }

  // ----- Decoding MIR -----

  function ValueSrc(cls: RegClass, v: Value): Src {
    match v
    case RegValue(r) => FromReg(RegKey(cls, r))
    case Imm(n) => Const(n)
    case Stack(n) => Const(n)
  }

  /** An absolute or stack address is an offset from r0, as in the emitted code. */
  function AddressBase(v: Value): RegKey {
    if v.RegValue? then RegKey(Gpr, v.reg) else ZERO
  }

  function AddressOffset(v: Value, offset: int): int {
    match v
    case RegValue(_) => offset
    case Imm(a) => a + offset
    case Stack(a) => a + offset
  }

  predicate LoadShape(srcs: seq<Value>) {
    |srcs| == 1 || (|srcs| == 2 && srcs[1].Imm?)
  }

  predicate StoreShape(srcs: seq<Value>) {
    |srcs| == 2 || (|srcs| == 3 && srcs[1].Imm?)
  }

  /**
   * The meaning of a MIR syllable.  Loads and stores of a shape that emission rejects are given a
   * register-only meaning, and so are `acqload`, `relstore`, `lea` and `prefetch`, which no pass produces.
   */
  function Decode(syl: Syllable): MicroOp {
    var srcs := syl.srcs;
    if IsLoad(syl.opcode) && LoadShape(srcs) then
      var offset := if |srcs| == 2 then srcs[1].imm else 0;
      Load(syl.opcode, DestRegKey(syl), AddressBase(srcs[0]), AddressOffset(srcs[0], offset))
    else if IsStore(syl.opcode) && StoreShape(srcs) then
      var offset := if |srcs| == 3 then srcs[1].imm else 0;
      Store(syl.opcode, AddressBase(srcs[0]), AddressOffset(srcs[0], offset), ValueSrc(Gpr, srcs[|srcs| - 1]))
    else
      Compute(syl.opcode, DestRegKey(syl), DecodeSrcs(SourceClass(syl.opcode), srcs))
  }

  function DecodeSrcs(cls: RegClass, srcs: seq<Value>): seq<Src> {
    seq(|srcs|, i requires 0 <= i < |srcs| => ValueSrc(cls, srcs[i]))
  }

  function DecodeAll(syls: seq<Syllable>): seq<MicroOp> {
    seq(|syls|, i requires 0 <= i < |syls| => Decode(syls[i]))
  }

  /** The backend reads the decoded operation's dependences off the syllable, r0 apart exactly. */
  lemma {:induction false} DecodeKeys(syl: Syllable, k: RegKey)
    ensures Reads(Decode(syl), k) <==> k != ZERO && ReadsKey(syl, k)
    ensures Writes(Decode(syl), k) <==> k != ZERO && WritesKey(syl, k)
  {
    var srcs, cls := syl.srcs, SourceClass(syl.opcode);
    if Decode(syl).Compute? {
      var args := DecodeSrcs(cls, srcs);
      assert forall i :: 0 <= i < |srcs| ==> args[i] == ValueSrc(cls, srcs[i]);
      if ReadsKey(syl, k) {
        var i :| 0 <= i < |srcs| && srcs[i] == RegValue(k.reg);
        assert args[i] == FromReg(k);
      }
    }
  }
}
