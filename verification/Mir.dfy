/** The machine intermediate representation the backend passes work on. */
module Mir {
  import opened Opcodes

  datatype Reg = VReg(v: nat) | PReg(p: nat)

  datatype Value = RegValue(reg: Reg) | Imm(imm: int) | Stack(addr: int)

  datatype Syllable = Syllable(opcode: Opcode, dst: Option<Reg>, srcs: seq<Value>)

  datatype Terminator =
    | BranchTo(cond: Reg, target: string)
    | JumpTo(target: string)
    | Return
    | DirectCall(callee: string, cont: string)

  datatype Block = Block(name: string, syllables: seq<Syllable>, terminator: Terminator)

  datatype Function = Function(name: string, blocks: seq<Block>)

  datatype RegClass = Gpr | Pred

  /** A register number means one register per class. */
  datatype RegKey = RegKey(cls: RegClass, reg: Reg)

  /** r0 reads as zero and discards writes. */
  const ZERO_REG: nat := 0
  const ZERO: RegKey := RegKey(Gpr, PReg(ZERO_REG))

  function DestRegKey(syl: Syllable): Option<RegKey> {
    if syl.dst.None? then None
    else if WritesGpr(syl.opcode) then Some(RegKey(Gpr, syl.dst.value))
    else if WritesPred(syl.opcode) then Some(RegKey(Pred, syl.dst.value))
    else None
  }

  function SourceClass(op: Opcode): RegClass {
    if PredicateSources(op) then Pred else Gpr
  }

  /** The register keys a syllable reads, in operand order. */
  function SourceRegKeys(syl: Syllable): (keys: seq<RegKey>)
    ensures forall k :: k in keys <==> ReadsKey(syl, k)
  {
    SourceKeysOf(SourceClass(syl.opcode), syl.srcs)
  }

  function SourceKeysOf(cls: RegClass, srcs: seq<Value>): (keys: seq<RegKey>)
    ensures forall k :: k in keys <==> k.cls == cls && RegValue(k.reg) in srcs
  {
    if srcs == [] then []
    else
      var rest := SourceKeysOf(cls, srcs[1..]);
      if srcs[0].RegValue? then [RegKey(cls, srcs[0].reg)] + rest else rest
  }

  predicate ReadsKey(syl: Syllable, k: RegKey) {
    k.cls == SourceClass(syl.opcode) && RegValue(k.reg) in syl.srcs
  }

  predicate WritesKey(syl: Syllable, k: RegKey) {
    DestRegKey(syl) == Some(k)
  }
}
