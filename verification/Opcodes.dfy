/** Opcode metadata shared by every pass: units, latency and write classes. */
module Opcodes {

  datatype Option<+T> = None | Some(value: T)

  datatype UnitKind = IntegerAlu | Memory | Control | Multiplier | FloatingPoint | Aes

  datatype Opcode =
    Add | Sub | And | Or | Xor | Shl | Srl | Sra |
    Mov | MovImm | CmpEq | CmpLt | CmpUlt | LoadB | LoadH | LoadW |
    LoadD | StoreB | StoreH | StoreW | StoreD | Lea | Prefetch | AcqLoad |
    RelStore | Mul | MulH | Branch | Jump | Call | Ret | PAnd |
    POr | PXor | PNot | FpAdd32 | FpMul32 | FpAdd64 | FpMul64 | AesEnc |
    AesDec | Nop

  /** Unit kinds whose slots can execute the opcode; empty for `Nop`, legal in every slot. */
  function Units(op: Opcode): seq<UnitKind> {
    match op
    case Add | Sub | And | Or | Xor | Shl | Srl | Sra | Mov | MovImm | CmpEq | CmpLt | CmpUlt => [IntegerAlu]
    case LoadB | LoadH | LoadW | LoadD | StoreB | StoreH | StoreW | StoreD
       | Lea | Prefetch | AcqLoad | RelStore => [Memory]
    case Branch | Jump | Call | Ret | PAnd | POr | PXor | PNot => [Control]
    case Mul | MulH => [Multiplier]
    case FpAdd32 | FpMul32 | FpAdd64 | FpMul64 => [FloatingPoint]
    case AesEnc | AesDec => [Aes]
    case Nop => []
  }

  /** Cycles from issue to the cycle in which a dependent read may issue. */
  function Latency(op: Opcode): nat {
    match op
    case LoadB | LoadH | LoadW | LoadD | AcqLoad | Mul | MulH => 3
    case FpAdd32 | FpMul32 | AesEnc | AesDec => 4
    case FpAdd64 | FpMul64 => 6
    case Nop => 0
    case _ => 1
  }

  predicate WritesGpr(op: Opcode) {
    op in {Add, Sub, And, Or, Xor, Shl, Srl, Sra, Mov, MovImm, Mul, MulH, Lea, LoadB, LoadH, LoadW, LoadD,
           AcqLoad, FpAdd32, FpMul32, FpAdd64, FpMul64, AesEnc, AesDec, Call}
  }

  predicate WritesPred(op: Opcode) {
    op in {CmpEq, CmpLt, CmpUlt, PAnd, POr, PXor, PNot}
  }

  predicate IsLoad(op: Opcode) { op in {LoadB, LoadH, LoadW, LoadD} }

  predicate IsStore(op: Opcode) { op in {StoreB, StoreH, StoreW, StoreD} }

  predicate IsMemoryOpcode(op: Opcode) { Units(op) == [Memory] }

  predicate IsTerminatorOpcode(op: Opcode) { op in {Ret, Jump, Branch, Call} }

  /** Opcodes whose register sources are predicate registers. */
  predicate PredicateSources(op: Opcode) { op in {PNot, PAnd, POr, PXor} }

  /** Bytes moved by a load or store. */
  function Width(op: Opcode): nat {
    match op
    case LoadB | StoreB => 1
    case LoadH | StoreH => 2
    case LoadW | StoreW => 4
    case _ => 8
  }

  function Mnemonic(op: Opcode): string {
    match op
    case Add => "add"
    case Sub => "sub"
    case And => "and"
    case Or => "or"
    case Xor => "xor"
    case Shl => "shl"
    case Srl => "srl"
    case Sra => "sra"
    case Mov => "mov"
    case MovImm => "movi"
    case CmpEq => "cmpeq"
    case CmpLt => "cmplt"
    case CmpUlt => "cmpult"
    case LoadB => "ldb"
    case LoadH => "ldh"
    case LoadW => "ldw"
    case LoadD => "ldd"
    case StoreB => "stb"
    case StoreH => "sth"
    case StoreW => "stw"
    case StoreD => "std"
    case Lea => "lea"
    case Prefetch => "prefetch"
    case AcqLoad => "acqload"
    case RelStore => "relstore"
    case Mul => "mul"
    case MulH => "mulh"
    case Branch => "br"
    case Jump => "jmp"
    case Call => "call"
    case Ret => "ret"
    case PAnd => "pand"
    case POr => "por"
    case PXor => "pxor"
    case PNot => "pnot"
    case FpAdd32 => "fpadd32"
    case FpMul32 => "fpmul32"
    case FpAdd64 => "fpadd64"
    case FpMul64 => "fpmul64"
    case AesEnc => "aesenc"
    case AesDec => "aesdec"
    case Nop => "nop"
  }

  const INTEGER_OPCODES: seq<Opcode> := [Add, Sub, And, Or, Xor, Shl, Srl, Sra, Mov, MovImm, CmpEq, CmpLt, CmpUlt, Mul, MulH]
  const MEMORY_OPCODES: seq<Opcode> := [LoadB, LoadH, LoadW, LoadD, StoreB, StoreH, StoreW, StoreD, Lea, Prefetch, AcqLoad, RelStore]
  const OTHER_OPCODES: seq<Opcode> := [Branch, Jump, Call, Ret, PAnd, POr, PXor, PNot, FpAdd32, FpMul32, FpAdd64, FpMul64, AesEnc, AesDec, Nop]
  const ALL_OPCODES: seq<Opcode> := INTEGER_OPCODES + MEMORY_OPCODES + OTHER_OPCODES

  /** The mnemonic table read backwards. */
  function FromMnemonic(s: string): (r: Option<Opcode>)
    ensures r.Some? ==> Mnemonic(r.value) == s
  {
    Lookup(s, ALL_OPCODES)
  }

  function Lookup(s: string, ops: seq<Opcode>): (r: Option<Opcode>)
    ensures r.Some? ==> Mnemonic(r.value) == s
  {
    if ops == [] then None
    else if Mnemonic(ops[|ops| - 1]) == s then Some(ops[|ops| - 1])
    else Lookup(s, ops[..|ops| - 1])
  }

  /** A number that tells all mnemonics apart, so that comparing numbers replaces comparing strings. */
  ghost function Fingerprint(s: string): int
    requires |s| >= 2
  {
    1 * |s| + 1 * s[0] as int + 1 * s[1] as int + 5 * s[|s| / 2] as int + 17 * s[|s| - 1] as int
  }

  ghost function Rank(op: Opcode): int {
    match op
    case Add => 2400
    case Sub => 2486
    case And => 2460
    case Or => 2735
    case Xor => 2727
    case Shl => 2578
    case Srl => 2638
    case Sra => 2451
    case Mov => 2784
    case MovImm => 2599
    case CmpEq => 2694
    case CmpLt => 2745
    case CmpUlt => 2771
    case LoadB => 2377
    case LoadH => 2479
    case LoadW => 2734
    case LoadD => 2411
    case StoreB => 2480
    case StoreH => 2582
    case StoreW => 2837
    case StoreD => 2514
    case Lea => 2366
    case Prefetch => 2507
    case AcqLoad => 2443
    case RelStore => 2520
    case Mul => 2650
    case MulH => 2538
    case Branch => 2722
    case Jump => 2667
    case Call => 2576
    case Ret => 2695
    case PAnd => 2463
    case POr => 2719
    case PXor => 2729
    case PNot => 2753
    case FpAdd32 => 1571
    case FpMul32 => 1656
    case FpAdd64 => 1605
    case FpMul64 => 1690
    case AesEnc => 2392
    case AesDec => 2387
    case Nop => 2683
  }

  lemma {:induction false} IntegerFingerprints(op: Opcode)
    requires Units(op) == [IntegerAlu] || Units(op) == [Multiplier]
    ensures |Mnemonic(op)| >= 2 && Fingerprint(Mnemonic(op)) == Rank(op)
  {
  }

  lemma {:induction false} MemoryFingerprints(op: Opcode)
    requires Units(op) == [Memory]
    ensures |Mnemonic(op)| >= 2 && Fingerprint(Mnemonic(op)) == Rank(op)
  {
  }

  lemma {:induction false} OtherFingerprints(op: Opcode)
    requires Units(op) in {[Control], [FloatingPoint], [Aes], []}
    ensures |Mnemonic(op)| >= 2 && Fingerprint(Mnemonic(op)) == Rank(op)
  {
  }

  lemma {:induction false} FingerprintIsRank(op: Opcode)
    ensures |Mnemonic(op)| >= 2 && Fingerprint(Mnemonic(op)) == Rank(op)
  {
    if Units(op) == [IntegerAlu] || Units(op) == [Multiplier] {
      IntegerFingerprints(op);
    } else if Units(op) == [Memory] {
      MemoryFingerprints(op);
    } else {
      OtherFingerprints(op);
    }
  }

  ghost function OfRank(n: int): Opcode {
    match n
    case 2400 => Add
    case 2486 => Sub
    case 2460 => And
    case 2735 => Or
    case 2727 => Xor
    case 2578 => Shl
    case 2638 => Srl
    case 2451 => Sra
    case 2784 => Mov
    case 2599 => MovImm
    case 2694 => CmpEq
    case 2745 => CmpLt
    case 2771 => CmpUlt
    case 2377 => LoadB
    case 2479 => LoadH
    case 2734 => LoadW
    case 2411 => LoadD
    case 2480 => StoreB
    case 2582 => StoreH
    case 2837 => StoreW
    case 2514 => StoreD
    case 2366 => Lea
    case 2507 => Prefetch
    case 2443 => AcqLoad
    case 2520 => RelStore
    case 2650 => Mul
    case 2538 => MulH
    case 2722 => Branch
    case 2667 => Jump
    case 2576 => Call
    case 2695 => Ret
    case 2463 => PAnd
    case 2719 => POr
    case 2729 => PXor
    case 2753 => PNot
    case 1571 => FpAdd32
    case 1656 => FpMul32
    case 1605 => FpAdd64
    case 1690 => FpMul64
    case 2392 => AesEnc
    case 2387 => AesDec
    case _ => Nop
  }

  lemma {:induction false} RankInverse(op: Opcode)
    ensures OfRank(Rank(op)) == op
  {
  }

  lemma {:induction false} MnemonicInjective(op: Opcode, op': Opcode)
    requires Mnemonic(op) == Mnemonic(op')
    ensures op == op'
  {
    FingerprintIsRank(op);
    FingerprintIsRank(op');
    RankInverse(op);
    RankInverse(op');
  }

  lemma {:induction false} LookupFinds(op: Opcode, ops: seq<Opcode>)
    requires op in ops
    ensures Lookup(Mnemonic(op), ops) == Some(op)
  {
    var n := |ops| - 1;
    if Mnemonic(ops[n]) == Mnemonic(op) {
      MnemonicInjective(ops[n], op);
    } else {
      LookupFinds(op, ops[..n]);
    }
  }

  lemma {:induction false} IntegerOpcodesListed(op: Opcode)
    requires Units(op) == [IntegerAlu] || Units(op) == [Multiplier]
    ensures op in INTEGER_OPCODES
  {
  }

  lemma {:induction false} MemoryOpcodesListed(op: Opcode)
    requires Units(op) == [Memory]
    ensures op in MEMORY_OPCODES
  {
  }

  lemma {:induction false} OtherOpcodesListed(op: Opcode)
    requires Units(op) in {[Control], [FloatingPoint], [Aes], []}
    ensures op in OTHER_OPCODES
  {
  }

  lemma {:induction false} AllOpcodesListed(op: Opcode)
    ensures op in ALL_OPCODES
  {
    if Units(op) == [IntegerAlu] || Units(op) == [Multiplier] {
      IntegerOpcodesListed(op);
    } else if Units(op) == [Memory] {
      MemoryOpcodesListed(op);
    } else {
      OtherOpcodesListed(op);
    }
  }

  /** The mnemonic table is one-to-one: reading a printed opcode gives that opcode back. */
  lemma {:induction false} MnemonicRoundTrip(op: Opcode)
    ensures FromMnemonic(Mnemonic(op)) == Some(op)
  {
    AllOpcodesListed(op);
    LookupFinds(op, ALL_OPCODES);
  }
}
