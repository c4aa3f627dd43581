/** The verifier and the ready tables look at just the registers a syllable uses. */
module VerifierExact {
  import opened Opcodes
  import opened Mir
  import opened Machine
  import opened Asm
  import opened AsmMeaning
  import opened BundleVerifier
  import opened Timing

  // ----- The registers an operation names, r0 among them -----

  predicate SourceIs(m: MicroOp, k: RegKey) {
    match m
    case Compute(_, _, args) => FromReg(k) in args
    case Load(_, _, base, _) => k == base
    case Store(_, base, _, data) => k == base || data == FromReg(k)
  }

  predicate DestIs(m: MicroOp, k: RegKey) {
    !m.Store? && m.dst == Some(k)
  }

  /** r0 apart these are the registers it reads and writes. */
  lemma {:induction false} NamedIsUsed(m: MicroOp, k: RegKey)
    ensures Reads(m, k) <==> k != ZERO && SourceIs(m, k)
    ensures Writes(m, k) <==> k != ZERO && DestIs(m, k)
  {
  }

  // ----- Operands -----

  /** An operand from `from` on is the register. */
  predicate OperandFrom(ops: seq<Operand>, from: nat, k: RegKey) {
    exists i :: from <= i < |ops| && OperandSrc(ops[i]) == FromReg(k)
  }

  lemma {:induction false} OperandFromNext(ops: seq<Operand>, from: nat, k: RegKey)
    requires from < |ops|
    ensures OperandFrom(ops, from, k) <==> OperandSrc(ops[from]) == FromReg(k) || OperandFrom(ops, from + 1, k)
  {
  }

  lemma {:induction false} CollectedReadsAre(ops: seq<Operand>, from: nat, n: nat)
    requires from <= |ops|
    ensures n in GprReadsFrom(ops, from, false) <==> OperandFrom(ops, from, RegKey(Gpr, PReg(n)))
    decreases |ops| - from
  {
    if from < |ops| {
      CollectedReadsAre(ops, from + 1, n);
      OperandFromNext(ops, from, RegKey(Gpr, PReg(n)));
    }
  }

  lemma {:induction false} SourceKeysAre(ops: seq<Operand>, from: nat, k: RegKey)
    requires from <= |ops|
    ensures k in SourceKeysFrom(ops, from, false, false) <==> OperandFrom(ops, from, k)
    decreases |ops| - from
  {
    if from < |ops| {
      SourceKeysAre(ops, from + 1, k);
      OperandFromNext(ops, from, k);
    }
  }

  /** The operands behind the destination. */
  function FirstSource(op: Opcode): nat {
    if WritesGpr(op) || WritesPred(op) then 1 else 0
  }

  lemma {:induction false} ComputedSources(ops: seq<Operand>, from: nat, k: RegKey)
    requires from <= |ops|
    ensures FromReg(k) in OperandSrcs(ops[from..]) <==> OperandFrom(ops, from, k)
  {
    var args := OperandSrcs(ops[from..]);
    if FromReg(k) in args {
      var i :| 0 <= i < |args| && args[i] == FromReg(k);
      assert OperandSrc(ops[from + i]) == FromReg(k);
    }
    if OperandFrom(ops, from, k) {
      var i :| from <= i < |ops| && OperandSrc(ops[i]) == FromReg(k);
      assert args[i - from] == FromReg(k);
    }
  }

  lemma {:induction false} OperandsOfPair(ops: seq<Operand>, from: nat, k: RegKey)
    requires |ops| == 2 && from <= 1
    ensures OperandFrom(ops, from, k) <==> (from == 0 && OperandSrc(ops[0]) == FromReg(k)) || OperandSrc(ops[1]) == FromReg(k)
  {
    OperandFromNext(ops, 1, k);
    if from == 0 { OperandFromNext(ops, 0, k); }
  }

  lemma {:induction false} DecodedSources(syl: AsmSyllable, k: RegKey)
    requires WellFormed(syl)
    ensures SourceIs(DecodeAsm(syl), k) <==> OperandFrom(syl.operands, FirstSource(OpcodeOf(syl).value), k)
  {
    var op, ops := OpcodeOf(syl).value, syl.operands;
    var from := FirstSource(op);
    match DecodeAsm(syl)
    case Compute(_, _, _) =>
      ComputedSources(ops, from, k);
      assert from == 0 ==> ops[from..] == ops;
    case Load(_, _, _, _) => OperandsOfPair(ops, from, k);
    case Store(_, _, _, _) => OperandsOfPair(ops, from, k);
  }

  /** The general registers the verifier collects are those the decoded operation names, no more and no fewer. */
  lemma {:induction false} CollectedExactlyWhen(syl: AsmSyllable, n: nat)
    requires WellFormed(syl)
    ensures var op, k := OpcodeOf(syl).value, RegKey(Gpr, PReg(n));
            && (n in GprWrites(op, syl.operands) <==> DestIs(DecodeAsm(syl), k))
            && (n in GprReads(op, syl.operands) <==> SourceIs(DecodeAsm(syl), k))
  {
    var op, ops, k := OpcodeOf(syl).value, syl.operands, RegKey(Gpr, PReg(n));
    DecodedSources(syl, k);
    CollectedReadsAre(ops, FirstSource(op), n);
    assert GprReads(op, ops) == GprReadsFrom(ops, FirstSource(op), false);
  }

  /** So are the registers whose results a syllable waits for. */
  lemma {:induction false} SourceKeysExactlyWhen(syl: AsmSyllable, k: RegKey)
    requires WellFormed(syl)
    ensures k in SourceKeys(OpcodeOf(syl).value, syl.operands) <==> SourceIs(DecodeAsm(syl), k)
    ensures AsmDest(OpcodeOf(syl).value, syl.operands) == Some(k) <==> DestIs(DecodeAsm(syl), k)
  {
    var op, ops := OpcodeOf(syl).value, syl.operands;
    DecodedSources(syl, k);
    SourceKeysAre(ops, FirstSource(op), k);
    assert SourceKeys(op, ops) == SourceKeysFrom(ops, FirstSource(op), false, false);
  }

  // ----- Which bundles are accepted -----

  /** x writes a general register that y names; r0 counts. */
  ghost predicate Clash(x: MicroOp, y: MicroOp) {
    exists k: RegKey :: k.cls == Gpr && DestIs(x, k) && (DestIs(y, k) || SourceIs(y, k))
  }

  predicate SlotsWellFormed(b: Bundle, width: nat) {
    forall i :: 0 <= i < |b| && i < width && b[i].Some? ==> WellFormed(b[i].value)
  }

  /** The syllable is known and its slot executes it. */
  predicate Supported(proc: Processor, b: Bundle, slot: nat) {
    slot < |b| && b[slot].Some? ==> OpcodeOf(b[slot].value).Some? && SlotSupports(proc, slot, OpcodeOf(b[slot].value).value)
  }

  predicate SlotsSupported(proc: Processor, b: Bundle) {
    forall slot: nat :: slot < proc.width ==> Supported(proc, b, slot)
  }

  ghost predicate NoClash(b: Bundle, width: nat) {
    forall i, j :: 0 <= i < |b| && 0 <= j < |b| && i < width && j < width && i != j && b[i].Some? && b[j].Some? ==>
      !Clash(DecodeAsm(b[i].value), DecodeAsm(b[j].value))
  }

  lemma {:induction false} AtSlot(b: Bundle, width: nat, slot: nat, n: nat)
    requires SlotsWellFormed(b, width) && slot < width
    ensures WritesAt(b, slot, n) <==> slot < |b| && b[slot].Some? && DestIs(DecodeAsm(b[slot].value), RegKey(Gpr, PReg(n)))
    ensures ReadsAt(b, slot, n) <==> slot < |b| && b[slot].Some? && SourceIs(DecodeAsm(b[slot].value), RegKey(Gpr, PReg(n)))
  {
    if slot < |b| && b[slot].Some? {
      CollectedExactlyWhen(b[slot].value, n);
    }
  }

  lemma {:induction false} GprDest(syl: AsmSyllable, k: RegKey)
    requires DestIs(DecodeAsm(syl), k)
    ensures k.reg.PReg?
  {
  }

  lemma {:induction false} HazardFreeExactlyWhen(b: Bundle, width: nat)
    requires SlotsWellFormed(b, width)
    ensures HazardFree(b, width) <==> NoClash(b, width)
  {
    forall i: nat, n: nat | i < width
      ensures WritesAt(b, i, n) <==> i < |b| && b[i].Some? && DestIs(DecodeAsm(b[i].value), RegKey(Gpr, PReg(n)))
      ensures ReadsAt(b, i, n) <==> i < |b| && b[i].Some? && SourceIs(DecodeAsm(b[i].value), RegKey(Gpr, PReg(n)))
    {
      AtSlot(b, width, i, n);
    }
    if HazardFree(b, width) {
      forall i: nat, j: nat | i < |b| && j < |b| && i < width && j < width && i != j && b[i].Some? && b[j].Some?
        ensures !Clash(DecodeAsm(b[i].value), DecodeAsm(b[j].value))
      {
        NoClashAt(b, width, i, j);
      }
    }
    if NoClash(b, width) {
      forall i: nat, j: nat, n: nat | i < width && j < width && i != j && WritesAt(b, i, n)
        ensures !WritesAt(b, j, n) && !ReadsAt(b, j, n)
      {
        HazardIsClash(b, width, i, j, n);
      }
    }
  }

  lemma {:induction false} NoClashAt(b: Bundle, width: nat, i: nat, j: nat)
    requires SlotsWellFormed(b, width) && HazardFree(b, width)
    requires i < |b| && j < |b| && i < width && j < width && i != j && b[i].Some? && b[j].Some?
    ensures !Clash(DecodeAsm(b[i].value), DecodeAsm(b[j].value))
  {
    var x, y := DecodeAsm(b[i].value), DecodeAsm(b[j].value);
    if Clash(x, y) {
      var k: RegKey :| k.cls == Gpr && DestIs(x, k) && (DestIs(y, k) || SourceIs(y, k));
      GprDest(b[i].value, k);
      AtSlot(b, width, i, k.reg.p);
      AtSlot(b, width, j, k.reg.p);
    }
  }

  lemma {:induction false} HazardIsClash(b: Bundle, width: nat, i: nat, j: nat, n: nat)
    requires SlotsWellFormed(b, width) && NoClash(b, width) && i < width && j < width && i != j && WritesAt(b, i, n)
    ensures !WritesAt(b, j, n) && !ReadsAt(b, j, n)
  {
    AtSlot(b, width, i, n);
    AtSlot(b, width, j, n);
    var k := RegKey(Gpr, PReg(n));
    assert j < |b| && b[j].Some? ==> !Clash(DecodeAsm(b[i].value), DecodeAsm(b[j].value));
  }

  /**
   * Bundles of well-formed syllables are accepted exactly when every syllable stands in a slot that executes it and
   * no operation writes a general register, r0 included, that another one names.
   */
  lemma {:induction false} LegalExactlyWhen(proc: Processor, b: Bundle)
    requires SlotsWellFormed(b, proc.width)
    ensures LegalBundle(proc, b) <==> SlotsSupported(proc, b) && NoClash(b, proc.width)
  {
    HazardFreeExactlyWhen(b, proc.width);
    SlotsLegalExactlyWhen(proc, b);
  }

  lemma {:induction false} SlotsLegalExactlyWhen(proc: Processor, b: Bundle)
    ensures (forall slot: nat :: slot < proc.width ==> SlotLegal(proc, b, slot)) <==> SlotsSupported(proc, b)
  {
    forall slot: nat | slot < proc.width
      ensures SlotLegal(proc, b, slot) <==> Supported(proc, b, slot)
    {
    }
  }

  /** Neither writes r0 where the other names it. */
  ghost predicate ApartOnZero(x: MicroOp, y: MicroOp) {
    !(DestIs(x, ZERO) && (DestIs(y, ZERO) || SourceIs(y, ZERO))) && !(DestIs(y, ZERO) && SourceIs(x, ZERO))
  }

  /** Operations in supporting slots, pairwise apart on the general registers and on r0, are accepted. */
  lemma {:induction false} ApartIsAccepted(proc: Processor, b: Bundle)
    requires SlotsWellFormed(b, proc.width) && SlotsSupported(proc, b)
    requires forall i, j :: 0 <= i < |b| && 0 <= j < |b| && i != j && b[i].Some? && b[j].Some? ==>
               ApartOn(Gpr, DecodeAsm(b[i].value), DecodeAsm(b[j].value)) && ApartOnZero(DecodeAsm(b[i].value), DecodeAsm(b[j].value))
    ensures LegalBundle(proc, b)
  {
    forall i, j | 0 <= i < |b| && 0 <= j < |b| && i != j && b[i].Some? && b[j].Some?
      ensures !Clash(DecodeAsm(b[i].value), DecodeAsm(b[j].value))
    {
      ApartHasNoClash(DecodeAsm(b[i].value), DecodeAsm(b[j].value));
    }
    LegalExactlyWhen(proc, b);
  }

  lemma {:induction false} ApartHasNoClash(x: MicroOp, y: MicroOp)
    requires ApartOn(Gpr, x, y) && ApartOnZero(x, y)
    ensures !Clash(x, y)
  {
    if Clash(x, y) {
      var k: RegKey :| k.cls == Gpr && DestIs(x, k) && (DestIs(y, k) || SourceIs(y, k));
      NamedIsUsed(x, k);
      NamedIsUsed(y, k);
    }
  }

  // ----- Units -----

  /** The last declaration of the name with a known kind. */
  predicate Declares(units: seq<UnitDecl>, i: int, name: string, kind: UnitKind) {
    && 0 <= i < |units| && units[i].name == name && UnitKindOf(units[i].kind) == Some(kind)
    && forall j :: i < j < |units| && units[j].name == name ==> UnitKindOf(units[j].kind).None?
  }

  lemma {:induction false} DeclaresLast(units: seq<UnitDecl>, i: int, name: string, kind: UnitKind)
    requires units != []
    ensures var n := |units| - 1; var known := units[n].name == name && UnitKindOf(units[n].kind).Some?;
            Declares(units, i, name, kind) <==>
              if known then i == n && UnitKindOf(units[n].kind) == Some(kind) else Declares(units[..n], i, name, kind)
  {
  }

  lemma {:induction false} UnitExactlyWhen(units: seq<UnitDecl>, name: string, kind: UnitKind)
    ensures name in UnitKinds(units) && UnitKinds(units)[name] == kind <==> exists i :: Declares(units, i, name, kind)
  {
    if units != [] {
      var n := |units| - 1;
      UnitExactlyWhen(units[..n], name, kind);
      forall i
        ensures Declares(units, i, name, kind) <==>
                  if units[n].name == name && UnitKindOf(units[n].kind).Some? then i == n && UnitKindOf(units[n].kind) == Some(kind)
                  else Declares(units[..n], i, name, kind)
      {
        DeclaresLast(units, i, name, kind);
      }
      DeclaresLast(units, n, name, kind);
    }
  }
}
