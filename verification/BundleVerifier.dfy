/** The in-bundle hazard verifier. */
module BundleVerifier {
  import opened Opcodes
  import opened Mir
  import opened Machine
  import opened Asm
  import opened AsmMeaning

  datatype HazardError =
    | UnknownOpcode(slot: nat, mnemonic: string)
    | IllegalSlot(slot: nat, mnemonic: string)
    | Waw(reg: nat, first: nat, second: nat)
    | Raw(reg: nat, writer: nat, reader: nat)

  datatype Verdict = Accepted | Rejected(error: HazardError)

  // ----- Reads and writes of a syllable -----

  /** The general register a syllable writes: its first operand, if the opcode writes one. */
  function GprWrites(op: Opcode, ops: seq<Operand>): seq<nat> {
    if WritesGpr(op) && ops != [] && ops[0].RegOp? then [ops[0].r] else []
  }

  /** The general registers read; the first register operand is left out when it is the destination. */
  function GprReadsFrom(ops: seq<Operand>, i: nat, skip: bool): seq<nat>
    requires i <= |ops|
    decreases |ops| - i
  {
    if i == |ops| then []
    else match ops[i]
      case RegOp(n) => (if skip then [] else [n]) + GprReadsFrom(ops, i + 1, false)
      case MemAddr(base, _) => [base] + GprReadsFrom(ops, i + 1, skip)
      case _ => GprReadsFrom(ops, i + 1, skip)
  }

  function GprReads(op: Opcode, ops: seq<Operand>): seq<nat> {
    GprReadsFrom(ops, 0, WritesGpr(op))
  }

  // ----- What a legal bundle is -----

  function InSlot(b: Bundle, slot: nat): Option<AsmSyllable> {
    if slot < |b| then b[slot] else None
  }

  /** The operation in a slot, if there is one that does something. */
  function Operation(b: Bundle, slot: nat): Option<Opcode> {
    match InSlot(b, slot)
    case Some(syl) => if OpcodeOf(syl) == Some(Nop) then None else OpcodeOf(syl)
    case None => None
  }

  predicate WritesAt(b: Bundle, slot: nat, reg: nat) {
    Operation(b, slot).Some? && reg in GprWrites(Operation(b, slot).value, b[slot].value.operands)
  }

  predicate ReadsAt(b: Bundle, slot: nat, reg: nat) {
    Operation(b, slot).Some? && reg in GprReads(Operation(b, slot).value, b[slot].value.operands)
  }

  predicate SlotLegal(proc: Processor, b: Bundle, slot: nat) {
    InSlot(b, slot).Some? ==>
      OpcodeOf(b[slot].value).Some? && (Operation(b, slot).Some? ==> SlotHasUnitFor(proc, slot, Operation(b, slot).value))
  }

  ghost predicate HazardFree(b: Bundle, width: nat) {
    && (forall i: nat, j: nat, r: nat :: i < j < width && WritesAt(b, i, r) ==> !WritesAt(b, j, r))
    && (forall i: nat, j: nat, r: nat :: i < width && j < width && i != j && WritesAt(b, i, r) ==> !ReadsAt(b, j, r))
  }

  ghost predicate LegalBundle(proc: Processor, b: Bundle) {
    (forall slot :: 0 <= slot < proc.width ==> SlotLegal(proc, b, slot)) && HazardFree(b, proc.width)
  }

  /** An error names a hazard that is really there. */
  ghost predicate IsHazard(proc: Processor, b: Bundle, e: HazardError) {
    match e
    case UnknownOpcode(slot, m) => slot < proc.width && InSlot(b, slot).Some? && b[slot].value.opcode == m && FromMnemonic(m).None?
    case IllegalSlot(slot, m) =>
      && slot < proc.width && Operation(b, slot).Some? && b[slot].value.opcode == m
      && !SlotHasUnitFor(proc, slot, Operation(b, slot).value)
    case Waw(r, i, j) => i < j < proc.width && WritesAt(b, i, r) && WritesAt(b, j, r)
    case Raw(r, i, j) => i < proc.width && j < proc.width && i != j && WritesAt(b, i, r) && ReadsAt(b, j, r)
  }

  // ----- The checks -----

  ghost predicate CollectedWrites(b: Bundle, n: nat, writes: seq<(nat, nat)>) {
    && (forall r: nat, slot: nat :: (r, slot) in writes <==> 0 <= slot < n && WritesAt(b, slot, r))
    && (forall p, q :: 0 <= p < q < |writes| ==> writes[p].1 < writes[q].1)
  }

  ghost predicate CollectedReads(b: Bundle, n: nat, reads_: seq<(nat, nat)>) {
    forall r: nat, slot: nat :: (r, slot) in reads_ <==> 0 <= slot < n && ReadsAt(b, slot, r)
  }

  function Tagged(regs: seq<nat>, slot: nat): (r: seq<(nat, nat)>)
    ensures forall n, s :: (n, s) in r <==> n in regs && s == slot
  {
    if regs == [] then [] else [(regs[0], slot)] + Tagged(regs[1..], slot)
  }

  lemma {:induction false} CollectNothing(b: Bundle, n: nat, writes: seq<(nat, nat)>, reads_: seq<(nat, nat)>)
    requires CollectedWrites(b, n, writes) && CollectedReads(b, n, reads_) && Operation(b, n).None?
    ensures CollectedWrites(b, n + 1, writes) && CollectedReads(b, n + 1, reads_)
  {
  }

  lemma {:induction false} CollectWrites(b: Bundle, n: nat, writes: seq<(nat, nat)>)
    requires CollectedWrites(b, n, writes) && Operation(b, n).Some?
    ensures CollectedWrites(b, n + 1, writes + Tagged(GprWrites(Operation(b, n).value, b[n].value.operands), n))
  {
    var more := Tagged(GprWrites(Operation(b, n).value, b[n].value.operands), n);
    assert |more| <= 1 && forall e :: e in more ==> e.1 == n;
    assert forall p :: 0 <= p < |writes| ==> (writes[p].0, writes[p].1) in writes;
  }

  lemma {:induction false} CollectReads(b: Bundle, n: nat, reads_: seq<(nat, nat)>)
    requires CollectedReads(b, n, reads_) && Operation(b, n).Some?
    ensures CollectedReads(b, n + 1, reads_ + Tagged(GprReads(Operation(b, n).value, b[n].value.operands), n))
  {
  }

  lemma {:induction false} CollectStep(b: Bundle, n: nat, writes: seq<(nat, nat)>, reads_: seq<(nat, nat)>)
    requires CollectedWrites(b, n, writes) && CollectedReads(b, n, reads_)
    ensures Operation(b, n).None? ==> CollectedWrites(b, n + 1, writes) && CollectedReads(b, n + 1, reads_)
    ensures Operation(b, n).Some? ==>
              var op, ops := Operation(b, n).value, b[n].value.operands;
              && CollectedWrites(b, n + 1, writes + Tagged(GprWrites(op, ops), n))
              && CollectedReads(b, n + 1, reads_ + Tagged(GprReads(op, ops), n))
  {
    if Operation(b, n).Some? {
      CollectWrites(b, n, writes);
      CollectReads(b, n, reads_);
    } else {
      CollectNothing(b, n, writes, reads_);
    }
  }

  method CollectSlots(proc: Processor, b: Bundle) returns (r: Verdict, writes: seq<(nat, nat)>, reads_: seq<(nat, nat)>)
    ensures r.Rejected? ==> IsHazard(proc, b, r.error)
    ensures r.Accepted? ==> forall slot :: 0 <= slot < proc.width ==> SlotLegal(proc, b, slot)
    ensures r.Accepted? ==> CollectedWrites(b, proc.width, writes) && CollectedReads(b, proc.width, reads_)
  {
    writes, reads_ := [], [];
    for slot := 0 to proc.width
      invariant forall q :: 0 <= q < slot ==> SlotLegal(proc, b, q)
      invariant CollectedWrites(b, slot, writes) && CollectedReads(b, slot, reads_)
    {
      CollectStep(b, slot, writes, reads_);
      if InSlot(b, slot).None? {
        continue;
      }
      var syl := b[slot].value;
      if OpcodeOf(syl).None? {
        return Rejected(UnknownOpcode(slot, syl.opcode)), writes, reads_;
      }
      var op := OpcodeOf(syl).value;
      if op == Nop {
        continue;
      }
      if !SlotHasUnitFor(proc, slot, op) {
        return Rejected(IllegalSlot(slot, syl.opcode)), writes, reads_;
      }
      writes := writes + Tagged(GprWrites(op, syl.operands), slot);
      reads_ := reads_ + Tagged(GprReads(op, syl.operands), slot);
    }
    r := Accepted;
  }

  predicate AllDifferent(writes: seq<(nat, nat)>) {
    forall p, q :: 0 <= p < q < |writes| ==> writes[p].0 != writes[q].0
  }

  predicate NoneMeets(writes: seq<(nat, nat)>, reads_: seq<(nat, nat)>, n: nat)
    requires n <= |reads_|
  {
    forall p, q :: 0 <= p < n && 0 <= q < |writes| ==> !Meets(reads_[p], writes[q])
  }

  /** The same register in different slots. */
  predicate Meets(read: (nat, nat), write: (nat, nat)) {
    read.0 == write.0 && read.1 != write.1
  }

  lemma {:induction false} OneEntry(writes: seq<(nat, nat)>, n: nat, i: nat, j: nat)
    requires AllDifferent(writes) && (n, i) in writes && (n, j) in writes
    ensures i == j
  {
    var p :| 0 <= p < |writes| && writes[p] == (n, i);
    var q :| 0 <= q < |writes| && writes[q] == (n, j);
  }

  lemma {:induction false} DifferentIsWawFree(b: Bundle, width: nat, writes: seq<(nat, nat)>, i: nat, j: nat, n: nat)
    requires CollectedWrites(b, width, writes) && AllDifferent(writes) && i < j < width && WritesAt(b, i, n)
    ensures !WritesAt(b, j, n)
  {
    if (n, j) in writes {
      OneEntry(writes, n, i, j);
    }
  }

  lemma {:induction false} ApartIsRawFree(b: Bundle, width: nat, writes: seq<(nat, nat)>, reads_: seq<(nat, nat)>, i: nat, j: nat, n: nat)
    requires CollectedWrites(b, width, writes) && CollectedReads(b, width, reads_) && NoneMeets(writes, reads_, |reads_|)
    requires i < width && j < width && i != j && WritesAt(b, i, n)
    ensures !ReadsAt(b, j, n)
  {
    assert (n, i) in writes;
    var q :| 0 <= q < |writes| && writes[q] == (n, i);
    assert forall p :: 0 <= p < |reads_| ==> !Meets(reads_[p], writes[q]);
  }

  /** Two entries for one register, if there are any. */
  method FindSameWrite(writes: seq<(nat, nat)>) returns (r: Option<(nat, nat)>)
    ensures r.None? ==> AllDifferent(writes)
    ensures r.Some? ==> r.value.0 < r.value.1 < |writes| && writes[r.value.0].0 == writes[r.value.1].0
  {
    for i := 0 to |writes|
      invariant forall p, q :: 0 <= p < i && p < q < |writes| ==> writes[p].0 != writes[q].0
    {
      for j := i + 1 to |writes|
        invariant forall q :: i < q < j ==> writes[i].0 != writes[q].0
      {
        if writes[i].0 == writes[j].0 {
          return Some((i, j));
        }
      }
    }
    r := None;
  }

  /** A read and a write that meet, if there are any. */
  method FindMeeting(writes: seq<(nat, nat)>, reads_: seq<(nat, nat)>) returns (r: Option<(nat, nat)>)
    ensures r.None? ==> NoneMeets(writes, reads_, |reads_|)
    ensures r.Some? ==> r.value.0 < |reads_| && r.value.1 < |writes| && Meets(reads_[r.value.0], writes[r.value.1])
  {
    for i := 0 to |reads_|
      invariant NoneMeets(writes, reads_, i)
    {
      for j := 0 to |writes|
        invariant forall q :: 0 <= q < j ==> !Meets(reads_[i], writes[q])
      {
        if Meets(reads_[i], writes[j]) {
          return Some((i, j));
        }
      }
    }
    r := None;
  }

  lemma {:induction false} EntryWrites(b: Bundle, width: nat, writes: seq<(nat, nat)>, i: nat)
    requires CollectedWrites(b, width, writes) && i < |writes|
    ensures writes[i].1 < width && WritesAt(b, writes[i].1, writes[i].0)
  {
    assert (writes[i].0, writes[i].1) in writes;
  }

  lemma {:induction false} EntryReads(b: Bundle, width: nat, reads_: seq<(nat, nat)>, i: nat)
    requires CollectedReads(b, width, reads_) && i < |reads_|
    ensures reads_[i].1 < width && ReadsAt(b, reads_[i].1, reads_[i].0)
  {
    assert (reads_[i].0, reads_[i].1) in reads_;
  }

  method CheckWaw(b: Bundle, width: nat, writes: seq<(nat, nat)>) returns (r: Verdict)
    requires CollectedWrites(b, width, writes)
    ensures r.Rejected? ==> r.error.Waw? && r.error.first < r.error.second < width
                            && WritesAt(b, r.error.first, r.error.reg) && WritesAt(b, r.error.second, r.error.reg)
    ensures r.Accepted? ==> AllDifferent(writes)
  {
    var found := FindSameWrite(writes);
    if found.None? {
      return Accepted;
    }
    var (i, j) := found.value;
    EntryWrites(b, width, writes, i);
    EntryWrites(b, width, writes, j);
    r := Rejected(Waw(writes[i].0, writes[i].1, writes[j].1));
  }

  method CheckRaw(b: Bundle, width: nat, writes: seq<(nat, nat)>, reads_: seq<(nat, nat)>) returns (r: Verdict)
    requires CollectedWrites(b, width, writes) && CollectedReads(b, width, reads_)
    ensures r.Rejected? ==> r.error.Raw? && r.error.writer < width && r.error.reader < width && r.error.writer != r.error.reader
                            && WritesAt(b, r.error.writer, r.error.reg) && ReadsAt(b, r.error.reader, r.error.reg)
    ensures r.Accepted? ==> NoneMeets(writes, reads_, |reads_|)
  {
    var found := FindMeeting(writes, reads_);
    if found.None? {
      return Accepted;
    }
    var (i, j) := found.value;
    EntryReads(b, width, reads_, i);
    EntryWrites(b, width, writes, j);
    r := Rejected(Raw(reads_[i].0, writes[j].1, reads_[i].1));
  }

  lemma {:induction false} CheckedIsHazardFree(b: Bundle, width: nat, writes: seq<(nat, nat)>, reads_: seq<(nat, nat)>)
    requires CollectedWrites(b, width, writes) && CollectedReads(b, width, reads_)
    requires AllDifferent(writes) && NoneMeets(writes, reads_, |reads_|)
    ensures HazardFree(b, width)
  {
    forall i: nat, j: nat, r: nat | i < j < width && WritesAt(b, i, r)
      ensures !WritesAt(b, j, r)
    {
      DifferentIsWawFree(b, width, writes, i, j, r);
    }
    forall i: nat, j: nat, r: nat | i < width && j < width && i != j && WritesAt(b, i, r)
      ensures !ReadsAt(b, j, r)
    {
      ApartIsRawFree(b, width, writes, reads_, i, j, r);
    }
  }

  method CheckHazards(proc: Processor, b: Bundle, writes: seq<(nat, nat)>, reads_: seq<(nat, nat)>) returns (r: Verdict)
    requires CollectedWrites(b, proc.width, writes) && CollectedReads(b, proc.width, reads_)
    ensures r.Rejected? ==> IsHazard(proc, b, r.error)
    ensures r.Accepted? ==> HazardFree(b, proc.width)
  {
    r := CheckWaw(b, proc.width, writes);
    if r.Accepted? {
      r := CheckRaw(b, proc.width, writes, reads_);
      if r.Accepted? {
        CheckedIsHazardFree(b, proc.width, writes, reads_);
      }
    }
  }

  /** The verifier accepts exactly the legal bundles, and its error names a real hazard. */
  method VerifyBundle(proc: Processor, b: Bundle) returns (r: Verdict)
    ensures r.Accepted? <==> LegalBundle(proc, b)
    ensures r.Rejected? ==> IsHazard(proc, b, r.error)
  {
    var writes, reads_;
    r, writes, reads_ := CollectSlots(proc, b);
    if r.Accepted? {
      r := CheckHazards(proc, b, writes, reads_);
    }
    if r.Rejected? {
      HazardIsIllegal(proc, b, r.error);
    }
  }

  lemma {:induction false} HazardIsIllegal(proc: Processor, b: Bundle, e: HazardError)
    requires IsHazard(proc, b, e)
    ensures !LegalBundle(proc, b)
  {
    match e
    case UnknownOpcode(slot, _) => assert !SlotLegal(proc, b, slot);
    case IllegalSlot(slot, _) => assert !SlotLegal(proc, b, slot);
    case Waw(_, _, _) =>
    case Raw(_, _, _) =>
  }

  ghost predicate LegalItems(proc: Processor, items: seq<Item>) {
    forall i :: 0 <= i < |items| && items[i].BundleItem? ==> LegalBundle(proc, items[i].bundle)
  }

  lemma {:induction false} LegalPush(proc: Processor, items: seq<Item>, n: nat)
    requires n < |items| && LegalItems(proc, items[..n]) && (items[n].BundleItem? ==> LegalBundle(proc, items[n].bundle))
    ensures LegalItems(proc, items[..n + 1])
  {
    forall i | 0 <= i < n + 1 && items[i].BundleItem?
      ensures LegalBundle(proc, items[i].bundle)
    {
      assert i < n ==> items[..n][i] == items[i];
    }
  }

  method VerifyProgram(program: Program) returns (r: Verdict)
    ensures r.Accepted? <==> LegalItems(program.processor, program.items)
  {
    var proc, items := program.processor, program.items;
    for i := 0 to |items|
      invariant LegalItems(proc, items[..i])
    {
      if items[i].BundleItem? {
        r := VerifyBundle(proc, items[i].bundle);
        if r.Rejected? {
          return r;
        }
      }
      LegalPush(proc, items, i);
    }
    r := Accepted;
    assert items[..|items|] == items;
  }

  // ----- What acceptance means for execution -----

  /** Operands in the shape every pass emits: the destination comes first. */
  predicate WellFormed(syl: AsmSyllable) {
    match OpcodeOf(syl)
    case None => false
    case Some(op) =>
      && (WritesGpr(op) ==> syl.operands != [] && syl.operands[0].RegOp?)
      && (WritesPred(op) ==> syl.operands != [] && syl.operands[0].PredOp?)
      && (op == Nop ==> syl.operands == [])
  }

  lemma {:induction false} ReadsAreCollected(ops: seq<Operand>, from: nat, i: nat, n: nat)
    requires from <= i < |ops| && (ops[i] == RegOp(n) || (ops[i].MemAddr? && ops[i].base == n))
    ensures n in GprReadsFrom(ops, from, false)
    decreases i - from
  {
    if from < i {
      ReadsAreCollected(ops, from + 1, i, n);
    }
  }

  /** The general registers the meaning of a syllable reads and writes are those the verifier looks at. */
  lemma {:induction false} VerifierSeesGprs(syl: AsmSyllable, n: nat)
    requires WellFormed(syl)
    ensures var op, k := OpcodeOf(syl).value, RegKey(Gpr, PReg(n));
            && (Writes(DecodeAsm(syl), k) ==> n in GprWrites(op, syl.operands))
            && (Reads(DecodeAsm(syl), k) ==> n in GprReads(op, syl.operands))
  {
    var op, ops, m, k := OpcodeOf(syl).value, syl.operands, DecodeAsm(syl), RegKey(Gpr, PReg(n));
    if Reads(m, k) {
      var first := if AsmDest(op, ops).Some? then 1 else 0;
      assert GprReads(op, ops) == GprReadsFrom(ops, first, false);
      match m
      case Compute(_, _, args) =>
        var i :| 0 <= i < |args| && args[i] == FromReg(k);
        ReadsAreCollected(ops, first, first + i, n);
      case Load(_, _, _, _) =>
        ReadsAreCollected(ops, first, 1, n);
      case Store(_, base, _, data) =>
        ReadsAreCollected(ops, first, if base == k then 0 else 1, n);
    }
  }

  /** Both use one predicate register and at least one of them writes it. */
  ghost predicate PredConflict(x: MicroOp, y: MicroOp) {
    exists k: RegKey :: k.cls == Pred && ((Writes(x, k) && (Reads(y, k) || Writes(y, k))) || (Reads(x, k) && Writes(y, k)))
  }

  /** What the verifier does not look at: predicates and memory. */
  ghost predicate NoHiddenConflict(x: MicroOp, y: MicroOp) {
    !PredConflict(x, y) && MemApart(x, y)
  }

  /** Neither reads or writes a register of the class that the other writes. */
  ghost predicate ApartOn(cls: RegClass, x: MicroOp, y: MicroOp) {
    forall k: RegKey :: k.cls == cls ==> !(Writes(x, k) && (Reads(y, k) || Writes(y, k))) && !(Reads(x, k) && Writes(y, k))
  }

  /** The syllables in two slots of an accepted bundle are apart on the general registers. */
  lemma {:induction false} SlotsApartOnGprs(b: Bundle, width: nat, i: nat, j: nat)
    requires HazardFree(b, width) && i < |b| <= width && j < |b| && i != j && b[i].Some? && b[j].Some?
    requires WellFormed(b[i].value) && WellFormed(b[j].value)
    ensures ApartOn(Gpr, DecodeAsm(b[i].value), DecodeAsm(b[j].value))
  {
    var x, y := DecodeAsm(b[i].value), DecodeAsm(b[j].value);
    forall k: RegKey | k.cls == Gpr
      ensures !(Writes(x, k) && (Reads(y, k) || Writes(y, k))) && !(Reads(x, k) && Writes(y, k))
    {
      if k.reg.PReg? {
        VerifierSeesGprs(b[i].value, k.reg.p);
        VerifierSeesGprs(b[j].value, k.reg.p);
        OperationOf(b, i);
        OperationOf(b, j);
      } else {
        NoVirtualKeys(b[i].value, k);
        NoVirtualKeys(b[j].value, k);
      }
    }
  }

  lemma {:induction false} ApartIsIndependent(x: MicroOp, y: MicroOp)
    requires ApartOn(Gpr, x, y) && NoHiddenConflict(x, y)
    ensures Independent(x, y)
  {
  }

  lemma {:induction false} OperationOf(b: Bundle, slot: nat)
    requires slot < |b| && b[slot].Some? && WellFormed(b[slot].value)
    ensures var op, ops := OpcodeOf(b[slot].value).value, b[slot].value.operands;
            forall r :: (r in GprWrites(op, ops) ==> WritesAt(b, slot, r)) && (r in GprReads(op, ops) ==> ReadsAt(b, slot, r))
  {
  }

  lemma {:induction false} NoVirtualKeys(syl: AsmSyllable, k: RegKey)
    requires k.reg.VReg?
    ensures !Reads(DecodeAsm(syl), k) && !Writes(DecodeAsm(syl), k)
  {
  }

  /** No two operations use one predicate register that one of them writes. */
  ghost predicate PredicateFree(syls: seq<AsmSyllable>) {
    forall i, j :: 0 <= i < j < |syls| ==> !PredConflict(DecodeAsm(syls[i]), DecodeAsm(syls[j]))
  }

  predicate MemoryFree(syls: seq<AsmSyllable>) {
    forall i, j :: 0 <= i < j < |syls| ==> MemApart(DecodeAsm(syls[i]), DecodeAsm(syls[j]))
  }

  /** Syllables in emitted shape, no two of which meet on a predicate or in memory. */
  ghost predicate SafeBundle(b: Bundle) {
    && (forall syl :: syl in Syllables(b) ==> WellFormed(syl))
    && PredicateFree(Syllables(b)) && MemoryFree(Syllables(b))
  }

  lemma {:induction false} AcceptedIsIndependent(proc: Processor, b: Bundle)
    requires LegalBundle(proc, b) && |b| <= proc.width && SafeBundle(b)
    ensures PairwiseIndependent(DecodeSyllables(Syllables(b)))
  {
    var syls := Syllables(b);
    forall i, j | 0 <= i < j < |syls|
      ensures Independent(DecodeAsm(syls[i]), DecodeAsm(syls[j]))
    {
      SlotsInOrder(b, i, j);
      SlotsApartOnGprs(b, proc.width, SlotOf(b, i), SlotOf(b, j));
      ApartIsIndependent(DecodeAsm(syls[i]), DecodeAsm(syls[j]));
    }
  }

  /**
   * An accepted bundle means the same issued at once and executed one syllable at a time, in slot order or in
   * any other: the read-after-write check rules out write-after-read as well.
   */
  lemma {:induction false} AcceptedBundleAnyOrder(isa: Isa, proc: Processor, b: Bundle, order: seq<MicroOp>, s: State)
    requires LegalBundle(proc, b) && |b| <= proc.width && SafeBundle(b)
    requires multiset(order) == multiset(DecodeSyllables(Syllables(b)))
    ensures ExecBundle(isa, b, s) == Run(isa, order, s)
  {
    var ms := DecodeSyllables(Syllables(b));
    AcceptedIsIndependent(proc, b);
    IndependentIsHarmless(ms);
    IssueIsRun(isa, ms, s);
    IndependentAnyOrder(isa, ms, order, s);
  }
}
