/** Tables of the cycle from which each physical register may be read. */
module Ready {
  import opened Opcodes
  import opened Mir

  /** Registers without an entry are ready from cycle 0. */
  datatype ReadyState = ReadyState(gpr: map<nat, nat>, pred: map<nat, nat>) {
    function At(cls: RegClass, reg: nat): nat {
      match cls
      case Gpr => if reg in gpr then gpr[reg] else 0
      case Pred => if reg in pred then pred[reg] else 0
    }

    /** r0 never becomes pending. */
    function Set(cls: RegClass, reg: nat, cycle: nat): (r: ReadyState)
      ensures forall c, n :: r.At(c, n) == if c == cls && n == reg && RegKey(c, PReg(n)) != ZERO then cycle else At(c, n)
    {
      match cls
      case Gpr => if reg == ZERO_REG then this else this.(gpr := gpr[reg := cycle])
      case Pred => this.(pred := pred[reg := cycle])
    }
  }

  const ALL_READY := ReadyState(map[], map[])

  function Max(a: nat, b: nat): nat { if a < b then b else a }

  function KeyReadyAt(ready: ReadyState, k: RegKey): nat {
    match k.reg
    case PReg(n) => ready.At(k.cls, n)
    case VReg(_) => 0
  }

  function MaxReadyAt(ready: ReadyState, keys: seq<RegKey>): (c: nat)
    ensures forall k :: k in keys ==> KeyReadyAt(ready, k) <= c
    ensures c == 0 || exists k :: k in keys && KeyReadyAt(ready, k) == c
  {
    if keys == [] then 0 else Max(MaxReadyAt(ready, keys[..|keys| - 1]), KeyReadyAt(ready, keys[|keys| - 1]))
  }

  /** The first cycle in which every source of the syllable can be read. */
  function RequiredCycle(syl: Syllable, ready: ReadyState): nat {
    MaxReadyAt(ready, SourceRegKeys(syl))
  }

  function AfterSyllable(syl: Syllable, cycle: nat, ready: ReadyState): ReadyState {
    match DestRegKey(syl)
    case Some(RegKey(cls, PReg(n))) => ready.Set(cls, n, cycle + Latency(syl.opcode))
    case _ => ready
  }
}
