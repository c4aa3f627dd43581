/** Parsing the processor block line by line. */
module HeaderText {
  import opened Opcodes
  import opened Text
  import opened LinesText
  import opened Asm
  import opened ProcessorText

  // ----- The inner blocks -----

  function UnitReader(): (string, seq<UnitDecl>) -> Option<seq<UnitDecl>> {
    (trimmed, units) => match ParseUnit(trimmed) case Some(u) => Some(units + [u]) case None => None
  }

  function ParseHardware(ts: seq<string>, pos: nat): ParseResult<seq<UnitDecl>>
    requires pos <= |ts|
  {
    ReadBlock(ts, pos, true, UnitReader(), [])
  }

  datatype Layout = Layout(aliases: seq<SlotAlias>, indexed: seq<(nat, seq<string>)>)

  /** One line of the layout block. */
  function LayoutLine(trimmed: string, layout: Layout): Option<Layout> {
    match StripPrefix(trimmed, "alias ")
    case Some(rest) =>
      (match ParseAlias(rest)
       case None => None
       case Some(a) => Some(layout.(aliases := layout.aliases + [a])))
    case None =>
      match ParseSlotUnits(trimmed)
      case None => None
      case Some(entry) => Some(layout.(indexed := layout.indexed + [entry]))
  }

  function LayoutReader(): (string, Layout) -> Option<Layout> {
    (trimmed, layout) => LayoutLine(trimmed, layout)
  }

  function ParseLayout(ts: seq<string>, pos: nat): ParseResult<Layout>
    requires pos <= |ts|
  {
    ReadBlock(ts, pos, true, LayoutReader(), Layout([], []))
  }

  function MaxIndex(indexed: seq<(nat, seq<string>)>): nat {
    if indexed == [] then 0
    else
      var n := |indexed| - 1;
      var rest := MaxIndex(indexed[..n]);
      if indexed[n].0 > rest then indexed[n].0 else rest
  }

  /** Slot lists by index; the last line for an index counts, missing ones are empty. */
  function UnitsOfSlot(indexed: seq<(nat, seq<string>)>, slot: nat): seq<string> {
    if indexed == [] then []
    else
      var n := |indexed| - 1;
      if indexed[n].0 == slot then indexed[n].1 else UnitsOfSlot(indexed[..n], slot)
  }

  function SlotUnitsOf(indexed: seq<(nat, seq<string>)>): seq<seq<string>> {
    if indexed == [] then [] else seq(MaxIndex(indexed) + 1, slot requires slot >= 0 => UnitsOfSlot(indexed, slot))
  }

  // ----- The block itself -----

  datatype HeaderLine =
    | CloseLine | WidthOf(rest: string) | HardwareOpen | LayoutOpen | CacheLine | TopologyOf(text: string) | MemoryOf(text: string) | OtherLine

  function Classify(trimmed: string): HeaderLine {
    if trimmed == "}" then CloseLine
    else if StartsWith(trimmed, "width ") then WidthOf(trimmed[|"width "|..])
    else if trimmed == "hardware {" then HardwareOpen
    else if trimmed == "layout slots {" then LayoutOpen
    else if StartsWith(trimmed, "cache {") then CacheLine
    else if StartsWith(trimmed, "topology {") then TopologyOf(trimmed)
    else if StartsWith(trimmed, "memory {") then MemoryOf(trimmed)
    else OtherLine
  }

  const FRESH_PROCESSOR := Processor(4, [], [], [], 1, DEFAULT_MEMORY_SIZE)

  /** The entry at a line that is not blank, and the rest of the header. */
  function ParseEntry(ts: seq<string>, at: nat, p: Processor): (r: ParseResult<Processor>)
    requires at < |ts|
    ensures r.Parsed? ==> at < r.pos <= |ts|
    decreases |ts| - at, 0
  {
    match Classify(ts[at])
    case CloseLine => Parsed(p, at + 1)
    case WidthOf(rest) =>
      (match ParseU32(Trim(rest))
       case Some(n) => ParseHeader(ts, at + 1, p.(width := n))
       case None => Syntax(at + 1))
    case HardwareOpen =>
      (match ParseHardware(ts, at + 1)
       case Parsed(units, next) => ParseHeader(ts, next, p.(units := units))
       case UnexpectedEof => UnexpectedEof
       case Syntax(line) => Syntax(line))
    case LayoutOpen =>
      (match ParseLayout(ts, at + 1)
       case Parsed(l, next) => ParseHeader(ts, next, p.(slotAliases := l.aliases, slotUnits := SlotUnitsOf(l.indexed)))
       case UnexpectedEof => UnexpectedEof
       case Syntax(line) => Syntax(line))
    case CacheLine => ParseHeader(ts, at + 1, p)
    case TopologyOf(text) =>
      (match ParseTopology(text)
       case Some(n) => ParseHeader(ts, at + 1, p.(cpus := n))
       case None => Syntax(at + 1))
    case MemoryOf(text) =>
      (match ParseMemory(text)
       case Some(n) => ParseHeader(ts, at + 1, p.(memorySize := n))
       case None => Syntax(at + 1))
    case OtherLine => Syntax(at + 1)
  }

  function ParseHeader(ts: seq<string>, pos: nat, p: Processor): (r: ParseResult<Processor>)
    requires pos <= |ts|
    ensures r.Parsed? ==> pos < r.pos <= |ts|
    decreases |ts| - pos, 1
  {
    var at := SkipBlank(ts, pos);
    if at == |ts| then UnexpectedEof else ParseEntry(ts, at, p)
  }

  function ParseProcessor(ts: seq<string>, pos: nat): (r: ParseResult<Processor>)
    requires pos <= |ts|
    ensures r.Parsed? ==> pos < r.pos <= |ts|
  {
    if pos == |ts| then UnexpectedEof
    else if ts[pos] != ".processor {" then Syntax(pos + 1)
    else ParseHeader(ts, pos + 1, FRESH_PROCESSOR)
  }
}
