/** The line parser: one position moving over the lines of a text. */
module TextParser {
  import opened Opcodes
  import opened Text
  import opened LinesText
  import opened Asm
  import opened BundleText
  import opened ProcessorText
  import opened HeaderText
  import opened ProgramText

  /** A method's answer agrees with the specification, and the parser stands where the answer ends. */
  ghost predicate Agrees<T(!new)>(r: ParseResult<T>, spec: ParseResult<T>, pos: nat) {
    r == spec && (r.Parsed? ==> pos == r.pos)
  }

  class Parser {
    const lines: seq<string>
    var pos: nat

    constructor (text: string)
      ensures pos == 0 && lines == Lines(text)
    {
      lines := Lines(text);
      pos := 0;
    }

    /** The lines as every rule sees them. */
    ghost function Trimmed(): seq<string> { TrimAll(lines) }

    ghost predicate Valid()
      reads this
    {
      pos <= |lines|
    }

    method SkipBlankLines()
      requires Valid()
      modifies this`pos
      ensures Valid() && pos == SkipBlank(Trimmed(), old(pos))
    {
      while pos < |lines| && Trim(lines[pos]) == ""
        invariant Valid() && SkipBlank(Trimmed(), old(pos)) == SkipBlank(Trimmed(), pos)
      {
        pos := pos + 1;
      }
    }

    /** The loop of every block: lines up to a closing brace, each taken in by `step`. */
    method ReadLinesOf<S(!new)>(skip: bool, step: (string, S) -> Option<S>, start: S) returns (r: ParseResult<S>)
      requires Valid()
      modifies this`pos
      ensures Valid() && pos >= old(pos) && Agrees(r, ReadBlock(Trimmed(), old(pos), skip, step, start), pos)
    {
      var s := start;
      while true
        invariant Valid() && pos >= old(pos) && ReadBlock(Trimmed(), old(pos), skip, step, start) == ReadBlock(Trimmed(), pos, skip, step, s)
        decreases |lines| - pos
      {
        if skip {
          SkipBlankLines();
        }
        if pos == |lines| {
          return UnexpectedEof;
        }
        var trimmed := Trim(lines[pos]);
        pos := pos + 1;
        if trimmed == "}" {
          return Parsed(s, pos);
        }
        var next := step(trimmed, s);
        if next.None? {
          return Syntax(pos);
        }
        s := next.value;
      }
    }

    method ParseUnits() returns (r: ParseResult<seq<UnitDecl>>)
      requires Valid()
      modifies this`pos
      ensures Valid() && pos >= old(pos) && Agrees(r, ParseHardware(Trimmed(), old(pos)), pos)
    {
      r := ReadLinesOf(true, UnitReader(), []);
    }

    method ParseSlotLayout() returns (r: ParseResult<Layout>)
      requires Valid()
      modifies this`pos
      ensures Valid() && pos >= old(pos) && Agrees(r, ParseLayout(Trimmed(), old(pos)), pos)
    {
      r := ReadLinesOf(true, LayoutReader(), Layout([], []));
    }

    /** The slots of a bundle, read into a full-width row of empty ones. */
    method ParseBundleLines(p: Processor) returns (r: ParseResult<Bundle>)
      requires pos < |lines|
      modifies this`pos
      ensures Valid() && Agrees(r, ParseBundle(p, Trimmed(), old(pos)), pos)
    {
      pos := pos + 1;
      var read := ReadLinesOf(false, SlotReader(p), SlotState(EmptySlots(p.width), 0));
      match read {
        case Parsed(st, n) => r := Parsed(st.slots, n);
        case UnexpectedEof => r := UnexpectedEof;
        case Syntax(line) => r := Syntax(line);
      }
    }

    /** The answer for one entry: the processor so far, or None at the closing brace. */
    ghost predicate AnswersEntry(r: ParseResult<Option<Processor>>, spec: ParseResult<Processor>, p: Processor)
      reads this
    {
      Valid() &&
      match r
      case Parsed(None, _) => spec == Parsed(p, pos)
      case Parsed(Some(q), _) => spec == ParseHeader(Trimmed(), pos, q)
      case UnexpectedEof => spec == UnexpectedEof
      case Syntax(line) => spec == Syntax(line)
    }

    /** The hardware block; its opening line has been read. */
    method ParseHardwareEntry(p: Processor) returns (r: ParseResult<Option<Processor>>)
      requires 0 < pos <= |lines| && Classify(Trimmed()[pos - 1]) == HardwareOpen
      modifies this`pos
      ensures AnswersEntry(r, ParseEntry(Trimmed(), old(pos) - 1, p), p) && pos >= old(pos)
    {
      var units := ParseUnits();
      match units {
        case Parsed(us, _) => r := Parsed(Some(p.(units := us)), pos);
        case UnexpectedEof => r := UnexpectedEof;
        case Syntax(line) => r := Syntax(line);
      }
    }

    method ParseLayoutEntry(p: Processor) returns (r: ParseResult<Option<Processor>>)
      requires 0 < pos <= |lines| && Classify(Trimmed()[pos - 1]) == LayoutOpen
      modifies this`pos
      ensures AnswersEntry(r, ParseEntry(Trimmed(), old(pos) - 1, p), p) && pos >= old(pos)
    {
      var layout := ParseSlotLayout();
      match layout {
        case Parsed(l, _) => r := Parsed(Some(p.(slotAliases := l.aliases, slotUnits := SlotUnitsOf(l.indexed))), pos);
        case UnexpectedEof => r := UnexpectedEof;
        case Syntax(line) => r := Syntax(line);
      }
    }

    /** An entry of one line. */
    method ParseLineEntry(p: Processor, entry: HeaderLine) returns (r: ParseResult<Option<Processor>>)
      requires 0 < pos <= |lines| && Classify(Trimmed()[pos - 1]) == entry && !entry.HardwareOpen? && !entry.LayoutOpen?
      ensures AnswersEntry(r, ParseEntry(Trimmed(), pos - 1, p), p)
    {
      match entry {
        case CloseLine => r := Parsed(None, pos);
        case CacheLine => r := Parsed(Some(p), pos);
        case WidthOf(rest) =>
          var n := ParseU32(Trim(rest));
          r := if n.Some? then Parsed(Some(p.(width := n.value)), pos) else Syntax(pos);
        case TopologyOf(text) =>
          var n := ParseTopology(text);
          r := if n.Some? then Parsed(Some(p.(cpus := n.value)), pos) else Syntax(pos);
        case MemoryOf(text) =>
          var n := ParseMemory(text);
          r := if n.Some? then Parsed(Some(p.(memorySize := n.value)), pos) else Syntax(pos);
        case OtherLine => r := Syntax(pos);
      }
    }

    method ParseHeaderEntry(p: Processor) returns (r: ParseResult<Option<Processor>>)
      requires pos < |lines|
      modifies this`pos
      ensures AnswersEntry(r, ParseEntry(Trimmed(), old(pos), p), p) && pos > old(pos)
    {
      var entry := Classify(Trim(lines[pos]));
      pos := pos + 1;
      if entry.HardwareOpen? {
        r := ParseHardwareEntry(p);
      } else if entry.LayoutOpen? {
        r := ParseLayoutEntry(p);
      } else {
        r := ParseLineEntry(p, entry);
      }
    }

    method ParseProcessorBlock() returns (r: ParseResult<Processor>)
      requires Valid()
      modifies this`pos
      ensures Valid() && Agrees(r, ParseProcessor(Trimmed(), old(pos)), pos)
    {
      if pos == |lines| {
        return UnexpectedEof;
      }
      var first := Trim(lines[pos]);
      pos := pos + 1;
      if first != ".processor {" {
        return Syntax(pos);
      }
      var p := FRESH_PROCESSOR;
      while true
        invariant Valid() && ParseProcessor(Trimmed(), old(pos)) == ParseHeader(Trimmed(), pos, p)
        decreases |lines| - pos
      {
        SkipBlankLines();
        if pos == |lines| {
          return UnexpectedEof;
        }
        var entry := ParseHeaderEntry(p);
        match entry {
          case Parsed(None, _) => return Parsed(p, pos);
          case Parsed(Some(q), _) => p := q;
          case UnexpectedEof => return UnexpectedEof;
          case Syntax(line) => return Syntax(line);
        }
      }
    }

    method ParseItemList(p: Processor) returns (r: ParseResult<Program>)
      requires Valid()
      modifies this`pos
      ensures Valid() && r == ParseItems(p, Trimmed(), old(pos), [])
    {
      var items := [];
      while true
        invariant Valid() && ParseItems(p, Trimmed(), old(pos), []) == ParseItems(p, Trimmed(), pos, items)
        decreases |lines| - pos
      {
        SkipBlankLines();
        if pos == |lines| {
          return Parsed(Program(p, items), pos);
        }
        var trimmed := Trim(lines[pos]);
        if trimmed == "{" {
          var bundle := ParseBundleLines(p);
          match bundle {
            case Parsed(b, _) => items := items + [BundleItem(b)];
            case UnexpectedEof => return UnexpectedEof;
            case Syntax(line) => return Syntax(line);
          }
        } else {
          var name := StripSuffix(trimmed, ":");
          if name.None? {
            return Syntax(pos);
          }
          items := items + [LabelItem(name.value)];
          pos := pos + 1;
        }
      }
    }

    method ParseProgram() returns (r: ParseResult<Program>)
      requires pos == 0
      modifies this`pos
      ensures r == ParseLines(Trimmed())
    {
      SkipBlankLines();
      var p := ParseProcessorBlock();
      match p {
        case Parsed(proc, _) => r := ParseItemList(proc);
        case UnexpectedEof => r := UnexpectedEof;
        case Syntax(line) => r := Syntax(line);
      }
    }
  }

  method ParseText(text: string) returns (r: ParseResult<Program>)
    ensures r == Parse(text)
  {
    var parser := new Parser(text);
    r := parser.ParseProgram();
  }
}
