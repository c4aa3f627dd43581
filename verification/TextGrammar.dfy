/** Which texts are programs: headers, items, and the text cut into lines. */
module TextGrammar {
  import opened Collections
  import opened Opcodes
  import opened Text
  import opened Numerals
  import opened LinesText
  import opened BlockGrammar
  import opened Asm
  import opened ProcessorText
  import opened HeaderText
  import opened ProgramText
  import opened HeaderGrammar
  import opened ProgramGrammar
  import opened OperandGrammar

  // ----- One entry of the header -----

  /** KEYWORD { FIELD VALUE }, with any number of closing braces. */
  ghost predicate InBraces(t: string, keyword: string, field: string, value: string) {
    exists open, inner :: Trim(DropPrefix(t, keyword)) == "{" + open && WithoutBack(open, '}', inner) && Trim(inner) == field + value
      && StartsWith(t, keyword)
  }

  function DropPrefix(t: string, keyword: string): string {
    if StartsWith(t, keyword) then t[|keyword|..] else t
  }

  lemma {:induction false} InBracesExactlyWhen(t: string, keyword: string, field: string, v: string)
    ensures Braced(t, keyword, field) == Some(v) <==> exists value :: InBraces(t, keyword, field, value) && Trim(value) == v
  {
    if Braced(t, keyword, field) == Some(v) {
      BracedIsDenoted(t, keyword, field, v);
    }
    if exists value :: InBraces(t, keyword, field, value) && Trim(value) == v {
      var value :| InBraces(t, keyword, field, value) && Trim(value) == v;
      DenotedIsBraced(t, keyword, field, value);
    }
  }

  lemma {:induction false} BracedIsDenoted(t: string, keyword: string, field: string, v: string)
    requires Braced(t, keyword, field) == Some(v)
    ensures exists value :: InBraces(t, keyword, field, value) && Trim(value) == v
  {
    var rest := StripPrefix(t, keyword).value;
    var open := StripPrefix(Trim(rest), "{").value;
    var inner := TrimEndChar(open, '}');
    var value := StripPrefix(Trim(inner), field).value;
    PrefixExactlyWhen(Trim(rest), "{", open);
    TrimBackExactlyWhen(open, '}', inner);
    PrefixExactlyWhen(Trim(inner), field, value);
    assert InBraces(t, keyword, field, value);
  }

  lemma {:induction false} DenotedIsBraced(t: string, keyword: string, field: string, value: string)
    requires InBraces(t, keyword, field, value)
    ensures Braced(t, keyword, field) == Some(Trim(value))
  {
    var rest := DropPrefix(t, keyword);
    var open, inner :| Trim(rest) == "{" + open && WithoutBack(open, '}', inner) && Trim(inner) == field + value && StartsWith(t, keyword);
    PrefixExactlyWhen(Trim(rest), "{", open);
    TrimBackExactlyWhen(open, '}', inner);
    PrefixExactlyWhen(Trim(inner), field, value);
  }

  ghost predicate CpusText(t: string, n: nat) {
    exists value :: InBraces(t, "topology", "cpus ", value) && UnsignedText(Trim(value), U32_MAX, n)
  }

  /** The size is read as a signed 64-bit number; a negative one counts from the top. */
  ghost predicate MemoryText(t: string, n: nat) {
    exists value, k: int :: InBraces(t, "memory", "size ", value) && OffsetText(Trim(value), k) && IsSize(k, n)
  }

  lemma {:induction false} CpusExactlyWhen(t: string, n: nat)
    ensures ParseTopology(t) == Some(n) <==> CpusText(t, n)
  {
    var braced := Braced(t, "topology", "cpus ");
    if braced.Some? {
      U32ExactlyWhen(braced.value, n);
      InBracesExactlyWhen(t, "topology", "cpus ", braced.value);
    }
    if CpusText(t, n) {
      var value :| InBraces(t, "topology", "cpus ", value) && UnsignedText(Trim(value), U32_MAX, n);
      InBracesExactlyWhen(t, "topology", "cpus ", Trim(value));
    }
  }

  lemma {:induction false} Wrapped(k: int)
    requires I64_MIN <= k <= I64_MAX
    ensures k % (U64_MAX + 1) == if k < 0 then k + U64_MAX + 1 else k
  {
  }

  predicate IsSize(k: int, n: nat) {
    n == if k < 0 then k + U64_MAX + 1 else k
  }

  lemma {:induction false} SizeFrom(v: string, k: int, n: nat)
    requires ParseHexOrDec(v) == Some(k) && I64_MIN <= k <= I64_MAX
    ensures MemorySize(Some(v)) == Some(n) <==> IsSize(k, n)
  {
    Wrapped(k);
  }

  lemma {:induction false} SizeExactlyWhen(v: string, n: nat)
    ensures MemorySize(Some(v)) == Some(n) <==> exists k: int :: OffsetText(v, k) && IsSize(k, n)
  {
    match ParseHexOrDec(v)
    case None =>
      forall k: int
        ensures !OffsetText(v, k)
      {
        OffsetExactlyWhen(v, k);
      }
    case Some(k) =>
      OffsetExactlyWhen(v, k);
      SizeFrom(v, k, n);
      forall k': int | OffsetText(v, k')
        ensures k' == k
      {
        OffsetExactlyWhen(v, k');
      }
  }

  lemma {:induction false} MemoryExactlyWhen(t: string, n: nat)
    ensures ParseMemory(t) == Some(n) <==> MemoryText(t, n)
  {
    var braced := Braced(t, "memory", "size ");
    if braced.Some? {
      SizeExactlyWhen(braced.value, n);
      InBracesExactlyWhen(t, "memory", "size ", braced.value);
    }
    if MemoryText(t, n) {
      var value, k: int :| InBraces(t, "memory", "size ", value) && OffsetText(Trim(value), k) && IsSize(k, n);
      InBracesExactlyWhen(t, "memory", "size ", Trim(value));
    }
  }

  ghost predicate WidthDenoted(t: string, p: Processor, p': Processor) {
    StartsWith(t, "width ") && exists n: nat :: UnsignedText(Trim(t[|"width "|..]), U32_MAX, n) && p' == p.(width := n)
  }

  ghost predicate CpusDenoted(t: string, p: Processor, p': Processor) {
    StartsWith(t, "topology {") && exists n: nat :: CpusText(t, n) && p' == p.(cpus := n)
  }

  ghost predicate MemoryDenoted(t: string, p: Processor, p': Processor) {
    StartsWith(t, "memory {") && exists n: nat :: MemoryText(t, n) && p' == p.(memorySize := n)
  }

  /** An entry of one line: width, topology or memory; a cache entry says nothing. */
  ghost predicate LineDenoted(t: string, p: Processor, p': Processor) {
    WidthDenoted(t, p, p') || CpusDenoted(t, p, p') || MemoryDenoted(t, p, p') || (StartsWith(t, "cache {") && p' == p)
  }

  ghost predicate UnitsDenoted(ts: seq<string>, at: nat, next: nat, p: Processor, p': Processor)
    requires at < |ts|
  {
    ts[at] == "hardware {" && exists units :: HardwareDenoted(ts, at + 1, next, units) && p' == p.(units := units)
  }

  ghost predicate SlotsDenoted(ts: seq<string>, at: nat, next: nat, p: Processor, p': Processor)
    requires at < |ts|
  {
    ts[at] == "layout slots {" && exists l :: LayoutDenoted(ts, at + 1, next, l) && p' == p.(slotAliases := l.aliases, slotUnits := SlotUnitsOf(l.indexed))
  }

  /** From the header as read so far to the header with the entry at line `at`; what is said last counts. */
  ghost predicate EntryDenoted(ts: seq<string>, at: nat, next: nat, p: Processor, p': Processor) {
    && at < next <= |ts|
    && ((next == at + 1 && LineDenoted(ts[at], p, p')) || UnitsDenoted(ts, at, next, p, p') || SlotsDenoted(ts, at, next, p, p'))
  }

  lemma {:induction false} WidthExactlyWhen(t: string, p: Processor, p': Processor)
    requires StartsWith(t, "width ")
    ensures WidthDenoted(t, p, p') <==> match ParseU32(Trim(t[|"width "|..])) case Some(n) => p' == p.(width := n) case None => false
  {
    var text := Trim(t[|"width "|..]);
    if ParseU32(text).Some? { U32ExactlyWhen(text, ParseU32(text).value); }
    if WidthDenoted(t, p, p') {
      var n: nat :| UnsignedText(text, U32_MAX, n) && p' == p.(width := n);
      U32ExactlyWhen(text, n);
    }
  }

  lemma {:induction false} CpusEntry(t: string, p: Processor, p': Processor)
    requires StartsWith(t, "topology {")
    ensures CpusDenoted(t, p, p') <==> match ParseTopology(t) case Some(n) => p' == p.(cpus := n) case None => false
  {
    if ParseTopology(t).Some? { CpusExactlyWhen(t, ParseTopology(t).value); }
    if CpusDenoted(t, p, p') {
      var n: nat :| CpusText(t, n) && p' == p.(cpus := n);
      CpusExactlyWhen(t, n);
    }
  }

  lemma {:induction false} MemoryEntry(t: string, p: Processor, p': Processor)
    requires StartsWith(t, "memory {")
    ensures MemoryDenoted(t, p, p') <==> match ParseMemory(t) case Some(n) => p' == p.(memorySize := n) case None => false
  {
    if ParseMemory(t).Some? { MemoryExactlyWhen(t, ParseMemory(t).value); }
    if MemoryDenoted(t, p, p') {
      var n: nat :| MemoryText(t, n) && p' == p.(memorySize := n);
      MemoryExactlyWhen(t, n);
    }
  }

  lemma {:induction false} UnitsEntry(ts: seq<string>, at: nat, next: nat, p: Processor, p': Processor)
    requires at < |ts| && ts[at] == "hardware {"
    ensures UnitsDenoted(ts, at, next, p, p') <==>
              match ParseHardware(ts, at + 1) case Parsed(units, to) => to == next && p' == p.(units := units) case _ => false
  {
    var r := ParseHardware(ts, at + 1);
    if r.Parsed? { HardwareExactlyWhen(ts, at + 1, r.pos, r.value); }
    if UnitsDenoted(ts, at, next, p, p') {
      var units :| HardwareDenoted(ts, at + 1, next, units) && p' == p.(units := units);
      HardwareExactlyWhen(ts, at + 1, next, units);
    }
  }

  lemma {:induction false} SlotsEntry(ts: seq<string>, at: nat, next: nat, p: Processor, p': Processor)
    requires at < |ts| && ts[at] == "layout slots {"
    ensures SlotsDenoted(ts, at, next, p, p') <==>
              match ParseLayout(ts, at + 1)
              case Parsed(l, to) => to == next && p' == p.(slotAliases := l.aliases, slotUnits := SlotUnitsOf(l.indexed))
              case _ => false
  {
    var r := ParseLayout(ts, at + 1);
    if r.Parsed? { LayoutExactlyWhen(ts, at + 1, r.pos, r.value); }
    if SlotsDenoted(ts, at, next, p, p') {
      var l :| LayoutDenoted(ts, at + 1, next, l) && p' == p.(slotAliases := l.aliases, slotUnits := SlotUnitsOf(l.indexed));
      LayoutExactlyWhen(ts, at + 1, next, l);
    }
  }

  /** Lines of different kinds begin differently. */
  lemma {:induction false} KindsApart(t: string)
    ensures (Classify(t) == CloseLine <==> t == "}")
    ensures (Classify(t).WidthOf? <==> StartsWith(t, "width ")) && (Classify(t).WidthOf? ==> Classify(t).rest == t[|"width "|..])
    ensures (Classify(t) == HardwareOpen <==> t == "hardware {") && (Classify(t) == LayoutOpen <==> t == "layout slots {")
    ensures Classify(t) == CacheLine <==> StartsWith(t, "cache {")
    ensures (Classify(t).TopologyOf? <==> StartsWith(t, "topology {")) && (Classify(t).TopologyOf? ==> Classify(t).text == t)
    ensures (Classify(t).MemoryOf? <==> StartsWith(t, "memory {")) && (Classify(t).MemoryOf? ==> Classify(t).text == t)
  {
    FirstLetter(t, "width ");
    FirstLetter(t, "hardware {");
    FirstLetter(t, "layout slots {");
    FirstLetter(t, "cache {");
    FirstLetter(t, "topology {");
    FirstLetter(t, "memory {");
  }

  lemma {:induction false} FirstLetter(t: string, w: string)
    requires w != ""
    ensures StartsWith(t, w) ==> t != "" && t[0] == w[0]
    ensures t == w ==> t != "" && t[0] == w[0]
  {
    if StartsWith(t, w) { assert t[..|w|][0] == t[0]; }
  }

  /** What an entry makes of the header, and the line behind it. */
  datatype Step = Step(next: nat, after: Processor)

  ghost function EntryStep(ts: seq<string>, at: nat, p: Processor): Option<Step>
    requires at < |ts|
  {
    match Classify(ts[at])
    case CloseLine => None
    case WidthOf(rest) => (match ParseU32(Trim(rest)) case Some(n) => Some(Step(at + 1, p.(width := n))) case None => None)
    case HardwareOpen =>
      (match ParseHardware(ts, at + 1) case Parsed(units, next) => Some(Step(next, p.(units := units))) case _ => None)
    case LayoutOpen =>
      (match ParseLayout(ts, at + 1)
       case Parsed(l, next) => Some(Step(next, p.(slotAliases := l.aliases, slotUnits := SlotUnitsOf(l.indexed))))
       case _ => None)
    case CacheLine => Some(Step(at + 1, p))
    case TopologyOf(text) => (match ParseTopology(text) case Some(n) => Some(Step(at + 1, p.(cpus := n))) case None => None)
    case MemoryOf(text) => (match ParseMemory(text) case Some(n) => Some(Step(at + 1, p.(memorySize := n))) case None => None)
    case OtherLine => None
  }

  lemma {:induction false} EntryStepReads(ts: seq<string>, at: nat, p: Processor)
    requires at < |ts| && Classify(ts[at]) != CloseLine
    ensures EntryStep(ts, at, p).Some? ==> at < EntryStep(ts, at, p).value.next <= |ts|
    ensures match EntryStep(ts, at, p)
            case Some(st) => ParseEntry(ts, at, p) == ParseHeader(ts, st.next, st.after)
            case None => !ParseEntry(ts, at, p).Parsed?
  {
  }

  lemma {:induction false} LineEntry(t: string, ts: seq<string>, at: nat, p: Processor, next: nat, p': Processor)
    requires at < |ts| && t == ts[at] && (Classify(t).WidthOf? || Classify(t).TopologyOf? || Classify(t).MemoryOf? || Classify(t) == CacheLine)
    ensures EntryStep(ts, at, p) == Some(Step(next, p')) <==> next == at + 1 && LineDenoted(t, p, p')
  {
    KindsApart(t);
    if StartsWith(t, "width ") { WidthExactlyWhen(t, p, p'); }
    if StartsWith(t, "topology {") { CpusEntry(t, p, p'); }
    if StartsWith(t, "memory {") { MemoryEntry(t, p, p'); }
  }

  lemma {:induction false} EntryExactlyWhen(ts: seq<string>, at: nat, next: nat, p: Processor, p': Processor)
    requires at < |ts| && ts[at] != "}"
    ensures EntryStep(ts, at, p) == Some(Step(next, p')) <==> EntryDenoted(ts, at, next, p, p')
  {
    var t := ts[at];
    KindsApart(t);
    match Classify(t)
    case HardwareOpen => UnitsEntry(ts, at, next, p, p');
    case LayoutOpen => SlotsEntry(ts, at, next, p, p');
    case OtherLine =>
    case CloseLine =>
    case WidthOf(_) => LineEntry(t, ts, at, p, next, p');
    case TopologyOf(_) => LineEntry(t, ts, at, p, next, p');
    case MemoryOf(_) => LineEntry(t, ts, at, p, next, p');
    case CacheLine => LineEntry(t, ts, at, p, next, p');
  }

  // ----- The whole header -----

  /** Entries, blank lines between them, up to a closing brace in line to - 1. */
  ghost predicate EntriesDenoted(ts: seq<string>, from: nat, to: nat, p: Processor, p': Processor)
    decreases |ts| - from
  {
    exists at: nat :: NextAt(ts, true, from, at) &&
      if ts[at] == "}" then to == at + 1 && p' == p
      else exists next: nat, q :: EntryDenoted(ts, at, next, p, q) && EntriesDenoted(ts, next, to, q, p')
  }

  ghost predicate EntriesFrom(ts: seq<string>, at: nat, to: nat, p: Processor, p': Processor)
    requires at < |ts|
  {
    if ts[at] == "}" then to == at + 1 && p' == p
    else exists next: nat, q :: EntryDenoted(ts, at, next, p, q) && EntriesDenoted(ts, next, to, q, p')
  }

  lemma {:induction false} EntriesAt(ts: seq<string>, from: nat, at: nat, to: nat, p: Processor, p': Processor)
    requires from <= |ts| && at == SkipBlank(ts, from)
    ensures EntriesDenoted(ts, from, to, p, p') <==> at < |ts| && EntriesFrom(ts, at, to, p, p')
  {
    SkipFinds(ts, from);
    forall k: nat | k < |ts|
      ensures NextAt(ts, true, from, k) <==> k == at
    {
      NextExactlyWhen(ts, true, from, k);
    }
  }

  /** Exactly these lines are read as the rest of a header. */
  lemma {:induction false} HeaderExactlyWhen(ts: seq<string>, from: nat, to: nat, p: Processor, p': Processor)
    requires from <= |ts|
    ensures ParseHeader(ts, from, p) == Parsed(p', to) <==> EntriesDenoted(ts, from, to, p, p')
    decreases |ts| - from
  {
    var at := SkipBlank(ts, from);
    EntriesAt(ts, from, at, to, p, p');
    if at < |ts| && ts[at] != "}" {
      EntryStepReads(ts, at, p);
      if EntryStep(ts, at, p).Some? {
        var st := EntryStep(ts, at, p).value;
        EntryExactlyWhen(ts, at, st.next, p, st.after);
        HeaderExactlyWhen(ts, st.next, to, st.after, p');
      }
      forall next: nat, q
        ensures EntryDenoted(ts, at, next, p, q) ==> EntryStep(ts, at, p) == Some(Step(next, q))
      {
        EntryExactlyWhen(ts, at, next, p, q);
      }
    }
  }

  // ----- Lines of a text -----

  predicate NoFeed(s: string) { '\n' !in s }

  predicate LineEnds(s: string, i: nat) {
    i < |s| && s[i] == '\n' && NoFeed(s[..i])
  }

  /** ls are the lines of s: a line feed ends each but perhaps the last; a carriage return before it goes with it. */
  ghost predicate AreLines(s: string, ls: seq<string>)
    decreases |ls|
  {
    if ls == [] then s == ""
    else if NoFeed(s) then s != "" && ls == [s]
    else exists i: nat :: LineEnds(s, i) && ls[0] == WithoutCr(s[..i]) && AreLines(s[i + 1..], ls[1..])
  }

  lemma {:induction false} NoFeedMore(s: string, start: nat, i: nat)
    requires start <= i < |s| && NoFeed(s[start..i]) && s[i] != '\n'
    ensures NoFeed(s[start..i + 1])
  {
    assert s[start..i + 1] == s[start..i] + [s[i]];
  }

  lemma {:induction false} FirstLine(s: string, start: nat, i: nat, rest: seq<string>)
    requires start <= i < |s| && s[i] == '\n' && NoFeed(s[start..i]) && AreLines(s[i + 1..], rest)
    ensures AreLines(s[start..], [WithoutCr(s[start..i])] + rest)
  {
    var t, ls := s[start..], [WithoutCr(s[start..i])] + rest;
    var n := i - start;
    assert t[n] == '\n' && t[..n] == s[start..i] && t[n + 1..] == s[i + 1..] && ls[1..] == rest;
    assert !NoFeed(t);
  }

  lemma {:induction false} LinesAre(s: string, start: nat, i: nat, done: seq<string>) returns (ls: seq<string>)
    requires start <= i <= |s| && NoFeed(s[start..i])
    ensures LinesFrom(s, start, i, done) == done + ls && AreLines(s[start..], ls)
    decreases |s| - i
  {
    if i == |s| {
      assert s[start..i] == s[start..];
      ls := if start == i then [] else [s[start..]];
      AppendNothing(done);
    } else if s[i] == '\n' {
      var rest := LinesAre(s, i + 1, i + 1, done + [WithoutCr(s[start..i])]);
      ls := [WithoutCr(s[start..i])] + rest;
      Reassociate(done, [WithoutCr(s[start..i])], rest);
      FirstLine(s, start, i, rest);
    } else {
      NoFeedMore(s, start, i);
      ls := LinesAre(s, start, i + 1, done);
    }
  }

  lemma {:induction false} FirstFeed(s: string, i: nat, k: nat)
    requires LineEnds(s, i) && LineEnds(s, k)
    ensures i <= k
  {
  }

  lemma {:induction false} LinesTail(s: string, ls: seq<string>, i: nat)
    requires AreLines(s, ls) && LineEnds(s, i)
    ensures ls != [] && ls[0] == WithoutCr(s[..i]) && AreLines(s[i + 1..], ls[1..])
  {
    assert !NoFeed(s);
    var k: nat :| LineEnds(s, k) && ls[0] == WithoutCr(s[..k]) && AreLines(s[k + 1..], ls[1..]);
    FirstFeed(s, i, k);
    FirstFeed(s, k, i);
  }

  lemma {:induction false} FindFeed(s: string) returns (i: nat)
    requires !NoFeed(s)
    ensures LineEnds(s, i)
  {
    i := 0;
    while s[i] != '\n'
      invariant i < |s| && NoFeed(s[..i])
      decreases |s| - i
    {
      assert s[..i + 1] == s[..i] + [s[i]];
      i := i + 1;
    }
  }

  lemma {:induction false} LinesUnique(s: string, xs: seq<string>, ys: seq<string>)
    requires AreLines(s, xs) && AreLines(s, ys)
    ensures xs == ys
    decreases |xs|
  {
    if !NoFeed(s) {
      var i := FindFeed(s);
      LinesTail(s, xs, i);
      LinesTail(s, ys, i);
      LinesUnique(s[i + 1..], xs[1..], ys[1..]);
      assert xs == [xs[0]] + xs[1..] && ys == [ys[0]] + ys[1..];
    }
  }

  lemma {:induction false} LinesExactlyWhen(s: string, ls: seq<string>)
    ensures ls == Lines(s) <==> AreLines(s, ls)
  {
    assert s[0..0] == "" && s[0..] == s;
    var found := LinesAre(s, 0, 0, []);
    assert [] + found == found;
    if AreLines(s, ls) { LinesUnique(s, ls, found); }
  }

  // ----- Programs -----

  /** Trimmed lines: `.processor {`, the header's entries, and the items. */
  ghost predicate ProgramLinesDenoted(ts: seq<string>, program: Program) {
    exists at: nat, next: nat :: NextAt(ts, true, 0, at) && ts[at] == ".processor {"
      && EntriesDenoted(ts, at + 1, next, FRESH_PROCESSOR, program.processor) && next <= |ts| && ItemsDenoted(program.processor, ts, next, program.items)
  }

  ghost predicate TextDenotes(text: string, program: Program) {
    exists ls :: AreLines(text, ls) && ProgramLinesDenoted(TrimAll(ls), program)
  }

  lemma {:induction false} ProcessorExactlyWhen(ts: seq<string>, at: nat, next: nat, p: Processor)
    requires at < |ts|
    ensures ParseProcessor(ts, at) == Parsed(p, next) <==> ts[at] == ".processor {" && EntriesDenoted(ts, at + 1, next, FRESH_PROCESSOR, p)
  {
    HeaderExactlyWhen(ts, at + 1, next, FRESH_PROCESSOR, p);
  }

  lemma {:induction false} ReadsProgram(ts: seq<string>)
    requires ParseLines(ts).Parsed?
    ensures ProgramLinesDenoted(ts, ParseLines(ts).value)
  {
    var at := SkipBlank(ts, 0);
    SkipFinds(ts, 0);
    var r := ParseProcessor(ts, at);
    ProcessorExactlyWhen(ts, at, r.pos, r.value);
    var items := ReadsItems(r.value, ts, r.pos, []);
    assert [] + items == items;
    assert NextAt(ts, true, 0, at);
  }

  lemma {:induction false} ProgramRead(ts: seq<string>, program: Program)
    requires ProgramLinesDenoted(ts, program)
    ensures ParseLines(ts) == Parsed(program, |ts|)
  {
    var at: nat, next: nat :| NextAt(ts, true, 0, at) && ts[at] == ".processor {"
      && EntriesDenoted(ts, at + 1, next, FRESH_PROCESSOR, program.processor) && next <= |ts| && ItemsDenoted(program.processor, ts, next, program.items);
    NextExactlyWhen(ts, true, 0, at);
    ProcessorExactlyWhen(ts, at, next, program.processor);
    ItemsAreRead(program.processor, ts, next, [], program.items);
    assert [] + program.items == program.items;
  }

  /** Exactly these texts are accepted, as these programs. */
  lemma {:induction false} TextExactlyWhen(text: string, program: Program)
    ensures Parse(text).Parsed? && Parse(text).value == program <==> TextDenotes(text, program)
  {
    LinesExactlyWhen(text, Lines(text));
    if Parse(text).Parsed? { ReadsProgram(TrimAll(Lines(text))); }
    if TextDenotes(text, program) {
      var ls :| AreLines(text, ls) && ProgramLinesDenoted(TrimAll(ls), program);
      LinesExactlyWhen(text, ls);
      ProgramRead(TrimAll(ls), program);
    }
  }
}
