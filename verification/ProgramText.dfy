/** Whole programs as text. */
module ProgramText {
  import opened Text
  import opened LinesText
  import opened Asm
  import opened SyllableText
  import opened BundleText
  import opened ProcessorText
  import opened HeaderText
  import opened HeaderRoundTrip
  import opened ProcessorRoundTrip

  // ----- Printing -----

  function ItemLines(p: Processor, item: Item): seq<Line> {
    match item
    case LabelItem(name) => [Line(0, name + ":")]
    case BundleItem(b) => BundleLines(p, b)
  }

  function ItemsLines(p: Processor, items: seq<Item>, k: nat): seq<Line>
    requires k <= |items|
    decreases |items| - k
  {
    if k == |items| then [] else ItemLines(p, items[k]) + ItemsLines(p, items, k + 1)
  }

  function ProgramLines(program: Program): seq<Line> {
    HeaderLines(program.processor) + [Line(0, "")] + ItemsLines(program.processor, program.items, 0)
  }

  function Emit(program: Program): string {
    Unlines(WrittenAll(ProgramLines(program)), 0)
  }

  // ----- Parsing -----

  /** The item at a line that is not blank, and the rest of the program. */
  function ParseItem(p: Processor, ts: seq<string>, at: nat, done: seq<Item>): ParseResult<Program>
    requires at < |ts|
    decreases |ts| - at, 0
  {
    if ts[at] == "{" then
      match ParseBundle(p, ts, at)
      case Parsed(b, next) => ParseItems(p, ts, next, done + [BundleItem(b)])
      case UnexpectedEof => UnexpectedEof
      case Syntax(line) => Syntax(line)
    else
      match StripSuffix(ts[at], ":")
      case Some(name) => ParseItems(p, ts, at + 1, done + [LabelItem(name)])
      case None => Syntax(at)
  }

  function ParseItems(p: Processor, ts: seq<string>, pos: nat, done: seq<Item>): ParseResult<Program>
    requires pos <= |ts|
    decreases |ts| - pos, 1
  {
    var at := SkipBlank(ts, pos);
    if at == |ts| then Parsed(Program(p, done), at) else ParseItem(p, ts, at, done)
  }

  function ParseLines(ts: seq<string>): ParseResult<Program> {
    match ParseProcessor(ts, SkipBlank(ts, 0))
    case Parsed(p, next) => ParseItems(p, ts, next, [])
    case UnexpectedEof => UnexpectedEof
    case Syntax(line) => Syntax(line)
  }

  function Parse(text: string): ParseResult<Program> {
    ParseLines(TrimAll(Lines(text)))
  }

  // ----- What is printed and read back -----

  predicate PrintableItem(item: Item) {
    match item
    case LabelItem(name) => NoSpaceWord(name)
    case BundleItem(b) => PrintableBundle(b)
  }

  predicate PrintableProgram(program: Program) {
    PrintableProcessor(program.processor) && forall i :: 0 <= i < |program.items| ==> PrintableItem(program.items[i])
  }

  /** The item as it is read back: bundles at full width, bare nops as empty slots. */
  function CanonicalItem(p: Processor, item: Item): Item {
    match item
    case LabelItem(_) => item
    case BundleItem(b) => BundleItem(CanonicalBundle(b, p.width))
  }

  function CanonicalItems(p: Processor, items: seq<Item>): seq<Item> {
    seq(|items|, i requires 0 <= i < |items| => CanonicalItem(p, items[i]))
  }

  function ItemTexts(p: Processor, item: Item): seq<string> {
    match item
    case LabelItem(name) => [name + ":"]
    case BundleItem(b) => ["{"] + SlotTexts(p, b) + ["}"]
  }

  function ItemsTexts(p: Processor, items: seq<Item>, k: nat): seq<string>
    requires k <= |items|
    decreases |items| - k
  {
    if k == |items| then [] else ItemTexts(p, items[k]) + ItemsTexts(p, items, k + 1)
  }

  lemma {:induction false} ItemLineTexts(p: Processor, item: Item)
    ensures TextsOf(ItemLines(p, item)) == ItemTexts(p, item)
  {
    if item.BundleItem? {
      BundleTexts(p, item.bundle);
    }
  }

  lemma {:induction false} ItemsLineTexts(p: Processor, items: seq<Item>, k: nat)
    requires k <= |items|
    ensures TextsOf(ItemsLines(p, items, k)) == ItemsTexts(p, items, k)
    decreases |items| - k
  {
    if k < |items| {
      TextsTogether(ItemLines(p, items[k]), ItemsLines(p, items, k + 1));
      ItemLineTexts(p, items[k]);
      ItemsLineTexts(p, items, k + 1);
    }
  }

  lemma {:induction false} LabelReads(p: Processor, ts: seq<string>, at: nat, name: string, done: seq<Item>, r: ParseResult<Program>)
    requires at < |ts| && ts[at] == name + ":" && name != "" && ParseItems(p, ts, at + 1, done + [LabelItem(name)]) == r
    ensures ParseItem(p, ts, at, done) == r
  {
    StripSuffixOf(name, ":");
    assert |ts[at]| > 1;
  }

  lemma {:induction false} BundleReads(p: Processor, ts: seq<string>, at: nat, b: Bundle, done: seq<Item>, r: ParseResult<Program>)
    requires GoodAliases(p.slotAliases) && PrintableBundle(b) && LinesAt(ts, at, ["{"] + SlotTexts(p, b) + ["}"])
    requires ParseItems(p, ts, at + p.width + 2, done + [BundleItem(CanonicalBundle(b, p.width))]) == r
    ensures at < |ts| && ts[at] != "" && ParseItem(p, ts, at, done) == r
  {
    BundleRoundTrip(p, b, ts, at);
  }

  lemma {:induction false} NextItem(p: Processor, ts: seq<string>, at: nat, done: seq<Item>, r: ParseResult<Program>)
    requires at < |ts| && ts[at] != "" && ParseItem(p, ts, at, done) == r
    ensures ParseItems(p, ts, at, done) == r
  {
  }

  lemma {:induction false} ItemReads(p: Processor, ts: seq<string>, at: nat, item: Item, done: seq<Item>, r: ParseResult<Program>)
    requires GoodAliases(p.slotAliases) && PrintableItem(item) && LinesAt(ts, at, ItemTexts(p, item))
    requires ParseItems(p, ts, at + |ItemTexts(p, item)|, done + [CanonicalItem(p, item)]) == r
    ensures ParseItems(p, ts, at, done) == r
  {
    match item {
      case LabelItem(name) =>
        assert ts[at + 0] == ItemTexts(p, item)[0];
        LabelReads(p, ts, at, name, done, r);
      case BundleItem(b) =>
        BundleReads(p, ts, at, b, done, r);
    }
    NextItem(p, ts, at, done, r);
  }

  lemma {:induction false} TakeCanonical(p: Processor, items: seq<Item>, k: nat)
    requires k < |items|
    ensures CanonicalItems(p, items)[..k] + [CanonicalItem(p, items[k])] == CanonicalItems(p, items)[..k + 1]
  {
  }

  lemma {:induction false} ItemsRead(p: Processor, ts: seq<string>, at: nat, items: seq<Item>, k: nat)
    requires GoodAliases(p.slotAliases) && (forall i :: 0 <= i < |items| ==> PrintableItem(items[i])) && k <= |items|
    requires LinesAt(ts, at, ItemsTexts(p, items, k)) && at + |ItemsTexts(p, items, k)| == |ts|
    ensures ParseItems(p, ts, at, CanonicalItems(p, items)[..k]) == Parsed(Program(p, CanonicalItems(p, items)), |ts|)
    decreases |items| - k
  {
    if k == |items| {
      assert CanonicalItems(p, items)[..k] == CanonicalItems(p, items);
    } else {
      var next := at + |ItemTexts(p, items[k])|;
      LinesApart(ts, at, ItemTexts(p, items[k]), ItemsTexts(p, items, k + 1));
      ItemsRead(p, ts, next, items, k + 1);
      TakeCanonical(p, items, k);
      ItemReads(p, ts, at, items[k], CanonicalItems(p, items)[..k], Parsed(Program(p, CanonicalItems(p, items)), |ts|));
    }
  }
}
