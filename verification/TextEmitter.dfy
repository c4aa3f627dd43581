/** The printer, line by line into a buffer. */
module TextEmitter {
  import opened Collections
  import opened LinesText
  import opened Asm
  import opened BundleText
  import opened ProcessorText
  import opened ProgramText

  /** What the lines look like on paper. */
  function Printed(ls: seq<Line>): string { Unlines(WrittenAll(ls), 0) }

  lemma {:induction false} UnlinesTogether(xs: seq<string>, ys: seq<string>, k: nat)
    requires k <= |xs|
    ensures Unlines(xs + ys, k) == Unlines(xs, k) + Unlines(ys, 0)
    decreases |xs| - k
  {
    if k == |xs| {
      UnlinesShift(xs, ys, 0);
    } else {
      UnlinesTogether(xs, ys, k + 1);
    }
  }

  lemma {:induction false} UnlinesShift(xs: seq<string>, ys: seq<string>, k: nat)
    requires k <= |ys|
    ensures Unlines(xs + ys, |xs| + k) == Unlines(ys, k)
    decreases |ys| - k
  {
    if k < |ys| {
      UnlinesShift(xs, ys, k + 1);
      assert (xs + ys)[|xs| + k] == ys[k];
    }
  }

  /** One buffer after another. */
  lemma {:induction false} PrintedTogether(out: string, xs: seq<Line>, ys: seq<Line>)
    ensures out + Printed(xs) + Printed(ys) == out + Printed(xs + ys)
  {
    assert WrittenAll(xs + ys) == WrittenAll(xs) + WrittenAll(ys);
    UnlinesTogether(WrittenAll(xs), WrittenAll(ys), 0);
    assert out + Printed(xs) + Printed(ys) == out + (Printed(xs) + Printed(ys));
  }

  lemma {:induction false} PrintedNothing(out: string)
    ensures out + Printed([]) == out
  {
  }

  method WriteLine(out: string, l: Line) returns (r: string)
    ensures r == out + Printed([l])
  {
    r := out + Written(l) + "\n";
    assert WrittenAll([l]) == [Written(l)];
    assert Unlines([Written(l)], 1) == "";
    assert Unlines([Written(l)], 0) == Written(l) + "\n";
    assert r == out + (Written(l) + "\n");
  }

  /** Writes the texts one by one, all with the same indentation. */
  method WriteAll(out: string, indent: nat, ts: seq<string>) returns (r: string)
    ensures r == out + Printed(Indented(indent, ts))
  {
    r := out;
    PrintedNothing(out);
    assert Indented(indent, ts[..0]) == [];
    for i := 0 to |ts|
      invariant r == out + Printed(Indented(indent, ts[..i]))
    {
      r := WriteLine(r, Line(indent, ts[i]));
      PrintedTogether(out, Indented(indent, ts[..i]), [Line(indent, ts[i])]);
      assert Indented(indent, ts[..i + 1]) == Indented(indent, ts[..i]) + [Line(indent, ts[i])];
    }
    assert ts[..|ts|] == ts;
  }

  /** The slots of a bundle, nops where it has none. */
  method EmitBundle(out: string, b: Bundle, p: Processor) returns (r: string)
    ensures r == out + Printed(BundleLines(p, b))
  {
    r := WriteLine(out, Line(0, "{"));
    ghost var done := [Line(0, "{")];
    for slot := 0 to p.width
      invariant done == BundleLines(p, b)[..slot + 1] && r == out + Printed(done)
    {
      var line := Line(2, SlotLine(p, b, slot));
      r := WriteLine(r, line);
      PrintedTogether(out, done, [line]);
      done := done + [line];
    }
    r := WriteLine(r, Line(0, "}"));
    PrintedTogether(out, done, [Line(0, "}")]);
    assert done + [Line(0, "}")] == BundleLines(p, b);
  }

  method EmitHardware(out: string, p: Processor) returns (r: string)
    ensures r == out + Printed(HardwareLines(p))
  {
    var open, units, close := [Line(2, "hardware {")], Indented(4, UnitTexts(p.units)), [Line(2, "}")];
    r := WriteLine(out, Line(2, "hardware {"));
    r := WriteAll(r, 4, UnitTexts(p.units));
    PrintedTogether(out, open, units);
    r := WriteLine(r, Line(2, "}"));
    PrintedTogether(out, open + units, close);
  }

  method EmitLayout(out: string, p: Processor) returns (r: string)
    ensures r == out + Printed(LayoutLines(p))
  {
    var open, aliases, blank := [Line(2, "layout slots {")], Indented(4, AliasTexts(p.slotAliases)), [Line(0, "")];
    var slots, close := Indented(4, SlotUnitsTexts(p.slotUnits)), [Line(2, "}")];
    r := WriteLine(out, Line(2, "layout slots {"));
    r := WriteAll(r, 4, AliasTexts(p.slotAliases));
    PrintedTogether(out, open, aliases);
    r := WriteLine(r, Line(0, ""));
    PrintedTogether(out, open + aliases, blank);
    r := WriteAll(r, 4, SlotUnitsTexts(p.slotUnits));
    PrintedTogether(out, open + aliases + blank, slots);
    r := WriteLine(r, Line(2, "}"));
    PrintedTogether(out, open + aliases + blank + slots, close);
  }

  method WriteEach(out: string, ls: seq<Line>) returns (r: string)
    ensures r == out + Printed(ls)
  {
    r := out;
    PrintedNothing(out);
    for i := 0 to |ls|
      invariant r == out + Printed(ls[..i])
    {
      r := WriteLine(r, ls[i]);
      PrintedTogether(out, ls[..i], [ls[i]]);
      assert ls[..i + 1] == ls[..i] + [ls[i]];
    }
    assert ls[..|ls|] == ls;
  }

  method EmitHeader(out: string, p: Processor) returns (r: string)
    ensures r == out + Printed(HeaderLines(p))
  {
    var head := [Line(0, ".processor {"), Line(2, WidthLine(p)), Line(0, "")];
    var tail := [Line(2, "cache { }"), Line(2, TopologyLine(p)), Line(0, "}")];
    var blank, hw, layout, memory := [Line(0, "")], HardwareLines(p), LayoutLines(p), MemoryLines(p);
    r := WriteEach(out, head);
    r := EmitHardware(r, p);
    PrintedTogether(out, head, hw);
    r := WriteLine(r, Line(0, ""));
    PrintedTogether(out, head + hw, blank);
    r := EmitLayout(r, p);
    PrintedTogether(out, head + hw + blank, layout);
    r := WriteLine(r, Line(0, ""));
    PrintedTogether(out, head + hw + blank + layout, blank);
    r := WriteEach(r, memory);
    PrintedTogether(out, head + hw + blank + layout + blank, memory);
    r := WriteEach(r, tail);
    PrintedTogether(out, head + hw + blank + layout + blank + memory, tail);
  }

  /** The lines of the first n items. */
  ghost function FirstItems(p: Processor, items: seq<Item>, n: nat): seq<Line>
    requires n <= |items|
  {
    if n == 0 then [] else FirstItems(p, items, n - 1) + ItemLines(p, items[n - 1])
  }

  lemma {:induction false} MoveItem(p: Processor, items: seq<Item>, n: nat)
    requires n < |items|
    ensures FirstItems(p, items, n + 1) + ItemsLines(p, items, n + 1) == FirstItems(p, items, n) + ItemsLines(p, items, n)
  {
    Reassociate(FirstItems(p, items, n), ItemLines(p, items[n]), ItemsLines(p, items, n + 1));
  }

  lemma {:induction false} FirstAndRest(p: Processor, items: seq<Item>, n: nat)
    requires n <= |items|
    ensures FirstItems(p, items, n) + ItemsLines(p, items, n) == ItemsLines(p, items, 0)
  {
    if n == 0 {
      assert [] + ItemsLines(p, items, 0) == ItemsLines(p, items, 0);
    } else {
      FirstAndRest(p, items, n - 1);
      MoveItem(p, items, n - 1);
    }
  }

  lemma {:induction false} NextItemLines(p: Processor, items: seq<Item>, n: nat, out: string)
    requires n < |items|
    ensures out + Printed(FirstItems(p, items, n)) + Printed(ItemLines(p, items[n])) == out + Printed(FirstItems(p, items, n + 1))
  {
    PrintedTogether(out, FirstItems(p, items, n), ItemLines(p, items[n]));
  }

  lemma {:induction false} AllItemLines(p: Processor, items: seq<Item>)
    ensures FirstItems(p, items, |items|) == ItemsLines(p, items, 0)
  {
    FirstAndRest(p, items, |items|);
    assert FirstItems(p, items, |items|) + [] == FirstItems(p, items, |items|);
  }

  method EmitItem(out: string, p: Processor, item: Item) returns (r: string)
    ensures r == out + Printed(ItemLines(p, item))
  {
    match item {
      case LabelItem(name) => r := WriteLine(out, Line(0, name + ":"));
      case BundleItem(b) => r := EmitBundle(out, b, p);
    }
  }

  method EmitItems(out: string, p: Processor, items: seq<Item>) returns (r: string)
    ensures r == out + Printed(ItemsLines(p, items, 0))
  {
    r := out;
    PrintedNothing(out);
    for n := 0 to |items|
      invariant r == out + Printed(FirstItems(p, items, n))
    {
      r := EmitItem(r, p, items[n]);
      NextItemLines(p, items, n, out);
    }
    AllItemLines(p, items);
  }

  /** The whole program: header, a blank line, then every item in order. */
  method EmitProgram(program: Program) returns (out: string)
    ensures out == Emit(program)
  {
    var p := program.processor;
    ghost var head, items := HeaderLines(p), ItemsLines(p, program.items, 0);
    out := EmitHeader("", p);
    out := WriteLine(out, Line(0, ""));
    PrintedTogether("", head, [Line(0, "")]);
    out := EmitItems(out, p, program.items);
    PrintedTogether("", head + [Line(0, "")], items);
    assert "" + Printed(head + [Line(0, "")] + items) == Printed(head + [Line(0, "")] + items);
  }
}
