/** The printed processor header is read back. */
module HeaderRoundTrip {
  import opened Collections
  import opened Opcodes
  import opened Text
  import opened LinesText
  import opened Numerals
  import opened Asm
  import opened SyllableText
  import opened BundleText
  import opened ProcessorText
  import opened HeaderText

  predicate GoodUnits(units: seq<UnitDecl>) {
    forall i :: 0 <= i < |units| ==> NoSpaceWord(units[i].name) && NoSpaceWord(units[i].kind)
  }

  predicate GoodSlotUnits(slotUnits: seq<seq<string>>) {
    |slotUnits| <= U64_MAX && forall i :: 0 <= i < |slotUnits| ==> UnitNames(slotUnits[i])
  }

  /** Proper names, numbers within their types, and a memory size that i64 can hold. */
  predicate PrintableProcessor(p: Processor) {
    && p.width <= U32_MAX && p.cpus <= U32_MAX && p.memorySize <= I64_MAX
    && GoodUnits(p.units) && GoodAliases(p.slotAliases) && GoodSlotUnits(p.slotUnits)
    && AliasSlotsFit(p.slotAliases)
  }

  // ----- Hardware -----

  lemma {:induction false} NoPrefix(s: string, p: string)
    requires s != "" && p != "" && s[0] != p[0]
    ensures StripPrefix(s, p) == None && !StartsWith(s, p)
  {
    assert |p| <= |s| ==> s[..|p|][0] == s[0];
  }

  lemma {:induction false} UnitLineReads(u: UnitDecl, units: seq<UnitDecl>)
    requires NoSpaceWord(u.name) && NoSpaceWord(u.kind)
    ensures |UnitLine(u)| > 1 && UnitReader()(UnitLine(u), units) == Some(units + [u])
  {
    UnitReads(u);
  }

  ghost function UnitStates(us: seq<UnitDecl>): seq<seq<UnitDecl>> {
    seq(|us| + 1, i requires 0 <= i <= |us| => us[..i])
  }

  lemma {:induction false} UnitsTaken(us: seq<UnitDecl>)
    requires GoodUnits(us)
    ensures Takes(UnitTexts(us), UnitReader(), UnitStates(us))
  {
    forall i | 0 <= i < |us|
      ensures |UnitTexts(us)[i]| > 1 && UnitReader()(UnitTexts(us)[i], UnitStates(us)[i]) == Some(UnitStates(us)[i + 1])
    {
      UnitLineReads(us[i], us[..i]);
      TakeNext(us, i);
    }
  }

  lemma {:induction false} HardwareReads(ts: seq<string>, pos: nat, us: seq<UnitDecl>)
    requires GoodUnits(us) && LinesAt(ts, pos, UnitTexts(us)) && pos + |us| < |ts| && ts[pos + |us|] == "}"
    ensures ParseHardware(ts, pos) == Parsed(us, pos + |us| + 1)
  {
    UnitsTaken(us);
    assert us[..|us|] == us && us[..0] == [];
    ReadWhole(ts, pos, true, UnitTexts(us), UnitReader(), UnitStates(us), [], us);
  }

  // ----- Layout -----

  lemma {:induction false} AliasLineReads(a: SlotAlias, l: Layout)
    requires NoSpaceWord(a.name) && a.slot <= U64_MAX
    ensures |AliasLine(a)| > 1 && LayoutReader()(AliasLine(a), l) == Some(l.(aliases := l.aliases + [a]))
  {
    StripPrefixOf("alias ", a.name + " = " + Show(a.slot, 10));
    AliasReads(a);
  }

  lemma {:induction false} SlotUnitsLineReads(slot: nat, us: seq<string>, l: Layout)
    requires slot <= U64_MAX && UnitNames(us)
    ensures |SlotUnitsLine(slot, us)| > 1 && LayoutReader()(SlotUnitsLine(slot, us), l) == Some(l.(indexed := l.indexed + [(slot, us)]))
  {
    var t := SlotUnitsLine(slot, us);
    ShowChars(slot, 10);
    assert t[0] == Show(slot, 10)[0];
    NoPrefix(t, "alias ");
    SlotUnitsRead(slot, us);
  }

  ghost function AliasStates(aliases: seq<SlotAlias>): seq<Layout> {
    seq(|aliases| + 1, i requires 0 <= i <= |aliases| => Layout(aliases[..i], []))
  }

  ghost function SlotUnitsStates(aliases: seq<SlotAlias>, sus: seq<seq<string>>): seq<Layout> {
    seq(|sus| + 1, i requires 0 <= i <= |sus| => Layout(aliases, Indexed(sus, i)))
  }

  predicate AliasSlotsFit(aliases: seq<SlotAlias>) {
    forall i :: 0 <= i < |aliases| ==> aliases[i].slot <= U64_MAX
  }

  lemma {:induction false} AliasesTaken(aliases: seq<SlotAlias>)
    requires GoodAliases(aliases) && AliasSlotsFit(aliases)
    ensures Takes(AliasTexts(aliases), LayoutReader(), AliasStates(aliases))
  {
    forall i | 0 <= i < |aliases|
      ensures |AliasTexts(aliases)[i]| > 1 && LayoutReader()(AliasTexts(aliases)[i], AliasStates(aliases)[i]) == Some(AliasStates(aliases)[i + 1])
    {
      AliasLineReads(aliases[i], Layout(aliases[..i], []));
      TakeNext(aliases, i);
    }
  }

  lemma {:induction false} SlotUnitsTaken(aliases: seq<SlotAlias>, sus: seq<seq<string>>)
    requires GoodSlotUnits(sus)
    ensures Takes(SlotUnitsTexts(sus), LayoutReader(), SlotUnitsStates(aliases, sus))
  {
    var ls, states := SlotUnitsTexts(sus), SlotUnitsStates(aliases, sus);
    forall i | 0 <= i < |sus|
      ensures |ls[i]| > 1 && LayoutReader()(ls[i], states[i]) == Some(states[i + 1])
    {
      SlotUnitsTakenAt(aliases, sus, i);
    }
  }

  lemma {:induction false} SlotUnitsTakenAt(aliases: seq<SlotAlias>, sus: seq<seq<string>>, i: nat)
    requires GoodSlotUnits(sus) && i < |sus|
    ensures |SlotUnitsLine(i, sus[i])| > 1
    ensures LayoutReader()(SlotUnitsLine(i, sus[i]), Layout(aliases, Indexed(sus, i))) == Some(Layout(aliases, Indexed(sus, i + 1)))
  {
    SlotUnitsLineReads(i, sus[i], Layout(aliases, Indexed(sus, i)));
    NextIndexed(sus, i);
  }

  lemma {:induction false} NextIndexed(sus: seq<seq<string>>, i: nat)
    requires i < |sus|
    ensures Indexed(sus, i) + [(i, sus[i])] == Indexed(sus, i + 1)
  {
  }

  lemma {:induction false} AliasEnds(aliases: seq<SlotAlias>)
    ensures AliasStates(aliases)[0] == Layout([], []) && AliasStates(aliases)[|aliases|] == Layout(aliases, [])
  {
  }

  lemma {:induction false} AliasesReady(aliases: seq<SlotAlias>)
    requires GoodAliases(aliases) && AliasSlotsFit(aliases)
    ensures Takes(AliasTexts(aliases), LayoutReader(), AliasStates(aliases))
    ensures AliasStates(aliases)[0] == Layout([], []) && AliasStates(aliases)[|AliasTexts(aliases)|] == Layout(aliases, [])
  {
    AliasesTaken(aliases);
    AliasEnds(aliases);
  }

  lemma {:induction false} AliasesRead(ts: seq<string>, pos: nat, aliases: seq<SlotAlias>, ls: seq<string>, next: nat, r: ParseResult<Layout>)
    requires GoodAliases(aliases) && AliasSlotsFit(aliases) && ls == AliasTexts(aliases) && LinesAt(ts, pos, ls)
    requires pos + |ls| < |ts| && ts[pos + |ls|] == "" && next == pos + |ls| + 1
    requires ReadBlock(ts, next, true, LayoutReader(), Layout(aliases, [])) == r
    ensures ParseLayout(ts, pos) == r
  {
    AliasesReady(aliases);
    ReadToBlank(ts, pos, ls, LayoutReader(), AliasStates(aliases), Layout([], []), Layout(aliases, []));
  }

  lemma {:induction false} SlotUnitsReadAll(ts: seq<string>, pos: nat, aliases: seq<SlotAlias>, sus: seq<seq<string>>, next: nat)
    requires GoodSlotUnits(sus) && LinesAt(ts, pos, SlotUnitsTexts(sus)) && pos + |sus| < |ts| && ts[pos + |sus|] == "}"
    requires next == pos + |sus| + 1
    ensures ReadBlock(ts, pos, true, LayoutReader(), Layout(aliases, [])) == Parsed(Layout(aliases, Indexed(sus, |sus|)), next)
  {
    SlotUnitsTaken(aliases, sus);
    assert Indexed(sus, 0) == [];
    ReadWhole(ts, pos, true, SlotUnitsTexts(sus), LayoutReader(), SlotUnitsStates(aliases, sus),
              Layout(aliases, []), Layout(aliases, Indexed(sus, |sus|)));
  }

  function Indexed(slotUnits: seq<seq<string>>, n: nat): seq<(nat, seq<string>)>
    requires n <= |slotUnits|
  {
    seq(n, i requires 0 <= i < n => (i, slotUnits[i]))
  }

  lemma {:induction false} IndexedUnits(sus: seq<seq<string>>, n: nat, slot: nat)
    requires slot < n <= |sus|
    ensures UnitsOfSlot(Indexed(sus, n), slot) == sus[slot] && MaxIndex(Indexed(sus, n)) == n - 1
    decreases n
  {
    assert Indexed(sus, n)[..n - 1] == Indexed(sus, n - 1);
    if n > 1 {
      IndexedUnits(sus, n - 1, if slot < n - 1 then slot else 0);
    } else {
      assert Indexed(sus, n)[..0] == [];
    }
  }

  lemma {:induction false} SlotUnitsBack(sus: seq<seq<string>>)
    ensures SlotUnitsOf(Indexed(sus, |sus|)) == sus
  {
    if sus != [] {
      IndexedUnits(sus, |sus|, 0);
      forall slot | 0 <= slot < |sus|
        ensures UnitsOfSlot(Indexed(sus, |sus|), slot) == sus[slot]
      {
        IndexedUnits(sus, |sus|, slot);
      }
    }
  }
}
