/** Bundles as lines of text, and back. */
module BundleText {
  import opened Opcodes
  import opened Text
  import opened LinesText
  import opened Asm
  import opened SyllableText

  // ----- Printing -----

  function AliasOfSlot(aliases: seq<SlotAlias>, slot: nat, k: nat): (r: Option<nat>)
    requires k <= |aliases|
    ensures r.Some? ==> k <= r.value < |aliases| && aliases[r.value].slot == slot
    ensures r.None? ==> forall i :: k <= i < |aliases| ==> aliases[i].slot != slot
    decreases |aliases| - k
  {
    if k == |aliases| then None
    else if aliases[k].slot == slot then Some(k)
    else AliasOfSlot(aliases, slot, k + 1)
  }

  /** The slot's first alias; `??` if it has none. */
  function SlotName(p: Processor, slot: nat): string {
    match AliasOfSlot(p.slotAliases, slot, 0)
    case Some(k) => p.slotAliases[k].name
    case None => "??"
  }

  function LongestAlias(aliases: seq<SlotAlias>): nat {
    if aliases == [] then 0
    else
      var n := |aliases| - 1;
      var rest := LongestAlias(aliases[..n]);
      if |aliases[n].name| > rest then |aliases[n].name| else rest
  }

  /** Names are padded to the width of the longest alias. */
  function DisplayName(p: Processor, slot: nat): string {
    var name := SlotName(p, slot);
    var width := if p.slotAliases == [] then 1 else LongestAlias(p.slotAliases);
    name + Blanks(if |name| < width then width - |name| else 0)
  }

  function SlotText(b: Bundle, slot: nat): string {
    if slot < |b| && b[slot].Some? then ShowSyllable(b[slot].value) else "nop"
  }

  function SlotLine(p: Processor, b: Bundle, slot: nat): string {
    DisplayName(p, slot) + ": " + SlotText(b, slot)
  }

  function BundleLines(p: Processor, b: Bundle): seq<Line> {
    [Line(0, "{")] + seq(p.width, slot requires 0 <= slot < p.width => Line(2, SlotLine(p, b, slot))) + [Line(0, "}")]
  }

  // ----- Parsing -----

  function AliasNamed(aliases: seq<SlotAlias>, name: string, k: nat): (r: Option<nat>)
    requires k <= |aliases|
    ensures r.Some? ==> k <= r.value < |aliases| && aliases[r.value].name == name
    ensures r.None? ==> forall i :: k <= i < |aliases| ==> aliases[i].name != name
    decreases |aliases| - k
  {
    if k == |aliases| then None
    else if aliases[k].name == name then Some(k)
    else AliasNamed(aliases, name, k + 1)
  }

  /** A slot is found by alias, else by its place in the bundle. */
  function SlotIndex(p: Processor, name: string, place: nat): nat {
    match AliasNamed(p.slotAliases, name, 0)
    case Some(k) => p.slotAliases[k].slot
    case None => place
  }

  datatype SlotContent = Content(name: string, syllable: Option<AsmSyllable>)

  function ParseSlotLine(trimmed: string): Option<SlotContent> {
    match Find(trimmed, ":", 0)
    case None => None
    case Some(colon) =>
      var name, rest := Trim(trimmed[..colon]), Trim(trimmed[colon + 1..]);
      if rest == "nop" then Some(Content(name, None))
      else
        match ParseSyllable(rest)
        case Some(syl) => Some(Content(name, Some(syl)))
        case None => None
  }

  function PutSlot(p: Processor, slots: Bundle, c: SlotContent, place: nat): Bundle {
    var slot := SlotIndex(p, c.name, place);
    if slot < |slots| then slots[slot := c.syllable] else slots
  }

  /** The slots filled so far and the place of the next line. */
  datatype SlotState = SlotState(slots: Bundle, place: nat)

  /** One line of a bundle after its opening brace. */
  function SlotStep(p: Processor, trimmed: string, st: SlotState): Option<SlotState> {
    match ParseSlotLine(trimmed)
    case None => None
    case Some(c) => Some(SlotState(PutSlot(p, st.slots, c, st.place), st.place + 1))
  }

  function SlotReader(p: Processor): (string, SlotState) -> Option<SlotState> {
    (trimmed, st) => SlotStep(p, trimmed, st)
  }

  function EmptySlots(width: nat): Bundle { seq(width, _ => None) }

  function ParseBundle(p: Processor, ts: seq<string>, pos: nat): (r: ParseResult<Bundle>)
    requires pos < |ts|
    ensures r.Parsed? ==> pos < r.pos <= |ts|
  {
    match ReadBlock(ts, pos + 1, false, SlotReader(p), SlotState(EmptySlots(p.width), 0))
    case Parsed(st, next) => Parsed(st.slots, next)
    case UnexpectedEof => UnexpectedEof
    case Syntax(line) => Syntax(line)
  }

  // ----- Round trip -----

  predicate AliasName(s: string) { NoSpaceWord(s) && ':' !in s && s != "??" }

  /** Aliases have proper, distinct names. */
  predicate GoodAliases(aliases: seq<SlotAlias>) {
    && (forall i :: 0 <= i < |aliases| ==> AliasName(aliases[i].name))
    && forall i, j :: 0 <= i < j < |aliases| ==> aliases[i].name != aliases[j].name
  }

  lemma {:induction false} NameFindsSlot(p: Processor, slot: nat)
    requires GoodAliases(p.slotAliases)
    ensures SlotIndex(p, SlotName(p, slot), slot) == slot
  {
  }

  lemma {:induction false} SlotNameTight(p: Processor, slot: nat)
    requires GoodAliases(p.slotAliases)
    ensures NoSpaceWord(SlotName(p, slot)) && ':' !in SlotName(p, slot)
  {
  }

  /** What a slot can hold on paper: an explicit nop without operands reads as an empty slot. */
  predicate IsBareNop(syl: AsmSyllable) { syl.opcode == "nop" && syl.operands == [] }

  function CanonicalSlot(b: Bundle, slot: nat): Option<AsmSyllable> {
    if slot < |b| && b[slot].Some? && !IsBareNop(b[slot].value) then b[slot] else None
  }

  function CanonicalBundle(b: Bundle, width: nat): Bundle {
    seq(width, slot requires 0 <= slot < width => CanonicalSlot(b, slot))
  }

  predicate PrintableBundle(b: Bundle) {
    forall i :: 0 <= i < |b| && b[i].Some? ==> PrintableSyllable(b[i].value)
  }

  lemma {:induction false} FindColon(a: string, b: string)
    requires ':' !in a
    ensures Find(a + ":" + b, ":", 0) == Some(|a|)
  {
    SplitAtFirst(a, ":", b);
    var s := a + ":" + b;
    forall k | 0 <= k < |a|
      ensures !OccursAt(s, ":", k)
    {
      OccursFirst(s, ":", k);
      assert s[k] == a[k];
    }
    assert s[|a|..|a| + 1] == ":";
    assert OccursAt(s, ":", |a|);
  }

  lemma {:induction false} ShowsNop(syl: AsmSyllable)
    requires PrintableSyllable(syl)
    ensures ShowSyllable(syl) == "nop" <==> IsBareNop(syl)
  {
    if syl.operands != [] {
      var s := ShowSyllable(syl);
      assert s[|syl.opcode|] == ' ';
      assert ' ' !in "nop";
    }
  }

  lemma {:induction false} AroundColon(a: string, text: string)
    requires ':' !in a
    ensures var t := a + ": " + text; Find(t, ":", 0) == Some(|a|) && t[..|a|] == a && t[|a| + 1..] == " " + text
  {
    var t := a + ": " + text;
    assert t == a + ":" + (" " + text);
    FindColon(a, " " + text);
  }

  lemma {:induction false} NameTrims(name: string, blanks: string)
    requires NoSpaceWord(name) && AllSpaces(blanks)
    ensures Trim(name + blanks) == name
  {
    TrimPadded("", name, blanks);
    assert "" + name + blanks == name + blanks;
  }

  lemma {:induction false} LineIsTight(name: string, blanks: string, text: string)
    requires NoSpaceWord(name) && Tight(text)
    ensures var t := name + blanks + ": " + text; Tight(t) && |t| > 1
  {
  }

  /** The line of a slot, already without its indentation. */
  lemma {:induction false} SlotLineParts(name: string, blanks: string, text: string)
    requires NoSpaceWord(name) && ':' !in name && AllSpaces(blanks) && ':' !in blanks && Tight(text)
    ensures var t := name + blanks + ": " + text;
            && Find(t, ":", 0) == Some(|name + blanks|)
            && Trim(t[..|name + blanks|]) == name && Trim(t[|name + blanks| + 1..]) == text
  {
    AroundColon(name + blanks, text);
    NameTrims(name, blanks);
    TrimIndented(" ", text);
  }

  lemma {:induction false} SlotTextReads(b: Bundle, slot: nat)
    requires PrintableBundle(b)
    ensures Tight(SlotText(b, slot))
    ensures SlotText(b, slot) == "nop" <==> CanonicalSlot(b, slot).None?
    ensures CanonicalSlot(b, slot).Some? ==> ParseSyllable(SlotText(b, slot)) == CanonicalSlot(b, slot)
  {
    if slot < |b| && b[slot].Some? {
      ShowsNop(b[slot].value);
      SyllableRoundTrip(b[slot].value);
    }
  }

  lemma {:induction false} SplitLineReads(t: string, colon: nat, name: string, text: string, syl: Option<AsmSyllable>)
    requires colon < |t| && Find(t, ":", 0) == Some(colon) && Trim(t[..colon]) == name && Trim(t[colon + 1..]) == text
    requires if text == "nop" then syl.None? else syl.Some? && ParseSyllable(text) == syl
    ensures ParseSlotLine(t) == Some(Content(name, syl))
  {
  }

  lemma {:induction false} LineReads(name: string, blanks: string, text: string, syl: Option<AsmSyllable>)
    requires NoSpaceWord(name) && ':' !in name && AllSpaces(blanks) && ':' !in blanks && Tight(text)
    requires if text == "nop" then syl.None? else syl.Some? && ParseSyllable(text) == syl
    ensures ParseSlotLine(name + blanks + ": " + text) == Some(Content(name, syl))
  {
    SlotLineParts(name, blanks, text);
    SplitLineReads(name + blanks + ": " + text, |name + blanks|, name, text, syl);
  }

  lemma {:induction false} SlotLineReads(p: Processor, b: Bundle, slot: nat)
    requires GoodAliases(p.slotAliases) && PrintableBundle(b)
    ensures var t := SlotLine(p, b, slot);
            |t| > 1 && Tight(t) && ParseSlotLine(t) == Some(Content(SlotName(p, slot), CanonicalSlot(b, slot)))
  {
    var name, text := SlotName(p, slot), SlotText(b, slot);
    var blanks := DisplayName(p, slot)[|name|..];
    assert DisplayName(p, slot) == name + blanks;
    SlotNameTight(p, slot);
    SlotTextReads(b, slot);
    LineIsTight(name, blanks, text);
    LineReads(name, blanks, text, CanonicalSlot(b, slot));
  }

  lemma {:induction false} PutCanonical(p: Processor, b: Bundle, slots: Bundle, slot: nat)
    requires GoodAliases(p.slotAliases) && slot < |slots|
    ensures PutSlot(p, slots, Content(SlotName(p, slot), CanonicalSlot(b, slot)), slot) == slots[slot := CanonicalSlot(b, slot)]
  {
    NameFindsSlot(p, slot);
  }

  ghost function PartlyRead(b: Bundle, width: nat, slot: nat): Bundle {
    seq(width, i requires 0 <= i < width => if i < slot then CanonicalSlot(b, i) else None)
  }

  lemma {:induction false} OneMoreRead(p: Processor, b: Bundle, slot: nat)
    requires GoodAliases(p.slotAliases) && slot < p.width
    ensures PutSlot(p, PartlyRead(b, p.width, slot), Content(SlotName(p, slot), CanonicalSlot(b, slot)), slot) == PartlyRead(b, p.width, slot + 1)
  {
    PutCanonical(p, b, PartlyRead(b, p.width, slot), slot);
    assert PartlyRead(b, p.width, slot)[slot := CanonicalSlot(b, slot)] == PartlyRead(b, p.width, slot + 1);
  }

  function SlotTexts(p: Processor, b: Bundle): seq<string> {
    seq(p.width, slot requires 0 <= slot < p.width => SlotLine(p, b, slot))
  }

  lemma {:induction false} BundleTexts(p: Processor, b: Bundle)
    ensures TextsOf(BundleLines(p, b)) == ["{"] + SlotTexts(p, b) + ["}"]
  {
  }

  ghost function SlotStates(p: Processor, b: Bundle): seq<SlotState> {
    seq(p.width + 1, i requires 0 <= i <= p.width => SlotState(PartlyRead(b, p.width, i), i))
  }

  lemma {:induction false} SlotsTaken(p: Processor, b: Bundle)
    requires GoodAliases(p.slotAliases) && PrintableBundle(b)
    ensures Takes(SlotTexts(p, b), SlotReader(p), SlotStates(p, b))
  {
    var ls, states := SlotTexts(p, b), SlotStates(p, b);
    forall slot | 0 <= slot < p.width
      ensures |ls[slot]| > 1 && SlotReader(p)(ls[slot], states[slot]) == Some(states[slot + 1])
    {
      SlotTaken(p, b, slot);
    }
  }

  lemma {:induction false} SlotTaken(p: Processor, b: Bundle, slot: nat)
    requires GoodAliases(p.slotAliases) && PrintableBundle(b) && slot < p.width
    ensures |SlotLine(p, b, slot)| > 1
    ensures SlotReader(p)(SlotLine(p, b, slot), SlotState(PartlyRead(b, p.width, slot), slot)) ==
              Some(SlotState(PartlyRead(b, p.width, slot + 1), slot + 1))
  {
    SlotLineReads(p, b, slot);
    OneMoreRead(p, b, slot);
  }

  lemma {:induction false} FirstAndLast(p: Processor, b: Bundle)
    ensures SlotStates(p, b)[0] == SlotState(EmptySlots(p.width), 0)
    ensures SlotStates(p, b)[p.width] == SlotState(CanonicalBundle(b, p.width), p.width)
  {
  }

  /** A printed bundle is read back at full width, bare nops as empty slots. */
  lemma {:induction false} BundleRoundTrip(p: Processor, b: Bundle, ts: seq<string>, pos: nat)
    requires GoodAliases(p.slotAliases) && PrintableBundle(b) && LinesAt(ts, pos, ["{"] + SlotTexts(p, b) + ["}"])
    ensures pos < |ts| && ts[pos] == "{"
    ensures ParseBundle(p, ts, pos) == Parsed(CanonicalBundle(b, p.width), pos + p.width + 2)
  {
    var ls := SlotTexts(p, b);
    BundleInPlace(ts, pos, ls);
    SlotsTaken(p, b);
    FirstAndLast(p, b);
    ReadWhole(ts, pos + 1, false, ls, SlotReader(p), SlotStates(p, b),
              SlotState(EmptySlots(p.width), 0), SlotState(CanonicalBundle(b, p.width), p.width));
  }

  lemma {:induction false} BundleInPlace(ts: seq<string>, pos: nat, ls: seq<string>)
    requires LinesAt(ts, pos, ["{"] + ls + ["}"])
    ensures pos + |ls| + 1 < |ts| && ts[pos] == "{" && ts[pos + 1 + |ls|] == "}" && LinesAt(ts, pos + 1, ls)
  {
    LinesApart(ts, pos, ["{"] + ls, ["}"]);
    LinesApart(ts, pos, ["{"], ls);
    assert ts[pos + 0] == ["{"][0];
    assert ts[pos + |["{"] + ls| + 0] == ["}"][0];
  }

  lemma {:induction false} CanonicalIsSame(b: Bundle, width: nat)
    ensures CanonicalBundle(b, width) == b <==> |b| == width && forall i :: 0 <= i < |b| && b[i].Some? ==> !IsBareNop(b[i].value)
  {
    if CanonicalBundle(b, width) == b {
      forall i | 0 <= i < |b| && b[i].Some?
        ensures !IsBareNop(b[i].value)
      {
        assert b[i] == CanonicalBundle(b, width)[i];
      }
    }
  }
}
