/** Which lines are read as which bundles and items. */
module ProgramGrammar {
  import opened Opcodes
  import opened Text
  import opened LinesText
  import opened Asm
  import opened SyllableText
  import opened BundleText
  import opened ProgramText
  import opened OperandGrammar
  import opened SyllableGrammar
  import opened BlockGrammar

  // ----- One line of a bundle -----

  ghost predicate ContentDenotes(text: string, syl: Option<AsmSyllable>) {
    if text == "nop" then syl == None else syl.Some? && SyllableDenotes(text, syl.value)
  }

  /** A name, a colon, and `nop` or a syllable. */
  ghost predicate SlotLineDenotes(t: string, c: SlotContent) {
    exists name, rest :: CutAt(t, ":", name, rest) && c.name == Trim(name) && ContentDenotes(Trim(rest), c.syllable)
  }

  lemma {:induction false} FoundIsCut(t: string, sep: string, i: nat)
    requires sep != "" && FirstAt(t, sep, i)
    ensures i + |sep| <= |t| && CutAt(t, sep, t[..i], t[i + |sep|..])
  {
    assert t == t[..i] + sep + t[i + |sep|..];
  }

  lemma {:induction false} ContentExactlyWhen(text: string, name: string, c: SlotContent)
    ensures c.name == name && ContentDenotes(text, c.syllable) <==>
              (if text == "nop" then c == Content(name, None) else c.syllable.Some? && c.name == name && ParseSyllable(text) == Some(c.syllable.value))
  {
    if c.syllable.Some? { SyllableExactlyWhen(text, c.syllable.value); }
  }

  lemma {:induction false} SlotLineExactlyWhen(t: string, c: SlotContent)
    ensures ParseSlotLine(t) == Some(c) <==> SlotLineDenotes(t, c)
  {
    match Find(t, ":", 0)
    case None =>
      forall name, rest
        ensures !CutAt(t, ":", name, rest)
      {
      }
    case Some(i) =>
      FoundIsCut(t, ":", i);
      var name, rest := t[..i], t[i + 1..];
      ContentExactlyWhen(Trim(rest), Trim(name), c);
      SlotLineWithColon(t, name, rest, c);
  }

  lemma {:induction false} SlotLineWithColon(t: string, name: string, rest: string, c: SlotContent)
    requires Find(t, ":", 0) == Some(|name|) && CutAt(t, ":", name, rest) && t[..|name|] == name && t[|name| + 1..] == rest
    requires c.name == Trim(name) && ContentDenotes(Trim(rest), c.syllable) <==>
               (if Trim(rest) == "nop" then c == Content(Trim(name), None)
                else c.syllable.Some? && c.name == Trim(name) && ParseSyllable(Trim(rest)) == Some(c.syllable.value))
    ensures ParseSlotLine(t) == Some(c) <==> SlotLineDenotes(t, c)
  {
    if SlotLineDenotes(t, c) {
      var name', rest' :| CutAt(t, ":", name', rest') && c.name == Trim(name') && ContentDenotes(Trim(rest'), c.syllable);
      CutUnique(t, ":", name, rest, name', rest');
    }
  }

  // ----- The slots of a bundle -----

  /** The slot of the first alias of that name, or else the place of the line. */
  ghost predicate NamesSlot(p: Processor, name: string, place: nat, slot: nat) {
    || (exists i: nat :: FirstNamed(p.slotAliases, name, i) && p.slotAliases[i].slot == slot)
    || ((forall i :: 0 <= i < |p.slotAliases| ==> p.slotAliases[i].name != name) && slot == place)
  }

  predicate FirstNamed(aliases: seq<SlotAlias>, name: string, i: nat) {
    i < |aliases| && aliases[i].name == name && forall j :: 0 <= j < i ==> aliases[j].name != name
  }

  lemma {:induction false} AliasNamedFirst(aliases: seq<SlotAlias>, name: string, k: nat)
    requires k <= |aliases| && forall j :: 0 <= j < k ==> aliases[j].name != name
    ensures AliasNamed(aliases, name, k).Some? ==> FirstNamed(aliases, name, AliasNamed(aliases, name, k).value)
    decreases |aliases| - k
  {
    if k < |aliases| && aliases[k].name != name {
      AliasNamedFirst(aliases, name, k + 1);
    }
  }

  lemma {:induction false} SlotIndexExactlyWhen(p: Processor, name: string, place: nat, slot: nat)
    ensures SlotIndex(p, name, place) == slot <==> NamesSlot(p, name, place, slot)
  {
    AliasNamedFirst(p.slotAliases, name, 0);
    var r := AliasNamed(p.slotAliases, name, 0);
    if r.Some? {
      forall i: nat
        ensures FirstNamed(p.slotAliases, name, i) <==> i == r.value
      {
      }
    }
  }

  ghost predicate Fills(p: Processor, cs: seq<SlotContent>, k: nat, slot: nat) {
    k < |cs| && NamesSlot(p, cs[k].name, k, slot)
  }

  /** What the last line for a slot says is in it; a slot without a line is empty. */
  ghost predicate SlotHolds(p: Processor, cs: seq<SlotContent>, slot: nat, content: Option<AsmSyllable>) {
    || (exists k: nat :: Fills(p, cs, k, slot) && content == cs[k].syllable && forall j: nat :: k < j ==> !Fills(p, cs, j, slot))
    || ((forall k: nat :: !Fills(p, cs, k, slot)) && content == None)
  }

  ghost predicate BundleHolds(p: Processor, cs: seq<SlotContent>, b: Bundle) {
    |b| == p.width && forall slot: nat :: slot < p.width ==> SlotHolds(p, cs, slot, b[slot])
  }

  lemma {:induction false} NothingHolds(p: Processor)
    ensures BundleHolds(p, [], EmptySlots(p.width))
  {
  }

  lemma {:induction false} FillsMore(p: Processor, cs: seq<SlotContent>, c: SlotContent, k: nat, slot: nat)
    ensures Fills(p, cs + [c], k, slot) <==> Fills(p, cs, k, slot) || (k == |cs| && NamesSlot(p, c.name, |cs|, slot))
  {
  }

  lemma {:induction false} SlotHoldsMore(p: Processor, cs: seq<SlotContent>, c: SlotContent, slot: nat, content: Option<AsmSyllable>)
    requires SlotHolds(p, cs, slot, content)
    ensures SlotHolds(p, cs + [c], slot, if SlotIndex(p, c.name, |cs|) == slot then c.syllable else content)
  {
    SlotIndexExactlyWhen(p, c.name, |cs|, slot);
    forall k: nat
      ensures Fills(p, cs + [c], k, slot) <==> Fills(p, cs, k, slot) || (k == |cs| && NamesSlot(p, c.name, |cs|, slot))
    {
      FillsMore(p, cs, c, k, slot);
    }
    if NamesSlot(p, c.name, |cs|, slot) {
      assert Fills(p, cs + [c], |cs|, slot) && (cs + [c])[|cs|] == c;
    } else if exists k: nat :: Fills(p, cs, k, slot) && content == cs[k].syllable && forall j: nat :: k < j ==> !Fills(p, cs, j, slot) {
      var k: nat :| Fills(p, cs, k, slot) && content == cs[k].syllable && forall j: nat :: k < j ==> !Fills(p, cs, j, slot);
      assert (cs + [c])[k] == cs[k];
    }
  }

  lemma {:induction false} PutHolds(p: Processor, cs: seq<SlotContent>, b: Bundle, c: SlotContent)
    requires BundleHolds(p, cs, b)
    ensures BundleHolds(p, cs + [c], PutSlot(p, b, c, |cs|))
  {
    forall slot: nat | slot < p.width
      ensures SlotHolds(p, cs + [c], slot, PutSlot(p, b, c, |cs|)[slot])
    {
      SlotHoldsMore(p, cs, c, slot, b[slot]);
    }
  }

  lemma {:induction false} SlotHoldsOne(p: Processor, cs: seq<SlotContent>, slot: nat, x: Option<AsmSyllable>, y: Option<AsmSyllable>)
    requires SlotHolds(p, cs, slot, x) && SlotHolds(p, cs, slot, y)
    ensures x == y
  {
    if exists k: nat :: Fills(p, cs, k, slot) {
      var i: nat :| Fills(p, cs, i, slot) && x == cs[i].syllable && forall j: nat :: i < j ==> !Fills(p, cs, j, slot);
      var k: nat :| Fills(p, cs, k, slot) && y == cs[k].syllable && forall j: nat :: k < j ==> !Fills(p, cs, j, slot);
      assert i == k;
    }
  }

  lemma {:induction false} BundleHoldsOne(p: Processor, cs: seq<SlotContent>, b: Bundle, b': Bundle)
    requires BundleHolds(p, cs, b) && BundleHolds(p, cs, b')
    ensures b == b'
  {
    forall slot: nat | slot < p.width
      ensures b[slot] == b'[slot]
    {
      SlotHoldsOne(p, cs, slot, b[slot], b'[slot]);
    }
  }

  // ----- The lines of a bundle -----

  function AfterSlot(p: Processor): (SlotState, SlotContent) -> SlotState {
    (st: SlotState, c: SlotContent) => SlotState(PutSlot(p, st.slots, c, st.place), st.place + 1)
  }

  lemma {:induction false} AfterSlotIs(p: Processor, st: SlotState, c: SlotContent)
    ensures AfterSlot(p)(st, c) == SlotState(PutSlot(p, st.slots, c, st.place), st.place + 1)
  {
  }

  lemma {:induction false} ReaderTakes(p: Processor, t: string, st: SlotState, c: SlotContent)
    requires ParseSlotLine(t) == Some(c)
    ensures SlotReader(p)(t, st) == Some(AfterSlot(p)(st, c))
  {
  }

  lemma {:induction false} ReaderTook(p: Processor, t: string, st: SlotState)
    requires SlotReader(p)(t, st).Some?
    ensures ParseSlotLine(t).Some?
  {
  }

  lemma {:induction false} SlotsUnderstood(p: Processor)
    ensures Understands(SlotReader(p), SlotLineDenotes, AfterSlot(p))
  {
    var step, after := SlotReader(p), AfterSlot(p);
    forall t, st: SlotState, c
      ensures SlotLineDenotes(t, c) ==> step(t, st) == Some(after(st, c))
    {
      SlotTaken(p, t, st, c);
    }
    forall t, st: SlotState | step(t, st).Some?
      ensures exists c :: SlotLineDenotes(t, c)
    {
      SlotTook(p, t, st);
    }
  }

  lemma {:induction false} SlotTaken(p: Processor, t: string, st: SlotState, c: SlotContent)
    ensures SlotLineDenotes(t, c) ==> SlotReader(p)(t, st) == Some(AfterSlot(p)(st, c))
  {
    SlotLineExactlyWhen(t, c);
    if ParseSlotLine(t) == Some(c) { ReaderTakes(p, t, st, c); }
  }

  lemma {:induction false} SlotTook(p: Processor, t: string, st: SlotState)
    requires SlotReader(p)(t, st).Some?
    ensures exists c :: SlotLineDenotes(t, c)
  {
    ReaderTook(p, t, st);
    SlotLineExactlyWhen(t, ParseSlotLine(t).value);
  }

  lemma {:induction false} FoldHolds(p: Processor, after: (SlotState, SlotContent) -> SlotState, cs: seq<SlotContent>)
    requires after == AfterSlot(p)
    ensures var st := FoldAll(after, SlotState(EmptySlots(p.width), 0), cs); st.place == |cs| && BundleHolds(p, cs, st.slots)
  {
    if cs == [] {
      NothingHolds(p);
    } else {
      var n := |cs| - 1;
      FoldHolds(p, after, cs[..n]);
      var st := FoldAll(after, SlotState(EmptySlots(p.width), 0), cs[..n]);
      AfterSlotIs(p, st, cs[n]);
      PutHolds(p, cs[..n], st.slots, cs[n]);
      assert cs[..n] + [cs[n]] == cs;
    }
  }

  /** Behind the opening brace in line `open`, lines `ats` up to the closing brace say what is in cs. */
  ghost predicate SlotLines(ts: seq<string>, open: nat, to: nat, ats: seq<nat>, cs: seq<SlotContent>) {
    BlockSays(ts, false, SlotLineDenotes, open + 1, to, ats, cs)
  }

  /** The lines up to the closing brace each say what is in a slot, and the bundle holds just that. */
  ghost predicate BundleDenoted(p: Processor, ts: seq<string>, at: nat, next: nat, b: Bundle) {
    exists ats, cs :: SlotLines(ts, at, next, ats, cs) && BundleHolds(p, cs, b)
  }

  lemma {:induction false} BundleIsBlock(p: Processor, ts: seq<string>, at: nat, next: nat, b: Bundle)
    requires at < |ts|
    ensures ParseBundle(p, ts, at) == Parsed(b, next) <==>
              var r := ReadBlock(ts, at + 1, false, SlotReader(p), SlotState(EmptySlots(p.width), 0));
              r.Parsed? && r.value.slots == b && r.pos == next
  {
  }

  /** Exactly these lines are read as the bundle. */
  lemma {:induction false} BundleExactlyWhen(p: Processor, ts: seq<string>, at: nat, next: nat, b: Bundle)
    requires at < |ts|
    ensures ParseBundle(p, ts, at) == Parsed(b, next) <==> BundleDenoted(p, ts, at, next, b)
  {
    var step, after, st := SlotReader(p), AfterSlot(p), SlotState(EmptySlots(p.width), 0);
    SlotsUnderstood(p);
    BundleIsBlock(p, ts, at, next, b);
    SlotsExactlyWhen(p, ts, at, next, step, after, st, b);
  }

  lemma {:induction false} SlotsExactlyWhen(p: Processor, ts: seq<string>, at: nat, next: nat, step: (string, SlotState) -> Option<SlotState>,
                                            after: (SlotState, SlotContent) -> SlotState, st: SlotState, b: Bundle)
    requires at < |ts| && after == AfterSlot(p) && Understands(step, SlotLineDenotes, after) && st == SlotState(EmptySlots(p.width), 0)
    ensures var r := ReadBlock(ts, at + 1, false, step, st); r.Parsed? && r.value.slots == b && r.pos == next <==> BundleDenoted(p, ts, at, next, b)
  {
    var r := ReadBlock(ts, at + 1, false, step, st);
    if r.Parsed? {
      BlockSaysExactlyWhen(ts, false, step, SlotLineDenotes, after, at + 1, r.pos, st, r.value);
      var ats, cs :| BlockSays(ts, false, SlotLineDenotes, at + 1, r.pos, ats, cs) && r.value == FoldAll(after, st, cs);
      FoldHolds(p, after, cs);
      assert SlotLines(ts, at, r.pos, ats, cs);
    }
    if BundleDenoted(p, ts, at, next, b) {
      var ats, cs :| SlotLines(ts, at, next, ats, cs) && BundleHolds(p, cs, b);
      FoldHolds(p, after, cs);
      BlockSaysExactlyWhen(ts, false, step, SlotLineDenotes, after, at + 1, next, st, FoldAll(after, st, cs));
      BundleHoldsOne(p, cs, b, FoldAll(after, st, cs).slots);
    }
  }

  // ----- Items -----

  /** A label and its colon, or a bundle in braces. */
  ghost predicate ItemDenoted(p: Processor, ts: seq<string>, at: nat, next: nat, item: Item) {
    at < |ts| &&
    match item
    case LabelItem(name) => ts[at] == name + ":" && ts[at] != "{" && next == at + 1
    case BundleItem(b) => ts[at] == "{" && BundleDenoted(p, ts, at, next, b)
  }

  /** The items follow one another, with blank lines between and behind them only. */
  ghost predicate ItemsDenoted(p: Processor, ts: seq<string>, from: nat, items: seq<Item>)
    decreases |items|
  {
    if items == [] then from <= |ts| && forall k :: from <= k < |ts| ==> ts[k] == ""
    else exists at, next :: NextAt(ts, true, from, at) && ItemDenoted(p, ts, at, next, items[0]) && ItemsDenoted(p, ts, next, items[1..])
  }

  lemma {:induction false} LabelExactlyWhen(t: string, name: string)
    ensures StripSuffix(t, ":") == Some(name) <==> t == name + ":"
  {
    if StripSuffix(t, ":") == Some(name) {
      assert t == t[..|t| - 1] + t[|t| - 1..];
    }
  }

  /** The item at a line that is not blank. */
  lemma {:induction false} ReadsItem(p: Processor, ts: seq<string>, at: nat, done: seq<Item>) returns (item: Item, next: nat)
    requires at < |ts| && ParseItem(p, ts, at, done).Parsed?
    ensures ItemDenoted(p, ts, at, next, item) && at < next <= |ts| && ParseItem(p, ts, at, done) == ParseItems(p, ts, next, done + [item])
  {
    if ts[at] == "{" {
      var r := ParseBundle(p, ts, at);
      item, next := BundleItem(r.value), r.pos;
      BundleExactlyWhen(p, ts, at, next, r.value);
    } else {
      var name := StripSuffix(ts[at], ":").value;
      item, next := LabelItem(name), at + 1;
      LabelExactlyWhen(ts[at], name);
    }
  }

  lemma {:induction false} ItemIsRead(p: Processor, ts: seq<string>, at: nat, next: nat, item: Item, done: seq<Item>)
    requires ItemDenoted(p, ts, at, next, item)
    ensures at < next <= |ts| && ParseItem(p, ts, at, done) == ParseItems(p, ts, next, done + [item])
  {
    match item
    case LabelItem(name) => LabelExactlyWhen(ts[at], name);
    case BundleItem(b) => BundleExactlyWhen(p, ts, at, next, b);
  }

  lemma {:induction false} ReadsItems(p: Processor, ts: seq<string>, from: nat, done: seq<Item>) returns (items: seq<Item>)
    requires from <= |ts| && ParseItems(p, ts, from, done).Parsed?
    ensures ItemsDenoted(p, ts, from, items) && ParseItems(p, ts, from, done) == Parsed(Program(p, done + items), |ts|)
    decreases |ts| - from
  {
    var at := SkipBlank(ts, from);
    SkipFinds(ts, from);
    if at == |ts| {
      items := [];
      assert done + items == done;
    } else {
      var item, next := ReadsItem(p, ts, at, done);
      var rest := ReadsItems(p, ts, next, done + [item]);
      items := [item] + rest;
      assert items[1..] == rest && done + [item] + rest == done + items;
      assert NextAt(ts, true, from, at);
    }
  }

  lemma {:induction false} ItemsAreRead(p: Processor, ts: seq<string>, from: nat, done: seq<Item>, items: seq<Item>)
    requires ItemsDenoted(p, ts, from, items)
    ensures from <= |ts| && ParseItems(p, ts, from, done) == Parsed(Program(p, done + items), |ts|)
    decreases |items|
  {
    if items == [] {
      SkipFinds(ts, from);
      assert done + items == done;
    } else {
      var at, next :| NextAt(ts, true, from, at) && ItemDenoted(p, ts, at, next, items[0]) && ItemsDenoted(p, ts, next, items[1..]);
      NextExactlyWhen(ts, true, from, at);
      ItemIsRead(p, ts, at, next, items[0], done);
      ItemsAreRead(p, ts, next, done + [items[0]], items[1..]);
      assert done + [items[0]] + items[1..] == done + items;
    }
  }

  /** Exactly these lines are read as the items. */
  lemma {:induction false} ItemsExactlyWhen(p: Processor, ts: seq<string>, from: nat, items: seq<Item>)
    requires from <= |ts|
    ensures ParseItems(p, ts, from, []) == Parsed(Program(p, items), |ts|) <==> ItemsDenoted(p, ts, from, items)
  {
    if ParseItems(p, ts, from, []).Parsed? {
      var read := ReadsItems(p, ts, from, []);
      assert [] + read == read;
    }
    if ItemsDenoted(p, ts, from, items) {
      ItemsAreRead(p, ts, from, [], items);
      assert [] + items == items;
    }
  }
}
