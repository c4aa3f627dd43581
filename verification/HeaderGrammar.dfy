/** Which lines are read as which processor header. */
module HeaderGrammar {
  import opened Collections
  import opened Opcodes
  import opened Text
  import opened Numerals
  import opened NumeralGrammar
  import opened LinesText
  import opened BlockGrammar
  import opened Asm
  import opened ProcessorText
  import opened HeaderText
  import opened OperandGrammar

  // ----- Numbers -----

  predicate UnsignedText(s: string, max: nat, n: nat) {
    n <= max && SignedNumeral(s, 10, false, n)
  }

  lemma {:induction false} UsizeExactlyWhen(s: string, n: nat)
    ensures ParseUsize(s) == Some(n) <==> UnsignedText(s, U64_MAX, n)
  {
    IntExactlyWhen(s, 10, 0, U64_MAX, n);
  }

  lemma {:induction false} U32ExactlyWhen(s: string, n: nat)
    ensures ParseU32(s) == Some(n) <==> UnsignedText(s, U32_MAX, n)
  {
    IntExactlyWhen(s, 10, 0, U32_MAX, n);
  }

  // ----- Unit declarations -----

  /** `unit NAME = KIND`, cut at the first ` = `. */
  ghost predicate UnitDenotes(t: string, u: UnitDecl) {
    exists name, kind :: Assigned(t, "unit ", name, kind) && u == UnitDecl(Trim(name), Trim(kind))
  }

  lemma {:induction false} PrefixExactlyWhen(t: string, prefix: string, rest: string)
    ensures StripPrefix(t, prefix) == Some(rest) <==> t == prefix + rest
  {
    if StripPrefix(t, prefix) == Some(rest) {
      assert t == t[..|prefix|] + t[|prefix|..];
    }
  }

  lemma {:induction false} SplitIsCut(s: string, sep: string, pre: string, post: string)
    requires sep != ""
    ensures SplitOnce(s, sep) == Some((pre, post)) <==> CutAt(s, sep, pre, post)
  {
    SplitExactlyWhen(s, sep, pre, post);
  }

  /** NAME = VALUE behind a keyword. */
  predicate Assigned(t: string, keyword: string, name: string, value: string) {
    |keyword| <= |t| && t[..|keyword|] == keyword && CutAt(t[|keyword|..], " = ", name, value)
  }

  lemma {:induction false} AssignedExactlyWhen(t: string, keyword: string, name: string, value: string)
    ensures (StripPrefix(t, keyword).Some? && SplitOnce(StripPrefix(t, keyword).value, " = ") == Some((name, value))) <==>
              Assigned(t, keyword, name, value)
  {
    if StripPrefix(t, keyword).Some? { SplitIsCut(t[|keyword|..], " = ", name, value); }
  }

  lemma {:induction false} UnitExactlyWhen(t: string, u: UnitDecl)
    ensures ParseUnit(t) == Some(u) <==> UnitDenotes(t, u)
  {
    if UnitDenotes(t, u) {
      var name, kind :| Assigned(t, "unit ", name, kind) && u == UnitDecl(Trim(name), Trim(kind));
      AssignedExactlyWhen(t, "unit ", name, kind);
    }
    if ParseUnit(t) == Some(u) {
      var (name, kind) := SplitOnce(StripPrefix(t, "unit ").value, " = ").value;
      AssignedExactlyWhen(t, "unit ", name, kind);
    }
  }

  function AddUnit(): (seq<UnitDecl>, UnitDecl) -> seq<UnitDecl> {
    (units: seq<UnitDecl>, u: UnitDecl) => units + [u]
  }

  lemma {:induction false} UnitTaken(t: string, units: seq<UnitDecl>, u: UnitDecl)
    ensures UnitDenotes(t, u) ==> UnitReader()(t, units) == Some(AddUnit()(units, u))
  {
    UnitExactlyWhen(t, u);
  }

  lemma {:induction false} UnitTook(t: string, units: seq<UnitDecl>)
    requires UnitReader()(t, units).Some?
    ensures exists u :: UnitDenotes(t, u)
  {
    UnitExactlyWhen(t, ParseUnit(t).value);
  }

  lemma {:induction false} UnitsUnderstood()
    ensures Understands(UnitReader(), UnitDenotes, AddUnit())
  {
    var step, after := UnitReader(), AddUnit();
    forall t, units: seq<UnitDecl>, u
      ensures UnitDenotes(t, u) ==> step(t, units) == Some(after(units, u))
    {
      UnitTaken(t, units, u);
    }
    forall t, units: seq<UnitDecl> | step(t, units).Some?
      ensures exists u :: UnitDenotes(t, u)
    {
      UnitTook(t, units);
    }
  }

  lemma {:induction false} AddUnitIs(units: seq<UnitDecl>, u: UnitDecl)
    ensures AddUnit()(units, u) == units + [u]
  {
  }

  lemma {:induction false} UnitsFold(after: (seq<UnitDecl>, UnitDecl) -> seq<UnitDecl>, us: seq<UnitDecl>)
    requires forall units, u :: after(units, u) == units + [u]
    ensures FoldAll(after, [], us) == us
  {
    if us != [] {
      var n := |us| - 1;
      UnitsFold(after, us[..n]);
      TakeNext(us, n);
    }
  }

  ghost predicate HardwareDenoted(ts: seq<string>, from: nat, to: nat, units: seq<UnitDecl>) {
    exists ats :: BlockSays(ts, true, UnitDenotes, from, to, ats, units)
  }

  /** Exactly these lines are read as the units. */
  lemma {:induction false} HardwareExactlyWhen(ts: seq<string>, from: nat, to: nat, units: seq<UnitDecl>)
    requires from <= |ts|
    ensures ParseHardware(ts, from) == Parsed(units, to) <==> HardwareDenoted(ts, from, to, units)
  {
    UnitsUnderstood();
    BlockSaysExactlyWhen(ts, true, UnitReader(), UnitDenotes, AddUnit(), from, to, [], units);
    forall us: seq<UnitDecl>, u
      ensures AddUnit()(us, u) == us + [u]
    {
      AddUnitIs(us, u);
    }
    UnitsFolded(ts, from, to, AddUnit(), units);
  }

  lemma {:induction false} UnitsFolded(ts: seq<string>, from: nat, to: nat, after: (seq<UnitDecl>, UnitDecl) -> seq<UnitDecl>, units: seq<UnitDecl>)
    requires forall us, u :: after(us, u) == us + [u]
    ensures BlockSaysAll(ts, true, UnitDenotes, after, from, to, [], units) <==> HardwareDenoted(ts, from, to, units)
  {
    if BlockSaysAll(ts, true, UnitDenotes, after, from, to, [], units) {
      var ats, us :| BlockSays(ts, true, UnitDenotes, from, to, ats, us) && units == FoldAll(after, [], us);
      UnitsFold(after, us);
    }
    UnitsFold(after, units);
  }

  // ----- Lists of units -----

  predicate NoComma(s: string) { ',' !in s }

  /** ps are the pieces of s between its commas. */
  predicate CommaPieces(s: string, ps: seq<string>)
    decreases |ps|
  {
    ps != [] &&
    if |ps| == 1 then s == ps[0] && NoComma(s)
    else |ps[0]| < |s| && s[..|ps[0]|] == ps[0] && s[|ps[0]|] == ',' && NoComma(ps[0]) && CommaPieces(s[|ps[0]| + 1..], ps[1..])
  }

  lemma {:induction false} NoCommaMore(s: string, start: nat, i: nat)
    requires start <= i < |s| && NoComma(s[start..i]) && s[i] != ','
    ensures NoComma(s[start..i + 1])
  {
    assert s[start..i + 1] == s[start..i] + [s[i]];
  }

  lemma {:induction false} CommasAreCut(s: string, i: nat, start: nat, done: seq<string>) returns (ps: seq<string>)
    requires start <= i <= |s| && NoComma(s[start..i])
    ensures SplitCommas(s, i, start, done) == done + ps && CommaPieces(s[start..], ps)
    decreases |s| - i
  {
    if i == |s| {
      assert s[start..i] == s[start..];
      ps := [s[start..]];
    } else if s[i] == ',' {
      var rest := CommasAreCut(s, i + 1, i + 1, done + [s[start..i]]);
      ps := [s[start..i]] + rest;
      Reassociate(done, [s[start..i]], rest);
      FirstCommaPiece(s, start, i, rest);
    } else {
      NoCommaMore(s, start, i);
      ps := CommasAreCut(s, i + 1, start, done);
    }
  }

  lemma {:induction false} FirstCommaPiece(s: string, start: nat, i: nat, rest: seq<string>)
    requires start <= i < |s| && s[i] == ',' && NoComma(s[start..i]) && CommaPieces(s[i + 1..], rest)
    ensures CommaPieces(s[start..], [s[start..i]] + rest)
  {
    var t := s[start..];
    assert t[..i - start] == s[start..i] && t[i - start] == ',' && t[i - start + 1..] == s[i + 1..];
    assert ([s[start..i]] + rest)[1..] == rest;
  }

  lemma {:induction false} CommaPiecesUnique(s: string, ps: seq<string>, qs: seq<string>)
    requires CommaPieces(s, ps) && CommaPieces(s, qs)
    ensures ps == qs
    decreases |ps|
  {
    OneCommaPiece(s, ps);
    OneCommaPiece(s, qs);
    if |ps| == 1 {
      assert ps == [s] && qs == [s];
    } else {
      FirstPieceNotLonger(s, ps, qs);
      FirstPieceNotLonger(s, qs, ps);
      CommaPiecesUnique(s[|ps[0]| + 1..], ps[1..], qs[1..]);
      assert ps == [ps[0]] + ps[1..] && qs == [qs[0]] + qs[1..];
    }
  }

  lemma {:induction false} OneCommaPiece(s: string, ps: seq<string>)
    requires CommaPieces(s, ps)
    ensures |ps| == 1 <==> NoComma(s)
  {
  }

  lemma {:induction false} FirstPieceNotLonger(s: string, ps: seq<string>, qs: seq<string>)
    requires CommaPieces(s, ps) && CommaPieces(s, qs) && |ps| > 1 && |qs| > 1
    ensures |ps[0]| >= |qs[0]|
  {
  }

  lemma {:induction false} CommasExactlyWhen(s: string, ps: seq<string>)
    ensures ps == SplitCommas(s, 0, 0, []) <==> CommaPieces(s, ps)
  {
    assert s[0..0] == "" && s[0..] == s;
    var qs := CommasAreCut(s, 0, 0, []);
    assert [] + qs == qs;
    if CommaPieces(s, ps) { CommaPiecesUnique(s, ps, qs); }
  }

  predicate AllAre(s: string, c: char) {
    forall i :: 0 <= i < |s| ==> s[i] == c
  }

  /** What is left of s without the c's in front. */
  predicate WithoutFront(s: string, c: char, r: string) {
    |r| <= |s| && s[|s| - |r|..] == r && AllAre(s[..|s| - |r|], c) && (r != "" ==> r[0] != c)
  }

  predicate WithoutBack(s: string, c: char, r: string) {
    |r| <= |s| && s[..|r|] == r && AllAre(s[|r|..], c) && (r != "" ==> r[|r| - 1] != c)
  }

  lemma {:induction false} FrontOnce(s: string, c: char, r: string, i: nat)
    requires WithoutFront(s, c, r) && i <= |s| && AllAre(s[..i], c) && (i < |s| ==> s[i] != c)
    ensures i == |s| - |r|
  {
  }

  lemma {:induction false} BackOnce(s: string, c: char, r: string, i: nat)
    requires WithoutBack(s, c, r) && i <= |s| && AllAre(s[i..], c) && (i > 0 ==> s[i - 1] != c)
    ensures i == |r|
  {
  }

  lemma {:induction false} TrimFrontExactlyWhen(s: string, c: char, r: string)
    ensures TrimStartChar(s, c) == r <==> WithoutFront(s, c, r)
  {
    var i := SkipChar(s, c, 0);
    if WithoutFront(s, c, r) {
      FrontOnce(s, c, r, i);
    }
  }

  lemma {:induction false} TrimBackExactlyWhen(s: string, c: char, r: string)
    ensures TrimEndChar(s, c) == r <==> WithoutBack(s, c, r)
  {
    var i := BackChar(s, c, |s|);
    if WithoutBack(s, c, r) {
      BackOnce(s, c, r, i);
    }
  }

  /** Names between commas, in any number of braces; nothing in them is no name. */
  ghost predicate UnitListDenotes(t: string, us: seq<string>) {
    exists open, inner :: WithoutFront(Trim(t), '{', open) && WithoutBack(open, '}', inner) && NamesDenote(Trim(inner), us)
  }

  ghost predicate NamesDenote(s: string, us: seq<string>) {
    if s == "" then us == [] else exists ps :: CommaPieces(s, ps) && us == TrimAll(ps)
  }

  lemma {:induction false} UnitListExactlyWhen(t: string, us: seq<string>)
    ensures ParseUnitList(t) == us <==> UnitListDenotes(t, us)
  {
    var open := TrimStartChar(Trim(t), '{');
    var inner := TrimEndChar(open, '}');
    TrimFrontExactlyWhen(Trim(t), '{', open);
    TrimBackExactlyWhen(open, '}', inner);
    CommasExactlyWhen(Trim(inner), SplitCommas(Trim(inner), 0, 0, []));
    if UnitListDenotes(t, us) {
      var o, i :| WithoutFront(Trim(t), '{', o) && WithoutBack(o, '}', i) && NamesDenote(Trim(i), us);
      TrimFrontExactlyWhen(Trim(t), '{', o);
      TrimBackExactlyWhen(o, '}', i);
      NamesOnce(Trim(inner), us);
    }
  }

  lemma {:induction false} NamesOnce(s: string, us: seq<string>)
    requires NamesDenote(s, us)
    ensures us == if s == "" then [] else TrimAll(SplitCommas(s, 0, 0, []))
  {
    if s != "" {
      var ps :| CommaPieces(s, ps) && us == TrimAll(ps);
      CommasExactlyWhen(s, ps);
    }
  }

  // ----- The layout block -----

  datatype LayoutEntry = AliasEntry(alias: SlotAlias) | SlotEntry(slot: nat, units: seq<string>)

  /** `alias NAME = SLOT`, or `SLOT = { UNITS }`. */
  ghost predicate LayoutDenotes(t: string, e: LayoutEntry) {
    match e
    case AliasEntry(a) => exists name, index :: Assigned(t, "alias ", name, index) && a.name == Trim(name) && UnsignedText(Trim(index), U64_MAX, a.slot)
    case SlotEntry(slot, units) =>
      !StartsWith(t, "alias ") && exists index, list ::
        Assigned(t, "", index, list) && UnsignedText(Trim(index), U64_MAX, slot) && UnitListDenotes(list, units)
  }

  function AddEntry(): (Layout, LayoutEntry) -> Layout {
    (l: Layout, e: LayoutEntry) => Entered(l, e)
  }

  function Entered(l: Layout, e: LayoutEntry): Layout {
    match e
    case AliasEntry(a) => l.(aliases := l.aliases + [a])
    case SlotEntry(slot, units) => l.(indexed := l.indexed + [(slot, units)])
  }

  lemma {:induction false} AliasExactlyWhen(t: string, a: SlotAlias)
    ensures StripPrefix(t, "alias ").Some? && ParseAlias(StripPrefix(t, "alias ").value) == Some(a) <==> LayoutDenotes(t, AliasEntry(a))
  {
    if LayoutDenotes(t, AliasEntry(a)) {
      var name, index :| Assigned(t, "alias ", name, index) && a.name == Trim(name) && UnsignedText(Trim(index), U64_MAX, a.slot);
      AssignedExactlyWhen(t, "alias ", name, index);
      UsizeExactlyWhen(Trim(index), a.slot);
    }
    if StripPrefix(t, "alias ").Some? && ParseAlias(StripPrefix(t, "alias ").value) == Some(a) {
      var (name, index) := SplitOnce(StripPrefix(t, "alias ").value, " = ").value;
      AssignedExactlyWhen(t, "alias ", name, index);
      UsizeExactlyWhen(Trim(index), a.slot);
    }
  }

  lemma {:induction false} SlotUnitsParts(t: string, index: string, list: string, slot: nat, units: seq<string>)
    requires SplitOnce(t, " = ") == Some((index, list))
    ensures ParseSlotUnits(t) == Some((slot, units)) <==> ParseUsize(Trim(index)) == Some(slot) && ParseUnitList(list) == units
  {
  }

  lemma {:induction false} SlotEntryParts(index: string, list: string, slot: nat, units: seq<string>)
    ensures ParseUsize(Trim(index)) == Some(slot) && ParseUnitList(list) == units <==>
              UnsignedText(Trim(index), U64_MAX, slot) && UnitListDenotes(list, units)
  {
    UsizeExactlyWhen(Trim(index), slot);
    UnitListExactlyWhen(list, units);
  }

  lemma {:induction false} NoKeyword(t: string, index: string, list: string)
    ensures SplitOnce(t, " = ") == Some((index, list)) <==> Assigned(t, "", index, list)
  {
    assert t[0..] == t && t[..0] == "";
    SplitIsCut(t, " = ", index, list);
  }

  lemma {:induction false} SlotUnitsExactlyWhen(t: string, slot: nat, units: seq<string>)
    ensures !StartsWith(t, "alias ") && ParseSlotUnits(t) == Some((slot, units)) <==> LayoutDenotes(t, SlotEntry(slot, units))
  {
    if LayoutDenotes(t, SlotEntry(slot, units)) {
      var index, list :| Assigned(t, "", index, list) && UnsignedText(Trim(index), U64_MAX, slot) && UnitListDenotes(list, units);
      NoKeyword(t, index, list);
      SlotUnitsParts(t, index, list, slot, units);
      SlotEntryParts(index, list, slot, units);
    }
    if !StartsWith(t, "alias ") && ParseSlotUnits(t) == Some((slot, units)) {
      SlotUnitsDenoted(t, slot, units);
    }
  }

  lemma {:induction false} SlotUnitsDenoted(t: string, slot: nat, units: seq<string>)
    requires !StartsWith(t, "alias ") && ParseSlotUnits(t) == Some((slot, units))
    ensures LayoutDenotes(t, SlotEntry(slot, units))
  {
    var (index, list) := SplitOnce(t, " = ").value;
    NoKeyword(t, index, list);
    SlotUnitsParts(t, index, list, slot, units);
    SlotEntryParts(index, list, slot, units);
  }

  lemma {:induction false} LayoutLineIs(t: string, l: Layout)
    ensures LayoutLine(t, l) ==
            if StripPrefix(t, "alias ").Some? then
              if ParseAlias(StripPrefix(t, "alias ").value).Some? then Some(Entered(l, AliasEntry(ParseAlias(StripPrefix(t, "alias ").value).value))) else None
            else if ParseSlotUnits(t).Some? then Some(Entered(l, SlotEntry(ParseSlotUnits(t).value.0, ParseSlotUnits(t).value.1))) else None
  {
  }

  lemma {:induction false} EntryTaken(t: string, l: Layout, e: LayoutEntry)
    ensures LayoutDenotes(t, e) ==> LayoutLine(t, l) == Some(Entered(l, e))
  {
    LayoutLineIs(t, l);
    match e
    case AliasEntry(a) => AliasExactlyWhen(t, a);
    case SlotEntry(slot, units) => SlotUnitsExactlyWhen(t, slot, units);
  }

  lemma {:induction false} EntryTook(t: string, l: Layout)
    requires LayoutLine(t, l).Some?
    ensures exists e :: LayoutDenotes(t, e)
  {
    LayoutLineIs(t, l);
    if StripPrefix(t, "alias ").Some? {
      AliasExactlyWhen(t, ParseAlias(StripPrefix(t, "alias ").value).value);
    } else {
      var entry := ParseSlotUnits(t).value;
      SlotUnitsExactlyWhen(t, entry.0, entry.1);
    }
  }

  lemma {:induction false} ReaderIs(t: string, l: Layout, e: LayoutEntry)
    ensures LayoutReader()(t, l) == LayoutLine(t, l) && AddEntry()(l, e) == Entered(l, e)
  {
  }

  lemma {:induction false} LayoutUnderstood()
    ensures Understands(LayoutReader(), LayoutDenotes, AddEntry())
  {
    var step, after := LayoutReader(), AddEntry();
    forall t, l: Layout, e
      ensures LayoutDenotes(t, e) ==> step(t, l) == Some(after(l, e))
    {
      EntryTaken(t, l, e);
      ReaderIs(t, l, e);
    }
    forall t, l: Layout | step(t, l).Some?
      ensures exists e :: LayoutDenotes(t, e)
    {
      ReaderIs(t, l, SlotEntry(0, []));
      EntryTook(t, l);
    }
  }

  function AliasesOf(es: seq<LayoutEntry>): seq<SlotAlias> {
    if es == [] then []
    else AliasesOf(es[..|es| - 1]) + match es[|es| - 1] case AliasEntry(a) => [a] case SlotEntry(_, _) => []
  }

  function SlotsOf(es: seq<LayoutEntry>): seq<(nat, seq<string>)> {
    if es == [] then []
    else SlotsOf(es[..|es| - 1]) + match es[|es| - 1] case AliasEntry(_) => [] case SlotEntry(slot, units) => [(slot, units)]
  }

  lemma {:induction false} LayoutFold(after: (Layout, LayoutEntry) -> Layout, es: seq<LayoutEntry>)
    requires forall l, e :: after(l, e) == Entered(l, e)
    ensures FoldAll(after, Layout([], []), es) == Layout(AliasesOf(es), SlotsOf(es))
  {
    if es != [] {
      var n := |es| - 1;
      LayoutFold(after, es[..n]);
      assert after(FoldAll(after, Layout([], []), es[..n]), es[n]) == Entered(FoldAll(after, Layout([], []), es[..n]), es[n]);
      AppendNothing(AliasesOf(es[..n]));
      AppendNothing(SlotsOf(es[..n]));
    }
  }

  /** The lines of the layout block say es. */
  ghost predicate LayoutDenoted(ts: seq<string>, from: nat, to: nat, l: Layout) {
    exists ats, es :: LayoutLines(ts, from, to, ats, es) && l == Layout(AliasesOf(es), SlotsOf(es))
  }

  ghost predicate LayoutLines(ts: seq<string>, from: nat, to: nat, ats: seq<nat>, es: seq<LayoutEntry>) {
    BlockSays(ts, true, LayoutDenotes, from, to, ats, es)
  }

  /** Exactly these lines are read as the layout. */
  lemma {:induction false} LayoutExactlyWhen(ts: seq<string>, from: nat, to: nat, l: Layout)
    requires from <= |ts|
    ensures ParseLayout(ts, from) == Parsed(l, to) <==> LayoutDenoted(ts, from, to, l)
  {
    LayoutUnderstood();
    BlockSaysExactlyWhen(ts, true, LayoutReader(), LayoutDenotes, AddEntry(), from, to, Layout([], []), l);
    forall l: Layout, e
      ensures AddEntry()(l, e) == Entered(l, e)
    {
      ReaderIs("", l, e);
    }
    LayoutFolded(ts, from, to, AddEntry(), l);
  }

  lemma {:induction false} LayoutFolded(ts: seq<string>, from: nat, to: nat, after: (Layout, LayoutEntry) -> Layout, l: Layout)
    requires forall l, e :: after(l, e) == Entered(l, e)
    ensures BlockSaysAll(ts, true, LayoutDenotes, after, from, to, Layout([], []), l) <==> LayoutDenoted(ts, from, to, l)
  {
    if BlockSaysAll(ts, true, LayoutDenotes, after, from, to, Layout([], []), l) {
      var ats, es :| BlockSays(ts, true, LayoutDenotes, from, to, ats, es) && l == FoldAll(after, Layout([], []), es);
      LayoutFold(after, es);
      assert LayoutLines(ts, from, to, ats, es);
    }
    if LayoutDenoted(ts, from, to, l) {
      var ats, es :| LayoutLines(ts, from, to, ats, es) && l == Layout(AliasesOf(es), SlotsOf(es));
      LayoutFold(after, es);
    }
  }

  // ----- The table of slot lists -----

  /** What the last line for the slot lists, or nothing. */
  predicate LastFor(indexed: seq<(nat, seq<string>)>, slot: nat, us: seq<string>) {
    || (exists k :: 0 <= k < |indexed| && indexed[k] == (slot, us) && forall j :: k < j < |indexed| ==> indexed[j].0 != slot)
    || (us == [] && forall k :: 0 <= k < |indexed| ==> indexed[k].0 != slot)
  }

  lemma {:induction false} UnitsOfSlotLast(indexed: seq<(nat, seq<string>)>, slot: nat)
    ensures LastFor(indexed, slot, UnitsOfSlot(indexed, slot))
  {
    if indexed != [] {
      var n := |indexed| - 1;
      UnitsOfSlotLast(indexed[..n], slot);
      if indexed[n].0 == slot {
        assert indexed[n] == (slot, UnitsOfSlot(indexed, slot));
      } else if exists k :: 0 <= k < n && indexed[..n][k].0 == slot {
        var k :| 0 <= k < n && indexed[..n][k] == (slot, UnitsOfSlot(indexed, slot)) && forall j :: k < j < n ==> indexed[..n][j].0 != slot;
        assert indexed[k] == (slot, UnitsOfSlot(indexed, slot));
        forall j | k < j < |indexed|
          ensures indexed[j].0 != slot
        {
          assert j < n ==> indexed[..n][j] == indexed[j];
        }
      } else {
        assert forall k :: 0 <= k < n ==> indexed[..n][k] == indexed[k];
      }
    }
  }

  lemma {:induction false} MaxIndexIs(indexed: seq<(nat, seq<string>)>)
    ensures forall k :: 0 <= k < |indexed| ==> indexed[k].0 <= MaxIndex(indexed)
    ensures indexed != [] ==> exists k :: 0 <= k < |indexed| && indexed[k].0 == MaxIndex(indexed)
  {
    if indexed != [] {
      var n := |indexed| - 1;
      MaxIndexIs(indexed[..n]);
      assert forall k :: 0 <= k < n ==> indexed[..n][k] == indexed[k];
      if n == 0 || indexed[n].0 > MaxIndex(indexed[..n]) {
        assert indexed[n].0 == MaxIndex(indexed);
      } else {
        var k :| 0 <= k < n && indexed[..n][k].0 == MaxIndex(indexed[..n]);
        assert indexed[k].0 == MaxIndex(indexed);
      }
    }
  }

  /** The table reaches to the greatest slot with a line; each slot holds what its last line lists. */
  lemma {:induction false} SlotTableRight(indexed: seq<(nat, seq<string>)>)
    ensures var table := SlotUnitsOf(indexed);
            && (indexed == [] ==> table == [])
            && (indexed != [] ==> exists k :: 0 <= k < |indexed| && indexed[k].0 == |table| - 1)
            && (forall k :: 0 <= k < |indexed| ==> indexed[k].0 < |table|)
            && forall slot: nat :: slot < |table| ==> LastFor(indexed, slot, table[slot])
  {
    MaxIndexIs(indexed);
    forall slot: nat
      ensures LastFor(indexed, slot, UnitsOfSlot(indexed, slot))
    {
      UnitsOfSlotLast(indexed, slot);
    }
  }
}
