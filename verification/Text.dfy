/** The string operations the printer and the parser are made of. */
module Text {
  import opened Opcodes

  /** Unicode white space. */
  predicate IsSpace(c: char) {
    || '\t' <= c <= '\r' || c == ' ' || c == '\U{85}' || c == '\U{A0}' || c == '\U{1680}'
    || '\U{2000}' <= c <= '\U{200A}' || c == '\U{2028}' || c == '\U{2029}' || c == '\U{202F}' || c == '\U{205F}' || c == '\U{3000}'
  }

  predicate AllSpaces(s: string) {
    forall i :: 0 <= i < |s| ==> IsSpace(s[i])
  }

  predicate NoSpaces(s: string) {
    forall i :: 0 <= i < |s| ==> !IsSpace(s[i])
  }

  /** Not empty, and white space at neither end. */
  predicate Tight(s: string) {
    s != "" && !IsSpace(s[0]) && !IsSpace(s[|s| - 1])
  }

  // ----- Trimming -----

  /** The first position from i on that holds no white space. */
  function SkipSpaces(s: string, i: nat): (r: nat)
    requires i <= |s|
    ensures i <= r <= |s| && (forall k :: i <= k < r ==> IsSpace(s[k])) && (r < |s| ==> !IsSpace(s[r]))
    decreases |s| - i
  {
    if i < |s| && IsSpace(s[i]) then SkipSpaces(s, i + 1) else i
  }

  /** The end of what is left of s[..j] without trailing white space, but not before i. */
  function BackSpaces(s: string, i: nat, j: nat): (r: nat)
    requires i <= j <= |s|
    ensures i <= r <= j && (forall k :: r <= k < j ==> IsSpace(s[k])) && (r > i ==> !IsSpace(s[r - 1]))
  {
    if i < j && IsSpace(s[j - 1]) then BackSpaces(s, i, j - 1) else j
  }

  function Trim(s: string): string {
    var i := SkipSpaces(s, 0);
    s[i..BackSpaces(s, i, |s|)]
  }

  lemma {:induction false} TrimPadded(pre: string, w: string, post: string)
    requires AllSpaces(pre) && AllSpaces(post) && Tight(w)
    ensures Trim(pre + w + post) == w
  {
    var s := pre + w + post;
    var i := SkipSpaces(s, 0);
    assert s[|pre|] == w[0] && s[|pre| + |w| - 1] == w[|w| - 1];
    assert forall k :: 0 <= k < |pre| ==> s[k] == pre[k];
    assert i == |pre|;
    assert forall k :: |pre| + |w| <= k < |s| ==> s[k] == post[k - |pre| - |w|];
    assert BackSpaces(s, i, |s|) == |pre| + |w|;
  }

  lemma {:induction false} TrimTight(w: string)
    requires Tight(w)
    ensures Trim(w) == w
  {
    TrimPadded("", w, "");
    assert "" + w + "" == w;
  }

  lemma {:induction false} TrimIndented(pre: string, w: string)
    requires AllSpaces(pre) && Tight(w)
    ensures Trim(pre + w) == w
  {
    TrimPadded(pre, w, "");
    assert pre + w + "" == pre + w;
  }

  lemma {:induction false} TrimBlank(s: string)
    requires AllSpaces(s)
    ensures Trim(s) == ""
  {
  }

  lemma {:induction false} TrimLeaves(s: string) returns (pre: string, post: string)
    ensures s == pre + Trim(s) + post && AllSpaces(pre) && AllSpaces(post) && (Trim(s) == "" || Tight(Trim(s)))
  {
    var i := SkipSpaces(s, 0);
    var j := BackSpaces(s, i, |s|);
    pre, post := s[..i], s[j..];
    assert s == s[..i] + s[i..j] + s[j..];
  }

  lemma {:induction false} PaddedBlank(pre: string, post: string)
    requires AllSpaces(pre) && AllSpaces(post)
    ensures Trim(pre + "" + post) == ""
  {
    TrimBlank(pre + "" + post);
  }

  /** What stands between the white space at the ends: nothing, or something without any at its ends. */
  lemma {:induction false} TrimExactlyWhen(s: string, r: string)
    ensures r == Trim(s) <==> exists pre, post :: s == pre + r + post && AllSpaces(pre) && AllSpaces(post) && (r == "" || Tight(r))
  {
    var pre, post := TrimLeaves(s);
    if exists pre, post :: s == pre + r + post && AllSpaces(pre) && AllSpaces(post) && (r == "" || Tight(r)) {
      var a, b :| s == a + r + b && AllSpaces(a) && AllSpaces(b) && (r == "" || Tight(r));
      if r == "" { PaddedBlank(a, b); } else { TrimPadded(a, r, b); }
    }
  }

  // ----- Prefixes, suffixes, splitting -----

  function StripPrefix(s: string, p: string): Option<string> {
    if |p| <= |s| && s[..|p|] == p then Some(s[|p|..]) else None
  }

  function StripSuffix(s: string, p: string): Option<string> {
    if |p| <= |s| && s[|s| - |p|..] == p then Some(s[..|s| - |p|]) else None
  }

  predicate StartsWith(s: string, p: string) {
    |p| <= |s| && s[..|p|] == p
  }

  lemma {:induction false} StripPrefixOf(p: string, s: string)
    ensures StripPrefix(p + s, p) == Some(s) && StartsWith(p + s, p)
  {
  }

  lemma {:induction false} StripSuffixOf(s: string, p: string)
    ensures StripSuffix(s + p, p) == Some(s)
  {
  }

  predicate OccursAt(s: string, sep: string, i: nat) {
    i + |sep| <= |s| && s[i..i + |sep|] == sep
  }

  /** The first occurrence from i on. */
  function Find(s: string, sep: string, i: nat): (r: Option<nat>)
    requires i <= |s|
    ensures r.Some? ==> i <= r.value && OccursAt(s, sep, r.value) && forall k :: i <= k < r.value ==> !OccursAt(s, sep, k)
    ensures r.None? ==> forall k :: i <= k ==> !OccursAt(s, sep, k)
    decreases |s| - i
  {
    if OccursAt(s, sep, i) then Some(i)
    else if i == |s| then None
    else Find(s, sep, i + 1)
  }

  function SplitOnce(s: string, sep: string): Option<(string, string)> {
    match Find(s, sep, 0)
    case None => None
    case Some(i) => Some((s[..i], s[i + |sep|..]))
  }

  lemma {:induction false} OccursFirst(s: string, sep: string, i: nat)
    requires sep != ""
    ensures OccursAt(s, sep, i) ==> i < |s| && s[i] == sep[0]
  {
    if OccursAt(s, sep, i) {
      assert s[i..i + |sep|][0] == s[i];
    }
  }

  /** The separator cannot start inside a, because a does not have its first character. */
  lemma {:induction false} SplitAtFirst(a: string, sep: string, b: string)
    requires sep != "" && sep[0] !in a
    ensures SplitOnce(a + sep + b, sep) == Some((a, b))
  {
    var s := a + sep + b;
    forall k | 0 <= k < |a|
      ensures !OccursAt(s, sep, k)
    {
      assert s[k] == a[k];
      OccursFirst(s, sep, k);
    }
    assert s[|a|..|a| + |sep|] == sep;
    assert OccursAt(s, sep, |a|);
    assert s[..|a|] == a && s[|a| + |sep|..] == b;
  }

  lemma {:induction false} OccursChar(s: string, sep: string, i: nat, j: nat)
    requires j < |sep|
    ensures OccursAt(s, sep, i) ==> sep[j] in s
  {
    if OccursAt(s, sep, i) {
      assert s[i..i + |sep|][j] == s[i + j];
    }
  }

  /** A separator with a character that s does not have splits nothing. */
  lemma {:induction false} SplitNowhere(s: string, sep: string, j: nat)
    requires j < |sep| && sep[j] !in s
    ensures SplitOnce(s, sep) == None
  {
    forall k: nat
      ensures !OccursAt(s, sep, k)
    {
      OccursChar(s, sep, k, j);
    }
  }

  // ----- Reading a list of pieces -----

  predicate ReadsAs<T(==)>(pieces: seq<string>, read: string -> Option<T>, values: seq<T>) {
    |pieces| == |values| && forall i :: 0 <= i < |values| ==> read(pieces[i]) == Some(values[i])
  }

  /** All pieces read, or none if one of them cannot be. */
  function ReadEach<T(==)>(pieces: seq<string>, read: string -> Option<T>): (r: Option<seq<T>>)
    ensures r.Some? ==> ReadsAs(pieces, read, r.value)
    ensures r.None? ==> exists i :: 0 <= i < |pieces| && read(pieces[i]).None?
  {
    if pieces == [] then Some([])
    else
      var n := |pieces| - 1;
      match ReadEach(pieces[..n], read)
      case None => None
      case Some(values) =>
        match read(pieces[n])
        case None => None
        case Some(v) => Some(values + [v])
  }

  lemma {:induction false} ReadsAsIsRead<T>(pieces: seq<string>, read: string -> Option<T>, values: seq<T>)
    requires ReadsAs(pieces, read, values)
    ensures ReadEach(pieces, read) == Some(values)
  {
    var r := ReadEach(pieces, read);
    assert r.Some?;
    forall i | 0 <= i < |values|
      ensures r.value[i] == values[i]
    {
      assert read(pieces[i]) == Some(r.value[i]) && read(pieces[i]) == Some(values[i]);
    }
    assert r.value == values;
  }

  lemma {:induction false} ReadsPush<T>(pieces: seq<string>, read: string -> Option<T>, piece: string, values: seq<T>, v: T)
    requires ReadsAs(pieces, read, values) && read(piece) == Some(v)
    ensures ReadsAs(pieces + [piece], read, values + [v])
  {
  }

  lemma {:induction false} BadPiece<T>(pieces: seq<string>, read: string -> Option<T>, n: nat)
    requires n < |pieces| && read(pieces[n]).None?
    ensures ReadEach(pieces, read) == None
  {
  }
}
