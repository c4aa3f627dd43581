/** Decimal and hexadecimal numbers as printed and parsed. */
module Numerals {
  import opened Opcodes

  const I64_MIN: int := -0x8000_0000_0000_0000
  const I64_MAX: int := 0x7FFF_FFFF_FFFF_FFFF
  const U32_MAX: int := 0xFFFF_FFFF
  const U64_MAX: int := 0xFFFF_FFFF_FFFF_FFFF

  function DigitChar(d: nat): char
    requires d < 16
  {
    if d < 10 then '0' + d as char else 'a' + (d - 10) as char
  }

  /** Upper- and lower-case letters both count. */
  function DigitOf(c: char): Option<nat> {
    if '0' <= c <= '9' then Some((c - '0') as nat)
    else if 'a' <= c <= 'f' then Some((c - 'a') as nat + 10)
    else if 'A' <= c <= 'F' then Some((c - 'A') as nat + 10)
    else None
  }

  lemma {:induction false} DigitRoundTrip(d: nat)
    requires d < 16
    ensures DigitOf(DigitChar(d)) == Some(d)
  {
  }

  predicate IsRadix(radix: nat) { radix == 10 || radix == 16 }

  lemma {:induction false} DivMod(n: nat, radix: nat)
    requires IsRadix(radix)
    ensures n % radix < radix && n / radix * radix + n % radix == n && (n >= radix ==> n / radix < n)
  {
    if radix == 10 {
      assert n / 10 * 10 + n % 10 == n;
    } else {
      assert n / 16 * 16 + n % 16 == n;
    }
  }

  function Show(n: nat, radix: nat): (s: string)
    requires IsRadix(radix)
    ensures s != ""
  {
    DivMod(n, radix);
    if n < radix then [DigitChar(n)] else Show(n / radix, radix) + [DigitChar(n % radix)]
  }

  /** The value of a string of digits; None if it is empty or has anything else in it. */
  function Digits(s: string, radix: nat): Option<nat>
    requires IsRadix(radix)
  {
    if s == "" then None
    else
      var n := |s| - 1;
      match DigitOf(s[n])
      case None => None
      case Some(d) =>
        if d >= radix then None
        else if n == 0 then Some(d)
        else
          match Digits(s[..n], radix)
          case None => None
          case Some(v) => Some(v * radix + d)
  }

  lemma {:induction false} ShowDigits(n: nat, radix: nat)
    requires IsRadix(radix)
    ensures Digits(Show(n, radix), radix) == Some(n)
  {
    if n < radix {
      DigitRoundTrip(n);
    } else {
      DivMod(n, radix);
      ShowDigits(n / radix, radix);
      DigitRoundTrip(n % radix);
      DigitsPush(Show(n / radix, radix), n / radix, n % radix, radix);
    }
  }

  lemma {:induction false} DigitsPush(s: string, v: nat, d: nat, radix: nat)
    requires IsRadix(radix) && d < radix && s != "" && Digits(s, radix) == Some(v)
    ensures Digits(s + [DigitChar(d)], radix) == Some(v * radix + d)
  {
    DigitRoundTrip(d);
    assert (s + [DigitChar(d)])[..|s|] == s;
  }

  predicate IsDigitChar(c: char) { '0' <= c <= '9' || 'a' <= c <= 'f' }

  lemma {:induction false} ShowChars(n: nat, radix: nat)
    requires IsRadix(radix)
    ensures forall i :: 0 <= i < |Show(n, radix)| ==> IsDigitChar(Show(n, radix)[i])
    ensures radix <= 10 ==> forall i :: 0 <= i < |Show(n, radix)| ==> '0' <= Show(n, radix)[i] <= '9'
  {
    if n >= radix {
      DivMod(n, radix);
      ShowChars(n / radix, radix);
    }
  }

  function InRange(v: Option<nat>, negative: bool, min: int, max: int): Option<int> {
    if v.None? then None
    else
      var n: int := if negative then 0 - v.value else v.value;
      if min <= n <= max then Some(n) else None
  }

  /** A number with an optional sign; only signed types take a minus. */
  function ParseInt(s: string, radix: nat, min: int, max: int): Option<int>
    requires IsRadix(radix)
  {
    if s == "" then None
    else if s[0] == '+' then InRange(Digits(s[1..], radix), false, min, max)
    else if s[0] == '-' && min < 0 then InRange(Digits(s[1..], radix), true, min, max)
    else InRange(Digits(s, radix), false, min, max)
  }

  lemma {:induction false} ParseShown(n: nat, radix: nat, min: int, max: int)
    requires IsRadix(radix)
    ensures ParseInt(Show(n, radix), radix, min, max) == if min <= n <= max then Some(n) else None
  {
    ShowDigits(n, radix);
    ShowChars(n, radix);
    assert IsDigitChar(Show(n, radix)[0]);
  }

  function ShowInt(n: int): string {
    if n < 0 then "-" + Show(-n, 10) else Show(n, 10)
  }

  lemma {:induction false} ParseNegative(s: string, m: nat, min: int, max: int)
    requires Digits(s, 10) == Some(m) && min < 0
    ensures ParseInt("-" + s, 10, min, max) == if min <= 0 - m <= max then Some(0 - m) else None
  {
    assert ("-" + s)[1..] == s;
  }

  /** Decimal numbers are read back over the whole range of their type, and refused outside it. */
  lemma {:induction false} ParseShownInt(n: int, min: int, max: int)
    requires min < 0
    ensures ParseInt(ShowInt(n), 10, min, max) == if min <= n <= max then Some(n) else None
  {
    if n < 0 {
      ShowDigits(-n, 10);
      ParseNegative(Show(-n, 10), -n, min, max);
    } else {
      ParseShown(n, 10, min, max);
    }
  }

  function ShowHex(n: nat): string {
    "0x" + Show(n, 16)
  }

  /** With `0x` in front hexadecimal, else decimal; both as i64. */
  function ParseHexOrDec(s: string): Option<int> {
    if |s| >= 2 && s[..2] == "0x" then ParseInt(s[2..], 16, I64_MIN, I64_MAX) else ParseInt(s, 10, I64_MIN, I64_MAX)
  }

  /** Hexadecimal numbers are read back up to the largest i64, and refused beyond. */
  lemma {:induction false} ParseShownHex(n: nat)
    ensures ParseHexOrDec(ShowHex(n)) == if n <= I64_MAX then Some(n) else None
  {
    assert ShowHex(n)[..2] == "0x" && ShowHex(n)[2..] == Show(n, 16);
    ParseShown(n, 16, I64_MIN, I64_MAX);
  }
}
