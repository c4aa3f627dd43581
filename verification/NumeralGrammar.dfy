/** Which texts are read as which numbers. */
module NumeralGrammar {
  import opened Opcodes
  import opened Numerals

  function LowerCase(c: char): char {
    if 'A' <= c <= 'F' then 'a' + (c - 'A') else c
  }

  function Zeros(n: nat): string { seq(n, _ => '0') }

  /** The printed form of v, with any number of zeros in front, in lower or upper case. */
  predicate Numeral(s: string, radix: nat, v: nat)
    requires IsRadix(radix)
  {
    var t := Show(v, radix);
    |t| <= |s| && forall i :: 0 <= i < |s| ==> LowerCase(s[i]) == (Zeros(|s| - |t|) + t)[i]
  }

  lemma {:induction false} DigitExactlyWhen(c: char, d: nat)
    requires d < 16
    ensures DigitOf(c) == Some(d) <==> LowerCase(c) == DigitChar(d)
  {
  }

  lemma {:induction false} ShownLength(v: nat, radix: nat)
    requires IsRadix(radix)
    ensures v < radix ==> Show(v, radix) == [DigitChar(v)]
    ensures v >= radix ==> v / radix < v && v % radix < radix && Show(v, radix) == Show(v / radix, radix) + [DigitChar(v % radix)]
  {
    DivMod(v, radix);
  }

  lemma {:induction false} SmallNumeral(s: string, radix: nat, v: nat)
    requires IsRadix(radix) && s != "" && v < radix
    ensures var n := |s| - 1;
            Numeral(s, radix, v) <==> DigitOf(s[n]) == Some(v) && (n > 0 ==> Numeral(s[..n], radix, 0))
  {
    var n := |s| - 1;
    ShownLength(v, radix);
    ShownLength(0, radix);
    DigitExactlyWhen(s[n], v);
    var t := Zeros(n) + [DigitChar(v)];
    assert forall i :: 0 <= i < n ==> t[i] == '0';
    if n > 0 {
      var z := Zeros(n - 1) + [DigitChar(0)];
      assert forall i :: 0 <= i < n ==> z[i] == '0' && s[..n][i] == s[i];
    }
  }

  lemma {:induction false} LongNumeral(s: string, radix: nat, v: nat)
    requires IsRadix(radix) && s != "" && v >= radix
    ensures var n := |s| - 1;
            v % radix < 16 && (Numeral(s, radix, v) <==> DigitOf(s[n]) == Some(v % radix) && n > 0 && Numeral(s[..n], radix, v / radix))
  {
    var n := |s| - 1;
    ShownLength(v, radix);
    DigitExactlyWhen(s[n], v % radix);
    var u := Show(v / radix, radix);
    if |u| <= n {
      var t := Zeros(|s| - |u| - 1) + (u + [DigitChar(v % radix)]);
      assert t[n] == DigitChar(v % radix);
      assert forall i :: 0 <= i < n ==> t[i] == (Zeros(n - |u|) + u)[i] && s[..n][i] == s[i];
    }
  }

  /** A string of digits denotes the number it prints as, leading zeros and case apart; everything else denotes nothing. */
  lemma {:induction false} DigitsExactlyWhen(s: string, radix: nat, v: nat)
    requires IsRadix(radix)
    ensures Digits(s, radix) == Some(v) <==> Numeral(s, radix, v)
  {
    if s == "" {
      ShownLength(v, radix);
    } else {
      var n := |s| - 1;
      DivMod(v, radix);
      if v < radix {
        SmallNumeral(s, radix, v);
        DigitsExactlyWhen(s[..n], radix, 0);
        if n > 0 && Digits(s, radix) == Some(v) {
          LeadingZeros(Digits(s[..n], radix).value, DigitOf(s[n]).value, v, radix);
        }
      } else {
        LongNumeral(s, radix, v);
        DigitsExactlyWhen(s[..n], radix, v / radix);
        if n > 0 && Digits(s, radix) == Some(v) {
          LastDigit(Digits(s[..n], radix).value, DigitOf(s[n]).value, v, radix);
        }
      }
    }
  }

  lemma {:induction false} LeadingZeros(rest: nat, d: nat, v: nat, radix: nat)
    requires IsRadix(radix) && d < radix && v == rest * radix + d && v < radix
    ensures rest == 0 && d == v
  {
  }

  lemma {:induction false} LastDigit(rest: nat, d: nat, v: nat, radix: nat)
    requires IsRadix(radix) && d < radix && v == rest * radix + d
    ensures rest == v / radix && d == v % radix
  {
    if radix == 10 {
      assert v / 10 == rest;
    } else {
      assert v / 16 == rest;
    }
  }

  /** A plus, or for signed types a minus, may stand in front. */
  predicate SignedNumeral(s: string, radix: nat, signed: bool, n: int)
    requires IsRadix(radix)
  {
    || (n >= 0 && Numeral(s, radix, n))
    || (n >= 0 && s != "" && s[0] == '+' && Numeral(s[1..], radix, n))
    || (signed && n <= 0 && s != "" && s[0] == '-' && Numeral(s[1..], radix, -n))
  }

  lemma {:induction false} NoSignInNumeral(s: string, radix: nat, v: nat)
    requires IsRadix(radix) && Numeral(s, radix, v)
    ensures s != "" && s[0] != '+' && s[0] != '-'
  {
    DigitsExactlyWhen(s, radix, v);
    FirstIsDigit(s, radix);
  }

  lemma {:induction false} FirstIsDigit(s: string, radix: nat)
    requires IsRadix(radix) && Digits(s, radix).Some?
    ensures s != "" && DigitOf(s[0]).Some?
  {
    if |s| > 1 {
      FirstIsDigit(s[..|s| - 1], radix);
    }
  }

  lemma {:induction false} InRangeExactlyWhen(s: string, radix: nat, negative: bool, min: int, max: int, n: int)
    requires IsRadix(radix)
    ensures InRange(Digits(s, radix), negative, min, max) == Some(n) <==>
              min <= n <= max && if negative then n <= 0 && Numeral(s, radix, -n) else n >= 0 && Numeral(s, radix, n)
  {
    if negative && n <= 0 { DigitsExactlyWhen(s, radix, -n); }
    if !negative && n >= 0 { DigitsExactlyWhen(s, radix, n); }
  }

  lemma {:induction false} SignedBySign(s: string, radix: nat, signed: bool, n: int)
    requires IsRadix(radix) && s != ""
    ensures SignedNumeral(s, radix, signed, n) <==>
              if s[0] == '+' then n >= 0 && Numeral(s[1..], radix, n)
              else if s[0] == '-' && signed then n <= 0 && Numeral(s[1..], radix, -n)
              else n >= 0 && Numeral(s, radix, n)
  {
    if n >= 0 && Numeral(s, radix, n) { NoSignInNumeral(s, radix, n); }
  }

  /** Exactly these texts are read as n. */
  lemma {:induction false} IntExactlyWhen(s: string, radix: nat, min: int, max: int, n: int)
    requires IsRadix(radix)
    ensures ParseInt(s, radix, min, max) == Some(n) <==> min <= n <= max && SignedNumeral(s, radix, min < 0, n)
  {
    if s == "" {
      if n >= 0 && Numeral(s, radix, n) { NoSignInNumeral(s, radix, n); }
    } else {
      SignedBySign(s, radix, min < 0, n);
      if s[0] == '+' {
        InRangeExactlyWhen(s[1..], radix, false, min, max, n);
      } else if s[0] == '-' && min < 0 {
        InRangeExactlyWhen(s[1..], radix, true, min, max, n);
      } else {
        InRangeExactlyWhen(s, radix, false, min, max, n);
      }
    }
  }

  /** `0x` marks hexadecimal. */
  lemma {:induction false} HexOrDecExactlyWhen(s: string, n: int)
    ensures ParseHexOrDec(s) == Some(n) <==>
              I64_MIN <= n <= I64_MAX && if |s| >= 2 && s[..2] == "0x" then SignedNumeral(s[2..], 16, true, n) else SignedNumeral(s, 10, true, n)
  {
    IntExactlyWhen(s, 10, I64_MIN, I64_MAX, n);
    if |s| >= 2 { IntExactlyWhen(s[2..], 16, I64_MIN, I64_MAX, n); }
  }
}
