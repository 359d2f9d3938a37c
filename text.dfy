/**
  String helpers shared by the handlers: JavaScript whitespace trimming,
  truthiness of optional strings, decimal rendering of numbers, the
  subset of `Number(...)` the handlers rely on, and SQLite's default
  `LIKE '%needle%'` (ASCII case-insensitive substring).
 */
module Text {
  import opened Wrappers

  predicate IsDigit(c: char) { '0' <= c <= '9' }

  /** The characters a slug keeps: `[a-z0-9]`. */
  predicate IsLowerAlnum(c: char) { 'a' <= c <= 'z' || IsDigit(c) }

  /** JavaScript truthiness of a string that may be null: non-null and non-empty. */
  predicate Truthy(s: Option<string>) { s.Some? && s.value != "" }

  /** WhiteSpace and LineTerminator code points, as removed by String.prototype.trim. */
  predicate IsJsSpace(c: char) {
    c == '\t' || c == '\n' || c == '\U{000B}' || c == '\U{000C}' || c == '\r' || c == ' '
    || c == '\U{00A0}' || c == '\U{1680}' || ('\U{2000}' <= c <= '\U{200A}')
    || c == '\U{2028}' || c == '\U{2029}' || c == '\U{202F}' || c == '\U{205F}'
    || c == '\U{3000}' || c == '\U{FEFF}'
  }

  function TrimStart(s: string): (r: string)
    ensures |r| <= |s|
    ensures r == [] || !IsJsSpace(r[0])
    ensures forall i :: 0 <= i < |s| - |r| ==> IsJsSpace(s[i])
  {
    if s != [] && IsJsSpace(s[0]) then TrimStart(s[1..]) else s
  }

  function TrimEnd(s: string): (r: string)
    ensures |r| <= |s|
    ensures r == [] || !IsJsSpace(r[|r| - 1])
    ensures forall i :: |r| <= i < |s| ==> IsJsSpace(s[i])
  {
    if s != [] && IsJsSpace(s[|s| - 1]) then TrimEnd(s[..|s| - 1]) else s
  }

  lemma {:induction false} TrimStartIsSuffix(s: string)
    ensures TrimStart(s) == s[|s| - |TrimStart(s)|..]
  {
    if s != [] && IsJsSpace(s[0]) {
      TrimStartIsSuffix(s[1..]);
      var k := |TrimStart(s)|;
      assert s[1..][|s| - 1 - k..] == s[|s| - k..];
    }
  }

  lemma {:induction false} TrimEndIsPrefix(s: string)
    ensures TrimEnd(s) == s[..|TrimEnd(s)|]
  {
    if s != [] && IsJsSpace(s[|s| - 1]) {
      TrimEndIsPrefix(s[..|s| - 1]);
      var k := |TrimEnd(s)|;
      assert s[..|s| - 1][..k] == s[..k];
    }
  }

  /** `s[a..b]` is what is left of `s` once white space is removed from both ends. */
  predicate TrimmedAt(s: string, a: int, b: int) {
    && 0 <= a <= b <= |s|
    && (forall i :: 0 <= i < a ==> IsJsSpace(s[i]))
    && (forall i :: b <= i < |s| ==> IsJsSpace(s[i]))
  }

  /** How many characters `trimStart` removes from `s`. */
  function LeadingSpaces(s: string): (n: nat)
    ensures n <= |s|
  {
    |s| - |TrimStart(s)|
  }

  /** String.prototype.trim: the input with its leading and trailing white space removed. */
  function Trim(s: string): (r: string)
    ensures r == [] || (!IsJsSpace(r[0]) && !IsJsSpace(r[|r| - 1]))
    ensures r == [] <==> forall i :: 0 <= i < |s| ==> IsJsSpace(s[i])
    ensures (forall i :: 0 <= i < |s| ==> !IsJsSpace(s[i])) ==> r == s
    ensures TrimmedAt(s, LeadingSpaces(s), LeadingSpaces(s) + |r|)
    ensures r == s[LeadingSpaces(s)..LeadingSpaces(s) + |r|]
  {
    var a := TrimStart(s);
    var r := TrimEnd(a);
    TrimStartIsSuffix(s);
    TrimEndIsPrefix(a);
    assert r == s[|s| - |a|..][..|r|];
    assert r == s[|s| - |a|..|s| - |a| + |r|];
    assert TrimmedAt(s, |s| - |a|, |s| - |a| + |r|) by {
      forall i | |s| - |a| + |r| <= i < |s| ensures IsJsSpace(s[i]) {
        assert s[i] == a[i - (|s| - |a|)];
      }
    }
    assert r == [] ==> forall i :: 0 <= i < |s| ==> IsJsSpace(s[i]) by {
      if r == [] {
        assert |a| == 0;
      }
    }
    r
  }

  function DigitChar(d: nat): (c: char)
    requires d < 10
    ensures IsDigit(c) && c as int - '0' as int == d
  {
    (d + '0' as int) as char
  }

  /** The decimal rendering of a non-negative number, as a template literal prints it. */
  function NatToString(n: nat): (s: string)
    ensures |s| > 0 && forall i :: 0 <= i < |s| ==> IsDigit(s[i])
  {
    if n < 10 then [DigitChar(n)] else NatToString(n / 10) + [DigitChar(n % 10)]
  }

  /** The value of a non-empty string of decimal digits. */
  function DigitsValue(s: string): nat
    requires forall i :: 0 <= i < |s| ==> IsDigit(s[i])
  {
    if s == [] then 0
    else DigitsValue(s[..|s| - 1]) * 10 + DigitValue(s[|s| - 1])
  }

  function DigitValue(c: char): nat
    requires IsDigit(c)
  {
    c as int - '0' as int
  }

  lemma {:induction false} DigitsValueOfNatToString(n: nat)
    ensures DigitsValue(NatToString(n)) == n
  {
    if n >= 10 {
      var s := NatToString(n);
      assert s[..|s| - 1] == NatToString(n / 10);
      DigitsValueOfNatToString(n / 10);
    }
  }

  /** Different numbers render differently, so the suffixed slugs tried in turn are distinct. */
  lemma NatToStringInjective(a: nat, b: nat)
    requires NatToString(a) == NatToString(b)
    ensures a == b
  {
    DigitsValueOfNatToString(a);
    DigitsValueOfNatToString(b);
  }

  predicate AllDigits(s: string) { forall i :: 0 <= i < |s| ==> IsDigit(s[i]) }

  /**
    `Number(s)` for the strings the handlers see: surrounding whitespace is
    ignored, a blank string is 0, an optionally signed run of decimal digits is
    its value, and every other string is NaN (None), which equals no id.
   */
  function JsNumber(s: string): (r: Option<int>)
    ensures AllDigits(s) && s != "" ==> r == Some(DigitsValue(s))
    ensures (forall i :: 0 <= i < |s| ==> IsJsSpace(s[i])) ==> r == Some(0)
  {
    var t := Trim(s);
    assert AllDigits(s) ==> t == s by {
      if AllDigits(s) { assert forall i :: 0 <= i < |s| ==> !IsJsSpace(s[i]); }
    }
    ParseInteger(t)
  }

  /** The value of a trimmed string: blank is 0, an optionally signed run of digits its value, anything else NaN. */
  function ParseInteger(t: string): Option<int> {
    if t == "" then Some(0)
    else if AllDigits(t) then Some(DigitsValue(t))
    else if |t| > 1 && (t[0] == '+' || t[0] == '-') && AllDigits(t[1..]) then
      var v: int := DigitsValue(t[1..]);
      Some(if t[0] == '-' then -v else v)
    else None
  }

  /** Leading white space before a string that does not start with white space is trimmed away. */
  lemma {:induction false} TrimStartPadded(pre: string, y: string)
    requires forall i :: 0 <= i < |pre| ==> IsJsSpace(pre[i])
    requires y == [] || !IsJsSpace(y[0])
    ensures TrimStart(pre + y) == y
  {
    if pre != [] {
      assert (pre + y)[1..] == pre[1..] + y;
      TrimStartPadded(pre[1..], y);
    } else {
      assert pre + y == y;
    }
  }

  /** Trailing white space after a string that does not end with white space is trimmed away. */
  lemma {:induction false} TrimEndPadded(y: string, post: string)
    requires forall i :: 0 <= i < |post| ==> IsJsSpace(post[i])
    requires y == [] || !IsJsSpace(y[|y| - 1])
    ensures TrimEnd(y + post) == y
  {
    if post != [] {
      var n := |post| - 1;
      assert (y + post)[..|y + post| - 1] == y + post[..n];
      TrimEndPadded(y, post[..n]);
    } else {
      assert y + post == y;
    }
  }

  /** `trim` removes exactly the white space around a text that neither starts nor ends with white space. */
  lemma TrimPadded(pre: string, x: string, post: string)
    requires forall i :: 0 <= i < |pre| ==> IsJsSpace(pre[i])
    requires forall i :: 0 <= i < |post| ==> IsJsSpace(post[i])
    requires x != [] && !IsJsSpace(x[0]) && !IsJsSpace(x[|x| - 1])
    ensures Trim(pre + x + post) == x
  {
    assert pre + x + post == pre + (x + post);
    TrimStartPadded(pre, x + post);
    TrimEndPadded(x, post);
  }

  /**
    `Number` of an optionally signed run of digits, with white space around
    it: the digits' value, negated after a minus sign.
   */
  lemma JsNumberSigned(pre: string, sign: string, d: string, post: string)
    requires forall i :: 0 <= i < |pre| ==> IsJsSpace(pre[i])
    requires forall i :: 0 <= i < |post| ==> IsJsSpace(post[i])
    requires sign == "" || sign == "+" || sign == "-"
    requires d != [] && AllDigits(d)
    ensures JsNumber(pre + sign + d + post) == Some(if sign == "-" then -(DigitsValue(d) as int) else DigitsValue(d) as int)
  {
    var x := sign + d;
    assert pre + sign + d + post == pre + x + post;
    SignedDigitsEnds(sign, d);
    TrimPadded(pre, x, post);
    ParseSigned(sign, d);
  }

  lemma SignedDigitsEnds(sign: string, d: string)
    requires sign == "" || sign == "+" || sign == "-"
    requires d != [] && AllDigits(d)
    ensures var x := sign + d; x != [] && !IsJsSpace(x[0]) && !IsJsSpace(x[|x| - 1])
  {
    var x := sign + d;
    assert x[|x| - 1] == d[|d| - 1];
    assert sign == [] ==> x[0] == d[0];
  }

  /** `ParseInteger` reads an optionally signed run of digits as its value. */
  lemma ParseSigned(sign: string, d: string)
    requires sign == "" || sign == "+" || sign == "-"
    requires d != [] && AllDigits(d)
    ensures ParseInteger(sign + d) == Some(if sign == "-" then -(DigitsValue(d) as int) else DigitsValue(d) as int)
  {
    var x := sign + d;
    if sign == "" {
      assert x == d;
    } else {
      assert x[1..] == d;
      assert !IsDigit(x[0]);
    }
  }

  /**
    `Number(s)` is NaN exactly when the trimmed text is not blank and has a
    character that is not a digit, other than a leading sign before at
    least one more character.
   */
  lemma JsNumberNaN(s: string)
    ensures var t := Trim(s);
      JsNumber(s).None? <==>
        t != "" && exists i :: 0 <= i < |t| && !IsDigit(t[i]) && (i > 0 || |t| == 1 || (t[0] != '+' && t[0] != '-'))
  {
    var t := Trim(s);
    var bad := exists i :: 0 <= i < |t| && !IsDigit(t[i]) && (i > 0 || |t| == 1 || (t[0] != '+' && t[0] != '-'));
    if t != "" && !bad {
      if |t| > 1 && (t[0] == '+' || t[0] == '-') {
        forall i | 0 <= i < |t[1..]| ensures IsDigit(t[1..][i]) {
          assert t[1..][i] == t[i + 1];
        }
      } else {
        assert AllDigits(t);
      }
    }
    if t != "" && bad {
      var i :| 0 <= i < |t| && !IsDigit(t[i]) && (i > 0 || |t| == 1 || (t[0] != '+' && t[0] != '-'));
      assert !AllDigits(t);
      if |t| > 1 && (t[0] == '+' || t[0] == '-') {
        assert i > 0;
        assert t[1..][i - 1] == t[i];
      }
    }
  }

  /** `String(n)` for an integer. */
  function IntToString(n: int): (s: string)
    ensures s != []
  {
    if n < 0 then "-" + NatToString(-n) else NatToString(n)
  }

  /** `Number(String(n)) == n`: the decimal text of an id reads back as that id. */
  lemma JsNumberOfIntToString(n: int)
    ensures JsNumber(IntToString(n)) == Some(n)
  {
    if n < 0 {
      JsNumberOfNegative(n);
    } else {
      DigitsValueOfNatToString(n);
    }
  }

  lemma JsNumberOfNegative(n: int)
    requires n < 0
    ensures JsNumber("-" + NatToString(-n)) == Some(n)
  {
    var d := NatToString(-n);
    DigitsValueOfNatToString(-n);
    JsNumberOfMinus(d, -n);
  }

  /** A minus sign followed by the digits of `v` reads as `-v`. */
  lemma JsNumberOfMinus(d: string, v: nat)
    requires d != [] && AllDigits(d) && DigitsValue(d) == v
    ensures JsNumber("-" + d) == Some(-(v as int))
  {
    TrimOfMinusDigits(d);
    ParseOfMinusDigits(d);
  }

  lemma TrimOfMinusDigits(d: string)
    requires AllDigits(d)
    ensures Trim("-" + d) == "-" + d
  {
    var s := "-" + d;
    forall i | 0 <= i < |s| ensures !IsJsSpace(s[i]) {
      if i > 0 { assert s[i] == d[i - 1]; }
    }
  }

  lemma ParseOfMinusDigits(d: string)
    requires d != [] && AllDigits(d)
    ensures ParseInteger("-" + d) == Some(-(DigitsValue(d) as int))
  {
    var s := "-" + d;
    assert s[1..] == d;
    assert !AllDigits(s) by { assert !IsDigit(s[0]); }
  }

  /** `s || null`: an empty or missing string becomes NULL. */
  function OrNull(s: Option<string>): (r: Option<string>)
    ensures r == None <==> !Truthy(s)
    ensures r.Some? ==> r == s
  {
    if Truthy(s) then s else None
  }

  /** ASCII case folding, as SQLite's LIKE does by default. */
  function FoldAscii(c: char): char {
    if 'A' <= c <= 'Z' then (c as int + 32) as char else c
  }

  predicate MatchesAt(hay: string, needle: string, i: nat)
    requires i + |needle| <= |hay|
  {
    forall j :: 0 <= j < |needle| ==> FoldAscii(hay[i + j]) == FoldAscii(needle[j])
  }

  /** `column LIKE '%needle%'` on a non-NULL column. */
  predicate ContainsFolded(hay: string, needle: string) {
    exists i: nat :: i + |needle| <= |hay| && MatchesAt(hay, needle, i)
  }

  /** The same test on a nullable column: NULL LIKE anything is not true. */
  predicate LikeNullable(col: Option<string>, needle: string) {
    col.Some? && ContainsFolded(col.value, needle)
  }

  /** Array.prototype.indexOf: the first position holding `x`, or -1. */
  function IndexOf<T(==)>(s: seq<T>, x: T): (r: int)
    ensures -1 <= r < |s|
    ensures r == -1 <==> x !in s
    ensures r >= 0 ==> s[r] == x && forall j :: 0 <= j < r ==> s[j] != x
  {
    if s == [] then -1
    else if s[0] == x then 0
    else var k := IndexOf(s[1..], x); if k == -1 then -1 else k + 1
  }
}
