/** The string operations the page script borrows from JavaScript, written
    out: lower-casing, `replace` with a string pattern, `replaceAll` with a
    one-character pattern, `join`, and the decimal rendering of integers in
    template strings. */
module Text {
  import opened Optional

  /** `toLowerCase` restricted to ASCII: 'A'..'Z' map to 'a'..'z', every
      other character is left as it is. */
  function LowerChar(c: char): char {
    if 'A' <= c <= 'Z' then (c as int - 'A' as int + 'a' as int) as char else c
  }

  /** ASCII stand-in for `String.prototype.toLowerCase`. */
  function Lower(s: string): (r: string)
    ensures |r| == |s|
    ensures forall i :: 0 <= i < |s| ==> r[i] == LowerChar(s[i])
    decreases |s|
  {
    if |s| == 0 then "" else [LowerChar(s[0])] + Lower(s[1..])
  }

  /** The two strings are equal once both are lower-cased. */
  predicate SameIgnoringCase(a: string, b: string) {
    Lower(a) == Lower(b)
  }

  /** `pat` occurs in `s` starting at index `i`. */
  predicate OccursAt(s: string, pat: string, i: nat) {
    i + |pat| <= |s| && s[i..i + |pat|] == pat
  }

  /** `s.indexOf(pat)`, with `None` for JavaScript's -1. */
  function IndexOf(s: string, pat: string): (r: Option<nat>)
    ensures r.Some? ==> OccursAt(s, pat, r.value)
    ensures r.Some? ==> forall j: nat :: j < r.value ==> !OccursAt(s, pat, j)
    ensures r.None? ==> forall j: nat :: !OccursAt(s, pat, j)
    decreases |s|
  {
    if OccursAt(s, pat, 0) then Some(0)
    else if |s| == 0 then None
    else
      OccursAtShift(s, pat);
      match IndexOf(s[1..], pat)
      case None => None
      case Some(i) => Some(i + 1)
  }

  /** An occurrence past the first character is an occurrence in the tail. */
  lemma OccursAtShift(s: string, pat: string)
    requires |s| > 0
    ensures forall j: nat :: j > 0 ==> (OccursAt(s, pat, j) <==> OccursAt(s[1..], pat, j - 1))
  {
    forall j: nat | j > 0
      ensures OccursAt(s, pat, j) <==> OccursAt(s[1..], pat, j - 1)
    {
      if j + |pat| <= |s| {
        assert s[1..][j - 1..j - 1 + |pat|] == s[j..j + |pat|];
      }
    }
  }

  /** `replace` with a string pattern: the first occurrence of `pat`, if
      any, becomes `rep`. The replacement is copied literally, so it stands
      for a replacement without `$` patterns. */
  function ReplaceFirst(s: string, pat: string, rep: string): string {
    match IndexOf(s, pat)
    case None => s
    case Some(i) => s[..i] + rep + s[i + |pat|..]
  }

  /** Without an occurrence of `pat`, `s` comes back unchanged. */
  lemma ReplaceFirstAbsent(s: string, pat: string, rep: string)
    requires forall j: nat :: !OccursAt(s, pat, j)
    ensures ReplaceFirst(s, pat, rep) == s
  {
  }

  /** Otherwise the first occurrence, and only it, is replaced. */
  lemma ReplaceFirstAt(s: string, pat: string, rep: string, i: nat)
    requires OccursAt(s, pat, i)
    requires forall j: nat :: j < i ==> !OccursAt(s, pat, j)
    ensures ReplaceFirst(s, pat, rep) == s[..i] + rep + s[i + |pat|..]
  {
    var k := IndexOf(s, pat);
    assert k.Some? && k.value <= i;
  }

  /** `s.replaceAll(c, rep)` for a one-character pattern: every `c` in `s`
      becomes `rep`, every other character stays. */
  function ReplaceAllChar(s: string, c: char, rep: string): (r: string)
    ensures forall d :: d in r <==> (d in s && d != c) || (c in s && d in rep)
    decreases |s|
  {
    if |s| == 0 then ""
    else
      assert s == [s[0]] + s[1..];
      (if s[0] == c then rep else [s[0]]) + ReplaceAllChar(s[1..], c, rep)
  }

  /** On one character, `replaceAll` swaps it for `rep` or keeps it. */
  lemma ReplaceAllCharSingle(x: char, c: char, rep: string)
    ensures ReplaceAllChar([x], c, rep) == if x == c then rep else [x]
  {
    assert [x][0] == x && [x][1..] == [];
    assert ReplaceAllChar([], c, rep) == "";
    var head := if x == c then rep else [x];
    assert head + "" == head;
  }

  /** Replacing a character that does not occur changes nothing. */
  lemma {:induction false} ReplaceAllCharAbsent(s: string, c: char, rep: string)
    requires c !in s
    ensures ReplaceAllChar(s, c, rep) == s
    decreases |s|
  {
    if |s| > 0 {
      assert s == [s[0]] + s[1..];
      ReplaceAllCharAbsent(s[1..], c, rep);
    }
  }

  /** `replaceAll` of a one-character pattern works piecewise. */
  lemma {:induction false} ReplaceAllCharAppend(a: string, b: string, c: char, rep: string)
    ensures ReplaceAllChar(a + b, c, rep) == ReplaceAllChar(a, c, rep) + ReplaceAllChar(b, c, rep)
    decreases |a|
  {
    if |a| == 0 {
      assert a + b == b;
    } else {
      assert (a + b)[0] == a[0] && (a + b)[1..] == a[1..] + b;
      ReplaceAllCharAppend(a[1..], b, c, rep);
    }
  }

  /** The strings of `xs` with `sep` between each neighbouring pair, as
      `join` gives them. */
  function Join(xs: seq<string>, sep: string): (r: string)
    ensures |xs| == 0 ==> r == ""
    ensures |xs| == 1 ==> r == xs[0]
    decreases |xs|
  {
    if |xs| == 0 then ""
    else if |xs| == 1 then xs[0]
    else xs[0] + sep + Join(xs[1..], sep)
  }

  function DigitChar(d: nat): (c: char)
    requires d < 10
    ensures '0' <= c <= '9' && c as int - '0' as int == d
  {
    (d + '0' as int) as char
  }

  predicate IsDigits(s: string) {
    forall i :: 0 <= i < |s| ==> '0' <= s[i] <= '9'
  }

  /** The decimal value of a string of digits. */
  function DigitsValue(s: string): nat
    requires IsDigits(s)
    decreases |s|
  {
    if |s| == 0 then 0
    else DigitsValue(s[..|s| - 1]) * 10 + (s[|s| - 1] as int - '0' as int)
  }

  /** The decimal digits of `n`, as a template string renders a non-negative
      integer. */
  function NatToString(n: nat): string
    decreases n
  {
    if n < 10 then [DigitChar(n)] else NatToString(n / 10) + [DigitChar(n % 10)]
  }

  /** The digits of `n` are at least one, with no leading zero, and read
      back as `n`. */
  lemma {:induction false} NatToStringDigits(n: nat)
    ensures var r := NatToString(n);
            && |r| >= 1 && IsDigits(r)
            && (r[0] == '0' ==> n == 0 && |r| == 1)
            && DigitsValue(r) == n
    decreases n
  {
    if n >= 10 {
      NatToStringDigits(n / 10);
      var front := NatToString(n / 10);
      var r := NatToString(n);
      assert r == front + [DigitChar(n % 10)];
      assert r[..|r| - 1] == front;
    }
  }

  /** How a template string renders an integer: a minus sign before the
      digits of a negative one. */
  function IntToString(x: int): string {
    if x < 0 then "-" + NatToString(-x) else NatToString(x)
  }

  /** The rendering of `x` reads back as `x`: a sign exactly for a negative
      number, then its digits. */
  lemma IntToStringDigits(x: int)
    ensures var r := IntToString(x);
            && |r| >= 1
            && (x >= 0 <==> r[0] != '-')
            && (x >= 0 ==> IsDigits(r) && DigitsValue(r) == x)
            && (x < 0 ==> IsDigits(r[1..]) && DigitsValue(r[1..]) == -x)
  {
    if x < 0 {
      NatToStringDigits(-x);
      assert IntToString(x)[1..] == NatToString(-x);
    } else {
      NatToStringDigits(x);
    }
  }
}
