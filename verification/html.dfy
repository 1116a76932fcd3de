/** `escapeHtml`: the three `replaceAll` passes that make a string safe to
    place between HTML tags, ampersand first. */
module Html {
  import opened Text

  /** `escapeHtml(s)`. An empty string is falsy and comes back as it is;
      otherwise `&`, then `<`, then `>` are replaced everywhere. */
  function EscapeHtml(s: string): (r: string)
    ensures s == "" ==> r == s
    ensures '<' !in r && '>' !in r
    ensures Unescape(r) == s
  {
    if s == "" then s
    else
      ThreePassesAreOnePass(s);
      UnescapeInvertsEscape(s);
      ReplaceAllChar(ReplaceAllChar(ReplaceAllChar(s, '&', "&amp;"), '<', "&lt;"), '>', "&gt;")
  }

  /** The entity one character turns into after all three passes. */
  function EscapeChar(c: char): string {
    if c == '&' then "&amp;"
    else if c == '<' then "&lt;"
    else if c == '>' then "&gt;"
    else [c]
  }

  /** A one-pass reference escape: each character replaced by its entity. */
  function EscapeEach(s: string): (r: string)
    ensures '<' !in r && '>' !in r
    decreases |s|
  {
    if |s| == 0 then "" else EscapeChar(s[0]) + EscapeEach(s[1..])
  }

  /** Decoding `&lt;`, `&gt;` and `&amp;` back to the characters they stand
      for, left to right; anything else is copied. */
  function Unescape(t: string): string
    decreases |t|
  {
    if |t| == 0 then ""
    else if |t| >= 4 && t[..4] == "&lt;" then "<" + Unescape(t[4..])
    else if |t| >= 4 && t[..4] == "&gt;" then ">" + Unescape(t[4..])
    else if |t| >= 5 && t[..5] == "&amp;" then "&" + Unescape(t[5..])
    else [t[0]] + Unescape(t[1..])
  }

  /** Because `&` is replaced before `<` and `>` bring in new ampersands,
      the three passes never re-escape an entity: they escape each
      character exactly once. */
  lemma {:induction false} ThreePassesAreOnePass(s: string)
    ensures ReplaceAllChar(ReplaceAllChar(ReplaceAllChar(s, '&', "&amp;"), '<', "&lt;"), '>', "&gt;")
         == EscapeEach(s)
    decreases |s|
  {
    if |s| > 0 {
      var c := s[0];
      var rest := s[1..];
      assert s == [c] + rest;
      ReplaceAllCharAppend([c], rest, '&', "&amp;");
      var a1 := ReplaceAllChar([c], '&', "&amp;");
      var b1 := ReplaceAllChar(rest, '&', "&amp;");
      ReplaceAllCharAppend(a1, b1, '<', "&lt;");
      var a2 := ReplaceAllChar(a1, '<', "&lt;");
      var b2 := ReplaceAllChar(b1, '<', "&lt;");
      ReplaceAllCharAppend(a2, b2, '>', "&gt;");
      assert ReplaceAllChar(a2, '>', "&gt;") == EscapeChar(c) by {
        OneCharThreePasses(c);
      }
      ThreePassesAreOnePass(rest);
    }
  }

  lemma OneCharThreePasses(c: char)
    ensures ReplaceAllChar(ReplaceAllChar(ReplaceAllChar([c], '&', "&amp;"), '<', "&lt;"), '>', "&gt;")
         == EscapeChar(c)
  {
    ReplaceAllCharSingle(c, '&', "&amp;");
    var a1 := ReplaceAllChar([c], '&', "&amp;");
    var a2 := ReplaceAllChar(a1, '<', "&lt;");
    if c == '&' {
      ReplaceAllCharAbsent(a1, '<', "&lt;");
      ReplaceAllCharAbsent(a2, '>', "&gt;");
    } else if c == '<' {
      ReplaceAllCharSingle(c, '<', "&lt;");
      ReplaceAllCharAbsent(a2, '>', "&gt;");
    } else if c == '>' {
      ReplaceAllCharAbsent(a1, '<', "&lt;");
      ReplaceAllCharSingle(c, '>', "&gt;");
    } else {
      ReplaceAllCharAbsent(a1, '<', "&lt;");
      ReplaceAllCharAbsent(a2, '>', "&gt;");
    }
  }

  /** Decoding undoes the one-pass escape. */
  lemma {:induction false} UnescapeInvertsEscape(s: string)
    ensures Unescape(EscapeEach(s)) == s
    decreases |s|
  {
    if |s| > 0 {
      var c := s[0];
      assert EscapeEach(s) == EscapeChar(c) + EscapeEach(s[1..]);
      UnescapeStep(c, EscapeEach(s[1..]));
      UnescapeInvertsEscape(s[1..]);
      assert s == [c] + s[1..];
    }
  }

  /** Decoding reads one escaped character back, whatever follows it. */
  lemma UnescapeStep(c: char, rest: string)
    ensures Unescape(EscapeChar(c) + rest) == [c] + Unescape(rest)
  {
    if c == '&' {
      UnescapeAmp(rest);
    } else if c == '<' {
      UnescapeLt(rest);
    } else if c == '>' {
      UnescapeGt(rest);
    } else {
      UnescapePlain(c, rest);
    }
  }

  lemma UnescapeAmp(rest: string)
    ensures Unescape("&amp;" + rest) == "&" + Unescape(rest)
  {
    var t := "&amp;" + rest;
    assert t[..5] == "&amp;" && t[5..] == rest;
    assert t[1] == 'a';
  }

  lemma UnescapeLt(rest: string)
    ensures Unescape("&lt;" + rest) == "<" + Unescape(rest)
  {
    var t := "&lt;" + rest;
    assert t[..4] == "&lt;" && t[4..] == rest;
  }

  lemma UnescapeGt(rest: string)
    ensures Unescape("&gt;" + rest) == ">" + Unescape(rest)
  {
    var t := "&gt;" + rest;
    assert t[..4] == "&gt;" && t[4..] == rest;
    assert t[1] == 'g';
  }

  lemma UnescapePlain(c: char, rest: string)
    requires c != '&'
    ensures Unescape([c] + rest) == [c] + Unescape(rest)
  {
    var t := [c] + rest;
    assert t[0] == c && t[1..] == rest;
    assert |t| >= 4 ==> t[..4][0] == c;
    assert |t| >= 5 ==> t[..5][0] == c;
  }
}
