/** `escape_xml` (backend/build.rs:274-281): the escaping applied to article
    titles in the RSS feed. */
module XmlEscape {
  import opened Strings

  /** Five whole-text replacements, `&` first so that the later ones do not
      have their own `&` escaped again. */
  function EscapeXml(s: string): string {
    Replace(Replace(Replace(Replace(Replace(s, "&", "&amp;"), "<", "&lt;"), ">", "&gt;"), "\"", "&quot;"), "'", "&apos;")
  }

  /** A character XML gives special meaning to. */
  predicate IsSpecial(c: char) {
    c == '&' || c == '<' || c == '>' || c == '"' || c == '\''
  }

  /** The text after each of the five passes of `EscapeXml`, per character. */
  function AfterAmp(c: char): string { if c == '&' then "&amp;" else [c] }
  function AfterLt(c: char): string { if c == '<' then "&lt;" else AfterAmp(c) }
  function AfterGt(c: char): string { if c == '>' then "&gt;" else AfterLt(c) }
  function AfterQuot(c: char): string { if c == '"' then "&quot;" else AfterGt(c) }

  /** The reference escape of one character: its entity if it is special,
      itself otherwise. */
  function EscapeChar(c: char): (r: string)
    ensures IsSpecial(c) ==> |r| > 1 && r[0] == '&' && r[|r| - 1] == ';'
    ensures !IsSpecial(c) ==> r == [c]
  {
    if c == '\'' then "&apos;" else AfterQuot(c)
  }

  /** Whether pass `t -> u` replacing `c` by `rep` acts on the character
      `x` as `ReplaceCharFlat` needs. */
  predicate PassAt(x: char, t: char -> string, u: char -> string, c: char, rep: string) {
    if t(x) == [c] then u(x) == rep else c !in t(x) && u(x) == t(x)
  }

  /** The same, for each character of `s`. */
  predicate PassOk(s: string, t: char -> string, u: char -> string, c: char, rep: string) {
    forall i :: 0 <= i < |s| ==> PassAt(s[i], t, u, c, rep)
  }

  lemma AmpPassAt(x: char) ensures PassAt(x, Self, AfterAmp, '&', "&amp;") { }
  lemma LtPassAt(x: char) ensures PassAt(x, AfterAmp, AfterLt, '<', "&lt;") { }
  lemma GtPassAt(x: char) ensures PassAt(x, AfterLt, AfterGt, '>', "&gt;") { }
  lemma QuotPassAt(x: char) ensures PassAt(x, AfterGt, AfterQuot, '"', "&quot;") { }
  lemma AposPassAt(x: char) ensures PassAt(x, AfterQuot, EscapeChar, '\'', "&apos;") { }

  lemma PassesOk(s: string)
    ensures PassOk(s, Self, AfterAmp, '&', "&amp;")
    ensures PassOk(s, AfterAmp, AfterLt, '<', "&lt;")
    ensures PassOk(s, AfterLt, AfterGt, '>', "&gt;")
    ensures PassOk(s, AfterGt, AfterQuot, '"', "&quot;")
    ensures PassOk(s, AfterQuot, EscapeChar, '\'', "&apos;")
  {
    forall i | 0 <= i < |s|
      ensures PassAt(s[i], Self, AfterAmp, '&', "&amp;")
      ensures PassAt(s[i], AfterAmp, AfterLt, '<', "&lt;")
      ensures PassAt(s[i], AfterLt, AfterGt, '>', "&gt;")
      ensures PassAt(s[i], AfterGt, AfterQuot, '"', "&quot;")
      ensures PassAt(s[i], AfterQuot, EscapeChar, '\'', "&apos;")
    {
      AmpPassAt(s[i]);
      LtPassAt(s[i]);
      GtPassAt(s[i]);
      QuotPassAt(s[i]);
      AposPassAt(s[i]);
    }
  }

  /** The sequential replacements amount to escaping each character on its
      own: no entity produced by one pass is touched by a later pass. */
  lemma EscapeXmlPerChar(s: string)
    ensures EscapeXml(s) == Flat(s, EscapeChar)
  {
    FlatSelf(s);
    PassesOk(s);
    var s1 := Replace(s, "&", "&amp;");
    ReplaceCharFlat(s, Self, AfterAmp, '&', "&amp;");
    assert s1 == Flat(s, AfterAmp);
    var s2 := Replace(s1, "<", "&lt;");
    ReplaceCharFlat(s, AfterAmp, AfterLt, '<', "&lt;");
    assert s2 == Flat(s, AfterLt);
    var s3 := Replace(s2, ">", "&gt;");
    ReplaceCharFlat(s, AfterLt, AfterGt, '>', "&gt;");
    assert s3 == Flat(s, AfterGt);
    var s4 := Replace(s3, "\"", "&quot;");
    ReplaceCharFlat(s, AfterGt, AfterQuot, '"', "&quot;");
    assert s4 == Flat(s, AfterQuot);
    ReplaceCharFlat(s, AfterQuot, EscapeChar, '\'', "&apos;");
  }

  /** The escaped text holds no `<`, `>`, `"` or `'`. */
  lemma EscapeXmlNoMarkup(s: string)
    ensures '<' !in EscapeXml(s) && '>' !in EscapeXml(s)
    ensures '"' !in EscapeXml(s) && '\'' !in EscapeXml(s)
  {
    EscapeXmlPerChar(s);
    NoMarkupIn(s, '<');
    NoMarkupIn(s, '>');
    NoMarkupIn(s, '"');
    NoMarkupIn(s, '\'');
  }

  /** The escape of any one character holds no `<`, `>`, `"` or `'`. */
  lemma EscapeCharClean(c: char)
    ensures '<' !in EscapeChar(c) && '>' !in EscapeChar(c)
    ensures '"' !in EscapeChar(c) && '\'' !in EscapeChar(c)
  {
  }

  lemma NoMarkupIn(s: string, d: char)
    requires d == '<' || d == '>' || d == '"' || d == '\''
    ensures d !in Flat(s, EscapeChar)
  {
    if d in Flat(s, EscapeChar) {
      FlatContains(s, EscapeChar, d);
      var i :| 0 <= i < |s| && d in EscapeChar(s[i]);
      EscapeCharClean(s[i]);
      assert false;
    }
  }

  /** Text without any of the five special characters is returned unchanged. */
  lemma EscapeXmlPlain(s: string)
    requires forall i :: 0 <= i < |s| ==> !IsSpecial(s[i])
    ensures EscapeXml(s) == s
  {
    ReplaceAbsentChar(s, '&', "&amp;");
    ReplaceAbsentChar(s, '<', "&lt;");
    ReplaceAbsentChar(s, '>', "&gt;");
    ReplaceAbsentChar(s, '"', "&quot;");
    ReplaceAbsentChar(s, '\'', "&apos;");
  }

  /** A single left-to-right decoder of the five XML entities, the reading
      an XML consumer applies to the escaped title. */
  function UnescapeXml(s: string): string
    decreases |s|
  {
    if s == [] then []
    else if StartsWith(s, "&amp;") then "&" + UnescapeXml(s[5..])
    else if StartsWith(s, "&lt;") then "<" + UnescapeXml(s[4..])
    else if StartsWith(s, "&gt;") then ">" + UnescapeXml(s[4..])
    else if StartsWith(s, "&quot;") then "\"" + UnescapeXml(s[6..])
    else if StartsWith(s, "&apos;") then "'" + UnescapeXml(s[6..])
    else [s[0]] + UnescapeXml(s[1..])
  }

  /** Decoding reads the escape of one character back as that character
      and carries on with what follows. */
  lemma UnescapeEscapedChar(c: char, rest: string)
    ensures UnescapeXml(EscapeChar(c) + rest) == [c] + UnescapeXml(rest)
  {
    if c == '&' {
      UnescapeAmp(rest);
    } else if c == '<' {
      UnescapeLt(rest);
    } else if c == '>' {
      UnescapeGt(rest);
    } else if c == '"' {
      UnescapeQuot(rest);
    } else if c == '\'' {
      UnescapeApos(rest);
    } else {
      UnescapePlain(c, rest);
    }
  }

  lemma UnescapeAmp(rest: string)
    ensures UnescapeXml("&amp;" + rest) == "&" + UnescapeXml(rest)
  {
    var e := "&amp;" + rest;
    assert e[..5] == "&amp;" && e[5..] == rest;
  }

  lemma UnescapeLt(rest: string)
    ensures UnescapeXml("&lt;" + rest) == "<" + UnescapeXml(rest)
  {
    var e := "&lt;" + rest;
    assert e[..4] == "&lt;" && e[4..] == rest;
    assert !StartsWith(e, "&amp;") by { assert e[1] == 'l'; }
  }

  lemma UnescapeGt(rest: string)
    ensures UnescapeXml("&gt;" + rest) == ">" + UnescapeXml(rest)
  {
    var e := "&gt;" + rest;
    assert e[..4] == "&gt;" && e[4..] == rest;
    assert !StartsWith(e, "&amp;") && !StartsWith(e, "&lt;") by { assert e[1] == 'g'; }
  }

  lemma UnescapeQuot(rest: string)
    ensures UnescapeXml("&quot;" + rest) == "\"" + UnescapeXml(rest)
  {
    var e := "&quot;" + rest;
    assert e[..6] == "&quot;" && e[6..] == rest;
    assert !StartsWith(e, "&amp;") && !StartsWith(e, "&lt;") && !StartsWith(e, "&gt;") by { assert e[1] == 'q'; }
  }

  lemma UnescapeApos(rest: string)
    ensures UnescapeXml("&apos;" + rest) == "'" + UnescapeXml(rest)
  {
    var e := "&apos;" + rest;
    assert e[..6] == "&apos;" && e[6..] == rest;
    assert !StartsWith(e, "&amp;") by { assert e[2] == 'p'; }
    assert !StartsWith(e, "&lt;") && !StartsWith(e, "&gt;") && !StartsWith(e, "&quot;") by { assert e[1] == 'a'; }
  }

  lemma UnescapePlain(c: char, rest: string)
    requires !IsSpecial(c)
    ensures UnescapeXml([c] + rest) == [c] + UnescapeXml(rest)
  {
    var e := [c] + rest;
    assert e[0] == c && e[1..] == rest;
    assert !StartsWith(e, "&amp;") && !StartsWith(e, "&lt;") && !StartsWith(e, "&gt;")
      && !StartsWith(e, "&quot;") && !StartsWith(e, "&apos;") by { assert e[0] != '&'; }
  }

  /** Escaping loses nothing: decoding the escaped text gives back the title. */
  lemma {:induction false} EscapeXmlRoundTrip(s: string)
    ensures UnescapeXml(EscapeXml(s)) == s
  {
    EscapeXmlPerChar(s);
    FlatRoundTrip(s);
  }

  lemma {:induction false} FlatRoundTrip(s: string)
    ensures UnescapeXml(Flat(s, EscapeChar)) == s
  {
    if s != [] {
      UnescapeEscapedChar(s[0], Flat(s[1..], EscapeChar));
      FlatRoundTrip(s[1..]);
      assert [s[0]] + s[1..] == s;
    }
  }
}
