/** `html_escape`: four replacements in a row, equal to one pass over the characters, and invertible. */
module HtmlEscape {
  import opened Seqs
  import opened Strings

  method Escape(s: string) returns (r: string)
    ensures r == EscapedBy4(s)
    ensures Unescape(r) == s
    ensures '<' !in r && '>' !in r && '"' !in r
  {
    r := StrReplace(s, "&", "&amp;");
    r := StrReplace(r, "<", "&lt;");
    r := StrReplace(r, ">", "&gt;");
    r := StrReplace(r, "\"", "&quot;");
    FourPassesAreOne(s);
    NothingSpecialLeft(s);
    UnescapeInverts(s);
  }

  function EscapedBy4(s: string): string {
    Replace(Replace(Replace(Replace(s, "&", "&amp;"), "<", "&lt;"), ">", "&gt;"), "\"", "&quot;")
  }

  function EscapeChar(c: char): string {
    match c
    case '&' => "&amp;"
    case '<' => "&lt;"
    case '>' => "&gt;"
    case '"' => "&quot;"
    case _ => [c]
  }

  function EscapeEach(s: string): string {
    if s == [] then [] else EscapeChar(s[0]) + EscapeEach(s[1..])
  }

  /** Replacing a single character, character by character. */
  function ReplaceEach(s: string, c: char, r: string): string {
    if s == [] then [] else (if s[0] == c then r else [s[0]]) + ReplaceEach(s[1..], c, r)
  }

  lemma {:induction false} ReplaceIsEach(s: string, c: char, r: string)
    ensures Replace(s, [c], r) == ReplaceEach(s, c, r)
  {
    if s == [] {
      FindNothing(s, [c], 0);
    } else {
      ReplaceIsEach(s[1..], c, r);
      assert s == [s[0]] + s[1..];
      ReplaceShift([s[0]], s[1..], [c], r, 0);
      if s[0] == c {
        FindIs(s, [c], 0, 0);
        assert s[0..0] + r + ReplaceFrom(s, [c], r, 1) == r + Replace(s[1..], [c], r);
      } else {
        SkipOther(s, c, r);
      }
    }
  }

  lemma SkipOther(s: string, c: char, r: string)
    requires s != [] && s[0] != c
    ensures Replace(s, [c], r) == [s[0]] + ReplaceFrom(s, [c], r, 1)
  {
    assert [c][0] != s[0] && !OccursAt(s, [c], 0);
    if FindFrom(s, [c], 1).Some? {
      var i := FindFrom(s, [c], 1).value;
      assert s[0..i] == [s[0]] + s[1..i];
      Associate4([s[0]], s[1..i], r, ReplaceFrom(s, [c], r, i + 1));
    } else {
      assert s[0..] == [s[0]] + s[1..];
    }
  }

  lemma {:induction false} ReplaceEachAppend(a: string, b: string, c: char, r: string)
    ensures ReplaceEach(a + b, c, r) == ReplaceEach(a, c, r) + ReplaceEach(b, c, r)
  {
    if a == [] {
      assert a + b == b;
    } else {
      ReplaceEachAppend(a[1..], b, c, r);
      assert (a + b)[1..] == a[1..] + b;
      Associate(if a[0] == c then r else [a[0]], ReplaceEach(a[1..], c, r), ReplaceEach(b, c, r));
    }
  }

  function Passes(s: string): string {
    ReplaceEach(ReplaceEach(ReplaceEach(ReplaceEach(s, '&', "&amp;"), '<', "&lt;"), '>', "&gt;"), '"', "&quot;")
  }

  lemma PassesAppend(a: string, b: string)
    ensures Passes(a + b) == Passes(a) + Passes(b)
  {
    ReplaceEachAppend(a, b, '&', "&amp;");
    var a1, b1 := ReplaceEach(a, '&', "&amp;"), ReplaceEach(b, '&', "&amp;");
    ReplaceEachAppend(a1, b1, '<', "&lt;");
    var a2, b2 := ReplaceEach(a1, '<', "&lt;"), ReplaceEach(b1, '<', "&lt;");
    ReplaceEachAppend(a2, b2, '>', "&gt;");
    ReplaceEachAppend(ReplaceEach(a2, '>', "&gt;"), ReplaceEach(b2, '>', "&gt;"), '"', "&quot;");
  }

  /** Characters none of the patterns match pass through. */
  lemma {:induction false} ReplaceEachNothing(s: string, c: char, r: string)
    requires c !in s
    ensures ReplaceEach(s, c, r) == s
  {
    if s != [] { ReplaceEachNothing(s[1..], c, r); }
  }

  lemma ReplaceEachOne(x: char, c: char, r: string)
    ensures ReplaceEach([x], c, r) == if x == c then r else [x]
  {
    assert [x][1..] == [];
  }

  /** One character through all four passes. */
  lemma PassesOne(x: char)
    ensures Passes([x]) == EscapeChar(x)
  {
    ReplaceEachOne(x, '&', "&amp;");
    if x == '&' { LastPassesNothing(EscapeChar(x)); } else { OtherPasses(x); }
  }

  lemma LastPassesNothing(s: string)
    requires '<' !in s && '>' !in s && '"' !in s
    ensures ReplaceEach(ReplaceEach(ReplaceEach(s, '<', "&lt;"), '>', "&gt;"), '"', "&quot;") == s
  {
    ReplaceEachNothing(s, '<', "&lt;");
    ReplaceEachNothing(s, '>', "&gt;");
    ReplaceEachNothing(s, '"', "&quot;");
  }

  lemma OtherPasses(x: char)
    requires x != '&'
    ensures Passes([x]) == EscapeChar(x)
  {
    ReplaceEachOne(x, '&', "&amp;");
    ReplaceEachOne(x, '<', "&lt;");
    if x == '<' {
      ReplaceEachNothing("&lt;", '>', "&gt;");
      ReplaceEachNothing("&lt;", '"', "&quot;");
    } else {
      ReplaceEachOne(x, '>', "&gt;");
      if x == '>' { ReplaceEachNothing("&gt;", '"', "&quot;"); } else { ReplaceEachOne(x, '"', "&quot;"); }
    }
  }

  /** The four sequential replacements are one escape per character. */
  lemma FourPassesAreOne(s: string)
    ensures EscapedBy4(s) == EscapeEach(s)
  {
    ReplaceIsEach(s, '&', "&amp;");
    var s1 := ReplaceEach(s, '&', "&amp;");
    ReplaceIsEach(s1, '<', "&lt;");
    var s2 := ReplaceEach(s1, '<', "&lt;");
    ReplaceIsEach(s2, '>', "&gt;");
    ReplaceIsEach(ReplaceEach(s2, '>', "&gt;"), '"', "&quot;");
    PassesAreEach(s);
  }

  lemma {:induction false} PassesAreEach(s: string)
    ensures Passes(s) == EscapeEach(s)
  {
    if s != [] {
      assert s == [s[0]] + s[1..];
      PassesAppend([s[0]], s[1..]);
      PassesOne(s[0]);
      PassesAreEach(s[1..]);
    }
  }

  /** Escaping works character by character. */
  lemma EscapedBy4Append(a: string, b: string)
    ensures EscapedBy4(a + b) == EscapedBy4(a) + EscapedBy4(b)
  {
    hide EscapedBy4, EscapeEach;
    FourPassesAreOne(a);
    FourPassesAreOne(b);
    FourPassesAreOne(a + b);
    EscapeEachAppend(a, b);
  }

  /** Four characters have an entity, and all others stay. */
  lemma EntityTable(c: char)
    ensures EscapedBy4("&") == "&amp;" && EscapedBy4("<") == "&lt;" && EscapedBy4(">") == "&gt;"
    ensures EscapedBy4("\"") == "&quot;"
    ensures c != '&' && c != '<' && c != '>' && c != '"' ==> EscapedBy4([c]) == [c]
  {
    hide EscapedBy4, EscapeEach;
    EscapeOne('&');
    EscapeOne('<');
    EscapeOne('>');
    EscapeOne('"');
    EscapeOne(c);
  }

  lemma EscapeOne(c: char)
    ensures EscapedBy4([c]) == EscapeChar(c)
  {
    hide EscapedBy4, EscapeChar;
    FourPassesAreOne([c]);
    assert [c][1..] == [];
    assert EscapeEach([]) == [];
  }

  lemma {:induction false} EscapeEachAppend(a: string, b: string)
    ensures EscapeEach(a + b) == EscapeEach(a) + EscapeEach(b)
  {
    hide EscapeChar;
    if a == [] {
      assert a + b == b;
    } else {
      EscapeEachAppend(a[1..], b);
      assert (a + b)[1..] == a[1..] + b;
      Associate(EscapeChar(a[0]), EscapeEach(a[1..]), EscapeEach(b));
    }
  }

  lemma {:induction false} NothingSpecialLeft(s: string)
    ensures '<' !in EscapeEach(s) && '>' !in EscapeEach(s) && '"' !in EscapeEach(s)
  {
    if s != [] { NothingSpecialLeft(s[1..]); }
  }

  predicate StartsWith(s: string, p: string) { |p| <= |s| && s[..|p|] == p }

  /** The explicit inverse. */
  function Unescape(s: string): string {
    if s == [] then []
    else if StartsWith(s, "&amp;") then ['&'] + Unescape(s[5..])
    else if StartsWith(s, "&lt;") then ['<'] + Unescape(s[4..])
    else if StartsWith(s, "&gt;") then ['>'] + Unescape(s[4..])
    else if StartsWith(s, "&quot;") then ['"'] + Unescape(s[6..])
    else [s[0]] + Unescape(s[1..])
  }

  lemma UnescapeChar(c: char, rest: string)
    ensures Unescape(EscapeChar(c) + rest) == [c] + Unescape(rest)
  {
    var s := EscapeChar(c) + rest;
    assert s[|EscapeChar(c)|..] == rest && s[..|EscapeChar(c)|] == EscapeChar(c);
    assert c != '&' ==> !StartsWith(s, "&amp;") by { NotStarting(s, "&amp;", 1); }
    assert c != '<' ==> !StartsWith(s, "&lt;") by { NotStarting(s, "&lt;", 1); }
    assert c != '>' ==> !StartsWith(s, "&gt;") by { NotStarting(s, "&gt;", 1); }
    assert c != '"' ==> !StartsWith(s, "&quot;") by { NotStarting(s, "&quot;", 1); }
  }

  lemma NotStarting(s: string, p: string, k: nat)
    requires k < |p|
    ensures StartsWith(s, p) ==> s[0] == p[0] && s[k] == p[k]
  {
    if StartsWith(s, p) { assert s[..|p|][k] == p[k]; }
  }

  lemma {:induction false} UnescapeInverts(s: string)
    ensures Unescape(EscapedBy4(s)) == s
  {
    FourPassesAreOne(s);
    UnescapeEach(s);
  }

  lemma {:induction false} UnescapeEach(s: string)
    ensures Unescape(EscapeEach(s)) == s
  {
    if s != [] {
      UnescapeChar(s[0], EscapeEach(s[1..]));
      UnescapeEach(s[1..]);
    }
  }

  lemma EscapeIsInjective(a: string, b: string)
    requires EscapedBy4(a) == EscapedBy4(b)
    ensures a == b
  {
    UnescapeInverts(a);
    UnescapeInverts(b);
  }
}
