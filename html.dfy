/**
 * `escapeHtml`: five `replaceAll` passes, ampersand first, that make a cell
 * value safe to place between HTML tags or inside a quoted attribute.
 */
module Html {
  import opened Text

  /** `escapeHtml(s)` for a string value, the passes in source order. */
  function EscapeHtml(s: string): string
  {
    var amp := ReplaceAll(s, '&', "&amp;");
    var lt := ReplaceAll(amp, '<', "&lt;");
    var gt := ReplaceAll(lt, '>', "&gt;");
    var quot := ReplaceAll(gt, '"', "&quot;");
    ReplaceAll(quot, '\'', "&#39;")
  }

  /** The characters `escapeHtml` rewrites. */
  predicate IsMarkup(c: char)
  {
    c == '&' || c == '<' || c == '>' || c == '"' || c == '\''
  }

  /** The entity each character stands for in the output. */
  function EscapeChar(c: char): string
  {
    match c
    case '&' => "&amp;"
    case '<' => "&lt;"
    case '>' => "&gt;"
    case '"' => "&quot;"
    case '\'' => "&#39;"
    case _ => [c]
  }

  /** The reference definition: each character replaced by its entity, independently of the others. */
  function EscapeEach(s: string): string
  {
    if s == [] then [] else EscapeChar(s[0]) + EscapeEach(s[1..])
  }

  predicate StartsWith(t: string, p: string)
  {
    |p| <= |t| && t[..|p|] == p
  }

  /** Reading the five entities back, one character at a time from the left. */
  function Unescape(t: string): string
  {
    if t == [] then []
    else if StartsWith(t, "&amp;") then ['&'] + Unescape(t[5..])
    else if StartsWith(t, "&lt;") then ['<'] + Unescape(t[4..])
    else if StartsWith(t, "&gt;") then ['>'] + Unescape(t[4..])
    else if StartsWith(t, "&quot;") then ['"'] + Unescape(t[6..])
    else if StartsWith(t, "&#39;") then ['\''] + Unescape(t[5..])
    else [t[0]] + Unescape(t[1..])
  }
}

/** What `escapeHtml` guarantees, proved against the per-character definition. */
module HtmlProperties {
  import opened Text
  import opened Html

  lemma {:induction false} ReplaceAllAppend(a: string, b: string, c: char, sub: string)
    ensures ReplaceAll(a + b, c, sub) == ReplaceAll(a, c, sub) + ReplaceAll(b, c, sub)
  {
    if a == [] {
      assert a + b == b;
    } else {
      var head := if a[0] == c then sub else [a[0]];
      assert (a + b)[0] == a[0] && (a + b)[1..] == a[1..] + b;
      assert ReplaceAll(a + b, c, sub) == head + ReplaceAll(a[1..] + b, c, sub);
      ReplaceAllAppend(a[1..], b, c, sub);
      var x, y := ReplaceAll(a[1..], c, sub), ReplaceAll(b, c, sub);
      assert ReplaceAll(a, c, sub) == head + x;
      assert head + (x + y) == (head + x) + y;
    }
  }

  lemma {:induction false} EscapeHtmlAppend(a: string, b: string)
    ensures EscapeHtml(a + b) == EscapeHtml(a) + EscapeHtml(b)
  {
    var a1, b1 := ReplaceAll(a, '&', "&amp;"), ReplaceAll(b, '&', "&amp;");
    ReplaceAllAppend(a, b, '&', "&amp;");
    var a2, b2 := ReplaceAll(a1, '<', "&lt;"), ReplaceAll(b1, '<', "&lt;");
    ReplaceAllAppend(a1, b1, '<', "&lt;");
    var a3, b3 := ReplaceAll(a2, '>', "&gt;"), ReplaceAll(b2, '>', "&gt;");
    ReplaceAllAppend(a2, b2, '>', "&gt;");
    var a4, b4 := ReplaceAll(a3, '"', "&quot;"), ReplaceAll(b3, '"', "&quot;");
    ReplaceAllAppend(a3, b3, '"', "&quot;");
    ReplaceAllAppend(a4, b4, '\'', "&#39;");
  }

  /** One pass over a single character or over a text without the pattern. */
  lemma ReplaceAllPass(x: string, c: char, sub: string)
    requires |x| == 1 || c !in x
    ensures ReplaceAll(x, c, sub) == if x == [c] then sub else x
  {
    if c !in x {
      ReplaceAllAbsent(x, c, sub);
    } else {
      assert x == [x[0]] && ReplaceAll(x[1..], c, sub) == [];
    }
  }

  /** A text without the pattern is left as it is. */
  lemma {:induction false} ReplaceAllAbsent(s: string, c: char, sub: string)
    requires c !in s
    ensures ReplaceAll(s, c, sub) == s
  {
    if s != [] {
      assert c !in s[1..] by {
        assert forall k :: 0 <= k < |s| - 1 ==> s[1..][k] == s[k + 1];
      }
      ReplaceAllAbsent(s[1..], c, sub);
      assert s == [s[0]] + s[1..];
    }
  }

  /** After a pass the pattern no longer occurs, provided the replacement does not hold it. */
  lemma {:induction false} ReplaceAllRemoves(s: string, c: char, sub: string)
    requires c !in sub
    ensures c !in ReplaceAll(s, c, sub)
  {
    if s != [] {
      ReplaceAllRemoves(s[1..], c, sub);
    }
  }

  /** The passes after the `n`-th leave a text alone that holds none of their patterns. */
  lemma PassesFrom(x: string, n: nat)
    requires n <= 4
    requires n <= 1 ==> '<' !in x
    requires n <= 2 ==> '>' !in x
    requires n <= 3 ==> '"' !in x
    requires '\'' !in x
    ensures n <= 1 ==> ReplaceAll(x, '<', "&lt;") == x
    ensures n <= 2 ==> ReplaceAll(x, '>', "&gt;") == x
    ensures n <= 3 ==> ReplaceAll(x, '"', "&quot;") == x
    ensures ReplaceAll(x, '\'', "&#39;") == x
  {
    if n <= 1 { ReplaceAllAbsent(x, '<', "&lt;"); }
    if n <= 2 { ReplaceAllAbsent(x, '>', "&gt;"); }
    if n <= 3 { ReplaceAllAbsent(x, '"', "&quot;"); }
    ReplaceAllAbsent(x, '\'', "&#39;");
  }

  /** On one character the five passes produce exactly that character's entity: no entity is escaped again. */
  lemma EscapeHtmlChar(c: char)
    ensures EscapeHtml([c]) == EscapeChar(c)
  {
    if !IsMarkup(c) {
      PlainUnchanged([c]);
    } else if c == '&' {
      ReplaceAllPass([c], '&', "&amp;");
      PassesFrom("&amp;", 1);
    } else {
      ReplaceAllAbsent([c], '&', "&amp;");
      if c == '<' {
        ReplaceAllPass([c], '<', "&lt;");
        PassesFrom("&lt;", 2);
      } else {
        ReplaceAllAbsent([c], '<', "&lt;");
        EscapeLateChar(c);
      }
    }
  }

  /** The last three passes on one of their own patterns. */
  lemma EscapeLateChar(c: char)
    requires c == '>' || c == '"' || c == '\''
    ensures ReplaceAll(ReplaceAll(ReplaceAll([c], '>', "&gt;"), '"', "&quot;"), '\'', "&#39;") == EscapeChar(c)
  {
    if c == '>' {
      ReplaceAllPass([c], '>', "&gt;");
      PassesFrom("&gt;", 3);
    } else {
      ReplaceAllAbsent([c], '>', "&gt;");
      EscapeQuoteChar(c);
    }
  }

  lemma EscapeQuoteChar(c: char)
    requires c == '"' || c == '\''
    ensures ReplaceAll(ReplaceAll([c], '"', "&quot;"), '\'', "&#39;") == EscapeChar(c)
  {
    if c == '"' {
      ReplaceAllPass([c], '"', "&quot;");
      PassesFrom("&quot;", 4);
    } else {
      ReplaceAllAbsent([c], '"', "&quot;");
      ReplaceAllPass([c], '\'', "&#39;");
    }
  }

  /** `escapeHtml` is the per-character escape: ampersand going first means no replacement is itself rewritten. */
  lemma {:induction false} EscapeHtmlIsEach(s: string)
    ensures EscapeHtml(s) == EscapeEach(s)
  {
    if s != [] {
      assert s == [s[0]] + s[1..];
      EscapeHtmlAppend([s[0]], s[1..]);
      EscapeHtmlChar(s[0]);
      EscapeHtmlIsEach(s[1..]);
    }
  }

  /** A later pass does not bring back a character an earlier one removed. */
  lemma {:induction false} ReplaceAllKeepsOut(s: string, c: char, sub: string, x: char)
    requires x !in s && x !in sub
    ensures x !in ReplaceAll(s, c, sub)
  {
    if s != [] {
      assert x !in s[1..] by {
        assert forall k :: 0 <= k < |s| - 1 ==> s[1..][k] == s[k + 1];
      }
      ReplaceAllKeepsOut(s[1..], c, sub, x);
    }
  }

  /** The output holds no `<`, `>`, `"` or `'`. */
  lemma NoMarkupLeft(s: string)
    ensures '<' !in EscapeHtml(s) && '>' !in EscapeHtml(s)
    ensures '"' !in EscapeHtml(s) && '\'' !in EscapeHtml(s)
  {
    var amp := ReplaceAll(s, '&', "&amp;");
    var lt := ReplaceAll(amp, '<', "&lt;");
    var gt := ReplaceAll(lt, '>', "&gt;");
    var quot := ReplaceAll(gt, '"', "&quot;");
    ReplaceAllRemoves(amp, '<', "&lt;");
    ReplaceAllRemoves(lt, '>', "&gt;");
    ReplaceAllRemoves(gt, '"', "&quot;");
    ReplaceAllRemoves(quot, '\'', "&#39;");
    ReplaceAllKeepsOut(lt, '>', "&gt;", '<');
    ReplaceAllKeepsOut(gt, '"', "&quot;", '<');
    ReplaceAllKeepsOut(gt, '"', "&quot;", '>');
    ReplaceAllKeepsOut(quot, '\'', "&#39;", '<');
    ReplaceAllKeepsOut(quot, '\'', "&#39;", '>');
    ReplaceAllKeepsOut(quot, '\'', "&#39;", '"');
  }

  /** A value without any of the five characters is left as it is. */
  lemma {:induction false} PlainUnchanged(s: string)
    requires forall k :: 0 <= k < |s| ==> !IsMarkup(s[k])
    ensures EscapeHtml(s) == s
  {
    assert '&' !in s && '<' !in s && '>' !in s && '"' !in s && '\'' !in s;
    ReplaceAllAbsent(s, '&', "&amp;");
    ReplaceAllAbsent(s, '<', "&lt;");
    ReplaceAllAbsent(s, '>', "&gt;");
    ReplaceAllAbsent(s, '"', "&quot;");
    ReplaceAllAbsent(s, '\'', "&#39;");
  }

  /** An entity, or a character that needs none, decodes to its character. */
  lemma UnescapeOne(c: char, rest: string)
    ensures Unescape(EscapeChar(c) + rest) == [c] + Unescape(rest)
  {
    var e := EscapeChar(c);
    var t := e + rest;
    assert t[..|e|] == e && t[|e|..] == rest;
    assert StartsWith(t, e);
    if c == '<' || c == '>' {
      Differs(t, "&amp;", 1);
    } else if c == '"' {
      Differs(t, "&amp;", 1);
      Differs(t, "&lt;", 1);
      Differs(t, "&gt;", 1);
    } else if c == '\'' {
      Differs(t, "&amp;", 1);
      Differs(t, "&lt;", 1);
      Differs(t, "&gt;", 1);
      Differs(t, "&quot;", 1);
    } else if c != '&' {
      Differs(t, "&amp;", 0);
      Differs(t, "&lt;", 0);
      Differs(t, "&gt;", 0);
      Differs(t, "&quot;", 0);
      Differs(t, "&#39;", 0);
    }
  }

  lemma Differs(t: string, p: string, k: nat)
    requires k < |t| && k < |p| && t[k] != p[k]
    ensures !StartsWith(t, p)
  {
    if |p| <= |t| {
      assert t[..|p|][k] == t[k];
    }
  }

  /** Decoding the entities gives the value back. */
  lemma {:induction false} UnescapeEscapeEach(s: string)
    ensures Unescape(EscapeEach(s)) == s
  {
    if s != [] {
      UnescapeEscapeEach(s[1..]);
      UnescapeOne(s[0], EscapeEach(s[1..]));
      assert s == [s[0]] + s[1..];
    }
  }

  /** `escapeHtml` loses nothing: the entities it writes decode to the original value. */
  lemma EscapeHtmlRoundTrip(s: string)
    ensures Unescape(EscapeHtml(s)) == s
  {
    EscapeHtmlIsEach(s);
    UnescapeEscapeEach(s);
  }
}
