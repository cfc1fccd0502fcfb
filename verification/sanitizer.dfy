/** `safe_html`: Python's `html.escape(text, quote=False)`, which makes text
    safe to embed in a message that the chat service parses as HTML. */
module Sanitizer {
  import opened Text

  /** The characters that the escaper rewrites. */
  predicate Special(c: char) {
    c == '&' || c == '<' || c == '>'
  }

  /** Text with none of `&`, `<` and `>`. */
  predicate Plain(s: string) {
    forall k :: 0 <= k < |s| ==> !Special(s[k])
  }

  /** Text with no raw `<` or `>`. */
  predicate NoAngle(s: string) {
    forall k :: 0 <= k < |s| ==> s[k] != '<' && s[k] != '>'
  }

  /** One of the three entities the escaper writes starts at position `i`. */
  predicate EntityAt(t: string, i: nat)
    requires i <= |t|
  {
    StartsWith(t[i..], "&amp;") || StartsWith(t[i..], "&lt;") || StartsWith(t[i..], "&gt;")
  }

  /** HTML-safe text: no raw `<` or `>`, and every `&` begins an entity. */
  predicate Safe(t: string) {
    NoAngle(t) && forall i :: 0 <= i < |t| && t[i] == '&' ==> EntityAt(t, i)
  }

  function EscapeChar(c: char): string {
    if c == '&' then "&amp;"
    else if c == '<' then "&lt;"
    else if c == '>' then "&gt;"
    else [c]
  }

  /** `safe_html(text)`, one character at a time. */
  function Escape(s: string): (r: string)
    ensures |r| >= |s|
    decreases |s|
  {
    if s == [] then [] else EscapeChar(s[0]) + Escape(s[1..])
  }

  /** Turns the three entities back into the characters they stand for. */
  function Unescape(t: string): (r: string)
    ensures |r| <= |t|
    decreases |t|
  {
    if t == [] then []
    else if StartsWith(t, "&amp;") then ['&'] + Unescape(t[5..])
    else if StartsWith(t, "&lt;") then ['<'] + Unescape(t[4..])
    else if StartsWith(t, "&gt;") then ['>'] + Unescape(t[4..])
    else [t[0]] + Unescape(t[1..])
  }

  /** `html.escape(s, quote=False)` as the library writes it: three
      `str.replace` passes, `&` first. */
  function HtmlEscape(s: string): string {
    Replace(Replace(Replace(s, "&", "&amp;"), "<", "&lt;"), ">", "&gt;")
  }

  lemma {:induction false} EscapeConcat(a: string, b: string)
    ensures Escape(a + b) == Escape(a) + Escape(b)
    decreases |a|
  {
    if a == [] {
      assert a + b == b;
    } else {
      assert (a + b)[0] == a[0] && (a + b)[1..] == a[1..] + b;
      EscapeConcat(a[1..], b);
    }
  }

  lemma SafeConcat(a: string, b: string)
    requires Safe(a) && Safe(b)
    ensures Safe(a + b)
  {
    var t := a + b;
    forall i | 0 <= i < |t| && t[i] == '&'
      ensures EntityAt(t, i)
    {
      if i < |a| {
        assert EntityAt(a, i);
        assert t[i..] == a[i..] + b;
      } else {
        assert t[i..] == b[i - |a|..];
        assert EntityAt(b, i - |a|);
      }
    }
  }

  lemma SafeEscapeChar(c: char)
    ensures Safe(EscapeChar(c))
  {
    var e := EscapeChar(c);
    if c == '&' {
      assert e[0..] == "&amp;";
    } else if c == '<' {
      assert e[0..] == "&lt;";
    } else if c == '>' {
      assert e[0..] == "&gt;";
    }
  }

  /** The output of `safe_html` is HTML-safe: no raw `<` or `>`, and every
      `&` in it begins one of `&amp;`, `&lt;`, `&gt;`. */
  lemma {:induction false} EscapeIsSafe(s: string)
    ensures Safe(Escape(s))
    decreases |s|
  {
    if s != [] {
      SafeEscapeChar(s[0]);
      EscapeIsSafe(s[1..]);
      SafeConcat(EscapeChar(s[0]), Escape(s[1..]));
    }
  }

  lemma UnescapeEscapeChar(c: char, rest: string)
    ensures Unescape(EscapeChar(c) + rest) == [c] + Unescape(rest)
  {
    var t := EscapeChar(c) + rest;
    if c == '&' {
      assert t[..5] == "&amp;" && t[5..] == rest;
    } else if c == '<' {
      Mismatch(t, "&amp;", 1);
      assert t[..4] == "&lt;" && t[4..] == rest;
    } else if c == '>' {
      Mismatch(t, "&amp;", 1);
      Mismatch(t, "&lt;", 1);
      assert t[..4] == "&gt;" && t[4..] == rest;
    } else {
      Mismatch(t, "&amp;", 0);
      Mismatch(t, "&lt;", 0);
      Mismatch(t, "&gt;", 0);
      assert t[1..] == rest;
    }
  }

  /** Unescaping the output of `safe_html` gives back its input: escaping
      loses nothing. */
  lemma {:induction false} UnescapeEscape(s: string)
    ensures Unescape(Escape(s)) == s
    decreases |s|
  {
    if s != [] {
      UnescapeEscapeChar(s[0], Escape(s[1..]));
      UnescapeEscape(s[1..]);
      assert [s[0]] + s[1..] == s;
    }
  }

  /** Text without `&`, `<` and `>` is returned unchanged, and only such text. */
  lemma {:induction false} EscapeFixesPlain(s: string)
    ensures Escape(s) == s <==> Plain(s)
    decreases |s|
  {
    if s != [] {
      EscapeFixesPlain(s[1..]);
      assert s == [s[0]] + s[1..];
      if Escape(s) == s {
        assert |EscapeChar(s[0])| == 1 by {
          assert |Escape(s[1..])| >= |s| - 1;
        }
        assert !Special(s[0]);
        assert Escape(s[1..]) == s[1..];
      }
      if Plain(s) {
        assert Plain(s[1..]) by {
          assert forall k :: 0 <= k < |s| - 1 ==> s[1..][k] == s[k + 1];
        }
      }
    }
  }

  lemma EscapeCharIsHtmlEscape(c: char)
    ensures HtmlEscape([c]) == EscapeChar(c)
  {
    assert [c] + [] == [c];
    assert Replace([], "&", "&amp;") == [];
    assert Replace([], "<", "&lt;") == [];
    assert Replace([], ">", "&gt;") == [];
    ReplaceCharCons(c, [], '&', "&amp;");
    var a := Replace([c], "&", "&amp;");
    if c == '&' {
      assert a == "&amp;";
      ReplaceCharAbsent(a, '<', "&lt;");
      ReplaceCharAbsent(a, '>', "&gt;");
    } else {
      assert a == [c];
      ReplaceCharCons(c, [], '<', "&lt;");
      var b := Replace(a, "<", "&lt;");
      if c == '<' {
        assert b == "&lt;";
        ReplaceCharAbsent(b, '>', "&gt;");
      } else {
        assert b == [c];
        ReplaceCharCons(c, [], '>', "&gt;");
      }
    }
  }

  lemma HtmlEscapeConcat(a: string, b: string)
    ensures HtmlEscape(a + b) == HtmlEscape(a) + HtmlEscape(b)
  {
    ReplaceCharConcat(a, b, '&', "&amp;");
    var a1, b1 := Replace(a, "&", "&amp;"), Replace(b, "&", "&amp;");
    ReplaceCharConcat(a1, b1, '<', "&lt;");
    var a2, b2 := Replace(a1, "<", "&lt;"), Replace(b1, "<", "&lt;");
    ReplaceCharConcat(a2, b2, '>', "&gt;");
  }

  /** The character-wise escaper agrees with the library's three replace
      passes on every input. */
  lemma {:induction false} EscapeMatchesHtmlEscape(s: string)
    ensures Escape(s) == HtmlEscape(s)
    decreases |s|
  {
    if s == [] {
      assert Replace([], "&", "&amp;") == [];
      assert Replace([], "<", "&lt;") == [];
      assert Replace([], ">", "&gt;") == [];
    } else {
      assert s == [s[0]] + s[1..];
      HtmlEscapeConcat([s[0]], s[1..]);
      EscapeCharIsHtmlEscape(s[0]);
      EscapeMatchesHtmlEscape(s[1..]);
    }
  }

  /** Doing the passes in the other order double-encodes: the `&` of `&lt;`
      is escaped again. */
  lemma AmpersandLastDoubleEncodes()
    ensures Replace(Replace("<", "<", "&lt;"), "&", "&amp;") == "&amp;lt;"
    ensures HtmlEscape("<") == "&lt;"
  {
    ReplaceCharCons('<', [], '<', "&lt;");
    assert Replace("<", "<", "&lt;") == "&lt;";
    var t := "&lt;";
    assert t == ['&'] + "lt;";
    ReplaceCharCons('&', "lt;", '&', "&amp;");
    ReplaceCharAbsent("lt;", '&', "&amp;");
    EscapeCharIsHtmlEscape('<');
  }
}
