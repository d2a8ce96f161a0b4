/**
  Markup escaping of chat input, as `sanitize_input` does it: a call of
  `html.escape` with its default `quote=True`. That routine rewrites five
  characters, `&` first, so that the ampersands it introduces are not
  rewritten again.
 */
module Sanitizer {

  /** The characters `html.escape` rewrites. */
  predicate IsMarkup(c: char) {
    c == '&' || c == '<' || c == '>' || c == '"' || c == '\''
  }

  /** No character that could open a tag or close an attribute value. */
  predicate IsInert(t: string) {
    forall i :: 0 <= i < |t| ==> t[i] != '<' && t[i] != '>' && t[i] != '"' && t[i] != '\''
  }

  /** The replacement text of one character. */
  function EscapeChar(c: char): string {
    match c
    case '&' => "&amp;"
    case '<' => "&lt;"
    case '>' => "&gt;"
    case '"' => "&quot;"
    case '\'' => "&#x27;"
    case _ => [c]
  }

  /** `html.escape(s)`, one character at a time. */
  function Escape(s: string): (r: string)
    ensures IsInert(r)
    ensures |r| >= |s|
  {
    if s == [] then [] else EscapeChar(s[0]) + Escape(s[1..])
  }

  /** `s.replace(c, rep)` for a one-character pattern. */
  function Replace(s: string, c: char, rep: string): string {
    if s == [] then [] else (if s[0] == c then rep else [s[0]]) + Replace(s[1..], c, rep)
  }

  /** `html.escape` as the standard library writes it: five `str.replace`
      calls in a row, the one for `&` first. */
  function ReplaceChain(s: string): string {
    var amp := Replace(s, '&', "&amp;");
    var lt := Replace(amp, '<', "&lt;");
    var gt := Replace(lt, '>', "&gt;");
    var quot := Replace(gt, '"', "&quot;");
    Replace(quot, '\'', "&#x27;")
  }

  /** The inverse of `Escape`: reads the five entities back. */
  function Unescape(t: string): string
    decreases |t|
  {
    if t == [] then []
    else if "&amp;" <= t then ['&'] + Unescape(t[5..])
    else if "&lt;" <= t then ['<'] + Unescape(t[4..])
    else if "&gt;" <= t then ['>'] + Unescape(t[4..])
    else if "&quot;" <= t then ['"'] + Unescape(t[6..])
    else if "&#x27;" <= t then ['\''] + Unescape(t[6..])
    else [t[0]] + Unescape(t[1..])
  }

  /** Text that is the escaped form of some input. */
  predicate IsEscaped(t: string) {
    Escape(Unescape(t)) == t
  }

  lemma {:induction false} ReplaceConcat(a: string, b: string, c: char, rep: string)
    ensures Replace(a + b, c, rep) == Replace(a, c, rep) + Replace(b, c, rep)
  {
    if a == [] {
      assert a + b == b;
    } else {
      assert (a + b)[1..] == a[1..] + b;
      ReplaceConcat(a[1..], b, c, rep);
    }
  }

  lemma {:induction false} ReplaceAbsent(s: string, c: char, rep: string)
    requires forall i :: 0 <= i < |s| ==> s[i] != c
    ensures Replace(s, c, rep) == s
  {
    if s != [] {
      ReplaceAbsent(s[1..], c, rep);
    }
  }

  lemma ReplaceChainConcat(a: string, b: string)
    ensures ReplaceChain(a + b) == ReplaceChain(a) + ReplaceChain(b)
  {
    ReplaceConcat(a, b, '&', "&amp;");
    var a1, b1 := Replace(a, '&', "&amp;"), Replace(b, '&', "&amp;");
    ReplaceConcat(a1, b1, '<', "&lt;");
    var a2, b2 := Replace(a1, '<', "&lt;"), Replace(b1, '<', "&lt;");
    ReplaceConcat(a2, b2, '>', "&gt;");
    var a3, b3 := Replace(a2, '>', "&gt;"), Replace(b2, '>', "&gt;");
    ReplaceConcat(a3, b3, '"', "&quot;");
    var a4, b4 := Replace(a3, '"', "&quot;"), Replace(b3, '"', "&quot;");
    ReplaceConcat(a4, b4, '\'', "&#x27;");
  }

  lemma ReplaceSingle(x: char, c: char, rep: string)
    ensures Replace([x], c, rep) == if x == c then rep else [x]
  {
  }

  /** The four replacements after the first leave `t` alone when it holds
      none of their characters. */
  lemma ReplaceTailAbsent(t: string)
    requires forall i :: 0 <= i < |t| ==> t[i] != '<' && t[i] != '>' && t[i] != '"' && t[i] != '\''
    ensures Replace(Replace(Replace(Replace(t, '<', "&lt;"), '>', "&gt;"), '"', "&quot;"), '\'', "&#x27;") == t
  {
    ReplaceAbsent(t, '<', "&lt;");
    ReplaceAbsent(t, '>', "&gt;");
    ReplaceAbsent(t, '"', "&quot;");
    ReplaceAbsent(t, '\'', "&#x27;");
  }

  lemma ReplaceChainChar(c: char)
    ensures ReplaceChain([c]) == EscapeChar(c)
  {
    ReplaceSingle(c, '&', "&amp;");
    if c == '&' {
      ReplaceTailAbsent("&amp;");
    } else {
      ReplaceSingle(c, '<', "&lt;");
      if c == '<' {
        ReplaceAbsent("&lt;", '>', "&gt;");
        ReplaceAbsent("&lt;", '"', "&quot;");
        ReplaceAbsent("&lt;", '\'', "&#x27;");
      } else {
        ReplaceSingle(c, '>', "&gt;");
        if c == '>' {
          ReplaceAbsent("&gt;", '"', "&quot;");
          ReplaceAbsent("&gt;", '\'', "&#x27;");
        } else {
          ReplaceSingle(c, '"', "&quot;");
          if c == '"' {
            ReplaceAbsent("&quot;", '\'', "&#x27;");
          } else {
            ReplaceSingle(c, '\'', "&#x27;");
          }
        }
      }
    }
  }

  /** Escaping character by character is the standard library's chain of
      replacements: doing `&` first means no entity is escaped twice. */
  lemma {:induction false} EscapeIsReplaceChain(s: string)
    ensures ReplaceChain(s) == Escape(s)
  {
    if s != [] {
      assert s == [s[0]] + s[1..];
      ReplaceChainConcat([s[0]], s[1..]);
      ReplaceChainChar(s[0]);
      EscapeIsReplaceChain(s[1..]);
    }
  }

  lemma UnescapePlain(c: char, t: string)
    requires !IsMarkup(c)
    ensures Unescape([c] + t) == [c] + Unescape(t)
  {
  }

  lemma UnescapeEntity(c: char, t: string)
    requires IsMarkup(c)
    ensures Unescape(EscapeChar(c) + t) == [c] + Unescape(t)
  {
    var e := EscapeChar(c) + t;
    if c == '&' {
      assert "&amp;" <= e && e[5..] == t;
    } else if c == '<' {
      assert e[1] == 'l' && "&lt;" <= e && e[4..] == t;
    } else if c == '>' {
      assert e[1] == 'g' && "&gt;" <= e && e[4..] == t;
    } else if c == '"' {
      assert e[1] == 'q' && "&quot;" <= e && e[6..] == t;
    } else {
      assert e[1] == '#' && "&#x27;" <= e && e[6..] == t;
    }
  }

  lemma UnescapeEscapeChar(c: char, t: string)
    ensures Unescape(EscapeChar(c) + t) == [c] + Unescape(t)
  {
    if IsMarkup(c) {
      UnescapeEntity(c, t);
    } else {
      UnescapePlain(c, t);
    }
  }

  /** Escaping loses nothing: the original text can be read back. */
  lemma {:induction false} UnescapeEscape(s: string)
    ensures Unescape(Escape(s)) == s
  {
    if s != [] {
      UnescapeEscapeChar(s[0], Escape(s[1..]));
      UnescapeEscape(s[1..]);
    }
  }

  /** Two different inputs never produce the same stored text. */
  lemma EscapeInjective(a: string, b: string)
    requires Escape(a) == Escape(b)
    ensures a == b
  {
    UnescapeEscape(a);
    UnescapeEscape(b);
  }

  /** Whatever `Escape` returns satisfies `IsEscaped`. */
  lemma EscapeIsEscaped(s: string)
    ensures IsEscaped(Escape(s))
  {
    UnescapeEscape(s);
  }

  lemma {:induction false} EscapeConcat(a: string, b: string)
    ensures Escape(a + b) == Escape(a) + Escape(b)
  {
    if a == [] {
      assert a + b == b;
    } else {
      assert (a + b)[1..] == a[1..] + b;
      EscapeConcat(a[1..], b);
    }
  }

  /** The result differs from the input exactly when the input holds one
      of the five characters. */
  lemma {:induction false} EscapeChangesIffMarkup(s: string)
    ensures Escape(s) == s <==> forall i :: 0 <= i < |s| ==> !IsMarkup(s[i])
  {
    if s != [] {
      EscapeChangesIffMarkup(s[1..]);
      if IsMarkup(s[0]) {
        assert |Escape(s)| > |s|;
      } else if Escape(s) == s {
        assert Escape(s[1..]) == s[1..];
      }
    }
  }

  lemma EscapeCloseTag()
    ensures Escape("</b>") == "&lt;/b&gt;"
  {
  }

  lemma EscapeOpenTagText()
    ensures Escape("<b>hi") == "&lt;b&gt;hi"
  {
  }

  lemma EscapeSplitTag()
    ensures Escape("<b>hi</b>") == Escape("<b>hi") + Escape("</b>")
  {
    EscapeConcat("<b>hi", "</b>");
    assert "<b>hi" + "</b>" == "<b>hi</b>";
  }

  /** `<b>hi</b>` is stored as `&lt;b&gt;hi&lt;/b&gt;`. */
  lemma EscapeTagExample()
    ensures Escape("<b>hi</b>") == "&lt;b&gt;hi&lt;/b&gt;"
  {
    EscapeSplitTag();
    EscapeOpenTagText();
    EscapeCloseTag();
    assert "&lt;b&gt;hi" + "&lt;/b&gt;" == "&lt;b&gt;hi&lt;/b&gt;";
  }

  /** Escaping is not idempotent: a second pass would escape the
      ampersands of the first, so the text must be escaped exactly once. */
  lemma EscapeTwiceDiffers()
    ensures Escape("<") == "&lt;"
    ensures Escape(Escape("<")) == "&amp;lt;"
    ensures Escape(Escape("<")) != Escape("<")
  {
  }
}
