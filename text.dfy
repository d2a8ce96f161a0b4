/**
  The emptiness test of the send branch: `if user_input.strip():` holds
  when the input still has a character after leading and trailing
  whitespace are removed.
 */
module Text {

  /** The characters `str.isspace` accepts, by code point: the ASCII
      controls 9-13 and 28-31, the space, NEL, NO-BREAK SPACE, OGHAM SPACE
      MARK, the spaces U+2000-U+200A, the line and paragraph separators,
      NARROW NO-BREAK SPACE, MEDIUM MATHEMATICAL SPACE and IDEOGRAPHIC SPACE. */
  predicate IsWhitespace(c: char) {
    var n := c as int;
    (0x09 <= n <= 0x0D) || (0x1C <= n <= 0x20) || n == 0x85 || n == 0xA0 || n == 0x1680
    || (0x2000 <= n <= 0x200A) || n == 0x2028 || n == 0x2029 || n == 0x202F || n == 0x205F
    || n == 0x3000
  }

  predicate AllWhitespace(s: string) {
    forall i :: 0 <= i < |s| ==> IsWhitespace(s[i])
  }

  /** `s.lstrip()`. */
  function TrimStart(s: string): string {
    if s != [] && IsWhitespace(s[0]) then TrimStart(s[1..]) else s
  }

  /** `s.rstrip()`. */
  function TrimEnd(s: string): string {
    if s != [] && IsWhitespace(s[|s| - 1]) then TrimEnd(s[..|s| - 1]) else s
  }

  /** `lstrip()` leaves the suffix that follows the leading whitespace. */
  lemma {:induction false} TrimStartSpec(s: string)
    ensures var r := TrimStart(s);
      && |r| <= |s| && r == s[|s| - |r|..]
      && (forall k :: 0 <= k < |s| - |r| ==> IsWhitespace(s[k]))
      && (r == [] || !IsWhitespace(r[0]))
  {
    if s != [] && IsWhitespace(s[0]) {
      var tail := s[1..];
      TrimStartSpec(tail);
      var r := TrimStart(tail);
      assert tail[|tail| - |r|..] == s[|s| - |r|..];
      forall k | 0 <= k < |s| - |r|
        ensures IsWhitespace(s[k])
      {
        if k > 0 {
          assert s[k] == tail[k - 1];
        }
      }
    }
  }

  /** `rstrip()` leaves the prefix that precedes the trailing whitespace. */
  lemma {:induction false} TrimEndSpec(s: string)
    ensures var r := TrimEnd(s);
      && |r| <= |s| && r == s[..|r|]
      && (forall k :: |r| <= k < |s| ==> IsWhitespace(s[k]))
      && (r == [] || !IsWhitespace(r[|r| - 1]))
  {
    if s != [] && IsWhitespace(s[|s| - 1]) {
      var s' := s[..|s| - 1];
      TrimEndSpec(s');
      assert s'[..|TrimEnd(s')|] == s[..|TrimEnd(s')|];
    }
  }

  /** `s.strip()`. */
  function Strip(s: string): string {
    TrimEnd(TrimStart(s))
  }

  /** The input is falsy after `strip()`. */
  predicate IsBlank(s: string) {
    Strip(s) == []
  }

  /** What `strip()` returns is empty or starts and ends at a
      non-whitespace character. */
  lemma StripEndsAtText(s: string)
    ensures var r := Strip(s); r == [] || (!IsWhitespace(r[0]) && !IsWhitespace(r[|r| - 1]))
  {
    var t := TrimStart(s);
    var r := TrimEnd(t);
    TrimStartSpec(s);
    TrimEndSpec(t);
    if r != [] {
      assert r[0] == t[0];
    }
  }

  /** A post is refused exactly when every character of the input is
      whitespace (the empty input included). */
  lemma BlankIffAllWhitespace(s: string)
    ensures IsBlank(s) <==> AllWhitespace(s)
  {
    var t := TrimStart(s);
    TrimStartSpec(s);
    TrimEndSpec(t);
    if t == [] {
      assert s[..|s|] == s;
    } else {
      assert t[0] == s[|s| - |t|];
      assert t[0..] == t;
    }
  }

  lemma SpacesAreBlank()
    ensures IsBlank("   ")
    ensures IsBlank("")
    ensures IsBlank("\t\n")
  {
  }
}
