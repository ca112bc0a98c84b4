/**
 * `htmlspecialchars($s, ENT_QUOTES, 'UTF-8')`, used to put URLs into the
 * `href` attribute of the injected `<base>` and favicon tags.
 *
 * The five characters `&`, `"`, `'`, `<` and `>` become entities. Because the
 * call passes neither `ENT_SUBSTITUTE` nor `ENT_IGNORE`, input that is not
 * well-formed UTF-8 yields the empty string.
 */
module HtmlText {
  import opened Text

  predicate IsTrail(c: char) {
    0x80 <= c as int <= 0xBF
  }

  predicate InRange(c: char, lo: int, hi: int) {
    lo <= c as int <= hi
  }

  /**
   * The length of the well-formed UTF-8 sequence starting at `i`, or 0 when
   * the bytes there are not one (table 3-7 of the Unicode standard: no
   * overlong forms, no surrogates, nothing above U+10FFFF).
   */
  function SequenceWidth(s: String, i: nat): (w: nat)
    requires i < |s|
    ensures w <= 4 && i + w <= |s|
  {
    var c := s[i];
    if c as int < 0x80 then 1
    else if InRange(c, 0xC2, 0xDF) then
      if i + 2 <= |s| && IsTrail(s[i + 1]) then 2 else 0
    else if InRange(c, 0xE0, 0xEF) then
      if i + 3 <= |s| && IsTrail(s[i + 2])
        && (if c as int == 0xE0 then InRange(s[i + 1], 0xA0, 0xBF)
            else if c as int == 0xED then InRange(s[i + 1], 0x80, 0x9F)
            else IsTrail(s[i + 1]))
      then 3 else 0
    else if InRange(c, 0xF0, 0xF4) then
      if i + 4 <= |s| && IsTrail(s[i + 2]) && IsTrail(s[i + 3])
        && (if c as int == 0xF0 then InRange(s[i + 1], 0x90, 0xBF)
            else if c as int == 0xF4 then InRange(s[i + 1], 0x80, 0x8F)
            else IsTrail(s[i + 1]))
      then 4 else 0
    else 0
  }

  /** The bytes from `i` on are a sequence of well-formed UTF-8 characters. */
  predicate ValidUtf8From(s: String, i: nat)
    requires i <= |s|
    decreases |s| - i
  {
    i == |s| || (SequenceWidth(s, i) > 0 && ValidUtf8From(s, i + SequenceWidth(s, i)))
  }

  predicate ValidUtf8(s: String) {
    ValidUtf8From(s, 0)
  }

  /** Bytes that must never appear raw inside a quoted attribute value. */
  predicate IsMarkup(c: char) {
    c == '"' || c == '\'' || c == '<' || c == '>'
  }

  function EscapeChar(c: char): (r: String)
    ensures forall i :: 0 <= i < |r| ==> !IsMarkup(r[i])
  {
    if c == '&' then "&amp;"
    else if c == '"' then "&quot;"
    else if c == '\'' then "&#039;"
    else if c == '<' then "&lt;"
    else if c == '>' then "&gt;"
    else [c]
  }

  function Escape(s: String): (r: String)
    ensures forall i :: 0 <= i < |r| ==> !IsMarkup(r[i])
  {
    if |s| == 0 then [] else EscapeChar(s[0]) + Escape(s[1..])
  }

  /** One of the five entities starts at `i`. */
  predicate EntityAt(r: String, i: nat)
    requires i <= |r|
  {
    StartsWith(r[i..], "&amp;") || StartsWith(r[i..], "&quot;") || StartsWith(r[i..], "&#039;")
    || StartsWith(r[i..], "&lt;") || StartsWith(r[i..], "&gt;")
  }

  /** Every ampersand of the output starts an entity. */
  predicate AmpersandsStartEntities(r: String) {
    forall i :: 0 <= i < |r| && r[i] == '&' ==> EntityAt(r, i)
  }

  /** The escape of one character has its only ampersand in front, starting an entity. */
  lemma EscapeCharAmpersand(c: char, rest: String, k: nat)
    requires k < |EscapeChar(c)| && EscapeChar(c)[k] == '&'
    ensures k == 0 && EntityAt(EscapeChar(c) + rest, 0)
  {
    var e := EscapeChar(c);
    assert (e + rest)[0..][..|e|] == e;
  }

  /** An entity keeps its place behind a prefix. */
  lemma EntityAtShift(e: String, t: String, i: nat)
    requires i <= |t| && EntityAt(t, i)
    ensures EntityAt(e + t, |e| + i)
  {
    assert (e + t)[|e| + i..] == t[i..];
  }

  /** Escaping leaves no bare ampersand. */
  lemma {:induction false} EscapeAmpersands(s: String)
    ensures AmpersandsStartEntities(Escape(s))
  {
    if |s| > 0 {
      var e := EscapeChar(s[0]);
      var rest := Escape(s[1..]);
      var r := Escape(s);
      assert r == e + rest;
      EscapeAmpersands(s[1..]);
      forall i | 0 <= i < |r| && r[i] == '&'
        ensures EntityAt(r, i)
      {
        if i < |e| {
          EscapeCharAmpersand(s[0], rest, i);
        } else {
          assert rest[i - |e|] == '&';
          EntityAtShift(e, rest, i - |e|);
        }
      }
    }
  }

  /** `htmlspecialchars` with `ENT_QUOTES` and the `UTF-8` charset. */
  function HtmlSpecialChars(s: String): (r: String)
    ensures forall i :: 0 <= i < |r| ==> !IsMarkup(r[i])
    ensures forall i :: 0 <= i < |r| && r[i] == '&' ==> EntityAt(r, i)
    ensures ValidUtf8(s) ==> Unescape(r) == s
    ensures !ValidUtf8(s) ==> |r| == 0
  {
    if ValidUtf8(s) then
      UnescapeEscape(s);
      EscapeAmpersands(s);
      Escape(s)
    else ""
  }

  /** The inverse of `Escape` (`htmlspecialchars_decode` with `ENT_QUOTES`). */
  function Unescape(s: String): String
    decreases |s|
  {
    if |s| == 0 then []
    else if StartsWith(s, "&amp;") then "&" + Unescape(s[5..])
    else if StartsWith(s, "&quot;") then "\"" + Unescape(s[6..])
    else if StartsWith(s, "&#039;") then "'" + Unescape(s[6..])
    else if StartsWith(s, "&lt;") then "<" + Unescape(s[4..])
    else if StartsWith(s, "&gt;") then ">" + Unescape(s[4..])
    else [s[0]] + Unescape(s[1..])
  }

  /** Escaping loses nothing: unescaping gives the original string back. */
  lemma {:induction false} UnescapeEscape(s: String)
    ensures Unescape(Escape(s)) == s
  {
    if |s| > 0 {
      UnescapeEscape(s[1..]);
      UnescapeEscapeChar(s[0], Escape(s[1..]));
      assert Escape(s) == EscapeChar(s[0]) + Escape(s[1..]);
      assert s == [s[0]] + s[1..];
    }
  }

  /** Unescaping consumes the escape of one character and nothing after it. */
  lemma UnescapeEscapeChar(c: char, rest: String)
    ensures Unescape(EscapeChar(c) + rest) == [c] + Unescape(rest)
  {
    if c == '&' {
      UnescapeEntity("&amp;", '&', rest);
    } else if c == '"' {
      UnescapeEntity("&quot;", '"', rest);
    } else if c == '\'' {
      UnescapeEntity("&#039;", '\'', rest);
    } else if c == '<' {
      UnescapeEntity("&lt;", '<', rest);
    } else if c == '>' {
      UnescapeEntity("&gt;", '>', rest);
    } else {
      UnescapePlain(c, rest);
    }
  }

  lemma UnescapeEntity(e: String, c: char, rest: String)
    requires (e, c) in [("&amp;", '&'), ("&quot;", '"'), ("&#039;", '\''), ("&lt;", '<'), ("&gt;", '>')]
    ensures Unescape(e + rest) == [c] + Unescape(rest)
  {
    var t := e + rest;
    assert t[..|e|] == e && t[|e|..] == rest;
    assert t[1] == e[1];
    if e == "&amp;" {
      assert StartsWith(t, "&amp;");
    } else {
      assert !StartsWith(t, "&amp;") by { if 5 <= |t| { assert t[..5][1] == t[1]; } }
      if e == "&quot;" {
        assert StartsWith(t, "&quot;");
      } else {
        assert !StartsWith(t, "&quot;") by { if 6 <= |t| { assert t[..6][1] == t[1]; } }
        if e == "&#039;" {
          assert StartsWith(t, "&#039;");
        } else {
          assert !StartsWith(t, "&#039;") by { if 6 <= |t| { assert t[..6][1] == t[1]; } }
          if e == "&lt;" {
            assert StartsWith(t, "&lt;");
          } else {
            assert !StartsWith(t, "&lt;") by { if 4 <= |t| { assert t[..4][1] == t[1]; } }
            assert StartsWith(t, "&gt;");
          }
        }
      }
    }
  }

  lemma UnescapePlain(c: char, rest: String)
    requires c != '&'
    ensures Unescape([c] + rest) == [c] + Unescape(rest)
  {
    var t := [c] + rest;
    assert t[0] == c && t[1..] == rest;
    assert !StartsWith(t, "&amp;") && !StartsWith(t, "&quot;") && !StartsWith(t, "&#039;");
    assert !StartsWith(t, "&lt;") && !StartsWith(t, "&gt;");
  }

  /** An ASCII string is always well-formed UTF-8, so its escape is never emptied. */
  lemma {:induction false} AsciiIsValidUtf8(s: String, i: nat)
    requires i <= |s|
    requires forall k :: 0 <= k < |s| ==> s[k] as int < 0x80
    ensures ValidUtf8From(s, i)
    decreases |s| - i
  {
    if i < |s| {
      AsciiIsValidUtf8(s, i + 1);
    }
  }
}
