/**
 * The three ways the page controllers splice text into an HTML document, each
 * a single `preg_replace` with limit 1:
 *
 *  - `~(<head[^>]*>)~i` with `'$1' . $tag`: the tag goes right after the first
 *    opening head tag (which also matches `<header ...>`), and when nothing
 *    matched the tag is prepended;
 *  - `~</head>~i` (or `~</body>~i`) with `$text . '</head>'`: the text goes in
 *    front of the first closing tag, and the matched closing tag itself is
 *    rewritten in lower case, because the replacement spells it out;
 *  - the script chain: before `</body>`, else before `</head>`, else in front.
 *
 * Matching is the leftmost match, and `/i` folds ASCII case only.
 */
module Splice {
  import opened Prelude
  import opened Text

  const HeadOpen: String := "<head"
  const HeadClose: String := "</head>"
  const BodyClose: String := "</body>"

  /** `h[i..j]` is a match of `<head[^>]*>`: `<head` in any case, then no `>`, then `>`. */
  predicate HeadTagAt(h: String, i: int, j: int) {
    && MatchAtCI(h, i, HeadOpen)
    && i + 5 < j <= |h|
    && h[j - 1] == '>'
    && forall k :: i + 5 <= k < j - 1 ==> h[k] != '>'
  }

  /** No match of `<head[^>]*>` starts before offset `i`. */
  ghost predicate NoHeadTagBefore(h: String, i: int) {
    forall i', j' :: i' < i ==> !HeadTagAt(h, i', j')
  }

  /** `i` is the start of the leftmost case-insensitive occurrence of `pat`. */
  predicate FirstMatchCI(h: String, i: int, pat: String) {
    MatchAtCI(h, i, pat) && forall j :: 0 <= j < i ==> !MatchAtCI(h, j, pat)
  }

  /** The leftmost match of `<head[^>]*>` as a pair of offsets, as PCRE finds it. */
  function FindHeadTag(h: String): (r: Option<(nat, nat)>)
    ensures r.Some? ==> HeadTagAt(h, r.value.0, r.value.1) && NoHeadTagBefore(h, r.value.0)
    ensures r.Some? ==> forall j :: HeadTagAt(h, r.value.0, j) ==> j == r.value.1
    ensures r.None? ==> forall i, j :: !HeadTagAt(h, i, j)
  {
    match FindCI(h, HeadOpen, 0)
    case None => None
    case Some(i) =>
      match FindChar(h, '>', i + 5)
      case None =>
        assert forall i', j :: HeadTagAt(h, i', j) ==> h[j - 1] == '>' && i + 5 <= j - 1;
        None
      case Some(k) =>
        assert HeadTagAt(h, i, k + 1);
        Some((i, k + 1))
  }

  /** The base-tag rule: after the leftmost `<head[^>]*>`, or in front when there is none. */
  function InsertAfterHeadTag(h: String, tag: String): (r: String)
    ensures (forall i, j :: !HeadTagAt(h, i, j)) ==> r == tag + h
    ensures forall i, j :: HeadTagAt(h, i, j) && NoHeadTagBefore(h, i) ==> r == h[..j] + tag + h[j..]
    ensures |r| == |h| + |tag|
  {
    match FindHeadTag(h)
    case None => tag + h
    case Some((_, j)) => h[..j] + tag + h[j..]
  }

  /**
   * `preg_replace('~' . pat . '~i', rep, h, 1, $count)`: the leftmost match is
   * replaced by `rep`, and `count` says whether there was one.
   */
  function ReplaceFirstCI(h: String, pat: String, rep: String): (r: (String, nat))
    ensures r.1 <= 1
    ensures r.1 == 0 <==> forall i :: !MatchAtCI(h, i, pat)
    ensures r.1 == 0 ==> r.0 == h
    ensures forall i :: FirstMatchCI(h, i, pat) ==> r.0 == h[..i] + rep + h[i + |pat|..]
  {
    match FindCI(h, pat, 0)
    case None => (h, 0)
    case Some(i) => (h[..i] + rep + h[i + |pat|..], 1)
  }

  /** The favicon rule: `text` in front of the first `</head>`; nothing happens without one. */
  function InsertBeforeHeadClose(h: String, text: String): (r: String)
    ensures (forall i :: !MatchAtCI(h, i, HeadClose)) ==> r == h
    ensures forall i :: FirstMatchCI(h, i, HeadClose) ==> r == h[..i] + text + HeadClose + h[i + 7..]
  {
    ReplaceFirstCI(h, HeadClose, text + HeadClose).0
  }

  /** The script rule: before the first `</body>`, else before the first `</head>`, else in front. */
  function InsertScript(h: String, script: String): (r: String)
    ensures forall i :: FirstMatchCI(h, i, BodyClose) ==> r == h[..i] + script + BodyClose + h[i + 7..]
    ensures (forall i :: !MatchAtCI(h, i, BodyClose)) ==>
      forall i :: FirstMatchCI(h, i, HeadClose) ==> r == h[..i] + script + HeadClose + h[i + 7..]
    ensures (forall i :: !MatchAtCI(h, i, BodyClose)) && (forall i :: !MatchAtCI(h, i, HeadClose)) ==>
      r == script + h
    ensures Contains(r, script)
    ensures |r| == |h| + |script|
  {
    var (afterBody, count) := ReplaceFirstCI(h, BodyClose, script + BodyClose);
    if count == 0 then
      BeforeHeadOrFront(h, script)
    else
      ReplacedContains(h, BodyClose, script);
      afterBody
  }

  /** The script rule's fallback for a page without `</body>`: before the first `</head>`, else in front. */
  function BeforeHeadOrFront(h: String, script: String): (r: String)
    ensures forall i :: FirstMatchCI(h, i, HeadClose) ==> r == h[..i] + script + HeadClose + h[i + 7..]
    ensures (forall i :: !MatchAtCI(h, i, HeadClose)) ==> r == script + h
    ensures Contains(r, script)
    ensures |r| == |h| + |script|
  {
    var (afterHead, count) := ReplaceFirstCI(h, HeadClose, script + HeadClose);
    if count == 0 then
      assert OccursAt(script + afterHead, 0, script);
      script + afterHead
    else
      ReplacedContains(h, HeadClose, script);
      afterHead
  }

  /** Replacing the first match of a closing tag by `script` plus the tag keeps `script` in the result. */
  lemma ReplacedContains(h: String, pat: String, script: String)
    requires ReplaceFirstCI(h, pat, script + pat).1 != 0
    ensures var r := ReplaceFirstCI(h, pat, script + pat).0;
      Contains(r, script) && |r| == |h| + |script|
  {
    var i := FindCI(h, pat, 0).value;
    var r := h[..i] + (script + pat) + h[i + |pat|..];
    assert r[i..i + |script|] == script;
    assert OccursAt(r, i, script);
  }

  lemma MatchAtCIChar(h: String, i: nat, pat: String, q: nat)
    requires MatchAtCI(h, i, pat) && q < |pat|
    ensures LowerChar(h[i + q]) == LowerChar(pat[q])
  {
    assert Lower(h[i..i + |pat|])[q] == Lower(pat)[q];
  }

  /** A pattern that starts with `<` and has no `>` before its last byte. */
  predicate TagPattern(pat: String) {
    && |pat| >= 2
    && pat[0] == '<'
    && forall q :: 0 <= q < |pat| - 1 ==> LowerChar(pat[q]) != '>'
  }

  /** A tag whose only `<` is its first byte and whose second byte cannot continue `pat`. */
  predicate InertFor(t: String, pat: String) {
    && |t| >= 2 && |pat| >= 2
    && t[0] == '<'
    && LowerChar(t[1]) != LowerChar(pat[1])
    && forall q :: 1 <= q < |t| ==> t[q] != '<'
  }

  /**
   * Inserting an inert tag right after a `>` (or at the very front) neither
   * creates nor destroys a match of a tag pattern: the matches of the result
   * are exactly the matches of `h`, those after the insertion point shifted
   * by the tag's length.
   */
  lemma {:induction false} InsertKeepsMatches(h: String, k: nat, t: String, pat: String, p: int)
    requires k <= |h| && (k == 0 || h[k - 1] == '>')
    requires TagPattern(pat) && InertFor(t, pat)
    ensures var s := h[..k] + t + h[k..];
      MatchAtCI(s, p, pat) <==>
        (p + |pat| <= k && MatchAtCI(h, p, pat)) || (p >= k + |t| && MatchAtCI(h, p - |t|, pat))
  {
    var s := h[..k] + t + h[k..];
    var n := |pat|;
    assert |s| == |h| + |t|;
    if p < 0 {
    } else if p + n <= k {
      assert s[p..p + n] == h[p..p + n];
    } else if p >= k + |t| {
      if p + n <= |s| {
        assert s[p..p + n] == h[p - |t|..p - |t| + n];
      }
    } else if p < k {
      if MatchAtCI(s, p, pat) {
        assert s[k - 1] == h[k - 1];
        MatchAtCIChar(s, p, pat, k - 1 - p);
      }
    }
  }

  /** No occurrence of a tag pattern in `h` straddles a position that follows a `>`. */
  lemma NoMatchStraddles(h: String, k: nat, pat: String, m: int)
    requires k <= |h| && (k == 0 || h[k - 1] == '>')
    requires TagPattern(pat) && MatchAtCI(h, m, pat)
    ensures m + |pat| <= k || k <= m
  {
    if m < k < m + |pat| {
      MatchAtCIChar(h, m, pat, k - 1 - m);
    }
  }

  /** Where the first match of a tag pattern lands once an inert tag has been inserted. */
  lemma FirstMatchAfterInsert(h: String, k: nat, t: String, pat: String)
    requires k <= |h| && (k == 0 || h[k - 1] == '>')
    requires TagPattern(pat) && InertFor(t, pat)
    ensures var s := h[..k] + t + h[k..];
      && ((forall m :: !MatchAtCI(h, m, pat)) ==> forall p :: !MatchAtCI(s, p, pat))
      && (forall m :: FirstMatchCI(h, m, pat) && m + |pat| <= k ==> FirstMatchCI(s, m, pat))
      && (forall m :: FirstMatchCI(h, m, pat) && k <= m ==> FirstMatchCI(s, m + |t|, pat))
  {
    var s := h[..k] + t + h[k..];
    if forall m :: !MatchAtCI(h, m, pat) {
      forall p
        ensures !MatchAtCI(s, p, pat)
      {
        InsertKeepsMatches(h, k, t, pat, p);
      }
    }
    forall p
      ensures MatchAtCI(s, p, pat) <==>
        (p + |pat| <= k && MatchAtCI(h, p, pat)) || (p >= k + |t| && MatchAtCI(h, p - |t|, pat))
    {
      InsertKeepsMatches(h, k, t, pat, p);
    }
    forall m | FirstMatchCI(h, m, pat) && m + |pat| <= k
      ensures FirstMatchCI(s, m, pat)
    {
      forall p | 0 <= p < m
        ensures !MatchAtCI(s, p, pat)
      {
        InsertKeepsMatches(h, k, t, pat, p);
      }
    }
    forall m | FirstMatchCI(h, m, pat) && k <= m
      ensures FirstMatchCI(s, m + |t|, pat)
    {
      forall p | 0 <= p < m + |t|
        ensures !MatchAtCI(s, p, pat)
      {
        InsertKeepsMatches(h, k, t, pat, p);
      }
    }
  }
}
