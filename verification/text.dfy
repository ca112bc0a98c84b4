/**
 * Byte-string helpers shared by the controllers: ASCII case folding as PHP's
 * `strtolower` and PCRE's `/i` flag perform it, the slug grammar
 * `[a-z0-9_-]+` (case-insensitive), first-occurrence search, and `trim`.
 *
 * PHP strings are byte strings; every `char` of a `String` stands for one byte.
 */
module Text {
  import opened Prelude

  type String = seq<char>

  /** A string every char of which is a byte value. */
  predicate IsBytes(s: String) {
    forall i :: 0 <= i < |s| ==> s[i] as int < 256
  }

  /** ASCII lower-casing of one byte; every other byte is left alone. */
  function LowerChar(c: char): char {
    if 'A' <= c <= 'Z' then (c as int + 32) as char else c
  }

  function Lower(s: String): (r: String)
    ensures |r| == |s|
    ensures forall i :: 0 <= i < |s| ==> r[i] == LowerChar(s[i])
  {
    seq(|s|, i requires 0 <= i < |s| => LowerChar(s[i]))
  }

  /** Lower-casing is idempotent. */
  lemma LowerIdempotent(s: String)
    ensures Lower(Lower(s)) == Lower(s)
  {
  }

  /** `pat` occurs at offset `i` of `h`, ignoring ASCII case (a PCRE `/i` literal match). */
  predicate MatchAtCI(h: String, i: int, pat: String) {
    0 <= i && i + |pat| <= |h| && Lower(h[i..i + |pat|]) == Lower(pat)
  }

  /** The first case-insensitive occurrence of `pat` in `h` at or after `from`. */
  function FindCI(h: String, pat: String, from: nat): (r: Option<nat>)
    decreases |h| - from
    ensures r.Some? ==> from <= r.value && MatchAtCI(h, r.value, pat)
    ensures r.Some? ==> forall j :: from <= j < r.value ==> !MatchAtCI(h, j, pat)
    ensures r.None? ==> forall j :: from <= j ==> !MatchAtCI(h, j, pat)
  {
    if from + |pat| > |h| then None
    else if MatchAtCI(h, from, pat) then Some(from)
    else FindCI(h, pat, from + 1)
  }

  /** The first position at or after `from` that holds byte `c`. */
  function FindChar(h: String, c: char, from: nat): (r: Option<nat>)
    decreases |h| - from
    ensures r.Some? ==> from <= r.value < |h| && h[r.value] == c
    ensures r.Some? ==> forall j :: from <= j < r.value ==> h[j] != c
    ensures r.None? ==> forall j :: from <= j < |h| ==> h[j] != c
  {
    if from >= |h| then None
    else if h[from] == c then Some(from)
    else FindChar(h, c, from + 1)
  }

  predicate StartsWith(s: String, prefix: String) {
    |prefix| <= |s| && s[..|prefix|] == prefix
  }

  /** `needle` occurs somewhere in `s` (PHP `str_contains`, case-sensitive). */
  predicate Contains(s: String, needle: String) {
    exists i :: 0 <= i <= |s| - |needle| && OccursAt(s, i, needle)
  }

  predicate OccursAt(s: String, i: int, needle: String) {
    0 <= i <= |s| - |needle| && s[i..i + |needle|] == needle
  }

  /** One character of the slug grammar `[a-z0-9_-]` under the `/i` flag. */
  predicate IsSlugChar(c: char) {
    'a' <= c <= 'z' || 'A' <= c <= 'Z' || '0' <= c <= '9' || c == '_' || c == '-'
  }

  /** The whole of `s` is a slug: one or more slug characters and nothing else. */
  predicate IsSlug(s: String) {
    |s| > 0 && forall i :: 0 <= i < |s| ==> IsSlugChar(s[i])
  }

  /**
   * What `preg_match('~^[a-z0-9_-]+$~i', s)` accepts as written: without the
   * `D` modifier PCRE's `$` also matches just before a final newline, so a
   * slug followed by one "\n" passes too.
   */
  predicate MatchesSlugPattern(s: String) {
    IsSlug(s) || (|s| >= 2 && s[|s| - 1] == '\n' && IsSlug(s[..|s| - 1]))
  }

  /** PHP `empty()` on an optional string parameter: absent, "" and "0" are empty. */
  predicate PhpEmpty(v: Option<String>) {
    v.None? || v.value == "" || v.value == "0"
  }

  /** PHP truthiness of a string (`?:`, `if (!$x)`): "" and "0" are false. */
  predicate PhpFalsy(s: String) {
    s == "" || s == "0"
  }

  /** `ltrim(s, cut)`: drops the longest prefix made of bytes in `cut`. */
  function TrimLeft(s: String, cut: set<char>): (r: String)
    ensures |r| <= |s| && r == s[|s| - |r|..]
    ensures forall i :: 0 <= i < |s| - |r| ==> s[i] in cut
    ensures |r| > 0 ==> r[0] !in cut
  {
    if |s| > 0 && s[0] in cut then
      var r := TrimLeft(s[1..], cut);
      assert forall i :: 1 <= i < |s| - |r| ==> s[i] == s[1..][i - 1];
      r
    else s
  }

  /** `rtrim(s, cut)`: drops the longest suffix made of bytes in `cut`. */
  function TrimRight(s: String, cut: set<char>): (r: String)
    ensures |r| <= |s| && r == s[..|r|]
    ensures forall i :: |r| <= i < |s| ==> s[i] in cut
    ensures |r| > 0 ==> r[|r| - 1] !in cut
  {
    if |s| > 0 && s[|s| - 1] in cut then
      var r := TrimRight(s[..|s| - 1], cut);
      assert forall i :: |r| <= i < |s| - 1 ==> s[i] == s[..|s| - 1][i];
      r
    else s
  }

  /** `r` is `s` with a prefix of length `a` and some suffix removed, all of whose bytes are in `cut`. */
  predicate TrimmedAt(s: String, a: int, r: String, cut: set<char>) {
    && 0 <= a <= |s| - |r|
    && r == s[a..a + |r|]
    && (forall i :: 0 <= i < a ==> s[i] in cut)
    && (forall i :: a + |r| <= i < |s| ==> s[i] in cut)
  }

  /** `trim(s, cut)`: both ends. */
  function Trim(s: String, cut: set<char>): (r: String)
    ensures exists a :: TrimmedAt(s, a, r, cut)
    ensures |r| > 0 ==> r[0] !in cut && r[|r| - 1] !in cut
  {
    var left := TrimLeft(s, cut);
    var r := TrimRight(left, cut);
    TrimmedByBoth(s, cut, left, r);
    r
  }

  /** `rtrim(ltrim(s))` cuts a prefix and a suffix of cut bytes from `s`. */
  lemma TrimmedByBoth(s: String, cut: set<char>, left: String, r: String)
    requires |left| <= |s| && left == s[|s| - |left|..]
    requires forall i :: 0 <= i < |s| - |left| ==> s[i] in cut
    requires |r| <= |left| && r == left[..|r|]
    requires forall i :: |r| <= i < |left| ==> left[i] in cut
    requires |left| > 0 ==> left[0] !in cut
    requires |r| > 0 ==> r[|r| - 1] !in cut
    ensures exists a :: TrimmedAt(s, a, r, cut)
    ensures |r| > 0 ==> r[0] !in cut && r[|r| - 1] !in cut
  {
    var a := |s| - |left|;
    assert |r| > 0 ==> r[0] == left[0];
    assert r == s[a..a + |r|] by {
      assert left == s[a..] && r == left[..|r|];
    }
    assert forall i :: a + |r| <= i < |s| ==> s[i] in cut by {
      forall i | a + |r| <= i < |s|
        ensures s[i] in cut
      {
        assert s[i] == left[i - a];
      }
    }
    assert TrimmedAt(s, a, r, cut);
  }

  /** Trimming an already trimmed string changes nothing. */
  lemma TrimIdempotent(s: String, cut: set<char>)
    ensures Trim(Trim(s, cut), cut) == Trim(s, cut)
  {
    var t := Trim(s, cut);
    if |t| > 0 {
      assert TrimLeft(t, cut) == t;
      assert TrimRight(t, cut) == t;
    }
  }

  /**
   * Once a trailing newline has been trimmed away, the PCRE pattern with its
   * lenient `$` accepts exactly the strict slug grammar.
   */
  lemma TrimmedSlugPattern(s: String)
    requires |s| == 0 || s[|s| - 1] != '\n'
    ensures MatchesSlugPattern(s) <==> IsSlug(s)
  {
  }
}
