/**
 * The two tags both page controllers inject: `<base href="...">` pointing at
 * the public asset URL of the games directory, and the forum's favicon link.
 * URLs come from the asset disk's URL generator, which the model takes as
 * given strings.
 */
module PageTags {
  import opened Prelude
  import opened Text
  import opened HtmlText
  import opened Splice

  /** `rtrim($url, '/') . '/'`. */
  function BaseHref(url: String): (r: String)
    ensures |r| > 0 && r[|r| - 1] == '/'
    ensures |r| == 1 || r[|r| - 2] != '/'
    ensures r[..|r| - 1] == TrimRight(url, {'/'})
  {
    TrimRight(url, {'/'}) + "/"
  }

  /** Normalising the base href twice changes nothing. */
  lemma BaseHrefIdempotent(url: String)
    ensures BaseHref(BaseHref(url)) == BaseHref(url)
  {
    var t := TrimRight(url, {'/'});
    var u := t + "/";
    assert u[..|u| - 1] == t;
    assert TrimRight(u, {'/'}) == TrimRight(t, {'/'});
    if |t| > 0 {
      assert TrimRight(t, {'/'}) == t;
    }
  }

  /** `'<base href="' . htmlspecialchars($assetsUrl, ENT_QUOTES, 'UTF-8') . '">'`. */
  function BaseTag(assetsUrl: String): (r: String)
    ensures InertFor(r, HeadClose) && InertFor(r, BodyClose)
    ensures |r| >= 14 && r[..12] == "<base href=\"" && r[|r| - 2..] == "\">"
    ensures ValidUtf8(BaseHref(assetsUrl)) ==> Unescape(r[12..|r| - 2]) == BaseHref(assetsUrl)
  {
    AttrTag("<base href=\"", HtmlSpecialChars(BaseHref(assetsUrl)))
  }

  /** `open . esc . '">'`: an opening tag whose last attribute value is `esc`. */
  function AttrTag(open: String, esc: String): (r: String)
    requires |open| >= 2 && open[0] == '<' && forall q :: 1 <= q < |open| ==> open[q] != '<'
    requires forall i :: 0 <= i < |esc| ==> !IsMarkup(esc[i])
    ensures |r| == |open| + |esc| + 2
    ensures r[..|open|] == open && r[|open|..|r| - 2] == esc && r[|r| - 2..] == "\">"
    ensures r[0] == '<' && r[1] == open[1]
    ensures forall q :: 1 <= q < |r| ==> r[q] != '<'
  {
    var r := open + esc + "\">";
    assert r[..|open|] == open && r[|open|..|r| - 2] == esc;
    forall q | 1 <= q < |r|
      ensures r[q] != '<'
    {
      if q < |open| {
        assert r[q] == open[q];
      } else if q < |r| - 2 {
        assert r[q] == esc[q - |open|] && !IsMarkup(esc[q - |open|]);
      }
    }
    r
  }

  /**
   * `buildFaviconTag`: nothing when the `favicon_path` setting is missing or
   * falsy, otherwise `<link rel="icon" href="...">` around the escaped URL.
   */
  function FaviconTag(faviconPath: Option<String>, diskUrl: String -> String): (r: Option<String>)
    ensures r.None? <==> faviconPath.None? || PhpFalsy(faviconPath.value)
    ensures r.Some? ==> InertFor(r.value, HeadClose) && InertFor(r.value, BodyClose)
    ensures r.Some? ==> |r.value| >= 25 && r.value[..23] == "<link rel=\"icon\" href=\"" && r.value[|r.value| - 2..] == "\">"
    ensures r.Some? && ValidUtf8(diskUrl(faviconPath.value)) ==>
      Unescape(r.value[23..|r.value| - 2]) == diskUrl(faviconPath.value)
  {
    if faviconPath.None? || PhpFalsy(faviconPath.value) then None
    else
      Some(AttrTag("<link rel=\"icon\" href=\"", HtmlSpecialChars(diskUrl(faviconPath.value))))
  }

  /** The document after both injections: the base tag first, then the favicon. */
  function PageHtml(html: String, baseTag: String, favicon: Option<String>): String {
    var withBase := InsertAfterHeadTag(html, baseTag);
    if favicon.Some? then InsertBeforeHeadClose(withBase, favicon.value) else withBase
  }

  /**
   * `out` is the stored document `h` with exactly the two tags added: the base
   * tag `b` right after the first opening head tag (in front when there is
   * none) and the favicon, when there is one, in front of the first closing
   * head tag (nowhere when there is none), that closing tag being spelled
   * `</head>` in lower case.
   */
  ghost predicate TagsPlaced(out: String, h: String, b: String, fav: Option<String>) {
    && (fav.None? && (forall i, j :: !HeadTagAt(h, i, j)) ==> out == b + h)
    && (forall i, j :: fav.None? && HeadTagAt(h, i, j) && NoHeadTagBefore(h, i) ==> out == h[..j] + b + h[j..])
    && (fav.Some? && (forall i, j :: !HeadTagAt(h, i, j)) ==>
          && ((forall m :: !MatchAtCI(h, m, HeadClose)) ==> out == b + h)
          && (forall m :: FirstMatchCI(h, m, HeadClose) ==>
                out == b + h[..m] + fav.value + HeadClose + h[m + 7..]))
    && (forall i, j :: fav.Some? && HeadTagAt(h, i, j) && NoHeadTagBefore(h, i) ==>
          && ((forall m :: !MatchAtCI(h, m, HeadClose)) ==> out == h[..j] + b + h[j..])
          && (forall m :: FirstMatchCI(h, m, HeadClose) && m + 7 <= j ==>
                out == h[..m] + fav.value + HeadClose + h[m + 7..j] + b + h[j..])
          && (forall m :: FirstMatchCI(h, m, HeadClose) && j <= m ==>
                out == h[..j] + b + h[j..m] + fav.value + HeadClose + h[m + 7..]))
  }

  /** Both page controllers' injections place their tags as `TagsPlaced` describes. */
  lemma PageHtmlPlacesTags(h: String, b: String, fav: Option<String>)
    requires InertFor(b, HeadClose)
    ensures TagsPlaced(PageHtml(h, b, fav), h, b, fav)
  {
    if fav.Some? {
      match FindHeadTag(h)
      case None =>
        PageWithoutHeadTag(h, b, fav.value);
      case Some((i, j)) =>
        PageWithHeadTag(h, b, fav.value, i, j);
    }
  }

  lemma HeadCloseIsTagPattern()
    ensures TagPattern(HeadClose)
  {
  }

  /** Without an opening head tag the base tag leads the page and the favicon sits before the first `</head>`. */
  lemma PageWithoutHeadTag(h: String, b: String, f: String)
    requires InertFor(b, HeadClose)
    requires forall i, j :: !HeadTagAt(h, i, j)
    ensures (forall m :: !MatchAtCI(h, m, HeadClose)) ==> PageHtml(h, b, Some(f)) == b + h
    ensures forall m :: FirstMatchCI(h, m, HeadClose) ==>
      PageHtml(h, b, Some(f)) == b + h[..m] + f + HeadClose + h[m + 7..]
  {
    var s := b + h;
    assert s == h[..0] + b + h[0..];
    HeadCloseIsTagPattern();
    FirstMatchAfterInsert(h, 0, b, HeadClose);
    forall m | FirstMatchCI(h, m, HeadClose)
      ensures PageHtml(h, b, Some(f)) == b + h[..m] + f + HeadClose + h[m + 7..]
    {
      assert FirstMatchCI(s, m + |b|, HeadClose);
      assert s[..m + |b|] == b + h[..m];
      assert s[m + |b| + 7..] == h[m + 7..];
    }
  }

  /** With an opening head tag ending at `j`, the two tags land on either side of it, wherever `</head>` is. */
  lemma PageWithHeadTag(h: String, b: String, f: String, i: int, j: int)
    requires InertFor(b, HeadClose)
    requires HeadTagAt(h, i, j) && NoHeadTagBefore(h, i)
    ensures (forall m :: !MatchAtCI(h, m, HeadClose)) ==> PageHtml(h, b, Some(f)) == h[..j] + b + h[j..]
    ensures forall m :: FirstMatchCI(h, m, HeadClose) ==> m + 7 <= j || j <= m
    ensures forall m :: FirstMatchCI(h, m, HeadClose) && m + 7 <= j ==>
      PageHtml(h, b, Some(f)) == h[..m] + f + HeadClose + h[m + 7..j] + b + h[j..]
    ensures forall m :: FirstMatchCI(h, m, HeadClose) && j <= m ==>
      PageHtml(h, b, Some(f)) == h[..j] + b + h[j..m] + f + HeadClose + h[m + 7..]
  {
    HeadCloseIsTagPattern();
    FirstMatchAfterInsert(h, j, b, HeadClose);
    forall m | FirstMatchCI(h, m, HeadClose)
      ensures m + 7 <= j || j <= m
    {
      NoMatchStraddles(h, j, HeadClose, m);
    }
    forall m | FirstMatchCI(h, m, HeadClose) && m + 7 <= j
      ensures PageHtml(h, b, Some(f)) == h[..m] + f + HeadClose + h[m + 7..j] + b + h[j..]
    {
      CloseBeforeHeadTag(h, b, f, j, m);
    }
    forall m | FirstMatchCI(h, m, HeadClose) && j <= m
      ensures PageHtml(h, b, Some(f)) == h[..j] + b + h[j..m] + f + HeadClose + h[m + 7..]
    {
      CloseAfterHeadTag(h, b, f, j, m);
    }
  }

  lemma CloseBeforeHeadTag(h: String, b: String, f: String, j: int, m: int)
    requires 0 <= m && m + 7 <= j <= |h|
    requires InsertAfterHeadTag(h, b) == h[..j] + b + h[j..]
    requires FirstMatchCI(h[..j] + b + h[j..], m, HeadClose)
    ensures PageHtml(h, b, Some(f)) == h[..m] + f + HeadClose + h[m + 7..j] + b + h[j..]
  {
    var s := h[..j] + b + h[j..];
    ReplaceAt(s, m, f);
    SlicesBeforeInsert(h, b, j, m);
    Regroup(h[..m], f, HeadClose, h[m + 7..j], b, h[j..]);
  }

  lemma CloseAfterHeadTag(h: String, b: String, f: String, j: int, m: int)
    requires 0 <= j <= m && m + 7 <= |h|
    requires InsertAfterHeadTag(h, b) == h[..j] + b + h[j..]
    requires FirstMatchCI(h[..j] + b + h[j..], m + |b|, HeadClose)
    ensures PageHtml(h, b, Some(f)) == h[..j] + b + h[j..m] + f + HeadClose + h[m + 7..]
  {
    var s := h[..j] + b + h[j..];
    ReplaceAt(s, m + |b|, f);
    SlicesAfterInsert(h, b, j, m);
    Regroup(h[..j], b, h[j..m], f, HeadClose, h[m + 7..]);
  }

  lemma ReplaceAt(s: String, m: int, f: String)
    requires FirstMatchCI(s, m, HeadClose)
    ensures InsertBeforeHeadClose(s, f) == s[..m] + f + HeadClose + s[m + 7..]
  {
  }

  lemma SlicesBeforeInsert(h: String, b: String, j: int, m: int)
    requires 0 <= m && m + 7 <= j <= |h|
    ensures (h[..j] + b + h[j..])[..m] == h[..m]
    ensures (h[..j] + b + h[j..])[m + 7..] == h[m + 7..j] + b + h[j..]
  {
  }

  lemma SlicesAfterInsert(h: String, b: String, j: int, m: int)
    requires 0 <= j <= m && m + 7 <= |h|
    ensures (h[..j] + b + h[j..])[..m + |b|] == h[..j] + b + h[j..m]
    ensures (h[..j] + b + h[j..])[m + |b| + 7..] == h[m + 7..]
  {
  }

  lemma Regroup(x: String, y: String, z: String, u: String, v: String, w: String)
    ensures x + y + z + (u + v + w) == x + y + z + u + v + w
    ensures x + y + z + u + (v + w) == x + y + z + u + v + w
  {
  }
}
