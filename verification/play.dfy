/**
 * The play route (`PlayController`): `/play/{slug}` serves a stored game's
 * HTML with a `<base>` tag, the forum favicon and a script carrying the
 * signed-in user and a CSRF token, and offers administrators a debug view.
 *
 * File-system probes, the file read, the asset disk's URL generator and the
 * engine locator chain are parameters of the model. Paths are relative to the
 * `storage/games` directory, with `/` as the directory separator.
 */
module Play {
  import opened Prelude
  import opened Text
  import opened PercentCoding
  import opened Http
  import opened Splice
  import opened PageTags
  import opened Locator

  /** The bytes `trim` strips from both ends of the decoded slug: PHP's default set and `/`. */
  const SlugTrim: set<char> := {' ', '\t', '\n', '\r', '\0', '\U{000B}', '/'}

  datatype Request = Request(
    rawSlug: String,            // the `slug` route parameter, still percent-encoded
    debug: Option<String>,      // the `debug` query parameter
    noinject: Option<String>)   // the `noinject` query parameter

  datatype Actor = Actor(
    isAdmin: bool,
    usernameJson: String,       // json_encode of the username
    authJson: String)           // json_encode of {csrf, userId, apiBase}

  datatype Site = Site(
    isFile: String -> bool,
    isReadable: String -> bool,
    read: String -> Option<String>,   // file_get_contents, None when it returns false
    locate: String -> Located,        // the locator chain's answer for a slug
    faviconPath: Option<String>,
    diskUrl: String -> String)

  /** `trim(rawurldecode($raw), " \t\n\r\0\x0B/")`. */
  function Slug(raw: String): (r: String)
    ensures exists a :: TrimmedAt(PercentDecode(raw), a, r, SlugTrim)
    ensures |r| > 0 ==> r[0] !in SlugTrim && r[|r| - 1] !in SlugTrim
  {
    Trim(PercentDecode(raw), SlugTrim)
  }

  function IndexPath(slug: String): String { slug + "/index.html" }

  function LegacyPath(slug: String): String { slug + ".html" }

  /** The file a valid slug is served from: the directory form when it exists, else the single file. */
  function ServedPath(site: Site, slug: String): (r: String)
    ensures r == IndexPath(slug) || r == LegacyPath(slug)
    ensures site.isFile(IndexPath(slug)) <==> r == IndexPath(slug)
  {
    if site.isFile(IndexPath(slug)) then IndexPath(slug) else LegacyPath(slug)
  }

  /** The debug view's `shape` line. */
  function Shape(site: Site, slug: String): (r: String)
    ensures r == "dir" <==> site.isFile(IndexPath(slug))
    ensures r == "legacy" <==> !site.isFile(IndexPath(slug)) && site.isFile(LegacyPath(slug))
    ensures r == "none" <==> !site.isFile(IndexPath(slug)) && !site.isFile(LegacyPath(slug))
  {
    if site.isFile(IndexPath(slug)) then "dir"
    else if site.isFile(LegacyPath(slug)) then "legacy"
    else "none"
  }

  /** `guessEngine`: the located engine, or "unknown" when that is falsy. */
  function EngineLabel(engine: String): (r: String)
    ensures !PhpFalsy(r)
    ensures !PhpFalsy(engine) ==> r == engine
    ensures PhpFalsy(engine) ==> r == "unknown"
  {
    if PhpFalsy(engine) then "unknown" else engine
  }

  function DebugBody(slug: String, engine: String, shape: String): String {
    "DEBUG (admin only)\nslug=" + slug + "\nengine=" + engine + "\nshape=" + shape
  }

  /** A non-empty `debug` parameter from an administrator. */
  predicate DebugRequested(req: Request, actor: Actor) {
    !PhpEmpty(req.debug) && actor.isAdmin
  }

  /** The script that hands the user and the auth data to the game. */
  function Script(actor: Actor): String {
    "<script>window.ForumUser=" + actor.usernameJson + ";window.ForumAuth=" + actor.authJson + ";</script>"
  }

  /** The script to inject: none when `noinject` is non-empty. */
  function ScriptFor(req: Request, actor: Actor): (r: Option<String>)
    ensures r.None? <==> !PhpEmpty(req.noinject)
    ensures r.Some? ==> r.value == Script(actor)
  {
    if PhpEmpty(req.noinject) then Some(Script(actor)) else None
  }

  /** The page after the base tag, the favicon and the script, in that order. */
  function PlayHtml(html: String, baseTag: String, favicon: Option<String>, script: Option<String>): String {
    var page := PageHtml(html, baseTag, favicon);
    if script.Some? then InsertScript(page, script.value) else page
  }

  function GameBaseTag(site: Site, slug: String): String {
    BaseTag(site.diskUrl("games/" + slug))
  }

  function Handle(req: Request, actor: Actor, site: Site): (r: Response)
    ensures r.status == 400 <==> !IsSlug(Slug(req.rawSlug))
    ensures r.status == 400 ==> r == HtmlResponse("Invalid slug", 400)
    ensures var slug := Slug(req.rawSlug);
      IsSlug(slug) && DebugRequested(req, actor) ==>
        r == Response(200, DebugBody(slug, EngineLabel(site.locate(slug).engine), Shape(site, slug)),
                      map[ContentType := "text/plain; charset=UTF-8"])
    ensures var slug := Slug(req.rawSlug); var file := ServedPath(site, slug);
      r.status == 404 <==> IsSlug(slug) && !DebugRequested(req, actor) && (!site.isFile(file) || !site.isReadable(file))
    ensures var slug := Slug(req.rawSlug); var file := ServedPath(site, slug);
      r.status == 500 <==> IsSlug(slug) && !DebugRequested(req, actor) && site.isFile(file) && site.isReadable(file)
                           && site.read(file).None?
    ensures var slug := Slug(req.rawSlug); var file := ServedPath(site, slug);
      r.status == 200 && !DebugRequested(req, actor) ==>
        && ContentType in r.headers && r.headers[ContentType] == "text/html; charset=UTF-8"
        && site.read(file).Some?
        && r.body == PlayHtml(site.read(file).value, GameBaseTag(site, slug),
                              FaviconTag(site.faviconPath, site.diskUrl), ScriptFor(req, actor))
  {
    var slug := Slug(req.rawSlug);
    TrimmedSlugPattern(slug);
    if slug == "" || !MatchesSlugPattern(slug) then HtmlResponse("Invalid slug", 400)
    else
      var file := ServedPath(site, slug);
      if DebugRequested(req, actor) then
        Response(200, DebugBody(slug, EngineLabel(site.locate(slug).engine), Shape(site, slug)),
                 map[ContentType := "text/plain; charset=UTF-8"])
      else if !site.isFile(file) || !site.isReadable(file) then HtmlResponse("Game not found", 404)
      else match site.read(file)
        case None => HtmlResponse("Failed to load", 500)
        case Some(html) =>
          var body := PlayHtml(html, GameBaseTag(site, slug), FaviconTag(site.faviconPath, site.diskUrl),
                               ScriptFor(req, actor));
          Response(200, body, map[ContentType := "text/html; charset=UTF-8"])
  }

  /**
   * The debug view agrees with what a normal request would do: shape "dir"
   * names the directory form that would be served, and shape "none" means a
   * normal request gets 404.
   */
  lemma DebugShapeAgreesWithServing(req: Request, actor: Actor, site: Site)
    requires IsSlug(Slug(req.rawSlug)) && !DebugRequested(req, actor)
    ensures var slug := Slug(req.rawSlug);
      && (Shape(site, slug) == "dir" <==> ServedPath(site, slug) == IndexPath(slug))
      && (Shape(site, slug) == "none" ==> Handle(req, actor, site).status == 404)
  {
    var slug := Slug(req.rawSlug);
    assert IndexPath(slug) != LegacyPath(slug) by {
      assert IndexPath(slug)[|slug|] == '/' && LegacyPath(slug)[|slug|] == '.';
    }
  }

  /**
   * The debug view reveals no file contents and no paths: it reads nothing,
   * so sites that differ only in readability, contents, favicon or URLs give
   * the same answer.
   */
  lemma DebugIgnoresFiles(req: Request, actor: Actor, s1: Site, s2: Site)
    requires DebugRequested(req, actor)
    requires s1.isFile == s2.isFile && s1.locate == s2.locate
    ensures Handle(req, actor, s1) == Handle(req, actor, s2)
  {
  }

  /**
   * Without the script the served page is the stored game with exactly the
   * base and favicon tags placed; with it, the script is added once more,
   * before the first `</body>`, else the first `</head>`, else in front.
   */
  lemma PlayKeepsDocument(req: Request, actor: Actor, site: Site, h: String)
    requires Handle(req, actor, site).status == 200 && !DebugRequested(req, actor)
    requires site.read(ServedPath(site, Slug(req.rawSlug))) == Some(h)
    ensures var slug := Slug(req.rawSlug);
      var page := PageHtml(h, GameBaseTag(site, slug), FaviconTag(site.faviconPath, site.diskUrl));
      var out := Handle(req, actor, site).body;
      && TagsPlaced(page, h, GameBaseTag(site, slug), FaviconTag(site.faviconPath, site.diskUrl))
      && (!PhpEmpty(req.noinject) ==> out == page)
      && (PhpEmpty(req.noinject) ==> out == InsertScript(page, Script(actor)) && Contains(out, Script(actor))
                                     && |out| == |page| + |Script(actor)|)
  {
    var slug := Slug(req.rawSlug);
    PageHtmlPlacesTags(h, GameBaseTag(site, slug), FaviconTag(site.faviconPath, site.diskUrl));
  }
}
