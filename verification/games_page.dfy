/**
 * The catalog page (`GamesPageController`): serves `games/index.html` from
 * storage with a `<base>` tag pointing at the public games assets and, when
 * configured, the forum favicon.
 */
module GamesPage {
  import opened Prelude
  import opened Text
  import opened Http
  import opened Splice
  import opened PageTags

  /** What the controller reads from its surroundings. */
  datatype Site = Site(
    indexIsFile: bool,                // is_file on storage/games/index.html
    indexIsReadable: bool,            // is_readable on the same path
    indexContents: Option<String>,    // file_get_contents, None when it returns false
    faviconPath: Option<String>,      // the favicon_path setting
    diskUrl: String -> String)        // URL of a path on the public assets disk

  function Handle(site: Site): (r: Response)
    ensures r.status == 404 <==> !site.indexIsFile || !site.indexIsReadable
    ensures r.status == 500 <==> site.indexIsFile && site.indexIsReadable && site.indexContents.None?
    ensures r.status == 200 <==> site.indexIsFile && site.indexIsReadable && site.indexContents.Some?
    ensures r.status == 200 ==>
      && ContentType in r.headers && r.headers[ContentType] == "text/html; charset=UTF-8"
      && r.body == PageHtml(site.indexContents.value, BaseTag(site.diskUrl("games")),
                            FaviconTag(site.faviconPath, site.diskUrl))
  {
    if !site.indexIsFile || !site.indexIsReadable then HtmlResponse("Games page not found", 404)
    else match site.indexContents
      case None => HtmlResponse("Failed to load", 500)
      case Some(html) =>
        var body := PageHtml(html, BaseTag(site.diskUrl("games")), FaviconTag(site.faviconPath, site.diskUrl));
        Response(200, body, map[ContentType := "text/html; charset=UTF-8"])
  }

  /**
   * The served page is the stored document with exactly the two tags added:
   * deleting them gives the original back, except that the first closing
   * head tag is now spelled `</head>` in lower case.
   */
  lemma PageKeepsDocument(site: Site, h: String)
    requires Handle(site).status == 200 && site.indexContents == Some(h)
    ensures TagsPlaced(Handle(site).body, h, BaseTag(site.diskUrl("games")), FaviconTag(site.faviconPath, site.diskUrl))
  {
    PageHtmlPlacesTags(h, BaseTag(site.diskUrl("games")), FaviconTag(site.faviconPath, site.diskUrl));
  }
}
