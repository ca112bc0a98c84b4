/**
 * The asset route (`GamesAssetController`): `/assets/games/{path}` streams a
 * file from `storage/games` after normalising the path, refusing `..`,
 * confining the resolved path to the games directory and allowing only a
 * fixed list of extensions.
 *
 * `realpath`, `is_file` and `is_readable` are parameters of the model; the
 * directory separator is `/`.
 */
module Assets {
  import opened Prelude
  import opened Text
  import opened PercentCoding
  import opened Http

  /** The extensions the route serves. */
  const AllowedExts: seq<String> := [
    "css", "js", "json", "map", "html",
    "png", "jpg", "jpeg", "gif", "svg", "webp",
    "mp3", "ogg", "wav", "m4a", "aac", "flac", "webm", "mp4",
    "woff", "woff2", "ttf", "otf", "eot"]

  /** The content type sent for each extension. */
  const Mime: map<String, String> := map[
    "css" := "text/css; charset=UTF-8",
    "js" := "application/javascript",
    "json" := "application/json; charset=UTF-8",
    "map" := "application/json; charset=UTF-8",
    "html" := "text/html; charset=UTF-8",
    "png" := "image/png",
    "jpg" := "image/jpeg",
    "jpeg" := "image/jpeg",
    "gif" := "image/gif",
    "svg" := "image/svg+xml",
    "webp" := "image/webp",
    "mp3" := "audio/mpeg",
    "ogg" := "audio/ogg",
    "wav" := "audio/wav",
    "m4a" := "audio/mp4",
    "aac" := "audio/aac",
    "flac" := "audio/flac",
    "webm" := "video/webm",
    "mp4" := "video/mp4",
    "woff" := "font/woff",
    "woff2" := "font/woff2",
    "ttf" := "font/ttf",
    "otf" := "font/otf",
    "eot" := "application/vnd.ms-fontobject"]

  const FallbackMime: String := "application/octet-stream"
  const CacheControl: String := "Cache-Control"
  const ContentTypeOptions: String := "X-Content-Type-Options"

  /** What the controller learns from the file system. */
  datatype Fs = Fs(
    baseReal: Option<String>,             // realpath of storage/games, None when it returns false
    realpath: String -> Option<String>,
    isFile: String -> bool,
    isReadable: String -> bool)

  /** Either an HTML error page or the file at `path`, streamed with status 200. */
  datatype Reply = Page(response: Response) | File(path: String, headers: map<String, String>)

  /** Every allowed extension has its own content type, so the fallback is never sent. */
  lemma AllowedHaveMime()
    ensures forall e :: e in AllowedExts ==> e in Mime && Mime[e] != FallbackMime
  {
  }

  function ReplaceBackslashes(s: String): (r: String)
    ensures |r| == |s|
    ensures forall i :: 0 <= i < |s| ==> r[i] == (if s[i] == '\\' then '/' else s[i])
  {
    seq(|s|, i requires 0 <= i < |s| => if s[i] == '\\' then '/' else s[i])
  }

  /**
   * `ltrim(str_replace('\\', '/', rawurldecode($path)), '/')`: the decoded
   * path with backslashes turned into slashes, less its longest run of
   * leading slashes.
   */
  function NormalisePath(raw: String): (r: String)
    ensures forall i :: 0 <= i < |r| ==> r[i] != '\\'
    ensures |r| > 0 ==> r[0] != '/'
    ensures |r| <= |PercentDecode(raw)|
  {
    TrimLeft(ReplaceBackslashes(PercentDecode(raw)), {'/'})
  }

  /** `r` is `d` less its longest run of leading slashes. */
  predicate LeadingSlashesStripped(d: String, r: String) {
    && |r| <= |d| && r == d[|d| - |r|..]
    && (forall k :: 0 <= k < |d| - |r| ==> d[k] == '/')
    && (|r| > 0 ==> d[|d| - |r|] != '/')
  }

  /**
   * The normalised path is the decoded path, with backslashes turned into
   * slashes, less its longest run of leading slashes.
   */
  lemma NormalisePathExact(raw: String)
    ensures LeadingSlashesStripped(ReplaceBackslashes(PercentDecode(raw)), NormalisePath(raw))
  {
    StripLeadingSlashes(ReplaceBackslashes(PercentDecode(raw)));
  }

  lemma StripLeadingSlashes(d: String)
    ensures LeadingSlashesStripped(d, TrimLeft(d, {'/'}))
  {
    LeadingSlashesDropped(d, TrimLeft(d, {'/'}));
  }

  lemma LeadingSlashesDropped(d: String, r: String)
    requires |r| <= |d| && r == d[|d| - |r|..]
    requires forall i :: 0 <= i < |d| - |r| ==> d[i] in {'/'}
    requires |r| > 0 ==> r[0] !in {'/'}
    ensures LeadingSlashesStripped(d, r)
  {
  }

  /**
   * A link built by percent-encoding a relative path (no backslash, no
   * leading `/`) normalises back to that path.
   */
  lemma EncodedPathRoundTrip(p: String)
    requires IsBytes(p)
    requires forall i :: 0 <= i < |p| ==> p[i] != '\\'
    requires |p| > 0 ==> p[0] != '/'
    ensures NormalisePath(PercentEncode(p)) == p
  {
    DecodeEncode(p);
    KeepsForwardSlashes(p);
    NoLeadingSlash(p);
  }

  lemma NoLeadingSlash(p: String)
    requires |p| > 0 ==> p[0] != '/'
    ensures TrimLeft(p, {'/'}) == p
  {
  }

  lemma KeepsForwardSlashes(p: String)
    requires forall i :: 0 <= i < |p| ==> p[i] != '\\'
    ensures ReplaceBackslashes(p) == p
  {
    var q := ReplaceBackslashes(p);
    assert forall i :: 0 <= i < |p| ==> q[i] == p[i];
  }

  /** The last position holding `c`. */
  function LastIndexOf(s: String, c: char): (r: Option<nat>)
    ensures r.Some? ==> r.value < |s| && s[r.value] == c
    ensures r.Some? ==> forall k :: r.value < k < |s| ==> s[k] != c
    ensures r.None? ==> forall k :: 0 <= k < |s| ==> s[k] != c
  {
    if |s| == 0 then None
    else if s[|s| - 1] == c then Some(|s| - 1)
    else LastIndexOf(s[..|s| - 1], c)
  }

  /** The last path component. */
  function Basename(p: String): (r: String)
    ensures |r| <= |p| && r == p[|p| - |r|..]
    ensures forall k :: 0 <= k < |r| ==> r[k] != '/'
    ensures |r| < |p| ==> p[|p| - |r| - 1] == '/'
  {
    match LastIndexOf(p, '/')
    case None => p
    case Some(k) => p[k + 1..]
  }

  /** `pathinfo($p, PATHINFO_EXTENSION)`: what follows the last `.` of the last component, or "". */
  function Extension(p: String): (r: String)
    ensures forall k :: 0 <= k < |r| ==> r[k] != '/' && r[k] != '.'
    ensures |r| <= |p| && r == p[|p| - |r|..]
  {
    var base := Basename(p);
    match LastIndexOf(base, '.')
    case None => ""
    case Some(k) => base[k + 1..]
  }

  /**
   * When the last component has a `.`, the extension is preceded by one; as
   * it holds no `.` itself, it is what follows the last `.`.
   */
  lemma ExtensionAfterLastDot(p: String, k: int)
    requires 0 <= k < |Basename(p)| && Basename(p)[k] == '.'
    ensures |Extension(p)| < |p| && p[|p| - |Extension(p)| - 1] == '.'
  {
    var base := Basename(p);
    var j := LastIndexOf(base, '.').value;
    assert p[|p| - |Extension(p)| - 1] == base[j];
  }

  /** A last component without a `.` gives no extension. */
  lemma ExtensionWithoutDot(p: String)
    requires forall k :: 0 <= k < |Basename(p)| ==> Basename(p)[k] != '.'
    ensures Extension(p) == ""
  {
  }

  /** The extension of `dir/name.ext` is `ext`, whatever the directory and the rest of the name hold. */
  lemma ExtensionOfFileName(dir: String, name: String, ext: String)
    requires forall k :: 0 <= k < |name| ==> name[k] != '/'
    requires forall k :: 0 <= k < |ext| ==> ext[k] != '/' && ext[k] != '.'
    ensures Extension(dir + "/" + name + "." + ext) == ext
  {
    var b := name + ("." + ext);
    assert dir + "/" + name + "." + ext == dir + ("/" + b);
    forall k | 0 <= k < |b|
      ensures b[k] != '/'
    {
      if k > |name| {
        assert b[k] == ext[k - |name| - 1];
      }
    }
    BasenameAfterSlash(dir, b);
    LastOfSuffix(name, "." + ext, '.');
    assert b[|name| + 1..] == ext;
  }

  /** The last component of `dir/b` is `b` when `b` has no `/`. */
  lemma BasenameAfterSlash(dir: String, b: String)
    requires forall k :: 0 <= k < |b| ==> b[k] != '/'
    ensures Basename(dir + ("/" + b)) == b
  {
    var y := "/" + b;
    forall k | 1 <= k < |y|
      ensures y[k] != '/'
    {
      assert y[k] == b[k - 1];
    }
    LastOfSuffix(dir, y, '/');
    assert (dir + y)[|dir| + 1..] == b;
  }

  /** When `c` occurs in `y` only at its first position, the last `c` of `x + y` is there. */
  lemma {:induction false} LastOfSuffix(x: String, y: String, c: char)
    requires |y| > 0 && y[0] == c && forall k :: 1 <= k < |y| ==> y[k] != c
    ensures LastIndexOf(x + y, c) == Some(|x|)
    decreases |y|
  {
    var s := x + y;
    if |y| > 1 {
      assert s[|s| - 1] == y[|y| - 1];
      assert s[..|s| - 1] == x + y[..|y| - 1];
      LastOfSuffix(x, y[..|y| - 1], c);
    }
  }

  function AssetHeaders(ext: String): (r: map<String, String>)
    ensures ContentType in r && CacheControl in r && ContentTypeOptions in r
    ensures ext in Mime ==> r[ContentType] == Mime[ext]
    ensures ext !in Mime ==> r[ContentType] == FallbackMime
    ensures r[CacheControl] == "public, max-age=31536000, immutable"
    ensures r[ContentTypeOptions] == "nosniff"
  {
    map[ContentType := if ext in Mime then Mime[ext] else FallbackMime,
        CacheControl := "public, max-age=31536000, immutable",
        ContentTypeOptions := "nosniff"]
  }

  /** The checks after the path has passed validation, with the games directory resolved to `base`. */
  function Serve(base: String, path: String, fs: Fs): (r: Reply)
    ensures r.Page? ==> r.response.status == 404
    ensures var full := fs.realpath(base + "/" + path);
      r.File? <==> full.Some? && StartsWith(full.value, base + "/")
                   && fs.isFile(full.value) && fs.isReadable(full.value)
                   && Lower(Extension(full.value)) in AllowedExts
    ensures r.File? ==>
      && fs.realpath(base + "/" + path) == Some(r.path)
      && r.headers == AssetHeaders(Lower(Extension(r.path)))
      && r.headers[ContentType] == Mime[Lower(Extension(r.path))]
  {
    match fs.realpath(base + "/" + path)
    case None => Page(HtmlResponse("Asset not found", 404))
    case Some(full) =>
      if !StartsWith(full, base + "/") || !fs.isFile(full) || !fs.isReadable(full) then
        Page(HtmlResponse("Asset not found", 404))
      else
        var ext := Lower(Extension(full));
        if ext !in AllowedExts then Page(HtmlResponse("Asset not allowed", 404))
        else
          AllowedHaveMime();
          File(full, AssetHeaders(ext))
  }

  function Handle(raw: String, fs: Fs): (r: Reply)
    ensures r.Page? && r.response.status == 400 <==>
      NormalisePath(raw) == "" || Contains(NormalisePath(raw), "..")
    ensures r.Page? ==> r.response.status in {400, 404}
    ensures r.File? ==>
      && fs.baseReal.Some?
      && !Contains(NormalisePath(raw), "..")
      && fs.realpath(fs.baseReal.value + "/" + NormalisePath(raw)) == Some(r.path)
      && StartsWith(r.path, fs.baseReal.value + "/")
      && fs.isFile(r.path) && fs.isReadable(r.path)
    ensures fs.baseReal.Some? && NormalisePath(raw) != "" && !Contains(NormalisePath(raw), "..") ==>
      r == Serve(fs.baseReal.value, NormalisePath(raw), fs)
  {
    var path := NormalisePath(raw);
    if path == "" || Contains(path, "..") then Page(HtmlResponse("Invalid path", 400))
    else match fs.baseReal
      case None => Page(HtmlResponse("Asset not found", 404))
      case Some(base) =>
        Serve(base, path, fs)
  }

  /** A file whose last component has no `.` has no extension, so it is refused, whatever its name. */
  lemma DotlessNotServed(base: String, path: String, fs: Fs)
    requires fs.realpath(base + "/" + path).Some?
    requires var b := Basename(fs.realpath(base + "/" + path).value);
      forall k :: 0 <= k < |b| ==> b[k] != '.'
    ensures Serve(base, path, fs).Page?
  {
    DotlessRefused(fs.realpath(base + "/" + path).value);
    RefusedNotServed(base, path, fs);
  }

  lemma DotlessRefused(full: String)
    requires forall k :: 0 <= k < |Basename(full)| ==> Basename(full)[k] != '.'
    ensures Lower(Extension(full)) !in AllowedExts
  {
    ExtensionWithoutDot(full);
    assert Lower("") == "";
    EmptyNotAllowed();
  }

  lemma EmptyNotAllowed()
    ensures "" !in AllowedExts
  {
    assert forall i :: 0 <= i < |AllowedExts| ==> |AllowedExts[i]| > 0;
  }

  /** A real path whose extension is not allowed is refused. */
  lemma RefusedNotServed(base: String, path: String, fs: Fs)
    requires fs.realpath(base + "/" + path).Some?
    requires Lower(Extension(fs.realpath(base + "/" + path).value)) !in AllowedExts
    ensures Serve(base, path, fs).Page?
  {
  }

  /** Dots escaped with lower-case hexadecimal digits are decoded before the `..` test, so the path is refused. */
  lemma EncodedDotsRejected(fs: Fs)
    ensures Handle("%2e%2e", fs) == Page(HtmlResponse("Invalid path", 400))
  {
    EncodedDotsNormalised();
    DotsRejected("%2e%2e", "..", fs);
  }

  /** The escaped dots normalise to a bare `..`. */
  lemma EncodedDotsNormalised()
    ensures NormalisePath("%2e%2e") == ".."
  {
    LowerCaseDotsDecode();
    assert PercentDecode("%2e%2e") == "..";
    KeepsForwardSlashes("..");
    NoLeadingSlash("..");
  }

  /** A path that normalises to `..` is refused before the file system is consulted. */
  lemma DotsRejected(raw: String, path: String, fs: Fs)
    requires NormalisePath(raw) == path && path == ".."
    ensures Handle(raw, fs) == Page(HtmlResponse("Invalid path", 400))
  {
    assert OccursAt(path, 0, "..");
  }
}
