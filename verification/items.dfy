/**
 * One catalog entry as `buildItem` produces it from a slug, its metadata and
 * the locator's answer, drawing an id from the shared auto-id counter when the
 * metadata has no positive one.
 */
module Items {
  import opened Prelude
  import opened Text
  import opened Meta
  import opened Locator

  datatype Item = Item(
    id: int,
    slug: String,
    title: String,
    subtitle: String,
    author: String,
    size: String,
    length: int,
    status: String,
    description: String,
    tags: seq<MetaValue>,
    color: String,
    stripColor: String,
    engine: String,
    shape: String,
    playUrl: String)

  /** `isset($meta['id']) ? (int) $meta['id'] : 0`. */
  function ExplicitId(meta: PhpArray): (r: int)
    ensures Lookup(meta, "id").None? ==> r == 0
    ensures Lookup(meta, "id").Some? && Lookup(meta, "id").value.Int? ==> r == Lookup(meta, "id").value.i
    ensures Lookup(meta, "id").Some? && Lookup(meta, "id").value.Str? ==> r == StringToInt(Lookup(meta, "id").value.s)
    ensures Lookup(meta, "id") == Some(Bool(true)) ==> r == 1
    ensures Lookup(meta, "id") == Some(Bool(false)) ==> r == 0
  {
    match Lookup(meta, "id")
    case None => 0
    case Some(v) => IntCast(v)
  }

  /** A textual id keeps only its leading digits: "7abc" is the id 7, "abc" is no id. */
  lemma ExplicitIdOfText()
    ensures ExplicitId([("id", Str("7abc"))]) == 7
    ensures ExplicitId([("id", Str("abc"))]) == 0
    ensures ExplicitId([("id", Str(" -12px"))]) == -12
  {
    TrailingTextIgnored();
    NoLeadingDigits();
    SignAfterWhitespace();
  }

  /** Whether the item takes its id from the counter. */
  predicate TakesAutoId(meta: PhpArray) {
    ExplicitId(meta) <= 0
  }

  /** `max(1, min(5, n))`. */
  function Clamp(n: int): (r: int)
    ensures 1 <= r <= 5
    ensures 1 <= n <= 5 ==> r == n
    ensures n < 1 ==> r == 1
    ensures n > 5 ==> r == 5
  {
    if n < 1 then 1 else if n > 5 then 5 else n
  }

  /** `(string) ($meta[key] ?? default)`. */
  function StrField(meta: PhpArray, key: String, default: String): (r: String)
    ensures Lookup(meta, key).None? ==> r == default
    ensures Lookup(meta, key).Some? ==> r == StrCast(Lookup(meta, key).value)
  {
    match Lookup(meta, key)
    case None => default
    case Some(v) => StrCast(v)
  }

  /** `isset($meta['tags']) && is_array($meta['tags']) ? array_values($meta['tags']) : []`. */
  function Tags(meta: PhpArray): (r: seq<MetaValue>)
    ensures (Lookup(meta, "tags").None? || !Lookup(meta, "tags").value.Arr?) ==> r == []
    ensures Lookup(meta, "tags").Some? && Lookup(meta, "tags").value.Arr? ==>
      |r| == |Lookup(meta, "tags").value.entries|
      && forall i :: 0 <= i < |r| ==> r[i] == Lookup(meta, "tags").value.entries[i].1
  {
    match Lookup(meta, "tags")
    case Some(Arr(entries)) => Values(entries)
    case _ => []
  }

  /**
   * `buildItem`: the item for `slug` and the counter after it. A positive
   * metadata id is kept and the counter is left alone; otherwise the item
   * takes the counter's value and the counter moves on by one.
   */
  function BuildItem(slug: String, meta: PhpArray, loc: Located, autoId: int, playUrl: String -> String)
    : (r: (Item, int))
    ensures !TakesAutoId(meta) ==> r.0.id == ExplicitId(meta) > 0 && r.1 == autoId
    ensures TakesAutoId(meta) ==> r.0.id == autoId && r.1 == autoId + 1
    ensures r.0.slug == slug && r.0.playUrl == playUrl(slug)
    ensures 1 <= r.0.length <= 5
    ensures Lookup(meta, "length").None? ==> r.0.length == 3
    ensures Lookup(meta, "length").Some? ==> r.0.length == Clamp(IntCast(Lookup(meta, "length").value))
    ensures Lookup(meta, "length").Some? && Lookup(meta, "length").value.Int? ==>
      r.0.length == Clamp(Lookup(meta, "length").value.i)
    ensures r.0.tags == Tags(meta)
    ensures r.0.engine == loc.engine && r.0.shape == loc.shape
  {
    var explicit := ExplicitId(meta);
    var (id, next) := if explicit <= 0 then (autoId, autoId + 1) else (explicit, autoId);
    var length := Clamp(match Lookup(meta, "length") case None => 3 case Some(v) => IntCast(v));
    var item := Item(
      id, slug,
      StrField(meta, "title", slug),
      StrField(meta, "subtitle", ""),
      StrField(meta, "author", "Unknown"),
      StrField(meta, "size", ""),
      length,
      StrField(meta, "status", ""),
      StrField(meta, "description", ""),
      Tags(meta),
      StrField(meta, "color", "text-amber-500"),
      StrField(meta, "stripColor", "bg-amber-600"),
      loc.engine, loc.shape, playUrl(slug));
    (item, next)
  }

  /** Each text field absent from the metadata takes its default. */
  lemma BuildItemDefaults(slug: String, meta: PhpArray, loc: Located, autoId: int, playUrl: String -> String)
    ensures var item := BuildItem(slug, meta, loc, autoId, playUrl).0;
      && (Lookup(meta, "title").None? ==> item.title == slug)
      && (Lookup(meta, "author").None? ==> item.author == "Unknown")
      && (Lookup(meta, "color").None? ==> item.color == "text-amber-500")
      && (Lookup(meta, "stripColor").None? ==> item.stripColor == "bg-amber-600")
      && (Lookup(meta, "subtitle").None? ==> item.subtitle == "")
      && (Lookup(meta, "size").None? ==> item.size == "")
      && (Lookup(meta, "status").None? ==> item.status == "")
      && (Lookup(meta, "description").None? ==> item.description == "")
  {
    var item := BuildItem(slug, meta, loc, autoId, playUrl).0;
    assert item.title == StrField(meta, "title", slug);
    assert item.author == StrField(meta, "author", "Unknown");
    assert item.color == StrField(meta, "color", "text-amber-500");
    assert item.stripColor == StrField(meta, "stripColor", "bg-amber-600");
  }

  /** Each text field present in the metadata is the string cast of its value. */
  lemma BuildItemFields(slug: String, meta: PhpArray, loc: Located, autoId: int, playUrl: String -> String)
    ensures var item := BuildItem(slug, meta, loc, autoId, playUrl).0;
      && (Lookup(meta, "title").Some? ==> item.title == StrCast(Lookup(meta, "title").value))
      && (Lookup(meta, "subtitle").Some? ==> item.subtitle == StrCast(Lookup(meta, "subtitle").value))
      && (Lookup(meta, "author").Some? ==> item.author == StrCast(Lookup(meta, "author").value))
      && (Lookup(meta, "size").Some? ==> item.size == StrCast(Lookup(meta, "size").value))
      && (Lookup(meta, "status").Some? ==> item.status == StrCast(Lookup(meta, "status").value))
      && (Lookup(meta, "description").Some? ==> item.description == StrCast(Lookup(meta, "description").value))
      && (Lookup(meta, "color").Some? ==> item.color == StrCast(Lookup(meta, "color").value))
      && (Lookup(meta, "stripColor").Some? ==> item.stripColor == StrCast(Lookup(meta, "stripColor").value))
  {
  }
}
