/**
 * The games catalog (`GamesListController::scanGames`): one listing of the
 * games directory is split into directory games and single-file
 * `slug.html` games; directory games are processed first, then single-file
 * games whose lower-cased slug no directory game has claimed. A candidate
 * is listed when its lower-cased slug is not reserved, the locator finds it
 * and its metadata is a non-empty array. Ids come from the metadata or from a
 * counter shared by both passes, and the list is sorted by id and title.
 *
 * The directory listing, the locator and the metadata files are parameters;
 * metadata paths are relative to the games directory.
 */
module Catalog {
  import opened Prelude
  import opened Text
  import opened Meta
  import opened Locator
  import opened Items
  import opened CatalogOrder

  /** One name returned by `scandir`, with the result of `is_dir` on it. */
  datatype Entry = Entry(name: String, isDir: bool)

  /** What a directory entry is to the scan. */
  datatype Candidate = DirGame(slug: String) | LegacyGame(slug: String) | NotGame

  /** Lower-cased names that are never games (`$skipNames`). */
  const SkipNames: set<String> := {"assets", "ping", "index"}

  /** `name` is a slug followed by `.html` in any case. */
  predicate IsLegacyName(name: String) {
    |name| > 5 && Lower(name[|name| - 5..]) == ".html" && IsSlug(name[..|name| - 5])
  }

  /**
   * The classification loop with the slug patterns read strictly: a
   * directory whose whole name is a slug, or a file named `slug.html`.
   */
  function Classify(e: Entry): (r: Candidate)
    ensures e.name == "." || e.name == ".." ==> r.NotGame?
    ensures r.DirGame? <==> e.isDir && IsSlug(e.name)
    ensures r.DirGame? ==> r.slug == e.name
    ensures r.LegacyGame? <==> !e.isDir && IsLegacyName(e.name)
    ensures r.LegacyGame? ==> IsSlug(r.slug) && |e.name| == |r.slug| + 5 && e.name[..|r.slug|] == r.slug
                              && Lower(e.name[|r.slug|..]) == ".html"
  {
    if e.name == "." || e.name == ".." then
      assert e.name[0] == '.' && !IsSlugChar('.');
      NotGame
    else if e.isDir then
      if IsSlug(e.name) then DirGame(e.name) else NotGame
    else if IsLegacyName(e.name) then
      LegacyGame(e.name[..|e.name| - 5])
    else NotGame
  }

  /** `~^([a-z0-9_-]+)\.html$~i` as PCRE runs it: a single trailing newline is also accepted. */
  predicate MatchesLegacyPattern(name: String) {
    IsLegacyName(name) || (|name| > 0 && name[|name| - 1] == '\n' && IsLegacyName(name[..|name| - 1]))
  }

  /** The classification loop exactly as written, with PCRE's `$` before a final newline. */
  function ClassifyAsWritten(e: Entry): (r: Candidate)
    ensures r.DirGame? <==> e.isDir && MatchesSlugPattern(e.name)
    ensures r.LegacyGame? <==> !e.isDir && MatchesLegacyPattern(e.name)
  {
    if e.name == "." || e.name == ".." then NotGame
    else if e.isDir then
      if MatchesSlugPattern(e.name) then DirGame(e.name) else NotGame
    else if IsLegacyName(e.name) then LegacyGame(e.name[..|e.name| - 5])
    else if MatchesLegacyPattern(e.name) then LegacyGame(e.name[..|e.name| - 6])
    else NotGame
  }

  /** On names that do not end in a newline the two readings agree. */
  lemma AsWrittenAgreesWithoutNewline(e: Entry)
    requires |e.name| == 0 || e.name[|e.name| - 1] != '\n'
    ensures ClassifyAsWritten(e) == Classify(e)
  {
  }

  /**
   * As written, a directory called "assets\n" is listed under the slug
   * "assets\n", which is neither a slug nor caught by the reserved names.
   */
  lemma AsWrittenAcceptsTrailingNewline()
    ensures ClassifyAsWritten(Entry("assets\n", true)) == DirGame("assets\n")
    ensures !IsSlug("assets\n") && Lower("assets\n") !in SkipNames
    ensures Classify(Entry("assets\n", true)) == NotGame
  {
    assert "assets\n"[6] == '\n';
    assert Lower("assets\n") != "assets" by {
      assert |Lower("assets\n")| == 7;
    }
  }

  /** The same anchor lists the file `a.html` followed by a newline as the game `a`. */
  lemma AsWrittenListsTrailingNewlineFile()
    ensures ClassifyAsWritten(Entry("a.html\n", false)) == LegacyGame("a")
    ensures Classify(Entry("a.html\n", false)) == NotGame
  {
    assert "a.html\n"[..6] == "a.html";
    assert Lower("a.html\n"[|"a.html\n"| - 5..]) != ".html" by {
      assert "a.html\n"[|"a.html\n"| - 5..][4] == '\n';
    }
    assert IsLegacyName("a.html") by {
      assert "a.html"[..1] == "a";
      assert Lower("a.html"[1..]) == ".html";
    }
  }

  /** The directory and single-file candidates of a listing under a classification, in listing order. */
  function CandidatesBy(entries: seq<Entry>, classify: Entry -> Candidate): (seq<String>, seq<String>) {
    if |entries| == 0 then ([], [])
    else
      var (dirs, htmls) := CandidatesBy(entries[1..], classify);
      match classify(entries[0])
      case DirGame(s) => ([s] + dirs, htmls)
      case LegacyGame(s) => (dirs, [s] + htmls)
      case NotGame => (dirs, htmls)
  }

  /** The candidates under the strict classification. */
  function Candidates(entries: seq<Entry>): (seq<String>, seq<String>) {
    CandidatesBy(entries, Classify)
  }

  /** The candidates under the classification as written. */
  function CandidatesAsWritten(entries: seq<Entry>): (seq<String>, seq<String>) {
    CandidatesBy(entries, ClassifyAsWritten)
  }

  /** A one-entry listing classified as a directory game has just that directory candidate. */
  lemma DirCandidateAlone(e: Entry, classify: Entry -> Candidate, slug: String)
    requires classify(e) == DirGame(slug)
    ensures CandidatesBy([e], classify) == ([slug], [])
  {
    assert [e][1..] == [];
    assert [slug] + [] == [slug];
  }

  /** On a listing with no name ending in a newline both readings give the same candidates. */
  lemma {:induction false} CandidatesAgreeWithoutNewline(entries: seq<Entry>)
    requires forall i :: 0 <= i < |entries| ==> |entries[i].name| == 0 || entries[i].name[|entries[i].name| - 1] != '\n'
    ensures CandidatesAsWritten(entries) == Candidates(entries)
    decreases |entries|
  {
    if |entries| > 0 {
      assert forall i :: 0 <= i < |entries| - 1 ==> entries[1..][i] == entries[i + 1];
      CandidatesAgreeWithoutNewline(entries[1..]);
      AsWrittenAgreesWithoutNewline(entries[0]);
    }
  }

  /** The candidates are exactly the classified games of the listing. */
  lemma {:induction false} CandidatesExactly(entries: seq<Entry>)
    ensures var (dirs, htmls) := Candidates(entries);
      && (forall s :: s in dirs <==> exists i :: 0 <= i < |entries| && Classify(entries[i]) == DirGame(s))
      && (forall s :: s in htmls <==> exists i :: 0 <= i < |entries| && Classify(entries[i]) == LegacyGame(s))
    decreases |entries|
  {
    if |entries| > 0 {
      CandidatesExactly(entries[1..]);
      assert forall i :: 0 <= i < |entries| - 1 ==> entries[1..][i] == entries[i + 1];
      var (dirs, htmls) := Candidates(entries);
      forall s | s in dirs
        ensures exists i :: 0 <= i < |entries| && Classify(entries[i]) == DirGame(s)
      {
        if Classify(entries[0]) != DirGame(s) {
          var i :| 0 <= i < |entries| - 1 && Classify(entries[1..][i]) == DirGame(s);
          assert Classify(entries[i + 1]) == DirGame(s);
        }
      }
      forall s | s in htmls
        ensures exists i :: 0 <= i < |entries| && Classify(entries[i]) == LegacyGame(s)
      {
        if Classify(entries[0]) != LegacyGame(s) {
          var i :| 0 <= i < |entries| - 1 && Classify(entries[1..][i]) == LegacyGame(s);
          assert Classify(entries[i + 1]) == LegacyGame(s);
        }
      }
      forall s, i | 0 <= i < |entries| && Classify(entries[i]) in {DirGame(s), LegacyGame(s)}
        ensures Classify(entries[i]) == DirGame(s) ==> s in dirs
        ensures Classify(entries[i]) == LegacyGame(s) ==> s in htmls
      {
        if i > 0 {
          assert Classify(entries[1..][i - 1]) == Classify(entries[i]);
        }
      }
    }
  }

  /** The locator, the metadata files and the play-URL generator. */
  datatype Env = Env(
    locate: String -> Located,
    metaFile: String -> MetaSource,
    playUrl: String -> String)

  datatype Form = DirForm | LegacyForm

  /** `slug/meta.json` for a directory game, `slug.json` for a single-file game. */
  function MetaPath(form: Form, slug: String): String {
    if form.DirForm? then slug + "/meta.json" else slug + ".json"
  }

  /** The state both passes thread through: listed items, slugs claimed by directories, the id counter. */
  datatype ScanState = ScanState(items: seq<Item>, seen: set<String>, autoId: int)

  /** One iteration of either pass. */
  function Step(form: Form, slug: String, env: Env, st: ScanState): ScanState {
    var lower := Lower(slug);
    if lower in SkipNames || (form.LegacyForm? && lower in st.seen) then st
    else
      var loc := env.locate(slug);
      if !loc.found then st
      else
        var meta := LoadMeta(env.metaFile(MetaPath(form, slug)));
        if |meta| == 0 then st
        else
          var (item, next) := BuildItem(slug, meta, loc, st.autoId, env.playUrl);
          ScanState(st.items + [item], if form.DirForm? then st.seen + {lower} else st.seen, next)
  }

  /** One `foreach` over the candidates of a form. */
  function Pass(form: Form, slugs: seq<String>, env: Env, st: ScanState): ScanState
    decreases |slugs|
  {
    if |slugs| == 0 then st else Pass(form, slugs[1..], env, Step(form, slugs[0], env, st))
  }

  /** Both passes over the candidates, before sorting. */
  function Passes(dirs: seq<String>, htmls: seq<String>, env: Env): seq<Item> {
    var afterDirs := Pass(DirForm, dirs, env, ScanState([], {}, 1));
    Pass(LegacyForm, htmls, env, afterDirs).items
  }

  /** The items before sorting, with the strict classification. */
  function Unsorted(entries: seq<Entry>, env: Env): seq<Item> {
    var (dirs, htmls) := Candidates(entries);
    Passes(dirs, htmls, env)
  }

  /** The items before sorting, with the classification as written. */
  function UnsortedAsWritten(entries: seq<Entry>, env: Env): seq<Item> {
    var (dirs, htmls) := CandidatesAsWritten(entries);
    Passes(dirs, htmls, env)
  }

  /** `scanGames`: the listed items in catalog order. */
  function ScanGames(entries: seq<Entry>, env: Env): (r: seq<Item>)
    ensures Sorted(r)
    ensures multiset(r) == multiset(Unsorted(entries, env))
  {
    SortItems(Unsorted(entries, env))
  }

  /** `scanGames` exactly as written: the catalog of the lenient classification. */
  function ScanGamesAsWritten(entries: seq<Entry>, env: Env): (r: seq<Item>)
    ensures Sorted(r)
    ensures multiset(r) == multiset(UnsortedAsWritten(entries, env))
  {
    SortItems(UnsortedAsWritten(entries, env))
  }

  /** Without names ending in a newline the scan as written and the corrected scan give the same catalog. */
  lemma AsWrittenScanAgrees(entries: seq<Entry>, env: Env)
    requires forall i :: 0 <= i < |entries| ==> |entries[i].name| == 0 || entries[i].name[|entries[i].name| - 1] != '\n'
    ensures ScanGamesAsWritten(entries, env) == ScanGames(entries, env)
  {
    CandidatesAgreeWithoutNewline(entries);
  }

  /**
   * The scan as written lists a found directory "assets" followed by a
   * newline, with metadata, under that very name; the corrected scan lists
   * nothing.
   */
  lemma AsWrittenScanListsNewlineDir(env: Env)
    requires env.locate("assets\n").found && |LoadMeta(env.metaFile("assets\n/meta.json"))| > 0
    ensures |ScanGamesAsWritten([Entry("assets\n", true)], env)| == 1
    ensures ScanGamesAsWritten([Entry("assets\n", true)], env)[0].slug == "assets\n"
    ensures ScanGames([Entry("assets\n", true)], env) == []
  {
    var es := [Entry("assets\n", true)];
    AsWrittenAcceptsTrailingNewline();
    assert es[1..] == [];
    assert CandidatesBy(es[1..], ClassifyAsWritten) == ([], []);
    DirCandidateAlone(es[0], ClassifyAsWritten, "assets\n");
    assert CandidatesAsWritten(es) == (["assets\n"], []);
    assert CandidatesBy(es[1..], Classify) == ([], []);
    assert Candidates(es) == ([], []);
    assert MetaPath(DirForm, "assets\n") == "assets\n/meta.json";
    var item := BuildItem("assets\n", LoadMeta(env.metaFile("assets\n/meta.json")), env.locate("assets\n"), 1, env.playUrl).0;
    assert UnsortedAsWritten(es, env) == [item];
    assert multiset(ScanGamesAsWritten(es, env)) == multiset{item};
  }

  /** `handle` without the cache: no games directory means an empty catalog. */
  function ListGames(gamesDirExists: bool, entries: seq<Entry>, env: Env): (r: seq<Item>)
    ensures !gamesDirExists ==> r == []
    ensures gamesDirExists ==> Sorted(r) && multiset(r) == multiset(Unsorted(entries, env))
  {
    if gamesDirExists then ScanGames(entries, env) else []
  }

  // ---------------------------------------------------------------------
  // A reference description of the catalog: filters and a closed form for
  // the ids, without the loop state.

  /** A candidate that produces an item, with its metadata, its locator answer and the metadata's id. */
  datatype Pick = Pick(slug: String, meta: PhpArray, loc: Located, explicitId: int) {
    /** The pick takes its id from the counter. */
    predicate Auto() { explicitId <= 0 }
  }

  /** The conditions under which a candidate of a form is listed, given the slugs claimed by directories. */
  predicate Accepts(form: Form, slug: String, env: Env, claimed: set<String>) {
    && Lower(slug) !in SkipNames
    && (form.LegacyForm? ==> Lower(slug) !in claimed)
    && env.locate(slug).found
    && |LoadMeta(env.metaFile(MetaPath(form, slug)))| > 0
  }

  function PickOf(form: Form, slug: String, env: Env): Pick {
    var meta := LoadMeta(env.metaFile(MetaPath(form, slug)));
    Pick(slug, meta, env.locate(slug), ExplicitId(meta))
  }

  /** The accepted candidates, in order. */
  function Picks(form: Form, slugs: seq<String>, env: Env, claimed: set<String>): seq<Pick> {
    if |slugs| == 0 then []
    else
      var rest := Picks(form, slugs[1..], env, claimed);
      if Accepts(form, slugs[0], env, claimed) then [PickOf(form, slugs[0], env)] + rest else rest
  }

  /** The picks are exactly the accepted candidates. */
  lemma PicksExactly(form: Form, slugs: seq<String>, env: Env, claimed: set<String>)
    ensures forall i :: 0 <= i < |Picks(form, slugs, env, claimed)| ==>
      var p := Picks(form, slugs, env, claimed)[i];
      p.slug in slugs && Accepts(form, p.slug, env, claimed)
    ensures forall s :: s in slugs && Accepts(form, s, env, claimed) ==>
      exists i :: 0 <= i < |Picks(form, slugs, env, claimed)| && Picks(form, slugs, env, claimed)[i].slug == s
  {
    PicksSound(form, slugs, env, claimed);
    forall s | s in slugs && Accepts(form, s, env, claimed)
      ensures exists i :: 0 <= i < |Picks(form, slugs, env, claimed)| && Picks(form, slugs, env, claimed)[i].slug == s
    {
      PickedWhenAccepted(form, slugs, env, claimed, s);
    }
  }

  /** Every pick is an accepted candidate. */
  lemma PicksSound(form: Form, slugs: seq<String>, env: Env, claimed: set<String>)
    ensures forall i :: 0 <= i < |Picks(form, slugs, env, claimed)| ==>
      var p := Picks(form, slugs, env, claimed)[i];
      p.slug in slugs && Accepts(form, p.slug, env, claimed)
  {
    forall i | 0 <= i < |Picks(form, slugs, env, claimed)|
      ensures var p := Picks(form, slugs, env, claimed)[i];
        p.slug in slugs && Accepts(form, p.slug, env, claimed)
    {
      PickSoundAt(form, slugs, env, claimed, i);
    }
  }

  /** The pick at `i` is an accepted candidate. */
  lemma {:induction false} PickSoundAt(form: Form, slugs: seq<String>, env: Env, claimed: set<String>, i: int)
    requires 0 <= i < |Picks(form, slugs, env, claimed)|
    ensures Picks(form, slugs, env, claimed)[i].slug in slugs
    ensures Accepts(form, Picks(form, slugs, env, claimed)[i].slug, env, claimed)
    decreases |slugs|
  {
    var rest := Picks(form, slugs[1..], env, claimed);
    var r := Picks(form, slugs, env, claimed);
    if Accepts(form, slugs[0], env, claimed) {
      if i > 0 {
        PickSoundAt(form, slugs[1..], env, claimed, i - 1);
        assert r[i] == rest[i - 1];
        assert rest[i - 1].slug in slugs[1..];
      }
    } else {
      PickSoundAt(form, slugs[1..], env, claimed, i);
      assert r[i] == rest[i];
      assert rest[i].slug in slugs[1..];
    }
  }

  /** An accepted candidate is picked. */
  lemma {:induction false} PickedWhenAccepted(form: Form, slugs: seq<String>, env: Env, claimed: set<String>, s: String)
    requires s in slugs && Accepts(form, s, env, claimed)
    ensures exists i :: 0 <= i < |Picks(form, slugs, env, claimed)| && Picks(form, slugs, env, claimed)[i].slug == s
    decreases |slugs|
  {
    if s == slugs[0] {
      assert Picks(form, slugs, env, claimed)[0].slug == s;
    } else {
      assert s in slugs[1..];
      PickedWhenAccepted(form, slugs[1..], env, claimed, s);
      var i :| 0 <= i < |Picks(form, slugs[1..], env, claimed)| && Picks(form, slugs[1..], env, claimed)[i].slug == s;
      PickOfTail(form, slugs, env, claimed, i);
    }
  }

  /** A pick of the later candidates is a pick of the whole sequence. */
  lemma PickOfTail(form: Form, slugs: seq<String>, env: Env, claimed: set<String>, i: int)
    requires |slugs| > 0 && 0 <= i < |Picks(form, slugs[1..], env, claimed)|
    ensures exists j ::
      0 <= j < |Picks(form, slugs, env, claimed)| && Picks(form, slugs, env, claimed)[j] == Picks(form, slugs[1..], env, claimed)[i]
  {
    var rest := Picks(form, slugs[1..], env, claimed);
    var r := Picks(form, slugs, env, claimed);
    if Accepts(form, slugs[0], env, claimed) {
      assert r[i + 1] == rest[i];
    } else {
      assert r[i] == rest[i];
    }
  }

  /** Each pick carries the metadata, locator answer and id of its slug. */
  lemma {:induction false} PicksAreOf(form: Form, slugs: seq<String>, env: Env, claimed: set<String>)
    ensures forall i :: 0 <= i < |Picks(form, slugs, env, claimed)| ==>
      var p := Picks(form, slugs, env, claimed)[i];
      p == PickOf(form, p.slug, env)
    decreases |slugs|
  {
    if |slugs| > 0 {
      PicksAreOf(form, slugs[1..], env, claimed);
    }
  }

  /** The lower-cased slugs of some picks. */
  function LowerSlugs(picks: seq<Pick>): (r: set<String>)
    ensures forall i :: 0 <= i < |picks| ==> Lower(picks[i].slug) in r
    ensures forall s :: s in r ==> exists i :: 0 <= i < |picks| && Lower(picks[i].slug) == s
  {
    if |picks| == 0 then {}
    else
      var rest := LowerSlugs(picks[1..]);
      assert forall i :: 1 <= i < |picks| ==> picks[1..][i - 1] == picks[i];
      {Lower(picks[0].slug)} + rest
  }

  /** What a pick adds to the counter. */
  function Bump(p: Pick): nat {
    if p.Auto() then 1 else 0
  }

  /** How many of the picks take their id from the counter. */
  function AutoCount(picks: seq<Pick>): nat {
    if |picks| == 0 then 0 else Bump(picks[0]) + AutoCount(picks[1..])
  }

  /** How an item is made from a pick and the counter value it meets. */
  type Builder = (Pick, int) -> Item

  /** `buildItem` on a pick. */
  function MakeItem(env: Env): Builder {
    (p: Pick, counter: int) => BuildItem(p.slug, p.meta, p.loc, counter, env.playUrl).0
  }

  /** The reference items of some picks in order, the counter starting at `start`. */
  function Built(picks: seq<Pick>, start: int, make: Builder): (r: seq<Item>)
    ensures |r| == |picks|
  {
    if |picks| == 0 then [] else [make(picks[0], start)] + Built(picks[1..], start + Bump(picks[0]), make)
  }

  /** All picks of a listing: the directory games, then the single-file games no directory claimed. */
  function AllPicks(entries: seq<Entry>, env: Env): seq<Pick> {
    var (dirs, htmls) := Candidates(entries);
    var dirPicks := Picks(DirForm, dirs, env, {});
    dirPicks + Picks(LegacyForm, htmls, env, LowerSlugs(dirPicks))
  }

  lemma {:induction false} AutoCountAppend(a: seq<Pick>, b: seq<Pick>)
    ensures AutoCount(a + b) == AutoCount(a) + AutoCount(b)
    decreases |a|
  {
    if |a| == 0 {
      assert a + b == b;
    } else {
      assert (a + b)[1..] == a[1..] + b;
      AutoCountAppend(a[1..], b);
    }
  }

  lemma BuiltCons(p: Pick, rest: seq<Pick>, start: int, make: Builder)
    ensures Built([p] + rest, start, make) == [make(p, start)] + Built(rest, start + Bump(p), make)
  {
    assert ([p] + rest)[1..] == rest;
  }

  /** Listing a pick's item and then the items of the rest lists the items of all of them. */
  lemma JoinItems(out: seq<Item>, items: seq<Item>, x: Item, t: int, pk: Pick, rest: seq<Pick>, p: seq<Pick>,
                  start: int, make: Builder)
    requires p == [pk] + rest && x == make(pk, start) && t == start + Bump(pk)
    requires out == (items + [x]) + Built(rest, t, make)
    ensures out == items + Built(p, start, make)
  {
    BuiltCons(pk, rest, start, make);
  }

  /** Items of two pick lists in a row. */
  lemma {:induction false} BuiltAppend(a: seq<Pick>, b: seq<Pick>, start: int, make: Builder)
    ensures Built(a + b, start, make) == Built(a, start, make) + Built(b, start + AutoCount(a), make)
    decreases |a|
  {
    if |a| == 0 {
      assert a + b == b;
    } else {
      assert (a + b)[1..] == a[1..] + b;
      BuiltAppend(a[1..], b, start + Bump(a[0]), make);
    }
  }

  /** The closed form: pick `k` meets `start` plus the number of auto-id picks before it. */
  lemma {:induction false} BuiltAt(picks: seq<Pick>, start: int, make: Builder, k: int)
    requires 0 <= k < |picks|
    ensures Built(picks, start, make)[k] == make(picks[k], start + AutoCount(picks[..k]))
    decreases k
  {
    if k > 0 {
      BuiltAt(picks[1..], start + Bump(picks[0]), make, k - 1);
      assert picks[..k][1..] == picks[1..][..k - 1];
    } else {
      assert picks[..0] == [];
    }
  }

  /** One step of a pass adds the pick's item exactly when the candidate is accepted. */
  lemma StepIsPick(form: Form, s: String, env: Env, st: ScanState)
    ensures var pk := PickOf(form, s, env);
      && (!Accepts(form, s, env, st.seen) ==> Step(form, s, env, st) == st)
      && (Accepts(form, s, env, st.seen) ==>
            Step(form, s, env, st) == ScanState(st.items + [MakeItem(env)(pk, st.autoId)],
                                                if form.DirForm? then st.seen + {Lower(s)} else st.seen,
                                                st.autoId + Bump(pk)))
  {
  }

  lemma {:induction false} DirPicksIgnoreClaims(slugs: seq<String>, env: Env, c1: set<String>, c2: set<String>)
    ensures Picks(DirForm, slugs, env, c1) == Picks(DirForm, slugs, env, c2)
    decreases |slugs|
  {
    if |slugs| > 0 {
      DirPicksIgnoreClaims(slugs[1..], env, c1, c2);
    }
  }

  /** A pass computes exactly the reference items, counter and claimed slugs. */
  lemma {:induction false} PassMatchesReference(form: Form, slugs: seq<String>, env: Env, st: ScanState)
    ensures var p := Picks(form, slugs, env, st.seen);
      var out := Pass(form, slugs, env, st);
      && out.items == st.items + Built(p, st.autoId, MakeItem(env))
      && out.autoId == st.autoId + AutoCount(p)
      && out.seen == st.seen + (if form.DirForm? then LowerSlugs(p) else {})
    decreases |slugs|
  {
    var p := Picks(form, slugs, env, st.seen);
    if |slugs| == 0 {
      assert st.items + Built(p, st.autoId, MakeItem(env)) == st.items;
    } else {
      var s := slugs[0];
      var st' := Step(form, s, env, st);
      StepIsPick(form, s, env, st);
      PassMatchesReference(form, slugs[1..], env, st');
      var rest := Picks(form, slugs[1..], env, st.seen);
      if form.DirForm? {
        DirPicksIgnoreClaims(slugs[1..], env, st'.seen, st.seen);
      }
      assert Picks(form, slugs[1..], env, st'.seen) == rest;
      if Accepts(form, s, env, st.seen) {
        var pk := PickOf(form, s, env);
        assert p == [pk] + rest;
        assert p[1..] == rest;
        assert LowerSlugs(p) == {Lower(s)} + LowerSlugs(rest);
        var x := MakeItem(env)(pk, st.autoId);
        var t := st.autoId + Bump(pk);
        var y := st.items + [x];
        assert st'.items == y && st'.autoId == t;
        assert Pass(form, slugs, env, st).items == y + Built(rest, t, MakeItem(env));
        JoinItems(Pass(form, slugs, env, st).items, st.items, x, t, pk, rest, p, st.autoId, MakeItem(env));
      } else {
        assert p == rest;
      }
    }
  }

  /** Two passes in a row list the items of their picks in a row. */
  lemma JoinPasses(out: seq<Item>, first: seq<Item>, a: seq<Pick>, b: seq<Pick>, start: int, t: int, make: Builder)
    requires first == Built(a, start, make) && t == start + AutoCount(a)
    requires out == first + Built(b, t, make)
    ensures out == Built(a + b, start, make)
  {
    BuiltAppend(a, b, start, make);
  }

  /** The scan's items, before sorting, are the reference items of all picks, numbered from 1. */
  lemma ScanMatchesReference(entries: seq<Entry>, env: Env)
    ensures Unsorted(entries, env) == Built(AllPicks(entries, env), 1, MakeItem(env))
  {
    var (dirs, htmls) := Candidates(entries);
    var st0 := ScanState([], {}, 1);
    var dirPicks := Picks(DirForm, dirs, env, {});
    PassMatchesReference(DirForm, dirs, env, st0);
    var afterDirs := Pass(DirForm, dirs, env, st0);
    assert afterDirs.items == Built(dirPicks, 1, MakeItem(env)) by {
      assert [] + Built(dirPicks, 1, MakeItem(env)) == Built(dirPicks, 1, MakeItem(env));
    }
    assert afterDirs.seen == LowerSlugs(dirPicks);
    var legacy := Picks(LegacyForm, htmls, env, LowerSlugs(dirPicks));
    PassMatchesReference(LegacyForm, htmls, env, afterDirs);
    var out := Pass(LegacyForm, htmls, env, afterDirs).items;
    assert out == afterDirs.items + Built(legacy, afterDirs.autoId, MakeItem(env));
    JoinPasses(out, afterDirs.items, dirPicks, legacy, 1, afterDirs.autoId, MakeItem(env));
    assert AllPicks(entries, env) == dirPicks + legacy;
  }

  // ---------------------------------------------------------------------
  // Properties of the catalog, stated on the reference.

  /** The directory games of a listing and the single-file games after them. */
  function DirPicks(entries: seq<Entry>, env: Env): seq<Pick> {
    Picks(DirForm, Candidates(entries).0, env, {})
  }

  function LegacyPicks(entries: seq<Entry>, env: Env): seq<Pick> {
    Picks(LegacyForm, Candidates(entries).1, env, LowerSlugs(DirPicks(entries, env)))
  }

  lemma SplitPicks(entries: seq<Entry>, env: Env)
    ensures AllPicks(entries, env) == DirPicks(entries, env) + LegacyPicks(entries, env)
  {
  }

  /**
   * A directory candidate is listed exactly when its lower-cased slug is not
   * reserved, the locator finds it and its metadata is a non-empty array.
   */
  lemma DirListedExactly(entries: seq<Entry>, env: Env, s: String)
    ensures (exists k :: 0 <= k < |DirPicks(entries, env)| && DirPicks(entries, env)[k].slug == s) <==>
      && s in Candidates(entries).0 && Lower(s) !in SkipNames && env.locate(s).found
      && |LoadMeta(env.metaFile(s + "/meta.json"))| > 0
  {
    PicksExactly(DirForm, Candidates(entries).0, env, {});
    assert MetaPath(DirForm, s) == s + "/meta.json";
    assert DirPicks(entries, env) == Picks(DirForm, Candidates(entries).0, env, {});
    if s in Candidates(entries).0 && Accepts(DirForm, s, env, {}) {
      var i :| 0 <= i < |DirPicks(entries, env)| && DirPicks(entries, env)[i].slug == s;
    }
  }

  /**
   * A single-file game is listed only when it passes the same tests, with
   * `slug.json` as its metadata, and no listed directory game has the same
   * lower-cased slug.
   */
  lemma LegacyListedOnly(entries: seq<Entry>, env: Env)
    ensures var dirs := DirPicks(entries, env);
      forall k :: 0 <= k < |LegacyPicks(entries, env)| ==>
        var slug := LegacyPicks(entries, env)[k].slug;
        && slug in Candidates(entries).1 && Lower(slug) !in SkipNames && env.locate(slug).found
        && |LoadMeta(env.metaFile(slug + ".json"))| > 0
        && forall j :: 0 <= j < |dirs| ==> Lower(dirs[j].slug) != Lower(slug)
  {
    var dirs := DirPicks(entries, env);
    var legacy := LegacyPicks(entries, env);
    PicksExactly(LegacyForm, Candidates(entries).1, env, LowerSlugs(dirs));
    forall k | 0 <= k < |legacy|
      ensures forall j :: 0 <= j < |dirs| ==> Lower(dirs[j].slug) != Lower(legacy[k].slug)
    {
      assert Lower(legacy[k].slug) !in LowerSlugs(dirs);
    }
  }

  /**
   * A single-file candidate that passes the tests and whose lower-cased slug
   * no listed directory game has is listed. A directory dropped for lack of
   * metadata therefore does not hide its single-file twin.
   */
  lemma LegacyListedWhenUnclaimed(entries: seq<Entry>, env: Env, s: String)
    requires s in Candidates(entries).1 && Lower(s) !in SkipNames && env.locate(s).found
    requires |LoadMeta(env.metaFile(s + ".json"))| > 0
    requires forall j :: 0 <= j < |DirPicks(entries, env)| ==> Lower(DirPicks(entries, env)[j].slug) != Lower(s)
    ensures exists k :: 0 <= k < |LegacyPicks(entries, env)| && LegacyPicks(entries, env)[k].slug == s
  {
    var dirs := DirPicks(entries, env);
    assert Lower(s) !in LowerSlugs(dirs);
    assert MetaPath(LegacyForm, s) == s + ".json";
    assert Accepts(LegacyForm, s, env, LowerSlugs(dirs));
    PicksExactly(LegacyForm, Candidates(entries).1, env, LowerSlugs(dirs));
    assert LegacyPicks(entries, env) == Picks(LegacyForm, Candidates(entries).1, env, LowerSlugs(dirs));
    var i :| 0 <= i < |LegacyPicks(entries, env)| && LegacyPicks(entries, env)[i].slug == s;
  }

  /** What `buildItem` keeps of a pick. */
  lemma MakeItemFields(env: Env, p: Pick, counter: int)
    requires p.explicitId == ExplicitId(p.meta)
    ensures var item := MakeItem(env)(p, counter);
      && item.slug == p.slug && item.engine == p.loc.engine && item.shape == p.loc.shape
      && 1 <= item.length <= 5
      && (p.Auto() ==> item.id == counter)
      && (!p.Auto() ==> item.id == p.explicitId > 0)
  {
  }

  /** A pick of the listing: a classified game that passed the tests, with its own metadata id and locator answer. */
  predicate GamePick(entries: seq<Entry>, env: Env, p: Pick) {
    && p.explicitId == ExplicitId(p.meta)
    && p.loc == env.locate(p.slug)
    && IsSlug(p.slug)
    && Lower(p.slug) !in SkipNames
    && p.loc.found
    && exists i :: 0 <= i < |entries| && Classify(entries[i]) in {DirGame(p.slug), LegacyGame(p.slug)}
  }

  lemma PicksOfForm(entries: seq<Entry>, env: Env, form: Form, slugs: seq<String>, claimed: set<String>)
    requires form.DirForm? ==> slugs == Candidates(entries).0
    requires form.LegacyForm? ==> slugs == Candidates(entries).1
    ensures forall k :: 0 <= k < |Picks(form, slugs, env, claimed)| ==> GamePick(entries, env, Picks(form, slugs, env, claimed)[k])
  {
    var r := Picks(form, slugs, env, claimed);
    PicksExactly(form, slugs, env, claimed);
    PicksAreOf(form, slugs, env, claimed);
    CandidatesExactly(entries);
    forall k | 0 <= k < |r|
      ensures GamePick(entries, env, r[k])
    {
      var s := r[k].slug;
      assert r[k] == PickOf(form, s, env);
      if form.DirForm? {
        var i :| 0 <= i < |entries| && Classify(entries[i]) == DirGame(s);
      } else {
        var i :| 0 <= i < |entries| && Classify(entries[i]) == LegacyGame(s);
      }
    }
  }

  /** Every pick of a listing is a game pick. */
  lemma AllPicksAreGames(entries: seq<Entry>, env: Env)
    ensures forall k :: 0 <= k < |AllPicks(entries, env)| ==> GamePick(entries, env, AllPicks(entries, env)[k])
  {
    var dirs := DirPicks(entries, env);
    var legacy := LegacyPicks(entries, env);
    SplitPicks(entries, env);
    PicksOfForm(entries, env, DirForm, Candidates(entries).0, {});
    PicksOfForm(entries, env, LegacyForm, Candidates(entries).1, LowerSlugs(dirs));
    forall k | 0 <= k < |dirs| + |legacy|
      ensures GamePick(entries, env, (dirs + legacy)[k])
    {
      if k >= |dirs| {
        assert (dirs + legacy)[k] == legacy[k - |dirs|];
      }
    }
  }

  /** A catalog item of a listing: a strict, unreserved slug of the listing that the locator found, with its answer. */
  predicate ListedGame(entries: seq<Entry>, env: Env, item: Item) {
    && IsSlug(item.slug)
    && Lower(item.slug) !in SkipNames
    && env.locate(item.slug).found
    && item.engine == env.locate(item.slug).engine && item.shape == env.locate(item.slug).shape
    && 1 <= item.length <= 5
    && exists i :: 0 <= i < |entries| && Classify(entries[i]) in {DirGame(item.slug), LegacyGame(item.slug)}
  }

  /** The item of a game pick is a listed game, whatever counter value it meets. */
  lemma GamePickItem(entries: seq<Entry>, env: Env, p: Pick, counter: int)
    requires GamePick(entries, env, p)
    ensures ListedGame(entries, env, MakeItem(env)(p, counter))
  {
    MakeItemFields(env, p, counter);
  }

  /** Every listed game is a strict slug from the listing that is not reserved and that the locator found. */
  lemma ListedAreGames(entries: seq<Entry>, env: Env)
    ensures forall item :: item in ScanGames(entries, env) ==> ListedGame(entries, env, item)
  {
    var unsorted := Unsorted(entries, env);
    ScanMatchesReference(entries, env);
    AllPicksAreGames(entries, env);
    BuiltAreGames(entries, env, AllPicks(entries, env));
    forall item | item in ScanGames(entries, env)
      ensures ListedGame(entries, env, item)
    {
      assert item in multiset(unsorted);
    }
  }

  /** The items built from game picks are listed games. */
  lemma BuiltAreGames(entries: seq<Entry>, env: Env, all: seq<Pick>)
    requires forall k :: 0 <= k < |all| ==> GamePick(entries, env, all[k])
    ensures forall item :: item in Built(all, 1, MakeItem(env)) ==> ListedGame(entries, env, item)
  {
    var items := Built(all, 1, MakeItem(env));
    forall k | 0 <= k < |items|
      ensures ListedGame(entries, env, items[k])
    {
      BuiltGameAt(entries, env, all, k);
    }
  }

  lemma BuiltGameAt(entries: seq<Entry>, env: Env, all: seq<Pick>, k: int)
    requires 0 <= k < |all| && GamePick(entries, env, all[k])
    ensures ListedGame(entries, env, Built(all, 1, MakeItem(env))[k])
  {
    BuiltAt(all, 1, MakeItem(env), k);
    GamePickItem(entries, env, all[k], 1 + AutoCount(all[..k]));
  }

  lemma AutoCountMonotone(picks: seq<Pick>, i: int, j: int)
    requires 0 <= i <= j <= |picks|
    ensures AutoCount(picks[..i]) <= AutoCount(picks[..j])
  {
    assert picks[..j] == picks[..i] + picks[i..j];
    AutoCountAppend(picks[..i], picks[i..j]);
  }

  lemma {:induction false} AutoCountCovers(picks: seq<Pick>, n: int)
    requires 0 <= n < AutoCount(picks)
    ensures exists k :: 0 <= k < |picks| && picks[k].Auto() && AutoCount(picks[..k]) == n
    decreases |picks|
  {
    if picks[0].Auto() && n == 0 {
      assert picks[..0] == [];
    } else {
      var m := n - Bump(picks[0]);
      AutoCountCovers(picks[1..], m);
      var k :| 0 <= k < |picks[1..]| && picks[1..][k].Auto() && AutoCount(picks[1..][..k]) == m;
      assert picks[..k + 1][1..] == picks[1..][..k];
      assert picks[k + 1].Auto() && AutoCount(picks[..k + 1]) == n;
    }
  }

  /** Some auto-id item carries the id `n`. */
  predicate IdTaken(all: seq<Pick>, items: seq<Item>, n: int)
    requires |items| == |all|
  {
    exists k :: 0 <= k < |all| && all[k].Auto() && items[k].id == n
  }

  /**
   * Ids: a positive metadata id is kept; every other item takes the counter,
   * which starts at 1 and counts such items across both passes in scan
   * order, so these items carry exactly the ids 1..K, each once.
   */
  lemma CatalogIds(entries: seq<Entry>, env: Env)
    ensures var all := AllPicks(entries, env);
      var items := Unsorted(entries, env);
      && |items| == |all|
      && (forall k :: 0 <= k < |all| && !all[k].Auto() ==>
            items[k].id == all[k].explicitId > 0)
      && (forall k :: 0 <= k < |all| && all[k].Auto() ==>
            items[k].id == 1 + AutoCount(all[..k]))
      && (forall k1, k2 :: 0 <= k1 < k2 < |all| && all[k1].Auto() && all[k2].Auto() ==>
            items[k1].id < items[k2].id)
      && (forall n :: 1 <= n <= AutoCount(all) ==> IdTaken(all, items, n))
  {
    var all := AllPicks(entries, env);
    ScanMatchesReference(entries, env);
    AllPicksAreGames(entries, env);
    var items := Unsorted(entries, env);
    forall k | 0 <= k < |all|
      ensures (all[k].Auto() ==> items[k].id == 1 + AutoCount(all[..k]))
           && (!all[k].Auto() ==> items[k].id == all[k].explicitId > 0)
    {
      BuiltAt(all, 1, MakeItem(env), k);
      assert GamePick(entries, env, all[k]);
      MakeItemFields(env, all[k], 1 + AutoCount(all[..k]));
    }
    CounterIds(all, items);
  }

  /** An auto-id pick counts itself, so a later one has seen more auto-id picks. */
  lemma AutoCountStrict(all: seq<Pick>, k1: int, k2: int)
    requires 0 <= k1 < k2 <= |all| && all[k1].Auto()
    ensures AutoCount(all[..k1]) < AutoCount(all[..k2])
  {
    AutoCountMonotone(all, k1 + 1, k2);
    assert all[..k1 + 1] == all[..k1] + [all[k1]];
    AutoCountAppend(all[..k1], [all[k1]]);
    assert AutoCount([all[k1]]) == 1 by {
      assert [all[k1]][1..] == [];
    }
  }

  /** Items numbered by the counter from 1 carry increasing ids that cover 1..K. */
  lemma CounterIds(all: seq<Pick>, items: seq<Item>)
    requires |items| == |all|
    requires forall k :: 0 <= k < |all| && all[k].Auto() ==> items[k].id == 1 + AutoCount(all[..k])
    ensures forall k1, k2 :: 0 <= k1 < k2 < |all| && all[k1].Auto() && all[k2].Auto() ==>
      items[k1].id < items[k2].id
    ensures forall n :: 1 <= n <= AutoCount(all) ==> IdTaken(all, items, n)
  {
    forall k1, k2 | 0 <= k1 < k2 < |all| && all[k1].Auto() && all[k2].Auto()
      ensures items[k1].id < items[k2].id
    {
      AutoCountStrict(all, k1, k2);
    }
    forall n | 1 <= n <= AutoCount(all)
      ensures IdTaken(all, items, n)
    {
      AutoCountCovers(all, n - 1);
      var k :| 0 <= k < |all| && all[k].Auto() && AutoCount(all[..k]) == n - 1;
    }
  }
}
