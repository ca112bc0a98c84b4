/**
 * The save-record table (`ladybyron_game_saves`) and the delete route
 * (`SaveDeleteController`). The table is a sequence of rows; the unique key
 * `(user_id, game_slug, slot)` is an invariant of the table that inserting
 * keeps. Column lengths count characters, one `char` each.
 */
module Saves {
  import opened Prelude
  import opened Text
  import opened Http

  /** The largest value of an unsigned 32-bit column. */
  const MaxUnsigned: int := 4294967295
  const SlugLimit: nat := 100
  const SlotLimit: nat := 50
  const HashLimit: nat := 64

  /** The unique key of a save. */
  datatype SaveKey = SaveKey(userId: int, slug: String, slot: String)

  datatype Row = Row(
    userId: int,
    slug: String,               // game_slug
    slot: String,
    rev: int,
    stateJson: String,          // longText, not nullable
    metaJson: Option<String>,   // text, nullable
    storyHash: Option<String>)  // string(64), nullable

  type Table = seq<Row>

  function KeyOf(row: Row): SaveKey {
    SaveKey(row.userId, row.slug, row.slot)
  }

  /** The column constraints of one row. */
  predicate ValidRow(row: Row) {
    && 0 <= row.userId <= MaxUnsigned
    && |row.slug| <= SlugLimit
    && |row.slot| <= SlotLimit
    && 0 <= row.rev <= MaxUnsigned
    && (row.storyHash.Some? ==> |row.storyHash.value| <= HashLimit)
  }

  /** No two rows share a key (`ux_user_game_slot`). */
  predicate Unique(t: Table) {
    forall i, j :: 0 <= i < j < |t| ==> KeyOf(t[i]) != KeyOf(t[j])
  }

  predicate ValidTable(t: Table) {
    (forall i :: 0 <= i < |t| ==> ValidRow(t[i])) && Unique(t)
  }

  predicate HasKey(t: Table, key: SaveKey) {
    exists i :: 0 <= i < |t| && KeyOf(t[i]) == key
  }

  /** The number of rows with a key. */
  function Count(t: Table, key: SaveKey): (n: nat)
    ensures n <= |t|
    ensures n == 0 <==> !HasKey(t, key)
  {
    if |t| == 0 then 0
    else
      var rest := Count(t[1..], key);
      assert HasKey(t[1..], key) ==> HasKey(t, key) by {
        if HasKey(t[1..], key) {
          var i :| 0 <= i < |t| - 1 && KeyOf(t[1..][i]) == key;
          assert KeyOf(t[i + 1]) == key;
        }
      }
      assert HasKey(t, key) && KeyOf(t[0]) != key ==> HasKey(t[1..], key) by {
        if HasKey(t, key) && KeyOf(t[0]) != key {
          var i :| 0 <= i < |t| && KeyOf(t[i]) == key;
          assert KeyOf(t[1..][i - 1]) == key;
        }
      }
      (if KeyOf(t[0]) == key then 1 else 0) + rest
  }

  /** The tail of a table without duplicate keys has none either. */
  lemma UniqueTail(t: Table)
    requires Unique(t) && |t| > 0
    ensures Unique(t[1..])
    ensures forall row :: row in t[1..] ==> KeyOf(row) != KeyOf(t[0])
  {
    forall i, j | 0 <= i < j < |t| - 1
      ensures KeyOf(t[1..][i]) != KeyOf(t[1..][j])
    {
      assert t[1..][i] == t[i + 1] && t[1..][j] == t[j + 1];
    }
    forall row | row in t[1..]
      ensures KeyOf(row) != KeyOf(t[0])
    {
      var m :| 0 <= m < |t| - 1 && t[1..][m] == row;
      assert t[m + 1] == row;
    }
  }

  /** A row whose key no other row has can go in front. */
  lemma UniqueCons(x: Row, s: Table)
    requires Unique(s)
    requires forall row :: row in s ==> KeyOf(row) != KeyOf(x)
    ensures Unique([x] + s)
  {
    forall i, j | 0 <= i < j < |s| + 1
      ensures KeyOf(([x] + s)[i]) != KeyOf(([x] + s)[j])
    {
      assert ([x] + s)[j] == s[j - 1];
      if i > 0 {
        assert ([x] + s)[i] == s[i - 1];
      }
    }
  }

  /** With the unique key in place a key has at most one row. */
  lemma {:induction false} UniqueCountAtMostOne(t: Table, key: SaveKey)
    requires Unique(t)
    ensures Count(t, key) <= 1
    ensures Count(t, key) == 1 <==> HasKey(t, key)
    decreases |t|
  {
    if |t| > 0 {
      UniqueTail(t);
      UniqueCountAtMostOne(t[1..], key);
      if KeyOf(t[0]) == key {
        forall i | 0 <= i < |t| - 1
          ensures KeyOf(t[1..][i]) != key
        {
          assert t[1..][i] in t[1..];
        }
        assert Count(t[1..], key) == 0;
      }
    }
  }

  /** `DELETE ... WHERE user_id = ? AND game_slug = ? AND slot = ?`: the remaining rows and the count. */
  function DeleteKey(t: Table, key: SaveKey): (r: (Table, nat))
    ensures r.1 == Count(t, key)
    ensures |r.0| + r.1 == |t|
    ensures forall i :: 0 <= i < |r.0| ==> KeyOf(r.0[i]) != key
    decreases |t|
  {
    if |t| == 0 then ([], 0)
    else
      var (rest, n) := DeleteKey(t[1..], key);
      if KeyOf(t[0]) == key then (rest, n + 1) else ([t[0]] + rest, n)
  }

  /** The rows left are exactly the rows of `t` with another key. */
  lemma {:induction false} DeleteKeyRows(t: Table, key: SaveKey)
    ensures forall row :: row in DeleteKey(t, key).0 <==> row in t && KeyOf(row) != key
    decreases |t|
  {
    if |t| > 0 {
      DeleteKeyRows(t[1..], key);
      assert t == [t[0]] + t[1..];
    }
  }

  /** Deleting keeps a subset of the rows in their order, so the table stays valid. */
  lemma {:induction false} DeleteKeepsUnique(t: Table, key: SaveKey)
    requires Unique(t)
    ensures Unique(DeleteKey(t, key).0)
    decreases |t|
  {
    if |t| > 0 {
      UniqueTail(t);
      DeleteKeepsUnique(t[1..], key);
      var rest := DeleteKey(t[1..], key).0;
      if KeyOf(t[0]) != key {
        DeleteKeyRows(t[1..], key);
        UniqueCons(t[0], rest);
      }
    }
  }

  lemma DeleteKeepsValid(t: Table, key: SaveKey)
    requires ValidTable(t)
    ensures ValidTable(DeleteKey(t, key).0)
  {
    var r := DeleteKey(t, key).0;
    DeleteKeyRows(t, key);
    forall i | 0 <= i < |r|
      ensures ValidRow(r[i])
    {
      assert r[i] in t;
    }
    DeleteKeepsUnique(t, key);
  }

  /** A row about to be inserted; `None` is a column the statement leaves out. */
  datatype Draft = Draft(
    userId: int,
    slug: String,
    slot: String,
    rev: Option<int>,
    stateJson: Option<String>,
    metaJson: Option<String>,
    storyHash: Option<String>)

  datatype InsertError = MissingState | OutOfRange | TooLong | DuplicateKey

  /** The row a draft becomes: `rev` defaults to 0. */
  function RowOf(d: Draft): Row
    requires d.stateJson.Some?
  {
    Row(d.userId, d.slug, d.slot, if d.rev.Some? then d.rev.value else 0, d.stateJson.value, d.metaJson, d.storyHash)
  }

  /** `INSERT`: the column constraints first, then the unique key. */
  function Insert(t: Table, d: Draft): (r: Result<Table, InsertError>)
    ensures r.Ok? <==> d.stateJson.Some? && ValidRow(RowOf(d)) && !HasKey(t, KeyOf(RowOf(d)))
    ensures r.Ok? ==> r.value == t + [RowOf(d)] && r.value[|t|].rev == (if d.rev.Some? then d.rev.value else 0)
    ensures r == Err(MissingState) <==> d.stateJson.None?
    ensures r == Err(DuplicateKey) <==>
      d.stateJson.Some? && ValidRow(RowOf(d)) && HasKey(t, KeyOf(RowOf(d)))
  {
    if d.stateJson.None? then Err(MissingState)
    else
      var row := RowOf(d);
      if !(0 <= row.userId <= MaxUnsigned && 0 <= row.rev <= MaxUnsigned) then Err(OutOfRange)
      else if !ValidRow(row) then Err(TooLong)
      else if HasKey(t, KeyOf(row)) then Err(DuplicateKey)
      else Ok(t + [row])
  }

  /** Inserting keeps the table valid: the unique key and every column constraint. */
  lemma InsertKeepsValid(t: Table, d: Draft)
    requires ValidTable(t) && Insert(t, d).Ok?
    ensures ValidTable(Insert(t, d).value)
  {
    var u := Insert(t, d).value;
    var row := RowOf(d);
    forall i, j | 0 <= i < j < |u|
      ensures KeyOf(u[i]) != KeyOf(u[j])
    {
      if j == |t| {
        assert u[i] == t[i];
        assert !HasKey(t, KeyOf(row));
      } else {
        assert u[i] == t[i] && u[j] == t[j];
      }
    }
  }

  /** The `slug` and `slot` route parameters, absent when the route has none. */
  datatype RouteParams = RouteParams(slug: Option<String>, slot: Option<String>)

  /** `(string) Arr::get($rp, name, '')`. */
  function Param(p: Option<String>): (r: String)
    ensures p.None? ==> r == ""
    ensures p.Some? ==> r == p.value
  {
    if p.Some? then p.value else ""
  }

  const InvalidBody: String := "{\"error\":\"invalid_parameters\"}"
  const NotFoundBody: String := "{\"error\":\"not_found\"}"
  const OkBody: String := "{\"ok\":true}"

  /** The id of Flarum's guest actor, which the delete route queries with like any other. */
  const GuestId: int := 0

  /**
   * `handle` of the delete route for the actor whose id is `actorId`: the
   * response and the table after it.
   */
  function HandleDelete(t: Table, actorId: int, rp: RouteParams): (r: (Response, Table))
    ensures var slug := Param(rp.slug); var slot := Param(rp.slot);
      r.0.status == 400 <==> slug == "" || slot == ""
    ensures r.0.status == 400 ==> r.0 == JsonResponse(InvalidBody, 400) && r.1 == t
    ensures r.0.status in {200, 400, 404}
    ensures var key := SaveKey(actorId, Param(rp.slug), Param(rp.slot));
      r.0.status == 404 <==> Param(rp.slug) != "" && Param(rp.slot) != "" && !HasKey(t, key)
    ensures r.0.status == 404 ==> r.0 == JsonResponse(NotFoundBody, 404) && r.1 == t
    ensures r.0.status == 200 ==> r.0 == JsonResponse(OkBody, 200)
    ensures r.0.status != 400 ==> r.1 == DeleteKey(t, SaveKey(actorId, Param(rp.slug), Param(rp.slot))).0
  {
    var slug := Param(rp.slug);
    var slot := Param(rp.slot);
    if slug == "" || slot == "" then (JsonResponse(InvalidBody, 400), t)
    else
      var (after, count) := DeleteKey(t, SaveKey(actorId, slug, slot));
      if count == 0 then
        assert after == t by {
          NothingDeleted(t, SaveKey(actorId, slug, slot));
        }
        (JsonResponse(NotFoundBody, 404), after)
      else (JsonResponse(OkBody, 200), after)
  }

  /**
   * A guest is not turned away: its request deletes a save stored under user
   * id 0 for the same game and slot.
   */
  lemma GuestDeletesUserZero(t: Table, rp: RouteParams, row: Row)
    requires row in t && row.userId == 0 && row.slug == Param(rp.slug) != "" && row.slot == Param(rp.slot) != ""
    ensures HandleDelete(t, GuestId, rp).0 == JsonResponse(OkBody, 200)
    ensures row !in HandleDelete(t, GuestId, rp).1
  {
    DeleteKeyRows(t, KeyOf(row));
  }

  /** A delete that matches nothing leaves the table as it was. */
  lemma {:induction false} NothingDeleted(t: Table, key: SaveKey)
    requires !HasKey(t, key)
    ensures DeleteKey(t, key).0 == t
    decreases |t|
  {
    if |t| > 0 {
      forall i | 0 <= i < |t| - 1
        ensures KeyOf(t[1..][i]) != key
      {
        assert t[1..][i] == t[i + 1];
      }
      assert KeyOf(t[0]) != key;
      NothingDeleted(t[1..], key);
      assert t == [t[0]] + t[1..];
    }
  }

  /** The delete only touches the actor's own row: every row with another key survives. */
  lemma DeleteKeepsOthers(t: Table, actorId: int, rp: RouteParams, row: Row)
    requires row in t && KeyOf(row) != SaveKey(actorId, Param(rp.slug), Param(rp.slot))
    ensures row in HandleDelete(t, actorId, rp).1
  {
    DeleteKeyRows(t, SaveKey(actorId, Param(rp.slug), Param(rp.slot)));
  }

  /** Another user's save of the same game and slot survives the delete. */
  lemma OtherUserKept(t: Table, actorId: int, rp: RouteParams, row: Row)
    requires row in t && row.userId != actorId && row.slug == Param(rp.slug) && row.slot == Param(rp.slot)
    ensures row in HandleDelete(t, actorId, rp).1
  {
    DeleteKeepsOthers(t, actorId, rp, row);
  }

  /**
   * On a valid table a successful delete removes exactly one row, the
   * actor's save is gone afterwards, and repeating the same delete answers 404.
   */
  lemma DeleteTwice(t: Table, actorId: int, rp: RouteParams)
    requires ValidTable(t)
    requires HandleDelete(t, actorId, rp).0.status == 200
    ensures var after := HandleDelete(t, actorId, rp).1;
      && |after| == |t| - 1
      && !HasKey(after, SaveKey(actorId, Param(rp.slug), Param(rp.slot)))
      && ValidTable(after)
      && HandleDelete(after, actorId, rp).0 == JsonResponse(NotFoundBody, 404)
  {
    var key := SaveKey(actorId, Param(rp.slug), Param(rp.slot));
    UniqueCountAtMostOne(t, key);
    DeleteKeepsValid(t, key);
  }
}
