/**
 * The catalog order: `usort` with the comparator of `scanGames`, ascending by
 * id and, for equal ids, by `strcmp` of the titles. `strcmp` compares bytes
 * and a proper prefix sorts first.
 */
module CatalogOrder {
  import opened Text
  import opened Items

  /** The sign of `strcmp(a, b)`. */
  function Strcmp(a: String, b: String): (r: int)
    ensures r in {-1, 0, 1}
    ensures r == 0 <==> a == b
    decreases |a|
  {
    if |a| == 0 && |b| == 0 then 0
    else if |a| == 0 then -1
    else if |b| == 0 then 1
    else if a[0] < b[0] then -1
    else if a[0] > b[0] then 1
    else
      var r := Strcmp(a[1..], b[1..]);
      assert r == 0 ==> a == [a[0]] + a[1..] && b == [b[0]] + b[1..];
      r
  }

  lemma {:induction false} StrcmpAntisymmetric(a: String, b: String)
    ensures Strcmp(a, b) == -Strcmp(b, a)
    decreases |a|
  {
    if |a| > 0 && |b| > 0 && a[0] == b[0] {
      StrcmpAntisymmetric(a[1..], b[1..]);
    }
  }

  lemma {:induction false} StrcmpTransitive(a: String, b: String, c: String)
    requires Strcmp(a, b) <= 0 && Strcmp(b, c) <= 0
    ensures Strcmp(a, c) <= 0
    decreases |a|
  {
    if |a| > 0 && |b| > 0 && |c| > 0 && a[0] == b[0] == c[0] {
      StrcmpTransitive(a[1..], b[1..], c[1..]);
    }
  }

  /** `a` may come before `b`: the comparator does not return a positive number. */
  predicate ItemLe(a: Item, b: Item) {
    a.id < b.id || (a.id == b.id && Strcmp(a.title, b.title) <= 0)
  }

  lemma ItemLeTotal(a: Item, b: Item)
    ensures ItemLe(a, b) || ItemLe(b, a)
  {
    StrcmpAntisymmetric(a.title, b.title);
  }

  lemma ItemLeTransitive(a: Item, b: Item, c: Item)
    requires ItemLe(a, b) && ItemLe(b, c)
    ensures ItemLe(a, c)
  {
    if a.id == b.id == c.id {
      StrcmpTransitive(a.title, b.title, c.title);
    }
  }

  predicate Sorted(s: seq<Item>) {
    forall i, j :: 0 <= i < j < |s| ==> ItemLe(s[i], s[j])
  }

  /** Insert `x` before the first element it may precede. */
  function Insert(x: Item, s: seq<Item>): (r: seq<Item>)
    requires Sorted(s)
    ensures Sorted(r)
    ensures multiset(r) == multiset(s) + multiset{x}
  {
    if |s| == 0 then [x]
    else if ItemLe(x, s[0]) then
      InsertFront(x, s);
      [x] + s
    else
      ItemLeTotal(x, s[0]);
      var rest := Insert(x, s[1..]);
      assert s == [s[0]] + s[1..];
      InsertBehind(s[0], rest, x, s[1..]);
      [s[0]] + rest
  }

  lemma InsertFront(x: Item, s: seq<Item>)
    requires Sorted(s) && |s| > 0 && ItemLe(x, s[0])
    ensures Sorted([x] + s)
  {
    forall j | 1 <= j < |s| + 1
      ensures ItemLe(([x] + s)[0], ([x] + s)[j])
    {
      if j > 1 {
        ItemLeTransitive(x, s[0], s[j - 1]);
      }
    }
  }

  lemma InsertBehind(y: Item, rest: seq<Item>, x: Item, tail: seq<Item>)
    requires Sorted(rest) && ItemLe(y, x)
    requires forall j :: 0 <= j < |tail| ==> ItemLe(y, tail[j])
    requires multiset(rest) == multiset(tail) + multiset{x}
    ensures Sorted([y] + rest)
  {
    forall j | 0 <= j < |rest|
      ensures ItemLe(y, rest[j])
    {
      assert rest[j] in multiset(rest);
      if rest[j] != x {
        assert rest[j] in multiset(tail);
      }
    }
  }

  /** The items in catalog order: a sorted permutation of the input. */
  function SortItems(s: seq<Item>): (r: seq<Item>)
    ensures Sorted(r)
    ensures multiset(r) == multiset(s)
  {
    if |s| == 0 then []
    else
      assert s == [s[0]] + s[1..];
      Insert(s[0], SortItems(s[1..]))
  }

  /** What the comparator looks at: two items compare equal exactly when their keys are equal. */
  function Key(it: Item): (int, String) {
    (it.id, it.title)
  }

  /** The items of `s` with key `k`, in their order in `s`. */
  function WithKey(s: seq<Item>, k: (int, String)): (r: seq<Item>)
    ensures |r| <= |s|
    ensures forall i :: 0 <= i < |r| ==> Key(r[i]) == k
  {
    if |s| == 0 then [] else KeyHead(s[0], k) + WithKey(s[1..], k)
  }

  /** `[x]` when `x` has key `k`, otherwise nothing. */
  function KeyHead(x: Item, k: (int, String)): (r: seq<Item>)
    ensures Key(x) == k ==> r == [x]
    ensures Key(x) != k ==> r == []
  {
    if Key(x) == k then [x] else []
  }

  /** Items that may not precede one another have different keys. */
  lemma NotLeDiffers(a: Item, b: Item)
    requires !ItemLe(a, b)
    ensures Key(a) != Key(b)
  {
  }

  /** `Insert` puts `x` in front of every item with its key, so the items of each key keep their order. */
  lemma {:induction false} InsertKeepsKeyOrder(x: Item, s: seq<Item>, k: (int, String))
    requires Sorted(s)
    ensures WithKey(Insert(x, s), k) == KeyHead(x, k) + WithKey(s, k)
    decreases |s|
  {
    if |s| == 0 {
      assert WithKey([x], k) == KeyHead(x, k) + WithKey([], k);
    } else if ItemLe(x, s[0]) {
      assert Insert(x, s) == [x] + s;
      assert ([x] + s)[1..] == s;
    } else {
      var ins := Insert(x, s[1..]);
      assert Insert(x, s) == [s[0]] + ins;
      assert s == [s[0]] + s[1..];
      InsertKeepsKeyOrder(x, s[1..], k);
      NotLeDiffers(x, s[0]);
      PassKeyHead(x, s[0], ins, s[1..], k);
    }
  }

  /** An item with another key than `x` can move in front of `x` without changing any key's order. */
  lemma PassKeyHead(x: Item, y: Item, ins: seq<Item>, tail: seq<Item>, k: (int, String))
    requires Key(x) != Key(y)
    requires WithKey(ins, k) == KeyHead(x, k) + WithKey(tail, k)
    ensures WithKey([y] + ins, k) == KeyHead(x, k) + WithKey([y] + tail, k)
  {
    assert ([y] + ins)[0] == y && ([y] + ins)[1..] == ins;
    assert ([y] + tail)[0] == y && ([y] + tail)[1..] == tail;
    assert KeyHead(y, k) + KeyHead(x, k) == KeyHead(x, k) + KeyHead(y, k);
  }

  /** The sort is stable: the items of each key appear in the same order as in the input. */
  lemma {:induction false} SortItemsStable(s: seq<Item>, k: (int, String))
    ensures WithKey(SortItems(s), k) == WithKey(s, k)
  {
    if |s| > 0 {
      var rest := SortItems(s[1..]);
      SortItemsStable(s[1..], k);
      assert SortItems(s) == Insert(s[0], rest);
      InsertKeepsKeyOrder(s[0], rest, k);
    }
  }
}
