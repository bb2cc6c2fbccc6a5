/** The array operations every repository of the job board is built from,
    stated once for any entry type `T` whose entries carry a string key
    (an `id`, an `email`, a company name): `findIndex`, `find`, `filter`,
    `some`, the upsert that the `save*` functions perform and the delete by
    key. */
module Tables {
  import opened Wrappers

  /** Some entry of `s` has key `k`. */
  predicate Present<T>(s: seq<T>, key: T -> string, k: string) {
    exists i :: 0 <= i < |s| && key(s[i]) == k
  }

  /** No two entries of `s` share a key. */
  predicate UniqueKeys<T>(s: seq<T>, key: T -> string) {
    forall i, j :: 0 <= i < j < |s| ==> key(s[i]) != key(s[j])
  }

  /** The test `e => key(e) === k`. */
  function HasKey<T>(key: T -> string, k: string): T -> bool {
    e => key(e) == k
  }

  /** The test `e => key(e) !== k`. */
  function LacksKey<T>(key: T -> string, k: string): T -> bool {
    e => key(e) != k
  }

  /** `r` is `s` with some entries deleted and the rest kept in order. */
  predicate IsSubsequence<T(==)>(r: seq<T>, s: seq<T>)
    decreases |s|
  {
    r == [] ||
    (|s| > 0 && ((r[0] == s[0] && IsSubsequence(r[1..], s[1..])) || IsSubsequence(r, s[1..])))
  }

  /** `findIndex(e => key(e) === k)`: the first index with key `k`, or -1. */
  function FindIndex<T>(s: seq<T>, key: T -> string, k: string): (r: int)
    ensures -1 <= r < |s|
    ensures r >= 0 ==> key(s[r]) == k && forall i :: 0 <= i < r ==> key(s[i]) != k
    ensures r == -1 <==> !Present(s, key, k)
  {
    if s == [] then -1
    else if key(s[0]) == k then 0
    else
      var r' := FindIndex(s[1..], key, k);
      if r' == -1 then -1 else r' + 1
  }

  /** `find(e => key(e) === k) || null`: the first entry with key `k`. */
  function Find<T>(s: seq<T>, key: T -> string, k: string): (r: Option<T>)
    ensures r.Some? <==> Present(s, key, k)
    ensures r.Some? ==> r.value == s[FindIndex(s, key, k)]
  {
    if s == [] then None
    else if key(s[0]) == k then Some(s[0])
    else Find(s[1..], key, k)
  }

  /** `filter(p)`. */
  function Filter<T(==)>(s: seq<T>, p: T -> bool): (r: seq<T>)
    ensures |r| <= |s|
    ensures forall i :: 0 <= i < |r| ==> r[i] in s && p(r[i])
    ensures forall i :: 0 <= i < |s| && p(s[i]) ==> s[i] in r
    ensures IsSubsequence(r, s)
  {
    if s == [] then []
    else if p(s[0]) then [s[0]] + Filter(s[1..], p)
    else Filter(s[1..], p)
  }

  /** `filter` keeps every copy of a passing entry and no copy of a failing
      one: each entry occurs as often in the result as in `s` if it passes,
      and not at all otherwise. */
  lemma {:induction false} FilterCounts<T>(s: seq<T>, p: T -> bool)
    ensures forall x {:trigger multiset(Filter(s, p))[x]} | x in s ::
              multiset(Filter(s, p))[x] == if p(x) then multiset(s)[x] else 0
  {
    if s != [] {
      FilterCounts(s[1..], p);
      assert s == [s[0]] + s[1..];
    }
  }

  /** `some(p)`. */
  function Any<T>(s: seq<T>, p: T -> bool): (b: bool)
    ensures b <==> exists i :: 0 <= i < |s| && p(s[i])
  {
    s != [] && (p(s[0]) || Any(s[1..], p))
  }

  /** What `saveUser`, `saveJob` and `saveApplication` do to the loaded array:
      overwrite the first entry with the same key, or else push `x`. */
  function Upsert<T>(s: seq<T>, key: T -> string, x: T): (r: seq<T>)
    ensures Present(s, key, key(x)) ==>
              var i := FindIndex(s, key, key(x));
              |r| == |s| && r[i] == x && forall j :: 0 <= j < |s| && j != i ==> r[j] == s[j]
    ensures !Present(s, key, key(x)) ==> r == s + [x]
  {
    var existingIndex := FindIndex(s, key, key(x));
    if existingIndex >= 0 then s[existingIndex := x] else s + [x]
  }

  /** What `deleteJob` writes back: every entry whose key is not `k`. */
  function RemoveKey<T(==)>(s: seq<T>, key: T -> string, k: string): (r: seq<T>)
    ensures !Present(r, key, k)
    ensures forall x {:trigger multiset(r)[x]} | x in s :: multiset(r)[x] == if key(x) != k then multiset(s)[x] else 0
    ensures IsSubsequence(r, s)
  {
    FilterCounts(s, LacksKey(key, k));
    Filter(s, LacksKey(key, k))
  }

  // ---------------------------------------------------------------------
  // Filtering

  /** Filtering distributes over concatenation. */
  lemma {:induction false} FilterConcat<T>(a: seq<T>, b: seq<T>, p: T -> bool)
    ensures Filter(a + b, p) == Filter(a, p) + Filter(b, p)
  {
    if a != [] {
      assert (a + b)[0] == a[0];
      assert (a + b)[1..] == a[1..] + b;
      FilterConcat(a[1..], b, p);
    } else {
      assert a + b == b;
    }
  }

  /** Filtering with a test every entry passes returns the sequence unchanged. */
  lemma {:induction false} FilterAll<T>(s: seq<T>, p: T -> bool)
    requires forall i :: 0 <= i < |s| ==> p(s[i])
    ensures Filter(s, p) == s
  {
    if s != [] {
      FilterAll(s[1..], p);
    }
  }

  /** Filtering with a test no entry passes returns nothing. */
  lemma FilterNone<T>(s: seq<T>, p: T -> bool)
    requires forall i :: 0 <= i < |s| ==> !p(s[i])
    ensures Filter(s, p) == []
  {
  }

  /** Appending one entry adds it to the filtered result exactly when it passes. */
  lemma FilterSnoc<T>(s: seq<T>, x: T, p: T -> bool)
    ensures Filter(s + [x], p) == Filter(s, p) + (if p(x) then [x] else [])
  {
    FilterConcat(s, [x], p);
    assert Filter([x], p) == (if p(x) then [x] else []) + Filter([x][1..], p);
  }

  /** Appending one entry changes what `find` returns only when nothing
      before it had the key. */
  lemma FindSnoc<T>(s: seq<T>, x: T, key: T -> string, k: string)
    ensures Find(s + [x], key, k) ==
              if Present(s, key, k) then Find(s, key, k)
              else if key(x) == k then Some(x) else None
  {
    var r := Find(s + [x], key, k);
    if Present(s, key, k) {
      var i := FindIndex(s, key, k);
      var j := FindIndex(s + [x], key, k);
      assert (s + [x])[i] == s[i];
      assert !(j < i) && !(i < j);
    } else if key(x) == k {
      assert (s + [x])[|s|] == x;
    }
  }

  // ---------------------------------------------------------------------
  // Lookup after write

  /** After an upsert, `find` by the written key returns the written entry:
      the overwrite lands on the first matching slot, which is the one `find`
      reaches first, and a push lands after every entry that did not match. */
  lemma FindAfterUpsert<T>(s: seq<T>, key: T -> string, x: T)
    ensures Find(Upsert(s, key, x), key, key(x)) == Some(x)
  {
    var r := Upsert(s, key, x);
    var k := key(x);
    if Present(s, key, k) {
      var i := FindIndex(s, key, k);
      assert key(r[i]) == k;
      var ri := FindIndex(r, key, k);
      assert ri == i;
    } else {
      assert key(r[|s|]) == k;
      var ri := FindIndex(r, key, k);
      assert ri == |s|;
    }
  }

  /** Saving twice under one key leaves only the second payload: an upsert is a
      full overwrite, never a merge. */
  lemma UpsertOverwrites<T>(s: seq<T>, key: T -> string, x: T, y: T)
    requires key(x) == key(y)
    ensures Upsert(Upsert(s, key, x), key, y) == Upsert(s, key, y)
  {
    var k := key(x);
    var r := Upsert(s, key, x);
    if Present(s, key, k) {
      var i := FindIndex(s, key, k);
      assert key(r[i]) == k;
      var ri := FindIndex(r, key, k);
      assert ri == i;
      assert r[i := y] == s[i := y];
    } else {
      assert key(r[|s|]) == k;
      var ri := FindIndex(r, key, k);
      assert ri == |s|;
      assert r[|s| := y] == s + [y];
    }
  }

  /** An upsert keeps the keys of a collection distinct. */
  lemma UpsertKeepsKeysUnique<T>(s: seq<T>, key: T -> string, x: T)
    requires UniqueKeys(s, key)
    ensures UniqueKeys(Upsert(s, key, x), key)
  {
    var r := Upsert(s, key, x);
    if Present(s, key, key(x)) {
      var i := FindIndex(s, key, key(x));
      assert forall j :: 0 <= j < |r| ==> key(r[j]) == key(s[j]);
    } else {
      assert forall j :: 0 <= j < |s| ==> key(r[j]) == key(s[j]);
    }
  }

  /** Saving an entry under a key not yet stored leaves exactly one entry with
      that key, and deleting that key then gives back the original collection. */
  lemma UpsertFreshThenRemove<T>(s: seq<T>, key: T -> string, x: T)
    requires !Present(s, key, key(x))
    ensures |Filter(Upsert(s, key, x), HasKey(key, key(x)))| == 1
    ensures RemoveKey(Upsert(s, key, x), key, key(x)) == s
  {
    var k := key(x);
    FilterSnoc(s, x, HasKey(key, k));
    FilterNone(s, HasKey(key, k));
    FilterSnoc(s, x, LacksKey(key, k));
    FilterAll(s, LacksKey(key, k));
  }

  /** Saving an entry under a fresh key adds it to every filtered view it
      passes, whatever other entries already satisfy the same test. */
  lemma FilterUpsertFresh<T>(s: seq<T>, key: T -> string, x: T, p: T -> bool)
    requires !Present(s, key, key(x))
    ensures Filter(Upsert(s, key, x), p) == Filter(s, p) + (if p(x) then [x] else [])
  {
    FilterSnoc(s, x, p);
  }

  // ---------------------------------------------------------------------
  // Delete by key

  /** Deleting a key that no entry carries changes nothing, so a delete of
      an unknown id is harmless. */
  lemma RemoveKeySpec<T>(s: seq<T>, key: T -> string, k: string)
    ensures !Present(s, key, k) ==> RemoveKey(s, key, k) == s
  {
    if !Present(s, key, k) {
      FilterAll(s, LacksKey(key, k));
    }
  }
}
