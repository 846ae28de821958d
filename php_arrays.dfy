/**
 * PHP arrays as the worker uses them: ordered maps whose slots keep the order
 * in which their keys were first assigned. An array is a sequence of slots;
 * a PHP array never holds the same key twice (`UniqueKeys`).
 *
 * The two loop shapes of the worker are defined here once:
 *  - `foreach ($a as $k => $v) { if (...) unset($a[$k]); }`  is `UnsetWhere`,
 *    specified by `Filter`;
 *  - `while ($dao->fetch()) { $a[$dao->id] = $dao->col; }`    is `FetchKeyed`,
 *    specified by `Load`.
 */
module PhpArrays {
  import opened Wrappers

  /** One `key => value` slot. */
  datatype Entry<K, V> = Entry(key: K, value: V)

  type PArray<K, V> = seq<Entry<K, V>>

  function Init<T>(s: seq<T>): seq<T>
    requires s != []
  {
    s[..|s| - 1]
  }

  function Last<T>(s: seq<T>): T
    requires s != []
  {
    s[|s| - 1]
  }

  predicate UniqueKeys<K(==), V>(a: PArray<K, V>)
  {
    forall i, j :: 0 <= i < j < |a| ==> a[i].key != a[j].key
  }

  function KeySet<K(==), V>(a: PArray<K, V>): set<K>
  {
    set i | 0 <= i < |a| :: a[i].key
  }

  /** `array_keys($a)` */
  function Keys<K, V>(a: PArray<K, V>): seq<K>
  {
    seq(|a|, i requires 0 <= i < |a| => a[i].key)
  }

  /** `array_values($a)`; `in_array($x, $a)` is `x in Values(a)`. */
  function Values<K, V>(a: PArray<K, V>): seq<V>
  {
    seq(|a|, i requires 0 <= i < |a| => a[i].value)
  }

  /** The array `$l` built by `$l[] = v` for each v in turn, starting from `array()`. */
  function ListOf<V>(vs: seq<V>): (list: PArray<int, V>)
    ensures |list| == |vs| && UniqueKeys(list)
    ensures forall i :: 0 <= i < |vs| ==> list[i] == Entry(i, vs[i])
  {
    seq(|vs|, i requires 0 <= i < |vs| => Entry(i, vs[i]))
  }

  /** `$a[$k]`: the value of the last slot with key k (the only one in a PHP array); None for a missing key. */
  function Lookup<K(==), V>(a: PArray<K, V>, k: K): Option<V>
  {
    if a == [] then None
    else if Last(a).key == k then Some(Last(a).value)
    else Lookup(Init(a), k)
  }

  /** The slots of `a` that `keep` accepts, in their order. */
  function Filter<K, V>(a: PArray<K, V>, keep: Entry<K, V> -> bool): PArray<K, V>
  {
    if a == [] then []
    else Filter(Init(a), keep) + (if keep(Last(a)) then [Last(a)] else [])
  }

  function KeyIsNot<K(==), V>(k: K): Entry<K, V> -> bool
  {
    (e: Entry<K, V>) => e.key != k
  }

  function KeyIn<K(==), V>(ks: set<K>): Entry<K, V> -> bool
  {
    (e: Entry<K, V>) => e.key in ks
  }

  /** `unset($a[$k])` */
  function Unset<K(==), V>(a: PArray<K, V>, k: K): PArray<K, V>
  {
    Filter(a, KeyIsNot(k))
  }

  /** `$a[$k] = $v`: overwrite the slot of k where it stands, or append a new slot. */
  function Assign<K(==), V>(a: PArray<K, V>, k: K, v: V): PArray<K, V>
  {
    if k in KeySet(a) then seq(|a|, i requires 0 <= i < |a| => if a[i].key == k then Entry(k, v) else a[i])
    else a + [Entry(k, v)]
  }

  /** The array built by assigning `$a[row.key] = row.value` for each row in turn, starting from `array()`. */
  function Load<K(==), V>(rows: seq<Entry<K, V>>): PArray<K, V>
  {
    if rows == [] then [] else Assign(Load(Init(rows)), Last(rows).key, Last(rows).value)
  }

  /** r is s with some elements left out and the rest in their order. */
  ghost predicate IsSubsequence<T>(r: seq<T>, s: seq<T>)
    decreases |s|
  {
    if r == [] then true
    else if s == [] then false
    else (Last(r) == Last(s) && IsSubsequence(Init(r), Init(s))) || IsSubsequence(r, Init(s))
  }

  // ---------------------------------------------------------------------------
  // Keys and lookup

  lemma KeySetSnoc<K, V>(a: PArray<K, V>, e: Entry<K, V>)
    ensures KeySet(a + [e]) == KeySet(a) + {e.key}
  {
    var b := a + [e];
    assert forall i :: 0 <= i < |a| ==> b[i] == a[i];
    assert b[|a|] == e;
  }

  lemma {:induction false} LookupFindsKey<K, V>(a: PArray<K, V>, k: K)
    ensures Lookup(a, k).Some? <==> k in KeySet(a)
    decreases |a|
  {
    if a != [] {
      assert a == Init(a) + [Last(a)];
      KeySetSnoc(Init(a), Last(a));
      LookupFindsKey(Init(a), k);
    }
  }

  lemma UniqueKeysSnoc<K, V>(a: PArray<K, V>, e: Entry<K, V>)
    ensures UniqueKeys(a + [e]) <==> UniqueKeys(a) && e.key !in KeySet(a)
  {
    var b := a + [e];
    if UniqueKeys(b) {
      assert forall i :: 0 <= i < |a| ==> a[i] == b[i] && b[i].key != b[|a|].key;
    }
  }

  lemma {:induction false} LookupAt<K, V>(a: PArray<K, V>, i: int)
    requires UniqueKeys(a) && 0 <= i < |a|
    ensures Lookup(a, a[i].key) == Some(a[i].value)
    decreases |a|
  {
    if i < |a| - 1 {
      assert a == Init(a) + [Last(a)];
      UniqueKeysSnoc(Init(a), Last(a));
      assert a[i] == Init(a)[i];
      LookupAt(Init(a), i);
    }
  }

  /** In a PHP array, `$a[$k]` is v exactly when the slot `k => v` is in the array. */
  lemma LookupIsSlot<K, V>(a: PArray<K, V>, k: K, v: V)
    requires UniqueKeys(a)
    ensures Lookup(a, k) == Some(v) <==> Entry(k, v) in a
  {
  }

  lemma AssignSpec<K, V>(a: PArray<K, V>, k: K, v: V)
    requires UniqueKeys(a)
    ensures UniqueKeys(Assign(a, k, v))
    ensures KeySet(Assign(a, k, v)) == KeySet(a) + {k}
    ensures forall j :: Lookup(Assign(a, k, v), j) == if j == k then Some(v) else Lookup(a, j)
  {
    var r := Assign(a, k, v);
    if k in KeySet(a) {
      assert KeySet(r) == KeySet(a) + {k} by {
        forall j | j in KeySet(a) ensures j in KeySet(r) {
          var i :| 0 <= i < |a| && a[i].key == j;
          assert r[i].key == j;
        }
      }
      forall j ensures Lookup(r, j) == if j == k then Some(v) else Lookup(a, j) {
        LookupFindsKey(r, j);
        LookupFindsKey(a, j);
        if j in KeySet(r) {
          var i :| 0 <= i < |r| && r[i].key == j;
          LookupAt(r, i);
          LookupAt(a, i);
        }
      }
    } else {
      UniqueKeysSnoc(a, Entry(k, v));
      KeySetSnoc(a, Entry(k, v));
      assert Init(r) == a;
    }
  }

  /**
   * Loading result rows into an array keyed by their first column gives one slot per
   * distinct id, holding the value of the LAST row with that id.
   */
  lemma {:induction false} LoadSpec<K, V>(rows: seq<Entry<K, V>>)
    ensures UniqueKeys(Load(rows))
    ensures KeySet(Load(rows)) == KeySet(rows)
    ensures forall k :: Lookup(Load(rows), k) == Lookup(rows, k)
    decreases |rows|
  {
    if rows != [] {
      LoadSpec(Init(rows));
      AssignSpec(Load(Init(rows)), Last(rows).key, Last(rows).value);
      assert rows == Init(rows) + [Last(rows)];
      KeySetSnoc(Init(rows), Last(rows));
    }
  }

  // ---------------------------------------------------------------------------
  // Filter

  lemma {:induction false} FilterMember<K, V>(a: PArray<K, V>, keep: Entry<K, V> -> bool, e: Entry<K, V>)
    ensures e in Filter(a, keep) <==> e in a && keep(e)
    decreases |a|
  {
    if a != [] {
      assert a == Init(a) + [Last(a)];
      FilterMember(Init(a), keep, e);
    }
  }

  lemma FilterKeySet<K, V>(a: PArray<K, V>, keep: Entry<K, V> -> bool)
    ensures KeySet(Filter(a, keep)) <= KeySet(a)
  {
    var r := Filter(a, keep);
    forall k | k in KeySet(r) ensures k in KeySet(a) {
      var i :| 0 <= i < |r| && r[i].key == k;
      FilterMember(a, keep, r[i]);
    }
  }

  lemma {:induction false} FilterUnique<K, V>(a: PArray<K, V>, keep: Entry<K, V> -> bool)
    requires UniqueKeys(a)
    ensures UniqueKeys(Filter(a, keep))
    decreases |a|
  {
    if a != [] {
      assert a == Init(a) + [Last(a)];
      UniqueKeysSnoc(Init(a), Last(a));
      FilterUnique(Init(a), keep);
      FilterKeySet(Init(a), keep);
      UniqueKeysSnoc(Filter(Init(a), keep), Last(a));
    }
  }

  /**
   * Filtering a PHP array gives a sub-map: a key survives exactly when its slot is
   * kept, and a surviving key keeps its value.
   */
  lemma FilterLookup<K, V>(a: PArray<K, V>, keep: Entry<K, V> -> bool, k: K)
    requires UniqueKeys(a)
    ensures Lookup(Filter(a, keep), k) ==
            match Lookup(a, k)
            case Some(v) => if keep(Entry(k, v)) then Some(v) else None
            case None => None
  {
    FilterUnique(a, keep);
    var r := Filter(a, keep);
    LookupFindsKey(a, k);
    LookupFindsKey(r, k);
    match Lookup(a, k)
    case Some(v) =>
      LookupIsSlot(a, k, v);
      FilterMember(a, keep, Entry(k, v));
      LookupIsSlot(r, k, v);
      if !keep(Entry(k, v)) && Lookup(r, k).Some? {
        var w := Lookup(r, k).value;
        LookupIsSlot(r, k, w);
        FilterMember(a, keep, Entry(k, w));
        LookupIsSlot(a, k, w);
      }
    case None =>
      FilterKeySet(a, keep);
  }

  lemma {:induction false} FilterConcat<K, V>(x: PArray<K, V>, y: PArray<K, V>, keep: Entry<K, V> -> bool)
    ensures Filter(x + y, keep) == Filter(x, keep) + Filter(y, keep)
    decreases |y|
  {
    if y != [] {
      assert Init(x + y) == x + Init(y);
      assert Last(x + y) == Last(y);
      FilterConcat(x, Init(y), keep);
    } else {
      assert x + y == x;
    }
  }

  lemma {:induction false} FilterKeepsAll<K, V>(a: PArray<K, V>, keep: Entry<K, V> -> bool)
    requires forall e :: e in a ==> keep(e)
    ensures Filter(a, keep) == a
    decreases |a|
  {
    if a != [] {
      assert a == Init(a) + [Last(a)];
      FilterKeepsAll(Init(a), keep);
    }
  }

  /** A test that rejects every slot leaves the empty array. */
  lemma {:induction false} FilterKeepsNone<K, V>(a: PArray<K, V>, keep: Entry<K, V> -> bool)
    requires forall e :: e in a ==> !keep(e)
    ensures Filter(a, keep) == []
    decreases |a|
  {
    if a != [] {
      assert a == Init(a) + [Last(a)];
      FilterKeepsNone(Init(a), keep);
    }
  }

  /** Two tests that agree on every slot of the array filter it alike. */
  lemma {:induction false} FilterCongruence<K, V>(a: PArray<K, V>, p: Entry<K, V> -> bool, q: Entry<K, V> -> bool)
    requires forall e :: e in a ==> p(e) == q(e)
    ensures Filter(a, p) == Filter(a, q)
    decreases |a|
  {
    if a != [] {
      assert a == Init(a) + [Last(a)];
      FilterCongruence(Init(a), p, q);
    }
  }

  lemma {:induction false} FilterIsSubsequence<K, V>(a: PArray<K, V>, keep: Entry<K, V> -> bool)
    ensures IsSubsequence(Filter(a, keep), a)
    decreases |a|
  {
    if a != [] {
      FilterIsSubsequence(Init(a), keep);
      var r := Filter(a, keep);
      if keep(Last(a)) {
        assert r != [] && Last(r) == Last(a) && Init(r) == Filter(Init(a), keep);
      } else {
        assert r == Filter(Init(a), keep);
      }
    }
  }

  lemma FilterIdempotent<K, V>(a: PArray<K, V>, keep: Entry<K, V> -> bool)
    ensures Filter(Filter(a, keep), keep) == Filter(a, keep)
  {
    forall e | e in Filter(a, keep) ensures keep(e) {
      FilterMember(a, keep, e);
    }
    FilterKeepsAll(Filter(a, keep), keep);
  }

  /** Selecting the rows whose key is in ks leaves the lookups of those keys as they were. */
  lemma {:induction false} FilterKeyInLookup<K, V>(a: PArray<K, V>, ks: set<K>, k: K)
    ensures Lookup(Filter(a, KeyIn(ks)), k) == if k in ks then Lookup(a, k) else None
    decreases |a|
  {
    if a != [] {
      FilterKeyInLookup(Init(a), ks, k);
      var r := Filter(a, KeyIn(ks));
      assert KeyIn(ks)(Last(a)) == (Last(a).key in ks);
      if Last(a).key in ks {
        assert r != [] && Last(r) == Last(a) && Init(r) == Filter(Init(a), KeyIn(ks));
      } else {
        assert r == Filter(Init(a), KeyIn(ks));
      }
    }
  }

  /** Subsequences survive taking the keys of their slots. */
  lemma {:induction false} KeysOfSubsequence<K, V>(r: PArray<K, V>, a: PArray<K, V>)
    requires IsSubsequence(r, a)
    ensures IsSubsequence(Keys(r), Keys(a))
    decreases |a|
  {
    if r != [] {
      assert Keys(r) != [] && Last(Keys(r)) == Last(r).key && Init(Keys(r)) == Keys(Init(r));
      assert Keys(a) != [] && Last(Keys(a)) == Last(a).key && Init(Keys(a)) == Keys(Init(a));
      if Last(r) == Last(a) && IsSubsequence(Init(r), Init(a)) {
        KeysOfSubsequence(Init(r), Init(a));
      } else {
        KeysOfSubsequence(r, Init(a));
      }
    }
  }

  // ---------------------------------------------------------------------------
  // The two loop shapes

  /** Unsetting a key the array does not hold changes nothing. */
  lemma UnsetMissingKey<K, V>(x: PArray<K, V>, k: K)
    requires k !in KeySet(x)
    ensures Unset(x, k) == x
  {
    forall d | d in x ensures KeyIsNot<K, V>(k)(d) {
      var j :| 0 <= j < |x| && x[j] == d;
      assert x[j].key in KeySet(x);
    }
    FilterKeepsAll(x, KeyIsNot(k));
  }

  /** Unsetting the key of a slot that no other slot shares removes just that slot. */
  lemma UnsetOnlySlot<K, V>(x: PArray<K, V>, e: Entry<K, V>, y: PArray<K, V>)
    requires e.key !in KeySet(x) && e.key !in KeySet(y)
    ensures Unset(x + [e] + y, e.key) == x + y
  {
    var drop := KeyIsNot<K, V>(e.key);
    assert Filter([e], drop) == [] by {
      assert Init([e]) == [] && Last([e]) == e && !drop(e);
    }
    assert Filter(x + [e], drop) == x by {
      FilterConcat(x, [e], drop);
      UnsetMissingKey(x, e.key);
    }
    assert Filter(x + [e] + y, drop) == x + y by {
      FilterConcat(x + [e], y, drop);
      UnsetMissingKey(y, e.key);
    }
  }

  /** One turn of the foreach/unset loop: the slot at i is dropped or kept, the rest is untouched. */
  lemma UnsetStep<K, V>(a: PArray<K, V>, keep: Entry<K, V> -> bool, i: int)
    requires UniqueKeys(a) && 0 <= i < |a|
    ensures Filter(a[..i + 1], keep) + a[i + 1..] ==
            if keep(a[i]) then Filter(a[..i], keep) + a[i..]
            else Unset(Filter(a[..i], keep) + a[i..], a[i].key)
  {
    assert Init(a[..i + 1]) == a[..i] && Last(a[..i + 1]) == a[i];
    assert a[i..] == [a[i]] + a[i + 1..];
    if !keep(a[i]) {
      FilterKeySet(a[..i], keep);
      assert a[i].key !in KeySet(a[..i]);
      assert a[i].key !in KeySet(a[i + 1..]);
      assert Filter(a[..i], keep) + a[i..] == Filter(a[..i], keep) + [a[i]] + a[i + 1..];
      UnsetOnlySlot(Filter(a[..i], keep), a[i], a[i + 1..]);
    }
  }

  /** `foreach ($a as $k => $v) { if (!keep) unset($a[$k]); }` */
  method UnsetWhere<K(==), V>(a: PArray<K, V>, keep: Entry<K, V> -> bool) returns (r: PArray<K, V>)
    requires UniqueKeys(a)
    ensures r == Filter(a, keep)
    ensures UniqueKeys(r)
    ensures forall e :: e in r <==> e in a && keep(e)
  {
    r := a;
    var i := 0;
    while i < |a|
      invariant 0 <= i <= |a|
      invariant r == Filter(a[..i], keep) + a[i..]
    {
      UnsetStep(a, keep, i);
      if !keep(a[i]) {
        r := Unset(r, a[i].key);
      }
      i := i + 1;
    }
    assert a[..|a|] == a;
    FilterUnique(a, keep);
    forall e ensures e in r <==> e in a && keep(e) {
      FilterMember(a, keep, e);
    }
  }

  /** `while ($dao->fetch()) { $a[$dao->key] = $dao->value; }` over the rows a query returns */
  method FetchKeyed<K(==), V>(rows: seq<Entry<K, V>>) returns (a: PArray<K, V>)
    ensures a == Load(rows)
    ensures UniqueKeys(a) && KeySet(a) == KeySet(rows)
    ensures forall k :: Lookup(a, k) == Lookup(rows, k)
  {
    a := [];
    var i := 0;
    while i < |rows|
      invariant 0 <= i <= |rows|
      invariant a == Load(rows[..i])
    {
      assert Init(rows[..i + 1]) == rows[..i] && Last(rows[..i + 1]) == rows[i];
      a := Assign(a, rows[i].key, rows[i].value);
      i := i + 1;
    }
    assert rows[..|rows|] == rows;
    LoadSpec(rows);
  }
}
