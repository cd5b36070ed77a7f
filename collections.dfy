/** The two collection idioms the core relies on, for any key function: a JavaScript Map
    filled by `set` in list order, and Array.prototype.sort with a comparator on a numeric
    key, which is stable. */
module Collections {
  import opened Common

  /** The map `set(key(x), x)` builds over the list: a later item with the same key
      replaces an earlier one. */
  function IndexBy<K(==), V>(items: seq<V>, key: V -> K): map<K, V>
    decreases |items|
  {
    if items == [] then map[]
    else
      var last := items[|items| - 1];
      IndexBy(items[..|items| - 1], key)[key(last) := last]
  }

  /** Item j is the last one with its key. */
  predicate LastWithKey<K(==), V>(items: seq<V>, key: V -> K, j: int) {
    0 <= j < |items| && forall j' :: j < j' < |items| ==> key(items[j']) != key(items[j])
  }

  /** The map holds the last item of each key under that key. */
  lemma {:induction false} IndexByLast<K, V>(items: seq<V>, key: V -> K, j: int)
    requires LastWithKey(items, key, j)
    ensures key(items[j]) in IndexBy(items, key) && IndexBy(items, key)[key(items[j])] == items[j]
    decreases |items|
  {
    if j < |items| - 1 {
      var prefix := items[..|items| - 1];
      assert LastWithKey(prefix, key, j);
      IndexByLast(prefix, key, j);
    }
  }

  /** Every key of the map is the key of the last item that has it. */
  lemma {:induction false} IndexByKeys<K, V>(items: seq<V>, key: V -> K, k: K)
    requires k in IndexBy(items, key)
    ensures exists j :: LastWithKey(items, key, j) && key(items[j]) == k
    decreases |items|
  {
    var n := |items| - 1;
    if key(items[n]) == k {
      assert LastWithKey(items, key, n);
    } else {
      var prefix := items[..n];
      IndexByKeys(prefix, key, k);
      var j :| LastWithKey(prefix, key, j) && key(prefix[j]) == k;
      assert LastWithKey(items, key, j);
    }
  }

  /** The values f gives the items that have one, in item order. */
  function Present<A, B>(s: seq<A>, f: A -> Option<B>): seq<B>
    decreases |s|
  {
    if s == [] then []
    else
      var n := |s| - 1;
      Present(s[..n], f) + if f(s[n]).Some? then [f(s[n]).value] else []
  }

  /** The positions of the items f gives a value, in order. */
  function PresentAt<A, B>(s: seq<A>, f: A -> Option<B>): seq<int>
    decreases |s|
  {
    if s == [] then []
    else
      var n := |s| - 1;
      PresentAt(s[..n], f) + if f(s[n]).Some? then [n] else []
  }

  /** One position per value, each of an item, in increasing order. */
  lemma {:induction false} PresentAtShape<A, B>(s: seq<A>, f: A -> Option<B>)
    ensures |PresentAt(s, f)| == |Present(s, f)| <= |s|
    ensures forall k :: 0 <= k < |PresentAt(s, f)| ==> 0 <= PresentAt(s, f)[k] < |s|
    ensures forall k, l :: 0 <= k < l < |PresentAt(s, f)| ==> PresentAt(s, f)[k] < PresentAt(s, f)[l]
    decreases |s|
  {
    if s != [] {
      PresentAtShape(s[..|s| - 1], f);
    }
  }

  /** Value k is the one f gives the item at position k. */
  lemma {:induction false} PresentAtValue<A, B>(s: seq<A>, f: A -> Option<B>, k: int)
    requires 0 <= k < |PresentAt(s, f)|
    ensures |PresentAt(s, f)| == |Present(s, f)| && 0 <= PresentAt(s, f)[k] < |s|
    ensures f(s[PresentAt(s, f)[k]]) == Some(Present(s, f)[k])
    decreases |s|
  {
    var n := |s| - 1;
    var prefix := s[..n];
    PresentAtShape(s, f);
    PresentAtShape(prefix, f);
    if k < |PresentAt(prefix, f)| {
      PresentAtValue(prefix, f, k);
      assert s[PresentAt(prefix, f)[k]] == prefix[PresentAt(prefix, f)[k]];
    }
  }

  /** An item has a position exactly when f gives it a value. */
  lemma {:induction false} PresentAtComplete<A, B>(s: seq<A>, f: A -> Option<B>, i: int)
    requires 0 <= i < |s|
    ensures f(s[i]).Some? <==> i in PresentAt(s, f)
    decreases |s|
  {
    var n := |s| - 1;
    var prefix := s[..n];
    PresentAtShape(prefix, f);
    assert n !in PresentAt(prefix, f);
    if i < n {
      PresentAtComplete(prefix, f, i);
      assert s[i] == prefix[i];
    }
  }

  /** Inserts x after every item whose key is not greater. */
  function InsertBy<V>(x: V, s: seq<V>, key: V -> int): (r: seq<V>)
    ensures multiset(r) == multiset(s) + multiset{x}
    ensures |r| == |s| + 1
  {
    if s == [] || key(x) < key(s[0]) then [x] + s
    else
      assert s == [s[0]] + s[1..];
      [s[0]] + InsertBy(x, s[1..], key)
  }

  /** A stable sort by key. */
  function SortBy<V>(s: seq<V>, key: V -> int): seq<V>
    decreases |s|
  {
    if s == [] then [] else InsertBy(s[|s| - 1], SortBy(s[..|s| - 1], key), key)
  }

  predicate SortedBy<V>(s: seq<V>, key: V -> int) {
    forall a, b :: 0 <= a < b < |s| ==> key(s[a]) <= key(s[b])
  }

  lemma {:induction false} InsertByKeepsSorted<V>(x: V, s: seq<V>, key: V -> int)
    requires SortedBy(s, key)
    ensures SortedBy(InsertBy(x, s, key), key)
    decreases |s|
  {
    if s != [] && key(x) >= key(s[0]) {
      InsertByKeepsSorted(x, s[1..], key);
      var t := InsertBy(x, s[1..], key);
      var r := [s[0]] + t;
      assert InsertBy(x, s, key) == r;
      forall a, b | 0 <= a < b < |r| ensures key(r[a]) <= key(r[b]) {
        if a == 0 {
          assert r[b] == t[b - 1];
          InsertByTail(x, s, key, t[b - 1]);
        } else {
          assert r[a] == t[a - 1] && r[b] == t[b - 1];
        }
      }
    }
  }

  /** What is inserted after the head of a sorted list has a key no smaller than the head's. */
  lemma InsertByTail<V>(x: V, s: seq<V>, key: V -> int, e: V)
    requires SortedBy(s, key) && s != [] && key(x) >= key(s[0])
    requires e in InsertBy(x, s[1..], key)
    ensures key(s[0]) <= key(e)
  {
    assert e in multiset(InsertBy(x, s[1..], key));
    if e != x {
      assert e in multiset(s[1..]);
      var c :| 0 <= c < |s[1..]| && s[1..][c] == e;
      assert s[c + 1] == e;
    }
  }

  /** The sort orders by key and keeps every item exactly as often as it was there. */
  lemma {:induction false} SortBySortsAndPermutes<V>(s: seq<V>, key: V -> int)
    ensures SortedBy(SortBy(s, key), key)
    ensures multiset(SortBy(s, key)) == multiset(s)
    decreases |s|
  {
    if s != [] {
      var front, x := s[..|s| - 1], s[|s| - 1];
      SortBySortsAndPermutes(front, key);
      InsertByKeepsSorted(x, SortBy(front, key), key);
      MultisetLast(s);
    }
  }

  /** The items of s whose key is v, in their order. */
  function WithKey<V>(s: seq<V>, key: V -> int, v: int): seq<V>
    decreases |s|
  {
    if s == [] then [] else (if key(s[0]) == v then [s[0]] else []) + WithKey(s[1..], key, v)
  }

  lemma WithKeyCons<V>(x: V, s: seq<V>, key: V -> int, v: int)
    ensures WithKey([x] + s, key, v) == (if key(x) == v then [x] else []) + WithKey(s, key, v)
  {
    assert ([x] + s)[0] == x;
    assert ([x] + s)[1..] == s;
  }

  lemma {:induction false} WithKeyAppend<V>(a: seq<V>, b: seq<V>, key: V -> int, v: int)
    ensures WithKey(a + b, key, v) == WithKey(a, key, v) + WithKey(b, key, v)
    decreases |a|
  {
    if a == [] {
      assert a + b == b;
    } else {
      assert a + b == [a[0]] + (a[1..] + b);
      assert a == [a[0]] + a[1..];
      WithKeyCons(a[0], a[1..] + b, key, v);
      WithKeyCons(a[0], a[1..], key, v);
      WithKeyAppend(a[1..], b, key, v);
    }
  }

  /** No item of a list whose keys all exceed v has key v. */
  lemma {:induction false} WithKeyAbove<V>(s: seq<V>, key: V -> int, v: int)
    requires forall k :: 0 <= k < |s| ==> key(s[k]) > v
    ensures WithKey(s, key, v) == []
    decreases |s|
  {
    if s != [] {
      WithKeyAbove(s[1..], key, v);
    }
  }

  /** Inserting into a sorted list puts x after every item with the same key. */
  lemma {:induction false} InsertByWithKey<V>(x: V, s: seq<V>, key: V -> int, v: int)
    requires SortedBy(s, key)
    ensures WithKey(InsertBy(x, s, key), key, v) ==
            WithKey(s, key, v) + if key(x) == v then [x] else []
    decreases |s|
  {
    if s == [] || key(x) < key(s[0]) {
      WithKeyCons(x, s, key, v);
      if key(x) == v {
        WithKeyAbove(s, key, v);
      }
    } else {
      var rest := InsertBy(x, s[1..], key);
      assert SortedBy(s[1..], key) by {
        forall a, b | 0 <= a < b < |s[1..]| ensures key(s[1..][a]) <= key(s[1..][b]) {
          assert s[1..][a] == s[a + 1] && s[1..][b] == s[b + 1];
        }
      }
      InsertByWithKey(x, s[1..], key, v);
      WithKeyCons(s[0], rest, key, v);
      assert s == [s[0]] + s[1..];
      WithKeyCons(s[0], s[1..], key, v);
    }
  }

  /** The sort is stable: the items that share a key keep their order. */
  lemma {:induction false} SortByStable<V>(s: seq<V>, key: V -> int, v: int)
    ensures WithKey(SortBy(s, key), key, v) == WithKey(s, key, v)
    decreases |s|
  {
    if s != [] {
      var front, x := s[..|s| - 1], s[|s| - 1];
      SortByStable(front, key, v);
      SortBySortsAndPermutes(front, key);
      InsertByWithKey(x, SortBy(front, key), key, v);
      assert s == front + [x];
      WithKeyAppend(front, [x], key, v);
      WithKeyCons(x, [], key, v);
      assert [x] + [] == [x];
    }
  }

  lemma MultisetLast<V>(s: seq<V>)
    requires s != []
    ensures multiset(s) == multiset(s[..|s| - 1]) + multiset{s[|s| - 1]}
  {
    assert s == s[..|s| - 1] + [s[|s| - 1]];
  }

  /** `Array.prototype.map`: f applied to each item, in order. */
  function MapSeq<A, B>(s: seq<A>, f: A -> B): (r: seq<B>)
    ensures |r| == |s|
    ensures forall i :: 0 <= i < |s| ==> r[i] == f(s[i])
    decreases |s|
  {
    if s == [] then [] else MapSeq(s[..|s| - 1], f) + [f(s[|s| - 1])]
  }

  /** `flatMap`: the lists f gives the items, concatenated in order. */
  function FlatMap<A, B>(s: seq<A>, f: A -> seq<B>): seq<B>
    decreases |s|
  {
    if s == [] then [] else FlatMap(s[..|s| - 1], f) + f(s[|s| - 1])
  }

  /** One more item adds its list at the end. */
  lemma FlatMapAppend<A, B>(s: seq<A>, x: A, f: A -> seq<B>)
    ensures FlatMap(s + [x], f) == FlatMap(s, f) + f(x)
  {
    assert (s + [x])[..|s|] == s;
  }

  /** The result for a concatenation is the two results, concatenated. */
  lemma {:induction false} FlatMapConcat<A, B>(a: seq<A>, b: seq<A>, f: A -> seq<B>)
    ensures FlatMap(a + b, f) == FlatMap(a, f) + FlatMap(b, f)
    decreases |b|
  {
    if b == [] {
      assert a + b == a;
    } else {
      var front, x := b[..|b| - 1], b[|b| - 1];
      SplitLast(a, b);
      FlatMapConcat(a, front, f);
      FlatMapAppend(a + front, x, f);
      FlatMapAppend(front, x, f);
      ConcatAssoc(FlatMap(a, f), FlatMap(front, f), f(x));
    }
  }

  lemma SplitLast<A>(a: seq<A>, b: seq<A>)
    requires b != []
    ensures a + b == (a + b[..|b| - 1]) + [b[|b| - 1]]
    ensures b == b[..|b| - 1] + [b[|b| - 1]]
  {
  }

  lemma ConcatAssoc<A>(x: seq<A>, y: seq<A>, z: seq<A>)
    ensures (x + y) + z == x + (y + z)
  {
  }

  /** A single item gives its own list. */
  lemma FlatMapOne<A, B>(x: A, f: A -> seq<B>)
    ensures FlatMap([x], f) == f(x)
  {
    assert [x][..0] == [];
  }

  /** An element of the result comes from the list of some item, and every item's list is
      in the result. */
  lemma {:induction false} FlatMapIff<A, B>(s: seq<A>, f: A -> seq<B>, y: B)
    ensures y in FlatMap(s, f) <==> exists i :: 0 <= i < |s| && y in f(s[i])
    decreases |s|
  {
    if s != [] {
      var n := |s| - 1;
      var prefix := s[..n];
      FlatMapIff(prefix, f, y);
      if exists i :: 0 <= i < |s| && y in f(s[i]) {
        var i :| 0 <= i < |s| && y in f(s[i]);
        if i < n {
          assert prefix[i] == s[i];
        }
      }
      if y in FlatMap(prefix, f) {
        var i :| 0 <= i < n && y in f(prefix[i]);
        assert prefix[i] == s[i];
      }
    }
  }

  /** Items that give at most one element each give at most as many elements as there are
      items. */
  lemma {:induction false} FlatMapAtMostOne<A, B>(s: seq<A>, f: A -> seq<B>)
    requires forall i :: 0 <= i < |s| ==> |f(s[i])| <= 1
    ensures |FlatMap(s, f)| <= |s|
    decreases |s|
  {
    if s != [] {
      var n := |s| - 1;
      assert forall i :: 0 <= i < n ==> s[..n][i] == s[i];
      FlatMapAtMostOne(s[..n], f);
    }
  }

  /** MapSeq over a concatenation. */
  lemma MapSeqConcat<A, B>(a: seq<A>, b: seq<A>, g: A -> B)
    ensures MapSeq(a + b, g) == MapSeq(a, g) + MapSeq(b, g)
  {
    assert forall k :: 0 <= k < |a + b| ==> MapSeq(a + b, g)[k] == (MapSeq(a, g) + MapSeq(b, g))[k];
  }

  /** When each item's list is g applied to a list h gives it, the whole result is g applied
      to the concatenation of those lists. */
  lemma {:induction false} FlatMapAsMap<A, B, C>(s: seq<A>, f: A -> seq<C>, h: A -> seq<B>, g: B -> C)
    requires forall i :: 0 <= i < |s| ==> f(s[i]) == MapSeq(h(s[i]), g)
    ensures FlatMap(s, f) == MapSeq(FlatMap(s, h), g)
    decreases |s|
  {
    if s != [] {
      var n := |s| - 1;
      var prefix := s[..n];
      forall i | 0 <= i < n ensures f(prefix[i]) == MapSeq(h(prefix[i]), g) {
        assert prefix[i] == s[i];
      }
      FlatMapAsMap(prefix, f, h, g);
      MapSeqConcat(FlatMap(prefix, h), h(s[n]), g);
      calc {
        FlatMap(s, f);
        FlatMap(prefix, f) + f(s[n]);
        MapSeq(FlatMap(prefix, h), g) + MapSeq(h(s[n]), g);
        MapSeq(FlatMap(prefix, h) + h(s[n]), g);
        MapSeq(FlatMap(s, h), g);
      }
    }
  }

  /** The number of items that satisfy p. */
  function CountWhere<A>(s: seq<A>, p: A -> bool): nat
    decreases |s|
  {
    if s == [] then 0 else CountWhere(s[..|s| - 1], p) + (if p(s[|s| - 1]) then 1 else 0)
  }

  lemma {:induction false} CountWhereConcat<A>(a: seq<A>, b: seq<A>, p: A -> bool)
    ensures CountWhere(a + b, p) == CountWhere(a, p) + CountWhere(b, p)
    decreases |b|
  {
    if b == [] {
      assert a + b == a;
    } else {
      var n := |b| - 1;
      CountWhereConcat(a, b[..n], p);
      assert (a + b)[..|a| + n] == a + b[..n];
      assert (a + b)[|a| + n] == b[n];
    }
  }

  /** A single item counts once if it satisfies p. */
  lemma CountWhereOne<A>(x: A, p: A -> bool)
    ensures CountWhere([x], p) == if p(x) then 1 else 0
  {
    assert [x][..0] == [];
  }

  /** Items that all satisfy p count fully; items none of which do count nothing. */
  lemma {:induction false} CountWhereAllNone<A>(s: seq<A>, p: A -> bool)
    ensures (forall i :: 0 <= i < |s| ==> p(s[i])) ==> CountWhere(s, p) == |s|
    ensures (forall i :: 0 <= i < |s| ==> !p(s[i])) ==> CountWhere(s, p) == 0
    decreases |s|
  {
    if s != [] {
      var n := |s| - 1;
      assert forall i :: 0 <= i < n ==> s[..n][i] == s[i];
      CountWhereAllNone(s[..n], p);
    }
  }

  /** When the count in each item's list is the length of a second list of that item, the
      count in the whole result is the length of the concatenated second lists. */
  lemma {:induction false} CountWhereFlatMap<A, B, C>(s: seq<A>, f: A -> seq<B>, g: A -> seq<C>,
                                                   p: B -> bool)
    requires forall i :: 0 <= i < |s| ==> CountWhere(f(s[i]), p) == |g(s[i])|
    ensures CountWhere(FlatMap(s, f), p) == |FlatMap(s, g)|
    decreases |s|
  {
    if s != [] {
      var n := |s| - 1;
      assert forall i :: 0 <= i < n ==> s[..n][i] == s[i];
      CountWhereFlatMap(s[..n], f, g, p);
      CountWhereConcat(FlatMap(s[..n], f), f(s[n]), p);
    }
  }
}

/** A JavaScript Map whose values are arrays: the keys in first-insertion order, and the
    array under each key. */
module OrderedMaps {

  datatype OrderedMap<K(==,!new), V> = OrderedMap(keys: seq<K>, entries: map<K, seq<V>>)

  predicate Distinct<K(==,!new)>(s: seq<K>) {
    forall i, j :: 0 <= i < j < |s| ==> s[i] != s[j]
  }

  /** The key list holds each key of the map exactly once. */
  predicate Valid<K(==,!new), V>(m: OrderedMap<K, V>) {
    Distinct(m.keys) && (forall k :: k in m.entries ==> k in m.keys) &&
    (forall k :: k in m.keys ==> k in m.entries)
  }

  function Empty<K(==,!new), V>(): OrderedMap<K, V> {
    OrderedMap([], map[])
  }

  /** `if (!m.has(k)) m.set(k, []); m.get(k).push(...vs)`. */
  function Extend<K(==,!new), V>(m: OrderedMap<K, V>, k: K, vs: seq<V>): OrderedMap<K, V> {
    if k in m.entries then OrderedMap(m.keys, m.entries[k := m.entries[k] + vs])
    else OrderedMap(m.keys + [k], m.entries[k := vs])
  }

  /** `m.delete(k)`. */
  function Delete<K(==,!new), V>(m: OrderedMap<K, V>, k: K): OrderedMap<K, V> {
    OrderedMap(Without(m.keys, k), m.entries - {k})
  }

  function Without<K(==,!new)>(s: seq<K>, k: K): (r: seq<K>)
    ensures forall x :: x in r <==> x in s && x != k
    decreases |s|
  {
    if s == [] then []
    else Without(s[..|s| - 1], k) + (if s[|s| - 1] == k then [] else [s[|s| - 1]])
  }

  /** The number of values over the given keys. */
  function SizeOf<K(==,!new), V>(entries: map<K, seq<V>>, k: K): nat {
    if k in entries then |entries[k]| else 0
  }

  function SumSizes<K(==,!new), V>(keys: seq<K>, entries: map<K, seq<V>>): nat
    decreases |keys|
  {
    if keys == [] then 0
    else SumSizes(keys[..|keys| - 1], entries) + SizeOf(entries, keys[|keys| - 1])
  }

  /** The number of values in the map. */
  function Total<K(==,!new), V>(m: OrderedMap<K, V>): nat {
    SumSizes(m.keys, m.entries)
  }

  /** The map built by extending, item by item, the array under each item's key with the
      item's values. */
  function CollectBy<K(==,!new), V, W>(items: seq<V>, key: V -> K, vals: V -> seq<W>): OrderedMap<K, W>
    decreases |items|
  {
    if items == [] then Empty()
    else
      var last := items[|items| - 1];
      Extend(CollectBy(items[..|items| - 1], key, vals), key(last), vals(last))
  }

  /** The values of the items with key k, in item order. */
  function CollectOf<K(==,!new), V, W>(items: seq<V>, key: V -> K, vals: V -> seq<W>, k: K): seq<W>
    decreases |items|
  {
    if items == [] then []
    else
      var last := items[|items| - 1];
      CollectOf(items[..|items| - 1], key, vals, k) + (if key(last) == k then vals(last) else [])
  }

  /** The number of values of all items. */
  function SumVals<V, W>(items: seq<V>, vals: V -> seq<W>): nat
    decreases |items|
  {
    if items == [] then 0 else SumVals(items[..|items| - 1], vals) + |vals(items[|items| - 1])|
  }

  function Singleton<V>(x: V): seq<V> { [x] }

  /** The items grouped by key: `if (!m.has(k)) m.set(k, []); m.get(k).push(item)`. */
  function GroupBy<K(==,!new), V>(items: seq<V>, key: V -> K): OrderedMap<K, V> {
    CollectBy(items, key, Singleton)
  }

  // ---------------------------------------------------------------------------
  // Properties

  /** An entry of an extended map was there before or is one of the values added. */
  lemma ExtendFrom<K(!new), V>(m: OrderedMap<K, V>, k: K, vs: seq<V>, key: K, e: V)
    requires key in Extend(m, k, vs).entries && e in Extend(m, k, vs).entries[key]
    ensures (key in m.entries && e in m.entries[key]) || e in vs
  {
  }

  lemma ExtendValid<K(!new), V>(m: OrderedMap<K, V>, k: K, vs: seq<V>)
    requires Valid(m)
    ensures Valid(Extend(m, k, vs))
  {
  }

  lemma DeleteValid<K(!new), V>(m: OrderedMap<K, V>, k: K)
    requires Valid(m)
    ensures Valid(Delete(m, k))
  {
    WithoutDistinct(m.keys, k);
  }

  lemma {:induction false} WithoutDistinct<K(!new)>(s: seq<K>, k: K)
    requires Distinct(s)
    ensures Distinct(Without(s, k))
    decreases |s|
  {
    if s != [] {
      var n := |s| - 1;
      WithoutDistinct(s[..n], k);
      assert s[n] !in s[..n];
      var w := Without(s[..n], k);
      assert Without(s, k) == w + (if s[n] == k then [] else [s[n]]);
    }
  }

  /** Changing the array under a key the list does not hold leaves the sum unchanged. */
  lemma {:induction false} SumSizesOther<K(!new), V>(keys: seq<K>, entries: map<K, seq<V>>, k: K, vs: seq<V>)
    requires k !in keys
    ensures SumSizes(keys, entries[k := vs]) == SumSizes(keys, entries)
    ensures SumSizes(keys, entries - {k}) == SumSizes(keys, entries)
    decreases |keys|
  {
    if keys != [] {
      SumSizesOther(keys[..|keys| - 1], entries, k, vs);
    }
  }

  /** A valid map has as many keys in its list as in its domain: the Map's size. */
  lemma KeysCount<K(!new), V>(m: OrderedMap<K, V>)
    requires Valid(m)
    ensures |m.keys| == |m.entries|
  {
    DistinctCard(m.keys);
    assert m.entries.Keys == set k | k in m.keys;
  }

  lemma {:induction false} DistinctCard<K(!new)>(s: seq<K>)
    requires Distinct(s)
    ensures |set k | k in s| == |s|
    decreases |s|
  {
    if s != [] {
      var n := |s| - 1;
      DistinctCard(s[..n]);
      assert (set k | k in s) == (set k | k in s[..n]) + {s[n]};
      assert s[n] !in s[..n];
    }
  }

  /** The sum only reads the sizes under the listed keys. */
  lemma {:induction false} SumSizesAgree<K(!new), V>(keys: seq<K>, e1: map<K, seq<V>>, e2: map<K, seq<V>>)
    requires forall k :: k in keys ==> SizeOf(e1, k) == SizeOf(e2, k)
    ensures SumSizes(keys, e1) == SumSizes(keys, e2)
    decreases |keys|
  {
    if keys != [] {
      var n := |keys| - 1;
      assert forall k :: k in keys[..n] ==> k in keys;
      SumSizesAgree(keys[..n], e1, e2);
    }
  }

  /** Changing the array under a key the list holds once changes the sum by the difference. */
  lemma {:induction false} SumSizesUpdate<K(!new), V>(keys: seq<K>, entries: map<K, seq<V>>, k: K, vs: seq<V>)
    requires Distinct(keys) && k in keys
    ensures SumSizes(keys, entries[k := vs]) + SizeOf(entries, k) == SumSizes(keys, entries) + |vs|
    decreases |keys|
  {
    var n := |keys| - 1;
    var prefix := keys[..n];
    if keys[n] == k {
      assert k !in prefix;
      SumSizesOther(prefix, entries, k, vs);
    } else {
      assert k in prefix;
      SumSizesUpdate(prefix, entries, k, vs);
    }
  }

  /** Dropping a key the list holds once drops its array from the sum. */
  /** Appending a key adds its values. */
  lemma SumSizesAppend<K(!new), V>(keys: seq<K>, x: K, entries: map<K, seq<V>>)
    ensures SumSizes(keys + [x], entries) == SumSizes(keys, entries) + SizeOf(entries, x)
  {
    assert (keys + [x])[..|keys|] == keys;
  }

  lemma {:induction false} SumSizesWithout<K(!new), V>(keys: seq<K>, entries: map<K, seq<V>>, k: K)
    requires Distinct(keys)
    ensures SumSizes(Without(keys, k), entries) + (if k in keys then SizeOf(entries, k) else 0) ==
            SumSizes(keys, entries)
    decreases |keys|
  {
    if keys != [] {
      var n := |keys| - 1;
      var prefix := keys[..n];
      assert keys == prefix + [keys[n]];
      assert Distinct(prefix);
      SumSizesWithout(prefix, entries, k);
      var w := Without(prefix, k);
      assert SumSizes(keys, entries) == SumSizes(prefix, entries) + SizeOf(entries, keys[n]);
      if keys[n] == k {
        assert k !in prefix;
        assert Without(keys, k) == w;
      } else {
        assert (k in keys) == (k in prefix);
        assert Without(keys, k) == w + [keys[n]];
        SumSizesAppend(w, keys[n], entries);
      }
    }
  }

  lemma ExtendTotal<K(!new), V>(m: OrderedMap<K, V>, k: K, vs: seq<V>)
    requires Valid(m)
    ensures Total(Extend(m, k, vs)) == Total(m) + |vs|
  {
    if k in m.entries {
      SumSizesUpdate(m.keys, m.entries, k, m.entries[k] + vs);
    } else {
      var keys := m.keys + [k];
      assert keys[..|keys| - 1] == m.keys;
      SumSizesOther(m.keys, m.entries, k, vs);
    }
  }

  /** Deleting a key removes exactly its values from the total. */
  lemma DeleteTotal<K(!new), V>(m: OrderedMap<K, V>, k: K)
    requires Valid(m)
    ensures Total(Delete(m, k)) + SizeOf(m.entries, k) == Total(m)
  {
    SumSizesWithout(m.keys, m.entries, k);
    SumSizesOther(Without(m.keys, k), m.entries, k, []);
  }

  /** One more item extends the array under its key. */
  lemma CollectByStep<K(!new), V, W>(items: seq<V>, x: V, key: V -> K, vals: V -> seq<W>)
    ensures CollectBy(items + [x], key, vals) == Extend(CollectBy(items, key, vals), key(x), vals(x))
  {
    assert (items + [x])[..|items|] == items;
  }

  /** `for (const x of items) { if (!m.has(key(x))) m.set(key(x), []); m.get(key(x)).push(x) }`. */
  method GroupByLoop<K(==,!new), V>(items: seq<V>, key: V -> K) returns (m: OrderedMap<K, V>)
    ensures m == GroupBy(items, key)
  {
    m := Empty();
    var i := 0;
    while i < |items|
      invariant 0 <= i <= |items|
      invariant m == GroupBy(items[..i], key)
    {
      GroupByStep(items[..i], items[i], key);
      assert items[..i + 1] == items[..i] + [items[i]];
      m := Extend(m, key(items[i]), [items[i]]);
      i := i + 1;
    }
    assert items[..i] == items;
  }

  /** One more item joins the group of its key. */
  lemma GroupByStep<K(!new), V>(items: seq<V>, x: V, key: V -> K)
    ensures GroupBy(items + [x], key) == Extend(GroupBy(items, key), key(x), [x])
  {
    CollectByStep(items, x, key, Singleton);
  }

  /** The grouping is a valid map; a key is in it exactly when some item has it, and its
      array holds the values of those items in item order. */
  lemma {:induction false} CollectByEntries<K(!new), V, W>(items: seq<V>, key: V -> K, vals: V -> seq<W>)
    ensures Valid(CollectBy(items, key, vals))
    ensures forall k :: k in CollectBy(items, key, vals).entries <==>
                        exists i :: 0 <= i < |items| && key(items[i]) == k
    ensures forall k :: k in CollectBy(items, key, vals).entries ==>
                        CollectBy(items, key, vals).entries[k] == CollectOf(items, key, vals, k)
  {
    CollectByValid(items, key, vals);
    forall k ensures k in CollectBy(items, key, vals).entries <==>
                     exists i :: 0 <= i < |items| && key(items[i]) == k
    {
      CollectByKey(items, key, vals, k);
    }
    forall k | k in CollectBy(items, key, vals).entries
      ensures CollectBy(items, key, vals).entries[k] == CollectOf(items, key, vals, k)
    {
      CollectByKey(items, key, vals, k);
    }
  }

  /** Key k is in the grouping exactly when some item has it, and then it holds the values
      of those items in item order. */
  lemma {:induction false} CollectByKey<K(!new), V, W>(items: seq<V>, key: V -> K, vals: V -> seq<W>, k: K)
    ensures k in CollectBy(items, key, vals).entries <==> exists i :: 0 <= i < |items| && key(items[i]) == k
    ensures k in CollectBy(items, key, vals).entries ==>
              CollectBy(items, key, vals).entries[k] == CollectOf(items, key, vals, k)
    decreases |items|
  {
    if items != [] {
      var n := |items| - 1;
      var prefix, last := items[..n], items[n];
      CollectByKey(prefix, key, vals, k);
      var m := CollectBy(prefix, key, vals);
      assert CollectBy(items, key, vals) == Extend(m, key(last), vals(last));
      assert CollectOf(items, key, vals, k) ==
             CollectOf(prefix, key, vals, k) + (if key(last) == k then vals(last) else []);
      if exists i :: 0 <= i < |prefix| && key(prefix[i]) == k {
        var i :| 0 <= i < |prefix| && key(prefix[i]) == k;
        assert items[i] == prefix[i];
      } else {
        CollectOfAbsent(prefix, key, vals, k);
        if key(last) != k {
          forall i | 0 <= i < |items| ensures key(items[i]) != k {
            if i < n { assert items[i] == prefix[i]; }
          }
        }
      }
    }
  }

  lemma {:induction false} CollectByValid<K(!new), V, W>(items: seq<V>, key: V -> K, vals: V -> seq<W>)
    ensures Valid(CollectBy(items, key, vals))
    decreases |items|
  {
    if items != [] {
      var n := |items| - 1;
      CollectByValid(items[..n], key, vals);
      ExtendValid(CollectBy(items[..n], key, vals), key(items[n]), vals(items[n]));
    }
  }

  lemma {:induction false} CollectOfAbsent<K(!new), V, W>(items: seq<V>, key: V -> K, vals: V -> seq<W>, k: K)
    requires forall i :: 0 <= i < |items| ==> key(items[i]) != k
    ensures CollectOf(items, key, vals, k) == []
    decreases |items|
  {
    if items != [] {
      var n := |items| - 1;
      assert forall i :: 0 <= i < n ==> items[..n][i] == items[i];
      CollectOfAbsent(items[..n], key, vals, k);
    }
  }

  /** The map holds the values of all the items. */
  lemma {:induction false} CollectByTotal<K(!new), V, W>(items: seq<V>, key: V -> K, vals: V -> seq<W>)
    ensures Total(CollectBy(items, key, vals)) == SumVals(items, vals)
    decreases |items|
  {
    if items != [] {
      var n := |items| - 1;
      CollectByTotal(items[..n], key, vals);
      CollectByEntries(items[..n], key, vals);
      ExtendTotal(CollectBy(items[..n], key, vals), key(items[n]), vals(items[n]));
    }
  }

  /** Grouping places every item in exactly one group: the group sizes add up to the
      number of items. */
  lemma {:induction false} GroupByTotal<K(!new), V>(items: seq<V>, key: V -> K)
    ensures Total(GroupBy(items, key)) == |items|
    decreases |items|
  {
    CollectByTotal(items, key, Singleton);
    SumValsSingleton(items);
  }

  lemma {:induction false} SumValsSingleton<V>(items: seq<V>)
    ensures SumVals(items, Singleton) == |items|
    decreases |items|
  {
    if items != [] {
      SumValsSingleton(items[..|items| - 1]);
    }
  }

  /** A group holds exactly the items with its key, and every item is in the group of its
      key. */
  lemma GroupByMembers<K(!new), V>(items: seq<V>, key: V -> K)
    ensures forall x :: x in items ==> key(x) in GroupBy(items, key).entries
    ensures forall k, x :: k in GroupBy(items, key).entries ==>
              (x in GroupBy(items, key).entries[k] <==> x in items && key(x) == k)
  {
    CollectByEntries(items, key, Singleton);
    forall x | x in items ensures key(x) in GroupBy(items, key).entries {
      var i :| 0 <= i < |items| && items[i] == x;
    }
    forall k, x | k in GroupBy(items, key).entries
      ensures x in GroupBy(items, key).entries[k] <==> x in items && key(x) == k
    {
      GroupMembers(items, key, k, x);
    }
  }

  /** A group holds exactly the items with its key, in item order. */
  lemma {:induction false} GroupMembers<K(!new), V>(items: seq<V>, key: V -> K, k: K, x: V)
    ensures x in CollectOf(items, key, Singleton, k) <==> x in items && key(x) == k
    decreases |items|
  {
    if items != [] {
      var n := |items| - 1;
      GroupMembers(items[..n], key, k, x);
      assert items == items[..n] + [items[n]];
    }
  }

  /** An item is in the group of its key. */
  lemma InOwnGroup<K(!new), V>(items: seq<V>, key: V -> K, x: V)
    requires x in items
    ensures key(x) in GroupBy(items, key).entries && x in GroupBy(items, key).entries[key(x)]
  {
    GroupByMembers(items, key);
  }

  /** The group under k holds the items with key k. */
  lemma InGroup<K(!new), V>(items: seq<V>, key: V -> K, k: K, x: V)
    requires k in GroupBy(items, key).entries
    ensures x in GroupBy(items, key).entries[k] <==> x in items && key(x) == k
  {
    GroupByMembers(items, key);
  }
}
