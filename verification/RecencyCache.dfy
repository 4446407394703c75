// Caches that stamp each entry with a serial number on use, seen as lists from
// least to most recently used.
module RecencyCache {
  import opened Bytes

  datatype Entry<K, V> = Entry(key: K, value: V, lastUsed: nat)

  ghost predicate Increasing<K, V>(s: seq<Entry<K, V>>) {
    forall i, j | 0 <= i < j < |s| :: s[i].lastUsed < s[j].lastUsed
  }

  ghost predicate DistinctStamps<K, V>(s: seq<Entry<K, V>>) {
    forall i, j | 0 <= i < j < |s| :: s[i].lastUsed != s[j].lastUsed
  }

  ghost predicate DistinctKeys<K, V>(s: seq<Entry<K, V>>) {
    forall i, j | 0 <= i < j < |s| :: s[i].key != s[j].key
  }

  ghost predicate StampedBy<K, V>(s: seq<Entry<K, V>>, serial: nat) {
    DistinctStamps(s) && forall i | 0 <= i < |s| :: s[i].lastUsed <= serial
  }

  function Without<T>(s: seq<T>, i: nat): (rest: seq<T>)
    requires i < |s|
    ensures |rest| == |s| - 1
  {
    s[..i] + s[i + 1..]
  }

  function Insert<K, V>(e: Entry<K, V>, s: seq<Entry<K, V>>): seq<Entry<K, V>> {
    if s == [] then [e]
    else if e.lastUsed <= s[0].lastUsed then [e] + s
    else [s[0]] + Insert(e, s[1..])
  }

  /** The entries from least to most recently used. */
  function Ordered<K, V>(cache: seq<Entry<K, V>>): seq<Entry<K, V>> {
    if cache == [] then [] else Insert(cache[0], Ordered(cache[1..]))
  }

  function Strip<K, V>(s: seq<Entry<K, V>>): (r: seq<(K, V)>)
    ensures |r| == |s| && forall i | 0 <= i < |s| :: r[i] == (s[i].key, s[i].value)
  {
    seq(|s|, i requires 0 <= i < |s| => (s[i].key, s[i].value))
  }

  /** The recency list a cache stands for: stamps dropped, oldest first. */
  function View<K, V>(cache: seq<Entry<K, V>>): seq<(K, V)> {
    Strip(Ordered(cache))
  }

  ghost predicate HasKey<K, V>(order: seq<(K, V)>, key: K) {
    exists i :: 0 <= i < |order| && order[i].0 == key
  }

  ghost predicate Cached<K, V>(cache: seq<Entry<K, V>>, key: K) {
    exists i :: 0 <= i < |cache| && cache[i].key == key
  }

  method FindKey<K(==), V>(cache: seq<Entry<K, V>>, key: K) returns (found: Option<nat>)
    ensures found.Some? ==> found.value < |cache| && cache[found.value].key == key
    ensures found.None? <==> !Cached(cache, key)
  {
    for i := 0 to |cache|
      invariant forall k | 0 <= k < i :: cache[k].key != key
    {
      if cache[i].key == key {
        return Some(i);
      }
    }
    return None;
  }

  /** min_element by stamp. */
  method Oldest<K, V>(cache: seq<Entry<K, V>>) returns (victim: nat)
    requires cache != []
    ensures victim < |cache| && forall e <- cache :: cache[victim].lastUsed <= e.lastUsed
  {
    victim := 0;
    for i := 0 to |cache|
      invariant victim < |cache| && forall k | 0 <= k < i :: cache[victim].lastUsed <= cache[k].lastUsed
    {
      if cache[i].lastUsed < cache[victim].lastUsed {
        victim := i;
      }
    }
  }

  // ----- Operations on recency lists ---------------------------------------------

  function Touched<K(==), V>(order: seq<(K, V)>, key: K): seq<(K, V)> {
    if order == [] then []
    else if order[0].0 == key then order[1..] + [order[0]]
    else [order[0]] + Touched(order[1..], key)
  }

  /** Drop the least recently used element that is not kept. */
  function Dropped<T>(order: seq<T>, keep: T -> bool): seq<T> {
    if order == [] then []
    else if !keep(order[0]) then order[1..]
    else [order[0]] + Dropped(order[1..], keep)
  }

  // ----- Ordered sorts, and only the entries matter --------------------------------

  lemma {:induction false} InsertKeeps<K, V>(e: Entry<K, V>, s: seq<Entry<K, V>>)
    ensures multiset(Insert(e, s)) == multiset{e} + multiset(s)
  {
    if s != [] && e.lastUsed > s[0].lastUsed {
      InsertKeeps(e, s[1..]);
      assert s == [s[0]] + s[1..];
    }
  }

  lemma {:induction false} OrderedKeeps<K, V>(cache: seq<Entry<K, V>>)
    ensures multiset(Ordered(cache)) == multiset(cache)
  {
    if cache != [] {
      OrderedKeeps(cache[1..]);
      InsertKeeps(cache[0], Ordered(cache[1..]));
      assert cache == [cache[0]] + cache[1..];
    }
  }

  lemma SameMembers<T>(s: seq<T>, t: seq<T>)
    requires multiset(s) == multiset(t)
    ensures |s| == |t|
    ensures forall i | 0 <= i < |s| :: s[i] in t
    ensures forall i | 0 <= i < |t| :: t[i] in s
  {
    assert |multiset(s)| == |s| && |multiset(t)| == |t|;
    forall i | 0 <= i < |s| ensures s[i] in t {
      assert s[i] in multiset(t);
    }
    forall i | 0 <= i < |t| ensures t[i] in s {
      assert t[i] in multiset(s);
    }
  }

  lemma OrderedMembers<K, V>(cache: seq<Entry<K, V>>)
    ensures |Ordered(cache)| == |cache|
    ensures forall i | 0 <= i < |cache| :: Ordered(cache)[i] in cache
    ensures forall i | 0 <= i < |cache| :: cache[i] in Ordered(cache)
  {
    OrderedKeeps(cache);
    SameMembers(Ordered(cache), cache);
  }

  lemma {:induction false} InsertSorts<K, V>(e: Entry<K, V>, s: seq<Entry<K, V>>)
    requires Increasing(s) && forall x <- s :: x.lastUsed != e.lastUsed
    ensures Increasing(Insert(e, s))
  {
    if s != [] && e.lastUsed > s[0].lastUsed {
      hide Increasing;
      TailSorted(s);
      InsertSorts(e, s[1..]);
      InsertKeeps(e, s[1..]);
      SameMembers(Insert(e, s[1..]), [e] + s[1..]);
      IncreasingCons(s[0], Insert(e, s[1..]));
    }
  }

  lemma IncreasingCons<K, V>(e: Entry<K, V>, s: seq<Entry<K, V>>)
    requires Increasing(s) && forall x <- s :: e.lastUsed < x.lastUsed
    ensures Increasing([e] + s)
  {
  }

  lemma {:induction false} OrderedSorts<K, V>(cache: seq<Entry<K, V>>)
    requires DistinctStamps(cache)
    ensures Increasing(Ordered(cache))
  {
    if cache != [] {
      OrderedSorts(cache[1..]);
      OrderedMembers(cache[1..]);
      InsertSorts(cache[0], Ordered(cache[1..]));
    }
  }

  lemma FirstIsSmallest<K, V>(s: seq<Entry<K, V>>, e: Entry<K, V>)
    requires Increasing(s) && s != [] && e in s
    ensures e == s[0] || s[0].lastUsed < e.lastUsed
  {
  }

  lemma TailSorted<K, V>(s: seq<Entry<K, V>>)
    requires Increasing(s) && s != []
    ensures Increasing(s[1..]) && forall x <- s[1..] :: s[0].lastUsed < x.lastUsed
  {
  }

  lemma TailCounts<T>(s: seq<T>)
    requires s != []
    ensures multiset(s[1..]) == multiset(s) - multiset{s[0]}
  {
    assert s == [s[0]] + s[1..];
  }

  lemma {:induction false} SortedIsUnique<K, V>(s: seq<Entry<K, V>>, t: seq<Entry<K, V>>)
    requires Increasing(s) && Increasing(t) && multiset(s) == multiset(t)
    ensures s == t
  {
    hide Increasing;
    SameMembers(s, t);
    if s != [] {
      TailSorted(s);
      TailSorted(t);
      FirstIsSmallest(s, t[0]);
      FirstIsSmallest(t, s[0]);
      TailCounts(s);
      TailCounts(t);
      SortedIsUnique(s[1..], t[1..]);
      assert s == [s[0]] + s[1..] && t == [t[0]] + t[1..];
    }
  }

  lemma OrderedIs<K, V>(cache: seq<Entry<K, V>>, t: seq<Entry<K, V>>)
    requires DistinctStamps(cache) && Increasing(t) && multiset(t) == multiset(cache)
    ensures Ordered(cache) == t
  {
    OrderedSorts(cache);
    OrderedKeeps(cache);
    SortedIsUnique(Ordered(cache), t);
  }

  // ----- What each cache operation does to the list --------------------------------

  lemma PlaceOf<K, V>(cache: seq<Entry<K, V>>, v: nat) returns (i: nat)
    requires v < |cache|
    ensures i < |Ordered(cache)| && Ordered(cache)[i] == cache[v]
  {
    OrderedMembers(cache);
    assert cache[v] in Ordered(cache);
    i :| 0 <= i < |Ordered(cache)| && Ordered(cache)[i] == cache[v];
  }

  lemma WithoutCounts<T>(s: seq<T>, i: nat)
    requires i < |s|
    ensures multiset(Without(s, i)) == multiset(s) - multiset{s[i]}
    ensures s[i] in multiset(s)
  {
    assert s == s[..i] + [s[i]] + s[i + 1..];
  }

  lemma WithoutSorted<K, V>(s: seq<Entry<K, V>>, i: nat)
    requires Increasing(s) && i < |s|
    ensures Increasing(Without(s, i))
  {
  }

  lemma WithoutDistinct<K, V>(s: seq<Entry<K, V>>, i: nat)
    requires i < |s|
    ensures DistinctStamps(s) ==> DistinctStamps(Without(s, i))
    ensures DistinctKeys(s) ==> DistinctKeys(Without(s, i))
    ensures forall x <- Without(s, i) :: x in s
  {
  }

  lemma Erases<K, V>(cache: seq<Entry<K, V>>, v: nat, i: nat)
    requires DistinctStamps(cache) && v < |cache|
    requires i < |Ordered(cache)| && Ordered(cache)[i] == cache[v]
    ensures Ordered(Without(cache, v)) == Without(Ordered(cache), i)
  {
    hide Without;
    OrderedSorts(cache);
    OrderedKeeps(cache);
    WithoutCounts(cache, v);
    WithoutCounts(Ordered(cache), i);
    WithoutSorted(Ordered(cache), i);
    WithoutDistinct(cache, v);
    OrderedIs(Without(cache, v), Without(Ordered(cache), i));
  }

  lemma IncreasingSnoc<K, V>(s: seq<Entry<K, V>>, e: Entry<K, V>)
    requires Increasing(s) && forall x <- s :: x.lastUsed < e.lastUsed
    ensures Increasing(s + [e])
  {
  }

  lemma DistinctSnoc<K, V>(s: seq<Entry<K, V>>, e: Entry<K, V>)
    requires DistinctStamps(s) && forall x <- s :: x.lastUsed < e.lastUsed
    ensures DistinctStamps(s + [e])
  {
  }

  lemma Appends<K, V>(cache: seq<Entry<K, V>>, e: Entry<K, V>)
    requires DistinctStamps(cache) && forall x <- cache :: x.lastUsed < e.lastUsed
    ensures Ordered(cache + [e]) == Ordered(cache) + [e]
    ensures View(cache + [e]) == View(cache) + [(e.key, e.value)]
  {
    hide Increasing, DistinctStamps;
    OrderedSorts(cache);
    OrderedKeeps(cache);
    OrderedMembers(cache);
    IncreasingSnoc(Ordered(cache), e);
    DistinctSnoc(cache, e);
    OrderedIs(cache + [e], Ordered(cache) + [e]);
  }

  lemma {:induction false} TouchedAt<K, V>(order: seq<(K, V)>, i: nat)
    requires i < |order| && forall j | 0 <= j < |order| && j != i :: order[j].0 != order[i].0
    ensures Touched(order, order[i].0) == Without(order, i) + [order[i]]
  {
    if i > 0 {
      TouchedAt(order[1..], i - 1);
      assert Without(order, i) == [order[0]] + Without(order[1..], i - 1);
    }
  }

  lemma StripWithout<K, V>(s: seq<Entry<K, V>>, i: nat)
    requires i < |s|
    ensures Strip(Without(s, i)) == Without(Strip(s), i)
  {
  }

  lemma DistinctUpdate<K, V>(cache: seq<Entry<K, V>>, v: nat, e: Entry<K, V>)
    requires DistinctStamps(cache) && v < |cache| && forall x <- cache :: x.lastUsed < e.lastUsed
    ensures DistinctStamps(cache[v := e])
  {
  }

  /** Stamping an entry with a new serial is erasing it and appending it again. */
  lemma TouchIsEraseAndAppend<K, V>(cache: seq<Entry<K, V>>, v: nat, e: Entry<K, V>)
    requires DistinctStamps(cache) && v < |cache| && forall x <- cache :: x.lastUsed < e.lastUsed
    ensures DistinctStamps(cache[v := e])
    ensures Ordered(cache[v := e]) == Ordered(Without(cache, v)) + [e]
  {
    hide Increasing, DistinctStamps;
    DistinctUpdate(cache, v, e);
    var touched, rest := cache[v := e], Without(cache, v);
    WithoutDistinct(cache, v);
    Appends(rest, e);
    DistinctSnoc(rest, e);
    OrderedSorts(rest + [e]);
    OrderedKeeps(rest + [e]);
    WithoutCounts(touched, v);
    assert Without(touched, v) == rest;
    OrderedIs(touched, Ordered(rest + [e]));
  }

  lemma Touches<K, V>(cache: seq<Entry<K, V>>, v: nat, stamp: nat)
    requires DistinctStamps(cache) && DistinctKeys(cache) && v < |cache|
    requires forall x <- cache :: x.lastUsed < stamp
    ensures DistinctStamps(cache[v := cache[v].(lastUsed := stamp)])
    ensures View(cache[v := cache[v].(lastUsed := stamp)]) == Touched(View(cache), cache[v].key)
    ensures |View(cache)| == |Touched(View(cache), cache[v].key)| == |cache|
    ensures Touched(View(cache), cache[v].key)[|cache| - 1] == (cache[v].key, cache[v].value)
  {
    hide DistinctKeys, DistinctStamps, Without;
    var i := PlaceOf(cache, v);
    Erases(cache, v, i);
    TouchIsEraseAndAppend(cache, v, cache[v].(lastUsed := stamp));
    OrderedKeys(cache);
    OrderedMembers(cache);
    KeysApart(Ordered(cache), i);
    TouchedAt(View(cache), i);
    StripWithout(Ordered(cache), i);
  }

  lemma KeysApart<K, V>(s: seq<Entry<K, V>>, i: nat)
    requires DistinctKeys(s) && i < |s|
    ensures forall j | 0 <= j < |s| && j != i :: s[j].key != s[i].key
  {
  }

  /** Distinct keys stay distinct: each entry occurs once. */
  lemma OrderedKeys<K, V>(cache: seq<Entry<K, V>>)
    requires DistinctKeys(cache)
    ensures DistinctKeys(Ordered(cache))
  {
    OrderedKeeps(cache);
    OrderedMembers(cache);
    var s := Ordered(cache);
    forall i, j | 0 <= i < j < |s| ensures s[i].key != s[j].key {
      if s[i].key == s[j].key {
        assert s[i] in cache && s[j] in cache;
        var v :| 0 <= v < |cache| && cache[v] == s[i];
        var w :| 0 <= w < |cache| && cache[w] == s[j];
        assert v == w;
        OccursTwice(s, i, j);
        OccursOnce(cache, v);
      }
    }
  }

  lemma OccursTwice<T>(s: seq<T>, i: nat, j: nat)
    requires i < j < |s| && s[i] == s[j]
    ensures multiset(s)[s[i]] >= 2
  {
    assert s == s[..j] + [s[j]] + s[j + 1..];
    assert s[i] in s[..j];
  }

  lemma OccursOnce<K, V>(cache: seq<Entry<K, V>>, v: nat)
    requires DistinctKeys(cache) && v < |cache|
    ensures multiset(cache)[cache[v]] == 1
  {
    assert cache == cache[..v] + [cache[v]] + cache[v + 1..];
    assert cache[v] !in cache[..v] && cache[v] !in cache[v + 1..];
  }

  lemma {:induction false} DroppedAt<T>(order: seq<T>, keep: T -> bool, i: nat)
    requires i < |order| && !keep(order[i]) && forall j | 0 <= j < i :: keep(order[j])
    ensures Dropped(order, keep) == Without(order, i)
  {
    if i > 0 {
      DroppedAt(order[1..], keep, i - 1);
      assert Without(order, i) == [order[0]] + Without(order[1..], i - 1);
    }
  }

  /** Erasing the entry with the smallest stamp among those not kept drops the
      least recently used one from the list. */
  lemma Drops<K, V>(cache: seq<Entry<K, V>>, v: nat, keep: ((K, V)) -> bool)
    requires DistinctStamps(cache) && v < |cache| && !keep((cache[v].key, cache[v].value))
    requires forall x <- cache :: keep((x.key, x.value)) || cache[v].lastUsed <= x.lastUsed
    ensures View(Without(cache, v)) == Dropped(View(cache), keep)
  {
    hide Without, DistinctStamps;
    var i := PlaceOf(cache, v);
    var s := Ordered(cache);
    Erases(cache, v, i);
    OrderedSorts(cache);
    OrderedMembers(cache);
    assert forall j | 0 <= j < i :: s[j] in cache && s[j].lastUsed < s[i].lastUsed;
    DroppedAt(View(cache), keep, i);
    StripWithout(s, i);
  }

  /** A cache and its recency list have the same keys. */
  lemma ViewKeys<K, V>(cache: seq<Entry<K, V>>, key: K)
    ensures HasKey(View(cache), key) <==> Cached(cache, key)
    ensures |View(cache)| == |cache|
  {
    OrderedMembers(cache);
    var s := Ordered(cache);
    if Cached(cache, key) {
      var i :| 0 <= i < |cache| && cache[i].key == key;
      assert cache[i] in s;
      var j :| 0 <= j < |s| && s[j] == cache[i];
      assert View(cache)[j].0 == key;
    }
    if HasKey(View(cache), key) {
      var j :| 0 <= j < |View(cache)| && View(cache)[j].0 == key;
      assert s[j] in cache;
    }
  }

  lemma OldestIsFirst<K, V>(cache: seq<Entry<K, V>>, v: nat)
    requires DistinctStamps(cache) && v < |cache| && forall x <- cache :: cache[v].lastUsed <= x.lastUsed
    ensures |View(cache)| == |cache| && View(cache)[0] == (cache[v].key, cache[v].value)
  {
    hide DistinctStamps;
    var i := PlaceOf(cache, v);
    OrderedSorts(cache);
    OrderedMembers(cache);
    assert Ordered(cache)[0] in cache;
  }
}
