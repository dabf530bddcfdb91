/** A bounded map that remembers the order of its entries and drops the
    eldest one when an insertion takes it over its bound (`LRUCache`, backed
    by an insertion-ordered `LinkedHashMap` whose `removeEldestEntry` says
    "more than maxSize entries"). Reading a present key re-inserts it, which
    makes it the most recent entry. */
module LruCache {
  import opened Optional

  /** One entry of the map. */
  datatype Slot<K, V> = Slot(key: K, value: V)

  /** The entries in insertion order, eldest first, and the configured bound. */
  datatype Cache<K, V> = Cache(maxSize: int, slots: seq<Slot<K, V>>)

  /** What `get` hands back: the cache after the read and the value, if any. */
  datatype Fetched<K, V> = Fetched(cache: Cache<K, V>, value: Option<V>)

  /** The number of entries a cache of this bound can hold; a bound below
      zero behaves as zero, because every insertion is evicted at once. */
  function Capacity(maxSize: int): nat
  {
    if maxSize < 0 then 0 else maxSize
  }

  /** No key occurs twice. */
  predicate DistinctKeys<K(==), V>(slots: seq<Slot<K, V>>)
  {
    forall i, j :: 0 <= i < j < |slots| ==> slots[i].key != slots[j].key
  }

  /** The state every reachable cache is in. */
  predicate Valid<K(==), V>(c: Cache<K, V>)
  {
    DistinctKeys(c.slots) && |c.slots| <= Capacity(c.maxSize)
  }

  /** `new LRUCache(maxSize)`. */
  function Empty<K(==), V>(maxSize: int): (c: Cache<K, V>)
    ensures Valid(c) && c.maxSize == maxSize && |c.slots| == 0
  {
    Cache(maxSize, [])
  }

  /** Where key `k` sits in the order, if anywhere. */
  function Position<K(==), V>(slots: seq<Slot<K, V>>, k: K): (r: Option<nat>)
    ensures r.None? <==> forall i :: 0 <= i < |slots| ==> slots[i].key != k
    ensures r.Some? ==> r.value < |slots| && slots[r.value].key == k
    ensures r.Some? ==> forall i :: 0 <= i < r.value ==> slots[i].key != k
  {
    if slots == [] then None
    else if slots[0].key == k then Some(0)
    else match Position(slots[1..], k)
      case None => None
      case Some(i) => Some(i + 1)
  }

  /** `containsKey`: a query with no effect on the cache. */
  function ContainsKey<K(==), V>(c: Cache<K, V>, k: K): (b: bool)
    ensures b <==> exists i :: 0 <= i < |c.slots| && c.slots[i].key == k
  {
    Position(c.slots, k).Some?
  }

  /** The value stored under `k`, without touching the order (the map's own
      `get`, used inside `LRUCache.get`). */
  function Lookup<K(==), V>(c: Cache<K, V>, k: K): (r: Option<V>)
    ensures r.Some? <==> ContainsKey(c, k)
    ensures r.Some? ==> exists i :: 0 <= i < |c.slots| && c.slots[i] == Slot(k, r.value)
  {
    match Position(c.slots, k)
    case None => None
    case Some(i) => Some(c.slots[i].value)
  }

  /** The entries other than the one for `k`, in their order: the reference
      definition of taking a key out. */
  function Without<K(==), V>(slots: seq<Slot<K, V>>, k: K): (r: seq<Slot<K, V>>)
    ensures |r| <= |slots|
  {
    if slots == [] then []
    else (if slots[0].key == k then [] else [slots[0]]) + Without(slots[1..], k)
  }

  /** The map's `remove(k)`: the entry for `k` is unlinked. */
  function Remove<K(==), V>(c: Cache<K, V>, k: K): (r: Cache<K, V>)
    ensures r.maxSize == c.maxSize
    ensures DistinctKeys(c.slots) ==> r.slots == Without(c.slots, k)
    ensures Valid(c) ==> Valid(r)
  {
    match Position(c.slots, k)
    case None =>
      WithoutAbsent(c.slots, k);
      c
    case Some(i) =>
      RemoveAt(c.slots, k, i);
      CutDistinct(c.slots, i);
      c.(slots := c.slots[..i] + c.slots[i + 1..])
  }

  /** Cutting one entry out keeps the keys distinct and shortens by one. */
  lemma CutDistinct<K, V>(slots: seq<Slot<K, V>>, i: nat)
    requires i < |slots|
    ensures var cut := slots[..i] + slots[i + 1..];
      && |cut| == |slots| - 1
      && (DistinctKeys(slots) ==> DistinctKeys(cut))
  {
    var cut := slots[..i] + slots[i + 1..];
    assert forall j :: 0 <= j < |cut| ==> cut[j] == (if j < i then slots[j] else slots[j + 1]);
  }

  /** Cutting out the only entry for `k` is filtering `k` out. */
  lemma RemoveAt<K, V>(slots: seq<Slot<K, V>>, k: K, i: nat)
    requires i < |slots| && slots[i].key == k
    ensures DistinctKeys(slots) ==> slots[..i] + slots[i + 1..] == Without(slots, k)
  {
    if DistinctKeys(slots) {
      RemoveAtDistinct(slots, k, i);
    }
  }

  lemma {:induction false} RemoveAtDistinct<K, V>(slots: seq<Slot<K, V>>, k: K, i: nat)
    requires DistinctKeys(slots) && i < |slots| && slots[i].key == k
    ensures slots[..i] + slots[i + 1..] == Without(slots, k)
  {
    var tail := slots[1..];
    if i == 0 {
      assert forall j :: 0 <= j < |tail| ==> tail[j].key != k by {
        forall j | 0 <= j < |tail| ensures tail[j].key != k {
          assert tail[j] == slots[j + 1];
        }
      }
      WithoutAbsent(tail, k);
      assert slots[..0] + slots[1..] == tail;
    } else {
      assert DistinctKeys(tail) by {
        forall a, b | 0 <= a < b < |tail| ensures tail[a].key != tail[b].key {
          assert tail[a] == slots[a + 1] && tail[b] == slots[b + 1];
        }
      }
      assert tail[i - 1].key == k;
      RemoveAtDistinct(tail, k, i - 1);
      assert slots[0].key != k;
      assert Without(slots, k) == [slots[0]] + Without(tail, k);
      assert slots[..i] + slots[i + 1..] == [slots[0]] + (tail[..i - 1] + tail[i..]);
    }
  }

  /** Filtering out a key that is not there changes nothing. */
  lemma {:induction false} WithoutAbsent<K, V>(slots: seq<Slot<K, V>>, k: K)
    requires forall i :: 0 <= i < |slots| ==> slots[i].key != k
    ensures Without(slots, k) == slots
  {
    if slots != [] {
      WithoutAbsent(slots[1..], k);
      assert [slots[0]] + slots[1..] == slots;
    }
  }

  /** `put(k, v)`: an existing key keeps its place and takes the new value;
      a new key is appended, and then, when the map holds more than
      `maxSize` entries, the single eldest entry is evicted. */
  function Put<K(==), V>(c: Cache<K, V>, k: K, v: V): (r: Cache<K, V>)
    ensures r.maxSize == c.maxSize
    ensures Valid(c) ==> Valid(r)
  {
    match Position(c.slots, k)
    case Some(i) => c.(slots := c.slots[i := Slot(k, v)])
    case None =>
      var grown := c.slots + [Slot(k, v)];
      if |grown| > c.maxSize then c.(slots := grown[1..]) else c.(slots := grown)
  }

  /** `LRUCache.get(k)`: a present key is removed and put back with its
      value, so it becomes the most recent entry; an absent key gives
      nothing. */
  function Get<K(==), V>(c: Cache<K, V>, k: K): (r: Fetched<K, V>)
    ensures r.value == Lookup(c, k)
    ensures r.cache.maxSize == c.maxSize
    ensures Valid(c) ==> Valid(r.cache)
  {
    match Lookup(c, k)
    case None => Fetched(c, None)
    case Some(v) => Fetched(Put(Remove(c, k), k, v), Some(v))
  }

  /** In a cache without repeated keys, the value found for a key is the one
      of the entry holding it. */
  lemma LookupAt<K, V>(c: Cache<K, V>, i: nat)
    requires DistinctKeys(c.slots) && i < |c.slots|
    ensures Lookup(c, c.slots[i].key) == Some(c.slots[i].value)
  {
  }

  /** With room for at least one entry, reading a key straight after
      writing it yields the written value. */
  lemma GetAfterPut<K, V>(c: Cache<K, V>, k: K, v: V)
    requires Valid(c) && c.maxSize >= 1
    ensures Get(Put(c, k, v), k).value == Some(v)
  {
    var r := Put(c, k, v);
    match Position(c.slots, k)
    case Some(i) =>
      LookupAt(r, i);
    case None =>
      var grown := c.slots + [Slot(k, v)];
      if |grown| > c.maxSize {
        assert r.slots == grown[1..];
        assert r.slots[|r.slots| - 1] == Slot(k, v);
        LookupAt(r, |r.slots| - 1);
      } else {
        LookupAt(r, |c.slots|);
      }
  }

  /** Reading an absent key leaves the contents and the order alone. */
  lemma GetAbsent<K, V>(c: Cache<K, V>, k: K)
    requires !ContainsKey(c, k)
    ensures Get(c, k) == Fetched(c, None)
  {
  }

  /** Reading a present key returns its value, and moves it to the most
      recent end: the other entries keep their relative order and no entry
      is lost. */
  lemma GetPresent<K, V>(c: Cache<K, V>, k: K)
    requires Valid(c) && ContainsKey(c, k)
    ensures var r := Get(c, k);
      && r.value.Some?
      && r.cache.slots == Without(c.slots, k) + [Slot(k, r.value.value)]
      && (forall j :: ContainsKey(r.cache, j) <==> ContainsKey(c, j))
      && |r.cache.slots| == |c.slots|
  {
    var v := Lookup(c, k).value;
    var i := Position(c.slots, k).value;
    RemoveAt(c.slots, k, i);
    var removed := Remove(c, k);
    assert removed.slots == Without(c.slots, k);
    assert |removed.slots| == |c.slots| - 1;
    WithoutKeyAbsent(c.slots, k);
    assert Position(removed.slots, k).None?;
    assert Get(c, k).cache == Put(removed, k, v);
    MovedKeys(c.slots, k, v);
    var r := Get(c, k);
    assert r.cache.slots == Without(c.slots, k) + [Slot(k, v)];
    forall j ensures ContainsKey(r.cache, j) <==> ContainsKey(c, j) {
      assert ContainsKey(r.cache, j) <==> HasKey(r.cache.slots, j);
      assert ContainsKey(c, j) <==> HasKey(c.slots, j);
    }
  }

  /** Some entry holds key `j`. */
  ghost predicate HasKey<K, V>(slots: seq<Slot<K, V>>, j: K)
  {
    exists m :: 0 <= m < |slots| && slots[m].key == j
  }

  /** Moving the entry for `k` to the end, under any value, keeps the set
      of keys. */
  lemma MovedKeys<K, V>(slots: seq<Slot<K, V>>, k: K, v: V)
    requires exists m :: 0 <= m < |slots| && slots[m].key == k
    ensures forall j :: HasKey(Without(slots, k) + [Slot(k, v)], j) <==> HasKey(slots, j)
  {
    var w := Without(slots, k);
    WithoutMembers(slots, k);
    var moved := w + [Slot(k, v)];
    forall j ensures HasKey(moved, j) <==> HasKey(slots, j)
    {
      if HasKey(slots, j) {
        var m :| 0 <= m < |slots| && slots[m].key == j;
        if j != k {
          assert slots[m] in w;
          var n :| 0 <= n < |w| && w[n] == slots[m];
          assert moved[n].key == j;
        } else {
          assert moved[|moved| - 1].key == j;
        }
      }
      if HasKey(moved, j) {
        var n :| 0 <= n < |moved| && moved[n].key == j;
        if n < |w| {
          assert w[n] in slots;
        }
      }
    }
  }

  /** Filtering keeps exactly the entries whose key is not `k`. */
  lemma {:induction false} WithoutMembers<K, V>(slots: seq<Slot<K, V>>, k: K)
    ensures var w := Without(slots, k);
      && (forall i :: 0 <= i < |w| ==> w[i] in slots && w[i].key != k)
      && (forall i :: 0 <= i < |slots| && slots[i].key != k ==> slots[i] in w)
  {
    if slots != [] {
      var tail := slots[1..];
      WithoutMembers(tail, k);
      var head := if slots[0].key == k then [] else [slots[0]];
      var w := Without(slots, k);
      assert w == head + Without(tail, k);
      forall i | 0 <= i < |w| ensures w[i] in slots && w[i].key != k {
        if i >= |head| {
          assert w[i] == Without(tail, k)[i - |head|];
          assert w[i] in tail;
        }
      }
      forall i | 0 <= i < |slots| && slots[i].key != k ensures slots[i] in w {
        if i > 0 {
          assert slots[i] == tail[i - 1];
        }
      }
    }
  }

  /** After filtering out `k`, no entry holds `k`. */
  lemma WithoutKeyAbsent<K, V>(slots: seq<Slot<K, V>>, k: K)
    ensures forall i :: 0 <= i < |Without(slots, k)| ==> Without(slots, k)[i].key != k
  {
    WithoutMembers(slots, k);
  }

  /** Putting a new key into a full cache evicts exactly the eldest entry:
      the other entries keep their order and the new one comes last, so the
      written key reads back, the eldest key is gone, and every other key
      keeps its value. */
  lemma PutOverflow<K, V>(c: Cache<K, V>, k: K, v: V)
    requires Valid(c) && c.maxSize >= 1 && !ContainsKey(c, k)
    requires |c.slots| == c.maxSize
    ensures var r := Put(c, k, v);
      && r.slots == c.slots[1..] + [Slot(k, v)]
      && |r.slots| == |c.slots|
      && !ContainsKey(r, c.slots[0].key)
      && Lookup(r, k) == Some(v)
      && forall j :: j != k && j != c.slots[0].key ==> Lookup(r, j) == Lookup(c, j)
  {
    var r := Put(c, k, v);
    assert r.slots == c.slots[1..] + [Slot(k, v)];
    LookupAt(r, |r.slots| - 1);
    forall j | j != k && j != c.slots[0].key ensures Lookup(r, j) == Lookup(c, j) {
      if ContainsKey(c, j) {
        var m :| 0 <= m < |c.slots| && c.slots[m].key == j;
        LookupAt(c, m);
        assert r.slots[m - 1] == c.slots[m];
        LookupAt(r, m - 1);
      }
    }
  }

  /** Putting a new key into a cache with room appends it and evicts
      nothing. */
  lemma PutFresh<K, V>(c: Cache<K, V>, k: K, v: V)
    requires Valid(c) && !ContainsKey(c, k)
    requires |c.slots| < c.maxSize
    ensures var r := Put(c, k, v);
      && r.slots == c.slots + [Slot(k, v)]
      && Lookup(r, k) == Some(v)
      && forall j :: j != k ==> Lookup(r, j) == Lookup(c, j)
  {
    var r := Put(c, k, v);
    LookupAt(r, |c.slots|);
    forall j | j != k ensures Lookup(r, j) == Lookup(c, j) {
      if ContainsKey(c, j) {
        var m :| 0 <= m < |c.slots| && c.slots[m].key == j;
        LookupAt(c, m);
        LookupAt(r, m);
      }
    }
  }

  /** Putting a key that is present replaces its value in place: the size
      and the key order are unchanged and every other key keeps its value. */
  lemma PutExisting<K, V>(c: Cache<K, V>, k: K, v: V)
    requires Valid(c) && ContainsKey(c, k)
    ensures var r := Put(c, k, v);
      && |r.slots| == |c.slots|
      && (forall i :: 0 <= i < |c.slots| ==> r.slots[i].key == c.slots[i].key)
      && Lookup(r, k) == Some(v)
      && forall j :: j != k ==> Lookup(r, j) == Lookup(c, j)
  {
    var r := Put(c, k, v);
    var i := Position(c.slots, k).value;
    LookupAt(r, i);
    forall j | j != k ensures Lookup(r, j) == Lookup(c, j) {
      if ContainsKey(c, j) {
        var m :| 0 <= m < |c.slots| && c.slots[m].key == j;
        LookupAt(c, m);
        LookupAt(r, m);
      }
    }
  }

  /** A call on the cache, as a client makes it. */
  datatype Call<K, V> = PutCall(key: K, value: V) | GetCall(key: K) | ContainsCall(key: K)

  /** The cache after a series of calls. */
  function Replay<K(==), V>(c: Cache<K, V>, calls: seq<Call<K, V>>): (r: Cache<K, V>)
    ensures r.maxSize == c.maxSize
  {
    if calls == [] then c
    else
      var before := Replay(c, calls[..|calls| - 1]);
      match calls[|calls| - 1]
      case PutCall(k, v) => Put(before, k, v)
      case GetCall(k) => Get(before, k).cache
      case ContainsCall(_) => before
  }

  /** Whatever calls a client makes on a new cache, it never holds more
      than `maxSize` entries, and never the same key twice. */
  lemma {:induction false} NeverOverfull<K, V>(maxSize: int, calls: seq<Call<K, V>>)
    ensures Valid(Replay(Empty(maxSize), calls))
    ensures |Replay(Empty(maxSize), calls).slots| <= Capacity(maxSize)
  {
    if calls != [] {
      NeverOverfull(maxSize, calls[..|calls| - 1]);
    }
    assert Valid(Replay(Empty(maxSize), calls));
  }
}
