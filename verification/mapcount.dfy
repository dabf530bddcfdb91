/** A counter of occurrences per key (`MapCount`) and its listing of
    (key, count) pairs by non-increasing count. */
module MapCount {

  /** A key with its count, one line of the listing. */
  datatype Pair<T> = Pair(key: T, count: nat)

  /** `incr(k)`: a key seen for the first time gets count 1, a known key
      one more than before; nothing else changes. */
  function Incr<T>(counter: map<T, nat>, k: T): (r: map<T, nat>)
    ensures r.Keys == counter.Keys + {k}
    ensures r[k] == (if k in counter then counter[k] + 1 else 1)
    ensures forall j :: j in counter && j != k ==> r[j] == counter[j]
  {
    if k in counter then counter[k := counter[k] + 1] else counter[k := 1]
  }

  /** The counter after `incr` has been called on each key of `ks` in turn. */
  function IncrAll<T>(counter: map<T, nat>, ks: seq<T>): map<T, nat>
  {
    if ks == [] then counter else Incr(IncrAll(counter, ks[..|ks| - 1]), ks[|ks| - 1])
  }

  /** Starting from an empty counter, the count of every key is the number
      of times it was passed to `incr`, and only passed keys are present. */
  lemma {:induction false} CountsAreMultiplicities<T>(ks: seq<T>)
    ensures forall j :: j in IncrAll(map[], ks) <==> j in multiset(ks)
    ensures forall j :: j in IncrAll(map[], ks) ==> IncrAll(map[], ks)[j] == multiset(ks)[j]
  {
    if ks != [] {
      var init := ks[..|ks| - 1];
      CountsAreMultiplicities(init);
      assert ks == init + [ks[|ks| - 1]];
      assert multiset(ks) == multiset(init) + multiset{ks[|ks| - 1]};
    }
  }

  /** The sum of all counts. */
  ghost function Total<T>(counter: map<T, nat>): nat
    decreases |counter.Keys|
  {
    if counter == map[] then 0
    else
      var k :| k in counter;
      counter[k] + Total(counter - {k})
  }

  /** The sum can be taken apart at any key, whichever one `Total` picks. */
  lemma {:induction false} TotalAt<T>(counter: map<T, nat>, k: T)
    requires k in counter
    ensures Total(counter) == counter[k] + Total(counter - {k})
    decreases |counter.Keys|
  {
    var p :| p in counter && Total(counter) == counter[p] + Total(counter - {p});
    if p != k {
      var rest := counter - {p};
      assert k in rest;
      TotalAt(rest, k);
      var both := rest - {k};
      var restK := counter - {k};
      assert p in restK;
      TotalAt(restK, p);
      assert restK - {p} == both;
    }
  }

  /** Every `incr` adds exactly one to the sum of counts. */
  lemma IncrTotal<T>(counter: map<T, nat>, k: T)
    ensures Total(Incr(counter, k)) == Total(counter) + 1
  {
    var r := Incr(counter, k);
    TotalAt(r, k);
    assert r - {k} == counter - {k};
    if k in counter {
      TotalAt(counter, k);
    } else {
      assert counter - {k} == counter;
    }
  }

  /** So the sum of counts equals the number of `incr` calls. */
  lemma {:induction false} TotalIsCalls<T>(ks: seq<T>)
    ensures Total(IncrAll(map[], ks)) == |ks|
  {
    if ks != [] {
      TotalIsCalls(ks[..|ks| - 1]);
      IncrTotal(IncrAll(map[], ks[..|ks| - 1]), ks[|ks| - 1]);
    }
  }

  /** Ordered by non-increasing count. */
  predicate Descending<T>(s: seq<Pair<T>>)
  {
    forall i, j :: 0 <= i < j < |s| ==> s[i].count >= s[j].count
  }

  /** The number of leading pairs whose count is at least `p`'s: where a
      stable sort by descending count puts `p` among them. */
  function Spot<T>(s: seq<Pair<T>>, p: Pair<T>): (q: nat)
    ensures q <= |s|
    ensures forall i :: 0 <= i < q ==> s[i].count >= p.count
    ensures q < |s| ==> s[q].count < p.count
  {
    if s == [] || s[0].count < p.count then 0 else 1 + Spot(s[1..], p)
  }

  /** `p` inserted after every pair of at least its count. */
  function Insert<T>(s: seq<Pair<T>>, p: Pair<T>): (r: seq<Pair<T>>)
    requires Descending(s)
    ensures |r| == |s| + 1
    ensures Descending(r)
    ensures forall i :: 0 <= i < |r| ==> r[i] == p || r[i] in s
    ensures p in r && forall i :: 0 <= i < |s| ==> s[i] in r
    ensures multiset(r) == multiset(s) + multiset{p}
  {
    var q := Spot(s, p);
    SplicedAt(s, q, p);
    SplicedMultiset(s, q, p);
    s[..q] + [p] + s[q..]
  }

  /** Where each element of `s` with `p` spliced in at `q` comes from. */
  lemma SplicedAt<T>(s: seq<Pair<T>>, q: nat, p: Pair<T>)
    requires q <= |s|
    ensures var r := s[..q] + [p] + s[q..];
      && |r| == |s| + 1
      && (forall i :: 0 <= i < q ==> r[i] == s[i])
      && r[q] == p
      && (forall i :: q < i < |r| ==> r[i] == s[i - 1])
  {
    var r := s[..q] + [p] + s[q..];
    forall i | q < i < |r| ensures r[i] == s[i - 1] {
      assert r[i] == s[q..][i - q - 1];
    }
  }

  /** Splicing `p` in adds exactly one occurrence of `p`. */
  lemma SplicedMultiset<T>(s: seq<Pair<T>>, q: nat, p: Pair<T>)
    requires q <= |s|
    ensures multiset(s[..q] + [p] + s[q..]) == multiset(s) + multiset{p}
  {
    calc {
      multiset(s[..q] + [p] + s[q..]);
      multiset(s[..q]) + multiset{p} + multiset(s[q..]);
      multiset(s[..q] + s[q..]) + multiset{p};
      { assert s[..q] + s[q..] == s; }
      multiset(s) + multiset{p};
    }
  }

  /** The keys listed in `out`. */
  function Listed<T>(out: seq<Pair<T>>): set<T>
  {
    set i | 0 <= i < |out| :: out[i].key
  }

  /** No key is listed twice. */
  predicate ListedOnce<T(==)>(out: seq<Pair<T>>)
  {
    forall i, j :: 0 <= i < j < |out| ==> out[i].key != out[j].key
  }

  /** Inserting a pair whose key is not listed keeps every key listed once. */
  lemma InsertOnce<T>(s: seq<Pair<T>>, p: Pair<T>)
    requires Descending(s) && ListedOnce(s) && p.key !in Listed(s)
    ensures ListedOnce(Insert(s, p))
  {
    var q := Spot(s, p);
    var r := Insert(s, p);
    SplicedAt(s, q, p);
    assert r == s[..q] + [p] + s[q..];
    forall i, j | 0 <= i < j < |r| ensures r[i].key != r[j].key {
      if i == q {
        assert r[j] == s[j - 1];
        assert s[j - 1].key in Listed(s);
      } else if j == q {
        assert r[i] == s[i];
        assert s[i].key in Listed(s);
      } else {
        var a := if i < q then i else i - 1;
        var b := if j < q then j else j - 1;
        assert r[i] == s[a] && r[j] == s[b] && a < b;
      }
    }
  }

  /** Inserting a pair adds exactly its key to the listed keys. */
  lemma InsertListed<T>(s: seq<Pair<T>>, p: Pair<T>)
    requires Descending(s)
    ensures Listed(Insert(s, p)) == Listed(s) + {p.key}
  {
    var r := Insert(s, p);
    forall x | x in Listed(s) ensures x in Listed(r) {
      var i :| 0 <= i < |s| && s[i].key == x;
      assert s[i] in r;
    }
    forall x | x in Listed(r) ensures x in Listed(s) + {p.key} {
      var i :| 0 <= i < |r| && r[i].key == x;
      if r[i] != p {
        var j :| 0 <= j < |s| && s[j] == r[i];
      }
    }
    var n :| 0 <= n < |r| && r[n] == p;
  }

  /** The loop of `getSortedCounts` part-way: `out` lists, in order and
      once each, exactly the keys no longer `remaining`, with their counts. */
  predicate Progress<T(==)>(counter: map<T, nat>, remaining: set<T>, out: seq<Pair<T>>)
  {
    && remaining <= counter.Keys
    && Descending(out) && ListedOnce(out)
    && Listed(out) == counter.Keys - remaining
    && |out| + |remaining| == |counter|
    && forall i :: 0 <= i < |out| ==> out[i].key in counter && out[i].count == counter[out[i].key]
  }

  /** Listing one more remaining key keeps the loop's progress. */
  lemma ProgressStep<T>(counter: map<T, nat>, remaining: set<T>, out: seq<Pair<T>>, k: T)
    requires Progress(counter, remaining, out) && k in remaining
    ensures Progress(counter, remaining - {k}, Insert(out, Pair(k, counter[k])))
  {
    var p := Pair(k, counter[k]);
    assert k !in Listed(out);
    InsertOnce(out, p);
    InsertListed(out, p);
    assert |remaining - {k}| == |remaining| - 1;
    InsertCounted(counter, out, k);
  }

  /** Inserting a key with its count keeps every listed count current. */
  lemma InsertCounted<T>(counter: map<T, nat>, out: seq<Pair<T>>, k: T)
    requires Descending(out) && k in counter
    requires forall i :: 0 <= i < |out| ==> out[i].key in counter && out[i].count == counter[out[i].key]
    ensures var r := Insert(out, Pair(k, counter[k]));
      forall i :: 0 <= i < |r| ==> r[i].key in counter && r[i].count == counter[r[i].key]
  {
    var p := Pair(k, counter[k]);
    var r := Insert(out, p);
    forall i | 0 <= i < |r| ensures r[i].key in counter && r[i].count == counter[r[i].key] {
      if r[i] != p {
        var j :| 0 <= j < |out| && out[j] == r[i];
      }
    }
  }

  /** `getSortedCounts`: every counted key exactly once, with its count,
      ordered by non-increasing count. The counter itself is a value and
      is not changed. */
  method SortedCounts<T>(counter: map<T, nat>) returns (out: seq<Pair<T>>)
    ensures |out| == |counter|
    ensures Descending(out)
    ensures ListedOnce(out)
    ensures Listed(out) == counter.Keys
    ensures forall i :: 0 <= i < |out| ==> out[i].key in counter && out[i].count == counter[out[i].key]
  {
    out := [];
    var remaining := counter.Keys;
    while remaining != {}
      invariant Progress(counter, remaining, out)
      decreases |remaining|
    {
      var k :| k in remaining;
      ProgressStep(counter, remaining, out, k);
      out := Insert(out, Pair(k, counter[k]));
      remaining := remaining - {k};
    }
  }
}
