/** Sequence helpers shared by the clustering model: the ordered list of
    positions whose element satisfies a predicate. */
module Seqs {

  /** True when the positions in `ps` are strictly increasing. */
  predicate Increasing(ps: seq<nat>)
  {
    forall j, k :: 0 <= j < k < |ps| ==> ps[j] < ps[k]
  }

  /** The positions of `s`, in ascending order, whose element satisfies `f`.
      This is the order in which a front-to-back pass over `s` meets them. */
  function Where<T>(f: T -> bool, s: seq<T>): (r: seq<nat>)
    ensures forall j :: 0 <= j < |r| ==> r[j] < |s| && f(s[r[j]])
    ensures forall i :: 0 <= i < |s| && f(s[i]) ==> i in r
    ensures Increasing(r)
    ensures |r| <= |s|
  {
    if s == [] then []
    else Where(f, s[..|s| - 1]) + (if f(s[|s| - 1]) then [|s| - 1] else [])
  }

  /** Extending a prefix by one element adds at most its position. */
  lemma WherePrefix<T>(f: T -> bool, s: seq<T>, n: nat)
    requires 0 < n <= |s|
    ensures Where(f, s[..n]) == Where(f, s[..n - 1]) + (if f(s[n - 1]) then [n - 1] else [])
  {
    assert s[..n][..n - 1] == s[..n - 1];
  }

  /** On a one-element sequence the positions are [0] or none. */
  lemma WhereSingleton<T>(f: T -> bool, x: T)
    ensures Where(f, [x]) == (if f(x) then [0] else [])
  {
    assert [x][..0] == [];
  }

  /** Putting a smaller element in front keeps a sequence increasing. */
  lemma IncreasingCons(x: nat, s: seq<nat>)
    requires Increasing(s) && forall y :: y in s ==> x < y
    ensures Increasing([x] + s)
  {
    var r := [x] + s;
    forall j, k | 0 <= j < k < |r| ensures r[j] < r[k] {
      if j == 0 {
        assert r[k] == s[k - 1];
        assert s[k - 1] in s;
      } else {
        assert r[j] == s[j - 1] && r[k] == s[k - 1];
      }
    }
  }
}
