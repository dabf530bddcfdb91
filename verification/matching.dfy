/** The second pass of src/java/io/compgen/cgseq/cli/sv/Translocations.java
    (`findReciprocalMatches`, `dump`) over the finalized index. Candidates
    are addressed by handle: a handle is a position in the index, and a
    reciprocal link is a handle. Combining into a target rewrites the entry
    at the target's handle but never its key. */
module Matching {
  import opened Optional
  import opened Spans
  import opened Seqs
  import opened Candidate
  import opened Clustering

  /** The index query `findAnnotation`: the handles of all entries whose key
      overlaps `span`, in index order; `QueryIsWhere` shows it is the
      position filter `Where(KeyOverlaps(span), index)`. */
  function Query(index: seq<Annotation>, span: Span): (r: seq<nat>)
    ensures Increasing(r)
    ensures forall j :: 0 <= j < |r| ==> r[j] < |index|
    ensures forall h: nat :: h in r <==> h < |index| && Overlaps(index[h].key, span)
  {
    if index == [] then []
    else
      var last := |index| - 1;
      Query(index[..last], span) + (if Overlaps(index[last].key, span) then [last] else [])
  }

  /** The test `findAnnotation` applies to each entry. */
  function KeyOverlaps(span: Span): Annotation -> bool
  {
    (a: Annotation) => Overlaps(a.key, span)
  }

  /** The query is the position filter of the index by `KeyOverlaps`. */
  lemma {:induction false} QueryIsWhere(index: seq<Annotation>, span: Span)
    ensures Query(index, span) == Where(KeyOverlaps(span), index)
    decreases |index|
  {
    if index != [] {
      QueryIsWhere(index[..|index| - 1], span);
    }
  }

  /** Every handle in `hs` is a position of `index`. */
  predicate InRange(index: seq<Annotation>, hs: seq<nat>)
  {
    forall j :: 0 <= j < |hs| ==> hs[j] < |index|
  }

  /** Every reciprocal link in the index points into the index. */
  predicate WellLinked(index: seq<Annotation>)
  {
    forall h :: 0 <= h < |index| && index[h].value.reciprocal.Some? ==>
      index[h].value.reciprocal.value < |index|
  }

  /** The reciprocal condition: the potential partner `p`, an entry of the
      index, points back to where `t` starts. */
  predicate Matches(index: seq<Annotation>, t: nat, p: nat)
  {
    t < |index| && p < |index| && Overlaps(index[t].value.from, index[p].value.to)
  }

  /** The potentials that satisfy the reciprocal condition, in order. */
  function MatchedHandles(index: seq<Annotation>, t: nat, ps: seq<nat>): (r: seq<nat>)
    ensures InRange(index, r)
    ensures forall h :: h in r <==> h in ps && Matches(index, t, h)
    ensures Increasing(ps) ==> Increasing(r)
  {
    if ps == [] then []
    else
      var rest := MatchedHandles(index, t, ps[1..]);
      assert Increasing(ps) ==> Increasing([ps[0]] + rest) && Increasing(rest) by {
        if Increasing(ps) {
          assert Increasing(ps[1..]);
          forall x | x in rest ensures ps[0] < x {
            var k :| 0 <= k < |ps[1..]| && ps[1..][k] == x;
            assert ps[k + 1] == x;
          }
          IncreasingCons(ps[0], rest);
        }
      }
      (if Matches(index, t, ps[0]) then [ps[0]] else []) + rest
  }

  /** Folds the candidates at handles `hs`, in order, into `c`. */
  function FoldInto(c: Translocation, index: seq<Annotation>, hs: seq<nat>): Translocation
    requires InRange(index, hs)
    decreases |hs|
  {
    if hs == [] then c else FoldInto(Combine(c, index[hs[0]].value), index, hs[1..])
  }

  /** `target.combine(potential)`, on handles: the entry at `target` keeps
      its key and gets the combined candidate; no other entry changes. */
  function CombineInto(index: seq<Annotation>, target: nat, p: nat): (r: seq<Annotation>)
    requires target < |index| && p < |index|
    ensures |r| == |index|
    ensures r[target].key == index[target].key
    ensures r[target].value == Combine(index[target].value, index[p].value)
    ensures forall h :: 0 <= h < |index| && h != target ==> r[h] == index[h]
  {
    index[target := Annotation(index[target].key, Combine(index[target].value, index[p].value))]
  }

  datatype ScanResult = ScanResult(index: seq<Annotation>, target: Option<nat>)

  /** The inner loop of `findReciprocalMatches` for entry `t` over the
      potentials still to visit: the first one that satisfies the reciprocal
      condition becomes the target and every later one that satisfies it is
      combined into the target. The condition is checked against the current
      state, so a combine into `t` itself is seen by later tests. */
  function Scan(index: seq<Annotation>, t: nat, ps: seq<nat>, target: Option<nat>): (r: ScanResult)
    requires target.Some? ==> target.value < |index|
    ensures |r.index| == |index|
    ensures r.target.Some? ==> r.target.value < |index|
    ensures target.Some? ==> r.target == target
    ensures r.target.Some? && target.None? ==> r.target.value in ps && Matches(index, t, r.target.value)
    decreases |ps|
  {
    if ps == [] then ScanResult(index, target)
    else if !Matches(index, t, ps[0]) then Scan(index, t, ps[1..], target)
    else if target.None? then Scan(index, t, ps[1..], Some(ps[0]))
    else Scan(CombineInto(index, target.value, ps[0]), t, ps[1..], target)
  }

  /** Once chosen, the target never changes; the keys and the reciprocal
      links of all entries are untouched, and every entry other than the
      final target is unchanged. */
  lemma {:induction false} ScanFrame(index: seq<Annotation>, t: nat, ps: seq<nat>, target: Option<nat>)
    requires t < |index| && InRange(index, ps) && Increasing(ps)
    requires target.Some? ==> target.value < |index| && target.value !in ps
    ensures var r := Scan(index, t, ps, target);
      && (target.Some? ==> r.target == target)
      && (forall h :: 0 <= h < |index| ==> r.index[h].key == index[h].key)
      && (forall h :: 0 <= h < |index| ==> r.index[h].value.reciprocal == index[h].value.reciprocal)
      && (forall h :: 0 <= h < |index| && (r.target.None? || h != r.target.value) ==> r.index[h] == index[h])
    decreases |ps|
  {
    if ps != [] {
      if !Matches(index, t, ps[0]) {
        ScanFrame(index, t, ps[1..], target);
      } else if target.None? {
        ScanFrame(index, t, ps[1..], Some(ps[0]));
      } else {
        var next := CombineInto(index, target.value, ps[0]);
        ScanFrame(next, t, ps[1..], target);
      }
    }
  }

  /** With no target yet, the target found is the first potential that
      satisfies the reciprocal condition, and there is one exactly when
      some potential does. */
  lemma {:induction false} ScanFirst(index: seq<Annotation>, t: nat, ps: seq<nat>)
    requires t < |index| && InRange(index, ps) && Increasing(ps)
    ensures var ms := MatchedHandles(index, t, ps);
      Scan(index, t, ps, None).target == if ms == [] then None else Some(ms[0])
    decreases |ps|
  {
    if ps != [] {
      if !Matches(index, t, ps[0]) {
        ScanFirst(index, t, ps[1..]);
      } else {
        ScanFrame(index, t, ps[1..], Some(ps[0]));
      }
    }
  }

  /** Read sets only grow; the target ends up holding the reads of every
      potential that satisfied the reciprocal condition on entry (the test
      only gets easier as `t` grows, when `t` is its own target). */
  lemma {:induction false} ScanReads(index: seq<Annotation>, t: nat, ps: seq<nat>, target: Option<nat>)
    requires t < |index| && InRange(index, ps) && Increasing(ps)
    requires target.Some? ==> target.value < |index| && target.value !in ps
    ensures var r := Scan(index, t, ps, target);
      && (forall h :: 0 <= h < |index| ==> index[h].value.readNames <= r.index[h].value.readNames)
      && (r.target.Some? ==> forall j :: 0 <= j < |ps| && Matches(index, t, ps[j]) ==>
            index[ps[j]].value.readNames <= r.index[r.target.value].value.readNames)
    decreases |ps|
  {
    if ps != [] {
      var rest := ps[1..];
      assert forall j :: 1 <= j < |ps| ==> ps[j] == rest[j - 1];
      if !Matches(index, t, ps[0]) {
        ScanReads(index, t, rest, target);
      } else if target.None? {
        ScanReads(index, t, rest, Some(ps[0]));
        ScanFrame(index, t, rest, Some(ps[0]));
      } else {
        var g := target.value;
        var next := CombineInto(index, g, ps[0]);
        ScanReads(next, t, rest, target);
        ScanFrame(next, t, rest, target);
        forall j | 1 <= j < |ps| && Matches(index, t, ps[j])
          ensures Matches(next, t, ps[j])
        {
          assert ps[j] != g;
          if t == g {
            OverlapsWiden(index[t].value.from, next[t].value.from, index[ps[j]].value.to);
          }
        }
      }
    }
  }

  /** When the target is some other entry than `t`, `t` never changes, so
      the tests are fixed on entry and the target ends up as its old value
      with every later match combined into it, in order. */
  lemma ScanFold(index: seq<Annotation>, t: nat, ps: seq<nat>, g: nat)
    requires t < |index| && g < |index| && g !in ps && g != t
    ensures Scan(index, t, ps, Some(g)).index[g].value
            == FoldInto(index[g].value, index, MatchedHandles(index, t, ps))
  {
    ScanFoldFrom(index, index, t, ps, g);
  }

  /** The induction behind `ScanFold`: the state `cur` differs from `orig`
      at most at the target, so every test comes out as it did on `orig`
      and each passing potential is combined in as it was in `orig`. */
  lemma {:induction false} ScanFoldFrom(orig: seq<Annotation>, cur: seq<Annotation>, t: nat, ps: seq<nat>, g: nat)
    requires t < |orig| && g < |orig| && g !in ps && g != t && |cur| == |orig|
    requires forall h :: 0 <= h < |orig| && h != g ==> cur[h] == orig[h]
    ensures Scan(cur, t, ps, Some(g)).index[g].value
            == FoldInto(cur[g].value, orig, MatchedHandles(orig, t, ps))
    decreases |ps|
  {
    if ps != [] {
      var rest := ps[1..];
      var p := ps[0];
      assert g !in rest by { assert forall j :: 0 <= j < |rest| ==> rest[j] == ps[j + 1]; }
      assert Matches(cur, t, p) == Matches(orig, t, p);
      if !Matches(orig, t, p) {
        ScanFoldFrom(orig, cur, t, rest, g);
        assert Scan(cur, t, ps, Some(g)) == Scan(cur, t, rest, Some(g));
        assert MatchedHandles(orig, t, ps) == MatchedHandles(orig, t, rest);
      } else {
        var next := CombineInto(cur, g, p);
        ScanFoldFrom(orig, next, t, rest, g);
        ScanPass(cur, t, ps, g);
        MatchedPass(orig, t, ps);
        FoldCons(cur[g].value, orig, p, MatchedHandles(orig, t, rest));
      }
    }
  }

  /** A passing potential is combined into an existing target. */
  lemma ScanPass(index: seq<Annotation>, t: nat, ps: seq<nat>, g: nat)
    requires g < |index| && ps != [] && Matches(index, t, ps[0])
    ensures Scan(index, t, ps, Some(g)) == Scan(CombineInto(index, g, ps[0]), t, ps[1..], Some(g))
  {
  }

  /** A passing potential heads the matched handles. */
  lemma MatchedPass(index: seq<Annotation>, t: nat, ps: seq<nat>)
    requires ps != [] && Matches(index, t, ps[0])
    ensures MatchedHandles(index, t, ps) == [ps[0]] + MatchedHandles(index, t, ps[1..])
  {
  }

  /** Folding a leading handle is combining it first. */
  lemma FoldCons(c: Translocation, index: seq<Annotation>, h: nat, hs: seq<nat>)
    requires h < |index| && InRange(index, hs)
    ensures InRange(index, [h] + hs)
    ensures FoldInto(c, index, [h] + hs) == FoldInto(Combine(c, index[h].value), index, hs)
  {
    assert ([h] + hs)[1..] == hs;
  }

  /** Folding unites the read sets, adds up the strand counters and grows
      both spans (on the folded-into candidate's references) to enclose
      every folded candidate's spans. */
  lemma {:induction false} FoldIntoCovers(c: Translocation, index: seq<Annotation>, hs: seq<nat>)
    requires InRange(index, hs)
    ensures var r := FoldInto(c, index, hs);
      && (forall n :: ContainsRead(r, n) <==>
            ContainsRead(c, n) || exists j :: 0 <= j < |hs| && ContainsRead(index[hs[j]].value, n))
      && r.from.ref == c.from.ref && r.to.ref == c.to.ref
      && Encloses(r.from, c.from) && Encloses(r.to, c.to)
      && (forall j :: 0 <= j < |hs| ==>
            Encloses(r.from, index[hs[j]].value.from) && Encloses(r.to, index[hs[j]].value.to))
      && r.reciprocal == c.reciprocal
    decreases |hs|
  {
    if hs != [] {
      var c1 := Combine(c, index[hs[0]].value);
      FoldIntoCovers(c1, index, hs[1..]);
      var r := FoldInto(c, index, hs);
      assert r == FoldInto(c1, index, hs[1..]);
      assert forall j :: 1 <= j < |hs| ==> hs[j] == hs[1..][j - 1];
      forall n ensures ContainsRead(r, n) <==>
          ContainsRead(c, n) || exists j :: 0 <= j < |hs| && ContainsRead(index[hs[j]].value, n)
      {
        if exists j :: 0 <= j < |hs| && ContainsRead(index[hs[j]].value, n) {
          var j :| 0 <= j < |hs| && ContainsRead(index[hs[j]].value, n);
          if j > 0 { assert hs[1..][j - 1] == hs[j]; }
        }
        if exists j :: 0 <= j < |hs[1..]| && ContainsRead(index[hs[1..][j]].value, n) {
          var j :| 0 <= j < |hs[1..]| && ContainsRead(index[hs[1..][j]].value, n);
          assert hs[j + 1] == hs[1..][j];
        }
      }
    }
  }

  /** The potentials for `t`: the handles whose key overlaps t's to-span. */
  function Potentials(index: seq<Annotation>, t: nat): seq<nat>
    requires t < |index|
  {
    Query(index, index[t].value.to)
  }

  /** While every key is still its entry's from-span, as `done` files them,
      the matched potentials are mutual: `p` is a potential of `t` that
      points back to it exactly when `t` is one of `p` that points back. */
  lemma MatchedPotentialMutual(index: seq<Annotation>, t: nat, p: nat)
    requires t < |index| && p < |index|
    requires index[t].key == index[t].value.from && index[p].key == index[p].value.from
    ensures p in Potentials(index, t) && Matches(index, t, p) <==>
            t in Potentials(index, p) && Matches(index, p, t)
  {
    OverlapsSymmetric(index[t].value.from, index[p].value.to);
    OverlapsSymmetric(index[p].value.from, index[t].value.to);
  }

  /** One iteration of the outer loop of `findReciprocalMatches`: an entry
      that is already linked is skipped; otherwise the potentials are
      scanned and, when a target was found, `t` is linked to it. */
  function MatchOne(index: seq<Annotation>, t: nat): (r: seq<Annotation>)
    requires t < |index|
    ensures |r| == |index|
    ensures index[t].value.reciprocal.None? && r[t].value.reciprocal.Some? ==>
              r[t].value.reciprocal.value < |index|
  {
    if index[t].value.reciprocal.Some? then index
    else
      var ps := Potentials(index, t);
      var s := Scan(index, t, ps, None);
      ScanFrame(index, t, ps, None);
      match s.target
      case None => s.index
      case Some(g) => s.index[t := Annotation(s.index[t].key, SetReciprocal(s.index[t].value, g))]
  }

  /** One iteration skips an entry that is already linked, keeps every key
      and every other entry's link, and keeps the index well linked. */
  lemma MatchOneFrame(index: seq<Annotation>, t: nat)
    requires t < |index|
    ensures var r := MatchOne(index, t);
      && (index[t].value.reciprocal.Some? ==> r == index)
      && (forall h :: 0 <= h < |index| ==> r[h].key == index[h].key)
      && (forall h :: 0 <= h < |index| && h != t ==> r[h].value.reciprocal == index[h].value.reciprocal)
      && (WellLinked(index) ==> WellLinked(r))
  {
    if index[t].value.reciprocal.None? {
      ScanFrame(index, t, Potentials(index, t), None);
    }
  }

  /** An unlinked entry gets linked exactly when some entry whose key
      overlaps its to-span has a to-span overlapping its from-span, and the
      link goes to the first such entry in index order. */
  lemma MatchOneLinks(index: seq<Annotation>, t: nat)
    requires t < |index| && index[t].value.reciprocal.None?
    ensures var r := MatchOne(index, t);
      && (r[t].value.reciprocal.Some? <==>
            exists p :: 0 <= p < |index| && Overlaps(index[p].key, index[t].value.to) && Matches(index, t, p))
      && (r[t].value.reciprocal.Some? ==>
            var g := r[t].value.reciprocal.value;
            && g < |index| && Overlaps(index[g].key, index[t].value.to) && Matches(index, t, g)
            && forall p :: 0 <= p < g && Overlaps(index[p].key, index[t].value.to) ==> !Matches(index, t, p))
  {
    var ps := Potentials(index, t);
    var ms := MatchedHandles(index, t, ps);
    ScanFirst(index, t, ps);
    ScanFrame(index, t, ps, None);
    var r := MatchOne(index, t);
    if ms != [] {
      assert ms[0] in ms;
      var g := ms[0];
      assert r[t].value.reciprocal == Some(g);
    } else {
      forall p | 0 <= p < |index| && Overlaps(index[p].key, index[t].value.to)
        ensures !Matches(index, t, p)
      {
        assert p in ps;
      }
    }
  }

  /** When no potential satisfies the reciprocal condition, one iteration
      changes nothing at all. */
  lemma MatchOneNoMatch(index: seq<Annotation>, t: nat)
    requires t < |index| && index[t].value.reciprocal.None?
    requires MatchedHandles(index, t, Potentials(index, t)) == []
    ensures MatchOne(index, t) == index
  {
    var ps := Potentials(index, t);
    ScanFirst(index, t, ps);
    ScanFrame(index, t, ps, None);
    var s := Scan(index, t, ps, None);
    assert s.index == index;
  }

  /** When `t` is linked to another entry g, `t` changes only in its link,
      g becomes its old value combined with every later match in index
      order (its key unchanged), and every other entry is untouched. */
  lemma MatchOneMerges(index: seq<Annotation>, t: nat)
    requires t < |index| && index[t].value.reciprocal.None?
    requires var ms := MatchedHandles(index, t, Potentials(index, t)); ms != [] && ms[0] != t
    ensures var r := MatchOne(index, t); var ms := MatchedHandles(index, t, Potentials(index, t));
      && r[t] == Annotation(index[t].key, SetReciprocal(index[t].value, ms[0]))
      && r[ms[0]] == Annotation(index[ms[0]].key, FoldInto(index[ms[0]].value, index, ms[1..]))
      && forall h :: 0 <= h < |index| && h != t && h != ms[0] ==> r[h] == index[h]
  {
    var ps := Potentials(index, t);
    var ms := MatchedHandles(index, t, ps);
    var g := ms[0];
    MergedTarget(index, t, ps);
    ScanFirst(index, t, ps);
    ScanFrame(index, t, ps, None);
    var s := Scan(index, t, ps, None);
    assert s.target == Some(g);
    assert s.index[t] == index[t];
  }

  /** The target's final value, for a target other than `t`. */
  lemma MergedTarget(index: seq<Annotation>, t: nat, ps: seq<nat>)
    requires t < |index| && InRange(index, ps) && Increasing(ps)
    requires var ms := MatchedHandles(index, t, ps); ms != [] && ms[0] != t
    ensures var ms := MatchedHandles(index, t, ps);
      Scan(index, t, ps, None).index[ms[0]].value == FoldInto(index[ms[0]].value, index, ms[1..])
  {
    var ms := MatchedHandles(index, t, ps);
    var g := ms[0];
    assert g in ms;
    var j :| 0 <= j < |ps| && ps[j] == g;
    assert forall k :: 0 <= k < j ==> !Matches(index, t, ps[k]);
    ScanSkip(index, t, ps, j);
    assert g !in ps[j + 1..] by {
      forall k | j + 1 <= k < |ps| ensures ps[k] != g { assert ps[j] < ps[k]; }
    }
    ScanFold(index, t, ps[j + 1..], g);
    MatchedSkip(index, t, ps, j);
  }

  /** Potentials before the first match change nothing. */
  lemma {:induction false} ScanSkip(index: seq<Annotation>, t: nat, ps: seq<nat>, j: nat)
    requires t < |index| && InRange(index, ps) && Increasing(ps)
    requires j < |ps| && Matches(index, t, ps[j])
    requires forall k :: 0 <= k < j ==> !Matches(index, t, ps[k])
    ensures Scan(index, t, ps, None) == Scan(index, t, ps[j + 1..], Some(ps[j]))
    decreases j
  {
    if j > 0 {
      assert ps[1..][j - 1..] == ps[j..];
      assert ps[1..][j..] == ps[j + 1..];
      ScanSkip(index, t, ps[1..], j - 1);
    } else {
      assert ps[1..] == ps[j + 1..];
    }
  }

  /** The matched handles from the first match on are that match followed
      by the matches after it. */
  lemma {:induction false} MatchedSkip(index: seq<Annotation>, t: nat, ps: seq<nat>, j: nat)
    requires t < |index| && InRange(index, ps)
    requires j < |ps| && Matches(index, t, ps[j])
    requires forall k :: 0 <= k < j ==> !Matches(index, t, ps[k])
    ensures MatchedHandles(index, t, ps) == [ps[j]] + MatchedHandles(index, t, ps[j + 1..])
    decreases j
  {
    if j > 0 {
      assert ps[1..][j..] == ps[j + 1..];
      MatchedSkip(index, t, ps[1..], j - 1);
    } else {
      assert ps[1..] == ps[j + 1..];
    }
  }

  /** Read sets only grow in one iteration. */
  lemma MatchOneGrows(index: seq<Annotation>, t: nat, h: nat)
    requires t < |index| && h < |index|
    ensures index[h].value.readNames <= MatchOne(index, t)[h].value.readNames
  {
    if index[t].value.reciprocal.None? {
      var ps := Potentials(index, t);
      ScanReads(index, t, ps, None);
      ScanFrame(index, t, ps, None);
    }
  }

  /** Read sets only grow in one iteration, and a linked target holds the
      reads of every potential that satisfied the reciprocal condition,
      also when `t` is its own target. */
  lemma MatchOneReads(index: seq<Annotation>, t: nat)
    requires t < |index|
    ensures var r := MatchOne(index, t);
      && (forall h :: 0 <= h < |index| ==> index[h].value.readNames <= r[h].value.readNames)
      && (index[t].value.reciprocal.None? && r[t].value.reciprocal.Some? ==>
            forall p :: 0 <= p < |index| && Overlaps(index[p].key, index[t].value.to) && Matches(index, t, p) ==>
              index[p].value.readNames <= r[r[t].value.reciprocal.value].value.readNames)
  {
    if index[t].value.reciprocal.None? {
      var ps := Potentials(index, t);
      ScanReads(index, t, ps, None);
      ScanFrame(index, t, ps, None);
      var s := Scan(index, t, ps, None);
      var r := MatchOne(index, t);
      if s.target.Some? {
        var g := s.target.value;
        forall p | 0 <= p < |index| && Overlaps(index[p].key, index[t].value.to) && Matches(index, t, p)
          ensures index[p].value.readNames <= r[g].value.readNames
        {
          assert p in ps;
          var j :| 0 <= j < |ps| && ps[j] == p;
        }
      }
    }
  }

  /** One turn of the outer loop at position `t`. The loop only visits
      positions of the index; any other position leaves it as it is. */
  function Turn(index: seq<Annotation>, t: nat): (r: seq<Annotation>)
    ensures |r| == |index|
  {
    if t < |index| then MatchOne(index, t) else index
  }

  /** `step` run on the turns 0, 1, ..., n - 1 in order, each on the state
      the turn before it left. */
  function Iterate<S>(step: (S, nat) -> S, s: S, n: nat): S
  {
    if n == 0 then s else step(Iterate(step, s, n - 1), n - 1)
  }

  /** A property that holds after the first `m` turns and that each of the
      turns m, ..., n - 1 preserves still holds after the first `n`. */
  lemma {:induction false} IterateKeeps<S>(step: (S, nat) -> S, inv: S -> bool, s: S, m: nat, n: nat)
    requires m <= n && inv(Iterate(step, s, m))
    requires forall x, t :: m <= t < n && inv(x) ==> inv(step(x, t))
    ensures inv(Iterate(step, s, n))
    decreases n
  {
    if n > m {
      IterateKeeps(step, inv, s, m, n - 1);
    }
  }

  /** The outer loop of `findReciprocalMatches` run over the first `n`
      entries, in index order. */
  function MatchPrefix(index: seq<Annotation>, n: nat): (r: seq<Annotation>)
    requires n <= |index|
    ensures |r| == |index|
  {
    IterateKeeps(Turn, (x: seq<Annotation>) => |x| == |index|, index, 0, n);
    Iterate(Turn, index, n)
  }

  /** The pass keeps every key and keeps the index well linked. */
  lemma MatchPrefixFrame(index: seq<Annotation>, n: nat)
    requires n <= |index|
    ensures var r := MatchPrefix(index, n);
      && (forall h :: 0 <= h < |index| ==> r[h].key == index[h].key)
      && (WellLinked(index) ==> WellLinked(r))
  {
    var inv := (x: seq<Annotation>) =>
      && |x| == |index|
      && (forall h :: 0 <= h < |index| ==> x[h].key == index[h].key)
      && (WellLinked(index) ==> WellLinked(x));
    forall x, t | 0 <= t < n && inv(x) ensures inv(Turn(x, t)) {
      if t < |x| {
        MatchOneFrame(x, t);
      }
    }
    IterateKeeps(Turn, inv, index, 0, n);
  }

  /** `findReciprocalMatches`: every entry in index order, each linked
      against the state left by the entries before it. */
  function FindReciprocalMatches(index: seq<Annotation>): (r: seq<Annotation>)
    ensures |r| == |index|
    ensures forall h :: 0 <= h < |index| ==> r[h].key == index[h].key
    ensures WellLinked(index) ==> WellLinked(r)
  {
    MatchPrefixFrame(index, |index|);
    MatchPrefix(index, |index|)
  }

  /** Over the whole pass the reads of an entry only grow. */
  lemma MatchPrefixGrows(index: seq<Annotation>, n: nat, h: nat)
    requires n <= |index| && h < |index|
    ensures index[h].value.readNames <= MatchPrefix(index, n)[h].value.readNames
  {
    var inv := (x: seq<Annotation>) =>
      |x| == |index| && index[h].value.readNames <= x[h].value.readNames;
    forall x, t | 0 <= t < n && inv(x) ensures inv(Turn(x, t)) {
      if t < |x| {
        MatchOneGrows(x, t, h);
      }
    }
    IterateKeeps(Turn, inv, index, 0, n);
  }

  /** A link present before the pass is never changed by it. */
  lemma MatchPrefixKeepsLinks(index: seq<Annotation>, n: nat)
    requires n <= |index|
    ensures forall h :: 0 <= h < |index| && index[h].value.reciprocal.Some? ==>
              MatchPrefix(index, n)[h].value.reciprocal == index[h].value.reciprocal
  {
    var inv := (x: seq<Annotation>) =>
      && |x| == |index|
      && forall h :: 0 <= h < |index| && index[h].value.reciprocal.Some? ==>
           x[h].value.reciprocal == index[h].value.reciprocal;
    forall x, t | 0 <= t < n && inv(x) ensures inv(Turn(x, t)) {
      if t < |x| {
        MatchOneFrame(x, t);
      }
    }
    IterateKeeps(Turn, inv, index, 0, n);
  }

  /** An entry's link is settled in its own iteration: later iterations do
      not touch it. So the final link of entry t is the one its iteration
      chose against the state left by the entries before it. */
  lemma LinkSettledAtTurn(index: seq<Annotation>, t: nat, n: nat)
    requires t < n <= |index|
    ensures MatchPrefix(index, n)[t].value.reciprocal == MatchPrefix(index, t + 1)[t].value.reciprocal
  {
    var link := MatchPrefix(index, t + 1)[t].value.reciprocal;
    var inv := (x: seq<Annotation>) => |x| == |index| && x[t].value.reciprocal == link;
    forall x, u | t + 1 <= u < n && inv(x) ensures inv(Turn(x, u)) {
      if u < |x| {
        MatchOneFrame(x, u);
      }
    }
    IterateKeeps(Turn, inv, index, t + 1, n);
  }

  /** `later` is what `earlier` can become by combining: the same key,
      spans on the same references that enclose the earlier spans, and at
      least the earlier reads. */
  predicate Grown(earlier: Annotation, later: Annotation)
  {
    && later.key == earlier.key
    && later.value.from.ref == earlier.value.from.ref
    && later.value.to.ref == earlier.value.to.ref
    && Encloses(later.value.from, earlier.value.from)
    && Encloses(later.value.to, earlier.value.to)
    && earlier.value.readNames <= later.value.readNames
  }

  /** A scan only grows entries: every combine widens the target's spans
      and adds to its reads. */
  lemma {:induction false} ScanGrows(index: seq<Annotation>, t: nat, ps: seq<nat>, target: Option<nat>, h: nat)
    requires target.Some? ==> target.value < |index|
    requires h < |index|
    ensures Grown(index[h], Scan(index, t, ps, target).index[h])
    decreases |ps|
  {
    if ps != [] {
      if !Matches(index, t, ps[0]) {
        ScanGrows(index, t, ps[1..], target, h);
      } else if target.None? {
        ScanGrows(index, t, ps[1..], Some(ps[0]), h);
      } else {
        ScanGrows(CombineInto(index, target.value, ps[0]), t, ps[1..], target, h);
      }
    }
  }

  /** One iteration only grows entries. */
  lemma MatchOneGrowsAll(index: seq<Annotation>, t: nat, h: nat)
    requires t < |index| && h < |index|
    ensures Grown(index[h], MatchOne(index, t)[h])
  {
    if index[t].value.reciprocal.None? {
      ScanGrows(index, t, Potentials(index, t), None, h);
    }
  }

  /** The iterations m, ..., n - 1 only grow entries. */
  lemma PrefixGrowsFrom(index: seq<Annotation>, m: nat, n: nat, h: nat)
    requires m <= n <= |index| && h < |index|
    ensures Grown(MatchPrefix(index, m)[h], MatchPrefix(index, n)[h])
  {
    var start := MatchPrefix(index, m)[h];
    var inv := (x: seq<Annotation>) => |x| == |index| && Grown(start, x[h]);
    forall x, t | m <= t < n && inv(x) ensures inv(Turn(x, t)) {
      if t < |x| {
        MatchOneGrowsAll(x, t, h);
      }
    }
    IterateKeeps(Turn, inv, index, m, n);
  }

  /** An entry that starts unlinked is still unlinked when its own
      iteration comes: the iterations before it link only their own entry. */
  lemma UnlinkedUntilTurn(index: seq<Annotation>, a: nat)
    requires a < |index| && index[a].value.reciprocal.None?
    ensures MatchPrefix(index, a)[a].value.reciprocal.None?
  {
    var inv := (x: seq<Annotation>) => |x| == |index| && x[a].value.reciprocal.None?;
    forall x, t | 0 <= t < a && inv(x) ensures inv(Turn(x, t)) {
      if t < |x| {
        MatchOneFrame(x, t);
      }
    }
    IterateKeeps(Turn, inv, index, 0, a);
  }

  /** The pass is symmetric in the reciprocal condition: when entry `a`
      starts unlinked, and `a` and `b` overlap crosswise (a's to-span with
      b's from-span, b's to-span with a's from-span), with `b` keyed by its
      from-span as filed, then `a` ends up linked and its partner holds at
      least the reads `b` started with. Combines before a's iteration only
      widen the spans, so the condition that held at filing still holds. */
  lemma ReciprocalSymmetry(index: seq<Annotation>, a: nat, b: nat)
    requires a < |index| && b < |index|
    requires index[b].key == index[b].value.from
    requires index[a].value.reciprocal.None?
    requires Overlaps(index[a].value.to, index[b].value.from)
    requires Overlaps(index[b].value.to, index[a].value.from)
    ensures var r := FindReciprocalMatches(index);
      && r[a].value.reciprocal.Some?
      && r[a].value.reciprocal.value < |r|
      && index[b].value.readNames <= r[r[a].value.reciprocal.value].value.readNames
  {
    var x := MatchPrefix(index, a);
    var y := MatchPrefix(index, a + 1);
    assert y == MatchOne(x, a);
    UnlinkedUntilTurn(index, a);
    MatchPrefixFrame(index, a);
    PrefixGrowsFrom(index, 0, a, a);
    PrefixGrowsFrom(index, 0, a, b);
    // b's key still overlaps a's widened to-span.
    OverlapsWiden(index[a].value.to, x[a].value.to, index[b].value.from);
    OverlapsSymmetric(x[a].value.to, x[b].key);
    // b's widened to-span overlaps a's widened from-span.
    OverlapsWiden(index[b].value.to, x[b].value.to, index[a].value.from);
    OverlapsSymmetric(x[b].value.to, index[a].value.from);
    OverlapsWiden(index[a].value.from, x[a].value.from, x[b].value.to);
    assert Matches(x, a, b);
    MatchOneLinks(x, a);
    MatchOneReads(x, a);
    var g := y[a].value.reciprocal.value;
    LinkSettledAtTurn(index, a, |index|);
    PrefixGrowsFrom(index, a + 1, |index|, g);
  }

  /** Over the whole pass, entries whose evidence count reaches a threshold
      still reach it: combining only adds reads. */
  lemma FindReciprocalKeepsThreshold(index: seq<Annotation>, minEvidence: int)
    requires forall a :: a in index ==> EvidenceCount(a.value) >= minEvidence
    ensures forall a :: a in FindReciprocalMatches(index) ==> EvidenceCount(a.value) >= minEvidence
  {
    var r := FindReciprocalMatches(index);
    forall a | a in r ensures EvidenceCount(a.value) >= minEvidence {
      var h :| 0 <= h < |r| && r[h] == a;
      MatchPrefixGrows(index, |index|, h);
      assert index[h] in index;
      SubsetSize(index[h].value.readNames, a.value.readNames);
    }
  }

  lemma SubsetSize(a: set<string>, b: set<string>)
    requires a <= b
    ensures |a| <= |b|
  {
    assert b == a + (b - a);
  }

  /** One line of the report: an entry and the current value of its partner. */
  datatype Report = Report(entry: Translocation, partner: Translocation)

  function Reportable(minEvidence: int): Annotation -> bool
  {
    (a: Annotation) => EvidenceCount(a.value) >= minEvidence && a.value.reciprocal.Some?
  }

  /** The loop of `dump` over the first `n` entries. */
  function DumpUpTo(index: seq<Annotation>, minEvidence: int, n: nat): (r: seq<Report>)
    requires n <= |index| && WellLinked(index)
    ensures |r| <= n
    ensures forall j :: 0 <= j < |r| ==> EvidenceCount(r[j].entry) >= minEvidence
  {
    if n == 0 then []
    else
      var a := index[n - 1];
      DumpUpTo(index, minEvidence, n - 1)
        + (if EvidenceCount(a.value) >= minEvidence && a.value.reciprocal.Some?
           then [Report(a.value, index[a.value.reciprocal.value].value)] else [])
  }

  /** `dump`: the entries with at least minEvidence reads and a link, in
      index order, each paired with its partner's current value. */
  function Dump(index: seq<Annotation>, minEvidence: int): (r: seq<Report>)
    requires WellLinked(index)
    ensures var w := Where(Reportable(minEvidence), index);
      && |r| == |w|
      && forall j :: 0 <= j < |w| ==>
           r[j] == Report(index[w[j]].value, index[index[w[j]].value.reciprocal.value].value)
  {
    DumpSpec(index, minEvidence, |index|);
    assert index[..|index|] == index;
    DumpUpTo(index, minEvidence, |index|)
  }

  lemma {:induction false} DumpSpec(index: seq<Annotation>, minEvidence: int, n: nat)
    requires n <= |index| && WellLinked(index)
    ensures var r := DumpUpTo(index, minEvidence, n); var w := Where(Reportable(minEvidence), index[..n]);
      && |r| == |w|
      && forall j :: 0 <= j < |w| ==> ReportsHandle(index, w[j], r[j])
  {
    if n > 0 {
      DumpSpec(index, minEvidence, n - 1);
      var f := Reportable(minEvidence);
      var a := index[n - 1];
      var r0 := DumpUpTo(index, minEvidence, n - 1);
      var w0 := Where(f, index[..n - 1]);
      WherePrefix(f, index, n);
      var w1: seq<nat> := if f(a) then [n - 1] else [];
      var extra := if f(a) then [Report(a.value, index[a.value.reciprocal.value].value)] else [];
      assert forall j :: 0 <= j < |w1| ==> ReportsHandle(index, w1[j], extra[j]);
      ReportsAppend(index, w0, r0, w1, extra);
      assert DumpUpTo(index, minEvidence, n) == r0 + extra;
    }
  }

  /** The line reported for handle `h`: the entry and its partner. */
  predicate ReportsHandle(index: seq<Annotation>, h: nat, line: Report)
  {
    h < |index| && index[h].value.reciprocal.Some? && index[h].value.reciprocal.value < |index|
    && line == Report(index[h].value, index[index[h].value.reciprocal.value].value)
  }

  /** Reports that match their handles position by position still do after
      appending matching tails. */
  lemma ReportsAppend(index: seq<Annotation>, w0: seq<nat>, r0: seq<Report>, w1: seq<nat>, r1: seq<Report>)
    requires |r0| == |w0| && forall j :: 0 <= j < |w0| ==> ReportsHandle(index, w0[j], r0[j])
    requires |r1| == |w1| && forall j :: 0 <= j < |w1| ==> ReportsHandle(index, w1[j], r1[j])
    ensures |r0 + r1| == |w0 + w1|
    ensures forall j :: 0 <= j < |w0 + w1| ==> ReportsHandle(index, (w0 + w1)[j], (r0 + r1)[j])
  {
    forall j | 0 <= j < |w0 + w1| ensures ReportsHandle(index, (w0 + w1)[j], (r0 + r1)[j]) {
      if j >= |w0| {
        assert (w0 + w1)[j] == w1[j - |w0|] && (r0 + r1)[j] == r1[j - |w0|];
      }
    }
  }

  /** The whole pipeline: cluster the stream, link reciprocal candidates,
      report. */
  function Discover(extend: int, minEvidence: int, stream: seq<Observation>): seq<Report>
  {
    var index := Cluster(extend, minEvidence, stream).index;
    ClusterThreshold(extend, minEvidence, stream);
    assert WellLinked(index);
    Dump(FindReciprocalMatches(index), minEvidence)
  }

  /** Every reported line is an entry with at least minEvidence reads; with
      a positive threshold every report rests on a candidate that survived
      both passes with enough support. */
  lemma DiscoverMeetsThreshold(extend: int, minEvidence: int, stream: seq<Observation>)
    ensures forall rep :: rep in Discover(extend, minEvidence, stream) ==> EvidenceCount(rep.entry) >= minEvidence
  {
    var index := Cluster(extend, minEvidence, stream).index;
    ClusterThreshold(extend, minEvidence, stream);
    DumpMeetsThreshold(FindReciprocalMatches(index), minEvidence);
  }

  /** Every line of the report is an entry with at least minEvidence reads. */
  lemma DumpMeetsThreshold(index: seq<Annotation>, minEvidence: int)
    requires WellLinked(index)
    ensures forall rep :: rep in Dump(index, minEvidence) ==> EvidenceCount(rep.entry) >= minEvidence
  {
    var out := Dump(index, minEvidence);
    var w := Where(Reportable(minEvidence), index);
    forall rep | rep in out ensures EvidenceCount(rep.entry) >= minEvidence {
      var j :| 0 <= j < |out| && out[j] == rep;
      assert rep.entry == index[w[j]].value;
      assert Reportable(minEvidence)(index[w[j]]);
    }
  }
}
