/** Worked examples of the second pass on small concrete indexes. */
module MatchingExamples {
  import opened Optional
  import opened Spans
  import opened Candidate
  import opened Clustering
  import opened Matching

  /** A chr1 -> chr5 candidate with two reads. */
  function A(): Translocation
  {
    Translocation(Span("chr1", 100, 170), Span("chr5", 5000, 5060), {"a1", "a2"}, 2, 0, None)
  }

  /** The chr5 -> chr1 candidate that points back at A, with two reads. */
  function B(): Translocation
  {
    Translocation(Span("chr5", 5005, 5070), Span("chr1", 110, 180), {"b1", "b2"}, 2, 0, None)
  }

  /** The index after the first pass: A then B, each keyed by its from-span. */
  function PairIndex(): seq<Annotation>
  {
    [Annotation(A().from, A()), Annotation(B().from, B())]
  }

  /** Only B's key overlaps A's to-span. */
  lemma PotentialsOfA()
    ensures Potentials(PairIndex(), 0) == [1]
  {
    var ix := PairIndex();
    assert Overlaps(ix[1].key, A().to) && !Overlaps(ix[0].key, A().to);
    assert ix[..1] == [ix[0]] && ix[..1][..0] == [];
    assert Query(ix[..1], A().to) == [];
  }

  /** B points back at A. */
  lemma MatchesOfA()
    ensures MatchedHandles(PairIndex(), 0, [1]) == [1]
  {
    assert Matches(PairIndex(), 0, 1);
  }

  /** A's turn: its to-span finds B, whose to-span points back at A. */
  lemma PairFirstTurn()
    ensures MatchOne(PairIndex(), 0) == HalfLinked()
  {
    PotentialsOfA();
    MatchesOfA();
    MatchOneMerges(PairIndex(), 0);
  }

  /** The index once A is linked to B. */
  function HalfLinked(): seq<Annotation>
  {
    [Annotation(A().from, SetReciprocal(A(), 1)), Annotation(B().from, B())]
  }

  /** The index once both are linked. */
  function BothLinked(): seq<Annotation>
  {
    [Annotation(A().from, SetReciprocal(A(), 1)), Annotation(B().from, SetReciprocal(B(), 0))]
  }

  /** Only A's key overlaps B's to-span. */
  lemma PotentialsOfB()
    ensures Potentials(HalfLinked(), 1) == [0]
  {
    var ix := HalfLinked();
    assert Overlaps(ix[0].key, B().to) && !Overlaps(ix[1].key, B().to);
    assert ix[..1] == [ix[0]] && ix[..1][..0] == [];
    assert Query(ix[..1], B().to) == [0];
  }

  /** A points back at B. */
  lemma MatchesOfB()
    ensures MatchedHandles(HalfLinked(), 1, [0]) == [0]
  {
    assert HalfLinked()[0].value.to == A().to;
    assert Matches(HalfLinked(), 1, 0);
  }

  /** B's turn: its to-span finds A, whose to-span points back at B. */
  lemma PairSecondTurn()
    ensures MatchOne(HalfLinked(), 1) == BothLinked()
  {
    PotentialsOfB();
    MatchesOfB();
    MatchOneMerges(HalfLinked(), 1);
  }

  /** Both entries are reported, in index order. */
  lemma BothReportable()
    ensures Seqs.Where(Reportable(2), BothLinked()) == [0, 1]
  {
    var linked := BothLinked();
    assert EvidenceCount(A()) == 2 && EvidenceCount(B()) == 2;
    assert EvidenceCount(linked[0].value) == 2 && EvidenceCount(linked[1].value) == 2;
    assert linked[..1] == [linked[0]];
    assert linked[..1][..0] == [];
  }

  /** The reciprocal pair: each of A and B ends up linked to the other, and
      with a threshold of two the report has two lines, (A, B) and then
      (B, A), because each entry links itself in its own turn. */
  lemma ReciprocalPairScenario()
    ensures var linked := FindReciprocalMatches(PairIndex());
      && linked[0].value.reciprocal == Some(1)
      && linked[1].value.reciprocal == Some(0)
      && Dump(linked, 2) == [Report(SetReciprocal(A(), 1), SetReciprocal(B(), 0)),
                             Report(SetReciprocal(B(), 0), SetReciprocal(A(), 1))]
  {
    PairPass();
    BothReportable();
    var linked := BothLinked();
    assert linked[0].value.reciprocal == Some(1) && linked[1].value.reciprocal == Some(0);
  }

  /** The whole pass over the pair: both turns, in order. */
  lemma PairPass()
    ensures FindReciprocalMatches(PairIndex()) == BothLinked()
  {
    PairFirstTurn();
    PairSecondTurn();
    assert Iterate(Turn, PairIndex(), 1) == Turn(PairIndex(), 0) == HalfLinked();
    assert Iterate(Turn, PairIndex(), 2) == Turn(HalfLinked(), 1) == BothLinked();
  }

  /** A first chr5 -> chr1 candidate pointing back at A. */
  function B1(): Translocation
  {
    Translocation(Span("chr5", 5005, 5030), Span("chr1", 110, 150), {"b1"}, 1, 0, None)
  }

  /** A second chr5 -> chr1 candidate pointing back at A, reaching further. */
  function B2(): Translocation
  {
    Translocation(Span("chr5", 5020, 5070), Span("chr1", 120, 180), {"b2"}, 0, 1, None)
  }

  function TripleIndex(): seq<Annotation>
  {
    [Annotation(A().from, A()), Annotation(B1().from, B1()), Annotation(B2().from, B2())]
  }

  /** Both B1 and B2 are potentials of A, in index order. */
  lemma PotentialsOfTriple()
    ensures Potentials(TripleIndex(), 0) == [1, 2]
  {
    var ix := TripleIndex();
    assert !Overlaps(ix[0].key, A().to) && Overlaps(ix[1].key, A().to) && Overlaps(ix[2].key, A().to);
    assert ix[..1] == [ix[0]] && ix[..1][..0] == [];
    assert Query(ix[..1], A().to) == [];
    assert ix[..2] == [ix[0], ix[1]] && ix[..2][..1] == ix[..1];
    assert Query(ix[..2], A().to) == [1];
  }

  /** Both point back at A. */
  lemma MatchesOfTriple()
    ensures MatchedHandles(TripleIndex(), 0, [1, 2]) == [1, 2]
  {
    assert Matches(TripleIndex(), 0, 1) && Matches(TripleIndex(), 0, 2);
    assert [1, 2][1..] == [2];
  }

  /** Two matches: A links to the first, B1, which absorbs B2; B1's entry
      keeps its old key even though its from-span now reaches further, and
      B2 stays in the index unchanged and unlinked. */
  lemma StaleKeyScenario()
    ensures var r := MatchOne(TripleIndex(), 0);
      && r[0].value.reciprocal == Some(1)
      && r[1].key == Span("chr5", 5005, 5030)
      && r[1].value == Combine(B1(), B2())
      && r[1].value.from == Span("chr5", 5005, 5070)
      && r[1].value.readNames == {"b1", "b2"}
      && r[2] == Annotation(B2().from, B2())
  {
    PotentialsOfTriple();
    MatchesOfTriple();
    MatchOneMerges(TripleIndex(), 0);
    assert [1, 2][1..] == [2];
    assert FoldInto(B1(), TripleIndex(), [2]) == Combine(B1(), B2()) by {
      assert [2][1..] == [];
    }
    assert Combine(B1(), B2()).readNames == {"b1"} + {"b2"};
  }

  /** Two chr1 -> chr5 candidates with the same spans, one read each. */
  function T1(): Translocation
  {
    Translocation(Span("chr1", 100, 200), Span("chr5", 5000, 5100), {"t1"}, 1, 0, None)
  }

  function T2(): Translocation
  {
    Translocation(Span("chr1", 100, 200), Span("chr5", 5000, 5100), {"t2"}, 1, 0, None)
  }

  /** Two chr5 -> chr1 candidates that both point back at T1 and T2. */
  function G(): Translocation
  {
    Translocation(Span("chr5", 5000, 5010), Span("chr1", 150, 160), {"g"}, 1, 0, None)
  }

  function X(): Translocation
  {
    Translocation(Span("chr5", 5005, 5015), Span("chr1", 150, 160), {"x"}, 1, 0, None)
  }

  function QuadIndex(): seq<Annotation>
  {
    [Annotation(T1().from, T1()), Annotation(T2().from, T2()),
     Annotation(G().from, G()), Annotation(X().from, X())]
  }

  /** The index after T1's turn: T1 linked to G, and X folded into G. */
  function OnceFolded(): seq<Annotation>
  {
    [Annotation(T1().from, SetReciprocal(T1(), 2)), Annotation(T2().from, T2()),
     Annotation(G().from, Combine(G(), X())), Annotation(X().from, X())]
  }

  /** In an index keyed like QuadIndex, the entries whose key overlaps
      chr5:[5000,5100) are G and X. */
  lemma PotentialsOfQuad(ix: seq<Annotation>, t: nat)
    requires |ix| == 4 && t < 2
    requires ix[0].key == T1().from && ix[1].key == T2().from
    requires ix[2].key == G().from && ix[3].key == X().from
    requires ix[t].value.to == Span("chr5", 5000, 5100)
    ensures Potentials(ix, t) == [2, 3]
  {
    var span := Span("chr5", 5000, 5100);
    assert ix[..1] == [ix[0]] && ix[..1][..0] == [];
    assert Query(ix[..1], span) == [];
    assert ix[..2][..1] == ix[..1];
    assert Query(ix[..2], span) == [];
    assert ix[..3][..2] == ix[..2];
    assert Query(ix[..3], span) == [2];
    assert ix[..4][..3] == ix[..3] && ix[..4] == ix;
  }

  /** Both G and X point back at t. */
  lemma MatchesOfQuad(ix: seq<Annotation>, t: nat)
    requires Matches(ix, t, 2) && Matches(ix, t, 3)
    ensures MatchedHandles(ix, t, [2, 3]) == [2, 3]
  {
    assert [2, 3][1..] == [3];
    assert MatchedHandles(ix, t, [3]) == [3] by {
      assert [3][1..] == [];
    }
  }

  /** T1's turn: G is the target and X is folded into it. */
  lemma QuadFirstTurn()
    ensures var r := MatchOne(QuadIndex(), 0); var o := OnceFolded();
      |r| == 4 && r[0] == o[0] && r[1] == o[1] && r[2] == o[2] && r[3] == o[3]
  {
    var ix := QuadIndex();
    PotentialsOfQuad(ix, 0);
    MatchesOfQuad(ix, 0);
    MatchOneMerges(ix, 0);
    assert FoldInto(G(), ix, [3]) == Combine(G(), X()) by {
      assert [3][1..] == [];
    }
    var r := MatchOne(ix, 0);
    var o := OnceFolded();
    assert |r| == |o| == 4;
  }

  /** Two indexes with equal entries at every position are equal. */
  lemma SameEntries(a: seq<Annotation>, b: seq<Annotation>)
    requires |a| == |b| && forall h :: 0 <= h < |a| ==> a[h] == b[h]
    ensures a == b
  {
  }

  /** T2's turn: G is still the first match, and X, still in the index, is
      folded into it a second time; T1 keeps its link. */
  lemma QuadSecondTurn()
    ensures var r := MatchOne(OnceFolded(), 1);
      && r[0].value.reciprocal == Some(2)
      && r[1].value.reciprocal == Some(2)
      && r[2].value == Combine(Combine(G(), X()), X())
  {
    var ix := OnceFolded();
    PotentialsOfQuad(ix, 1);
    assert ix[2].value.to == Span("chr1", 150, 160);
    MatchesOfQuad(ix, 1);
    MatchOneMerges(ix, 1);
    assert FoldInto(Combine(G(), X()), ix, [3]) == Combine(Combine(G(), X()), X()) by {
      assert [3][1..] == [];
    }
  }

  /** The first two turns of the pass over QuadIndex. */
  lemma QuadTwoTurns()
    ensures MatchPrefix(QuadIndex(), 2) == MatchOne(OnceFolded(), 1)
  {
    QuadFirstTurn();
    SameEntries(MatchOne(QuadIndex(), 0), OnceFolded());
    assert Iterate(Turn, QuadIndex(), 1) == Turn(QuadIndex(), 0) == OnceFolded();
  }

  /** A candidate folded in twice is counted twice: after the first two
      turns of the pass, G holds two reads but its positive-strand counter
      is three, because X stays in the index and matches again in T2's
      turn. The strand counters are therefore not bounded by the number of
      reads seen. */
  lemma DoubleCountScenario()
    ensures var r := MatchPrefix(QuadIndex(), 2);
      && r[0].value.reciprocal == Some(2)
      && r[1].value.reciprocal == Some(2)
      && r[2].value.readNames == {"g", "x"}
      && r[2].value.posStrandCount == 3
  {
    QuadTwoTurns();
    QuadSecondTurn();
    TwiceFolded();
  }

  /** G with X folded in twice: two reads, three positive-strand counts. */
  lemma TwiceFolded()
    ensures var g := Combine(Combine(G(), X()), X());
      g.readNames == {"g", "x"} && g.posStrandCount == 3
  {
    CombineTwice(G(), X());
    assert G().readNames + X().readNames == {"g", "x"};
  }
}
