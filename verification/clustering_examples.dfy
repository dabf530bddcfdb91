/** Worked examples of the first pass on small concrete inputs. */
module ClusteringExamples {
  import opened Spans
  import opened Candidate
  import opened Clustering

  function R1(): Observation { Observation("r1", Span("chr1", 100, 150), Span("chr1", 5000, 5050), false) }
  function R2(): Observation { Observation("r2", Span("chr1", 120, 170), Span("chr1", 5010, 5060), false) }
  function R3(): Observation { Observation("r3", Span("chr1", 900, 950), Span("chr1", 9000, 9050), false) }

  /** r1 and r2 merged into one candidate. */
  function Merged(): Translocation { Absorb(Fresh(R1()), R2()) }

  lemma FirstRead()
    ensures Ingest(Init(0, 2), [R1()]) == Translocations(0, 2, [Fresh(R1())], [])
  {
    assert [R1()][..0] == [];
    assert Sweep([], R1(), 2).found == false;
  }

  lemma MergedSpans()
    ensures Merged().from == Span("chr1", 100, 170) && Merged().to == Span("chr1", 5000, 5060)
    ensures Merged().readNames == {"r1", "r2"} && EvidenceCount(Merged()) == 2
  {
    assert Fresh(R1()).readNames == {"r1"};
  }

  lemma SecondMerges()
    ensures AddTranslocation(Translocations(0, 2, [Fresh(R1())], []), R2())
         == Translocations(0, 2, [Merged()], [])
  {
    var c1 := Fresh(R1());
    assert c1.readNames == {"r1"};
    assert Absorbs(c1, R2());
    assert Sweep([c1], R2(), 2) == Step(Sweep([], R2(), 2), c1, R2(), 2);
  }

  lemma FirstTwoMerge()
    ensures Ingest(Init(0, 2), [R1(), R2()]) == Translocations(0, 2, [Merged()], [])
  {
    FirstRead();
    SecondMerges();
    assert [R1(), R2()][..1] == [R1()];
  }

  lemma ThirdEvicts()
    ensures AddTranslocation(Translocations(0, 2, [Merged()], []), R3())
         == Translocations(0, 2, [Fresh(R3())], [Annotation(Merged().from, Merged())])
  {
    MergedSpans();
    var c2 := Merged();
    assert Retires(c2, R3()) && !Absorbs(c2, R3());
    assert Sweep([c2], R3(), 2) == Step(Sweep([], R3(), 2), c2, R3(), 2);
  }

  /** Three reads on chr1 with no padding and a threshold of two: the first
      two overlap on both sides and merge; the third is far away, so it
      evicts the merged candidate into the index and then is itself
      discarded by `done` with a single read. */
  lemma ThreeReadScenario()
    ensures var st := Cluster(0, 2, [R1(), R2(), R3()]);
      && |st.index| == 1
      && st.index[0].key == Span("chr1", 100, 170)
      && st.index[0].value.from == Span("chr1", 100, 170)
      && st.index[0].value.to == Span("chr1", 5000, 5060)
      && st.index[0].value.readNames == {"r1", "r2"}
      && EvidenceCount(st.index[0].value) == 2
      && st.buffer == []
  {
    FirstTwoMerge();
    MergedSpans();
    ThirdEvicts();
    assert [R1(), R2(), R3()][..2] == [R1(), R2()];
    var s3 := Translocations(0, 2, [Fresh(R3())], [Annotation(Merged().from, Merged())]);
    assert Ingest(Init(0, 2), [R1(), R2(), R3()]) == s3;
    assert Flush([Fresh(R3())], 2) == Flush([], 2);
  }

  /** Absorption is not exclusive: two buffered candidates that both overlap
      a read on both sides both take it, so after the step two candidates
      claim the same read name. */
  lemma AbsorptionIsNotExclusive()
    ensures var a := Fresh(Observation("a", Span("chr1", 100, 150), Span("chr2", 500, 550), false));
            var b := Fresh(Observation("b", Span("chr1", 140, 190), Span("chr2", 540, 590), true));
            var st := Translocations(0, 2, [a, b], []);
            var r := AddTranslocation(st, Observation("x", Span("chr1", 145, 148), Span("chr2", 545, 548), false));
      && |r.buffer| == 2
      && ContainsRead(r.buffer[0], "x") && ContainsRead(r.buffer[1], "x")
  {
    var a := Fresh(Observation("a", Span("chr1", 100, 150), Span("chr2", 500, 550), false));
    var b := Fresh(Observation("b", Span("chr1", 140, 190), Span("chr2", 540, 590), true));
    var x := Observation("x", Span("chr1", 145, 148), Span("chr2", 545, 548), false);
    var st := Translocations(0, 2, [a, b], []);
    assert Absorbs(a, x) && Absorbs(b, x);
    assert [a, b][..1] == [a];
    assert Sweep([a, b], x, 2) == Step(Step(Sweep([], x, 2), a, x, 2), b, x, 2);
    assert AddTranslocation(st, x).buffer == [Absorb(a, x), Absorb(b, x)];
  }
}
