/** One breakpoint candidate of the discordant-pair clusterer
    (src/java/io/compgen/cgseq/cli/sv/Translocation.java): a "from" span, a
    "to" span, the set of supporting read names, per-strand counters and a
    one-directional link to a reciprocal candidate. The link is a handle (a
    position in the finalized index) instead of an object reference. */
module Candidate {
  import opened Optional
  import opened Spans

  datatype Translocation = Translocation(
    from: Span,
    to: Span,
    readNames: set<string>,
    posStrandCount: nat,
    negStrandCount: nat,
    reciprocal: Option<nat>)

  /** One piece of evidence: a read name and its strand. */
  datatype Evidence = Evidence(readName: string, isNegStrand: bool)

  /** A fresh candidate: no reads, zero counters, no reciprocal link. */
  function New(from: Span, to: Span): (r: Translocation)
    ensures r.from == from && r.to == to
    ensures EvidenceCount(r) == 0 && r.posStrandCount == 0 && r.negStrandCount == 0
    ensures GetReciprocal(r).None?
  {
    Translocation(from, to, {}, 0, 0, None)
  }

  /** The number of distinct supporting read names. */
  function EvidenceCount(t: Translocation): nat
  {
    |t.readNames|
  }

  predicate ContainsRead(t: Translocation, readName: string)
  {
    readName in t.readNames
  }

  predicate OverlapsFrom(t: Translocation, span: Span)
  {
    Overlaps(t.from, span)
  }

  predicate OverlapsTo(t: Translocation, span: Span)
  {
    Overlaps(t.to, span)
  }

  /** Records one read. The name set deduplicates, but the strand counter
      chosen by `isNegStrand` is bumped on every call, duplicates included. */
  function AddEvidence(t: Translocation, readName: string, isNegStrand: bool): (r: Translocation)
    ensures ContainsRead(r, readName)
    ensures forall n :: ContainsRead(r, n) <==> ContainsRead(t, n) || n == readName
    ensures EvidenceCount(r) == if ContainsRead(t, readName) then EvidenceCount(t) else EvidenceCount(t) + 1
    ensures isNegStrand ==> r.negStrandCount == t.negStrandCount + 1 && r.posStrandCount == t.posStrandCount
    ensures !isNegStrand ==> r.posStrandCount == t.posStrandCount + 1 && r.negStrandCount == t.negStrandCount
    ensures r.from == t.from && r.to == t.to && r.reciprocal == t.reciprocal
  {
    var names := t.readNames + {readName};
    assert readName !in t.readNames ==> |names| == |t.readNames| + 1;
    assert readName in t.readNames ==> names == t.readNames;
    if isNegStrand then t.(readNames := names, negStrandCount := t.negStrandCount + 1)
    else t.(readNames := names, posStrandCount := t.posStrandCount + 1)
  }

  /** Grows the from-span to the hull of itself and `span`, keeping its own
      reference; nothing else changes. */
  function ExtendFrom(t: Translocation, span: Span): (r: Translocation)
    ensures r.from.ref == t.from.ref
    ensures Encloses(r.from, t.from) && Encloses(r.from, span)
    ensures forall s: Span :: Encloses(s, t.from) && Encloses(s, span) ==> Encloses(s, r.from)
    ensures r.to == t.to && r.readNames == t.readNames
    ensures r.posStrandCount == t.posStrandCount && r.negStrandCount == t.negStrandCount
    ensures r.reciprocal == t.reciprocal
  {
    t.(from := Extend(t.from, span))
  }

  /** The same as ExtendFrom, on the to-span. */
  function ExtendTo(t: Translocation, span: Span): (r: Translocation)
    ensures r.to.ref == t.to.ref
    ensures Encloses(r.to, t.to) && Encloses(r.to, span)
    ensures forall s: Span :: Encloses(s, t.to) && Encloses(s, span) ==> Encloses(s, r.to)
    ensures r.from == t.from && r.readNames == t.readNames
    ensures r.posStrandCount == t.posStrandCount && r.negStrandCount == t.negStrandCount
    ensures r.reciprocal == t.reciprocal
  {
    t.(to := Extend(t.to, span))
  }

  /** Folds `o` into `t`: both spans become coordinate hulls on `t`'s own
      references, the strand counters add up and the read sets are united.
      The reciprocal link of `t` is kept; `o` is a value and is not changed. */
  function Combine(t: Translocation, o: Translocation): (r: Translocation)
    ensures r.from.ref == t.from.ref && r.to.ref == t.to.ref
    ensures Encloses(r.from, t.from) && Encloses(r.from, o.from)
    ensures Encloses(r.to, t.to) && Encloses(r.to, o.to)
    ensures forall n :: ContainsRead(r, n) <==> ContainsRead(t, n) || ContainsRead(o, n)
    ensures EvidenceCount(t) <= EvidenceCount(r) <= EvidenceCount(t) + EvidenceCount(o)
    ensures EvidenceCount(o) <= EvidenceCount(r)
    ensures r.posStrandCount == t.posStrandCount + o.posStrandCount
    ensures r.negStrandCount == t.negStrandCount + o.negStrandCount
    ensures r.reciprocal == t.reciprocal
  {
    UnionSize(t.readNames, o.readNames);
    Translocation(Extend(t.from, o.from), Extend(t.to, o.to),
                  t.readNames + o.readNames,
                  t.posStrandCount + o.posStrandCount,
                  t.negStrandCount + o.negStrandCount,
                  t.reciprocal)
  }

  lemma UnionSize(a: set<string>, b: set<string>)
    ensures |a| <= |a + b| <= |a| + |b|
    ensures |b| <= |a + b|
  {
    assert a + b == a + (b - a);
    assert |a + (b - a)| == |a| + |b - a|;
    assert b == (b - a) + (a * b);
  }

  function GetReciprocal(t: Translocation): Option<nat>
  {
    t.reciprocal
  }

  /** Overwrites the link; nothing else changes. */
  function SetReciprocal(t: Translocation, handle: nat): (r: Translocation)
    ensures GetReciprocal(r) == Some(handle)
    ensures r.from == t.from && r.to == t.to && r.readNames == t.readNames
    ensures r.posStrandCount == t.posStrandCount && r.negStrandCount == t.negStrandCount
  {
    t.(reciprocal := Some(handle))
  }

  /** The link is the last value set: a second set replaces the first. */
  lemma ReciprocalLastWins(t: Translocation, a: nat, b: nat)
    ensures GetReciprocal(SetReciprocal(SetReciprocal(t, a), b)) == Some(b)
    ensures SetReciprocal(SetReciprocal(t, a), b) == SetReciprocal(t, b)
  {
  }

  /** Extending twice by the same span is the same as extending once. */
  lemma ExtendIdempotent(t: Translocation, span: Span)
    ensures ExtendFrom(ExtendFrom(t, span), span) == ExtendFrom(t, span)
    ensures ExtendTo(ExtendTo(t, span), span) == ExtendTo(t, span)
  {
    Spans.ExtendIdempotent(t.from, span);
    Spans.ExtendIdempotent(t.to, span);
  }

  /** Growing a candidate never loses an overlap: a span that `overlapsFrom`
      or `overlapsTo` accepted before extending or combining is still
      accepted after. */
  lemma GrowthKeepsOverlaps(t: Translocation, o: Translocation, grow: Span, s: Span)
    ensures OverlapsFrom(t, s) ==> OverlapsFrom(ExtendFrom(t, grow), s) && OverlapsFrom(Combine(t, o), s)
    ensures OverlapsTo(t, s) ==> OverlapsTo(ExtendTo(t, grow), s) && OverlapsTo(Combine(t, o), s)
  {
    if OverlapsFrom(t, s) {
      OverlapsGrow(t.from, grow, s);
      OverlapsGrow(t.from, o.from, s);
    }
    if OverlapsTo(t, s) {
      OverlapsGrow(t.to, grow, s);
      OverlapsGrow(t.to, o.to, s);
    }
  }

  /** Combining the same candidate twice unites its reads once but adds
      its strand counters twice. */
  lemma CombineTwice(t: Translocation, o: Translocation)
    ensures Combine(Combine(t, o), o).readNames == t.readNames + o.readNames
    ensures Combine(Combine(t, o), o).posStrandCount == t.posStrandCount + 2 * o.posStrandCount
    ensures Combine(Combine(t, o), o).negStrandCount == t.negStrandCount + 2 * o.negStrandCount
  {
    assert (t.readNames + o.readNames) + o.readNames == t.readNames + o.readNames;
  }

  /** Folding several candidates into one does not depend on grouping. */
  lemma CombineAssociative(a: Translocation, b: Translocation, c: Translocation)
    ensures Combine(Combine(a, b), c) == Combine(a, Combine(b, c))
  {
    ExtendAssociative(a.from, b.from, c.from);
    ExtendAssociative(a.to, b.to, c.to);
    assert (a.readNames + b.readNames) + c.readNames == a.readNames + (b.readNames + c.readNames);
  }

  /** Combining agrees with extending both spans by the other candidate's spans. */
  lemma CombineExtends(t: Translocation, o: Translocation)
    ensures Combine(t, o).from == ExtendFrom(t, o.from).from
    ensures Combine(t, o).to == ExtendTo(t, o.to).to
  {
  }

  /** Applies AddEvidence for each item in turn, first to last. */
  function AddAll(t: Translocation, ev: seq<Evidence>): Translocation
  {
    if ev == [] then t
    else
      var last := ev[|ev| - 1];
      AddEvidence(AddAll(t, ev[..|ev| - 1]), last.readName, last.isNegStrand)
  }

  /** The distinct read names among the items. */
  function NamesOf(ev: seq<Evidence>): set<string>
  {
    set i | 0 <= i < |ev| :: ev[i].readName
  }

  /** How many items are on the negative strand. */
  function NegativeItems(ev: seq<Evidence>): nat
  {
    if ev == [] then 0
    else NegativeItems(ev[..|ev| - 1]) + (if ev[|ev| - 1].isNegStrand then 1 else 0)
  }

  /** After a run of AddEvidence calls the read set holds exactly the names
      ever added, the evidence count is the number of distinct names, and
      the two counters together count every call (duplicates included), the
      negative one counting exactly the negative-strand calls. */
  lemma {:induction false} AddAllCounts(t: Translocation, ev: seq<Evidence>)
    ensures AddAll(t, ev).readNames == t.readNames + NamesOf(ev)
    ensures EvidenceCount(AddAll(New(t.from, t.to), ev)) == |NamesOf(ev)|
    ensures AddAll(t, ev).negStrandCount == t.negStrandCount + NegativeItems(ev)
    ensures AddAll(t, ev).posStrandCount + AddAll(t, ev).negStrandCount
            == t.posStrandCount + t.negStrandCount + |ev|
    ensures AddAll(t, ev).from == t.from && AddAll(t, ev).to == t.to
    decreases |ev|
  {
    if ev == [] {
      assert NamesOf(ev) == {};
    } else {
      var init := ev[..|ev| - 1];
      AddAllCounts(t, init);
      AddAllCounts(New(t.from, t.to), init);
      NamesOfSnoc(ev);
    }
  }

  /** The names of a run are those of all but its last item, plus the last name. */
  lemma NamesOfSnoc(ev: seq<Evidence>)
    requires ev != []
    ensures NamesOf(ev) == NamesOf(ev[..|ev| - 1]) + {ev[|ev| - 1].readName}
  {
    var init := ev[..|ev| - 1];
    forall n | n in NamesOf(ev) ensures n in NamesOf(init) + {ev[|ev| - 1].readName} {
      var i :| 0 <= i < |ev| && ev[i].readName == n;
      if i < |ev| - 1 { assert init[i] == ev[i]; }
    }
    forall n | n in NamesOf(init) ensures n in NamesOf(ev) {
      var i :| 0 <= i < |init| && init[i].readName == n;
      assert ev[i] == init[i];
    }
  }

  /** Adding a name that is already present leaves the evidence count alone
      but still bumps a strand counter. */
  lemma DuplicateStillCounts(t: Translocation, readName: string, isNegStrand: bool)
    requires ContainsRead(t, readName)
    ensures EvidenceCount(AddEvidence(t, readName, isNegStrand)) == EvidenceCount(t)
    ensures AddEvidence(t, readName, isNegStrand).posStrandCount
            + AddEvidence(t, readName, isNegStrand).negStrandCount
            == t.posStrandCount + t.negStrandCount + 1
  {
  }
}
