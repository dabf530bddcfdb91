/** The single-pass sweep-line clusterer of
    src/java/io/compgen/cgseq/cli/sv/Translocations.java (`addRead`,
    `addTranslocation`, `done`). The state is a buffer of active candidates
    and an append-only index of finalized ones; each step is a pure function
    from state to state. */
module Clustering {
  import opened Optional
  import opened Spans
  import opened Seqs
  import opened Candidate

  /** An index entry: the span the candidate was filed under, and the
      candidate itself. The key is the from-span at the moment of filing and
      is never updated afterwards. */
  datatype Annotation = Annotation(key: Span, value: Translocation)

  /** One discordant read as the clusterer sees it. */
  datatype Observation = Observation(readName: string, from: Span, to: Span, isNegStrand: bool)

  /** The fields of an alignment record that `addRead` reads. Positions are
      1-based and inclusive, as alignment records report them. */
  datatype AlignedRead = AlignedRead(
    readName: string,
    referenceName: string,
    alignmentStart: int,
    alignmentEnd: int,
    mateReferenceName: string,
    mateAlignmentStart: int,
    negativeStrand: bool)

  /** The clusterer: its two parameters, the active buffer and the index. */
  datatype Translocations = Translocations(
    extend: int,
    minEvidence: int,
    buffer: seq<Translocation>,
    index: seq<Annotation>)

  function Init(extend: int, minEvidence: int): (r: Translocations)
    ensures r.extend == extend && r.minEvidence == minEvidence
    ensures r.buffer == [] && r.index == []
  {
    Translocations(extend, minEvidence, [], [])
  }

  /** The span arithmetic of `addRead`: the from-span starts at the read's
      0-based start and runs `extend` bases past its end; the to-span is the
      mate's 0-based start position padded by `extend` on both sides. */
  function ObservationOf(extend: int, read: AlignedRead): (r: Observation)
    ensures r.readName == read.readName && r.isNegStrand == read.negativeStrand
    ensures r.from.ref == read.referenceName && r.to.ref == read.mateReferenceName
    ensures r.from.start == read.alignmentStart - 1
    ensures r.from.end - read.alignmentEnd == extend
    ensures r.to.start + extend == read.mateAlignmentStart - 1
    ensures r.to.end - extend == read.mateAlignmentStart
    ensures r.to.end - r.to.start == 2 * extend + 1
  {
    Observation(
      read.readName,
      Span(read.referenceName, read.alignmentStart - 1, read.alignmentEnd + extend),
      Span(read.mateReferenceName, read.mateAlignmentStart - 1 - extend, read.mateAlignmentStart + extend),
      read.negativeStrand)
  }

  /** With a non-negative padding the from-span covers the aligned bases and
      the to-span contains the mate's first base. */
  lemma ObservationCoversRead(extend: int, read: AlignedRead)
    requires extend >= 0
    ensures Encloses(ObservationOf(extend, read).from,
                     Span(read.referenceName, read.alignmentStart - 1, read.alignmentEnd))
    ensures ObservationOf(extend, read).to.start <= read.mateAlignmentStart - 1 < ObservationOf(extend, read).to.end
  {
  }

  /** A buffered candidate takes the read when it already holds the read's
      name, or when both its spans overlap the read's spans. */
  predicate Absorbs(c: Translocation, obs: Observation)
  {
    ContainsRead(c, obs.readName) || (OverlapsFrom(c, obs.from) && OverlapsTo(c, obs.to))
  }

  /** A buffered candidate leaves the buffer when it neither holds the name
      nor overlaps the read's from-span. */
  predicate Retires(c: Translocation, obs: Observation)
  {
    !ContainsRead(c, obs.readName) && !OverlapsFrom(c, obs.from)
  }

  /** What absorbing a read does to a candidate: both spans extended, the
      evidence added. */
  function Absorb(c: Translocation, obs: Observation): (r: Translocation)
    ensures ContainsRead(r, obs.readName)
    ensures forall n :: ContainsRead(r, n) <==> ContainsRead(c, n) || n == obs.readName
    ensures r.from.ref == c.from.ref && r.to.ref == c.to.ref
    ensures Encloses(r.from, c.from) && Encloses(r.from, obs.from)
    ensures Encloses(r.to, c.to) && Encloses(r.to, obs.to)
    ensures r.posStrandCount + r.negStrandCount == c.posStrandCount + c.negStrandCount + 1
    ensures r.reciprocal == c.reciprocal
  {
    AddEvidence(ExtendTo(ExtendFrom(c, obs.from), obs.to), obs.readName, obs.isNegStrand)
  }

  /** A candidate as it leaves one step: absorbed, or untouched. */
  function Touch(c: Translocation, obs: Observation): Translocation
  {
    if Absorbs(c, obs) then Absorb(c, obs) else c
  }

  /** The candidate started for a read that nobody absorbed. */
  function Fresh(obs: Observation): (r: Translocation)
    ensures r.from == obs.from && r.to == obs.to
    ensures EvidenceCount(r) == 1 && ContainsRead(r, obs.readName)
    ensures r.posStrandCount + r.negStrandCount == 1
    ensures r.reciprocal.None?
  {
    AddEvidence(New(obs.from, obs.to), obs.readName, obs.isNegStrand)
  }

  function Stays(obs: Observation): Translocation -> bool
  {
    c => !Retires(c, obs)
  }

  function Evictable(obs: Observation, minEvidence: int): Translocation -> bool
  {
    c => Retires(c, obs) && EvidenceCount(c) >= minEvidence
  }

  function Qualifies(minEvidence: int): Translocation -> bool
  {
    c => EvidenceCount(c) >= minEvidence
  }

  /** Some buffered candidate takes the read. */
  predicate Absorbed(buffer: seq<Translocation>, obs: Observation)
  {
    exists i :: 0 <= i < |buffer| && Absorbs(buffer[i], obs)
  }

  function Filed(c: Translocation): Annotation
  {
    Annotation(c.from, c)
  }

  datatype SweepResult = SweepResult(kept: seq<Translocation>, evicted: seq<Annotation>, found: bool)

  /** One iteration of the loop of `addTranslocation`: a candidate holding
      the name absorbs the read and stays; one overlapping on the from side
      stays, absorbing the read when the to side overlaps too; any other one
      leaves, and is filed under its from-span when it has enough evidence. */
  function Step(prev: SweepResult, current: Translocation, obs: Observation, minEvidence: int): (r: SweepResult)
    ensures r.kept == prev.kept + (if Stays(obs)(current) then [Touch(current, obs)] else [])
    ensures r.evicted == prev.evicted + (if Evictable(obs, minEvidence)(current) then [Filed(current)] else [])
    ensures r.found == (prev.found || Absorbs(current, obs))
  {
    if ContainsRead(current, obs.readName) then
      prev.(kept := prev.kept + [Absorb(current, obs)], found := true)
    else if OverlapsFrom(current, obs.from) then
      if OverlapsTo(current, obs.to) then
        prev.(kept := prev.kept + [Absorb(current, obs)], found := true)
      else
        prev.(kept := prev.kept + [current])
    else if EvidenceCount(current) >= minEvidence then
      prev.(evicted := prev.evicted + [Filed(current)])
    else
      prev
  }

  /** The loop of `addTranslocation` over the whole buffer, front to back;
      it never stops early. */
  function Sweep(buffer: seq<Translocation>, obs: Observation, minEvidence: int): (r: SweepResult)
    ensures |r.kept| + |r.evicted| <= |buffer|
    ensures forall a :: a in r.evicted ==> a.key == a.value.from && EvidenceCount(a.value) >= minEvidence
    ensures r.found ==> buffer != []
    decreases |buffer|
  {
    if buffer == [] then SweepResult([], [], false)
    else Step(Sweep(buffer[..|buffer| - 1], obs, minEvidence), buffer[|buffer| - 1], obs, minEvidence)
  }

  /** The kept candidates are the staying ones (those that do not retire),
      in buffer order, each touched by the read. */
  lemma {:induction false} SweepKept(buffer: seq<Translocation>, obs: Observation, minEvidence: int)
    ensures var r := Sweep(buffer, obs, minEvidence);
      && |r.kept| == |Where(Stays(obs), buffer)|
      && (forall j :: 0 <= j < |r.kept| ==>
            r.kept[j] == Touch(buffer[Where(Stays(obs), buffer)[j]], obs))
    decreases |buffer|
  {
    if buffer != [] {
      var init := buffer[..|buffer| - 1];
      var current := buffer[|buffer| - 1];
      SweepKept(init, obs, minEvidence);
      var prev := Sweep(init, obs, minEvidence);
      var r := Sweep(buffer, obs, minEvidence);
      assert r == Step(prev, current, obs, minEvidence);
      var ws := Where(Stays(obs), init);
      assert Where(Stays(obs), buffer) == ws + (if Stays(obs)(current) then [|init|] else []);
      forall j | 0 <= j < |r.kept|
        ensures r.kept[j] == Touch(buffer[Where(Stays(obs), buffer)[j]], obs)
      {
        if j < |ws| {
          assert r.kept[j] == prev.kept[j];
          assert Where(Stays(obs), buffer)[j] == ws[j];
          assert buffer[ws[j]] == init[ws[j]];
        }
      }
    }
  }

  /** The filed entries are the retiring candidates with enough evidence,
      in buffer order, each filed under its from-span. */
  lemma {:induction false} SweepEvicted(buffer: seq<Translocation>, obs: Observation, minEvidence: int)
    ensures var r := Sweep(buffer, obs, minEvidence);
      && |r.evicted| == |Where(Evictable(obs, minEvidence), buffer)|
      && (forall j :: 0 <= j < |r.evicted| ==>
            r.evicted[j] == Filed(buffer[Where(Evictable(obs, minEvidence), buffer)[j]]))
    decreases |buffer|
  {
    if buffer != [] {
      var init := buffer[..|buffer| - 1];
      var current := buffer[|buffer| - 1];
      SweepEvicted(init, obs, minEvidence);
      var prev := Sweep(init, obs, minEvidence);
      var r := Sweep(buffer, obs, minEvidence);
      assert r == Step(prev, current, obs, minEvidence);
      var we := Where(Evictable(obs, minEvidence), init);
      assert Where(Evictable(obs, minEvidence), buffer)
          == we + (if Evictable(obs, minEvidence)(current) then [|init|] else []);
      forall j | 0 <= j < |r.evicted|
        ensures r.evicted[j] == Filed(buffer[Where(Evictable(obs, minEvidence), buffer)[j]])
      {
        if j < |we| {
          assert r.evicted[j] == prev.evicted[j];
          assert Where(Evictable(obs, minEvidence), buffer)[j] == we[j];
          assert buffer[we[j]] == init[we[j]];
        }
      }
    }
  }

  /** The loop reports a match exactly when some candidate absorbed the read. */
  lemma {:induction false} SweepFound(buffer: seq<Translocation>, obs: Observation, minEvidence: int)
    ensures Sweep(buffer, obs, minEvidence).found <==> Absorbed(buffer, obs)
    decreases |buffer|
  {
    if buffer != [] {
      var init := buffer[..|buffer| - 1];
      var current := buffer[|buffer| - 1];
      SweepFound(init, obs, minEvidence);
      assert Sweep(buffer, obs, minEvidence) == Step(Sweep(init, obs, minEvidence), current, obs, minEvidence);
      if Absorbed(buffer, obs) {
        var i :| 0 <= i < |buffer| && Absorbs(buffer[i], obs);
        if i < |init| { assert init[i] == buffer[i]; }
      }
      if Absorbed(init, obs) {
        var i :| 0 <= i < |init| && Absorbs(init[i], obs);
        assert buffer[i] == init[i];
      }
    }
  }

  /** `addTranslocation`: sweep the buffer, file the evicted candidates in
      the index, and start a fresh candidate when nobody absorbed the read.
      The index is only appended to, each new entry is keyed by its
      candidate's from-span and has enough evidence, the buffer grows by at
      most one, and afterwards some buffered candidate holds the read. */
  function AddTranslocation(st: Translocations, obs: Observation): (r: Translocations)
    ensures r.extend == st.extend && r.minEvidence == st.minEvidence
    ensures |st.index| <= |r.index| && r.index[..|st.index|] == st.index
    ensures forall a :: a in r.index[|st.index|..] ==>
              a.key == a.value.from && EvidenceCount(a.value) >= st.minEvidence
    ensures |r.buffer| <= |st.buffer| + 1
  {
    var s := Sweep(st.buffer, obs, st.minEvidence);
    SweepKept(st.buffer, obs, st.minEvidence);
    SweepEvicted(st.buffer, obs, st.minEvidence);
    SweepFound(st.buffer, obs, st.minEvidence);
    var r := st.(buffer := s.kept + (if s.found then [] else [Fresh(obs)]),
                 index := st.index + s.evicted);
    assert r.index[|st.index|..] == s.evicted;
    r
  }

  /** `addRead`: the span arithmetic, then `addTranslocation`. The
      parameters are kept, the index is only appended to, and afterwards
      some buffered candidate holds the read's name. */
  function AddRead(st: Translocations, read: AlignedRead): (r: Translocations)
    ensures r.extend == st.extend && r.minEvidence == st.minEvidence
    ensures |st.index| <= |r.index| && r.index[..|st.index|] == st.index
    ensures exists c :: c in r.buffer && ContainsRead(c, read.readName)
  {
    var obs := ObservationOf(st.extend, read);
    ReadIsHeld(st, obs);
    AddTranslocation(st, obs)
  }

  /** The buffer after `addTranslocation`, candidate by candidate: the
      candidates that do not retire, in their old relative order, each
      having absorbed the read when it holds the name or overlaps on both
      sides and otherwise unchanged; then, exactly when nobody absorbed the
      read, a fresh candidate with spans exactly (from, to) and one read. */
  lemma BufferAfterAdd(st: Translocations, obs: Observation)
    ensures var r := AddTranslocation(st, obs); var w := Where(Stays(obs), st.buffer);
      && Increasing(w)
      && (forall i :: 0 <= i < |st.buffer| ==> (i in w <==> !Retires(st.buffer[i], obs)))
      && |r.buffer| == |w| + (if Absorbed(st.buffer, obs) then 0 else 1)
      && (forall j :: 0 <= j < |w| ==>
            r.buffer[j] == (if Absorbs(st.buffer[w[j]], obs) then Absorb(st.buffer[w[j]], obs)
                            else st.buffer[w[j]]))
      && (!Absorbed(st.buffer, obs) ==> r.buffer[|w|] == Fresh(obs))
  {
    SweepKept(st.buffer, obs, st.minEvidence);
    SweepFound(st.buffer, obs, st.minEvidence);
  }

  /** The index after `addTranslocation`: the old index followed by the
      retiring candidates whose evidence count reaches the threshold, in
      buffer order, each filed under its from-span. */
  lemma IndexAfterAdd(st: Translocations, obs: Observation)
    ensures var r := AddTranslocation(st, obs); var e := Where(Evictable(obs, st.minEvidence), st.buffer);
      && Increasing(e)
      && (forall i :: 0 <= i < |st.buffer| ==>
            (i in e <==> Retires(st.buffer[i], obs) && EvidenceCount(st.buffer[i]) >= st.minEvidence))
      && |r.index| == |st.index| + |e|
      && (forall j :: 0 <= j < |e| ==>
            r.index[|st.index| + j] == Annotation(st.buffer[e[j]].from, st.buffer[e[j]]))
  {
    SweepEvicted(st.buffer, obs, st.minEvidence);
  }

  /** The fate of one buffered candidate under `addTranslocation`: one
      that absorbs the read stays in its absorbed form, one that overlaps
      only on the from side stays unchanged, and one that retires with
      enough evidence is filed under its from-span. */
  lemma CandidateFate(st: Translocations, obs: Observation, i: nat)
    requires i < |st.buffer|
    ensures Absorbs(st.buffer[i], obs) ==> Absorb(st.buffer[i], obs) in AddTranslocation(st, obs).buffer
    ensures !Retires(st.buffer[i], obs) && !Absorbs(st.buffer[i], obs) ==>
              st.buffer[i] in AddTranslocation(st, obs).buffer
    ensures Retires(st.buffer[i], obs) && EvidenceCount(st.buffer[i]) >= st.minEvidence ==>
              Annotation(st.buffer[i].from, st.buffer[i]) in AddTranslocation(st, obs).index[|st.index|..]
  {
    CandidateStays(st, obs, i);
    CandidateFiled(st, obs, i);
  }

  /** A candidate that does not retire is still buffered, absorbed or not. */
  lemma CandidateStays(st: Translocations, obs: Observation, i: nat)
    requires i < |st.buffer|
    ensures !Retires(st.buffer[i], obs) ==> Touch(st.buffer[i], obs) in AddTranslocation(st, obs).buffer
  {
    if !Retires(st.buffer[i], obs) {
      var r := AddTranslocation(st, obs);
      BufferAfterAdd(st, obs);
      var w := Where(Stays(obs), st.buffer);
      assert i in w;
      var j :| 0 <= j < |w| && w[j] == i;
      assert r.buffer[j] in r.buffer;
    }
  }

  /** A retiring candidate with enough evidence is filed. */
  lemma CandidateFiled(st: Translocations, obs: Observation, i: nat)
    requires i < |st.buffer|
    ensures Retires(st.buffer[i], obs) && EvidenceCount(st.buffer[i]) >= st.minEvidence ==>
              Annotation(st.buffer[i].from, st.buffer[i]) in AddTranslocation(st, obs).index[|st.index|..]
  {
    var c := st.buffer[i];
    if Retires(c, obs) && EvidenceCount(c) >= st.minEvidence {
      var r := AddTranslocation(st, obs);
      IndexAfterAdd(st, obs);
      var e := Where(Evictable(obs, st.minEvidence), st.buffer);
      assert Evictable(obs, st.minEvidence)(c);
      assert i in e;
      var j :| 0 <= j < |e| && e[j] == i;
      assert r.index[|st.index|..][j] == r.index[|st.index| + j];
    }
  }

  /** After `addTranslocation` some buffered candidate holds the read's name. */
  lemma ReadIsHeld(st: Translocations, obs: Observation)
    ensures exists c :: c in AddTranslocation(st, obs).buffer && ContainsRead(c, obs.readName)
  {
    var r := AddTranslocation(st, obs);
    BufferAfterAdd(st, obs);
    var w := Where(Stays(obs), st.buffer);
    if Absorbed(st.buffer, obs) {
      var i :| 0 <= i < |st.buffer| && Absorbs(st.buffer[i], obs);
      assert i in w;
      var j :| 0 <= j < |w| && w[j] == i;
      assert r.buffer[j] == Absorb(st.buffer[i], obs);
      assert r.buffer[j] in r.buffer;
    } else {
      assert r.buffer[|w|] in r.buffer;
    }
  }

  /** Every entry of the buffer after `addTranslocation` is an old candidate
      that did not retire (touched by the read), or the fresh one; the
      fresh one appears only when nobody absorbed the read. */
  lemma BufferOrigins(st: Translocations, obs: Observation)
    ensures forall c :: c in AddTranslocation(st, obs).buffer ==>
              (exists i :: 0 <= i < |st.buffer| && !Retires(st.buffer[i], obs) && c == Touch(st.buffer[i], obs))
              || (!Absorbed(st.buffer, obs) && c == Fresh(obs))
  {
    BufferAfterAdd(st, obs);
    OriginsOfShape(st.buffer, obs, Where(Stays(obs), st.buffer), AddTranslocation(st, obs).buffer);
  }

  /** Any buffer of the shape `BufferAfterAdd` describes is made of touched
      survivors and possibly the fresh candidate. */
  lemma OriginsOfShape(buffer: seq<Translocation>, obs: Observation, w: seq<nat>, out: seq<Translocation>)
    requires forall j :: 0 <= j < |w| ==> w[j] < |buffer|
    requires forall i :: 0 <= i < |buffer| ==> (i in w <==> !Retires(buffer[i], obs))
    requires |out| == |w| + (if Absorbed(buffer, obs) then 0 else 1)
    requires forall j :: 0 <= j < |w| ==>
               out[j] == (if Absorbs(buffer[w[j]], obs) then Absorb(buffer[w[j]], obs) else buffer[w[j]])
    requires !Absorbed(buffer, obs) ==> out[|w|] == Fresh(obs)
    ensures forall c :: c in out ==>
              (exists i :: 0 <= i < |buffer| && !Retires(buffer[i], obs) && c == Touch(buffer[i], obs))
              || (!Absorbed(buffer, obs) && c == Fresh(obs))
  {
    forall c | c in out
      ensures (exists i :: 0 <= i < |buffer| && !Retires(buffer[i], obs) && c == Touch(buffer[i], obs))
              || (!Absorbed(buffer, obs) && c == Fresh(obs))
    {
      var j :| 0 <= j < |out| && out[j] == c;
      if j < |w| {
        var i := w[j];
        assert i in w;
        assert c == Touch(buffer[i], obs);
      }
    }
  }

  /** The loop of `done` over the buffer: the candidates with enough
      evidence, filed under their from-spans. */
  function Flush(buffer: seq<Translocation>, minEvidence: int): (r: seq<Annotation>)
    ensures |r| <= |buffer|
    ensures forall a :: a in r ==> a.key == a.value.from && a.value in buffer
    decreases |buffer|
  {
    if buffer == [] then []
    else
      var current := buffer[|buffer| - 1];
      Flush(buffer[..|buffer| - 1], minEvidence)
        + (if EvidenceCount(current) >= minEvidence then [Filed(current)] else [])
  }

  /** `done` files exactly the buffered candidates with enough evidence, in
      buffer order. */
  lemma {:induction false} FlushSpec(buffer: seq<Translocation>, minEvidence: int)
    ensures var r := Flush(buffer, minEvidence); var q := Where(Qualifies(minEvidence), buffer);
      && |r| == |q|
      && (forall j :: 0 <= j < |r| ==> r[j] == Filed(buffer[q[j]]))
    decreases |buffer|
  {
    if buffer != [] {
      var init := buffer[..|buffer| - 1];
      var current := buffer[|buffer| - 1];
      FlushSpec(init, minEvidence);
      var q0 := Where(Qualifies(minEvidence), init);
      var q1: seq<nat> := if Qualifies(minEvidence)(current) then [|init|] else [];
      var r1 := if EvidenceCount(current) >= minEvidence then [Filed(current)] else [];
      FiledAppend(buffer, init, q0, Flush(init, minEvidence), q1, r1);
      assert Where(Qualifies(minEvidence), buffer) == q0 + q1;
      assert Flush(buffer, minEvidence) == Flush(init, minEvidence) + r1;
    }
  }

  /** Entries filed position by position from a prefix of the buffer, then
      from the rest, match the buffer position by position. */
  lemma FiledAppend(buffer: seq<Translocation>, init: seq<Translocation>,
                    q0: seq<nat>, r0: seq<Annotation>, q1: seq<nat>, r1: seq<Annotation>)
    requires |init| <= |buffer| && init == buffer[..|init|]
    requires |r0| == |q0| && forall j :: 0 <= j < |q0| ==> q0[j] < |init| && r0[j] == Filed(init[q0[j]])
    requires |r1| == |q1| && forall j :: 0 <= j < |q1| ==> q1[j] < |buffer| && r1[j] == Filed(buffer[q1[j]])
    ensures |r0 + r1| == |q0 + q1|
    ensures forall j :: 0 <= j < |q0 + q1| ==> (r0 + r1)[j] == Filed(buffer[(q0 + q1)[j]])
  {
    forall j | 0 <= j < |q0 + q1| ensures (r0 + r1)[j] == Filed(buffer[(q0 + q1)[j]]) {
      if j < |q0| {
        assert buffer[q0[j]] == init[q0[j]];
      } else {
        assert (q0 + q1)[j] == q1[j - |q0|] && (r0 + r1)[j] == r1[j - |q0|];
      }
    }
  }

  /** `done`: flush the buffer into the index and clear it. Afterwards the
      buffer is empty and the index has gained exactly the buffered
      candidates with evidence count at least minEvidence, in buffer
      order; the old entries are untouched. */
  function Done(st: Translocations): (r: Translocations)
    ensures r.buffer == []
    ensures r.extend == st.extend && r.minEvidence == st.minEvidence
    ensures |st.index| <= |r.index| && r.index[..|st.index|] == st.index
    ensures var q := Where(Qualifies(st.minEvidence), st.buffer);
      && |r.index| == |st.index| + |q|
      && (forall j :: 0 <= j < |q| ==>
            r.index[|st.index| + j] == Annotation(st.buffer[q[j]].from, st.buffer[q[j]]))
    ensures forall i :: 0 <= i < |st.buffer| && EvidenceCount(st.buffer[i]) >= st.minEvidence ==>
              Annotation(st.buffer[i].from, st.buffer[i]) in r.index[|st.index|..]
    ensures forall a :: a in r.index[|st.index|..] ==> EvidenceCount(a.value) >= st.minEvidence
  {
    var added := Flush(st.buffer, st.minEvidence);
    FlushSpec(st.buffer, st.minEvidence);
    FlushFilesQualified(st.buffer, st.minEvidence);
    AppendFiled(st.index, added);
    st.(buffer := [], index := st.index + added)
  }

  /** What `done` appends, seen from the grown index. */
  lemma AppendFiled(index: seq<Annotation>, added: seq<Annotation>)
    ensures var r := index + added;
      && |index| <= |r| && r[..|index|] == index && r[|index|..] == added
      && (forall j :: 0 <= j < |added| ==> r[|index| + j] == added[j])
  {
    var r := index + added;
    assert r[..|index|] == index && r[|index|..] == added;
  }

  /** `done` files every buffered candidate with enough evidence and no
      other. */
  lemma FlushFilesQualified(buffer: seq<Translocation>, minEvidence: int)
    ensures forall i :: 0 <= i < |buffer| && EvidenceCount(buffer[i]) >= minEvidence ==>
              Filed(buffer[i]) in Flush(buffer, minEvidence)
    ensures forall a :: a in Flush(buffer, minEvidence) ==> EvidenceCount(a.value) >= minEvidence
  {
    FlushSpec(buffer, minEvidence);
    var added := Flush(buffer, minEvidence);
    var q := Where(Qualifies(minEvidence), buffer);
    forall i | 0 <= i < |buffer| && EvidenceCount(buffer[i]) >= minEvidence
      ensures Filed(buffer[i]) in added
    {
      assert Qualifies(minEvidence)(buffer[i]);
      var j :| 0 <= j < |q| && q[j] == i;
      assert added[j] == Filed(buffer[i]);
    }
    forall a | a in added ensures EvidenceCount(a.value) >= minEvidence {
      var j :| 0 <= j < |added| && added[j] == a;
      assert Qualifies(minEvidence)(buffer[q[j]]);
    }
  }

  /** Feeds a stream of observations to `addTranslocation`, first to last. */
  function Ingest(st: Translocations, stream: seq<Observation>): Translocations
  {
    if stream == [] then st
    else AddTranslocation(Ingest(st, stream[..|stream| - 1]), stream[|stream| - 1])
  }

  /** The whole first pass: a fresh clusterer, every observation, then `done`. */
  function Cluster(extend: int, minEvidence: int, stream: seq<Observation>): Translocations
  {
    Done(Ingest(Init(extend, minEvidence), stream))
  }

  /** What holds of the clusterer throughout the first pass: every index
      entry is keyed by its candidate's current from-span, meets the
      threshold and is not linked yet; every buffered candidate holds at
      least one read and is not linked. */
  predicate FirstPassInvariant(st: Translocations)
  {
    && (forall a :: a in st.index ==>
          a.key == a.value.from && EvidenceCount(a.value) >= st.minEvidence && a.value.reciprocal.None?)
    && (forall c :: c in st.buffer ==> EvidenceCount(c) >= 1 && c.reciprocal.None?)
  }

  lemma AddPreservesInvariant(st: Translocations, obs: Observation)
    requires FirstPassInvariant(st)
    ensures FirstPassInvariant(AddTranslocation(st, obs))
  {
    var r := AddTranslocation(st, obs);
    BufferOrigins(st, obs);
    IndexAfterAdd(st, obs);
    forall a | a in r.index
      ensures a.key == a.value.from && EvidenceCount(a.value) >= st.minEvidence && a.value.reciprocal.None?
    {
      var k :| 0 <= k < |r.index| && r.index[k] == a;
      if k < |st.index| {
        assert a == r.index[..|st.index|][k];
      } else {
        var e := Where(Evictable(obs, st.minEvidence), st.buffer);
        assert a == Annotation(st.buffer[e[k - |st.index|]].from, st.buffer[e[k - |st.index|]]);
      }
    }
    forall c | c in r.buffer
      ensures EvidenceCount(c) >= 1 && c.reciprocal.None?
    {
      if exists i :: 0 <= i < |st.buffer| && !Retires(st.buffer[i], obs) && c == Touch(st.buffer[i], obs) {
        var i :| 0 <= i < |st.buffer| && !Retires(st.buffer[i], obs) && c == Touch(st.buffer[i], obs);
        assert st.buffer[i] in st.buffer;
        if Absorbs(st.buffer[i], obs) {
          UnionSize(st.buffer[i].readNames, {obs.readName});
        }
      }
    }
  }

  lemma DonePreservesInvariant(st: Translocations)
    requires FirstPassInvariant(st)
    ensures FirstPassInvariant(Done(st))
  {
    var r := Done(st);
    forall a | a in r.index
      ensures a.key == a.value.from && EvidenceCount(a.value) >= st.minEvidence && a.value.reciprocal.None?
    {
      var k :| 0 <= k < |r.index| && r.index[k] == a;
      if k < |st.index| {
        assert a == r.index[..|st.index|][k];
      } else {
        var q := Where(Qualifies(st.minEvidence), st.buffer);
        assert a == Annotation(st.buffer[q[k - |st.index|]].from, st.buffer[q[k - |st.index|]]);
        assert st.buffer[q[k - |st.index|]] in st.buffer;
      }
    }
  }

  /** Over a whole stream the index is only appended to (an evicted
      candidate never changes again) and the invariant holds. */
  lemma {:induction false} IngestPreserves(st: Translocations, stream: seq<Observation>)
    requires FirstPassInvariant(st)
    ensures FirstPassInvariant(Ingest(st, stream))
    ensures |st.index| <= |Ingest(st, stream).index|
    ensures Ingest(st, stream).index[..|st.index|] == st.index
    ensures Ingest(st, stream).minEvidence == st.minEvidence
    decreases |stream|
  {
    if stream != [] {
      var mid := Ingest(st, stream[..|stream| - 1]);
      IngestPreserves(st, stream[..|stream| - 1]);
      AddPreservesInvariant(mid, stream[|stream| - 1]);
      var r := AddTranslocation(mid, stream[|stream| - 1]);
      assert r.index[..|st.index|] == r.index[..|mid.index|][..|st.index|];
    }
  }

  /** After the first pass the buffer is empty and every filed candidate
      has at least minEvidence distinct reads, is keyed by its from-span and
      is not linked yet. */
  lemma ClusterThreshold(extend: int, minEvidence: int, stream: seq<Observation>)
    ensures Cluster(extend, minEvidence, stream).buffer == []
    ensures forall a :: a in Cluster(extend, minEvidence, stream).index ==>
              EvidenceCount(a.value) >= minEvidence && a.key == a.value.from && a.value.reciprocal.None?
  {
    IngestPreserves(Init(extend, minEvidence), stream);
    DonePreservesInvariant(Ingest(Init(extend, minEvidence), stream));
  }

  /** The distinct read names of a sequence of observations. */
  function ReadNamesOf(obs: seq<Observation>): (r: set<string>)
    ensures forall n :: n in r <==> exists i :: 0 <= i < |obs| && obs[i].readName == n
  {
    set i | 0 <= i < |obs| :: obs[i].readName
  }

  /** `c` is the one candidate built from the observations `obs`: it holds
      exactly their names, its spans lie on the references of the first
      observation and are the hulls of the observations' spans (each end is
      some observation's end), and it counts one strand per observation. */
  predicate Gathers(c: Translocation, obs: seq<Observation>)
    requires obs != []
  {
    && c.readNames == ReadNamesOf(obs)
    && c.from.ref == obs[0].from.ref && c.to.ref == obs[0].to.ref
    && FromHull(c.from, obs) && ToHull(c.to, obs)
    && c.posStrandCount + c.negStrandCount == |obs|
    && c.reciprocal.None?
  }

  /** `s` is the coordinate hull of the observations' from-spans: it
      encloses each of them and each of its ends is one of theirs. */
  predicate FromHull(s: Span, obs: seq<Observation>)
  {
    && (forall i :: 0 <= i < |obs| ==> Encloses(s, obs[i].from))
    && (exists i :: 0 <= i < |obs| && s.start == obs[i].from.start)
    && (exists i :: 0 <= i < |obs| && s.end == obs[i].from.end)
  }

  /** `s` is the coordinate hull of the observations' to-spans. */
  predicate ToHull(s: Span, obs: seq<Observation>)
  {
    && (forall i :: 0 <= i < |obs| ==> Encloses(s, obs[i].to))
    && (exists i :: 0 <= i < |obs| && s.start == obs[i].to.start)
    && (exists i :: 0 <= i < |obs| && s.end == obs[i].to.end)
  }

  /** Extending the hull of the from-spans by one more from-span gives the
      hull of the longer sequence. */
  lemma FromHullNext(s: Span, obs: seq<Observation>, o: Observation)
    requires FromHull(s, obs)
    ensures FromHull(Extend(s, o.from), obs + [o])
  {
    var all := obs + [o];
    var r := Extend(s, o.from);
    assert all[|obs|] == o;
    assert forall i :: 0 <= i < |obs| ==> all[i] == obs[i];
    if r.start != o.from.start {
      var i :| 0 <= i < |obs| && s.start == obs[i].from.start;
      assert all[i] == obs[i];
    }
    if r.end != o.from.end {
      var i :| 0 <= i < |obs| && s.end == obs[i].from.end;
      assert all[i] == obs[i];
    }
  }

  /** The same for the to-spans. */
  lemma ToHullNext(s: Span, obs: seq<Observation>, o: Observation)
    requires ToHull(s, obs)
    ensures ToHull(Extend(s, o.to), obs + [o])
  {
    var all := obs + [o];
    var r := Extend(s, o.to);
    assert all[|obs|] == o;
    assert forall i :: 0 <= i < |obs| ==> all[i] == obs[i];
    if r.start != o.to.start {
      var i :| 0 <= i < |obs| && s.start == obs[i].to.start;
      assert all[i] == obs[i];
    }
    if r.end != o.to.end {
      var i :| 0 <= i < |obs| && s.end == obs[i].to.end;
      assert all[i] == obs[i];
    }
  }

  /** A fresh candidate gathers its one observation. */
  lemma GatherFirst(o: Observation)
    ensures Gathers(Fresh(o), [o])
  {
    var c := Fresh(o);
    assert c.readNames == {o.readName};
    forall n ensures n in ReadNamesOf([o]) <==> n == o.readName {
      if n == o.readName {
        assert [o][0].readName == n;
      }
    }
  }

  /** A candidate gathering `obs` takes an observation that overlaps the
      first of them on both sides, nothing retires it, and it then gathers
      the longer sequence. */
  lemma GatherNext(c: Translocation, obs: seq<Observation>, o: Observation)
    requires obs != [] && Gathers(c, obs)
    requires Overlaps(obs[0].from, o.from) && Overlaps(obs[0].to, o.to)
    ensures Absorbs(c, o) && !Retires(c, o)
    ensures Gathers(Absorb(c, o), obs + [o])
  {
    OverlapsWiden(obs[0].from, c.from, o.from);
    OverlapsWiden(obs[0].to, c.to, o.to);
    var r := Absorb(c, o);
    assert r.from == Extend(c.from, o.from) && r.to == Extend(c.to, o.to);
    FromHullNext(c.from, obs, o);
    ToHullNext(c.to, obs, o);
    NamesAppend(obs, o);
    assert (obs + [o])[0] == obs[0];
  }

  /** One more observation adds its name. */
  lemma NamesAppend(obs: seq<Observation>, o: Observation)
    ensures ReadNamesOf(obs + [o]) == ReadNamesOf(obs) + {o.readName}
  {
    var all := obs + [o];
    forall n ensures n in ReadNamesOf(all) <==> n in ReadNamesOf(obs) || n == o.readName {
      if n in ReadNamesOf(obs) {
        var i :| 0 <= i < |obs| && obs[i].readName == n;
        assert all[i] == obs[i];
      }
      if n == o.readName {
        assert all[|obs|] == o;
      }
      if n in ReadNamesOf(all) {
        var i :| 0 <= i < |all| && all[i].readName == n;
        if i < |obs| {
          assert all[i] == obs[i];
        }
      }
    }
  }

  /** A read added to an empty buffer starts a candidate of its own and
      files nothing. */
  lemma AddToEmpty(st: Translocations, obs: Observation)
    requires st.buffer == []
    ensures AddTranslocation(st, obs).buffer == [Fresh(obs)]
    ensures AddTranslocation(st, obs).index == st.index
  {
    BufferAfterAdd(st, obs);
  }

  /** A read that the only buffered candidate absorbs, without retiring
      it, leaves that one candidate in its absorbed form. */
  lemma SingleKept(st: Translocations, obs: Observation)
    requires |st.buffer| == 1 && Absorbs(st.buffer[0], obs) && !Retires(st.buffer[0], obs)
    ensures AddTranslocation(st, obs).buffer == [Absorb(st.buffer[0], obs)]
  {
    var c := st.buffer[0];
    assert st.buffer == [c];
    BufferAfterAdd(st, obs);
    WhereSingleton(Stays(obs), c);
    assert Stays(obs)(c);
    assert Absorbed(st.buffer, obs);
    var r := AddTranslocation(st, obs);
    assert |r.buffer| == 1;
    assert r.buffer[0] == Absorb(c, obs);
  }

  /** A read that does not retire the only buffered candidate files
      nothing. */
  lemma SingleFilesNothing(st: Translocations, obs: Observation)
    requires |st.buffer| == 1 && !Retires(st.buffer[0], obs)
    ensures AddTranslocation(st, obs).index == st.index
  {
    var c := st.buffer[0];
    assert st.buffer == [c];
    IndexAfterAdd(st, obs);
    WhereSingleton(Evictable(obs, st.minEvidence), c);
    assert !Evictable(obs, st.minEvidence)(c);
    var r := AddTranslocation(st, obs);
    assert |r.index| == |st.index|;
    assert r.index == r.index[..|st.index|];
  }

  /** Feeding the first `n` observations is feeding the first `n - 1` and
      then observation `n - 1`. */
  lemma {:induction false} IngestLast(st: Translocations, stream: seq<Observation>, n: nat)
    requires 1 <= n <= |stream|
    ensures Ingest(st, stream[..n]) == AddTranslocation(Ingest(st, stream[..n - 1]), stream[n - 1])
    ensures stream[..n - 1] + [stream[n - 1]] == stream[..n]
  {
    var p := stream[..n];
    assert p != [] && p[..n - 1] == stream[..n - 1] && p[n - 1] == stream[n - 1];
    assert Ingest(st, p) == AddTranslocation(Ingest(st, p[..|p| - 1]), p[|p| - 1]);
    assert stream[..n - 1] + [stream[n - 1]] == p;
  }

  /** The first `n` observations of a stream whose every read overlaps the
      first read on both sides build one candidate and file nothing. */
  lemma {:induction false} GatherPrefix(extend: int, minEvidence: int, stream: seq<Observation>, n: nat)
    requires 1 <= n <= |stream|
    requires forall i :: 0 <= i < |stream| ==>
               Overlaps(stream[0].from, stream[i].from) && Overlaps(stream[0].to, stream[i].to)
    ensures var st := Ingest(Init(extend, minEvidence), stream[..n]);
      st.minEvidence == minEvidence && st.index == [] && |st.buffer| == 1 && Gathers(st.buffer[0], stream[..n])
    decreases n
  {
    var init := Init(extend, minEvidence);
    var prev := Ingest(init, stream[..n - 1]);
    var o := stream[n - 1];
    IngestLast(init, stream, n);
    if n == 1 {
      AddToEmpty(prev, o);
      GatherFirst(o);
    } else {
      GatherPrefix(extend, minEvidence, stream, n - 1);
      var c := prev.buffer[0];
      var obs := stream[..n - 1];
      assert obs[0] == stream[0];
      GatherNext(c, obs, o);
      SingleKept(prev, o);
      SingleFilesNothing(prev, o);
    }
  }

  /** Reads whose spans all overlap the first read's spans, from-side and
      to-side, aggregate into a single candidate while nothing is filed:
      it holds every read name of the stream, its spans lie on the first
      read's references and are the hulls of all the reads' spans, and it
      counts one strand per read. */
  lemma {:induction false} Aggregation(extend: int, minEvidence: int, stream: seq<Observation>)
    requires stream != []
    requires forall i :: 0 <= i < |stream| ==>
               Overlaps(stream[0].from, stream[i].from) && Overlaps(stream[0].to, stream[i].to)
    ensures var st := Ingest(Init(extend, minEvidence), stream);
      && st.minEvidence == minEvidence
      && st.index == [] && |st.buffer| == 1
      && st.buffer[0].readNames == (ReadNamesOf(stream))
      && st.buffer[0].from.ref == stream[0].from.ref && st.buffer[0].to.ref == stream[0].to.ref
      && (forall i :: 0 <= i < |stream| ==>
            Encloses(st.buffer[0].from, stream[i].from) && Encloses(st.buffer[0].to, stream[i].to))
      && (exists i :: 0 <= i < |stream| && st.buffer[0].from.start == stream[i].from.start)
      && (exists i :: 0 <= i < |stream| && st.buffer[0].from.end == stream[i].from.end)
      && (exists i :: 0 <= i < |stream| && st.buffer[0].to.start == stream[i].to.start)
      && (exists i :: 0 <= i < |stream| && st.buffer[0].to.end == stream[i].to.end)
      && st.buffer[0].posStrandCount + st.buffer[0].negStrandCount == |stream|
  {
    GatherPrefix(extend, minEvidence, stream, |stream|);
    assert stream[..|stream|] == stream;
  }

  /** For such a stream the whole first pass files exactly one entry, keyed
      by the aggregate's from-span and holding every read name, when the
      stream has at least minEvidence distinct names, and nothing otherwise. */
  lemma {:induction false} AggregationFiled(extend: int, minEvidence: int, stream: seq<Observation>)
    requires stream != []
    requires forall i :: 0 <= i < |stream| ==>
               Overlaps(stream[0].from, stream[i].from) && Overlaps(stream[0].to, stream[i].to)
    ensures var names := ReadNamesOf(stream);
      var r := Cluster(extend, minEvidence, stream);
      && |r.index| == (if |names| >= minEvidence then 1 else 0)
      && (|names| >= minEvidence ==> r.index[0].key == r.index[0].value.from && r.index[0].value.readNames == names)
  {
    var st := Ingest(Init(extend, minEvidence), stream);
    var names := ReadNamesOf(stream);
    Aggregation(extend, minEvidence, stream);
    assert EvidenceCount(st.buffer[0]) == |names|;
    DoneSingle(st);
    assert Cluster(extend, minEvidence, stream) == Done(st);
  }

  /** `done` on an empty index and a one-candidate buffer files that
      candidate under its from-span exactly when it has enough evidence. */
  lemma DoneSingle(st: Translocations)
    requires st.index == [] && |st.buffer| == 1
    ensures var r := Done(st);
      && |r.index| == (if EvidenceCount(st.buffer[0]) >= st.minEvidence then 1 else 0)
      && (EvidenceCount(st.buffer[0]) >= st.minEvidence ==> r.index[0] == Annotation(st.buffer[0].from, st.buffer[0]))
  {
    var c := st.buffer[0];
    assert st.buffer == [c];
    WhereSingleton(Qualifies(st.minEvidence), c);
  }
}
