/** Genomic spans: a half-open interval [start, end) on a named reference
    sequence. The source's span class is a library type whose code is not
    part of this model; its overlap test is taken to be the usual
    same-reference, half-open interval intersection. */
module Spans {

  datatype Span = Span(ref: string, start: int, end: int)

  function Min(a: int, b: int): int { if a <= b then a else b }
  function Max(a: int, b: int): int { if a >= b then a else b }

  /** Same reference, and the half-open intervals share at least one base. */
  predicate Overlaps(a: Span, b: Span)
  {
    a.ref == b.ref && a.start < b.end && b.start < a.end
  }

  /** The coordinates of `inner` lie within those of `outer` (references ignored). */
  predicate Encloses(outer: Span, inner: Span)
  {
    outer.start <= inner.start && inner.end <= outer.end
  }

  /** The coordinate hull of `a` and `b`, kept on `a`'s reference: the
      smallest interval enclosing both. */
  function Extend(a: Span, b: Span): (r: Span)
    ensures r.ref == a.ref
    ensures Encloses(r, a) && Encloses(r, b)
    ensures forall s: Span :: Encloses(s, a) && Encloses(s, b) ==> Encloses(s, r)
    ensures r.start == a.start || r.start == b.start
    ensures r.end == a.end || r.end == b.end
  {
    Span(a.ref, Min(a.start, b.start), Max(a.end, b.end))
  }

  lemma OverlapsSymmetric(a: Span, b: Span)
    ensures Overlaps(a, b) <==> Overlaps(b, a)
  {
  }

  /** Extending by a span that is already enclosed changes nothing; in
      particular extending twice by the same span is idempotent. */
  lemma ExtendIdempotent(a: Span, b: Span)
    ensures Extend(Extend(a, b), b) == Extend(a, b)
    ensures Encloses(a, b) ==> Extend(a, b) == a
  {
  }

  /** Growing a span (on its own reference) never loses an overlap. */
  lemma OverlapsGrow(a: Span, b: Span, c: Span)
    requires Overlaps(a, c)
    ensures Overlaps(Extend(a, b), c)
  {
  }

  /** Any span on the same reference that encloses an overlapping span
      still overlaps. */
  lemma OverlapsWiden(a: Span, wider: Span, c: Span)
    requires Overlaps(a, c) && wider.ref == a.ref && Encloses(wider, a)
    ensures Overlaps(wider, c)
  {
  }

  /** The hull is associative, so folding several spans into one does not
      depend on grouping. */
  lemma ExtendAssociative(a: Span, b: Span, c: Span)
    ensures Extend(Extend(a, b), c) == Extend(a, Extend(b, c))
  {
  }
}
