/**
 * `SpanBuilder`: arithmetic on (offset, length) source spans.
 */
module Spans {
  datatype SourceSpan = SourceSpan(offset: nat, len: nat)

  function End(s: SourceSpan): nat {
    s.offset + s.len
  }

  /** A range `start..end` turned into a span. */
  function FromRange(start: nat, end: nat): SourceSpan
    requires start <= end
  {
    SourceSpan(start, end - start)
  }

  /**
   * `merge` as written: the spans are swapped so that a starts first, and the result runs from
   * a's offset to the end of b, whether or not b ends after a.
   */
  function Merge(a: SourceSpan, b: SourceSpan): (r: SourceSpan)
    ensures r.offset == if a.offset <= b.offset then a.offset else b.offset
    ensures End(r) == if a.offset > b.offset then End(a) else End(b)
  {
    if a.offset > b.offset then FromRange(b.offset, End(a)) else FromRange(a.offset, End(b))
  }

  /** The merge of a long span with a short one starting inside it stops at the short one's end. */
  lemma MergeMayCutFirst()
    ensures Merge(SourceSpan(0, 10), SourceSpan(2, 1)) == SourceSpan(0, 3)
    ensures End(Merge(SourceSpan(0, 10), SourceSpan(2, 1))) < End(SourceSpan(0, 10))
  {
  }

  /** The merge the name promises: from the earlier start to the later end. */
  function MergeCovering(a: SourceSpan, b: SourceSpan): (r: SourceSpan)
    ensures r.offset <= a.offset && r.offset <= b.offset
    ensures End(a) <= End(r) && End(b) <= End(r)
    ensures r.offset == a.offset || r.offset == b.offset
    ensures End(r) == End(a) || End(r) == End(b)
  {
    var start := if a.offset <= b.offset then a.offset else b.offset;
    var end := if End(a) >= End(b) then End(a) else End(b);
    FromRange(start, end)
  }

  /** Both merges agree whenever the later-starting span also ends last. */
  lemma MergeAgreesWhenNested(a: SourceSpan, b: SourceSpan)
    requires a.offset <= b.offset && End(a) <= End(b)
    ensures Merge(a, b) == MergeCovering(a, b)
  {
  }

  /** `start`: the zero-length span at the offset. */
  function Start(s: SourceSpan): (r: SourceSpan)
    ensures r.len == 0 && r.offset == s.offset
  {
    SourceSpan(s.offset, 0)
  }

  /** `end`: the zero-length span just past the span. */
  function EndSpan(s: SourceSpan): (r: SourceSpan)
    ensures r.len == 0 && r.offset == End(s)
  {
    SourceSpan(End(s), 0)
  }
}
