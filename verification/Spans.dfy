/** Time spans (pkg/nano/span.go) and the two directions data is kept in (zbuf/combiner.go). */
module Spans {

  const MAX_INT64 := 0x7fff_ffff_ffff_ffff

  /** The half-open interval [ts, ts + dur). */
  datatype Span = Span(ts: int, dur: int) {
    function End(): int { ts + dur }

    predicate Contains(t: int) { ts <= t < End() }

    predicate Overlaps(comp: Span) {
      if ts < comp.ts then comp.ts < End() else ts < comp.End()
    }

    function Intersect(b: Span): Span {
      var start := Max(ts, b.ts);
      var end := Min(End(), b.End());
      if start > end then Span(0, 0) else Between(start, end)
    }

    function Union(b: Span): Span {
      Between(Min(ts, b.ts), Max(End(), b.End()))
    }
  }

  const MAX_SPAN := Span(0, MAX_INT64)

  function Between(start: int, end: int): Span { Span(start, end - start) }

  function Min(a: int, b: int): int { if a < b then a else b }
  function Max(a: int, b: int): int { if a > b then a else b }

  lemma IntersectContains(a: Span, b: Span, t: int)
    ensures a.Intersect(b).Contains(t) <==> a.Contains(t) && b.Contains(t)
    ensures a.Contains(t) && b.Contains(t) ==> a.Overlaps(b)
  {
  }

  /** Spans that are not empty overlap exactly when they have a timestamp in common. */
  lemma OverlapsExactly(a: Span, b: Span)
    requires a.dur > 0 && b.dur > 0
    ensures a.Overlaps(b) <==> exists t :: a.Contains(t) && b.Contains(t)
  {
    var t := Max(a.ts, b.ts);
    assert a.Overlaps(b) ==> a.Contains(t) && b.Contains(t);
  }

  /** A span that includes `x` and `y` in whatever order they come. */
  function FirstLastToSpan(x: int, y: int): Span {
    Span(x, 1).Union(Span(y, 1))
  }

  datatype Direction = Forward | Reverse {
    /** Position of a timestamp in the order of the data. */
    function Pos(ts: int): int { if this == Forward then ts else -ts }

    function Next(ts: int): int { if this == Forward then ts + 1 else ts - 1 }

    function Prev(ts: int): int { if this == Forward then ts - 1 else ts + 1 }
  }

  lemma FirstLastContains(dir: Direction, x: int, y: int, t: int)
    ensures FirstLastToSpan(x, y).Contains(t) <==>
            Min(dir.Pos(x), dir.Pos(y)) <= dir.Pos(t) <= Max(dir.Pos(x), dir.Pos(y))
  {
  }
}
