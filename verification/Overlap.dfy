/**
 * Turning a day's chunks, whose time spans may overlap, into spans to scan one after
 * the other, each with the chunks to merge there (archive/overlap.go).
 */
module Overlap {
  import opened Sorting
  import opened Spans

  datatype Chunk = Chunk(id: int, first: int, last: int)

  datatype SpanInfo = SpanInfo(span: Span, chunks: seq<Chunk>)

  ghost predicate DistinctIds(s: seq<Chunk>) {
    forall i, j :: 0 <= i < |s| && 0 <= j < |s| && s[i].id == s[j].id ==> i == j
  }

  /** Chunks as the import leaves them: one id each, first to last in the data's direction. */
  ghost predicate ChunksOk(dir: Direction, all: seq<Chunk>) {
    && DistinctIds(all)
    && forall c :: c in all ==> dir.Pos(c.first) <= dir.Pos(c.last)
  }

  predicate Covers(dir: Direction, c: Chunk, ts: int) {
    dir.Pos(c.first) <= dir.Pos(ts) <= dir.Pos(c.last)
  }

  // ------------------------------------------------- what the spans should be

  ghost predicate Shows(si: SpanInfo, c: Chunk, ts: int) {
    si.span.Contains(ts) && c in si.chunks
  }

  ghost predicate Shown(result: seq<SpanInfo>, c: Chunk, ts: int) {
    exists i :: 0 <= i < |result| && Shows(result[i], c, ts)
  }

  /** Every filtered timestamp of a chunk lies in a span listing the chunk. */
  ghost predicate Complete(dir: Direction, filter: Span, all: seq<Chunk>, result: seq<SpanInfo>) {
    forall c, ts :: c in all && Covers(dir, c, ts) && filter.Contains(ts) ==> Shown(result, c, ts)
  }

  /** ... limited to timestamps before position `k`. */
  ghost predicate CompleteBelow(dir: Direction, filter: Span, all: seq<Chunk>, result: seq<SpanInfo>, k: int) {
    forall c, ts :: c in all && Covers(dir, c, ts) && filter.Contains(ts) && dir.Pos(ts) < k ==> Shown(result, c, ts)
  }

  /** Each span lies in the filter and in every chunk it lists, and lists no chunk twice. */
  ghost predicate InfoSound(dir: Direction, filter: Span, all: seq<Chunk>, si: SpanInfo) {
    && DistinctIds(si.chunks)
    && (forall c :: c in si.chunks ==> c in all)
    && (forall ts :: si.span.Contains(ts) ==> filter.Contains(ts))
    && (forall c, ts :: Shows(si, c, ts) ==> Covers(dir, c, ts))
  }

  ghost predicate Sound(dir: Direction, filter: Span, all: seq<Chunk>, result: seq<SpanInfo>) {
    forall i :: 0 <= i < |result| ==> InfoSound(dir, filter, all, result[i])
  }

  /** The spans are disjoint and in the direction of the data. */
  ghost predicate InOrder(dir: Direction, result: seq<SpanInfo>) {
    forall i, j :: 0 <= i < j < |result| ==> Before(dir, result[i].span, result[j].span)
  }

  ghost predicate Before(dir: Direction, a: Span, b: Span) {
    forall t, u :: a.Contains(t) && b.Contains(u) ==> dir.Pos(t) < dir.Pos(u)
  }

  /** All of `span` lies in this range of positions. */
  ghost predicate Within(dir: Direction, span: Span, lo: int, hi: int) {
    forall t :: span.Contains(t) ==> lo <= dir.Pos(t) < hi
  }

  ghost predicate AllBefore(dir: Direction, result: seq<SpanInfo>, k: int) {
    forall i :: 0 <= i < |result| ==> EndsBefore(dir, result[i].span, k)
  }

  ghost predicate EndsBefore(dir: Direction, span: Span, k: int) {
    forall t :: span.Contains(t) ==> dir.Pos(t) < k
  }

  /** Each span lists every chunk that covers one of its timestamps. */
  ghost predicate Exact(dir: Direction, all: seq<Chunk>, result: seq<SpanInfo>) {
    forall i, c, t :: 0 <= i < |result| && c in all && result[i].span.Contains(t) && Covers(dir, c, t) ==> c in result[i].chunks
  }

  /** `q` starts right after `p` ends while `r` is open, at a place the filter lets through. */
  ghost predicate Adjacent(dir: Direction, filter: Span, p: Chunk, q: Chunk, r: Chunk) {
    && dir.Next(p.last) == q.first
    && Covers(dir, r, p.last) && Covers(dir, r, q.first)
    && (filter.Contains(p.last) || filter.Contains(q.first))
  }

  /** No chunk up to position `at` starts that way. */
  ghost predicate NoAdjacentUpTo(dir: Direction, filter: Span, all: seq<Chunk>, at: int) {
    forall p, q, r :: p in all && q in all && r in all && Adjacent(dir, filter, p, q, r) ==> dir.Pos(q.first) > at
  }

  ghost predicate NoAdjacent(dir: Direction, filter: Span, all: seq<Chunk>) {
    forall p, q, r :: p in all && q in all && r in all ==> !Adjacent(dir, filter, p, q, r)
  }

  // ------------------------------------------- order and repetition of the spans

  /** No span goes back behind one before it; all end at position `hi`. */
  ghost predicate NeverBack(dir: Direction, result: seq<SpanInfo>, hi: int) {
    && NeverGoesBack(dir, result)
    && (forall i :: 0 <= i < |result| ==> EndsBefore(dir, result[i].span, hi + 1))
  }

  ghost predicate NeverGoesBack(dir: Direction, result: seq<SpanInfo>) {
    forall i, j :: 0 <= i < j < |result| ==> NotBehind(dir, result[i].span, result[j].span)
  }

  ghost predicate NotBehind(dir: Direction, a: Span, b: Span) {
    forall t, u :: a.Contains(t) && b.Contains(u) ==> dir.Pos(t) <= dir.Pos(u)
  }

  /** In how many spans a timestamp of a chunk is shown. */
  ghost function ShowCount(result: seq<SpanInfo>, c: Chunk, ts: int): nat {
    if result == [] then 0
    else ShowCount(result[..|result| - 1], c, ts) + if Shows(result[|result| - 1], c, ts) then 1 else 0
  }

  /** A chunk ends at `ts` and another starts right after, while `c` is open across both. */
  ghost predicate PairAfter(dir: Direction, all: seq<Chunk>, c: Chunk, ts: int) {
    && (exists p :: p in all && p.last == ts) && (exists q :: q in all && q.first == dir.Next(ts))
    && Covers(dir, c, ts) && Covers(dir, c, dir.Next(ts))
  }

  /** How often a timestamp of a chunk is shown: once more for each such pair it belongs to. */
  ghost function Times(dir: Direction, all: seq<Chunk>, c: Chunk, ts: int): nat {
    1 + (if PairAfter(dir, all, c, dir.Prev(ts)) then 1 else 0) + (if PairAfter(dir, all, c, ts) then 1 else 0)
  }

  /** ... after the boundaries up to `at`, when everything before position `k` has been shown. */
  ghost function TimesSoFar(dir: Direction, all: seq<Chunk>, at: int, k: int, c: Chunk, ts: int): nat {
    (if dir.Pos(ts) < k then 1 else 0)
    + (if dir.Pos(ts) <= at && PairAfter(dir, all, c, dir.Prev(ts)) then 1 else 0)
    + (if dir.Pos(ts) + 1 <= at && PairAfter(dir, all, c, ts) then 1 else 0)
  }

  /** Every filtered timestamp of every chunk is in just so many spans. */
  ghost predicate ShownOften(dir: Direction, filter: Span, all: seq<Chunk>, result: seq<SpanInfo>) {
    forall c, ts :: c in all && Covers(dir, c, ts) && filter.Contains(ts) ==> ShowCount(result, c, ts) == Times(dir, all, c, ts)
  }

  /** Every filtered timestamp of every chunk has been shown just so often. */
  ghost predicate Tallied(dir: Direction, filter: Span, all: seq<Chunk>, at: int, k: int, result: seq<SpanInfo>) {
    forall c, ts :: c in all && Covers(dir, c, ts) && filter.Contains(ts) ==>
      ShowCount(result, c, ts) == TimesSoFar(dir, all, at, k, c, ts)
  }

  // ------------------------------------------------------------------ the sweep

  /** The chunks of `src` that are not in `skip`, by id. */
  method CopyChunks(src: seq<Chunk>, skip: seq<Chunk>) returns (dst: seq<Chunk>)
    ensures forall c :: c in dst <==> c in src && forall j :: 0 <= j < |skip| ==> skip[j].id != c.id
    ensures DistinctIds(src) ==> DistinctIds(dst)
    ensures skip == [] ==> dst == src
  {
    dst := [];
    for i := 0 to |src|
      invariant forall c :: c in dst <==> c in src[..i] && forall j :: 0 <= j < |skip| ==> skip[j].id != c.id
      invariant DistinctIds(src) ==> DistinctIds(dst)
      invariant skip == [] ==> dst == src[..i]
    {
      var found := false;
      for j := 0 to |skip|
        invariant !found
        invariant forall k :: 0 <= k < j ==> skip[k].id != src[i].id
      {
        if src[i].id == skip[j].id {
          found := true;
          break;
        }
      }
      assert src[..i + 1] == src[..i] + [src[i]];
      if !found {
        assert DistinctIds(src) ==> forall c :: c in src[..i] ==> c.id != src[i].id;
        dst := dst + [src[i]];
      }
    }
    assert src[..|src|] == src;
  }

  /** `ts` is the next boundary after position `at`, and these chunks start and end there. */
  ghost predicate GroupOk(dir: Direction, all: seq<Chunk>, at: int, ts: int, firsts: seq<Chunk>, lasts: seq<Chunk>) {
    && at < dir.Pos(ts)
    && (firsts != [] || lasts != [])
    && DistinctIds(firsts)
    && (forall c :: c in firsts <==> c in all && c.first == ts)
    && (forall c :: c in lasts <==> c in all && c.last == ts)
    && (forall c :: c in all ==> dir.Pos(c.first) <= at || dir.Pos(c.first) >= dir.Pos(ts))
    && (forall c :: c in all ==> dir.Pos(c.last) <= at || dir.Pos(c.last) >= dir.Pos(ts))
  }

  ghost predicate EndsAt(dir: Direction, all: seq<Chunk>, at: int) {
    exists c :: c in all && dir.Pos(c.last) == at
  }

  /** Position before which everything has been shown once the boundaries up to `at` are done. */
  ghost function Front(dir: Direction, all: seq<Chunk>, at: int): int {
    if EndsAt(dir, all, at) then at + 1 else at
  }

  /** Chunks covering both the boundary and what follows it. */
  ghost predicate OpenAt(dir: Direction, all: seq<Chunk>, at: int, open: seq<Chunk>) {
    && DistinctIds(open)
    && forall c :: c in open <==> c in all && dir.Pos(c.first) <= at < dir.Pos(c.last)
  }

  /** What holds of the spans made so far when everything before `k` should have been shown. */
  ghost predicate MadeUpTo(dir: Direction, filter: Span, all: seq<Chunk>, at: int, k: int, result: seq<SpanInfo>) {
    && CompleteBelow(dir, filter, all, result, k)
    && Sound(dir, filter, all, result)
    && (NoAdjacentUpTo(dir, filter, all, at) ==> InOrder(dir, result) && AllBefore(dir, result, k))
    && (!NoAdjacentUpTo(dir, filter, all, at) ==> !Exact(dir, all, result))
  }

  /** The effect of one more span on the result. */
  function Emitted(filter: Span, result: seq<SpanInfo>, span: Span, open: seq<Chunk>): seq<SpanInfo> {
    if filter.Overlaps(span) then result + [SpanInfo(filter.Intersect(span), open)] else result
  }

  // ------------------------------------------------------------ what a step keeps

  lemma EmittedIsSound(dir: Direction, filter: Span, all: seq<Chunk>, result: seq<SpanInfo>, lo: int, hi: int, open: seq<Chunk>)
    requires Sound(dir, filter, all, result) && DistinctIds(open)
    requires forall c :: c in open ==> c in all && Covers(dir, c, lo) && Covers(dir, c, hi)
    ensures Sound(dir, filter, all, Emitted(filter, result, FirstLastToSpan(lo, hi), open))
  {
    var si := SpanInfo(filter.Intersect(FirstLastToSpan(lo, hi)), open);
    forall ts | si.span.Contains(ts)
      ensures filter.Contains(ts) && forall c :: c in open ==> Covers(dir, c, ts)
    {
      IntersectContains(filter, FirstLastToSpan(lo, hi), ts);
      FirstLastContains(dir, lo, hi, ts);
    }
  }

  lemma EmittedCompletes(dir: Direction, filter: Span, all: seq<Chunk>, result: seq<SpanInfo>, lo: int, hi: int, open: seq<Chunk>)
    requires dir.Pos(lo) <= dir.Pos(hi) && CompleteBelow(dir, filter, all, result, dir.Pos(lo))
    requires forall c, ts :: c in all && Covers(dir, c, ts) && dir.Pos(lo) <= dir.Pos(ts) <= dir.Pos(hi) ==> c in open
    ensures CompleteBelow(dir, filter, all, Emitted(filter, result, FirstLastToSpan(lo, hi), open), dir.Pos(hi) + 1)
  {
    var span := FirstLastToSpan(lo, hi);
    var after := Emitted(filter, result, span, open);
    forall c, ts | c in all && Covers(dir, c, ts) && filter.Contains(ts) && dir.Pos(ts) < dir.Pos(hi) + 1
      ensures Shown(after, c, ts)
    {
      if dir.Pos(ts) < dir.Pos(lo) {
        StaysShown(filter, result, span, open, c, ts);
      } else {
        IntersectContains(filter, span, ts);
        FirstLastContains(dir, lo, hi, ts);
        assert Shows(after[|result|], c, ts);
      }
    }
  }

  lemma StaysShown(filter: Span, result: seq<SpanInfo>, span: Span, open: seq<Chunk>, c: Chunk, ts: int)
    requires Shown(result, c, ts)
    ensures Shown(Emitted(filter, result, span, open), c, ts)
  {
    var i :| 0 <= i < |result| && Shows(result[i], c, ts);
    assert Shows(Emitted(filter, result, span, open)[i], c, ts);
  }

  lemma StaysInexact(dir: Direction, filter: Span, all: seq<Chunk>, result: seq<SpanInfo>, span: Span, open: seq<Chunk>)
    requires !Exact(dir, all, result)
    ensures !Exact(dir, all, Emitted(filter, result, span, open))
  {
    var i, c, t :| 0 <= i < |result| && c in all && result[i].span.Contains(t) && Covers(dir, c, t) && c !in result[i].chunks;
    assert Emitted(filter, result, span, open)[i] == result[i];
  }

  lemma EmittedInOrder(dir: Direction, filter: Span, result: seq<SpanInfo>, span: Span, open: seq<Chunk>, lo: int, hi: int)
    requires lo <= hi && InOrder(dir, result) && AllBefore(dir, result, lo) && Within(dir, filter.Intersect(span), lo, hi)
    ensures InOrder(dir, Emitted(filter, result, span, open))
    ensures AllBefore(dir, Emitted(filter, result, span, open), hi)
  {
    forall i | 0 <= i < |result| ensures Before(dir, result[i].span, filter.Intersect(span)) && EndsBefore(dir, result[i].span, hi) {
      assert EndsBefore(dir, result[i].span, lo);
    }
    assert EndsBefore(dir, filter.Intersect(span), hi);
  }

  lemma StretchWithin(dir: Direction, filter: Span, lo: int, hi: int)
    requires dir.Pos(lo) <= dir.Pos(hi)
    ensures Within(dir, filter.Intersect(FirstLastToSpan(lo, hi)), dir.Pos(lo), dir.Pos(hi) + 1)
  {
    forall ts | filter.Intersect(FirstLastToSpan(lo, hi)).Contains(ts) ensures dir.Pos(lo) <= dir.Pos(ts) <= dir.Pos(hi) {
      IntersectContains(filter, FirstLastToSpan(lo, hi), ts);
      FirstLastContains(dir, lo, hi, ts);
    }
  }

  /** These chunks cover the whole stretch, and no other chunk covers any of it. */
  ghost predicate OpenThrough(dir: Direction, all: seq<Chunk>, lo: int, hi: int, open: seq<Chunk>) {
    && DistinctIds(open)
    && (forall c :: c in open ==> c in all && Covers(dir, c, lo) && Covers(dir, c, hi))
    && (forall c, ts :: c in all && Covers(dir, c, ts) && dir.Pos(lo) <= dir.Pos(ts) <= dir.Pos(hi) ==> c in open)
  }

  /** A span over a stretch without boundaries, listing the chunks that cover it. */
  lemma EmitStretch(dir: Direction, filter: Span, all: seq<Chunk>, at: int, result: seq<SpanInfo>, lo: int, hi: int, open: seq<Chunk>)
    requires dir.Pos(lo) <= dir.Pos(hi) && MadeUpTo(dir, filter, all, at, dir.Pos(lo), result)
    requires OpenThrough(dir, all, lo, hi, open)
    ensures MadeUpTo(dir, filter, all, at, dir.Pos(hi) + 1, Emitted(filter, result, FirstLastToSpan(lo, hi), open))
  {
    hide CompleteBelow, Sound, InOrder, AllBefore, Within, Exact, Emitted, FirstLastToSpan, NoAdjacentUpTo;
    EmittedIsSound(dir, filter, all, result, lo, hi, open);
    EmittedCompletes(dir, filter, all, result, lo, hi, open);
    if NoAdjacentUpTo(dir, filter, all, at) {
      StretchWithin(dir, filter, lo, hi);
      EmittedInOrder(dir, filter, result, FirstLastToSpan(lo, hi), open, dir.Pos(lo), dir.Pos(hi) + 1);
    } else {
      StaysInexact(dir, filter, all, result, FirstLastToSpan(lo, hi), open);
    }
  }

  /**
   * The span made when chunks start right after others ended: it reaches back over the
   * last boundary, and lists neither.
   */
  lemma EmitTwoPoints(dir: Direction, filter: Span, all: seq<Chunk>, at: int, result: seq<SpanInfo>, ts: int,
                      firsts: seq<Chunk>, lasts: seq<Chunk>, open: seq<Chunk>)
    requires ChunksOk(dir, all) && GroupOk(dir, all, at, ts, firsts, lasts) && firsts != []
    requires OpenAt(dir, all, at, open) && open != [] && EndsAt(dir, all, at) && dir.Pos(ts) == at + 1
    requires MadeUpTo(dir, filter, all, at, dir.Pos(ts), result)
    ensures MadeUpTo(dir, filter, all, dir.Pos(ts), dir.Pos(ts), Emitted(filter, result, FirstLastToSpan(ts, dir.Prev(ts)), open))
  {
    hide Sound, InOrder, AllBefore, Within, Exact, Emitted, FirstLastToSpan;
    var span := FirstLastToSpan(ts, dir.Prev(ts));
    var after := Emitted(filter, result, span, open);
    EmittedIsSound(dir, filter, all, result, ts, dir.Prev(ts), open);
    assert CompleteBelow(dir, filter, all, after, dir.Pos(ts)) by {
      StaysComplete(dir, filter, all, result, span, open, dir.Pos(ts));
    }
    if NoAdjacentUpTo(dir, filter, all, dir.Pos(ts)) {
      TwoPointsAdjacent(dir, filter, all, at, ts, firsts[0], open);
      TwoPointsFilteredOut(dir, filter, ts);
      EmittedInOrder(dir, filter, result, span, open, dir.Pos(ts), dir.Pos(ts));
    } else if filter.Contains(ts) || filter.Contains(dir.Prev(ts)) {
      var p :| p in all && dir.Pos(p.last) == at;
      TwoPointsAreInexact(dir, filter, all, at, result, ts, p, firsts[0], open);
    } else {
      FilteredIsNotAdjacent(dir, filter, all, at, ts, firsts, lasts);
      StaysInexact(dir, filter, all, result, span, open);
    }
  }

  lemma StaysComplete(dir: Direction, filter: Span, all: seq<Chunk>, result: seq<SpanInfo>, span: Span, open: seq<Chunk>, k: int)
    requires CompleteBelow(dir, filter, all, result, k)
    ensures CompleteBelow(dir, filter, all, Emitted(filter, result, span, open), k)
  {
    hide Emitted, Shown;
    forall c, t | c in all && Covers(dir, c, t) && filter.Contains(t) && dir.Pos(t) < k
      ensures Shown(Emitted(filter, result, span, open), c, t)
    {
      StaysShown(filter, result, span, open, c, t);
    }
  }

  lemma TwoPointsAdjacent(dir: Direction, filter: Span, all: seq<Chunk>, at: int, ts: int, q: Chunk, open: seq<Chunk>)
    requires q in all && q.first == ts
    requires OpenAt(dir, all, at, open) && open != [] && EndsAt(dir, all, at) && dir.Pos(ts) == at + 1
    ensures filter.Contains(ts) || filter.Contains(dir.Prev(ts)) ==> !NoAdjacentUpTo(dir, filter, all, dir.Pos(ts))
    ensures NoAdjacentUpTo(dir, filter, all, dir.Pos(ts)) ==> NoAdjacentUpTo(dir, filter, all, at)
  {
    var p :| p in all && dir.Pos(p.last) == at;
    var r := open[0];
    assert r in all && dir.Next(p.last) == ts && Covers(dir, r, p.last) && Covers(dir, r, ts);
    if filter.Contains(ts) || filter.Contains(dir.Prev(ts)) {
      assert Adjacent(dir, filter, p, q, r);
    }
  }

  lemma FilteredIsNotAdjacent(dir: Direction, filter: Span, all: seq<Chunk>, at: int, ts: int, firsts: seq<Chunk>, lasts: seq<Chunk>)
    requires GroupOk(dir, all, at, ts, firsts, lasts) && !filter.Contains(ts) && !filter.Contains(dir.Prev(ts))
    requires !NoAdjacentUpTo(dir, filter, all, dir.Pos(ts))
    ensures !NoAdjacentUpTo(dir, filter, all, at)
  {
    var p, q, r :| p in all && q in all && r in all && Adjacent(dir, filter, p, q, r) && dir.Pos(q.first) <= dir.Pos(ts);
    assert q.first != ts;
  }

  lemma TwoPointsAreInexact(dir: Direction, filter: Span, all: seq<Chunk>, at: int, result: seq<SpanInfo>, ts: int,
                            p: Chunk, q: Chunk, open: seq<Chunk>)
    requires p in all && q in all && dir.Pos(p.last) == at && q.first == ts && dir.Pos(ts) == at + 1
    requires ChunksOk(dir, all) && OpenAt(dir, all, at, open) && (filter.Contains(ts) || filter.Contains(dir.Prev(ts)))
    ensures !Exact(dir, all, Emitted(filter, result, FirstLastToSpan(ts, dir.Prev(ts)), open))
  {
    var span := FirstLastToSpan(ts, dir.Prev(ts));
    var after := Emitted(filter, result, span, open);
    var t, c := if filter.Contains(ts) then ts else dir.Prev(ts), if filter.Contains(ts) then q else p;
    IntersectContains(filter, span, t);
    FirstLastContains(dir, ts, dir.Prev(ts), t);
    assert c in all && after[|result|].span.Contains(t) && Covers(dir, c, t) && c !in after[|result|].chunks;
  }

  lemma TwoPointsFilteredOut(dir: Direction, filter: Span, ts: int)
    requires !filter.Contains(ts) && !filter.Contains(dir.Prev(ts))
    ensures Within(dir, filter.Intersect(FirstLastToSpan(ts, dir.Prev(ts))), dir.Pos(ts), dir.Pos(ts))
  {
    forall t ensures !filter.Intersect(FirstLastToSpan(ts, dir.Prev(ts))).Contains(t) {
      IntersectContains(filter, FirstLastToSpan(ts, dir.Prev(ts)), t);
      FirstLastContains(dir, ts, dir.Prev(ts), t);
    }
  }

  /** Chunks can only start right after others where the sweep has reached the boundary already. */
  lemma NothingAdjacentHere(dir: Direction, filter: Span, all: seq<Chunk>, at: int, ts: int, firsts: seq<Chunk>, lasts: seq<Chunk>, open: seq<Chunk>)
    requires GroupOk(dir, all, at, ts, firsts, lasts) && OpenAt(dir, all, at, open)
    requires firsts == [] || open == [] || Front(dir, all, at) < dir.Pos(ts)
    ensures NoAdjacentUpTo(dir, filter, all, at) <==> NoAdjacentUpTo(dir, filter, all, dir.Pos(ts))
  {
    forall p, q, r | p in all && q in all && r in all && Adjacent(dir, filter, p, q, r) && dir.Pos(q.first) > at
      ensures dir.Pos(q.first) > dir.Pos(ts)
    {
      AdjacentIsOpen(dir, filter, all, at, ts, firsts, lasts, open, p, q, r);
    }
  }

  lemma AdjacentIsOpen(dir: Direction, filter: Span, all: seq<Chunk>, at: int, ts: int, firsts: seq<Chunk>, lasts: seq<Chunk>,
                       open: seq<Chunk>, p: Chunk, q: Chunk, r: Chunk)
    requires GroupOk(dir, all, at, ts, firsts, lasts) && OpenAt(dir, all, at, open)
    requires p in all && q in all && r in all && Adjacent(dir, filter, p, q, r)
    ensures q.first == ts ==> firsts != [] && open != [] && Front(dir, all, at) == dir.Pos(ts)
  {
    if q.first == ts {
      assert q in firsts;
      assert dir.Pos(p.last) == dir.Pos(ts) - 1 <= at;
      assert EndsAt(dir, all, at);
      assert r in open;
    }
  }

  /** Chunks covering the boundary at position `y`. */
  ghost predicate OpenOn(dir: Direction, all: seq<Chunk>, y: int, open: seq<Chunk>) {
    && DistinctIds(open)
    && forall c :: c in open <==> c in all && dir.Pos(c.first) <= y <= dir.Pos(c.last)
  }

  lemma OpenGains(dir: Direction, all: seq<Chunk>, at: int, ts: int, firsts: seq<Chunk>, lasts: seq<Chunk>, open: seq<Chunk>)
    requires ChunksOk(dir, all) && OpenAt(dir, all, at, open) && GroupOk(dir, all, at, ts, firsts, lasts)
    ensures OpenOn(dir, all, dir.Pos(ts), open + firsts) && DistinctIds(open + firsts)
  {
    var after := open + firsts;
    forall i, j | 0 <= i < |open| && 0 <= j < |firsts| ensures open[i].id != firsts[j].id {
      assert open[i] in open && firsts[j] in firsts;
      SameIdSameChunk(all, open[i], firsts[j]);
    }
    assert forall c :: c in after <==> c in open || c in firsts;
  }

  /** Dropping the chunks that end at a boundary leaves those open after it. */
  lemma OpenLoses(dir: Direction, all: seq<Chunk>, at: int, ts: int, firsts: seq<Chunk>, lasts: seq<Chunk>,
                  open: seq<Chunk>, after: seq<Chunk>)
    requires ChunksOk(dir, all) && GroupOk(dir, all, at, ts, firsts, lasts) && OpenOn(dir, all, dir.Pos(ts), open)
    requires DistinctIds(after)
    requires forall c :: c in after <==> c in open && forall j :: 0 <= j < |lasts| ==> lasts[j].id != c.id
    ensures OpenAt(dir, all, dir.Pos(ts), after) && (firsts != [] || lasts != [])
    ensures Front(dir, all, dir.Pos(ts)) == if lasts != [] then dir.Pos(ts) + 1 else dir.Pos(ts)
  {
    forall c | c in open ensures c in after <==> c.last != ts {
      if c.last == ts {
        assert c in lasts;
      } else {
        forall j | 0 <= j < |lasts| ensures lasts[j].id != c.id {
          assert lasts[j] in lasts;
          SameIdSameChunk(all, lasts[j], c);
        }
      }
    }
    if lasts != [] {
      assert lasts[0] in lasts;
      assert EndsAt(dir, all, dir.Pos(ts));
    }
  }

  lemma SameIdSameChunk(all: seq<Chunk>, a: Chunk, b: Chunk)
    requires DistinctIds(all) && a in all && b in all
    ensures a.id == b.id ==> a == b
  {
    var i :| 0 <= i < |all| && all[i] == a;
    var j :| 0 <= j < |all| && all[j] == b;
  }

  /** Before chunks are added at the next boundary, the stretch up to it is shown. */
  lemma StartStep(dir: Direction, filter: Span, all: seq<Chunk>, at: int, result: seq<SpanInfo>, siFirst: int, ts: int,
                  firsts: seq<Chunk>, lasts: seq<Chunk>, open: seq<Chunk>) returns (after: seq<SpanInfo>)
    requires ChunksOk(dir, all) && GroupOk(dir, all, at, ts, firsts, lasts) && firsts != []
    requires OpenAt(dir, all, at, open) && (open != [] ==> dir.Pos(siFirst) == Front(dir, all, at))
    requires MadeUpTo(dir, filter, all, at, Front(dir, all, at), result)
    ensures after == if open != [] then Emitted(filter, result, FirstLastToSpan(siFirst, dir.Prev(ts)), open) else result
    ensures MadeUpTo(dir, filter, all, dir.Pos(ts), dir.Pos(ts), after)
  {
    hide Sound, InOrder, AllBefore, Within, Exact, Emitted, FirstLastToSpan, DistinctIds, Adjacent, Shown, OpenThrough, CompleteBelow, ChunksOk, NoAdjacentUpTo;
    after := result;
    if open == [] {
      NothingAdjacentHere(dir, filter, all, at, ts, firsts, lasts, open);
      NothingOpen(dir, filter, all, at, ts, firsts, lasts, result);
    } else if Front(dir, all, at) == dir.Pos(ts) {
      EmitTwoPoints(dir, filter, all, at, result, ts, firsts, lasts, open);
      after := Emitted(filter, result, FirstLastToSpan(siFirst, dir.Prev(ts)), open);
    } else {
      NothingAdjacentHere(dir, filter, all, at, ts, firsts, lasts, open);
      OpenUpToNext(dir, all, at, siFirst, ts, firsts, lasts, open);
      EmitStretch(dir, filter, all, at, result, siFirst, dir.Prev(ts), open);
      after := Emitted(filter, result, FirstLastToSpan(siFirst, dir.Prev(ts)), open);
    }
  }

  lemma OpenUpToNext(dir: Direction, all: seq<Chunk>, at: int, siFirst: int, ts: int,
                     firsts: seq<Chunk>, lasts: seq<Chunk>, open: seq<Chunk>)
    requires GroupOk(dir, all, at, ts, firsts, lasts) && OpenAt(dir, all, at, open)
    requires dir.Pos(siFirst) == Front(dir, all, at) < dir.Pos(ts)
    ensures OpenThrough(dir, all, siFirst, dir.Prev(ts), open)
  {
  }

  lemma OpenOntoBoundary(dir: Direction, all: seq<Chunk>, at: int, siFirst: int, ts: int,
                         firsts: seq<Chunk>, lasts: seq<Chunk>, open: seq<Chunk>)
    requires GroupOk(dir, all, at, ts, firsts, lasts) && OpenOn(dir, all, dir.Pos(ts), open)
    requires siFirst == ts || (firsts == [] && dir.Pos(siFirst) == Front(dir, all, at))
    ensures OpenThrough(dir, all, siFirst, ts, open)
    ensures dir.Pos(siFirst) <= dir.Pos(ts)
  {
  }

  /** At a boundary where chunks end, everything up to it is shown. */
  lemma EndStep(dir: Direction, filter: Span, all: seq<Chunk>, at: int, result: seq<SpanInfo>, siFirst: int, ts: int,
                firsts: seq<Chunk>, lasts: seq<Chunk>, open: seq<Chunk>)
    requires GroupOk(dir, all, at, ts, firsts, lasts) && OpenOn(dir, all, dir.Pos(ts), open)
    requires siFirst == ts || (firsts == [] && dir.Pos(siFirst) == Front(dir, all, at))
    requires MadeUpTo(dir, filter, all, dir.Pos(ts), dir.Pos(siFirst), result)
    ensures MadeUpTo(dir, filter, all, dir.Pos(ts), dir.Pos(ts) + 1, Emitted(filter, result, FirstLastToSpan(siFirst, ts), open))
  {
    hide *;
    OpenOntoBoundary(dir, all, at, siFirst, ts, firsts, lasts, open);
    EmitStretch(dir, filter, all, dir.Pos(ts), result, siFirst, ts, open);
  }

  /** At a boundary where no chunk starts, nothing is shown yet. */
  lemma NoStartStep(dir: Direction, filter: Span, all: seq<Chunk>, at: int, result: seq<SpanInfo>, ts: int,
                    firsts: seq<Chunk>, lasts: seq<Chunk>, open: seq<Chunk>)
    requires ChunksOk(dir, all) && GroupOk(dir, all, at, ts, firsts, lasts) && firsts == []
    requires OpenAt(dir, all, at, open) && MadeUpTo(dir, filter, all, at, Front(dir, all, at), result)
    ensures open != []
    ensures MadeUpTo(dir, filter, all, dir.Pos(ts), Front(dir, all, at), result)
  {
    NothingAdjacentHere(dir, filter, all, at, ts, firsts, lasts, open);
    assert lasts[0] in open;
  }

  /** With no chunk open there is nothing to show before the next boundary. */
  lemma NothingOpen(dir: Direction, filter: Span, all: seq<Chunk>, at: int, ts: int, firsts: seq<Chunk>, lasts: seq<Chunk>, result: seq<SpanInfo>)
    requires ChunksOk(dir, all) && GroupOk(dir, all, at, ts, firsts, lasts) && OpenAt(dir, all, at, [])
    requires CompleteBelow(dir, filter, all, result, Front(dir, all, at))
    ensures CompleteBelow(dir, filter, all, result, dir.Pos(ts))
    ensures InOrder(dir, result) && AllBefore(dir, result, Front(dir, all, at)) ==> AllBefore(dir, result, dir.Pos(ts))
  {
    forall c, t | c in all && Covers(dir, c, t) && filter.Contains(t) && dir.Pos(t) < dir.Pos(ts) ensures Shown(result, c, t) {
      assert c !in [];
      assert dir.Pos(t) < Front(dir, all, at);
    }
    if AllBefore(dir, result, Front(dir, all, at)) {
      forall i | 0 <= i < |result| ensures EndsBefore(dir, result[i].span, dir.Pos(ts)) {
        assert EndsBefore(dir, result[i].span, Front(dir, all, at));
      }
    }
  }

  // ----------------------------------------- what a step adds to the tally

  lemma EmittedNeverBack(dir: Direction, filter: Span, result: seq<SpanInfo>, x: int, y: int, open: seq<Chunk>, lo: int, hi: int)
    requires NeverBack(dir, result, lo) && lo <= dir.Pos(x) <= hi && lo <= dir.Pos(y) <= hi
    ensures NeverBack(dir, Emitted(filter, result, FirstLastToSpan(x, y), open), hi)
  {
    var span := filter.Intersect(FirstLastToSpan(x, y));
    forall t | span.Contains(t) ensures lo <= dir.Pos(t) <= hi {
      IntersectContains(filter, FirstLastToSpan(x, y), t);
      FirstLastContains(dir, x, y, t);
    }
    forall i | 0 <= i < |result| ensures NotBehind(dir, result[i].span, span) && EndsBefore(dir, result[i].span, hi + 1) {
      assert EndsBefore(dir, result[i].span, lo + 1);
    }
    assert EndsBefore(dir, span, hi + 1);
  }

  lemma ShowsOneMore(dir: Direction, filter: Span, result: seq<SpanInfo>, x: int, y: int, open: seq<Chunk>, c: Chunk, ts: int)
    requires filter.Contains(ts) && dir.Pos(x) <= dir.Pos(y)
    ensures ShowCount(Emitted(filter, result, FirstLastToSpan(x, y), open), c, ts) ==
            ShowCount(result, c, ts) + if dir.Pos(x) <= dir.Pos(ts) <= dir.Pos(y) && c in open then 1 else 0
  {
    var span := FirstLastToSpan(x, y);
    var after := Emitted(filter, result, span, open);
    IntersectContains(filter, span, ts);
    FirstLastContains(dir, x, y, ts);
    if filter.Overlaps(span) {
      assert after[..|after| - 1] == result;
    }
  }

  lemma SpanEitherWay(x: int, y: int)
    ensures FirstLastToSpan(x, y) == FirstLastToSpan(y, x)
  {
  }

  /** A stretch shows each of its timestamps once more, for every chunk there. */
  lemma TallyStretch(dir: Direction, filter: Span, all: seq<Chunk>, at: int, result: seq<SpanInfo>, lo: int, hi: int, open: seq<Chunk>)
    requires dir.Pos(lo) <= dir.Pos(hi) && Tallied(dir, filter, all, at, dir.Pos(lo), result)
    requires OpenThrough(dir, all, lo, hi, open)
    ensures Tallied(dir, filter, all, at, dir.Pos(hi) + 1, Emitted(filter, result, FirstLastToSpan(lo, hi), open))
  {
    hide Emitted, FirstLastToSpan, PairAfter, DistinctIds;
    forall c, ts | c in all && Covers(dir, c, ts) && filter.Contains(ts)
      ensures ShowCount(Emitted(filter, result, FirstLastToSpan(lo, hi), open), c, ts) == TimesSoFar(dir, all, at, dir.Pos(hi) + 1, c, ts)
    {
      ShowsOneMore(dir, filter, result, lo, hi, open, c, ts);
    }
  }

  /** The extra span shows both timestamps of the pair once more, for every chunk open across it. */
  lemma TallyTwoPoints(dir: Direction, filter: Span, all: seq<Chunk>, at: int, result: seq<SpanInfo>, ts: int,
                       firsts: seq<Chunk>, lasts: seq<Chunk>, open: seq<Chunk>)
    requires ChunksOk(dir, all) && GroupOk(dir, all, at, ts, firsts, lasts) && firsts != []
    requires OpenAt(dir, all, at, open) && EndsAt(dir, all, at) && dir.Pos(ts) == at + 1
    requires Tallied(dir, filter, all, at, dir.Pos(ts), result)
    ensures Tallied(dir, filter, all, dir.Pos(ts), dir.Pos(ts), Emitted(filter, result, FirstLastToSpan(ts, dir.Prev(ts)), open))
  {
    hide Emitted, FirstLastToSpan, DistinctIds, ShowCount, PairAfter, OpenAt, GroupOk, ChunksOk, EndsAt;
    SpanEitherWay(ts, dir.Prev(ts));
    PairHere(dir, all, at, ts, firsts, lasts, open);
    hide Covers;
    forall c, t | c in all && Covers(dir, c, t) && filter.Contains(t)
      ensures ShowCount(Emitted(filter, result, FirstLastToSpan(ts, dir.Prev(ts)), open), c, t) ==
              TimesSoFar(dir, all, dir.Pos(ts), dir.Pos(ts), c, t)
    {
      ShowsOneMore(dir, filter, result, dir.Prev(ts), ts, open, c, t);
      assert dir.Pos(t) == at ==> t == dir.Prev(ts);
      assert dir.Pos(t) == at + 1 ==> t == ts;
    }
  }

  /** At this boundary chunks start right after others have ended, under the open ones. */
  lemma PairHere(dir: Direction, all: seq<Chunk>, at: int, ts: int, firsts: seq<Chunk>, lasts: seq<Chunk>, open: seq<Chunk>)
    requires GroupOk(dir, all, at, ts, firsts, lasts) && firsts != [] && EndsAt(dir, all, at) && dir.Pos(ts) == at + 1
    requires OpenAt(dir, all, at, open)
    ensures forall c :: c in all ==> (PairAfter(dir, all, c, dir.Prev(ts)) <==> c in open)
  {
    var p :| p in all && dir.Pos(p.last) == at;
    assert p.last == dir.Prev(ts) && firsts[0] in firsts;
  }

  /** Without such a pair the next boundary changes nothing. */
  lemma TallyKept(dir: Direction, filter: Span, all: seq<Chunk>, at: int, k: int, result: seq<SpanInfo>, ts: int,
                  firsts: seq<Chunk>, lasts: seq<Chunk>, open: seq<Chunk>)
    requires GroupOk(dir, all, at, ts, firsts, lasts) && OpenAt(dir, all, at, open)
    requires firsts == [] || open == [] || Front(dir, all, at) < dir.Pos(ts)
    requires Tallied(dir, filter, all, at, k, result)
    ensures Tallied(dir, filter, all, dir.Pos(ts), k, result)
  {
    hide DistinctIds, ShowCount;
    forall c, t | c in all && PairAfter(dir, all, c, t) && at < dir.Pos(t) + 1 ensures dir.Pos(t) + 1 > dir.Pos(ts) {
      PairIsOpen(dir, all, at, ts, firsts, lasts, open, c, t);
    }
  }

  lemma PairIsOpen(dir: Direction, all: seq<Chunk>, at: int, ts: int, firsts: seq<Chunk>, lasts: seq<Chunk>, open: seq<Chunk>, c: Chunk, t: int)
    requires GroupOk(dir, all, at, ts, firsts, lasts) && OpenAt(dir, all, at, open)
    requires c in all && PairAfter(dir, all, c, t)
    ensures dir.Pos(t) + 1 <= at || dir.Pos(t) + 1 >= dir.Pos(ts)
    ensures dir.Next(t) == ts ==> firsts != [] && open != [] && Front(dir, all, at) == dir.Pos(ts)
  {
    var p :| p in all && p.last == t;
    var q :| q in all && q.first == dir.Next(t);
    if dir.Next(t) == ts {
      assert q in firsts;
      assert dir.Pos(p.last) == dir.Pos(ts) - 1 <= at;
      assert EndsAt(dir, all, at);
      assert c in open;
    }
  }

  /** With no chunk open there is nothing to show before the next boundary. */
  lemma TallyNothing(dir: Direction, filter: Span, all: seq<Chunk>, at: int, result: seq<SpanInfo>, ts: int,
                     firsts: seq<Chunk>, lasts: seq<Chunk>)
    requires ChunksOk(dir, all) && GroupOk(dir, all, at, ts, firsts, lasts) && OpenAt(dir, all, at, [])
    requires Tallied(dir, filter, all, dir.Pos(ts), Front(dir, all, at), result)
    ensures Tallied(dir, filter, all, dir.Pos(ts), dir.Pos(ts), result)
  {
    hide DistinctIds, ShowCount, PairAfter;
    forall c, t | c in all && Covers(dir, c, t) ensures dir.Pos(t) < Front(dir, all, at) || dir.Pos(t) >= dir.Pos(ts) {
      assert c !in [];
    }
  }

  /** The first half of a boundary keeps the tally. */
  lemma StartTally(dir: Direction, filter: Span, all: seq<Chunk>, at: int, result: seq<SpanInfo>, siFirst: int, ts: int,
                   firsts: seq<Chunk>, lasts: seq<Chunk>, open: seq<Chunk>, after: seq<SpanInfo>)
    requires ChunksOk(dir, all) && GroupOk(dir, all, at, ts, firsts, lasts) && firsts != []
    requires OpenAt(dir, all, at, open) && (open != [] ==> dir.Pos(siFirst) == Front(dir, all, at))
    requires Tallied(dir, filter, all, at, Front(dir, all, at), result) && NeverBack(dir, result, at)
    requires after == if open != [] then Emitted(filter, result, FirstLastToSpan(siFirst, dir.Prev(ts)), open) else result
    ensures Tallied(dir, filter, all, dir.Pos(ts), dir.Pos(ts), after) && NeverBack(dir, after, dir.Pos(ts))
  {
    hide Emitted, FirstLastToSpan, DistinctIds, OpenThrough, ChunksOk, Tallied, NeverBack;
    if open == [] {
      TallyKept(dir, filter, all, at, Front(dir, all, at), result, ts, firsts, lasts, open);
      TallyNothing(dir, filter, all, at, result, ts, firsts, lasts);
      LaterBound(dir, result, at, dir.Pos(ts));
    } else {
      EmittedNeverBack(dir, filter, result, siFirst, dir.Prev(ts), open, at, dir.Pos(ts));
      if Front(dir, all, at) == dir.Pos(ts) {
        TallyTwoPoints(dir, filter, all, at, result, ts, firsts, lasts, open);
      } else {
        OpenUpToNext(dir, all, at, siFirst, ts, firsts, lasts, open);
        TallyStretch(dir, filter, all, at, result, siFirst, dir.Prev(ts), open);
        TallyKept(dir, filter, all, at, dir.Pos(ts), after, ts, firsts, lasts, open);
      }
    }
  }

  lemma LaterBound(dir: Direction, result: seq<SpanInfo>, lo: int, hi: int)
    requires NeverBack(dir, result, lo) && lo <= hi
    ensures NeverBack(dir, result, hi)
  {
    forall i | 0 <= i < |result| ensures EndsBefore(dir, result[i].span, hi + 1) {
      assert EndsBefore(dir, result[i].span, lo + 1);
    }
  }

  /** ... and so does a boundary at which no chunk starts. */
  lemma NoStartTally(dir: Direction, filter: Span, all: seq<Chunk>, at: int, result: seq<SpanInfo>, ts: int,
                     firsts: seq<Chunk>, lasts: seq<Chunk>, open: seq<Chunk>)
    requires GroupOk(dir, all, at, ts, firsts, lasts) && firsts == [] && OpenAt(dir, all, at, open)
    requires Tallied(dir, filter, all, at, Front(dir, all, at), result)
    ensures Tallied(dir, filter, all, dir.Pos(ts), Front(dir, all, at), result)
  {
    TallyKept(dir, filter, all, at, Front(dir, all, at), result, ts, firsts, lasts, open);
  }

  /** The second half, where chunks end. */
  lemma EndTally(dir: Direction, filter: Span, all: seq<Chunk>, at: int, result: seq<SpanInfo>, siFirst: int, ts: int,
                 firsts: seq<Chunk>, lasts: seq<Chunk>, open: seq<Chunk>)
    requires GroupOk(dir, all, at, ts, firsts, lasts) && OpenOn(dir, all, dir.Pos(ts), open)
    requires siFirst == ts || (firsts == [] && dir.Pos(siFirst) == Front(dir, all, at))
    requires Tallied(dir, filter, all, dir.Pos(ts), dir.Pos(siFirst), result)
    requires NeverBack(dir, result, if firsts == [] then at else dir.Pos(ts))
    requires firsts != [] ==> siFirst == ts
    ensures var after := Emitted(filter, result, FirstLastToSpan(siFirst, ts), open);
            Tallied(dir, filter, all, dir.Pos(ts), dir.Pos(ts) + 1, after) && NeverBack(dir, after, dir.Pos(ts))
  {
    hide Emitted, FirstLastToSpan, DistinctIds, OpenThrough, Tallied, NeverBack;
    OpenOntoBoundary(dir, all, at, siFirst, ts, firsts, lasts, open);
    TallyStretch(dir, filter, all, dir.Pos(ts), result, siFirst, ts, open);
    EmittedNeverBack(dir, filter, result, siFirst, ts, open, if firsts == [] then at else dir.Pos(ts), dir.Pos(ts));
  }

  /** When every boundary has been passed, the tally is complete. */
  lemma TallyIsDone(dir: Direction, filter: Span, all: seq<Chunk>, at: int, result: seq<SpanInfo>)
    requires Tallied(dir, filter, all, at, Front(dir, all, at), result)
    requires forall c :: c in all ==> dir.Pos(c.first) <= at && dir.Pos(c.last) <= at
    ensures ShownOften(dir, filter, all, result)
  {
    hide ShowCount;
    forall c, ts | c in all && Covers(dir, c, ts) && filter.Contains(ts)
      ensures ShowCount(result, c, ts) == Times(dir, all, c, ts)
    {
      if dir.Pos(ts) == at {
        assert EndsAt(dir, all, at);
      }
    }
  }

  /** Accumulates chunks from boundary to boundary. */
  class Sweep {
    const dir: Direction
    const filter: Span
    var siChunks: seq<Chunk>
    var siFirst: int
    var result: seq<SpanInfo>
    /** All chunks, and the position of the last boundary. */
    ghost const all: seq<Chunk>
    ghost var at: int

    ghost predicate Valid()
      reads this
    {
      && ChunksOk(dir, all)
      && OpenAt(dir, all, at, siChunks)
      && (siChunks != [] ==> dir.Pos(siFirst) == Front(dir, all, at))
      && MadeUpTo(dir, filter, all, at, Front(dir, all, at), result)
      && Tallied(dir, filter, all, at, Front(dir, all, at), result)
      && NeverBack(dir, result, at)
    }

    constructor (dir: Direction, filter: Span, ghost all: seq<Chunk>, ghost at: int)
      requires ChunksOk(dir, all) && forall c :: c in all ==> dir.Pos(c.first) > at
      ensures Valid() && this.dir == dir && this.filter == filter && this.all == all && this.at == at && result == []
    {
      this.dir := dir;
      this.filter := filter;
      siChunks := [];
      siFirst := 0;
      result := [];
      this.all := all;
      this.at := at;
    }

    method Visit(ts: int, firstChunks: seq<Chunk>, lastChunks: seq<Chunk>)
      requires Valid() && GroupOk(dir, all, at, ts, firstChunks, lastChunks)
      modifies this
      ensures Valid() && at == dir.Pos(ts)
    {
      hide MadeUpTo, Tallied, NeverBack, FirstLastToSpan, OpenAt, Front, ChunksOk, GroupOk, DistinctIds;
      ghost var y := dir.Pos(ts);
      ghost var made := result;
      if |firstChunks| > 0 {
        made := StartStep(dir, filter, all, at, result, siFirst, ts, firstChunks, lastChunks, siChunks);
        StartTally(dir, filter, all, at, result, siFirst, ts, firstChunks, lastChunks, siChunks, made);
        if |siChunks| > 0 {
          var siSpan := FirstLastToSpan(siFirst, dir.Prev(ts));
          var chunks := CopyChunks(siChunks, []);
          if filter.Overlaps(siSpan) {
            result := result + [SpanInfo(filter.Intersect(siSpan), chunks)];
          }
        }
      } else {
        NoStartStep(dir, filter, all, at, result, ts, firstChunks, lastChunks, siChunks);
        NoStartTally(dir, filter, all, at, result, ts, firstChunks, lastChunks, siChunks);
      }
      OpenGains(dir, all, at, ts, firstChunks, lastChunks, siChunks);
      if |firstChunks| > 0 {
        siChunks := siChunks + firstChunks;
        siFirst := ts;
      }
      ghost var open := siChunks;
      assert open == old(siChunks) + firstChunks;
      if |lastChunks| > 0 {
        EndStep(dir, filter, all, at, result, siFirst, ts, firstChunks, lastChunks, siChunks);
        EndTally(dir, filter, all, at, result, siFirst, ts, firstChunks, lastChunks, siChunks);
        var siSpan := FirstLastToSpan(siFirst, ts);
        var chunks := CopyChunks(siChunks, []);
        if filter.Overlaps(siSpan) {
          result := result + [SpanInfo(filter.Intersect(siSpan), chunks)];
        }
        siChunks := CopyChunks(siChunks, lastChunks);
        siFirst := dir.Next(ts);
      }
      OpenLoses(dir, all, at, ts, firstChunks, lastChunks, open, siChunks);
      at := y;
    }
  }

  // ----------------------------------------------------------------- boundaries

  /** A chunk's first or last timestamp. */
  datatype Point = Point(idx: nat, first: bool, ts: int)

  /** The archive's order of chunks by a timestamp, ids breaking ties. */
  predicate ChunkTsLess(dir: Direction, iTs: int, iId: int, jTs: int, jId: int) {
    if dir == Forward then (if iTs == jTs then iId < jId else iTs < jTs)
    else (if jTs == iTs then jId < iId else jTs < iTs)
  }

  function IdAt(chunks: seq<Chunk>, idx: nat): int {
    if idx < |chunks| then chunks[idx].id else 0
  }

  function PointLess(dir: Direction, chunks: seq<Chunk>): (Point, Point) -> bool {
    (a: Point, b: Point) => ChunkTsLess(dir, a.ts, IdAt(chunks, a.idx), b.ts, IdAt(chunks, b.idx))
  }

  predicate IsEnd(chunks: seq<Chunk>, p: Point) {
    p.idx < |chunks| && p.ts == if p.first then chunks[p.idx].first else chunks[p.idx].last
  }

  /** These are the two ends of each chunk, once each. */
  ghost predicate EndsOf(chunks: seq<Chunk>, points: seq<Point>) {
    && NoDuplicates(points)
    && (forall k :: 0 <= k < |points| ==> IsEnd(chunks, points[k]))
    && (forall i :: 0 <= i < |chunks| ==> Point(i, true, chunks[i].first) in points && Point(i, false, chunks[i].last) in points)
  }

  /** The ends of all chunks, in the order of the data. */
  method SortedPoints(chunks: seq<Chunk>, dir: Direction) returns (points: seq<Point>)
    ensures EndsOf(chunks, points)
    ensures forall i, j :: 0 <= i < j < |points| ==> dir.Pos(points[i].ts) <= dir.Pos(points[j].ts)
    ensures forall i, j :: 0 <= i < j < |points| && points[i].ts == points[j].ts ==>
              dir.Pos(IdAt(chunks, points[i].idx)) <= dir.Pos(IdAt(chunks, points[j].idx))
  {
    var made: seq<Point> := [];
    for i := 0 to |chunks|
      invariant EndsOf(chunks[..i], made)
    {
      var c := chunks[i];
      ghost var before := made;
      made := made + [Point(i, true, c.first), Point(i, false, c.last)];
      MorePoints(chunks, i, before);
    }
    assert chunks[..|chunks|] == chunks;
    var less := PointLess(dir, chunks);
    points := Sort(made, less);
    SortSorted(made, less);
    SameEnds(chunks, made, points);
    forall i, j | 0 <= i < j < |points|
      ensures dir.Pos(points[i].ts) <= dir.Pos(points[j].ts)
      ensures points[i].ts == points[j].ts ==> dir.Pos(IdAt(chunks, points[i].idx)) <= dir.Pos(IdAt(chunks, points[j].idx))
    {
      assert !less(points[j], points[i]);
    }
  }

  lemma MorePoints(chunks: seq<Chunk>, i: nat, points: seq<Point>)
    requires i < |chunks| && EndsOf(chunks[..i], points)
    ensures EndsOf(chunks[..i + 1], points + [Point(i, true, chunks[i].first), Point(i, false, chunks[i].last)])
  {
    var after := points + [Point(i, true, chunks[i].first), Point(i, false, chunks[i].last)];
    assert Point(i, true, chunks[i].first) == after[|points|] && Point(i, false, chunks[i].last) == after[|points| + 1];
    forall k | 0 <= k < i ensures Point(k, true, chunks[k].first) in after && Point(k, false, chunks[k].last) in after {
      assert chunks[..i][k] == chunks[k];
    }
  }

  lemma SameEnds(chunks: seq<Chunk>, points: seq<Point>, sorted: seq<Point>)
    requires EndsOf(chunks, points) && multiset(points) == multiset(sorted)
    ensures EndsOf(chunks, sorted)
  {
    PermutationHasNoDuplicates(points, sorted);
    assert forall p :: p in sorted <==> p in multiset(sorted);
    assert forall p :: p in points <==> p in multiset(points);
    forall k | 0 <= k < |sorted| ensures sorted[k] in points {}
  }

  /** The point is an end of this kind of the chunk. */
  predicate EndOf(chunks: seq<Chunk>, p: Point, first: bool, c: Chunk) {
    p.first == first && p.idx < |chunks| && chunks[p.idx] == c
  }

  /** The chunks with an end of one kind among the points from `i` to `k`. */
  ghost predicate Gathered(chunks: seq<Chunk>, points: seq<Point>, i: nat, k: nat, first: bool, out: seq<Chunk>) {
    && i <= k <= |points|
    && DistinctIds(out)
    && (forall m, c :: i <= m < k && EndOf(chunks, points[m], first, c) ==> c in out)
    && (forall c :: c in out ==> exists m :: i <= m < k && EndOf(chunks, points[m], first, c))
  }

  lemma GatherOne(chunks: seq<Chunk>, points: seq<Point>, i: nat, k: nat, first: bool, out: seq<Chunk>)
    requires DistinctIds(chunks) && EndsOf(chunks, points) && k < |points| && Gathered(chunks, points, i, k, first, out)
    ensures Gathered(chunks, points, i, k + 1, first, if points[k].first == first then out + [chunks[points[k].idx]] else out)
  {
    assert IsEnd(chunks, points[k]);
    var c := chunks[points[k].idx];
    if points[k].first == first {
      assert EndOf(chunks, points[k], first, c);
      forall j | 0 <= j < |out| ensures out[j].id != c.id {
        NewEnd(chunks, points, i, k, first, out, j);
      }
      var after := out + [c];
      forall d | d in after ensures exists m :: i <= m < k + 1 && EndOf(chunks, points[m], first, d) {
        if d in out {
          var m :| i <= m < k && EndOf(chunks, points[m], first, d);
        }
      }
    }
  }

  lemma NewEnd(chunks: seq<Chunk>, points: seq<Point>, i: nat, k: nat, first: bool, out: seq<Chunk>, j: nat)
    requires DistinctIds(chunks) && EndsOf(chunks, points) && k < |points| && Gathered(chunks, points, i, k, first, out)
    requires points[k].first == first && j < |out|
    ensures points[k].idx < |chunks| && out[j].id != chunks[points[k].idx].id
  {
    assert IsEnd(chunks, points[k]);
    assert out[j] in out;
    var m :| i <= m < k && EndOf(chunks, points[m], first, out[j]);
    assert points[m] != points[k] && IsEnd(chunks, points[m]);
  }

  /** All points of one timestamp make a complete group. */
  lemma GroupIsComplete(dir: Direction, chunks: seq<Chunk>, points: seq<Point>, i: nat, j: nat, at: int,
                        firsts: seq<Chunk>, lasts: seq<Chunk>)
    requires EndsOf(chunks, points) && i < j <= |points|
    requires forall m :: 0 <= m < i ==> dir.Pos(points[m].ts) <= at
    requires forall m :: i <= m < j ==> points[m].ts == points[i].ts
    requires forall m :: j <= m < |points| ==> dir.Pos(points[m].ts) > dir.Pos(points[i].ts)
    requires at < dir.Pos(points[i].ts)
    requires Gathered(chunks, points, i, j, true, firsts) && Gathered(chunks, points, i, j, false, lasts)
    ensures GroupOk(dir, chunks, at, points[i].ts, firsts, lasts)
  {
    var ts := points[i].ts;
    forall c | c in chunks
      ensures dir.Pos(c.first) <= at || dir.Pos(c.first) >= dir.Pos(ts)
      ensures dir.Pos(c.last) <= at || dir.Pos(c.last) >= dir.Pos(ts)
      ensures c.first == ts ==> c in firsts
      ensures c.last == ts ==> c in lasts
    {
      var k :| 0 <= k < |chunks| && chunks[k] == c;
      var a :| 0 <= a < |points| && points[a] == Point(k, true, c.first);
      var b :| 0 <= b < |points| && points[b] == Point(k, false, c.last);
      assert EndOf(chunks, points[a], true, c) && EndOf(chunks, points[b], false, c);
    }
    GatheredAtTs(chunks, points, i, j, true, firsts);
    GatheredAtTs(chunks, points, i, j, false, lasts);
    assert IsEnd(chunks, points[i]);
    assert EndOf(chunks, points[i], points[i].first, chunks[points[i].idx]);
  }

  lemma GatheredAtTs(chunks: seq<Chunk>, points: seq<Point>, i: nat, j: nat, first: bool, out: seq<Chunk>)
    requires EndsOf(chunks, points) && i < j <= |points| && Gathered(chunks, points, i, j, first, out)
    requires forall m :: i <= m < j ==> points[m].ts == points[i].ts
    ensures forall c :: c in out ==> c in chunks && points[i].ts == if first then c.first else c.last
  {
    forall c | c in out ensures c in chunks && points[i].ts == if first then c.first else c.last {
      var m :| i <= m < j && EndOf(chunks, points[m], first, c);
      assert IsEnd(chunks, points[m]);
    }
  }

  /** Visits every boundary in order. */
  method Boundaries(chunks: seq<Chunk>, points: seq<Point>, dir: Direction, sweep: Sweep)
    requires EndsOf(chunks, points) && forall i, j :: 0 <= i < j < |points| ==> dir.Pos(points[i].ts) <= dir.Pos(points[j].ts)
    requires DistinctIds(chunks) && sweep.Valid() && sweep.all == chunks && sweep.dir == dir
    requires forall i :: 0 <= i < |points| ==> sweep.at < dir.Pos(points[i].ts)
    modifies sweep
    ensures sweep.Valid()
    ensures forall c :: c in chunks ==> dir.Pos(c.first) <= sweep.at && dir.Pos(c.last) <= sweep.at
  {
    hide Sweep.Valid, EndsOf, GroupOk, Gathered, DistinctIds;
    var i := 0;
    while i < |points|
      invariant 0 <= i <= |points| && sweep.Valid()
      invariant forall m :: 0 <= m < i ==> dir.Pos(points[m].ts) <= sweep.at
      invariant forall m :: i <= m < |points| ==> sweep.at < dir.Pos(points[m].ts)
    {
      var j := i + 1;
      while j < |points| && points[i].ts == points[j].ts
        invariant i < j <= |points|
        invariant forall m :: i <= m < j ==> points[m].ts == points[i].ts
      {
        j := j + 1;
      }
      var firsts, lasts := Gather(chunks, points, i, j);
      var ts := points[i].ts;
      GroupIsComplete(dir, chunks, points, i, j, sweep.at, firsts, lasts);
      sweep.Visit(ts, firsts, lasts);
      i := j;
    }
    EndsWereVisited(dir, chunks, points, sweep.at);
  }

  lemma EndsWereVisited(dir: Direction, chunks: seq<Chunk>, points: seq<Point>, at: int)
    requires EndsOf(chunks, points) && forall m :: 0 <= m < |points| ==> dir.Pos(points[m].ts) <= at
    ensures forall c :: c in chunks ==> dir.Pos(c.first) <= at && dir.Pos(c.last) <= at
  {
    forall c | c in chunks ensures dir.Pos(c.first) <= at && dir.Pos(c.last) <= at {
      var k :| 0 <= k < |chunks| && chunks[k] == c;
      assert Point(k, true, c.first) in points && Point(k, false, c.last) in points;
    }
  }

  method Gather(chunks: seq<Chunk>, points: seq<Point>, i: nat, j: nat) returns (firsts: seq<Chunk>, lasts: seq<Chunk>)
    requires DistinctIds(chunks) && EndsOf(chunks, points) && i <= j <= |points|
    ensures Gathered(chunks, points, i, j, true, firsts) && Gathered(chunks, points, i, j, false, lasts)
  {
    firsts, lasts := [], [];
    for k := i to j
      invariant Gathered(chunks, points, i, k, true, firsts) && Gathered(chunks, points, i, k, false, lasts)
    {
      GatherOne(chunks, points, i, k, true, firsts);
      GatherOne(chunks, points, i, k, false, lasts);
      var p := points[k];
      if p.first {
        firsts := firsts + [chunks[p.idx]];
      } else {
        lasts := lasts + [chunks[p.idx]];
      }
    }
  }

  // ---------------------------------------------------------------- all spans

  lemma SpansAreDisjoint(dir: Direction, result: seq<SpanInfo>, i: nat, j: nat, t: int)
    requires InOrder(dir, result) && i < |result| && j < |result|
    ensures result[i].span.Contains(t) && result[j].span.Contains(t) ==> i == j
  {
    if i < j {
      assert Before(dir, result[i].span, result[j].span);
    } else if j < i {
      assert Before(dir, result[j].span, result[i].span);
    }
  }

  /** Disjoint spans that show everything list every chunk they have to. */
  lemma InOrderIsExact(dir: Direction, filter: Span, all: seq<Chunk>, result: seq<SpanInfo>)
    requires Complete(dir, filter, all, result) && Sound(dir, filter, all, result) && InOrder(dir, result)
    ensures Exact(dir, all, result)
  {
    forall i, c, t | 0 <= i < |result| && c in all && result[i].span.Contains(t) && Covers(dir, c, t)
      ensures c in result[i].chunks
    {
      assert InfoSound(dir, filter, all, result[i]);
      var j :| 0 <= j < |result| && Shows(result[j], c, t);
      SpansAreDisjoint(dir, result, i, j, t);
    }
  }

  /** What the sweep leaves when it has passed every boundary. */
  lemma SweepIsDone(dir: Direction, filter: Span, all: seq<Chunk>, at: int, result: seq<SpanInfo>)
    requires ChunksOk(dir, all) && MadeUpTo(dir, filter, all, at, Front(dir, all, at), result)
    requires forall c :: c in all ==> dir.Pos(c.first) <= at && dir.Pos(c.last) <= at
    ensures Complete(dir, filter, all, result) && Sound(dir, filter, all, result)
    ensures NoAdjacent(dir, filter, all) ==> InOrder(dir, result)
    ensures !NoAdjacent(dir, filter, all) ==> !Exact(dir, all, result)
  {
    hide Sound, InOrder, AllBefore, Exact, Adjacent, Shown, DistinctIds;
    forall c, ts | c in all && Covers(dir, c, ts) && filter.Contains(ts) ensures Shown(result, c, ts) {
      if dir.Pos(ts) == at {
        assert EndsAt(dir, all, at);
      }
      assert dir.Pos(ts) < Front(dir, all, at);
    }
    assert NoAdjacent(dir, filter, all) <==> NoAdjacentUpTo(dir, filter, all, at);
  }

  /**
   * The spans to scan for these chunks.  They show every filtered timestamp of every
   * chunk, once and once more for each pair of chunks adjacent there under it, and they
   * never go back.  They are disjoint, and list exactly the chunks that cover them,
   * just when no chunk starts right after another's end under a third one.
   */
  method MergeChunksToSpans(chunks: seq<Chunk>, dir: Direction, filter: Span) returns (result: seq<SpanInfo>)
    requires ChunksOk(dir, chunks)
    ensures Complete(dir, filter, chunks, result) && Sound(dir, filter, chunks, result)
    ensures NeverGoesBack(dir, result) && ShownOften(dir, filter, chunks, result)
    ensures InOrder(dir, result) <==> NoAdjacent(dir, filter, chunks)
    ensures Exact(dir, chunks, result) <==> NoAdjacent(dir, filter, chunks)
  {
    hide Complete, Sound, InOrder, Exact, NoAdjacent, MadeUpTo, Tallied, ShownOften, Front;
    var points := SortedPoints(chunks, dir);
    ghost var at := if |points| > 0 then dir.Pos(points[0].ts) - 1 else 0;
    FirstsAreLater(dir, chunks, points, at);
    var sweep := new Sweep(dir, filter, chunks, at);
    Boundaries(chunks, points, dir, sweep);
    result := sweep.result;
    SweepIsDone(dir, filter, chunks, sweep.at, result);
    TallyIsDone(dir, filter, chunks, sweep.at, result);
    if InOrder(dir, result) {
      InOrderIsExact(dir, filter, chunks, result);
    }
  }

  lemma FirstsAreLater(dir: Direction, chunks: seq<Chunk>, points: seq<Point>, at: int)
    requires EndsOf(chunks, points) && forall k :: 0 <= k < |points| ==> at < dir.Pos(points[k].ts)
    ensures forall c :: c in chunks ==> dir.Pos(c.first) > at
  {
    forall c | c in chunks ensures dir.Pos(c.first) > at {
      var k :| 0 <= k < |chunks| && chunks[k] == c;
      assert Point(k, true, c.first) in points;
    }
  }

  /** A pair adjacent under a third chunk, at a place the filter lets through, is what repeats a timestamp. */
  lemma RepeatedIsAdjacent(dir: Direction, filter: Span, all: seq<Chunk>, c: Chunk, ts: int)
    requires c in all && filter.Contains(ts) && Times(dir, all, c, ts) > 1
    ensures !NoAdjacent(dir, filter, all)
  {
    var t := if PairAfter(dir, all, c, ts) then ts else dir.Prev(ts);
    var p :| p in all && p.last == t;
    var q :| q in all && q.first == dir.Next(t);
    assert Adjacent(dir, filter, p, q, c);
  }

  /** Three chunks whose spans overlap: chunk 2 is shown twice at 1 and at 2, and once at 3. */
  method AdjacentExample() returns (result: seq<SpanInfo>)
    ensures var c := Chunk(2, 0, 10);
            && ShowCount(result, c, 1) == 2 && ShowCount(result, c, 2) == 2 && ShowCount(result, c, 3) == 1
            && !InOrder(Forward, result)
  {
    var chunks := [Chunk(1, 0, 1), Chunk(2, 0, 10), Chunk(3, 2, 3)];
    ExampleTimes(chunks);
    hide ChunksOk, NoAdjacent, Times, Complete, Sound, NeverGoesBack, Exact, InOrder, ShowCount, Covers;
    result := MergeChunksToSpans(chunks, Forward, MAX_SPAN);
  }

  lemma ExampleTimes(chunks: seq<Chunk>)
    requires chunks == [Chunk(1, 0, 1), Chunk(2, 0, 10), Chunk(3, 2, 3)]
    ensures ChunksOk(Forward, chunks) && !NoAdjacent(Forward, MAX_SPAN, chunks)
    ensures var c := Chunk(2, 0, 10);
            && c in chunks && Covers(Forward, c, 1) && Covers(Forward, c, 2) && Covers(Forward, c, 3)
            && Times(Forward, chunks, c, 1) == 2 && Times(Forward, chunks, c, 2) == 2 && Times(Forward, chunks, c, 3) == 1
  {
    assert chunks[0] in chunks && chunks[1] in chunks && chunks[2] in chunks;
    assert Adjacent(Forward, MAX_SPAN, chunks[0], chunks[2], chunks[1]);
    assert PairAfter(Forward, chunks, chunks[1], 1);
    assert forall x :: x in chunks ==> x == chunks[0] || x == chunks[1] || x == chunks[2];
  }
}
