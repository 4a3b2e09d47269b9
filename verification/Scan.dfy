/**
 * Scanning an archive (archive/multisource.go, archive/walk.go): the days in order,
 * the spans of each day in order, and a merge of the chunks inside each span.
 */
module Scans {
  import opened Bytes
  import opened Combiners
  import opened Dealing
  import opened Overlap
  import opened Sorting
  import opened Spans

  const DAY := 86_400_000_000_000

  // --------------------------------------------------------------- one span

  function KeptAll(files: seq<seq<Record>>, span: Span, keep: Record -> bool): (r: seq<seq<Record>>)
    ensures |r| == |files| && forall k :: 0 <= k < |files| ==> r[k] == Kept(files[k], span, keep)
  {
    seq(|files|, k requires 0 <= k < |files| => Kept(files[k], span, keep))
  }

  lemma {:induction false} MergeOfOne(dir: Direction, part: seq<Record>)
    ensures Merge(dir, [part]) == part
    decreases |part|
  {
    assert Best(dir, [part], 0) == -1;
    assert Best(dir, [part], 1) == if part == [] then -1 else 0;
    if part != [] {
      assert Popped([part], 0) == [part[1..]];
      MergeOfOne(dir, part[1..]);
    }
  }

  /** The records of a span: a single file is scanned as it is, several are merged. */
  method ScanSpan(files: seq<seq<Record>>, dir: Direction, span: Span, keep: Record -> bool) returns (out: seq<Record>)
    ensures out == Merge(dir, KeptAll(files, span, keep))
  {
    hide Merge, Kept, PullerReader.Valid, PullerReader.Remaining, Scanner.Valid, Scanner.Remaining, Combiner.Valid, Combiner.Left;
    if |files| == 1 {
      out := ScanOne(files[0], span, keep);
      assert KeptAll(files, span, keep) == [out];
      MergeOfOne(dir, out);
      return;
    }
    var readers: seq<PullerReader> := [];
    for k := 0 to |files|
      invariant |readers| == k && Separate(readers)
      invariant forall j :: 0 <= j < k ==> fresh(readers[j]) && fresh(readers[j].p) && fresh(readers[j].p.reader)
      invariant forall j :: 0 <= j < k ==> readers[j].Valid() && readers[j].Remaining() == Kept(files[j], span, keep)
    {
      var scanner := new Scanner(files[k], span, keep);
      var reader := new PullerReader(scanner);
      readers := readers + [reader];
    }
    var combiner := new Combiner(readers, dir);
    assert combiner.Left() == KeptAll(files, span, keep);
    out := CopyPuller(combiner);
  }

  /** Everything a combiner delivers, batch by batch. */
  method CopyPuller(p: Combiner) returns (out: seq<Record>)
    requires p.Valid()
    modifies p`hol, p`done, Parts(p.readers)
    ensures out == Merge(p.dir, old(p.Left()))
  {
    hide Merge, Combiner.Valid, Combiner.Left, Parts;
    out := [];
    while true
      invariant p.Valid() && Merge(p.dir, old(p.Left())) == out + Merge(p.dir, p.Left())
      decreases |Merge(p.dir, p.Left())|
    {
      var batch := p.Pull();
      if batch == [] {
        return;
      }
      ConcatAssociative(out, batch, Merge(p.dir, p.Left()));
      out := out + batch;
    }
  }

  method ScanOne(file: seq<Record>, span: Span, keep: Record -> bool) returns (out: seq<Record>)
    ensures out == Kept(file, span, keep)
  {
    hide Kept, Scanner.Valid, Scanner.Remaining;
    out := [];
    var p := new Scanner(file, span, keep);
    while true
      invariant fresh(p) && fresh(p.reader) && p.Valid() && Kept(file, span, keep) == out + p.Remaining()
      decreases |p.Remaining()|
    {
      var batch := p.Pull();
      if batch == [] {
        return;
      }
      ConcatAssociative(out, batch, p.Remaining());
      out := out + batch;
    }
  }

  // ----------------------------------------------------------------- one day

  /** A directory entry of interest: a data file, the seek index file beside it, or neither. */
  datatype Dirent = DataFile(id: int) | SeekIndex(id: int, first: int, last: int) | Other

  /** A day's directory and the records its data files hold. */
  datatype TsDir = TsDir(ts: int, entries: seq<Dirent>, files: map<int, seq<Record>>)

  function FileOf(d: TsDir, c: Chunk): seq<Record> {
    if c.id in d.files then d.files[c.id] else []
  }

  function FilesOf(d: TsDir, chunks: seq<Chunk>): (r: seq<seq<Record>>)
    ensures |r| == |chunks| && forall k :: 0 <= k < |chunks| ==> r[k] == FileOf(d, chunks[k])
  {
    seq(|chunks|, k requires 0 <= k < |chunks| => FileOf(d, chunks[k]))
  }

  function DaySpan(d: TsDir): Span { Span(d.ts, DAY) }

  /** The chunk's file is in order, within the chunk's bounds, and these are within the day. */
  ghost predicate ChunkInDay(dir: Direction, d: TsDir, c: Chunk) {
    && dir.Pos(c.first) <= dir.Pos(c.last)
    && DaySpan(d).Contains(c.first) && DaySpan(d).Contains(c.last)
    && Combiners.InOrder(dir, FileOf(d, c))
    && forall i :: 0 <= i < |FileOf(d, c)| ==> Covers(dir, c, FileOf(d, c)[i].ts)
  }

  /** The records wanted. */
  predicate Wanted(filter: Span, keep: Record -> bool, rec: Record) {
    filter.Contains(rec.ts) && keep(rec)
  }

  /** How often the chunks hold a record. */
  ghost function HeldBy(d: TsDir, chunks: seq<Chunk>, rec: Record): nat {
    if chunks == [] then 0
    else HeldBy(d, chunks[..|chunks| - 1], rec) + multiset(FileOf(d, chunks[|chunks| - 1]))[rec]
  }

  lemma {:induction false} KeptCount(recs: seq<Record>, span: Span, keep: Record -> bool, rec: Record)
    ensures multiset(Kept(recs, span, keep))[rec] == if Selects(span, keep, rec) then multiset(recs)[rec] else 0
  {
    if recs != [] {
      hide Selects;
      KeptCount(recs[1..], span, keep, rec);
      assert recs == [recs[0]] + recs[1..];
    }
  }

  lemma {:induction false} KeptInOrder(dir: Direction, recs: seq<Record>, span: Span, keep: Record -> bool)
    requires Combiners.InOrder(dir, recs)
    ensures Combiners.InOrder(dir, Kept(recs, span, keep))
    ensures forall x :: x in Kept(recs, span, keep) ==> x in recs && Selects(span, keep, x)
  {
    if recs != [] {
      hide Selects;
      var rest := recs[1..];
      KeptInOrder(dir, rest, span, keep);
      assert recs == [recs[0]] + rest;
      forall i | 0 <= i < |Kept(rest, span, keep)| ensures dir.Pos(recs[0].ts) <= dir.Pos(Kept(rest, span, keep)[i].ts) {
        assert Kept(rest, span, keep)[i] in rest;
      }
    }
  }

  /** The count in merged and filtered files is the count in the files. */
  lemma {:induction false} CountInMerge(d: TsDir, chunks: seq<Chunk>, span: Span, keep: Record -> bool, rec: Record)
    ensures Count(KeptAll(FilesOf(d, chunks), span, keep), rec) == if Selects(span, keep, rec) then HeldBy(d, chunks, rec) else 0
    decreases |chunks|
  {
    if chunks != [] {
      hide Selects, Kept, Count, FileOf, KeptAll, FilesOf;
      var front, c := chunks[..|chunks| - 1], chunks[|chunks| - 1];
      CountInMerge(d, front, span, keep, rec);
      KeptCount(FileOf(d, c), span, keep, rec);
      KeptAllSnoc(d, chunks, span, keep);
      CountSnoc(KeptAll(FilesOf(d, front), span, keep), Kept(FileOf(d, c), span, keep), rec);
    }
  }

  lemma KeptAllSnoc(d: TsDir, chunks: seq<Chunk>, span: Span, keep: Record -> bool)
    requires chunks != []
    ensures var front, c := chunks[..|chunks| - 1], chunks[|chunks| - 1];
            KeptAll(FilesOf(d, chunks), span, keep) == KeptAll(FilesOf(d, front), span, keep) + [Kept(FileOf(d, c), span, keep)]
  {
    hide Kept, FileOf;
  }

  lemma {:induction false} CountSnoc(parts: seq<seq<Record>>, part: seq<Record>, rec: Record)
    ensures Count(parts + [part], rec) == Count(parts, rec) + multiset(part)[rec]
  {
    if parts == [] {
      assert [part][1..] == [] && parts + [part] == [part];
    } else {
      CountSnoc(parts[1..], part, rec);
      assert (parts + [part])[1..] == parts[1..] + [part];
    }
  }

  // -------------------------------------------------- a day's spans put together

  /** What the spans made from a day's chunks are like when all are in order. */
  ghost predicate SpansOk(dir: Direction, filter: Span, d: TsDir, chunks: seq<Chunk>, spans: seq<SpanInfo>) {
    && ChunksOk(dir, chunks)
    && (forall c :: c in chunks ==> ChunkInDay(dir, d, c))
    && Complete(dir, filter, chunks, spans) && Sound(dir, filter, chunks, spans)
  }

  /** No span of a day is the unlimited one, which a scanner would not check. */
  lemma SpanIsLimited(dir: Direction, d: TsDir, c: Chunk, si: SpanInfo)
    requires ChunkInDay(dir, d, c) && c in si.chunks && forall ts :: Shows(si, c, ts) ==> Covers(dir, c, ts)
    ensures si.span != MAX_SPAN
  {
    assert !(Covers(dir, c, 0) && Covers(dir, c, 2 * DAY));
    assert !(Shows(si, c, 0) && Shows(si, c, 2 * DAY));
  }

  /** How often a span's scan delivers a record. */
  ghost function SpanCount(d: TsDir, si: SpanInfo, keep: Record -> bool, rec: Record): nat {
    if Wanted(si.span, keep, rec) then HeldBy(d, si.chunks, rec) else 0
  }

  ghost function SpansCount(d: TsDir, spans: seq<SpanInfo>, keep: Record -> bool, rec: Record): nat {
    if spans == [] then 0
    else SpansCount(d, spans[..|spans| - 1], keep, rec) + SpanCount(d, spans[|spans| - 1], keep, rec)
  }

  /** One scanned span: in order, inside the span, each record as often as its chunks hold it. */
  ghost predicate SpanScanned(dir: Direction, d: TsDir, si: SpanInfo, keep: Record -> bool, out: seq<Record>) {
    && Combiners.InOrder(dir, out)
    && forall rec :: multiset(out)[rec] == SpanCount(d, si, keep, rec)
  }

  lemma SpanIsScanned(dir: Direction, filter: Span, d: TsDir, chunks: seq<Chunk>, spans: seq<SpanInfo>, i: nat, keep: Record -> bool)
    requires SpansOk(dir, filter, d, chunks, spans) && i < |spans|
    ensures SpanScanned(dir, d, spans[i], keep, Merge(dir, KeptAll(FilesOf(d, spans[i].chunks), spans[i].span, keep)))
  {
    var si := spans[i];
    var parts := KeptAll(FilesOf(d, si.chunks), si.span, keep);
    assert InfoSound(dir, filter, chunks, si);
    forall k | 0 <= k < |parts| ensures Combiners.InOrder(dir, parts[k]) {
      assert si.chunks[k] in chunks;
      KeptInOrder(dir, FileOf(d, si.chunks[k]), si.span, keep);
    }
    MergeSorted(dir, parts);
    MergeIsDealt(dir, parts);
    forall rec ensures multiset(Merge(dir, parts))[rec] == SpanCount(d, si, keep, rec) {
      DealtCount(Merge(dir, parts), parts, rec);
      CountInMerge(d, si.chunks, si.span, keep, rec);
      if si.chunks != [] {
        SpanIsLimited(dir, d, si.chunks[0], si);
      }
    }
  }

  lemma MergeSorted(dir: Direction, parts: seq<seq<Record>>)
    requires AllInOrder(dir, parts)
    ensures Combiners.InOrder(dir, Merge(dir, parts))
  {
    var lo := LowerBound(dir, parts);
    MergeInOrder(dir, parts, lo);
  }

  lemma {:induction false} LowerBound(dir: Direction, parts: seq<seq<Record>>) returns (lo: int)
    requires AllInOrder(dir, parts)
    ensures AllFrom(dir, parts, lo)
  {
    if parts == [] {
      return 0;
    }
    lo := LowerBound(dir, parts[1..]);
    if parts[0] != [] {
      lo := Min(lo, dir.Pos(parts[0][0].ts));
    }
    assert Combiners.InOrder(dir, parts[0]);
    forall k, i | 0 <= k < |parts| && 0 <= i < |parts[k]| ensures lo <= dir.Pos(parts[k][i].ts) {
      if k > 0 {
        assert parts[1..][k - 1] == parts[k];
      }
    }
  }

  /** How often a day's chunks hold a record that is wanted. */
  ghost function DayCount(d: TsDir, chunks: seq<Chunk>, filter: Span, keep: Record -> bool, rec: Record): nat {
    if Wanted(filter, keep, rec) then HeldBy(d, chunks, rec) else 0
  }

  /** The chunk's file holds the record. */
  predicate Holds(d: TsDir, c: Chunk, rec: Record) { rec in FileOf(d, c) }

  lemma {:induction false} HeldSomewhere(d: TsDir, chunks: seq<Chunk>, rec: Record)
    ensures HeldBy(d, chunks, rec) > 0 <==> exists c :: c in chunks && Holds(d, c, rec)
  {
    if chunks != [] {
      var front, c := chunks[..|chunks| - 1], chunks[|chunks| - 1];
      HeldSomewhere(d, front, rec);
      assert forall x :: x in chunks <==> x in front || x == c;
      assert Holds(d, c, rec) <==> multiset(FileOf(d, c))[rec] > 0;
    }
  }

  lemma {:induction false} CountedSomewhere(d: TsDir, spans: seq<SpanInfo>, keep: Record -> bool, rec: Record)
    ensures SpansCount(d, spans, keep, rec) > 0 <==> exists i :: 0 <= i < |spans| && SpanCount(d, spans[i], keep, rec) > 0
  {
    if spans != [] {
      hide SpanCount;
      var front, last := spans[..|spans| - 1], |spans| - 1;
      CountedSomewhere(d, front, keep, rec);
      if SpanCount(d, spans[last], keep, rec) == 0 {
        assert forall i :: 0 <= i < last ==> front[i] == spans[i];
      }
    }
  }

  /** The spans deliver every wanted record, and no other. */
  lemma SpansLoseNothing(dir: Direction, filter: Span, d: TsDir, chunks: seq<Chunk>, spans: seq<SpanInfo>, keep: Record -> bool, rec: Record)
    requires SpansOk(dir, filter, d, chunks, spans)
    ensures SpansCount(d, spans, keep, rec) > 0 <==> DayCount(d, chunks, filter, keep, rec) > 0
  {
    CountedSomewhere(d, spans, keep, rec);
    HeldSomewhere(d, chunks, rec);
    if DayCount(d, chunks, filter, keep, rec) > 0 {
      var c :| c in chunks && Holds(d, c, rec);
      HolderCovers(dir, d, c, rec);
      assert Shown(spans, c, rec.ts);
      var i :| 0 <= i < |spans| && Shows(spans[i], c, rec.ts);
      HeldSomewhere(d, spans[i].chunks, rec);
      assert SpanCount(d, spans[i], keep, rec) > 0;
    }
    if i :| 0 <= i < |spans| && SpanCount(d, spans[i], keep, rec) > 0 {
      assert InfoSound(dir, filter, chunks, spans[i]);
      HeldSomewhere(d, spans[i].chunks, rec);
    }
  }

  lemma HolderCovers(dir: Direction, d: TsDir, c: Chunk, rec: Record)
    requires ChunkInDay(dir, d, c) && Holds(d, c, rec)
    ensures Covers(dir, c, rec.ts)
  {
    var i :| 0 <= i < |FileOf(d, c)| && FileOf(d, c)[i] == rec;
  }

  /** Two lists of chunks that hold a record in the same chunks hold it equally often. */
  lemma {:induction false} SameHolders(d: TsDir, a: seq<Chunk>, b: seq<Chunk>, rec: Record)
    requires DistinctIds(a) && DistinctIds(b)
    requires forall c :: c in a ==> c in b
    requires forall c :: c in b && Holds(d, c, rec) ==> c in a
    ensures HeldBy(d, a, rec) == HeldBy(d, b, rec)
    decreases |b|
  {
    if b == [] {
      HeldSomewhere(d, a, rec);
    } else {
      var front, c := b[..|b| - 1], b[|b| - 1];
      assert forall x :: x in b <==> x in front || x == c;
      assert c !in front;
      if c in a {
        var i :| 0 <= i < |a| && a[i] == c;
        HeldWithout(d, a, i, rec);
        var rest := a[..i] + a[i + 1..];
        assert forall x :: x in rest <==> x in a && x != c;
        SameHolders(d, rest, front, rec);
      } else {
        SameHolders(d, a, front, rec);
        assert multiset(FileOf(d, c))[rec] == 0;
      }
    }
  }

  lemma {:induction false} HeldWithout(d: TsDir, a: seq<Chunk>, i: nat, rec: Record)
    requires i < |a|
    ensures HeldBy(d, a, rec) == HeldBy(d, a[..i] + a[i + 1..], rec) + multiset(FileOf(d, a[i]))[rec]
    decreases |a|
  {
    hide FileOf;
    var front := a[..|a| - 1];
    if i == |a| - 1 {
      assert a[..i] + a[i + 1..] == front;
    } else {
      HeldWithout(d, front, i, rec);
      assert a[..i] + a[i + 1..] == (front[..i] + front[i + 1..]) + [a[|a| - 1]];
      HeldSnoc(d, front[..i] + front[i + 1..], a[|a| - 1], rec);
    }
  }

  lemma HeldSnoc(d: TsDir, a: seq<Chunk>, c: Chunk, rec: Record)
    ensures HeldBy(d, a + [c], rec) == HeldBy(d, a, rec) + multiset(FileOf(d, c))[rec]
  {
    assert (a + [c])[..|a|] == a;
  }

  // --------------------------------------------- how often a record is delivered

  /** How often the chunks hold a record, counting each chunk as often as the spans show it there. */
  ghost function ShownBy(d: TsDir, chunks: seq<Chunk>, spans: seq<SpanInfo>, rec: Record): nat {
    if chunks == [] then 0
    else
      var c := chunks[|chunks| - 1];
      ShownBy(d, chunks[..|chunks| - 1], spans, rec) + multiset(FileOf(d, c))[rec] * ShowCount(spans, c, rec.ts)
  }

  /** Those of the chunks that the span lists. */
  ghost function ListedIn(chunks: seq<Chunk>, si: SpanInfo): seq<Chunk> {
    if chunks == [] then []
    else
      var c := chunks[|chunks| - 1];
      ListedIn(chunks[..|chunks| - 1], si) + if c in si.chunks then [c] else []
  }

  lemma {:induction false} ListedInIs(chunks: seq<Chunk>, si: SpanInfo)
    requires DistinctIds(chunks)
    ensures DistinctIds(ListedIn(chunks, si))
    ensures forall c :: c in ListedIn(chunks, si) <==> c in chunks && c in si.chunks
  {
    if chunks != [] {
      var front, c := chunks[..|chunks| - 1], chunks[|chunks| - 1];
      ListedInIs(front, si);
      assert forall x :: x in chunks <==> x in front || x == c;
      forall k | 0 <= k < |ListedIn(front, si)| ensures ListedIn(front, si)[k].id != c.id {
        assert ListedIn(front, si)[k] in front;
      }
    }
  }

  /** One more span adds what the chunks it lists hold. */
  lemma {:induction false} ShownByOneMore(d: TsDir, chunks: seq<Chunk>, spans: seq<SpanInfo>, si: SpanInfo, rec: Record)
    ensures ShownBy(d, chunks, spans + [si], rec) ==
            ShownBy(d, chunks, spans, rec) + if si.span.Contains(rec.ts) then HeldBy(d, ListedIn(chunks, si), rec) else 0
  {
    if chunks != [] {
      hide FileOf, ShowCount, HeldBy, ListedIn;
      var front, c := chunks[..|chunks| - 1], chunks[|chunks| - 1];
      ShownByOneMore(d, front, spans, si, rec);
      ListedNext(d, chunks, si, rec);
      ShowCountNext(spans, si, c, rec.ts);
      ProductOfSum(multiset(FileOf(d, c))[rec], ShowCount(spans, c, rec.ts), if Shows(si, c, rec.ts) then 1 else 0);
    } else {
      assert ListedIn(chunks, si) == [];
    }
  }

  lemma ListedNext(d: TsDir, chunks: seq<Chunk>, si: SpanInfo, rec: Record)
    requires chunks != []
    ensures var front, c := chunks[..|chunks| - 1], chunks[|chunks| - 1];
            HeldBy(d, ListedIn(chunks, si), rec) ==
            HeldBy(d, ListedIn(front, si), rec) + if c in si.chunks then multiset(FileOf(d, c))[rec] else 0
  {
    hide HeldBy;
    var front, c := chunks[..|chunks| - 1], chunks[|chunks| - 1];
    HeldSnoc(d, ListedIn(front, si), c, rec);
    assert ListedIn(front, si) + [] == ListedIn(front, si);
  }

  lemma ShowCountNext(spans: seq<SpanInfo>, si: SpanInfo, c: Chunk, ts: int)
    ensures ShowCount(spans + [si], c, ts) == ShowCount(spans, c, ts) + if Shows(si, c, ts) then 1 else 0
  {
    assert (spans + [si])[..|spans|] == spans;
  }

  lemma ProductOfSum(n: nat, a: nat, b: nat)
    ensures n * (a + b) == n * a + n * b
    ensures b == 0 ==> n * b == 0
    ensures b == 1 ==> n * b == n
  {
  }

  lemma {:induction false} NothingShown(d: TsDir, chunks: seq<Chunk>, rec: Record)
    ensures ShownBy(d, chunks, [], rec) == 0
  {
    if chunks != [] {
      NothingShown(d, chunks[..|chunks| - 1], rec);
      ProductOfSum(multiset(FileOf(d, chunks[|chunks| - 1]))[rec], 0, 0);
    }
  }

  /** The spans deliver a record as often as its chunks hold it and are shown there. */
  lemma {:induction false} SpansDeliver(dir: Direction, filter: Span, d: TsDir, chunks: seq<Chunk>, spans: seq<SpanInfo>, keep: Record -> bool, rec: Record)
    requires DistinctIds(chunks) && Sound(dir, filter, chunks, spans)
    ensures SpansCount(d, spans, keep, rec) == if keep(rec) then ShownBy(d, chunks, spans, rec) else 0
    decreases |spans|
  {
    if spans == [] {
      NothingShown(d, chunks, rec);
    } else {
      hide HeldBy, DistinctIds;
      var front, si := spans[..|spans| - 1], spans[|spans| - 1];
      SpansDeliver(dir, filter, d, chunks, front, keep, rec);
      ShownByOneMore(d, chunks, front, si, rec);
      assert spans == front + [si];
      assert InfoSound(dir, filter, chunks, si);
      ListedInIs(chunks, si);
      SameHolders(d, ListedIn(chunks, si), si.chunks, rec);
    }
  }

  /** How often a day's scan delivers a record: for every pair adjacent there under a chunk that holds it, once more. */
  ghost function Delivered(dir: Direction, d: TsDir, all: seq<Chunk>, chunks: seq<Chunk>, rec: Record): nat {
    if chunks == [] then 0
    else
      var c := chunks[|chunks| - 1];
      Delivered(dir, d, all, chunks[..|chunks| - 1], rec) + multiset(FileOf(d, c))[rec] * Times(dir, all, c, rec.ts)
  }

  lemma {:induction false} ShownIsDelivered(dir: Direction, filter: Span, d: TsDir, all: seq<Chunk>, chunks: seq<Chunk>, spans: seq<SpanInfo>, rec: Record)
    requires forall c :: c in chunks ==> c in all && ChunkInDay(dir, d, c)
    requires ShownOften(dir, filter, all, spans) && filter.Contains(rec.ts)
    ensures ShownBy(d, chunks, spans, rec) == Delivered(dir, d, all, chunks, rec)
    decreases |chunks|
  {
    if chunks != [] {
      hide Times, ShowCount, ChunkInDay, FileOf;
      var c := chunks[|chunks| - 1];
      ShownIsDelivered(dir, filter, d, all, chunks[..|chunks| - 1], spans, rec);
      ShownLikeHeld(dir, filter, d, all, c, spans, rec);
    }
  }

  lemma ShownLikeHeld(dir: Direction, filter: Span, d: TsDir, all: seq<Chunk>, c: Chunk, spans: seq<SpanInfo>, rec: Record)
    requires c in all && ChunkInDay(dir, d, c) && ShownOften(dir, filter, all, spans) && filter.Contains(rec.ts)
    ensures multiset(FileOf(d, c))[rec] * ShowCount(spans, c, rec.ts) == multiset(FileOf(d, c))[rec] * Times(dir, all, c, rec.ts)
  {
    hide Times, ShowCount;
    if Holds(d, c, rec) {
      HolderCovers(dir, d, c, rec);
    } else {
      assert multiset(FileOf(d, c))[rec] == 0;
      ProductOfSum(0, ShowCount(spans, c, rec.ts), 0);
      ProductOfSum(0, Times(dir, all, c, rec.ts), 0);
    }
  }

  /** What a day's scan delivers of a record. */
  ghost function DayDelivers(dir: Direction, d: TsDir, chunks: seq<Chunk>, filter: Span, keep: Record -> bool, rec: Record): nat {
    if Wanted(filter, keep, rec) then Delivered(dir, d, chunks, chunks, rec) else 0
  }

  /** No chunk that holds the record is open across a pair adjacent there. */
  ghost predicate NotRepeated(dir: Direction, d: TsDir, all: seq<Chunk>, chunks: seq<Chunk>, rec: Record) {
    forall c :: c in chunks && Holds(d, c, rec) ==> !PairAfter(dir, all, c, dir.Prev(rec.ts)) && !PairAfter(dir, all, c, rec.ts)
  }

  /** A record is delivered at least as often as held, and just so often exactly when it is not repeated. */
  lemma {:induction false} DeliveredExactly(dir: Direction, d: TsDir, all: seq<Chunk>, chunks: seq<Chunk>, rec: Record)
    ensures Delivered(dir, d, all, chunks, rec) >= HeldBy(d, chunks, rec)
    ensures Delivered(dir, d, all, chunks, rec) == HeldBy(d, chunks, rec) <==> NotRepeated(dir, d, all, chunks, rec)
    decreases |chunks|
  {
    if chunks != [] {
      hide PairAfter, FileOf;
      var front, c := chunks[..|chunks| - 1], chunks[|chunks| - 1];
      DeliveredExactly(dir, d, all, front, rec);
      assert forall x :: x in chunks <==> x in front || x == c;
      TimesHeld(dir, d, all, c, rec);
    }
  }

  lemma TimesHeld(dir: Direction, d: TsDir, all: seq<Chunk>, c: Chunk, rec: Record)
    ensures var n := multiset(FileOf(d, c))[rec];
            && n * Times(dir, all, c, rec.ts) >= n
            && (n * Times(dir, all, c, rec.ts) == n <==> n == 0 || Times(dir, all, c, rec.ts) == 1)
            && (n == 0 <==> !Holds(d, c, rec))
  {
    var n, t := multiset(FileOf(d, c))[rec], Times(dir, all, c, rec.ts);
    ProductOfSum(n, 1, t - 1);
    if n > 0 && t > 1 {
      assert n * (t - 1) >= 1 by {
        ProductOfSum(n, 1, t - 2);
      }
    }
  }

  // ------------------------------------------------------- a whole day scanned

  /** What has been scanned of a day after some of its spans. */
  ghost predicate ScannedSpans(dir: Direction, d: TsDir, spans: seq<SpanInfo>, keep: Record -> bool, out: seq<Record>) {
    && (forall rec :: multiset(out)[rec] == SpansCount(d, spans, keep, rec))
    && Combiners.InOrder(dir, out)
  }

  lemma ScanOneMore(dir: Direction, d: TsDir, spans: seq<SpanInfo>, si: SpanInfo, keep: Record -> bool, out: seq<Record>, next: seq<Record>)
    requires ScannedSpans(dir, d, spans, keep, out) && SpanScanned(dir, d, si, keep, next)
    requires NeverGoesBack(dir, spans + [si])
    ensures ScannedSpans(dir, d, spans + [si], keep, out + next)
  {
    var all := spans + [si];
    assert all[..|all| - 1] == spans;
    assert multiset(out + next) == multiset(out) + multiset(next);
    forall a, b | 0 <= a < |out| && 0 <= b < |next| ensures dir.Pos(out[a].ts) <= dir.Pos(next[b].ts) {
      DeliveredBefore(dir, d, all, keep, out[a], next[b]);
    }
    ConcatInOrder(dir, out, next);
  }

  lemma DeliveredBefore(dir: Direction, d: TsDir, all: seq<SpanInfo>, keep: Record -> bool, x: Record, y: Record)
    requires all != [] && NeverGoesBack(dir, all)
    requires SpansCount(d, all[..|all| - 1], keep, x) > 0 && SpanCount(d, all[|all| - 1], keep, y) > 0
    ensures dir.Pos(x.ts) <= dir.Pos(y.ts)
  {
    var front := all[..|all| - 1];
    CountedSomewhere(d, front, keep, x);
    var i :| 0 <= i < |front| && SpanCount(d, front[i], keep, x) > 0;
    assert NotBehind(dir, all[i].span, all[|all| - 1].span);
  }

  lemma ConcatInOrder(dir: Direction, a: seq<Record>, b: seq<Record>)
    requires Combiners.InOrder(dir, a) && Combiners.InOrder(dir, b)
    requires forall i, j :: 0 <= i < |a| && 0 <= j < |b| ==> dir.Pos(a[i].ts) <= dir.Pos(b[j].ts)
    ensures Combiners.InOrder(dir, a + b)
  {
  }

  /** No wanted record of the day is at a place where chunks are adjacent under the chunk that holds it. */
  ghost predicate NothingRepeated(dir: Direction, d: TsDir, chunks: seq<Chunk>, filter: Span, keep: Record -> bool) {
    forall rec :: Wanted(filter, keep, rec) ==> NotRepeated(dir, d, chunks, chunks, rec)
  }

  /** How a scan of the chunks delivers their records: in order, each wanted one, and nothing else. */
  ghost predicate DayScanned(dir: Direction, d: TsDir, chunks: seq<Chunk>, filter: Span, keep: Record -> bool, out: seq<Record>) {
    && Combiners.InOrder(dir, out)
    && (forall rec :: multiset(out)[rec] == DayDelivers(dir, d, chunks, filter, keep, rec))
    && (forall rec :: rec in out <==> DayCount(d, chunks, filter, keep, rec) > 0)
    && ((forall rec :: multiset(out)[rec] == DayCount(d, chunks, filter, keep, rec)) <==>
          NothingRepeated(dir, d, chunks, filter, keep))
  }

  /**
   * All of a day's spans, one after the other.  The records wanted come in order and no
   * others; each comes as often as stored if and only if no pair of chunks is adjacent
   * under a third one that holds a wanted record at the end of the one or the start of
   * the other.
   */
  method ScanDay(d: TsDir, chunks: seq<Chunk>, dir: Direction, filter: Span, keep: Record -> bool) returns (out: seq<Record>)
    requires ChunksOk(dir, chunks) && forall c :: c in chunks ==> ChunkInDay(dir, d, c)
    ensures DayScanned(dir, d, chunks, filter, keep, out)
  {
    hide ScannedSpans, SpanScanned, DayScanned, NoAdjacent, Overlap.InOrder, Exact, Complete, Sound, ChunkInDay, ChunksOk, Merge, ShownOften;
    var spans := MergeChunksToSpans(chunks, dir, filter);
    assert SpansOk(dir, filter, d, chunks, spans);
    out := [];
    NothingScanned(dir, d, keep);
    for k := 0 to |spans|
      invariant ScannedSpans(dir, d, spans[..k], keep, out)
    {
      var si := spans[k];
      var next := ScanSpan(FilesOf(d, si.chunks), dir, si.span, keep);
      SpanIsScanned(dir, filter, d, chunks, spans, k, keep);
      assert spans[..k + 1] == spans[..k] + [si];
      ScanOneMore(dir, d, spans[..k], si, keep, out, next);
      out := out + next;
    }
    assert spans[..|spans|] == spans;
    DayIsScanned(dir, filter, d, chunks, spans, keep, out);
  }

  lemma NothingScanned(dir: Direction, d: TsDir, keep: Record -> bool)
    ensures ScannedSpans(dir, d, [], keep, [])
  {
  }

  lemma DayIsScanned(dir: Direction, filter: Span, d: TsDir, chunks: seq<Chunk>, spans: seq<SpanInfo>, keep: Record -> bool, out: seq<Record>)
    requires SpansOk(dir, filter, d, chunks, spans) && ScannedSpans(dir, d, spans, keep, out)
    requires ShownOften(dir, filter, chunks, spans)
    ensures DayScanned(dir, d, chunks, filter, keep, out)
  {
    hide SpansOk, ShownOften, SpansCount, DayCount, DayDelivers, NothingRepeated;
    forall rec
      ensures rec in out <==> DayCount(d, chunks, filter, keep, rec) > 0
      ensures multiset(out)[rec] == DayDelivers(dir, d, chunks, filter, keep, rec)
    {
      SpansLoseNothing(dir, filter, d, chunks, spans, keep, rec);
      assert rec in out <==> rec in multiset(out);
      SpansCountIs(dir, filter, d, chunks, spans, keep, rec);
    }
    DayDeliversExactly(dir, d, chunks, filter, keep);
    assert (forall rec :: multiset(out)[rec] == DayCount(d, chunks, filter, keep, rec)) <==>
           (forall rec :: DayDelivers(dir, d, chunks, filter, keep, rec) == DayCount(d, chunks, filter, keep, rec));
  }

  lemma SpansCountIs(dir: Direction, filter: Span, d: TsDir, chunks: seq<Chunk>, spans: seq<SpanInfo>, keep: Record -> bool, rec: Record)
    requires SpansOk(dir, filter, d, chunks, spans) && ShownOften(dir, filter, chunks, spans)
    ensures SpansCount(d, spans, keep, rec) == DayDelivers(dir, d, chunks, filter, keep, rec)
  {
    SpansDeliver(dir, filter, d, chunks, spans, keep, rec);
    if filter.Contains(rec.ts) {
      ShownIsDelivered(dir, filter, d, chunks, chunks, spans, rec);
    } else {
      SpansLoseNothing(dir, filter, d, chunks, spans, keep, rec);
    }
  }

  lemma DayDeliversExactly(dir: Direction, d: TsDir, chunks: seq<Chunk>, filter: Span, keep: Record -> bool)
    ensures (forall rec :: DayDelivers(dir, d, chunks, filter, keep, rec) == DayCount(d, chunks, filter, keep, rec)) <==>
            NothingRepeated(dir, d, chunks, filter, keep)
    ensures forall rec :: DayDelivers(dir, d, chunks, filter, keep, rec) >= DayCount(d, chunks, filter, keep, rec)
  {
    hide NotRepeated, Delivered, HeldBy;
    forall rec
      ensures DayDelivers(dir, d, chunks, filter, keep, rec) >= DayCount(d, chunks, filter, keep, rec)
      ensures DayDelivers(dir, d, chunks, filter, keep, rec) == DayCount(d, chunks, filter, keep, rec) <==>
              (Wanted(filter, keep, rec) ==> NotRepeated(dir, d, chunks, chunks, rec))
    {
      DeliveredExactly(dir, d, chunks, chunks, rec);
    }
  }

  /** Where no chunk starts right after another's end under a third one, nothing is repeated. */
  lemma NotAdjacentNotRepeated(dir: Direction, d: TsDir, chunks: seq<Chunk>, filter: Span, keep: Record -> bool)
    requires NoAdjacent(dir, filter, chunks)
    ensures NothingRepeated(dir, d, chunks, filter, keep)
  {
    hide NoAdjacent, PairAfter;
    forall rec, c | Wanted(filter, keep, rec) && c in chunks && Holds(d, c, rec)
      ensures !PairAfter(dir, chunks, c, dir.Prev(rec.ts)) && !PairAfter(dir, chunks, c, rec.ts)
    {
      if Times(dir, chunks, c, rec.ts) > 1 {
        RepeatedIsAdjacent(dir, filter, chunks, c, rec.ts);
      }
    }
  }

  /** A day whose scan delivers two records twice: they are where chunk 3 starts right after chunk 1 ends, in chunk 2. */
  method RepeatExample() returns (out: seq<Record>)
    ensures multiset(out)[Record(1, 1, 0)] == 2 && multiset(out)[Record(2, 1, 0)] == 2 && multiset(out)[Record(3, 1, 0)] == 1
  {
    var chunks := [Chunk(1, 0, 1), Chunk(2, 0, 10), Chunk(3, 2, 3)];
    var recs := [Record(1, 1, 0), Record(2, 1, 0), Record(3, 1, 0)];
    var d := TsDir(0, [], map[2 := recs]);
    ExampleDelivers(d, chunks, recs);
    hide DayDelivers, ChunksOk, ChunkInDay, NothingRepeated, DayCount, Combiners.InOrder;
    out := ScanDay(d, chunks, Forward, MAX_SPAN, _ => true);
  }

  lemma ExampleDelivers(d: TsDir, chunks: seq<Chunk>, recs: seq<Record>)
    requires chunks == [Chunk(1, 0, 1), Chunk(2, 0, 10), Chunk(3, 2, 3)]
    requires recs == [Record(1, 1, 0), Record(2, 1, 0), Record(3, 1, 0)] && d == TsDir(0, [], map[2 := recs])
    ensures ChunksOk(Forward, chunks) && forall c :: c in chunks ==> ChunkInDay(Forward, d, c)
    ensures DayDelivers(Forward, d, chunks, MAX_SPAN, _ => true, Record(1, 1, 0)) == 2
    ensures DayDelivers(Forward, d, chunks, MAX_SPAN, _ => true, Record(2, 1, 0)) == 2
    ensures DayDelivers(Forward, d, chunks, MAX_SPAN, _ => true, Record(3, 1, 0)) == 1
  {
    ExampleTimes(chunks);
    ExampleInDay(d, chunks, recs);
    hide Times, ChunksOk, ChunkInDay, Delivered;
    ExampleDelivered(d, chunks, recs, 0);
    ExampleDelivered(d, chunks, recs, 1);
    ExampleDelivered(d, chunks, recs, 2);
  }

  lemma ExampleInDay(d: TsDir, chunks: seq<Chunk>, recs: seq<Record>)
    requires chunks == [Chunk(1, 0, 1), Chunk(2, 0, 10), Chunk(3, 2, 3)]
    requires recs == [Record(1, 1, 0), Record(2, 1, 0), Record(3, 1, 0)] && d == TsDir(0, [], map[2 := recs])
    ensures forall c :: c in chunks ==> ChunkInDay(Forward, d, c)
  {
  }

  lemma ExampleDelivered(d: TsDir, chunks: seq<Chunk>, recs: seq<Record>, i: nat)
    requires chunks == [Chunk(1, 0, 1), Chunk(2, 0, 10), Chunk(3, 2, 3)] && i < 3
    requires recs == [Record(1, 1, 0), Record(2, 1, 0), Record(3, 1, 0)] && d == TsDir(0, [], map[2 := recs])
    ensures Delivered(Forward, d, chunks, chunks, recs[i]) == Times(Forward, chunks, chunks[1], recs[i].ts)
  {
    hide Times, Delivered;
    DeliveredByOne(Forward, d, chunks, chunks, 1, recs[i]);
    assert multiset(recs)[recs[i]] == 1;
  }

  /** When one chunk alone holds records, it alone delivers. */
  lemma {:induction false} DeliveredByOne(dir: Direction, d: TsDir, all: seq<Chunk>, chunks: seq<Chunk>, i: nat, rec: Record)
    requires forall k :: 0 <= k < |chunks| && k != i ==> FileOf(d, chunks[k]) == []
    ensures Delivered(dir, d, all, chunks, rec) ==
            if i < |chunks| then multiset(FileOf(d, chunks[i]))[rec] * Times(dir, all, chunks[i], rec.ts) else 0
    decreases |chunks|
  {
    if chunks != [] {
      hide Times, FileOf;
      DeliveredByOne(dir, d, all, chunks[..|chunks| - 1], i, rec);
      var c := chunks[|chunks| - 1];
      ProductOfSum(0, Times(dir, all, c, rec.ts), 0);
    }
  }
}
