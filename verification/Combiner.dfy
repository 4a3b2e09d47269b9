/**
 * Reading sorted files through filtering scanners and merging them into one stream
 * (zbuf/combiner.go, zbuf/batch.go, scanner/scanner.go, scanner/combiner.go).
 */
module Combiners {
  import opened Bytes
  import opened Dealing
  import opened Spans

  /** A record: its timestamp, the length of its encoding, and what else it holds. */
  datatype Record = Record(ts: int, size: nat, value: int)

  const BATCH_SIZE: nat := 100

  lemma BatchSize()
    ensures BATCH_SIZE == 100
  {
  }

  // ------------------------------------------------------------------ merging

  /** RecordCompare: not strict in reverse. */
  predicate Less(dir: Direction, a: Record, b: Record) {
    if dir == Forward then a.ts < b.ts else !(a.ts < b.ts)
  }

  ghost predicate InOrder(dir: Direction, recs: seq<Record>) {
    forall i, j :: 0 <= i < j < |recs| ==> dir.Pos(recs[i].ts) <= dir.Pos(recs[j].ts)
  }

  /** Which of the first `n` parts to take the next record from; -1 when all are empty. */
  function Best(dir: Direction, parts: seq<seq<Record>>, n: nat): (b: int)
    requires n <= |parts|
    ensures -1 <= b < n && (b >= 0 ==> parts[b] != [])
  {
    if n == 0 then -1
    else
      var b := Best(dir, parts, n - 1);
      if parts[n - 1] == [] then b
      else if b == -1 || Less(dir, parts[n - 1][0], parts[b][0]) then n - 1
      else b
  }

  /**
   * The head taken comes first among all heads; of equal ones forward reading takes
   * that of the first reader and reverse reading that of the last.
   */
  lemma {:induction false} BestComesFirst(dir: Direction, parts: seq<seq<Record>>, n: nat)
    requires n <= |parts|
    ensures var b := Best(dir, parts, n);
            if b == -1 then forall j :: 0 <= j < n ==> parts[j] == []
            else forall j :: 0 <= j < n && parts[j] != [] ==>
                   if j == b then true
                   else if (j < b) == (dir == Forward) then dir.Pos(parts[b][0].ts) < dir.Pos(parts[j][0].ts)
                   else dir.Pos(parts[b][0].ts) <= dir.Pos(parts[j][0].ts)
  {
    if n > 0 {
      BestComesFirst(dir, parts, n - 1);
    }
  }

  /** All the records the readers will deliver together. */
  function Merge(dir: Direction, parts: seq<seq<Record>>): seq<Record>
    decreases Total(parts)
  {
    var b := Best(dir, parts, |parts|);
    if b == -1 then []
    else
      TotalDrops(parts, b);
      [parts[b][0]] + Merge(dir, Popped(parts, b))
  }

  lemma {:induction false} MergeIsDealt(dir: Direction, parts: seq<seq<Record>>)
    ensures Dealt(Merge(dir, parts), parts)
    decreases Total(parts)
  {
    var b := Best(dir, parts, |parts|);
    BestComesFirst(dir, parts, |parts|);
    if b != -1 {
      TotalDrops(parts, b);
      MergeIsDealt(dir, Popped(parts, b));
      assert GoesTo(Merge(dir, parts)[0], parts, b);
      assert Merge(dir, parts)[1..] == Merge(dir, Popped(parts, b));
    }
  }

  ghost predicate AllInOrder(dir: Direction, parts: seq<seq<Record>>) {
    forall k :: 0 <= k < |parts| ==> InOrder(dir, parts[k])
  }

  /** All of the parts come at or after position `lo`. */
  ghost predicate AllFrom(dir: Direction, parts: seq<seq<Record>>, lo: int) {
    forall k, i :: 0 <= k < |parts| && 0 <= i < |parts[k]| ==> lo <= dir.Pos(parts[k][i].ts)
  }

  /** Merging sorted parts gives a sorted whole, in reverse too. */
  lemma {:induction false} MergeInOrder(dir: Direction, parts: seq<seq<Record>>, lo: int)
    requires AllInOrder(dir, parts) && AllFrom(dir, parts, lo)
    ensures InOrder(dir, Merge(dir, parts))
    ensures forall i :: 0 <= i < |Merge(dir, parts)| ==> lo <= dir.Pos(Merge(dir, parts)[i].ts)
    decreases Total(parts)
  {
    var b := Best(dir, parts, |parts|);
    if b != -1 {
      TotalDrops(parts, b);
      var rest := Popped(parts, b);
      var next := dir.Pos(parts[b][0].ts);
      PoppedComesLater(dir, parts, b);
      MergeInOrder(dir, rest, next);
      assert Merge(dir, parts) == [parts[b][0]] + Merge(dir, rest);
    }
  }

  lemma PoppedComesLater(dir: Direction, parts: seq<seq<Record>>, b: nat)
    requires AllInOrder(dir, parts) && b == Best(dir, parts, |parts|)
    ensures AllInOrder(dir, Popped(parts, b)) && AllFrom(dir, Popped(parts, b), dir.Pos(parts[b][0].ts))
  {
    BestComesFirst(dir, parts, |parts|);
    var rest := Popped(parts, b);
    forall k | 0 <= k < |rest| ensures InOrder(dir, rest[k]) {
      assert InOrder(dir, parts[k]);
    }
    forall k, i | 0 <= k < |rest| && 0 <= i < |rest[k]| ensures dir.Pos(parts[b][0].ts) <= dir.Pos(rest[k][i].ts) {
      assert InOrder(dir, parts[k]);
      if k == b {
        assert rest[k][i] == parts[k][i + 1];
      } else {
        assert rest[k][i] == parts[k][i] && dir.Pos(parts[k][0].ts) <= dir.Pos(parts[k][i].ts);
      }
    }
  }

  /** How often a record occurs in all parts. */
  ghost function Count(parts: seq<seq<Record>>, rec: Record): nat {
    if parts == [] then 0 else multiset(parts[0])[rec] + Count(parts[1..], rec)
  }

  lemma {:induction false} CountPopped(parts: seq<seq<Record>>, b: nat, rec: Record)
    requires b < |parts| && parts[b] != []
    ensures Count(parts, rec) == Count(Popped(parts, b), rec) + if rec == parts[b][0] then 1 else 0
  {
    if b > 0 {
      CountPopped(parts[1..], b - 1, rec);
      assert Popped(parts, b)[1..] == Popped(parts[1..], b - 1);
    } else {
      assert parts[0] == [parts[0][0]] + parts[0][1..];
      assert Popped(parts, 0)[1..] == parts[1..];
    }
  }

  /** What is dealt out is neither lost nor repeated. */
  lemma {:induction false} DealtCount(out: seq<Record>, parts: seq<seq<Record>>, rec: Record)
    requires Dealt(out, parts)
    ensures multiset(out)[rec] == Count(parts, rec)
    decreases |out|
  {
    if out == [] {
      NothingToCount(parts, rec);
    } else {
      var b: nat :| GoesTo(out[0], parts, b) && Dealt(out[1..], Popped(parts, b));
      DealtCount(out[1..], Popped(parts, b), rec);
      CountPopped(parts, b, rec);
      assert out == [out[0]] + out[1..];
    }
  }

  lemma {:induction false} NothingToCount(parts: seq<seq<Record>>, rec: Record)
    requires forall j :: 0 <= j < |parts| ==> parts[j] == []
    ensures Count(parts, rec) == 0
  {
    if parts != [] {
      NothingToCount(parts[1..], rec);
    }
  }

  // ----------------------------------------------------------------- scanning

  /** Whether a scanner over `span` lets the record through. */
  predicate Selects(span: Span, keep: Record -> bool, rec: Record) {
    (span == MAX_SPAN || span.Contains(rec.ts)) && keep(rec)
  }

  function Kept(recs: seq<Record>, span: Span, keep: Record -> bool): seq<Record> {
    if recs == [] then []
    else (if Selects(span, keep, recs[0]) then [recs[0]] else []) + Kept(recs[1..], span, keep)
  }

  lemma {:induction false} KeptAppend(a: seq<Record>, b: seq<Record>, span: Span, keep: Record -> bool)
    ensures Kept(a + b, span, keep) == Kept(a, span, keep) + Kept(b, span, keep)
  {
    if a == [] {
      assert a + b == b;
    } else {
      hide Selects;
      KeptAppend(a[1..], b, span, keep);
      assert (a + b)[1..] == a[1..] + b;
      ConcatAssociative(if Selects(span, keep, a[0]) then [a[0]] else [], Kept(a[1..], span, keep), Kept(b, span, keep));
    }
  }

  lemma KeptNext(rec: Record, rest: seq<Record>, span: Span, keep: Record -> bool)
    ensures Kept([rec] + rest, span, keep) == (if Selects(span, keep, rec) then [rec] else []) + Kept(rest, span, keep)
  {
    assert ([rec] + rest)[1..] == rest;
  }

  function Size(recs: seq<Record>): nat {
    if recs == [] then 0 else recs[0].size + Size(recs[1..])
  }

  lemma {:induction false} SizeAppend(a: seq<Record>, b: seq<Record>)
    ensures Size(a + b) == Size(a) + Size(b)
  {
    if a == [] {
      assert a + b == b;
    } else {
      SizeAppend(a[1..], b);
      assert (a + b)[1..] == a[1..] + b;
    }
  }

  /** Reads a file of records from front to back. */
  class FileReader {
    var rest: seq<Record>

    constructor (recs: seq<Record>)
      ensures rest == recs
    {
      rest := recs;
    }

    method Read() returns (r: Option<Record>)
      modifies this
      ensures old(rest) == if r.Some? then [r.value] + rest else []
      ensures r.None? ==> rest == []
    {
      if rest == [] {
        return None;
      }
      r := Some(rest[0]);
      rest := rest[1..];
    }
  }

  datatype ScannerStats = ScannerStats(bytesRead: nat, bytesMatched: nat, recordsRead: nat, recordsMatched: nat) {
    function Plus(s: ScannerStats): ScannerStats {
      ScannerStats(bytesRead + s.bytesRead, bytesMatched + s.bytesMatched,
                   recordsRead + s.recordsRead, recordsMatched + s.recordsMatched)
    }
  }

  /** What a scanner counts for records it has read. */
  function StatsFor(seen: seq<Record>, span: Span, keep: Record -> bool): ScannerStats {
    ScannerStats(Size(seen), Size(Kept(seen, span, keep)), |seen|, |Kept(seen, span, keep)|)
  }

  lemma StatsOfOneMore(seen: seq<Record>, rec: Record, span: Span, keep: Record -> bool)
    ensures StatsFor(seen + [rec], span, keep) ==
            StatsFor(seen, span, keep).Plus(if Selects(span, keep, rec) then ScannerStats(rec.size, rec.size, 1, 1)
                                            else ScannerStats(rec.size, 0, 1, 0))
  {
    KeptAppend(seen, [rec], span, keep);
    SizeAppend(seen, [rec]);
    SizeAppend(Kept(seen, span, keep), Kept([rec], span, keep));
    assert Size([rec]) == rec.size;
  }

  /** Filters the records of a reader, counting as it goes. */
  class Scanner {
    const reader: FileReader
    const span: Span
    const keep: Record -> bool
    var stats: ScannerStats
    /** The records read so far, and all there are. */
    ghost var seen: seq<Record>
    ghost const all: seq<Record>

    ghost predicate Valid()
      reads this, reader
    {
      seen + reader.rest == all && stats == StatsFor(seen, span, keep)
    }

    /** The records still to be delivered. */
    ghost function Remaining(): seq<Record>
      reads reader
    {
      Kept(reader.rest, span, keep)
    }

    constructor (recs: seq<Record>, span: Span, keep: Record -> bool)
      ensures Valid() && fresh(reader) && all == recs && this.span == span && this.keep == keep && seen == []
      ensures Remaining() == Kept(recs, span, keep)
    {
      reader := new FileReader(recs);
      this.span := span;
      this.keep := keep;
      stats := ScannerStats(0, 0, 0, 0);
      seen := [];
      all := recs;
    }

    method Read() returns (r: Option<Record>)
      requires Valid()
      modifies this, reader
      ensures Valid() && old(Remaining()) == if r.Some? then [r.value] + Remaining() else []
      ensures r.None? ==> Remaining() == [] && seen == all
    {
      hide StatsFor;
      while true
        invariant Valid() && Remaining() == old(Remaining())
        decreases |reader.rest|
      {
        ghost var before := reader.rest;
        var rec := reader.Read();
        if rec.None? {
          return None;
        }
        StatsOfOneMore(seen, rec.value, span, keep);
        KeptNext(rec.value, reader.rest, span, keep);
        ConcatAssociative(seen, [rec.value], reader.rest);
        seen := seen + [rec.value];
        stats := stats.Plus(ScannerStats(rec.value.size, 0, 1, 0));
        if (span != MAX_SPAN && !span.Contains(rec.value.ts)) || !keep(rec.value) {
          continue;
        }
        stats := stats.Plus(ScannerStats(0, rec.value.size, 0, 1));
        return rec;
      }
    }

    /** The next batch; empty at the end. */
    method Pull() returns (batch: seq<Record>)
      requires Valid()
      modifies this, reader
      ensures Valid() && old(Remaining()) == batch + Remaining()
      ensures |batch| <= 100 && (|batch| < 100 ==> Remaining() == [] && seen == all)
    {
      hide *;
      BatchSize();
      batch := [];
      while |batch| < BATCH_SIZE
        invariant Valid() && |batch| <= BATCH_SIZE && old(Remaining()) == batch + Remaining()
      {
        var rec := Read();
        if rec.None? {
          break;
        }
        ConcatAssociative(batch, [rec.value], Remaining());
        batch := batch + [rec.value];
      }
    }
  }

  /** Reads the batches of a scanner record by record. */
  class PullerReader {
    const p: Scanner
    var batch: seq<Record>
    var idx: nat

    ghost predicate Valid()
      reads this, p, p.reader
    {
      p.Valid() && (batch == [] || idx < |batch|)
    }

    ghost function Remaining(): seq<Record>
      requires Valid()
      reads this, p, p.reader
    {
      (if batch == [] then [] else batch[idx..]) + p.Remaining()
    }

    constructor (p: Scanner)
      requires p.Valid()
      ensures Valid() && this.p == p && Remaining() == p.Remaining()
    {
      this.p := p;
      batch := [];
      idx := 0;
    }

    /** Delivers exactly what the scanner would have. */
    method Read() returns (r: Option<Record>)
      requires Valid()
      modifies this, p, p.reader
      ensures Valid() && old(Remaining()) == if r.Some? then [r.value] + Remaining() else []
      ensures r.None? ==> Remaining() == [] && p.seen == p.all
    {
      hide Scanner.Valid, Scanner.Remaining;
      if batch == [] {
        var b := p.Pull();
        if b == [] {
          return None;
        }
        batch := b;
        idx := 0;
      }
      ghost var left := batch[idx..];
      var rec := batch[idx];
      assert left == [rec] + batch[idx + 1..];
      ConcatAssociative([rec], batch[idx + 1..], p.Remaining());
      assert idx + 1 == |batch| ==> batch[idx + 1..] == [];
      idx := idx + 1;
      if idx == |batch| {
        batch := [];
      }
      r := Some(rec);
    }
  }

  /** The objects a set of readers is made of. */
  ghost function Parts(readers: seq<PullerReader>): set<object> {
    (set k | 0 <= k < |readers| :: readers[k] as object)
    + (set k | 0 <= k < |readers| :: readers[k].p as object)
    + (set k | 0 <= k < |readers| :: readers[k].p.reader as object)
  }

  /** No two readers share anything. */
  ghost predicate Separate(readers: seq<PullerReader>) {
    forall i, j :: 0 <= i < j < |readers| ==> Apart(readers[i], readers[j])
  }

  ghost predicate Apart(a: PullerReader, b: PullerReader) {
    a != b && a.p != b.p && a.p.reader != b.p.reader
  }

  /** What the readers' scanners count for all of their records. */
  ghost function SumOfStats(readers: seq<PullerReader>): ScannerStats {
    if readers == [] then ScannerStats(0, 0, 0, 0)
    else
      var p := readers[|readers| - 1].p;
      SumOfStats(readers[..|readers| - 1]).Plus(StatsFor(p.all, p.span, p.keep))
  }

  /** Merges readers, holding the next record of each. */
  class Combiner {
    const dir: Direction
    const readers: seq<PullerReader>
    var hol: seq<Option<Record>>
    var done: seq<bool>

    ghost predicate Valid()
      reads this, Parts(readers)
    {
      && Separate(readers)
      && |hol| == |done| == |readers|
      && forall k :: 0 <= k < |readers| ==> ReaderOk(k)
    }

    ghost predicate ReaderOk(k: nat)
      requires k < |readers| == |done| == |hol|
      reads this, readers[k], readers[k].p, readers[k].p.reader
    {
      && readers[k].Valid()
      && (done[k] ==> hol[k].None? && readers[k].Remaining() == [] && readers[k].p.seen == readers[k].p.all)
    }

    ghost predicate AllDone()
      reads this`done
    {
      forall k :: 0 <= k < |done| ==> done[k]
    }

    /** The sum of what the scanners have counted. */
    method Stats() returns (ss: ScannerStats)
      requires Valid()
      ensures AllDone() ==> ss == SumOfStats(readers)
    {
      ss := ScannerStats(0, 0, 0, 0);
      for k := 0 to |readers|
        invariant AllDone() ==> ss == SumOfStats(readers[..k])
      {
        ss := ss.Plus(readers[k].p.stats);
        assert ReaderOk(k);
        assert readers[..k + 1][..k] == readers[..k];
      }
      assert readers[..|readers|] == readers;
    }

    /** What is left of reader `k`, with the record held. */
    ghost function LeftOf(k: nat): seq<Record>
      requires k < |readers| == |done| == |hol| && ReaderOk(k)
      reads this, readers[k], readers[k].p, readers[k].p.reader
    {
      (if hol[k].Some? then [hol[k].value] else []) + readers[k].Remaining()
    }

    ghost function Left(): (r: seq<seq<Record>>)
      requires Valid()
      reads this, Parts(readers)
      ensures |r| == |readers| && forall k :: 0 <= k < |readers| ==> r[k] == LeftOf(k)
    {
      seq(|readers|, k requires 0 <= k < |readers| && Valid() reads this, Parts(readers) => LeftOf(k))
    }

    constructor (readers: seq<PullerReader>, dir: Direction)
      requires Separate(readers) && forall k :: 0 <= k < |readers| ==> readers[k].Valid()
      ensures Valid() && this.readers == readers && this.dir == dir
      ensures forall k :: 0 <= k < |readers| ==> Left()[k] == readers[k].Remaining()
    {
      this.dir := dir;
      this.readers := readers;
      hol := seq(|readers|, k => None);
      done := seq(|readers|, k => false);
    }

    /** Holds the next record of reader `k`, or marks it done. */
    method FillOne(k: nat)
      requires k < |readers| == |done| == |hol| && ReaderOk(k)
      modifies this`hol, this`done, readers[k], readers[k].p, readers[k].p.reader
      ensures |done| == |hol| == |readers| && hol == old(hol)[k := hol[k]] && done == old(done)[k := done[k]]
      ensures ReaderOk(k) && LeftOf(k) == old(LeftOf(k))
      ensures if LeftOf(k) == [] then done[k] else !done[k] && hol[k] == Some(LeftOf(k)[0])
    {
      hide PullerReader.Valid, PullerReader.Remaining, Scanner.Valid, Scanner.Remaining;
      if !done[k] && hol[k] == None {
        var tup := readers[k].Read();
        if tup == None {
          done := done[k := true];
        } else {
          hol := hol[k := tup];
        }
      }
    }

    /** ... and leaves the other readers as they are. */
    method Fill(k: nat)
      requires Valid() && k < |readers|
      modifies this`hol, this`done, Parts(readers)
      ensures Valid() && Left() == old(Left())
      ensures if Left()[k] == [] then done[k] else !done[k] && hol[k] == Some(Left()[k][0])
      ensures forall j :: 0 <= j < |readers| && j != k ==> hol[j] == old(hol[j]) && done[j] == old(done[j])
    {
      hide PullerReader.Valid, PullerReader.Remaining, Scanner.Valid, Scanner.Remaining;
      ghost var before := Left();
      assert ReaderOk(k) && before[k] == LeftOf(k);
      FillOne(k);
      forall j | 0 <= j < |readers| && j != k ensures ReaderOk(j) && LeftOf(j) == before[j] {
        assert old(ReaderOk(j)) && before[j] == old(LeftOf(j));
        assert Apart(readers[if j < k then j else k], readers[if j < k then k else j]);
      }
    }

    /** The next record in order; None once all readers are done, and from then on. */
    method Read() returns (r: Option<Record>)
      requires Valid()
      modifies this`hol, this`done, Parts(readers)
      ensures Valid()
      ensures Merge(dir, old(Left())) == if r.Some? then [r.value] + Merge(dir, Left()) else []
      ensures r.None? ==> Left() == old(Left()) && Merge(dir, Left()) == [] && AllDone()
    {
      hide ReaderOk, LeftOf, Left, PullerReader.Valid, PullerReader.Remaining, Scanner.Valid, Scanner.Remaining, Separate, Parts;
      ghost var left := Left();
      var idx := -1;
      for k := 0 to |readers|
        invariant Valid() && Left() == left
        invariant idx == Best(dir, left, k)
        invariant forall j :: 0 <= j < k ==> if left[j] == [] then done[j] else hol[j] == Some(left[j][0])
      {
        Fill(k);
        if done[k] {
          continue;
        }
        if idx == -1 || Less(dir, hol[k].value, hol[idx].value) {
          idx := k;
        }
      }
      if idx == -1 {
        BestComesFirst(dir, left, |left|);
        return None;
      }
      TotalDrops(left, idx);
      r := hol[idx];
      Release(idx);
    }

    /** Lets go of the record held for reader `k`. */
    method Release(k: nat)
      requires Valid() && k < |readers| && hol[k].Some?
      modifies this`hol
      ensures Valid() && old(Left())[k] != [] && Left() == Popped(old(Left()), k)
    {
      hide PullerReader.Valid, PullerReader.Remaining, Separate;
      ghost var before := Left();
      assert ReaderOk(k) && before[k] == LeftOf(k);
      hol := hol[k := None];
      forall j | 0 <= j < |readers| ensures ReaderOk(j) && LeftOf(j) == if j == k then before[j][1..] else before[j] {
        assert old(ReaderOk(j)) && before[j] == old(LeftOf(j));
      }
    }

    /** The next batch of the merged stream; empty at the end. */
    method Pull() returns (batch: seq<Record>)
      requires Valid()
      modifies this`hol, this`done, Parts(readers)
      ensures Valid() && Merge(dir, old(Left())) == batch + Merge(dir, Left())
      ensures |batch| <= 100 && (|batch| < 100 ==> Merge(dir, Left()) == [] && AllDone())
    {
      hide *;
      BatchSize();
      batch := [];
      while |batch| < BATCH_SIZE
        invariant Valid() && |batch| <= BATCH_SIZE && Merge(dir, old(Left())) == batch + Merge(dir, Left())
      {
        var rec := Read();
        if rec.None? {
          break;
        }
        ConcatAssociative(batch, [rec.value], Merge(dir, Left()));
        batch := batch + [rec.value];
      }
    }
  }
}
