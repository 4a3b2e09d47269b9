/**
 * Importing records into an archive (archive/import.go, proc/spill/merge.go): they
 * are partitioned by day, buffered within a memory bound, spilled in sorted runs and
 * written to sorted chunk files.
 */
module Imports {
  import opened Bytes
  import opened Combiners
  import opened Dealing
  import opened Sorting
  import opened Spans
  import opened Scans
  import Overlap

  // --------------------------------------------------------------------- days

  /** Start of the day of a timestamp, truncating towards zero. */
  function Midnight(ts: int): int {
    if ts >= 0 then ts / DAY * DAY else -(-ts / DAY * DAY)
  }

  /** A timestamp lies in the day it is filed under unless it is before 1970 and inside a day. */
  lemma InItsDay(ts: int)
    ensures Span(Midnight(ts), DAY).Contains(ts) <==> ts >= 0 || ts % DAY == 0
  {
    if ts >= 0 {
      assert ts == ts / DAY * DAY + ts % DAY;
    } else {
      var n: int := -ts;
      assert n == n / DAY * DAY + n % DAY;
      NegatedRemainder(n);
    }
  }

  /** The day of a timestamp from 1970 on starts at a multiple of a day's nanoseconds, at most a day before it. */
  lemma MidnightIs(ts: int)
    requires ts >= 0
    ensures Midnight(ts) <= ts < Midnight(ts) + 24 * 60 * 60 * 1_000_000_000
    ensures exists n :: Midnight(ts) == n * 86_400_000_000_000
  {
    assert Midnight(ts) == (ts / DAY) * 86_400_000_000_000;
  }

  lemma NegatedRemainder(n: int)
    requires n >= 0
    ensures (-n) % DAY == 0 <==> n % DAY == 0
  {
    var q: int, r: int := n / DAY, n % DAY;
    assert n == q * DAY + r;
    if r == 0 {
      RemainderIs(-n, -q, 0);
    } else {
      RemainderIs(-n, -q - 1, DAY - r);
    }
  }

  lemma RemainderIs(a: int, q: int, r: int)
    requires a == q * DAY + r && 0 <= r < DAY
    ensures a % DAY == r
  {
  }

  // ---------------------------------------------------------------- merge sort

  /** The import's order of records. */
  function ImportLess(dir: Direction): (Record, Record) -> bool {
    (a: Record, b: Record) => dir.Pos(a.ts) < dir.Pos(b.ts)
  }

  function SortStable(dir: Direction, recs: seq<Record>): (r: seq<Record>)
    ensures multiset(r) == multiset(recs)
  {
    Sort(recs, ImportLess(dir))
  }

  lemma SortStableInOrder(dir: Direction, recs: seq<Record>)
    ensures InOrder(dir, SortStable(dir, recs))
  {
    var less := ImportLess(dir);
    SortSorted(recs, less);
    var r := Sort(recs, less);
    forall i, j | 0 <= i < j < |r| ensures dir.Pos(r[i].ts) <= dir.Pos(r[j].ts) {
      assert !less(r[j], r[i]);
    }
  }

  ghost function RunsContents(runs: seq<seq<Record>>): multiset<Record> {
    if runs == [] then multiset{}
    else RunsContents(runs[..|runs| - 1]) + multiset(runs[|runs| - 1])
  }

  lemma RunsContentsSnoc(runs: seq<seq<Record>>, run: seq<Record>)
    ensures RunsContents(runs + [run]) == RunsContents(runs) + multiset(run)
  {
    assert (runs + [run])[..|runs|] == runs;
  }

  lemma {:induction false} RunsContentsAt(runs: seq<seq<Record>>, k: nat)
    requires k < |runs|
    ensures RunsContents(runs) == RunsContents(runs[..k] + runs[k + 1..]) + multiset(runs[k])
    decreases |runs|
  {
    var front := runs[..|runs| - 1];
    if k == |front| {
      assert runs[..k] + runs[k + 1..] == front;
    } else {
      RunsContentsAt(front, k);
      assert runs[..k] + runs[k + 1..] == (front[..k] + front[k + 1..]) + [runs[|runs| - 1]];
      RunsContentsSnoc(front[..k] + front[k + 1..], runs[|runs| - 1]);
    }
  }

  /** All runs hold something and are sorted. */
  ghost predicate RunsOk(dir: Direction, runs: seq<seq<Record>>) {
    forall k :: 0 <= k < |runs| ==> runs[k] != [] && InOrder(dir, runs[k])
  }

  /** Run `k` has the least next record, the first such run. */
  ghost predicate LeastRun(dir: Direction, runs: seq<seq<Record>>, n: nat, k: nat)
    requires n <= |runs| && forall j :: 0 <= j < |runs| ==> runs[j] != []
  {
    && k < n
    && (forall j :: 0 <= j < n ==> dir.Pos(runs[k][0].ts) <= dir.Pos(runs[j][0].ts))
    && (forall j :: 0 <= j < k ==> dir.Pos(runs[k][0].ts) < dir.Pos(runs[j][0].ts))
  }

  /** The runs after the next record of run `k` has been read; a run at its end goes. */
  function Advanced(runs: seq<seq<Record>>, k: nat): seq<seq<Record>>
    requires k < |runs| && runs[k] != []
  {
    if |runs[k]| == 1 then runs[..k] + runs[k + 1..] else runs[k := runs[k][1..]]
  }

  lemma AdvancedContents(runs: seq<seq<Record>>, k: nat)
    requires k < |runs| && runs[k] != []
    ensures RunsContents(runs) == RunsContents(Advanced(runs, k)) + multiset{runs[k][0]}
  {
    assert runs[k] == [runs[k][0]] + runs[k][1..];
    RunsContentsAt(runs, k);
    var shorter := runs[k := runs[k][1..]];
    RunsContentsAt(shorter, k);
    assert shorter[..k] + shorter[k + 1..] == runs[..k] + runs[k + 1..];
  }

  lemma AdvancedComesLater(dir: Direction, runs: seq<seq<Record>>, k: nat)
    requires RunsOk(dir, runs) && k < |runs| && LeastRun(dir, runs, |runs|, k)
    ensures RunsOk(dir, Advanced(runs, k)) && AllFrom(dir, Advanced(runs, k), dir.Pos(runs[k][0].ts))
  {
    var after: seq<seq<Record>> := Advanced(runs, k);
    forall j | 0 <= j < |after|
      ensures after[j] != [] && InOrder(dir, after[j])
      ensures forall i :: 0 <= i < |after[j]| ==> dir.Pos(runs[k][0].ts) <= dir.Pos(after[j][i].ts)
    {
      var m := if |runs[k]| == 1 && j >= k then j + 1 else j;
      assert runs[m] != [] && InOrder(dir, runs[m]);
      forall i | 0 <= i < |after[j]| ensures dir.Pos(runs[k][0].ts) <= dir.Pos(after[j][i].ts) {
        var n := if m == k then i + 1 else i;
        assert after[j][i] == runs[m][n];
        assert dir.Pos(runs[m][0].ts) <= dir.Pos(runs[m][n].ts);
      }
    }
  }

  /** Sorted runs kept on disk. */
  class MergeSort {
    const dir: Direction
    var runs: seq<seq<Record>>
    var spillSize: nat

    constructor (dir: Direction)
      ensures this.dir == dir && runs == [] && spillSize == 0
    {
      this.dir := dir;
      runs := [];
      spillSize := 0;
    }

    /** Sorts the records into a new run. */
    method Spill(recs: seq<Record>)
      requires RunsOk(dir, runs) && recs != []
      modifies this
      ensures RunsOk(dir, runs) && RunsContents(runs) == old(RunsContents(runs)) + multiset(recs)
      ensures spillSize >= old(spillSize) && runs != []
    {
      var run := SortStable(dir, recs);
      SortStableInOrder(dir, recs);
      assert |multiset(run)| == |multiset(recs)|;
      RunsContentsSnoc(runs, run);
      runs := runs + [run];
      var size: nat :| size >= 0;
      spillSize := spillSize + size;
    }

    /** Takes the least of the runs' next records. */
    method Read() returns (r: Option<Record>)
      requires RunsOk(dir, runs)
      modifies this`runs
      ensures RunsOk(dir, runs)
      ensures r.None? ==> old(runs) == [] && runs == []
      ensures r.Some? ==> AllFrom(dir, runs, dir.Pos(r.value.ts)) && old(RunsContents(runs)) == RunsContents(runs) + multiset{r.value}
      ensures r.Some? ==> exists k :: 0 <= k < |old(runs)| && GoesTo(r.value, old(runs), k)
    {
      if runs == [] {
        return None;
      }
      var k := 0;
      for j := 1 to |runs|
        invariant LeastRun(dir, runs, j, k)
      {
        if dir.Pos(runs[j][0].ts) < dir.Pos(runs[k][0].ts) {
          k := j;
        }
      }
      AdvancedContents(runs, k);
      AdvancedComesLater(dir, runs, k);
      r := Some(runs[k][0]);
      assert GoesTo(r.value, runs, k);
      runs := Advanced(runs, k);
    }
  }

  // --------------------------------------------------------------- chunk files

  /** A finished chunk: its day, its records, and what the name of its seek index says of them. */
  datatype ChunkFile = ChunkFile(day: int, recs: seq<Record>, first: int, last: int, count: nat)

  /** The first timestamp that is not zero. */
  function FirstNonZero(recs: seq<Record>): int {
    if recs == [] then 0
    else
      var f := FirstNonZero(recs[..|recs| - 1]);
      if f == 0 then recs[|recs| - 1].ts else f
  }

  /** A chunk as the import leaves it. */
  ghost predicate FileOk(dir: Direction, f: ChunkFile) {
    && f.recs != [] && InOrder(dir, f.recs)
    && (forall rec :: rec in f.recs ==> Midnight(rec.ts) == f.day)
    && f.first == FirstNonZero(f.recs) && f.last == f.recs[|f.recs| - 1].ts && f.count == |f.recs|
  }

  /** Position of the first timestamp that is not zero. */
  lemma {:induction false} FirstNonZeroIs(recs: seq<Record>) returns (k: nat)
    ensures k <= |recs| && forall i :: 0 <= i < k ==> recs[i].ts == 0
    ensures if k < |recs| then recs[k].ts != 0 && FirstNonZero(recs) == recs[k].ts else FirstNonZero(recs) == 0
  {
    if recs == [] {
      k := 0;
    } else {
      k := FirstNonZeroIs(recs[..|recs| - 1]);
      if k == |recs| - 1 && recs[k].ts == 0 {
        k := |recs|;
      }
    }
  }

  /** All records lie between the recorded first and last timestamps. */
  ghost predicate Bounds(dir: Direction, f: ChunkFile) {
    forall i :: 0 <= i < |f.recs| ==> dir.Pos(f.first) <= dir.Pos(f.recs[i].ts) <= dir.Pos(f.last)
  }

  /**
   * The recorded timestamps bound the records except when the first record is at time
   * zero and the last one is not: zero is taken for a timestamp not set yet.
   */
  lemma BoundsUnlessZeroFirst(dir: Direction, f: ChunkFile)
    requires FileOk(dir, f)
    ensures Bounds(dir, f) <==> !(f.recs[0].ts == 0 && f.recs[|f.recs| - 1].ts != 0)
  {
    var k := FirstNonZeroIs(f.recs);
    var n := |f.recs|;
    assert forall i :: 0 <= i < n ==> dir.Pos(f.recs[0].ts) <= dir.Pos(f.recs[i].ts) by {
      assert InOrder(dir, f.recs);
    }
    if f.recs[0].ts == 0 && f.recs[n - 1].ts != 0 {
      assert 0 < k < n;
      assert dir.Pos(f.recs[0].ts) < dir.Pos(f.first);
    }
  }

  class ChunkWriter {
    const day: int
    var recs: seq<Record>
    var firstTs: int
    var lastTs: int
    var rcount: nat

    constructor (day: int)
      ensures this.day == day && Valid() && recs == []
    {
      this.day := day;
      recs := [];
      firstTs, lastTs, rcount := 0, 0, 0;
    }

    ghost predicate Valid()
      reads this
    {
      && firstTs == FirstNonZero(recs) && rcount == |recs|
      && (recs != [] ==> lastTs == recs[|recs| - 1].ts)
    }

    method Write(rec: Record)
      requires Valid()
      modifies this
      ensures Valid() && recs == old(recs) + [rec]
    {
      assert (recs + [rec])[..|recs|] == recs;
      recs := recs + [rec];
      lastTs := rec.ts;
      if firstTs == 0 {
        firstTs := lastTs;
      }
      rcount := rcount + 1;
    }

    method Close() returns (f: ChunkFile)
      requires Valid() && recs != []
      ensures f == ChunkFile(day, recs, FirstNonZero(recs), recs[|recs| - 1].ts, |recs|)
    {
      f := ChunkFile(day, recs, firstTs, lastTs, rcount);
    }
  }

  ghost function FilesContents(files: seq<ChunkFile>): multiset<Record> {
    if files == [] then multiset{}
    else FilesContents(files[..|files| - 1]) + multiset(files[|files| - 1].recs)
  }

  lemma FilesContentsSnoc(files: seq<ChunkFile>, f: ChunkFile)
    ensures FilesContents(files + [f]) == FilesContents(files) + multiset(f.recs)
  {
    assert (files + [f])[..|files|] == files;
  }

  ghost predicate FilesOk(dir: Direction, files: seq<ChunkFile>) {
    forall k :: 0 <= k < |files| ==> FileOk(dir, files[k])
  }

  /** A file of the day with these records has been added. */
  ghost predicate OneMoreFile(before: seq<ChunkFile>, after: seq<ChunkFile>, day: int, recs: multiset<Record>) {
    var n := |before|;
    |after| == n + 1 && after[..n] == before && after[n].day == day && multiset(after[n].recs) == recs
  }

  /** An archive being written to. */
  class Archive {
    const dir: Direction
    const logSizeThreshold: int
    var files: seq<ChunkFile>

    constructor (dir: Direction, logSizeThreshold: int)
      ensures this.dir == dir && this.logSizeThreshold == logSizeThreshold && files == []
    {
      this.dir := dir;
      this.logSizeThreshold := logSizeThreshold;
      files := [];
    }
  }

  // --------------------------------------------------------------- one day

  /** The records of a day not yet in chunk files. */
  ghost function Held(records: seq<Record>, runs: seq<seq<Record>>): multiset<Record> {
    multiset(records) + RunsContents(runs)
  }

  ghost predicate HeldOk(dir: Direction, day: int, records: seq<Record>, bufSize: int, runs: seq<seq<Record>>) {
    && bufSize == Size(records) && RunsOk(dir, runs)
    && forall rec :: rec in Held(records, runs) ==> Midnight(rec.ts) == day
  }

  lemma HeldParts(dir: Direction, day: int, records: seq<Record>, bufSize: int, runs: seq<seq<Record>>)
    requires HeldOk(dir, day, records, bufSize, runs)
    ensures RunsOk(dir, runs) && (records == [] ==> bufSize == 0)
    ensures bufSize > 0 ==> records != []
    ensures bufSize >= 0
  {
  }

  /** Spilling the records keeps what is held. */
  lemma SpillKeepsHeld(dir: Direction, day: int, records: seq<Record>, bufSize: int, runs: seq<seq<Record>>, after: seq<seq<Record>>)
    requires HeldOk(dir, day, records, bufSize, runs)
    requires RunsOk(dir, after) && RunsContents(after) == RunsContents(runs) + multiset(records)
    ensures HeldOk(dir, day, [], 0, after) && Held([], after) == Held(records, runs)
  {
  }

  lemma NoneHeld(dir: Direction, day: int)
    ensures HeldOk(dir, day, [], 0, []) && Held([], []) == multiset{}
  {
  }

  /** The records of a day without runs, sorted. */
  lemma SortedHeld(dir: Direction, day: int, records: seq<Record>, bufSize: int)
    requires HeldOk(dir, day, records, bufSize, []) && records != []
    ensures var sorted := SortStable(dir, records);
            sorted != [] && InOrder(dir, sorted) && multiset(sorted) == Held(records, [])
            && forall rec :: rec in sorted ==> Midnight(rec.ts) == day
  {
    var sorted := SortStable(dir, records);
    SortStableInOrder(dir, records);
    assert |multiset(sorted)| == |multiset(records)|;
    assert forall rec :: rec in sorted ==> rec in multiset(sorted);
  }

  /** ... and with all of them in runs, merged. */
  lemma MergedHeld(dir: Direction, day: int, runs: seq<seq<Record>>, merged: seq<Record>)
    requires HeldOk(dir, day, [], 0, runs) && multiset(merged) == RunsContents(runs)
    ensures multiset(merged) == Held([], runs) && forall rec :: rec in merged ==> Midnight(rec.ts) == day
  {
    assert forall rec :: rec in merged ==> rec in multiset(merged);
  }

  lemma OneMoreHeld(dir: Direction, day: int, records: seq<Record>, bufSize: int, runs: seq<seq<Record>>, rec: Record)
    requires HeldOk(dir, day, records, bufSize, runs) && Midnight(rec.ts) == day
    ensures HeldOk(dir, day, records + [rec], bufSize + rec.size, runs)
    ensures Held(records + [rec], runs) == Held(records, runs) + multiset{rec}
  {
    SizeAppend(records, [rec]);
    assert Size([rec]) == rec.size;
  }

  /** Collects the records of one day. */
  class TsDirWriter {
    const ark: Archive
    const iw: ImportWriter
    const tsDir: int
    var records: seq<Record>
    var bufSize: int
    var spiller: MergeSort?

    ghost predicate Valid()
      reads this, spiller
    {
      && (spiller != null ==> spiller.dir == ark.dir && spiller.runs != [])
      && HeldOk(ark.dir, tsDir, records, bufSize, Runs())
    }

    ghost function Runs(): seq<seq<Record>>
      reads this, spiller
    {
      if spiller == null then [] else spiller.runs
    }

    /** The records held, in memory and spilled. */
    ghost function Pending(): multiset<Record>
      reads this, spiller
    {
      Held(records, Runs())
    }

    constructor (ark: Archive, iw: ImportWriter, tsDir: int)
      ensures this.ark == ark && this.iw == iw && this.tsDir == tsDir
      ensures Valid() && bufSize == 0 && Pending() == multiset{} && spiller == null
    {
      this.ark := ark;
      this.iw := iw;
      this.tsDir := tsDir;
      records := [];
      bufSize := 0;
      spiller := null;
    }

    method AddBufSize(delta: int)
      modifies this`bufSize, iw`memBuffered
      ensures bufSize == old(bufSize) + delta && iw.memBuffered == old(iw.memBuffered) + delta
    {
      bufSize := bufSize + delta;
      iw.memBuffered := iw.memBuffered + delta;
    }

    function TotalRecordBytes(): int
      reads this, spiller
    {
      bufSize + if spiller != null then spiller.spillSize else 0
    }

    /** Sorts the buffered records into a run on disk. */
    method Spill()
      requires Valid()
      modifies this, spiller, iw`memBuffered
      ensures Valid() && Pending() == old(Pending()) && records == [] && bufSize == 0
      ensures iw.memBuffered == old(iw.memBuffered) - old(bufSize)
      ensures spiller == old(spiller) || fresh(spiller)
      ensures old(records) != [] ==> spiller != null
      ensures old(spiller) != null ==> spiller == old(spiller)
    {
      hide HeldOk, Held, RunsOk, RunsContents;
      HeldParts(ark.dir, tsDir, records, bufSize, Runs());
      if |records| == 0 {
        return;
      }
      ghost var runs := Runs();
      if spiller == null {
        spiller := new MergeSort(ark.dir);
      }
      spiller.Spill(records);
      SpillKeepsHeld(ark.dir, tsDir, records, bufSize, runs, spiller.runs);
      records := [];
      AddBufSize(bufSize * -1);
    }

    /** The record is kept with the others up to the threshold; beyond it all go to one new chunk file. */
    twostate predicate KeptOrFlushed(rec: Record)
      reads this, spiller, ark
    {
      && (old(TotalRecordBytes()) + rec.size <= ark.logSizeThreshold ==>
            ark.files == old(ark.files) && records == old(records) + [rec] && spiller == old(spiller))
      && (old(TotalRecordBytes()) + rec.size > ark.logSizeThreshold ==>
            Pending() == multiset{} && OneMoreFile(old(ark.files), ark.files, tsDir, old(Pending()) + multiset{rec}))
      && TotalRecordBytes() <= Max(ark.logSizeThreshold, 0)
    }

    /** Takes a record; writes all of them to a chunk file once they exceed the threshold. */
    method WriteOne(rec: Record)
      requires Valid() && Midnight(rec.ts) == tsDir && FilesOk(ark.dir, ark.files)
      modifies this, spiller, iw`memBuffered, ark`files
      ensures Valid() && FilesOk(ark.dir, ark.files)
      ensures FilesContents(ark.files) + Pending() == old(FilesContents(ark.files)) + old(Pending()) + multiset{rec}
      ensures iw.memBuffered - bufSize == old(iw.memBuffered) - old(bufSize)
      ensures spiller == null || spiller == old(spiller)
      ensures KeptOrFlushed(rec)
      ensures |ark.files| == |old(ark.files)| ==> bufSize == old(bufSize) + rec.size
    {
      hide HeldOk, Held, FilesOk, FilesContents;
      OneMoreHeld(ark.dir, tsDir, records, bufSize, Runs(), rec);
      records := records + [rec];
      AddBufSize(rec.size);
      if TotalRecordBytes() > ark.logSizeThreshold {
        Flush();
      }
    }

    /** Writes all records held to a new chunk file, in order. */
    method Flush()
      requires Valid() && FilesOk(ark.dir, ark.files)
      modifies this, spiller, iw`memBuffered, ark`files
      ensures Valid() && Pending() == multiset{} && bufSize == 0 && spiller == null
      ensures FilesOk(ark.dir, ark.files) && FilesContents(ark.files) == old(FilesContents(ark.files)) + old(Pending())
      ensures iw.memBuffered == old(iw.memBuffered) - old(bufSize)
      ensures if old(spiller == null && records == []) then ark.files == old(ark.files)
              else OneMoreFile(old(ark.files), ark.files, tsDir, old(Pending()))
    {
      hide HeldOk, Held, FilesOk, FilesContents, FileOk, InOrder, FirstNonZero, Size, ChunkWriter.Valid;
      NoneHeld(ark.dir, tsDir);
      HeldParts(ark.dir, tsDir, records, bufSize, Runs());
      if spiller == null && |records| == 0 {
        return;
      }
      ghost var pending := Pending();
      var w := new ChunkWriter(tsDir);
      if spiller != null {
        Unspill(w);
      } else {
        CopySorted(w);
      }
      StoreChunk(w, pending);
    }

    /** Sorts the records in memory when none were spilled. */
    method CopySorted(w: ChunkWriter)
      requires Valid() && spiller == null && records != [] && w.Valid() && w.recs == []
      modifies this, iw`memBuffered, w
      ensures Valid() && Pending() == multiset{} && bufSize == 0 && spiller == null
      ensures w.Valid() && w.recs != [] && InOrder(ark.dir, w.recs) && multiset(w.recs) == old(Pending())
      ensures forall rec :: rec in w.recs ==> Midnight(rec.ts) == tsDir
      ensures iw.memBuffered == old(iw.memBuffered) - old(bufSize)
    {
      hide HeldOk, Held, InOrder, SortStable, ChunkWriter.Valid;
      SortedHeld(ark.dir, tsDir, records, bufSize);
      NoneHeld(ark.dir, tsDir);
      var sorted := SortStable(ark.dir, records);
      WriteAll(w, sorted);
      records := [];
      AddBufSize(bufSize * -1);
    }

    method WriteAll(w: ChunkWriter, recs: seq<Record>)
      requires w.Valid() && w.recs == []
      modifies w
      ensures w.Valid() && w.recs == recs
    {
      hide ChunkWriter.Valid;
      for k := 0 to |recs|
        invariant w.Valid() && w.recs == recs[..k]
      {
        w.Write(recs[k]);
        assert recs[..k] + [recs[k]] == recs[..k + 1];
      }
      assert recs[..|recs|] == recs;
    }

    /** Spills what is left in memory and merges all runs. */
    method Unspill(w: ChunkWriter)
      requires Valid() && spiller != null && w.Valid() && w.recs == []
      modifies this, spiller, iw`memBuffered, w
      ensures Valid() && Pending() == multiset{} && bufSize == 0 && spiller == null
      ensures w.Valid() && w.recs != [] && InOrder(ark.dir, w.recs) && multiset(w.recs) == old(Pending())
      ensures forall rec :: rec in w.recs ==> Midnight(rec.ts) == tsDir
      ensures iw.memBuffered == old(iw.memBuffered) - old(bufSize)
    {
      hide HeldOk, Held, RunsContents, InOrder, FirstNonZero, RunsOk, ChunkWriter.Valid;
      Spill();
      HeldParts(ark.dir, tsDir, records, bufSize, Runs());
      var s := spiller;
      ghost var runs := s.runs;
      spiller := null;
      CopySpilled(w, s);
      MergedHeld(ark.dir, tsDir, runs, w.recs);
      NoneHeld(ark.dir, tsDir);
    }

    method StoreChunk(w: ChunkWriter, ghost pending: multiset<Record>)
      requires w.Valid() && w.recs != [] && InOrder(ark.dir, w.recs) && multiset(w.recs) == pending && w.day == tsDir
      requires forall rec :: rec in w.recs ==> Midnight(rec.ts) == tsDir
      requires FilesOk(ark.dir, ark.files)
      modifies ark`files
      ensures FilesOk(ark.dir, ark.files) && FilesContents(ark.files) == old(FilesContents(ark.files)) + pending
      ensures OneMoreFile(old(ark.files), ark.files, tsDir, pending)
    {
      hide FilesContents, InOrder, FirstNonZero;
      var f := w.Close();
      FilesContentsSnoc(ark.files, f);
      ark.files := ark.files + [f];
    }

    /** Reads the runs back merged. */
    method CopySpilled(w: ChunkWriter, s: MergeSort)
      requires w.Valid() && w.recs == [] && RunsOk(s.dir, s.runs) && s.runs != []
      modifies w, s
      ensures w.Valid() && InOrder(s.dir, w.recs) && multiset(w.recs) == old(RunsContents(s.runs)) && w.recs != []
    {
      hide RunsOk, RunsContents, MergedSoFar, ChunkWriter.Valid;
      ghost var all := RunsContents(s.runs);
      NothingMerged(s.dir, s.runs);
      while true
        invariant w.Valid() && RunsOk(s.dir, s.runs) && MergedSoFar(s.dir, w.recs, s.runs)
        invariant multiset(w.recs) + RunsContents(s.runs) == all
        invariant w.recs == [] ==> s.runs == old(s.runs)
        decreases |RunsContents(s.runs)|
      {
        ghost var before := s.runs;
        var rec := s.Read();
        if rec.None? {
          AllMerged(s.dir, w.recs);
          break;
        }
        MergedNext(s.dir, w.recs, before, rec.value, s.runs);
        w.Write(rec.value);
      }
    }
  }

  /** What has been merged is in order and comes before what is left. */
  ghost predicate MergedSoFar(dir: Direction, out: seq<Record>, runs: seq<seq<Record>>) {
    InOrder(dir, out) && (out != [] ==> AllFrom(dir, runs, dir.Pos(out[|out| - 1].ts)))
  }

  lemma NothingMerged(dir: Direction, runs: seq<seq<Record>>)
    ensures MergedSoFar(dir, [], runs)
  {
  }

  lemma AllMerged(dir: Direction, out: seq<Record>)
    requires MergedSoFar(dir, out, [])
    ensures InOrder(dir, out) && RunsContents([]) == multiset{}
  {
  }

  lemma MergedNext(dir: Direction, out: seq<Record>, runs: seq<seq<Record>>, rec: Record, after: seq<seq<Record>>)
    requires MergedSoFar(dir, out, runs) && AllFrom(dir, after, dir.Pos(rec.ts))
    requires exists k :: 0 <= k < |runs| && GoesTo(rec, runs, k)
    ensures MergedSoFar(dir, out + [rec], after)
  {
    var k :| 0 <= k < |runs| && GoesTo(rec, runs, k);
    assert runs[k][0] == rec;
    if out != [] {
      forall i | 0 <= i < |out| ensures dir.Pos(out[i].ts) <= dir.Pos(rec.ts) {}
    }
  }

  // ------------------------------------------------------------- all days

  /** What a day's writer holds: bytes in memory, and records. */
  datatype Load = Load(bytes: int, recs: multiset<Record>)

  ghost predicate AllLoaded(order: seq<int>, loads: map<int, Load>) {
    forall i :: 0 <= i < |order| ==> order[i] in loads
  }

  ghost function SumOf(order: seq<int>, loads: map<int, Load>): Load
    requires AllLoaded(order, loads)
  {
    if order == [] then Load(0, multiset{})
    else
      var s, last := SumOf(order[..|order| - 1], loads), loads[order[|order| - 1]];
      Load(s.bytes + last.bytes, s.recs + last.recs)
  }

  /** `order` lists all days loaded. */
  ghost predicate InOrderOfArrival(order: seq<int>, loads: map<int, Load>) {
    AllLoaded(order, loads) && forall k :: k in loads ==> k in order
  }

  lemma {:induction false} SumOfSame(order: seq<int>, loads: map<int, Load>, k: int, v: Load)
    requires AllLoaded(order, loads) && k !in order
    ensures SumOf(order, loads[k := v]) == SumOf(order, loads)
  {
    if order != [] {
      SumOfSame(order[..|order| - 1], loads, k, v);
    }
  }

  lemma {:induction false} SumOfUpdated(order: seq<int>, loads: map<int, Load>, k: int, v: Load)
    requires NoDuplicates(order) && AllLoaded(order, loads) && k in order
    ensures SumOf(order, loads[k := v]).bytes == SumOf(order, loads).bytes - loads[k].bytes + v.bytes
    ensures SumOf(order, loads[k := v]).recs + loads[k].recs == SumOf(order, loads).recs + v.recs
  {
    var front := order[..|order| - 1];
    if order[|order| - 1] == k {
      assert k !in front;
      SumOfSame(front, loads, k, v);
    } else {
      assert order == front + [order[|order| - 1]];
      SumOfUpdated(front, loads, k, v);
    }
  }

  lemma SumOfOneMore(order: seq<int>, loads: map<int, Load>, k: int, v: Load)
    requires AllLoaded(order, loads) && k !in order
    ensures SumOf(order + [k], loads[k := v]) ==
            Load(SumOf(order, loads).bytes + v.bytes, SumOf(order, loads).recs + v.recs)
  {
    assert (order + [k])[..|order|] == order;
    SumOfSame(order, loads, k, v);
  }

  lemma {:induction false} SumOfPositive(order: seq<int>, loads: map<int, Load>)
    requires AllLoaded(order, loads)
    ensures SumOf(order, loads).bytes > 0 ==> exists i :: 0 <= i < |order| && loads[order[i]].bytes > 0
  {
    if order != [] {
      SumOfPositive(order[..|order| - 1], loads);
    }
  }

  lemma {:induction false} SumOfNone(order: seq<int>, loads: map<int, Load>)
    requires AllLoaded(order, loads) && forall i :: 0 <= i < |order| ==> loads[order[i]] == Load(0, multiset{})
    ensures SumOf(order, loads) == Load(0, multiset{})
  {
    if order != [] {
      SumOfNone(order[..|order| - 1], loads);
    }
  }

  /** The spillers of a set of writers. */
  ghost function Spillers(writers: map<int, TsDirWriter>): set<object>
    reads writers.Values
  {
    set k | k in writers && writers[k].spiller != null :: writers[k].spiller as object
  }

  /** Partitions records by day under a bound on the memory all days take. */
  class ImportWriter {
    const ark: Archive
    const importBufSize: int
    var writers: map<int, TsDirWriter>
    var memBuffered: int
    /** The days in the order they came up, and what their writers hold. */
    ghost var order: seq<int>
    ghost var loads: map<int, Load>

    ghost predicate Valid(): (ok: bool)
      reads this, ark, writers.Values, Spillers(writers)
      ensures ok ==> AllLoaded(order, loads)
    {
      && FilesOk(ark.dir, ark.files)
      && NoDuplicates(order) && InOrderOfArrival(order, loads)
      && (forall k :: k in loads && k !in writers ==> loads[k] == Load(0, multiset{}))
      && (forall k :: k in writers ==> WriterOk(k))
      && (forall j, k :: j in writers && k in writers && j != k ==> writers[j].spiller == null || writers[j].spiller != writers[k].spiller)
      && memBuffered == SumOf(order, loads).bytes
    }

    ghost predicate WriterOk(k: int)
      requires k in writers
      reads this, writers[k], writers[k].spiller
    {
      var w := writers[k];
      && w.tsDir == k && w.ark == ark && w.iw == this && w.Valid()
      && k in loads && loads[k] == Load(w.bufSize, w.Pending())
    }

    /** Every record taken: those in chunk files and those still held. */
    ghost function Taken(): multiset<Record>
      requires AllLoaded(order, loads)
      reads this, ark
    {
      FilesContents(ark.files) + SumOf(order, loads).recs
    }

    constructor (ark: Archive, importBufSize: int)
      requires ark.files == []
      ensures Valid() && this.ark == ark && this.importBufSize == importBufSize
      ensures writers == map[] && Taken() == multiset{}
    {
      this.ark := ark;
      this.importBufSize := importBufSize;
      writers := map[];
      memBuffered := 0;
      order := [];
      loads := map[];
    }

    /** Creates the writer of a day. */
    method AddWriter(day: int)
      requires Valid() && day !in writers
      modifies this
      ensures Valid() && writers.Keys == old(writers.Keys) + {day} && Taken() == old(Taken()) && memBuffered == old(memBuffered)
      ensures fresh(writers[day]) && writers[day].spiller == null && forall k :: k in old(writers) ==> writers[k] == old(writers[k])
      ensures fresh(writers.Values - old(writers.Values)) && Spillers(writers) <= old(Spillers(writers))
    {
      hide FilesOk, FilesContents, TsDirWriter.Valid, TsDirWriter.Pending, SumOf;
      var dw := new TsDirWriter(ark, this, day);
      if day !in loads {
        SumOfOneMore(order, loads, day, Load(0, multiset{}));
        order := order + [day];
        loads := loads[day := Load(0, multiset{})];
      }
      writers := writers[day := dw];
    }

    /** Hands a record to the writer of its day. */
    method WriteTo(day: int, rec: Record)
      requires Valid() && day in writers && Midnight(rec.ts) == day
      modifies this, ark`files, writers[day], writers[day].spiller
      ensures Valid() && writers == old(writers) && Taken() == old(Taken()) + multiset{rec}
      ensures Spillers(writers) <= old(Spillers(writers))
      ensures |ark.files| == |old(ark.files)| ==> memBuffered == old(memBuffered) + rec.size
    {
      hide FilesOk, FilesContents, TsDirWriter.Valid, TsDirWriter.Pending, SumOf, OneMoreFile, TsDirWriter.TotalRecordBytes, TsDirWriter.KeptOrFlushed;
      var dw := writers[day];
      ghost var before := FilesContents(ark.files);
      assert WriterOk(day);
      dw.WriteOne(rec);
      ghost var v := Load(dw.bufSize, dw.Pending());
      Reloaded(order, loads, day, v, FilesContents(ark.files), before + multiset{rec});
      loads := loads[day := v];
      forall k | k in writers ensures WriterOk(k) {
        assert old(WriterOk(k));
      }
    }

    /** Spills the writer of a day. */
    method SpillDay(day: int)
      requires Valid() && day in writers
      modifies this`memBuffered, this`loads, writers[day], writers[day].spiller
      ensures Valid() && Taken() == old(Taken())
      ensures memBuffered == old(memBuffered) - old(writers[day].bufSize)
      ensures writers[day].spiller == old(writers[day].spiller) || fresh(writers[day].spiller)
    {
      hide FilesOk, FilesContents, TsDirWriter.Valid, TsDirWriter.Pending, SumOf, OneMoreFile, TsDirWriter.TotalRecordBytes, TsDirWriter.KeptOrFlushed;
      var dw := writers[day];
      ghost var before := FilesContents(ark.files);
      assert WriterOk(day);
      dw.Spill();
      ghost var v := Load(dw.bufSize, dw.Pending());
      Reloaded(order, loads, day, v, before, before);
      loads := loads[day := v];
      forall k | k in writers ensures WriterOk(k) {
        assert old(WriterOk(k));
      }
    }

    /** The day with the largest buffer, looking at the days in any order. */
    method LargestBuffer() returns (day: int)
      requires Valid() && writers != map[]
      ensures day in writers && forall k :: k in writers ==> writers[k].bufSize <= writers[day].bufSize
    {
      var ks: set<int> := writers.Keys;
      var found := false;
      day := 0;
      while ks != {}
        invariant ks <= writers.Keys && (found <==> ks != writers.Keys)
        invariant found ==> day in writers && forall k :: k in writers && k !in ks ==> writers[k].bufSize <= writers[day].bufSize
        decreases |ks|
      {
        HasMember(ks);
        var k :| k in ks;
        if !found || writers[k].bufSize > writers[day].bufSize {
          day := k;
        }
        found := true;
        ks := ks - {k};
      }
    }

    /** While memory is in use, some buffer is not empty, so the largest one is not. */
    lemma SomeBuffered()
      requires Valid() && memBuffered > 0
      ensures exists k :: k in writers && writers[k].bufSize > 0
    {
      SumOfPositive(order, loads);
      var i :| 0 <= i < |order| && loads[order[i]].bytes > 0;
      var k := order[i];
      assert k in loads && loads[k] != Load(0, multiset{});
      assert k in writers && WriterOk(k);
    }

    /** Frees the memory of the day that takes most. */
    method SpillLargestBuffer()
      requires Valid() && memBuffered > 0
      modifies this`memBuffered, this`loads, writers.Values, Spillers(writers)
      ensures Valid() && Taken() == old(Taken()) && memBuffered < old(memBuffered)
      ensures fresh(Spillers(writers) - old(Spillers(writers)))
    {
      hide Valid;
      SomeBuffered();
      var day := LargestBuffer();
      SpillDay(day);
    }

    /** Takes a record.  Memory is within the bound afterwards, and freed only for that or by a chunk file. */
    method Write(rec: Record)
      requires Valid() && importBufSize >= 0
      modifies this, ark`files, writers.Values, Spillers(writers)
      ensures Valid() && Taken() == old(Taken()) + multiset{rec}
      ensures memBuffered <= importBufSize
      ensures old(memBuffered) + rec.size <= importBufSize && |ark.files| == |old(ark.files)| ==>
                memBuffered == old(memBuffered) + rec.size
      ensures fresh(writers.Values - old(writers.Values)) && fresh(Spillers(writers) - old(Spillers(writers)))
    {
      hide Valid, Taken, WriterOk;
      var day := Midnight(rec.ts);
      if day !in writers {
        AddWriter(day);
      }
      WriteTo(day, rec);
      while memBuffered > importBufSize
        invariant Valid() && Taken() == old(Taken()) + multiset{rec}
        invariant old(memBuffered) + rec.size <= importBufSize && |ark.files| == |old(ark.files)| ==>
                    memBuffered == old(memBuffered) + rec.size
        invariant fresh(writers.Values - old(writers.Values)) && fresh(Spillers(writers) - old(Spillers(writers)))
        decreases memBuffered
      {
        SpillLargestBuffer();
      }
    }

    /** Writes out what the writer of a day holds and lets the writer go. */
    method FlushDay(day: int)
      requires Valid() && day in writers
      modifies this`memBuffered, this`loads, this`writers, ark`files, writers[day], writers[day].spiller
      ensures Valid() && Taken() == old(Taken()) && writers == old(writers) - {day}
      ensures Spillers(writers) <= old(Spillers(writers))
    {
      hide FilesOk, FilesContents, TsDirWriter.Valid, TsDirWriter.Pending, SumOf, OneMoreFile, TsDirWriter.TotalRecordBytes, TsDirWriter.KeptOrFlushed;
      var dw := writers[day];
      ghost var before := FilesContents(ark.files);
      assert WriterOk(day);
      dw.Flush();
      ghost var v := Load(dw.bufSize, dw.Pending());
      Reloaded(order, loads, day, v, FilesContents(ark.files), before);
      loads := loads[day := v];
      writers := writers - {day};
      forall k | k in writers ensures WriterOk(k) {
        assert old(WriterOk(k));
      }
    }

    /** Writes out all that is held; what was taken is then in the chunk files. */
    method Close()
      requires Valid()
      modifies this`memBuffered, this`loads, this`writers, ark`files, writers.Values, Spillers(writers)
      ensures FilesOk(ark.dir, ark.files) && FilesContents(ark.files) == old(Taken())
      ensures writers == map[] && memBuffered == 0
    {
      hide Taken, WriterOk, FilesOk, FilesContents;
      while writers != map[]
        invariant Valid() && Taken() == old(Taken())
        invariant writers.Values <= old(writers.Values) && Spillers(writers) <= old(Spillers(writers))
        decreases |writers|
      {
        HasMember(writers.Keys);
        var ts :| ts in writers.Keys;
        FlushDay(ts);
      }
      AllWritten();
    }

    lemma AllWritten()
      requires Valid() && writers == map[]
      ensures FilesContents(ark.files) == Taken() && memBuffered == 0
    {
      forall i | 0 <= i < |order| ensures loads[order[i]] == Load(0, multiset{}) {
        var k := order[i];
        assert k in loads && k !in writers;
      }
      SumOfNone(order, loads);
    }
  }

  /** Changing what one day holds changes the sums accordingly. */
  lemma Reloaded(order: seq<int>, loads: map<int, Load>, day: int, v: Load, files: multiset<Record>, taken: multiset<Record>)
    requires NoDuplicates(order) && InOrderOfArrival(order, loads) && day in loads
    requires files + v.recs == taken + loads[day].recs
    ensures SumOf(order, loads[day := v]).bytes == SumOf(order, loads).bytes - loads[day].bytes + v.bytes
    ensures files + SumOf(order, loads[day := v]).recs == taken + SumOf(order, loads).recs
  {
    SumOfUpdated(order, loads, day, v);
    var was, now, l := SumOf(order, loads).recs, SumOf(order, loads[day := v]).recs, loads[day].recs;
    assert files + now == (files + (now + l)) - l;
    assert taken + was == ((taken + l) + was) - l;
  }

  /**
   * Imports records into an empty archive: the chunk files then hold exactly these
   * records, each file in order and of one day.
   */
  method Import(ark: Archive, recs: seq<Record>, importBufSize: nat)
    requires ark.files == []
    modifies ark`files
    ensures FilesOk(ark.dir, ark.files) && FilesContents(ark.files) == multiset(recs)
  {
    hide ImportWriter.Valid, ImportWriter.Taken, FilesOk, FilesContents;
    var w := new ImportWriter(ark, importBufSize);
    for k := 0 to |recs|
      invariant fresh(w) && fresh(w.writers.Values) && fresh(Spillers(w.writers))
      invariant w.Valid() && w.Taken() == multiset(recs[..k])
    {
      assert recs[..k + 1] == recs[..k] + [recs[k]];
      w.Write(recs[k]);
    }
    assert recs[..|recs|] == recs;
    w.Close();
  }

  /** Chunks imported from records after 1970 are what a scan relies on. */
  lemma ImportedChunkFitsItsDay(dir: Direction, f: ChunkFile, d: TsDir, id: int)
    requires FileOk(dir, f) && d.ts == f.day && id in d.files && d.files[id] == f.recs
    requires forall rec :: rec in f.recs ==> rec.ts > 0
    ensures ChunkInDay(dir, d, Overlap.Chunk(id, f.first, f.last))
  {
    var n := |f.recs|;
    assert f.recs[0] in f.recs && f.recs[n - 1] in f.recs;
    BoundsUnlessZeroFirst(dir, f);
    var k := FirstNonZeroIs(f.recs);
    assert k == 0;
    InItsDay(f.recs[0].ts);
    InItsDay(f.recs[n - 1].ts);
  }
}
