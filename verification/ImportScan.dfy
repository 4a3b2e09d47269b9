/**
 * Importing records into an archive and scanning it: the directories that the chunk
 * files of an import are listed in, and what a scan of them delivers.
 */
module ImportScans {
  import opened Bytes
  import opened Combiners
  import opened Imports
  import opened Overlap
  import opened Scans
  import opened ArchiveScans
  import opened Sorting
  import opened Spans

  /** A scan that leaves no chunk out. */
  const ANY_ID: int -> bool := _ => true

  // --------------------------------------------------------------- directories

  function ChunkOf(files: seq<ChunkFile>, i: nat): Chunk
    requires i < |files|
  {
    Chunk(i, files[i].first, files[i].last)
  }

  /** The entries of a day for the first `n` files; every file has an id of its own. */
  function EntriesOf(files: seq<ChunkFile>, day: int, n: nat): seq<Dirent>
    requires n <= |files|
  {
    if n == 0 then []
    else
      EntriesOf(files, day, n - 1)
      + if files[n - 1].day == day then [DataFile(n - 1), SeekIndex(n - 1, files[n - 1].first, files[n - 1].last)] else []
  }

  function DirOf(files: seq<ChunkFile>, day: int): TsDir {
    TsDir(day, EntriesOf(files, day, |files|), map i: int | 0 <= i < |files| && files[i].day == day :: files[i].recs)
  }

  /** The days of the first `n` files, each once. */
  function DaysOf(files: seq<ChunkFile>, n: nat): seq<int>
    requires n <= |files|
  {
    if n == 0 then []
    else
      var days := DaysOf(files, n - 1);
      if files[n - 1].day in days then days else days + [files[n - 1].day]
  }

  function DirsOf(files: seq<ChunkFile>, days: seq<int>): (r: seq<Option<TsDir>>)
    ensures |r| == |days| && forall k :: 0 <= k < |days| ==> r[k] == Some(DirOf(files, days[k]))
  {
    seq(|days|, k requires 0 <= k < |days| => Some(DirOf(files, days[k])))
  }

  /** The archive's directory as it is listed. */
  function Listing(files: seq<ChunkFile>): seq<Option<TsDir>> {
    DirsOf(files, DaysOf(files, |files|))
  }

  lemma {:induction false} DaysAreThere(files: seq<ChunkFile>, n: nat)
    requires n <= |files|
    ensures NoDuplicates(DaysOf(files, n))
    ensures forall i :: 0 <= i < n ==> files[i].day in DaysOf(files, n)
    ensures forall day :: day in DaysOf(files, n) ==> exists i :: 0 <= i < n && files[i].day == day
  {
    if n > 0 {
      DaysAreThere(files, n - 1);
    }
  }

  lemma SeekBehind(front: seq<Dirent>, e: Dirent, id: int)
    ensures SeekOf(front + [e], id) == if e.SeekIndex? && e.id == id then Some(e) else SeekOf(front, id)
  {
    assert (front + [e])[..|front|] == front;
  }

  /** A directory lists the files of its day. */
  lemma {:induction false} EntriesAre(files: seq<ChunkFile>, day: int, n: nat, id: int)
    requires n <= |files|
    ensures DataFile(id) in EntriesOf(files, day, n) <==> 0 <= id < n && files[id].day == day
    ensures SeekOf(EntriesOf(files, day, n), id) ==
            if 0 <= id < n && files[id].day == day then Some(SeekIndex(id, files[id].first, files[id].last)) else None
  {
    if n > 0 {
      hide SeekOf;
      EntriesAre(files, day, n - 1, id);
      var front, f := EntriesOf(files, day, n - 1), files[n - 1];
      var data, seek := DataFile(n - 1), SeekIndex(n - 1, f.first, f.last);
      assert EntriesOf(files, day, n) == front + if f.day == day then [data, seek] else [];
      hide EntriesOf;
      if f.day == day {
        assert front + [data, seek] == front + [data] + [seek];
        SeekBehind(front, data, id);
        SeekBehind(front + [data], seek, id);
      } else {
        assert front + [] == front;
      }
    }
  }

  lemma ListedIs(files: seq<ChunkFile>, day: int, c: Chunk)
    ensures Listed(DirOf(files, day).entries, c) <==> 0 <= c.id < |files| && files[c.id].day == day && c == ChunkOf(files, c.id)
  {
    EntriesAre(files, day, |files|, c.id);
  }

  // ------------------------------------------------------- what the days hold

  /** How often the files of a day hold a record. */
  ghost function DayTotal(files: seq<ChunkFile>, day: int, n: nat, rec: Record): nat
    requires n <= |files|
  {
    if n == 0 then 0
    else DayTotal(files, day, n - 1, rec) + if files[n - 1].day == day then multiset(files[n - 1].recs)[rec] else 0
  }

  function ChunksOf(files: seq<ChunkFile>, day: int, n: nat): seq<Chunk>
    requires n <= |files|
  {
    if n == 0 then []
    else ChunksOf(files, day, n - 1) + if files[n - 1].day == day then [ChunkOf(files, n - 1)] else []
  }

  lemma {:induction false} ChunksAre(files: seq<ChunkFile>, day: int, n: nat)
    requires n <= |files|
    ensures DistinctIds(ChunksOf(files, day, n))
    ensures forall c :: c in ChunksOf(files, day, n) <==> 0 <= c.id < n && files[c.id].day == day && c == ChunkOf(files, c.id)
  {
    if n > 0 {
      ChunksAre(files, day, n - 1);
      var front := ChunksOf(files, day, n - 1);
      forall k | 0 <= k < |front| ensures front[k].id != n - 1 {
        assert front[k] in front;
      }
    }
  }

  lemma FileOfChunk(files: seq<ChunkFile>, i: nat)
    requires i < |files|
    ensures FileOf(DirOf(files, files[i].day), ChunkOf(files, i)) == files[i].recs
  {
    hide EntriesOf;
  }

  lemma HeldByOneMore(d: TsDir, chunks: seq<Chunk>, c: Chunk, rec: Record)
    ensures HeldBy(d, chunks + [c], rec) == HeldBy(d, chunks, rec) + multiset(FileOf(d, c))[rec]
  {
    assert (chunks + [c])[..|chunks|] == chunks;
  }

  lemma OneMoreChunk(files: seq<ChunkFile>, day: int, n: nat, rec: Record)
    requires 0 < n <= |files|
    ensures ChunksOf(files, day, n) ==
            if files[n - 1].day == day then ChunksOf(files, day, n - 1) + [ChunkOf(files, n - 1)] else ChunksOf(files, day, n - 1)
    ensures DayTotal(files, day, n, rec) ==
            DayTotal(files, day, n - 1, rec) + if files[n - 1].day == day then multiset(files[n - 1].recs)[rec] else 0
  {
    assert ChunksOf(files, day, n - 1) + [] == ChunksOf(files, day, n - 1);
  }

  lemma NoChunks(files: seq<ChunkFile>, day: int, d: TsDir, rec: Record)
    ensures ChunksOf(files, day, 0) == [] && HeldBy(d, [], rec) == 0 == DayTotal(files, day, 0, rec)
  {
  }

  lemma {:induction false} ChunksHold(files: seq<ChunkFile>, day: int, n: nat, rec: Record)
    requires n <= |files|
    ensures HeldBy(DirOf(files, day), ChunksOf(files, day, n), rec) == DayTotal(files, day, n, rec)
  {
    hide *;
    if n == 0 {
      NoChunks(files, day, DirOf(files, day), rec);
    } else {
      ChunksHold(files, day, n - 1, rec);
      OneMoreChunk(files, day, n, rec);
      if files[n - 1].day == day {
        FileOfChunk(files, n - 1);
        HeldByOneMore(DirOf(files, day), ChunksOf(files, day, n - 1), ChunkOf(files, n - 1), rec);
      }
    }
  }

  lemma DayHoldsTotal(files: seq<ChunkFile>, day: int, filter: Span, keep: Record -> bool, rec: Record)
    ensures DayHolds(DirOf(files, day), filter, ANY_ID, keep, rec) ==
            if Wanted(filter, keep, rec) then DayTotal(files, day, |files|, rec) else 0
  {
    var d, all := DirOf(files, day), ANY_ID;
    StoredIsListed(d, all);
    ChunksAre(files, day, |files|);
    ChunksHold(files, day, |files|, rec);
    forall c ensures c in Stored(d, all) <==> c in ChunksOf(files, day, |files|) {
      ListedIs(files, day, c);
    }
    SameHolders(d, ChunksOf(files, day, |files|), Stored(d, all), rec);
  }

  ghost function DaysTotal(files: seq<ChunkFile>, n: nat, days: seq<int>, rec: Record): nat
    requires n <= |files|
  {
    if days == [] then 0
    else DaysTotal(files, n, days[..|days| - 1], rec) + DayTotal(files, days[|days| - 1], n, rec)
  }

  lemma {:induction false} ArchiveHoldsTotal(files: seq<ChunkFile>, days: seq<int>, filter: Span, keep: Record -> bool, rec: Record)
    ensures ArchiveHolds(DirsOf(files, days), filter, ANY_ID, keep, rec) ==
            if Wanted(filter, keep, rec) then DaysTotal(files, |files|, days, rec) else 0
  {
    if days != [] {
      hide DayHolds;
      var front, last := days[..|days| - 1], days[|days| - 1];
      ArchiveHoldsTotal(files, front, filter, keep, rec);
      DayHoldsTotal(files, last, filter, keep, rec);
      assert DirsOf(files, days)[..|days| - 1] == DirsOf(files, front);
    }
  }

  /** A file counts on its own day. */
  lemma {:induction false} OneMoreFile(files: seq<ChunkFile>, n: nat, days: seq<int>, rec: Record)
    requires 0 < n <= |files| && NoDuplicates(days)
    ensures DaysTotal(files, n, days, rec) ==
            DaysTotal(files, n - 1, days, rec) + if files[n - 1].day in days then multiset(files[n - 1].recs)[rec] else 0
    decreases |days|
  {
    if days != [] {
      OneMoreFile(files, n, days[..|days| - 1], rec);
    }
  }

  lemma {:induction false} TotalIsContents(files: seq<ChunkFile>, n: nat, days: seq<int>, rec: Record)
    requires n <= |files| && NoDuplicates(days) && forall i :: 0 <= i < n ==> files[i].day in days
    ensures DaysTotal(files, n, days, rec) == FilesContents(files[..n])[rec]
  {
    if n == 0 {
      NothingOnDays(files, days, rec);
    } else {
      OneMoreFile(files, n, days, rec);
      TotalIsContents(files, n - 1, days, rec);
      assert files[..n][..n - 1] == files[..n - 1];
    }
  }

  lemma {:induction false} NothingOnDays(files: seq<ChunkFile>, days: seq<int>, rec: Record)
    ensures DaysTotal(files, 0, days, rec) == 0
  {
    if days != [] {
      NothingOnDays(files, days[..|days| - 1], rec);
    }
  }

  /** The listed archive holds what its files hold. */
  lemma ListingHolds(files: seq<ChunkFile>, filter: Span, keep: Record -> bool, rec: Record)
    ensures ArchiveHolds(Listing(files), filter, ANY_ID, keep, rec) ==
            if Wanted(filter, keep, rec) then FilesContents(files)[rec] else 0
  {
    DaysAreThere(files, |files|);
    var days := DaysOf(files, |files|);
    ArchiveHoldsTotal(files, days, filter, keep, rec);
    TotalIsContents(files, |files|, days, rec);
    assert files[..|files|] == files;
  }

  // ------------------------------------------------------- what a scan relies on

  ghost predicate After1970(recs: multiset<Record>) {
    forall rec :: rec in recs ==> rec.ts > 0
  }

  lemma {:induction false} ContentsOfFile(files: seq<ChunkFile>, i: nat, rec: Record)
    requires i < |files| && rec in files[i].recs
    ensures rec in FilesContents(files)
  {
    var last := |files| - 1;
    if i < last {
      ContentsOfFile(files[..last], i, rec);
    }
  }

  lemma MidnightsApart(a: int, b: int)
    requires a % DAY == 0 && b % DAY == 0 && a != b
    ensures a + DAY <= b || b + DAY <= a
  {
  }

  lemma MidnightIsWhole(ts: int)
    requires ts > 0
    ensures Midnight(ts) % DAY == 0
  {
    RemainderIs(Midnight(ts), ts / DAY, 0);
  }

  /** What an import leaves of records after 1970 is an archive that can be scanned. */
  lemma ImportedIsOk(dir: Direction, files: seq<ChunkFile>)
    requires FilesOk(dir, files) && After1970(FilesContents(files))
    ensures ArchiveOk(dir, Listing(files))
  {
    var days := DaysOf(files, |files|);
    DaysAreThere(files, |files|);
    forall i, rec | 0 <= i < |files| && rec in files[i].recs ensures rec.ts > 0 {
      ContentsOfFile(files, i, rec);
    }
    forall k | 0 <= k < |days| ensures DayOk(dir, DirOf(files, days[k])) && days[k] % DAY == 0 {
      ImportedDayIsOk(dir, files, days[k]);
      assert days[k] in days;
      var i :| 0 <= i < |files| && files[i].day == days[k];
      assert FileOk(dir, files[i]) && files[i].recs[0] in files[i].recs;
      MidnightIsWhole(files[i].recs[0].ts);
    }
    forall i, j | 0 <= i < j < |days| ensures DaysApart(DirOf(files, days[i]), DirOf(files, days[j])) {
      MidnightsApart(days[i], days[j]);
    }
  }

  lemma ImportedDayIsOk(dir: Direction, files: seq<ChunkFile>, day: int)
    requires FilesOk(dir, files)
    requires forall i, rec :: 0 <= i < |files| && rec in files[i].recs ==> rec.ts > 0
    ensures DayOk(dir, DirOf(files, day))
  {
    var d := DirOf(files, day);
    hide ChunkInDay;
    forall c | Listed(d.entries, c) ensures ChunkInDay(dir, d, c) {
      ListedIs(files, day, c);
      ImportedChunkFitsItsDay(dir, files[c.id], d, c.id);
    }
  }

  // ------------------------------------------------------------------ both together

  /**
   * Records after 1970 imported into an empty archive and scanned: the scan delivers
   * just those that are wanted, in the archive's order, and each as often as it was
   * imported if and only if no chunk holds one where two others are adjacent under it.
   */
  method ImportAndScan(ark: Archive, recs: seq<Record>, importBufSize: nat, filter: Span, keep: Record -> bool) returns (out: seq<Record>)
    requires ark.files == [] && After1970(multiset(recs))
    modifies ark`files
    ensures Combiners.InOrder(ark.dir, out)
    ensures forall rec :: rec in out <==> rec in recs && Wanted(filter, keep, rec)
    ensures (forall rec :: multiset(out)[rec] == if Wanted(filter, keep, rec) then multiset(recs)[rec] else 0) <==>
            ArchiveRepeatsNothing(ark.dir, filter, ANY_ID, keep, Listing(ark.files))
  {
    hide FilesOk, FilesContents, Listing, ArchiveOk, ArchiveHolds, ArchiveRepeatsNothing;
    Import(ark, recs, importBufSize);
    ImportedIsOk(ark.dir, ark.files);
    out := ScanArchive(Listing(ark.files), ark.dir, filter, ANY_ID, keep);
    forall rec ensures ArchiveHolds(Listing(ark.files), filter, ANY_ID, keep, rec) == if Wanted(filter, keep, rec) then multiset(recs)[rec] else 0 {
      ListingHolds(ark.files, filter, keep, rec);
    }
  }
}
