/**
 * Walking an archive's directories (archive/walk.go) and scanning all of it
 * (archive/multisource.go).
 */
module ArchiveScans {
  import opened Bytes
  import opened Combiners
  import opened Overlap
  import opened Scans
  import opened Sorting
  import opened Spans

  // ------------------------------------------------------- a directory's chunks

  /** The last seek index entry for an id among these. */
  function SeekOf(entries: seq<Dirent>, id: int): Option<Dirent> {
    if entries == [] then None
    else
      var last := entries[|entries| - 1];
      if last.SeekIndex? && last.id == id then Some(last) else SeekOf(entries[..|entries| - 1], id)
  }

  /** The entries name a chunk by a data file and a seek index file of one id. */
  predicate Listed(entries: seq<Dirent>, c: Chunk) {
    DataFile(c.id) in entries && SeekOf(entries, c.id) == Some(SeekIndex(c.id, c.first, c.last))
  }

  /** Chunks a scan of the directory has to look at. */
  predicate ToScan(entries: seq<Dirent>, filterSpan: Span, allowed: int -> bool, c: Chunk) {
    Listed(entries, c) && allowed(c.id) && filterSpan.Overlaps(FirstLastToSpan(c.first, c.last))
  }

  /** The seek index entries by id, as found in a listing. */
  ghost predicate SeekMap(entries: seq<Dirent>, sfiles: map<int, Dirent>) {
    forall id :: SeekOf(entries, id) == if id in sfiles then Some(sfiles[id]) else None
  }

  /** Joins data files with their seek index files; the map is walked in any order. */
  method TsDirEntriesToChunks(filterSpan: Span, allowed: int -> bool, entries: seq<Dirent>) returns (chunks: seq<Chunk>)
    ensures DistinctIds(chunks)
    ensures forall c :: c in chunks <==> ToScan(entries, filterSpan, allowed, c)
  {
    var dfiles: set<int>, sfiles: map<int, Dirent> := {}, map[];
    for k := 0 to |entries|
      invariant forall id :: id in dfiles <==> DataFile(id) in entries[..k]
      invariant SeekMap(entries[..k], sfiles) && forall id :: id in sfiles ==> sfiles[id].SeekIndex? && sfiles[id].id == id
    {
      var e := entries[k];
      assert entries[..k + 1][..k] == entries[..k];
      match e {
        case DataFile(id) => dfiles := dfiles + {id};
        case SeekIndex(id, _, _) => sfiles := sfiles[id := e];
        case Other =>
      }
    }
    assert entries[..|entries|] == entries;
    chunks := [];
    var ids: set<int> := sfiles.Keys;
    while ids != {}
      invariant ids <= sfiles.Keys && DistinctIds(chunks)
      invariant forall c :: c in chunks <==> ToScan(entries, filterSpan, allowed, c) && c.id !in ids
      decreases |ids|
    {
      HasMember(ids);
      var id :| id in ids;
      var sf := sfiles[id];
      var c := Chunk(id, sf.first, sf.last);
      assert SeekOf(entries, id) == Some(sf);
      ids := ids - {id};
      if !allowed(id) || !filterSpan.Overlaps(FirstLastToSpan(sf.first, sf.last)) || id !in dfiles {
        continue;
      }
      chunks := chunks + [c];
    }
  }

  // ---------------------------------------------------------------- days in order

  function TsDirLess(dir: Direction): (TsDir, TsDir) -> bool {
    (a: TsDir, b: TsDir) => if dir == Forward then a.ts < b.ts else b.ts < a.ts
  }

  ghost predicate DaysInOrder(dir: Direction, days: seq<TsDir>) {
    forall i, j :: 0 <= i < j < |days| ==> dir.Pos(days[i].ts) <= dir.Pos(days[j].ts)
  }

  /** The days the filter touches, in the archive's order; entries that name no day are skipped. */
  method TsDirsToVisit(dirents: seq<Option<TsDir>>, dir: Direction, filterSpan: Span) returns (days: seq<TsDir>)
    ensures DaysInOrder(dir, days)
    ensures multiset(days) == multiset(Touched(dirents, filterSpan))
  {
    var tsdirs := [];
    for k := 0 to |dirents|
      invariant tsdirs == Touched(dirents[..k], filterSpan)
    {
      assert dirents[..k + 1][..k] == dirents[..k];
      if dirents[k].None? || !DaySpan(dirents[k].value).Overlaps(filterSpan) {
        continue;
      }
      tsdirs := tsdirs + [dirents[k].value];
    }
    assert dirents[..|dirents|] == dirents;
    var less := TsDirLess(dir);
    days := Sort(tsdirs, less);
    SortSorted(tsdirs, less);
    forall i, j | 0 <= i < j < |days| ensures dir.Pos(days[i].ts) <= dir.Pos(days[j].ts) {
      assert !less(days[j], days[i]);
    }
  }

  function Touched(dirents: seq<Option<TsDir>>, filterSpan: Span): seq<TsDir> {
    if dirents == [] then []
    else
      var d := dirents[|dirents| - 1];
      Touched(dirents[..|dirents| - 1], filterSpan)
      + if d.Some? && DaySpan(d.value).Overlaps(filterSpan) then [d.value] else []
  }

  // --------------------------------------------------- what an archive holds

  /** No later seek index entry has the id of entry `n`. */
  predicate IsLast(entries: seq<Dirent>, n: nat)
    requires n < |entries| && entries[n].SeekIndex?
  {
    forall k :: n < k < |entries| && entries[k].SeekIndex? ==> entries[k].id != entries[n].id
  }

  /** The chunks stored under the first `n` entries of a directory, one by one. */
  function StoredIn(entries: seq<Dirent>, n: nat, allowed: int -> bool): seq<Chunk>
    requires n <= |entries|
  {
    if n == 0 then []
    else
      var e := entries[n - 1];
      StoredIn(entries, n - 1, allowed)
      + if e.SeekIndex? && IsLast(entries, n - 1) && DataFile(e.id) in entries && allowed(e.id)
        then [Chunk(e.id, e.first, e.last)] else []
  }

  function Stored(d: TsDir, allowed: int -> bool): seq<Chunk> {
    StoredIn(d.entries, |d.entries|, allowed)
  }

  /** Where among the entries a chunk is stored. */
  ghost predicate StoredAt(entries: seq<Dirent>, k: nat, allowed: int -> bool, c: Chunk) {
    && k < |entries| && entries[k] == SeekIndex(c.id, c.first, c.last) && IsLast(entries, k)
    && DataFile(c.id) in entries && allowed(c.id)
  }

  lemma {:induction false} StoredInIs(entries: seq<Dirent>, n: nat, allowed: int -> bool)
    requires n <= |entries|
    ensures forall c :: c in StoredIn(entries, n, allowed) <==> exists k :: 0 <= k < n && StoredAt(entries, k, allowed, c)
    ensures DistinctIds(StoredIn(entries, n, allowed))
  {
    if n > 0 {
      StoredInIs(entries, n - 1, allowed);
      var front, e := StoredIn(entries, n - 1, allowed), entries[n - 1];
      if e.SeekIndex? && IsLast(entries, n - 1) && DataFile(e.id) in entries && allowed(e.id) {
        var c := Chunk(e.id, e.first, e.last);
        assert StoredAt(entries, n - 1, allowed, c);
        forall i | 0 <= i < |front| ensures front[i].id != c.id {
          assert front[i] in front;
        }
      }
    }
  }

  /** The seek index entry found for an id is the last one. */
  lemma {:induction false} SeekIsLast(entries: seq<Dirent>, n: nat, id: int)
    requires n <= |entries|
    ensures match SeekOf(entries[..n], id)
            case None => forall k :: 0 <= k < n && entries[k].SeekIndex? ==> entries[k].id != id
            case Some(e) => exists k :: 0 <= k < n && entries[k] == e && e.SeekIndex? && e.id == id
                                        && forall m :: k < m < n && entries[m].SeekIndex? ==> entries[m].id != id
  {
    if n > 0 {
      SeekIsLast(entries, n - 1, id);
      assert entries[..n][..n - 1] == entries[..n - 1];
    }
  }

  /** The stored chunks are those the listing names. */
  lemma StoredIsListed(d: TsDir, allowed: int -> bool)
    ensures DistinctIds(Stored(d, allowed))
    ensures forall c :: c in Stored(d, allowed) <==> Listed(d.entries, c) && allowed(c.id)
  {
    var entries := d.entries;
    StoredInIs(entries, |entries|, allowed);
    assert entries[..|entries|] == entries;
    forall c ensures c in Stored(d, allowed) <==> Listed(entries, c) && allowed(c.id) {
      SeekIsLast(entries, |entries|, c.id);
      if k :| 0 <= k < |entries| && StoredAt(entries, k, allowed, c) {
        assert entries[k].SeekIndex? && entries[k].id == c.id;
      }
      if Listed(entries, c) && allowed(c.id) {
        var e := SeekOf(entries, c.id).value;
        var k :| 0 <= k < |entries| && entries[k] == e && forall m :: k < m < |entries| && entries[m].SeekIndex? ==> entries[m].id != c.id;
        assert StoredAt(entries, k, allowed, c);
      }
    }
  }

  /** How often a day holds a record that is wanted, in chunks allowed. */
  ghost function DayHolds(d: TsDir, filter: Span, allowed: int -> bool, keep: Record -> bool, rec: Record): nat {
    DayCount(d, Stored(d, allowed), filter, keep, rec)
  }

  ghost function DaysHold(days: seq<TsDir>, filter: Span, allowed: int -> bool, keep: Record -> bool, rec: Record): nat {
    if days == [] then 0
    else DaysHold(days[..|days| - 1], filter, allowed, keep, rec) + DayHolds(days[|days| - 1], filter, allowed, keep, rec)
  }

  /** How often the archive holds a record that is wanted: what a scan should deliver. */
  ghost function ArchiveHolds(dirents: seq<Option<TsDir>>, filter: Span, allowed: int -> bool, keep: Record -> bool, rec: Record): nat {
    if dirents == [] then 0
    else
      var d := dirents[|dirents| - 1];
      ArchiveHolds(dirents[..|dirents| - 1], filter, allowed, keep, rec)
      + if d.Some? then DayHolds(d.value, filter, allowed, keep, rec) else 0
  }

  ghost predicate DayOk(dir: Direction, d: TsDir) {
    forall c :: Listed(d.entries, c) ==> ChunkInDay(dir, d, c)
  }

  /** Chunks are in order and stay within their day, and no two directories are of one day. */
  ghost predicate ArchiveOk(dir: Direction, dirents: seq<Option<TsDir>>) {
    && (forall k :: 0 <= k < |dirents| && dirents[k].Some? ==> DayOk(dir, dirents[k].value))
    && (forall i, j :: 0 <= i < j < |dirents| && dirents[i].Some? && dirents[j].Some? ==> DaysApart(dirents[i].value, dirents[j].value))
  }

  ghost predicate DaysApart(a: TsDir, b: TsDir) {
    a.ts + DAY <= b.ts || b.ts + DAY <= a.ts
  }

  /** Among the chunks to scan one ends at `ts` and another starts right after, while `c` is open across both. */
  ghost predicate PairIn(dir: Direction, entries: seq<Dirent>, filter: Span, allowed: int -> bool, c: Chunk, ts: int) {
    && (exists p :: ToScan(entries, filter, allowed, p) && p.last == ts)
    && (exists q :: ToScan(entries, filter, allowed, q) && q.first == dir.Next(ts))
    && Covers(dir, c, ts) && Covers(dir, c, dir.Next(ts))
  }

  /** No chunk to scan holds a wanted record where two others are adjacent under it. */
  ghost predicate DayRepeatsNothing(dir: Direction, filter: Span, allowed: int -> bool, keep: Record -> bool, d: TsDir) {
    forall c, rec :: ToScan(d.entries, filter, allowed, c) && Holds(d, c, rec) && Wanted(filter, keep, rec) ==>
      !PairIn(dir, d.entries, filter, allowed, c, dir.Prev(rec.ts)) && !PairIn(dir, d.entries, filter, allowed, c, rec.ts)
  }

  ghost predicate ArchiveRepeatsNothing(dir: Direction, filter: Span, allowed: int -> bool, keep: Record -> bool, dirents: seq<Option<TsDir>>) {
    forall k :: 0 <= k < |dirents| && dirents[k].Some? ==> DayRepeatsNothing(dir, filter, allowed, keep, dirents[k].value)
  }

  lemma RepeatsByEntries(dir: Direction, filter: Span, allowed: int -> bool, keep: Record -> bool, d: TsDir, chunks: seq<Chunk>)
    requires forall c :: c in chunks <==> ToScan(d.entries, filter, allowed, c)
    ensures NothingRepeated(dir, d, chunks, filter, keep) <==> DayRepeatsNothing(dir, filter, allowed, keep, d)
  {
    forall c, ts ensures PairAfter(dir, chunks, c, ts) <==> PairIn(dir, d.entries, filter, allowed, c, ts) {
      hide ToScan;
    }
    hide ToScan, PairAfter, PairIn;
    if NothingRepeated(dir, d, chunks, filter, keep) {
      forall c, rec | ToScan(d.entries, filter, allowed, c) && Holds(d, c, rec) && Wanted(filter, keep, rec)
        ensures !PairIn(dir, d.entries, filter, allowed, c, dir.Prev(rec.ts)) && !PairIn(dir, d.entries, filter, allowed, c, rec.ts)
      {
        assert NotRepeated(dir, d, chunks, chunks, rec);
      }
    }
  }

  /** A day the filter does not touch repeats nothing. */
  lemma UntouchedRepeatsNothing(dir: Direction, filter: Span, allowed: int -> bool, keep: Record -> bool, d: TsDir)
    requires DayOk(dir, d) && !DaySpan(d).Overlaps(filter)
    ensures DayRepeatsNothing(dir, filter, allowed, keep, d)
  {
    hide PairIn;
    forall c, rec | ToScan(d.entries, filter, allowed, c) && Holds(d, c, rec) ensures !Wanted(filter, keep, rec) {
      HolderCovers(dir, d, c, rec);
      IntersectContains(DaySpan(d), filter, rec.ts);
    }
  }

  /** The chunks left out of a scan hold nothing that is wanted. */
  lemma ScannedChunksSuffice(dir: Direction, d: TsDir, filter: Span, allowed: int -> bool, keep: Record -> bool, chunks: seq<Chunk>, rec: Record)
    requires DayOk(dir, d) && DistinctIds(chunks) && forall c :: c in chunks <==> ToScan(d.entries, filter, allowed, c)
    ensures DayCount(d, chunks, filter, keep, rec) == DayHolds(d, filter, allowed, keep, rec)
  {
    StoredIsListed(d, allowed);
    if Wanted(filter, keep, rec) {
      forall c | c in Stored(d, allowed) && Holds(d, c, rec) ensures c in chunks {
        HolderCovers(dir, d, c, rec);
        FirstLastContains(dir, c.first, c.last, rec.ts);
        IntersectContains(filter, FirstLastToSpan(c.first, c.last), rec.ts);
      }
      SameHolders(d, chunks, Stored(d, allowed), rec);
    }
  }

  /** All that a day holds has timestamps of the day. */
  lemma HeldInDay(dir: Direction, d: TsDir, filter: Span, allowed: int -> bool, keep: Record -> bool, rec: Record)
    requires DayOk(dir, d) && DayHolds(d, filter, allowed, keep, rec) > 0
    ensures DaySpan(d).Contains(rec.ts) && filter.Contains(rec.ts)
  {
    StoredIsListed(d, allowed);
    HeldSomewhere(d, Stored(d, allowed), rec);
    var c :| c in Stored(d, allowed) && Holds(d, c, rec);
    HolderCovers(dir, d, c, rec);
  }

  lemma UntouchedHoldsNothing(dir: Direction, d: TsDir, filter: Span, allowed: int -> bool, keep: Record -> bool, rec: Record)
    requires DayOk(dir, d)
    ensures !DaySpan(d).Overlaps(filter) ==> DayHolds(d, filter, allowed, keep, rec) == 0
  {
    if DayHolds(d, filter, allowed, keep, rec) > 0 {
      HeldInDay(dir, d, filter, allowed, keep, rec);
      IntersectContains(DaySpan(d), filter, rec.ts);
    }
  }

  /** The days left out hold nothing that is wanted. */
  lemma {:induction false} TouchedDaysSuffice(dir: Direction, dirents: seq<Option<TsDir>>, filter: Span, allowed: int -> bool, keep: Record -> bool, rec: Record)
    requires forall k :: 0 <= k < |dirents| && dirents[k].Some? ==> DayOk(dir, dirents[k].value)
    ensures DaysHold(Touched(dirents, filter), filter, allowed, keep, rec) == ArchiveHolds(dirents, filter, allowed, keep, rec)
  {
    if dirents != [] {
      hide DayHolds, DayOk;
      var front, last := dirents[..|dirents| - 1], dirents[|dirents| - 1];
      TouchedDaysSuffice(dir, front, filter, allowed, keep, rec);
      if last.Some? {
        if DaySpan(last.value).Overlaps(filter) {
          var t := Touched(front, filter) + [last.value];
          assert t[..|t| - 1] == Touched(front, filter);
        } else {
          UntouchedHoldsNothing(dir, last.value, filter, allowed, keep, rec);
        }
      }
      assert Touched(front, filter) + [] == Touched(front, filter);
    }
  }

  /** The order of the days does not change what they hold. */
  lemma {:induction false} OrderOfDays(a: seq<TsDir>, b: seq<TsDir>, filter: Span, allowed: int -> bool, keep: Record -> bool, rec: Record)
    requires multiset(a) == multiset(b)
    ensures DaysHold(a, filter, allowed, keep, rec) == DaysHold(b, filter, allowed, keep, rec)
    decreases |a|
  {
    if a == [] {
      assert |multiset(b)| == 0;
    } else {
      hide DayHolds;
      var i := PermutationWithoutLast(a, b);
      OrderOfDays(a[..|a| - 1], b[..i] + b[i + 1..], filter, allowed, keep, rec);
      HoldWithout(b, i, filter, allowed, keep, rec);
    }
  }

  lemma {:induction false} HoldWithout(b: seq<TsDir>, i: nat, filter: Span, allowed: int -> bool, keep: Record -> bool, rec: Record)
    requires i < |b|
    ensures DaysHold(b, filter, allowed, keep, rec) ==
            DaysHold(b[..i] + b[i + 1..], filter, allowed, keep, rec) + DayHolds(b[i], filter, allowed, keep, rec)
    decreases |b|
  {
    hide DayHolds;
    var front := b[..|b| - 1];
    if i == |b| - 1 {
      assert b[..i] + b[i + 1..] == front;
    } else {
      HoldWithout(front, i, filter, allowed, keep, rec);
      assert b[..i] + b[i + 1..] == (front[..i] + front[i + 1..]) + [b[|b| - 1]];
      HoldSnoc(front[..i] + front[i + 1..], b[|b| - 1], filter, allowed, keep, rec);
    }
  }

  lemma HoldSnoc(a: seq<TsDir>, d: TsDir, filter: Span, allowed: int -> bool, keep: Record -> bool, rec: Record)
    ensures DaysHold(a + [d], filter, allowed, keep, rec) == DaysHold(a, filter, allowed, keep, rec) + DayHolds(d, filter, allowed, keep, rec)
  {
    hide DayHolds;
    assert (a + [d])[..|a|] == a;
  }

  // -------------------------------------------------------------------- a scan

  /** What has been scanned after some of the days. */
  ghost predicate ScannedDays(dir: Direction, days: seq<TsDir>, filter: Span, allowed: int -> bool, keep: Record -> bool, out: seq<Record>) {
    && Combiners.InOrder(dir, out)
    && (forall rec :: rec in out <==> DaysHold(days, filter, allowed, keep, rec) > 0)
    && (forall rec :: multiset(out)[rec] >= DaysHold(days, filter, allowed, keep, rec))
    && ((forall rec :: multiset(out)[rec] == DaysHold(days, filter, allowed, keep, rec)) <==> DaysRepeatNothing(dir, days, filter, allowed, keep))
  }

  ghost predicate DaysRepeatNothing(dir: Direction, days: seq<TsDir>, filter: Span, allowed: int -> bool, keep: Record -> bool) {
    forall k :: 0 <= k < |days| ==> DayRepeatsNothing(dir, filter, allowed, keep, days[k])
  }

  /** How one more day has been scanned. */
  ghost predicate ScannedDay(dir: Direction, d: TsDir, filter: Span, allowed: int -> bool, keep: Record -> bool, out: seq<Record>) {
    && Combiners.InOrder(dir, out)
    && (forall rec :: rec in out <==> DayHolds(d, filter, allowed, keep, rec) > 0)
    && (forall rec :: multiset(out)[rec] >= DayHolds(d, filter, allowed, keep, rec))
    && ((forall rec :: multiset(out)[rec] == DayHolds(d, filter, allowed, keep, rec)) <==> DayRepeatsNothing(dir, filter, allowed, keep, d))
  }

  /** The days can be scanned one after the other. */
  ghost predicate DaysOk(dir: Direction, days: seq<TsDir>) {
    && DaysInOrder(dir, days)
    && (forall k :: 0 <= k < |days| ==> DayOk(dir, days[k]))
    && (forall i, j :: 0 <= i < j < |days| ==> DaysApart(days[i], days[j]))
  }

  lemma {:induction false} HeldOnSomeDay(dir: Direction, days: seq<TsDir>, filter: Span, allowed: int -> bool, keep: Record -> bool, rec: Record) returns (i: nat)
    requires (forall k :: 0 <= k < |days| ==> DayOk(dir, days[k])) && DaysHold(days, filter, allowed, keep, rec) > 0
    ensures i < |days| && DaySpan(days[i]).Contains(rec.ts)
  {
    hide DayOk, DayHolds;
    i := |days| - 1;
    if DayHolds(days[i], filter, allowed, keep, rec) > 0 {
      HeldInDay(dir, days[i], filter, allowed, keep, rec);
    } else {
      i := HeldOnSomeDay(dir, days[..i], filter, allowed, keep, rec);
    }
  }

  lemma EarlierDay(dir: Direction, days: seq<TsDir>, filter: Span, allowed: int -> bool, keep: Record -> bool, x: Record, y: Record)
    requires DaysOk(dir, days) && days != [] && DaysHold(days[..|days| - 1], filter, allowed, keep, x) > 0
    requires DayHolds(days[|days| - 1], filter, allowed, keep, y) > 0
    ensures dir.Pos(x.ts) < dir.Pos(y.ts)
  {
    var i := HeldOnSomeDay(dir, days[..|days| - 1], filter, allowed, keep, x);
    HeldInDay(dir, days[|days| - 1], filter, allowed, keep, y);
    assert DaysApart(days[i], days[|days| - 1]);
  }

  lemma ScanOneMoreDay(dir: Direction, days: seq<TsDir>, filter: Span, allowed: int -> bool, keep: Record -> bool, out: seq<Record>, next: seq<Record>)
    requires DaysOk(dir, days) && days != []
    requires ScannedDays(dir, days[..|days| - 1], filter, allowed, keep, out)
    requires ScannedDay(dir, days[|days| - 1], filter, allowed, keep, next)
    ensures ScannedDays(dir, days, filter, allowed, keep, out + next)
  {
    hide DaysOk, DayHolds, DayRepeatsNothing, Combiners.InOrder;
    var front, last := days[..|days| - 1], days[|days| - 1];
    LaterDayInOrder(dir, days, filter, allowed, keep, out, next);
    CountsAdd(out, next, rec => DaysHold(front, filter, allowed, keep, rec), rec => DayHolds(last, filter, allowed, keep, rec));
    OneMoreDayRepeats(dir, days, filter, allowed, keep);
    hide DaysRepeatNothing;
    forall rec ensures DaysHold(days, filter, allowed, keep, rec) == DaysHold(front, filter, allowed, keep, rec) + DayHolds(last, filter, allowed, keep, rec) {}
    hide DaysHold;
    InEither(out, next);
  }

  lemma InEither(a: seq<Record>, b: seq<Record>)
    ensures forall rec :: rec in a + b <==> rec in a || rec in b
  {
  }

  lemma OneMoreDayRepeats(dir: Direction, days: seq<TsDir>, filter: Span, allowed: int -> bool, keep: Record -> bool)
    requires days != []
    ensures DaysRepeatNothing(dir, days, filter, allowed, keep) <==>
            DaysRepeatNothing(dir, days[..|days| - 1], filter, allowed, keep)
            && DayRepeatsNothing(dir, filter, allowed, keep, days[|days| - 1])
  {
    hide DayRepeatsNothing;
  }

  lemma LaterDayInOrder(dir: Direction, days: seq<TsDir>, filter: Span, allowed: int -> bool, keep: Record -> bool, out: seq<Record>, next: seq<Record>)
    requires DaysOk(dir, days) && days != [] && Combiners.InOrder(dir, out) && Combiners.InOrder(dir, next)
    requires forall rec :: rec in out ==> DaysHold(days[..|days| - 1], filter, allowed, keep, rec) > 0
    requires forall rec :: rec in next ==> DayHolds(days[|days| - 1], filter, allowed, keep, rec) > 0
    ensures Combiners.InOrder(dir, out + next)
  {
    hide DaysOk, DaysHold, DayHolds;
    forall i, j | 0 <= i < |out| && 0 <= j < |next| ensures dir.Pos(out[i].ts) <= dir.Pos(next[j].ts) {
      assert out[i] in out && next[j] in next;
      EarlierDay(dir, days, filter, allowed, keep, out[i], next[j]);
    }
    ConcatInOrder(dir, out, next);
  }

  /** Two scans that deliver at least what they should deliver just that together if and only if each does. */
  lemma CountsAdd(a: seq<Record>, b: seq<Record>, f: Record -> nat, g: Record -> nat)
    requires (forall rec :: multiset(a)[rec] >= f(rec)) && (forall rec :: multiset(b)[rec] >= g(rec))
    ensures forall rec :: multiset(a + b)[rec] >= f(rec) + g(rec)
    ensures (forall rec :: multiset(a + b)[rec] == f(rec) + g(rec)) <==>
            (forall rec :: multiset(a)[rec] == f(rec)) && (forall rec :: multiset(b)[rec] == g(rec))
  {
    assert multiset(a + b) == multiset(a) + multiset(b);
  }

  lemma {:induction false} TouchedAreThere(dirents: seq<Option<TsDir>>, filter: Span)
    ensures forall d :: d in Touched(dirents, filter) ==> Some(d) in dirents
  {
    if dirents != [] {
      var front := dirents[..|dirents| - 1];
      TouchedAreThere(front, filter);
      assert dirents == front + [dirents[|dirents| - 1]];
    }
  }

  lemma {:induction false} TouchedOnce(dir: Direction, dirents: seq<Option<TsDir>>, filter: Span)
    requires ArchiveOk(dir, dirents)
    ensures NoDuplicates(Touched(dirents, filter))
  {
    if dirents != [] {
      var front, last := dirents[..|dirents| - 1], dirents[|dirents| - 1];
      TouchedOnce(dir, front, filter);
      TouchedAreThere(front, filter);
      if last.Some? {
        forall k | 0 <= k < |Touched(front, filter)| ensures Touched(front, filter)[k] != last.value {
          var d := Touched(front, filter)[k];
          assert d in Touched(front, filter);
          var i :| 0 <= i < |front| && front[i] == Some(d);
          assert DaysApart(dirents[i].value, last.value);
        }
      }
    }
  }

  lemma VisitedDaysOk(dir: Direction, dirents: seq<Option<TsDir>>, filter: Span, days: seq<TsDir>)
    requires ArchiveOk(dir, dirents) && DaysInOrder(dir, days) && multiset(days) == multiset(Touched(dirents, filter))
    ensures DaysOk(dir, days)
    ensures forall k :: 0 <= k < |days| ==> Some(days[k]) in dirents
  {
    TouchedOnce(dir, dirents, filter);
    PermutationHasNoDuplicates(Touched(dirents, filter), days);
    TouchedAreThere(dirents, filter);
    forall k | 0 <= k < |days| ensures Some(days[k]) in dirents && DayOk(dir, days[k]) {
      assert days[k] in multiset(days);
      assert days[k] in Touched(dirents, filter);
      var m :| 0 <= m < |dirents| && dirents[m] == Some(days[k]);
    }
    forall i, j | 0 <= i < j < |days| ensures DaysApart(days[i], days[j]) {
      var a :| 0 <= a < |dirents| && dirents[a] == Some(days[i]);
      var b :| 0 <= b < |dirents| && dirents[b] == Some(days[j]);
      assert a != b;
      assert DaysApart(dirents[Min(a, b)].value, dirents[Max(a, b)].value);
    }
  }

  /**
   * A scan of the whole archive.  It delivers the records that are wanted and no
   * others, in the archive's order; each as often as it is stored if and only if on no
   * day a chunk holds a wanted record where two others are adjacent under it.
   */
  method ScanArchive(dirents: seq<Option<TsDir>>, dir: Direction, filter: Span, allowed: int -> bool, keep: Record -> bool) returns (out: seq<Record>)
    requires ArchiveOk(dir, dirents)
    ensures Combiners.InOrder(dir, out)
    ensures forall rec :: rec in out <==> ArchiveHolds(dirents, filter, allowed, keep, rec) > 0
    ensures (forall rec :: multiset(out)[rec] == ArchiveHolds(dirents, filter, allowed, keep, rec)) <==>
            ArchiveRepeatsNothing(dir, filter, allowed, keep, dirents)
  {
    hide ArchiveOk, DaysOk, ScannedDays, DayScanned, ArchiveRepeatsNothing, ArchiveHolds;
    var days := TsDirsToVisit(dirents, dir, filter);
    VisitedDaysOk(dir, dirents, filter, days);
    out := [];
    NoDaysScanned(dir, filter, allowed, keep);
    for k := 0 to |days|
      invariant ScannedDays(dir, days[..k], filter, allowed, keep, out)
    {
      var chunks := TsDirEntriesToChunks(filter, allowed, days[k].entries);
      ChunksToScanOk(dir, days, k, filter, allowed, keep, chunks);
      var next := ScanDay(days[k], chunks, dir, filter, keep);
      ScanDayOfDays(dir, days, k, filter, allowed, keep, chunks, out, next);
      out := out + next;
    }
    assert days[..|days|] == days;
    ArchiveIsScanned(dir, dirents, days, filter, allowed, keep, out);
  }

  lemma NoDaysScanned(dir: Direction, filter: Span, allowed: int -> bool, keep: Record -> bool)
    ensures ScannedDays(dir, [], filter, allowed, keep, [])
  {
  }

  lemma ChunksToScanOk(dir: Direction, days: seq<TsDir>, k: nat, filter: Span, allowed: int -> bool, keep: Record -> bool, chunks: seq<Chunk>)
    requires DaysOk(dir, days) && k < |days| && DistinctIds(chunks)
    requires forall c :: c in chunks <==> ToScan(days[k].entries, filter, allowed, c)
    ensures ChunksOk(dir, chunks) && forall c :: c in chunks ==> ChunkInDay(dir, days[k], c)
  {
  }

  lemma ScanDayOfDays(dir: Direction, days: seq<TsDir>, k: nat, filter: Span, allowed: int -> bool, keep: Record -> bool,
                      chunks: seq<Chunk>, out: seq<Record>, next: seq<Record>)
    requires DaysOk(dir, days) && k < |days| && ScannedDays(dir, days[..k], filter, allowed, keep, out)
    requires DistinctIds(chunks) && forall c :: c in chunks <==> ToScan(days[k].entries, filter, allowed, c)
    requires DayScanned(dir, days[k], chunks, filter, keep, next)
    ensures ScannedDays(dir, days[..k + 1], filter, allowed, keep, out + next)
  {
    hide DayCount, DayHolds, ScannedDays, ChunkInDay, DistinctIds, DayDelivers, NothingRepeated, DayRepeatsNothing;
    forall rec
      ensures DayCount(days[k], chunks, filter, keep, rec) == DayHolds(days[k], filter, allowed, keep, rec)
      ensures multiset(next)[rec] >= DayHolds(days[k], filter, allowed, keep, rec)
    {
      ScannedChunksSuffice(dir, days[k], filter, allowed, keep, chunks, rec);
      DayDeliversExactly(dir, days[k], chunks, filter, keep);
    }
    RepeatsByEntries(dir, filter, allowed, keep, days[k], chunks);
    assert ScannedDay(dir, days[k], filter, allowed, keep, next);
    var upTo := days[..k + 1];
    assert upTo[..k] == days[..k] && DaysOk(dir, upTo);
    ScanOneMoreDay(dir, upTo, filter, allowed, keep, out, next);
  }

  /** The archive repeats nothing just when none of the days visited does. */
  lemma VisitedDaysSuffice(dir: Direction, dirents: seq<Option<TsDir>>, days: seq<TsDir>, filter: Span, allowed: int -> bool, keep: Record -> bool)
    requires ArchiveOk(dir, dirents)
    requires multiset(days) == multiset(Touched(dirents, filter)) && forall k :: 0 <= k < |days| ==> Some(days[k]) in dirents
    ensures DaysRepeatNothing(dir, days, filter, allowed, keep) <==> ArchiveRepeatsNothing(dir, filter, allowed, keep, dirents)
  {
    hide DayRepeatsNothing, DayOk;
    if DaysRepeatNothing(dir, days, filter, allowed, keep) {
      forall k | 0 <= k < |dirents| && dirents[k].Some? ensures DayRepeatsNothing(dir, filter, allowed, keep, dirents[k].value) {
        var d := dirents[k].value;
        if DaySpan(d).Overlaps(filter) {
          OverlappingIsTouched(dirents, filter, k);
          assert d in multiset(days);
          assert d in days;
        } else {
          UntouchedRepeatsNothing(dir, filter, allowed, keep, d);
        }
      }
    }
    if ArchiveRepeatsNothing(dir, filter, allowed, keep, dirents) {
      forall k | 0 <= k < |days| ensures DayRepeatsNothing(dir, filter, allowed, keep, days[k]) {
        var i :| 0 <= i < |dirents| && dirents[i] == Some(days[k]);
      }
    }
  }

  lemma {:induction false} OverlappingIsTouched(dirents: seq<Option<TsDir>>, filter: Span, k: nat)
    requires k < |dirents| && dirents[k].Some? && DaySpan(dirents[k].value).Overlaps(filter)
    ensures dirents[k].value in Touched(dirents, filter)
  {
    if k < |dirents| - 1 {
      OverlappingIsTouched(dirents[..|dirents| - 1], filter, k);
    }
  }

  lemma ArchiveIsScanned(dir: Direction, dirents: seq<Option<TsDir>>, days: seq<TsDir>, filter: Span, allowed: int -> bool, keep: Record -> bool, out: seq<Record>)
    requires ArchiveOk(dir, dirents) && ScannedDays(dir, days, filter, allowed, keep, out)
    requires multiset(days) == multiset(Touched(dirents, filter)) && forall k :: 0 <= k < |days| ==> Some(days[k]) in dirents
    ensures Combiners.InOrder(dir, out)
    ensures forall rec :: rec in out <==> ArchiveHolds(dirents, filter, allowed, keep, rec) > 0
    ensures (forall rec :: multiset(out)[rec] == ArchiveHolds(dirents, filter, allowed, keep, rec)) <==>
            ArchiveRepeatsNothing(dir, filter, allowed, keep, dirents)
  {
    hide DayRepeatsNothing, DayOk, DaysHold, ArchiveHolds, Touched;
    VisitedDaysSuffice(dir, dirents, days, filter, allowed, keep);
    forall rec ensures DaysHold(days, filter, allowed, keep, rec) == ArchiveHolds(dirents, filter, allowed, keep, rec) {
      OrderOfDays(days, Touched(dirents, filter), filter, allowed, keep, rec);
      TouchedDaysSuffice(dir, dirents, filter, allowed, keep, rec);
    }
  }
}
