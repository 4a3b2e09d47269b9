/**
 * Pipelines over batches of records (proc/): how procs pass batches on, how the merge
 * of parallel branches reads them, and when a rewritten pipeline computes what the
 * original does.  The merge cannot take an empty batch: it panics.
 */
module Batches {
  import opened Bytes
  import opened Dealing
  import opened Flowgraph

  /** The records the merge passes on at a time (proc.BatchLen). */
  const BATCH_LEN: nat := 100

  datatype Ending = Finished | Panicked

  /** What pulling a proc to the end gives: batches, and then the end of the stream or a panic. */
  datatype Stream = Stream(batches: seq<seq<Row>>, end: Ending)

  // ------------------------------------------------------------ procs on batches

  /** What a stateless proc passes on for one batch; only cut passes on nothing instead of an empty batch. */
  function BatchOf(p: Proc, batch: seq<Row>): seq<seq<Row>>
    requires Stateless(p)
  {
    if p.Cut? && EachOf(p, batch) == [] then [] else [EachOf(p, batch)]
  }

  function EachBatch(p: Proc, batches: seq<seq<Row>>): seq<seq<Row>>
    requires Stateless(p)
  {
    if batches == [] then [] else BatchOf(p, batches[0]) + EachBatch(p, batches[1..])
  }

  /** Batches until `n` records have been passed on, and whether they have. */
  function HeadBatches(batches: seq<seq<Row>>, n: nat): (seq<seq<Row>>, bool) {
    if n == 0 then ([], true)
    else if batches == [] then ([], false)
    else if |batches[0]| < n then
      var more := HeadBatches(batches[1..], n - |batches[0]|);
      ([batches[0]] + more.0, more.1)
    else ([batches[0][..n]], true)
  }

  /** The record uniq holds back, and how often it has come. */
  type HeldBack = Option<(Row, nat)>

  /** What uniq passes on for one batch, and what it holds back. */
  function UniqBatch(last: HeldBack, batch: seq<Row>, cflag: bool): (seq<Row>, HeldBack)
    decreases batch
  {
    if batch == [] then ([], last)
    else if last.None? then UniqBatch(Some((batch[0], 1)), batch[1..], cflag)
    else if Raw(batch[0]) == Raw(last.value.0) then UniqBatch(Some((last.value.0, last.value.1 + 1)), batch[1..], cflag)
    else
      var more := UniqBatch(Some((batch[0], 1)), batch[1..], cflag);
      ([Wrap(last.value.0, last.value.1, cflag)] + more.0, more.1)
  }

  function UniqBatches(last: HeldBack, batches: seq<seq<Row>>, cflag: bool): (seq<seq<Row>>, HeldBack)
    decreases batches
  {
    if batches == [] then ([], last)
    else
      var one := UniqBatch(last, batches[0], cflag);
      var more := UniqBatches(one.1, batches[1..], cflag);
      ([one.0] + more.0, more.1)
  }

  function Held(last: HeldBack, cflag: bool): seq<seq<Row>> {
    if last.None? then [] else [[Wrap(last.value.0, last.value.1, cflag)]]
  }

  /** A whole stream in one batch. */
  function OneBatch(rows: seq<Row>): Stream {
    Stream(if rows == [] then [] else [rows], Finished)
  }

  /**
   * A proc over a stream.  Head stops pulling once it has enough; tail, fuse and nested
   * pipelines pull to the end before they pass anything on.
   */
  function ApplyStream(p: Proc, s: Stream): Stream {
    match p
    case Head(count) =>
      var (batches, enough) := HeadBatches(s.batches, Limit(count));
      Stream(batches, if enough then Finished else s.end)
    case Uniq(cflag) =>
      var (batches, last) := UniqBatches(None, s.batches, cflag);
      Stream(if s.end.Finished? then batches + Held(last, cflag) else batches, s.end)
    case Tail(_) => if s.end.Panicked? then Stream([], Panicked) else OneBatch(Apply(p, Flatten(s.batches)))
    case Fuse(_) => if s.end.Panicked? then Stream([], Panicked) else OneBatch(Apply(p, Flatten(s.batches)))
    case Nested(_) => if s.end.Panicked? then Stream([], Panicked) else OneBatch(Apply(p, Flatten(s.batches)))
    case _ => Stream(EachBatch(p, s.batches), s.end)
  }

  function RunStream(procs: seq<Proc>, s: Stream): Stream {
    if procs == [] then s else RunStream(procs[1..], ApplyStream(procs[0], s))
  }

  // ----------------------------------------- batches make no difference to rows

  /** The stream delivers these records, or panics after some of them. */
  ghost predicate Delivers(s: Stream, rows: seq<Row>) {
    if s.end.Finished? then Flatten(s.batches) == rows else Flatten(s.batches) <= rows
  }

  lemma EachFirst(p: Proc, rows: seq<Row>)
    requires Stateless(p) && rows != []
    ensures EachOf(p, rows) == EachOf(p, [rows[0]]) + EachOf(p, rows[1..])
  {
    hide Each;
    assert [rows[0]][1..] == [];
  }

  lemma EachOfNone(p: Proc)
    requires Stateless(p)
    ensures EachOf(p, []) == []
  {
  }

  lemma {:induction false} EachOfAppend(p: Proc, a: seq<Row>, b: seq<Row>)
    requires Stateless(p)
    ensures EachOf(p, a + b) == EachOf(p, a) + EachOf(p, b)
  {
    hide EachOf, Stateless;
    if a == [] {
      EachOfNone(p);
      assert a + b == b && [] + EachOf(p, b) == EachOf(p, b);
    } else {
      var whole := a + b;
      EachOfAppend(p, a[1..], b);
      assert whole[0] == a[0] && whole[1..] == a[1..] + b;
      EachFirst(p, a);
      EachFirst(p, whole);
      ConcatAssociative(EachOf(p, [a[0]]), EachOf(p, a[1..]), EachOf(p, b));
    }
  }

  lemma {:induction false} EachBatchRows(p: Proc, batches: seq<seq<Row>>)
    requires Stateless(p)
    ensures Flatten(EachBatch(p, batches)) == EachOf(p, Flatten(batches))
  {
    if batches != [] {
      hide EachOf;
      EachBatchRows(p, batches[1..]);
      EachOfAppend(p, batches[0], Flatten(batches[1..]));
      FlattenAppend(BatchOf(p, batches[0]), EachBatch(p, batches[1..]));
      assert Flatten(BatchOf(p, batches[0])) == EachOf(p, batches[0]);
    } else {
      assert EachOf(p, []) == [];
    }
  }

  lemma {:induction false} HeadRows(batches: seq<seq<Row>>, n: nat)
    ensures Flatten(HeadBatches(batches, n).0) == First(Flatten(batches), n)
    ensures HeadBatches(batches, n).1 <==> |Flatten(batches)| >= n
  {
    if batches != [] && n > 0 {
      var b, rest := batches[0], Flatten(batches[1..]);
      if |b| < n {
        HeadRows(batches[1..], n - |b|);
        assert First(b + rest, n) == b + First(rest, n - |b|);
      } else {
        assert Flatten([b[..n]]) == b[..n] + Flatten([]);
        assert First(b + rest, n) == b[..n];
      }
    }
  }

  /** Uniq over batches is uniq over their records. */
  lemma {:induction false} UniqBatchRows(last: HeldBack, a: seq<Row>, b: seq<Row>, cflag: bool)
    ensures UniqBatch(last, a + b, cflag) ==
            (var x := UniqBatch(last, a, cflag); var y := UniqBatch(x.1, b, cflag); (x.0 + y.0, y.1))
    decreases a
  {
    if a == [] {
      assert a + b == b && [] + UniqBatch(last, b, cflag).0 == UniqBatch(last, b, cflag).0;
    } else {
      assert (a + b)[1..] == a[1..] + b;
      if last.None? {
        UniqBatchRows(Some((a[0], 1)), a[1..], b, cflag);
      } else if Raw(a[0]) == Raw(last.value.0) {
        UniqBatchRows(Some((last.value.0, last.value.1 + 1)), a[1..], b, cflag);
      } else {
        UniqBatchRows(Some((a[0], 1)), a[1..], b, cflag);
        var x := UniqBatch(Some((a[0], 1)), a[1..], cflag);
        ConcatAssociative([Wrap(last.value.0, last.value.1, cflag)], x.0, UniqBatch(x.1, b, cflag).0);
      }
    }
  }

  lemma {:induction false} UniqBatchesRows(last: HeldBack, batches: seq<seq<Row>>, cflag: bool)
    ensures var (out, held) := UniqBatches(last, batches, cflag);
            (Flatten(out), held) == UniqBatch(last, Flatten(batches), cflag)
    decreases batches
  {
    if batches != [] {
      var one := UniqBatch(last, batches[0], cflag);
      UniqBatchesRows(one.1, batches[1..], cflag);
      UniqBatchRows(last, batches[0], Flatten(batches[1..]), cflag);
    }
  }

  /** With what is held back, uniq gives one record for each run of equal ones. */
  lemma {:induction false} UniqIsUniq(row: Row, count: nat, rows: seq<Row>, cflag: bool)
    ensures var (out, held) := UniqBatch(Some((row, count)), rows, cflag);
            out + Flatten(Held(held, cflag)) == UniqFrom(row, count, rows, cflag)
    decreases rows
  {
    if rows == [] {
      assert Flatten([[Wrap(row, count, cflag)]]) == [Wrap(row, count, cflag)] + Flatten([]);
    } else if Raw(rows[0]) == Raw(row) {
      UniqIsUniq(row, count + 1, rows[1..], cflag);
    } else {
      UniqIsUniq(rows[0], 1, rows[1..], cflag);
    }
  }

  lemma UniqStream(batches: seq<seq<Row>>, cflag: bool, rows: seq<Row>)
    ensures var (out, held) := UniqBatches(None, batches, cflag);
            && (Flatten(batches) == rows ==> Flatten(out + Held(held, cflag)) == UniqRows(rows, cflag))
            && (Flatten(batches) <= rows ==> Flatten(out) <= UniqRows(rows, cflag))
  {
    var (out, held) := UniqBatches(None, batches, cflag);
    UniqBatchesRows(None, batches, cflag);
    FlattenAppend(out, Held(held, cflag));
    if Flatten(batches) <= rows {
      var seen := Flatten(batches);
      UniqBatchRows(None, seen, rows[|seen|..], cflag);
      assert rows == seen + rows[|seen|..];
      UniqWhole(rows, cflag);
    }
  }

  lemma UniqWhole(rows: seq<Row>, cflag: bool)
    ensures var (out, held) := UniqBatch(None, rows, cflag);
            out + Flatten(Held(held, cflag)) == UniqRows(rows, cflag)
  {
    if rows != [] {
      UniqIsUniq(rows[0], 1, rows[1..], cflag);
    }
  }

  lemma FirstOfPrefix(a: seq<Row>, rows: seq<Row>, n: nat)
    requires a <= rows
    ensures if |a| >= n then First(a, n) == First(rows, n) else First(a, n) <= First(rows, n)
  {
  }

  /** A proc over a stream delivers what it computes from the stream's records. */
  lemma ProcDelivers(p: Proc, s: Stream, rows: seq<Row>)
    requires Delivers(s, rows)
    ensures Delivers(ApplyStream(p, s), Apply(p, rows))
  {
    hide EachOf, EachBatch, UniqBatches, UniqRows, HeadBatches, FuseRows, Schema, TypesInOrder, First, Last;
    var seen := Flatten(s.batches);
    match p
    case Head(count) =>
      HeadRows(s.batches, Limit(count));
      FirstOfPrefix(seen, rows, Limit(count));
    case Uniq(cflag) => UniqStream(s.batches, cflag, rows);
    case Tail(_) => OneBatchRows(Apply(p, seen));
    case Fuse(_) => OneBatchRows(Apply(p, seen));
    case Nested(_) => OneBatchRows(Apply(p, seen));
    case _ =>
      EachBatchRows(p, s.batches);
      EachOfAppend(p, seen, rows[|seen|..]);
      assert rows == seen + rows[|seen|..];
  }

  lemma OneBatchRows(rows: seq<Row>)
    ensures Flatten(OneBatch(rows).batches) == rows
  {
    assert Flatten([rows]) == rows + Flatten([]);
  }

  lemma {:induction false} RunDelivers(procs: seq<Proc>, s: Stream, rows: seq<Row>)
    requires Delivers(s, rows)
    ensures Delivers(RunStream(procs, s), Run(procs, rows))
    decreases |procs|
  {
    if procs != [] {
      hide ApplyStream, Apply, Delivers;
      ProcDelivers(procs[0], s, rows);
      RunDelivers(procs[1..], ApplyStream(procs[0], s), Apply(procs[0], rows));
    }
  }

  /** A stream that ends well still does after any procs. */
  lemma {:induction false} RunFinishes(procs: seq<Proc>, s: Stream)
    requires s.end.Finished?
    ensures RunStream(procs, s).end.Finished?
    decreases |procs|
  {
    if procs != [] {
      RunFinishes(procs[1..], ApplyStream(procs[0], s));
    }
  }

  /** The procs pull more than these batches. */
  predicate Asks(procs: seq<Proc>, batches: seq<seq<Row>>)
    decreases |procs|
  {
    if procs == [] then true
    else
      match procs[0]
      case Head(count) => |Flatten(batches)| < Limit(count) && Asks(procs[1..], batches)
      case Uniq(cflag) => Asks(procs[1..], UniqBatches(None, batches, cflag).0)
      case Tail(_) => true
      case Fuse(_) => true
      case Nested(_) => true
      case _ => Asks(procs[1..], EachBatch(procs[0], batches))
  }

  /** A panic behind some batches comes out exactly when the procs pull more than these. */
  lemma {:induction false} PanicsExactly(procs: seq<Proc>, batches: seq<seq<Row>>)
    ensures RunStream(procs, Stream(batches, Panicked)).end.Panicked? <==> Asks(procs, batches)
    decreases |procs|
  {
    if procs != [] {
      var p := procs[0];
      var s := ApplyStream(p, Stream(batches, Panicked));
      match p
      case Head(count) =>
        HeadRows(batches, Limit(count));
        if s.end.Finished? {
          RunFinishes(procs[1..], s);
        } else {
          UnfilledHead(batches, Limit(count));
          PanicsExactly(procs[1..], batches);
        }
      case Uniq(cflag) => PanicsExactly(procs[1..], UniqBatches(None, batches, cflag).0);
      case Tail(_) => NothingYetPulled(procs[1..]);
      case Fuse(_) => NothingYetPulled(procs[1..]);
      case Nested(_) => NothingYetPulled(procs[1..]);
      case _ => PanicsExactly(procs[1..], EachBatch(p, batches));
    }
  }

  lemma {:induction false} UnfilledHead(batches: seq<seq<Row>>, n: nat)
    requires |Flatten(batches)| < n
    ensures HeadBatches(batches, n).0 == batches
  {
    if batches != [] {
      UnfilledHead(batches[1..], n - |batches[0]|);
      assert batches == [batches[0]] + batches[1..];
    }
  }

  lemma {:induction false} NothingYetPulled(procs: seq<Proc>)
    ensures RunStream(procs, Stream([], Panicked)).end.Panicked?
    decreases |procs|
  {
    if procs != [] {
      assert ApplyStream(procs[0], Stream([], Panicked)) == Stream([], Panicked);
      NothingYetPulled(procs[1..]);
    }
  }

  /** Without a head every proc pulls to the end. */
  lemma {:induction false} NoHeadAsks(procs: seq<Proc>, batches: seq<seq<Row>>)
    requires forall i :: 0 <= i < |procs| ==> !procs[i].Head?
    ensures Asks(procs, batches)
    decreases |procs|
  {
    if procs != [] {
      var p := procs[0];
      if p.Uniq? {
        NoHeadAsks(procs[1..], UniqBatches(None, batches, p.cflag).0);
      } else if Stateless(p) {
        NoHeadAsks(procs[1..], EachBatch(p, batches));
      }
    }
  }

  // ------------------------------------------------------------ the ordered merge

  /** The batches each parent has still to deliver, the one being read first. */
  type Parents = seq<seq<seq<Row>>>

  function Fronts(parents: Parents): (r: seq<seq<Row>>)
    ensures |r| == |parents|
  {
    seq(|parents|, k requires 0 <= k < |parents| => if parents[k] == [] then [] else parents[k][0])
  }

  /** The records of each parent. */
  function Flats(parents: Parents): (r: seq<seq<Row>>)
    ensures |r| == |parents| && forall k :: 0 <= k < |parents| ==> r[k] == Flatten(parents[k])
  {
    seq(|parents|, k requires 0 <= k < |parents| => Flatten(parents[k]))
  }

  /** A parent hands over an empty batch next. */
  predicate MeetsEmpty(parents: Parents) {
    exists k :: 0 <= k < |parents| && parents[k] != [] && parents[k][0] == []
  }

  /** The parents after the first record of parent `b` has been read; a batch read to its end is dropped. */
  function Taken(parents: Parents, b: nat): Parents
    requires b < |parents| && parents[b] != [] && parents[b][0] != []
  {
    var batch, rest := parents[b][0], parents[b][1..];
    parents[b := if |batch| == 1 then rest else [batch[1..]] + rest]
  }

  /** Reading the first record of some batches. */
  lemma FirstOfBatches(batches: seq<seq<Row>>)
    requires batches != [] && batches[0] != []
    ensures var batch, rest := batches[0], batches[1..];
            var after := if |batch| == 1 then rest else [batch[1..]] + rest;
            Flatten(batches) == [batch[0]] + Flatten(after)
  {
    var batch, rest := batches[0], batches[1..];
    assert batch == [batch[0]] + batch[1..];
    ConcatAssociative([batch[0]], batch[1..], Flatten(rest));
    if |batch| == 1 {
      assert [batch[0]] + Flatten(rest) == batch + Flatten(rest);
    } else {
      assert ([batch[1..]] + rest)[1..] == rest;
    }
  }

  lemma TakenRows(parents: Parents, b: nat)
    requires b < |parents| && parents[b] != [] && parents[b][0] != []
    ensures Flats(parents)[b] != [] && Flats(parents)[b][0] == parents[b][0][0]
    ensures Flats(Taken(parents, b)) == Popped(Flats(parents), b)
  {
    hide Flatten;
    FirstOfBatches(parents[b]);
    var after := Taken(parents, b);
    assert Flatten(parents[b])[1..] == Flatten(after[b]);
    forall k | 0 <= k < |parents| ensures Flats(after)[k] == Popped(Flats(parents), b)[k] {}
  }

  /**
   * What reading the merge to its end gives: the records in order, up to the read that
   * comes to an empty batch, which indexes into it.
   */
  function MergeRows(field: string, reverse: bool, parents: Parents): (seq<Row>, Ending)
    decreases Total(Flats(parents))
  {
    var b := NextParent(field, reverse, Fronts(parents), |parents|);
    if MeetsEmpty(parents) then ([], Panicked)
    else if b == -1 then ([], Finished)
    else
      TakenRows(parents, b);
      TotalDrops(Flats(parents), b);
      var more := MergeRows(field, reverse, Taken(parents, b));
      ([parents[b][0][0]] + more.0, more.1)
  }

  /** The merge in batches; one that cannot be filled because of a panic is lost. */
  function Chunks(rows: seq<Row>, end: Ending): Stream {
    if |rows| >= BATCH_LEN then
      var more := Chunks(rows[BATCH_LEN..], end);
      Stream([rows[..BATCH_LEN]] + more.batches, more.end)
    else if end.Panicked? then Stream([], Panicked)
    else OneBatch(rows)
  }

  lemma {:induction false} ChunksDeliver(rows: seq<Row>, end: Ending)
    ensures Chunks(rows, end).end == end
    ensures if end.Finished? then Flatten(Chunks(rows, end).batches) == rows else Flatten(Chunks(rows, end).batches) <= rows
  {
    if |rows| >= BATCH_LEN {
      ChunksDeliver(rows[BATCH_LEN..], end);
      assert rows == rows[..BATCH_LEN] + rows[BATCH_LEN..];
      var more := Chunks(rows[BATCH_LEN..], end).batches;
      assert ([rows[..BATCH_LEN]] + more)[1..] == more;
    } else {
      OneBatchRows(rows);
    }
  }

  /** All batches of the merge but the last have a hundred records, and none is empty. */
  lemma {:induction false} ChunkSizes(rows: seq<Row>, end: Ending)
    ensures var batches := Chunks(rows, end).batches;
            (forall k :: 0 <= k < |batches| ==> 0 < |batches[k]| <= 100)
            && (forall k :: 0 <= k < |batches| && |batches[k]| < 100 ==> k == |batches| - 1 && end.Finished?)
            && (end.Panicked? ==> |batches| == |rows| / 100)
  {
    if |rows| >= BATCH_LEN {
      ChunkSizes(rows[BATCH_LEN..], end);
      var more := Chunks(rows[BATCH_LEN..], end).batches;
      var batches := [rows[..BATCH_LEN]] + more;
      assert forall k :: 0 < k < |batches| ==> batches[k] == more[k - 1];
    }
  }

  /** Choosing by the batches being read is choosing by all the records left. */
  lemma FrontsDecide(field: string, reverse: bool, parents: Parents)
    requires !MeetsEmpty(parents)
    ensures NextParent(field, reverse, Fronts(parents), |parents|) == NextParent(field, reverse, Flats(parents), |parents|)
  {
    forall k | 0 <= k < |parents| ensures Fronts(parents)[k] <= Flats(parents)[k]
                                          && (Fronts(parents)[k] == Flats(parents)[k] || |Fronts(parents)[k]| >= 1)
    {
      if parents[k] != [] {
        assert Flatten(parents[k]) == parents[k][0] + Flatten(parents[k][1..]);
      }
    }
    SameNext(field, reverse, Flats(parents), Fronts(parents), 1, |parents|);
  }

  ghost predicate HasEmpty(parents: Parents) {
    exists k, j :: 0 <= k < |parents| && 0 <= j < |parents[k]| && parents[k][j] == []
  }

  /** Up to its end or its panic the merge gives the records of the parents, merged row by row. */
  lemma {:induction false} MergeDelivers(field: string, reverse: bool, parents: Parents)
    ensures var (rows, end) := MergeRows(field, reverse, parents);
            if end.Finished? then rows == OrderedMerge(field, reverse, Flats(parents)) else rows <= OrderedMerge(field, reverse, Flats(parents))
    decreases Total(Flats(parents))
  {
    if !MeetsEmpty(parents) {
      hide NextParent, Fronts, Taken, Total;
      FrontsDecide(field, reverse, parents);
      MergeNext(field, reverse, Flats(parents));
      var b := NextParent(field, reverse, Fronts(parents), |parents|);
      if b != -1 {
        NextIsThere(field, reverse, parents);
        TakenRows(parents, b);
        TotalDrops(Flats(parents), b);
        MergeDelivers(field, reverse, Taken(parents, b));
      }
    }
  }

  lemma NextIsThere(field: string, reverse: bool, parents: Parents)
    ensures var b := NextParent(field, reverse, Fronts(parents), |parents|);
            b != -1 ==> 0 <= b < |parents| && parents[b] != [] && parents[b][0] != []
  {
  }

  /** Read to its end, the merge panics exactly when some parent hands over an empty batch. */
  lemma {:induction false} MergePanicsExactly(field: string, reverse: bool, parents: Parents)
    ensures MergeRows(field, reverse, parents).1.Panicked? <==> HasEmpty(parents)
    decreases Total(Flats(parents))
  {
    hide NextParent, Fronts, Total;
    if MeetsEmpty(parents) {
      var k :| 0 <= k < |parents| && parents[k] != [] && parents[k][0] == [];
      assert parents[k][0] == [];
    } else {
      var b := NextParent(field, reverse, Fronts(parents), |parents|);
      if b == -1 {
        NothingLeft(field, reverse, parents);
      } else {
        NextIsThere(field, reverse, parents);
        TakenRows(parents, b);
        TotalDrops(Flats(parents), b);
        MergePanicsExactly(field, reverse, Taken(parents, b));
        TakenHasEmpty(parents, b);
      }
    }
  }

  lemma NothingLeft(field: string, reverse: bool, parents: Parents)
    requires !MeetsEmpty(parents) && NextParent(field, reverse, Fronts(parents), |parents|) == -1
    ensures !HasEmpty(parents)
  {
    NoneNext(field, reverse, Fronts(parents), |parents|);
    forall k | 0 <= k < |parents| ensures parents[k] == [] {
      assert Fronts(parents)[k] == [];
    }
  }

  lemma {:induction false} NoneNext(field: string, reverse: bool, parts: seq<seq<Row>>, n: nat)
    requires n <= |parts| && NextParent(field, reverse, parts, n) == -1
    ensures forall k :: 0 <= k < n ==> parts[k] == []
  {
    if n > 0 {
      NoneNext(field, reverse, parts, n - 1);
    }
  }

  lemma TakenHasEmpty(parents: Parents, b: nat)
    requires b < |parents| && parents[b] != [] && parents[b][0] != []
    ensures HasEmpty(Taken(parents, b)) <==> HasEmpty(parents)
  {
    var after := Taken(parents, b);
    var shift := if |parents[b][0]| == 1 then 1 else 0;
    if k, j :| 0 <= k < |parents| && 0 <= j < |parents[k]| && parents[k][j] == [] {
      assert after[k][if k == b then j - shift else j] == [];
    }
    if k, j :| 0 <= k < |after| && 0 <= j < |after[k]| && after[k][j] == [] {
      assert parents[k][if k == b then j + shift else j] == [];
    }
  }

  // ------------------------------------------------------- empty batches at the source

  ghost predicate EmptyAmong(batches: seq<seq<Row>>) {
    exists j :: 0 <= j < |batches| && batches[j] == []
  }

  /** What stateless procs pass on for one batch. */
  function HandedOn(procs: seq<Proc>, batch: seq<Row>): seq<seq<Row>>
    requires forall i :: 0 <= i < |procs| ==> Stateless(procs[i])
    decreases |procs|
  {
    if procs == [] then [batch]
    else if BatchOf(procs[0], batch) == [] then []
    else HandedOn(procs[1..], EachOf(procs[0], batch))
  }

  /** No cut among the procs from `j` on. */
  predicate NoCutFrom(procs: seq<Proc>, j: nat) {
    forall m :: j <= m < |procs| ==> !procs[m].Cut?
  }

  /** Proc `j`, a filter, is the one that drops the last records of the batch. */
  ghost predicate EmptiedAt(procs: seq<Proc>, batch: seq<Row>, j: nat)
    requires j < |procs|
  {
    procs[j].Filter? && Run(procs[..j], batch) != [] && Run(procs[..j + 1], batch) == []
  }

  /** A filter empties the batch, or it is empty already, and no cut comes after. */
  ghost predicate HandsEmpty(procs: seq<Proc>, batch: seq<Row>) {
    || (batch == [] && NoCutFrom(procs, 0))
    || exists j: nat :: j < |procs| && EmptiedAt(procs, batch, j) && NoCutFrom(procs, j + 1)
  }

  lemma {:induction false} HandedOnRows(procs: seq<Proc>, batch: seq<Row>)
    requires AllStateless(procs)
    ensures Flatten(HandedOn(procs, batch)) == Run(procs, batch)
    ensures HandedOn(procs, batch) == [] ==> Run(procs, batch) == []
    ensures HandedOn(procs, batch) != [] ==> HandedOn(procs, batch) == [Run(procs, batch)]
    decreases |procs|
  {
    if procs == [] {
      assert Flatten([batch]) == batch + Flatten([]);
    } else if BatchOf(procs[0], batch) == [] {
      NothingRuns(procs[1..]);
    } else {
      HandedOnRows(procs[1..], EachOf(procs[0], batch));
    }
  }

  lemma {:induction false} NothingRuns(procs: seq<Proc>)
    requires AllStateless(procs)
    ensures Run(procs, []) == []
    decreases |procs|
  {
    if procs != [] {
      NothingRuns(procs[1..]);
    }
  }

  /**
   * A batch is handed on empty exactly when a filter empties it and no cut comes after:
   * other procs drop no record, and cut drops a batch it has emptied.
   */
  lemma {:induction false} EmptiedExactly(procs: seq<Proc>, batch: seq<Row>)
    requires AllStateless(procs)
    ensures HandedOn(procs, batch) == [[]] <==> HandsEmpty(procs, batch)
    decreases |procs|
  {
    if batch == [] {
      EmptyGoesOn(procs);
      NothingToEmpty(procs);
    } else if procs != [] {
      hide HandsEmpty, HandedOn;
      var out, rest := EachOf(procs[0], batch), procs[1..];
      HandedOnNext(procs, batch);
      EmptiedExactly(rest, out);
      if out == [] {
        EmptyGoesOn(rest);
        EmptiedFirst(procs, batch);
        OnlyFilterEmpties(procs[0], batch);
      } else {
        EmptiedLater(procs, batch);
      }
    }
  }

  /** An empty batch goes on through any procs but a cut. */
  lemma {:induction false} EmptyGoesOn(procs: seq<Proc>)
    requires AllStateless(procs)
    ensures HandedOn(procs, []) == [[]] <==> NoCutFrom(procs, 0)
    decreases |procs|
  {
    if procs != [] {
      EmptyGoesOn(procs[1..]);
      NoCutNext(procs, 0);
    }
  }

  lemma NoCutNext(procs: seq<Proc>, j: nat)
    requires procs != []
    ensures NoCutFrom(procs, j + 1) <==> NoCutFrom(procs[1..], j)
    ensures NoCutFrom(procs, 0) <==> !procs[0].Cut? && NoCutFrom(procs[1..], 0)
  {
    assert forall m :: 0 < m < |procs| ==> procs[m] == procs[1..][m - 1];
    assert forall m :: 0 <= m < |procs[1..]| ==> procs[1..][m] == procs[m + 1];
  }

  lemma NothingToEmpty(procs: seq<Proc>)
    requires AllStateless(procs)
    ensures forall j: nat :: j < |procs| ==> !EmptiedAt(procs, [], j)
  {
    forall j: nat | j < |procs| ensures !EmptiedAt(procs, [], j) {
      NothingRuns(procs[..j]);
    }
  }

  lemma RunOfPrefix(procs: seq<Proc>, batch: seq<Row>, j: nat)
    requires 0 < j <= |procs| && Stateless(procs[0])
    ensures Run(procs[..j], batch) == Run(procs[1..][..j - 1], EachOf(procs[0], batch))
  {
    assert procs[..j][1..] == procs[1..][..j - 1];
  }

  /** The first proc empties the batch. */
  lemma EmptiedFirst(procs: seq<Proc>, batch: seq<Row>)
    requires AllStateless(procs) && procs != [] && batch != [] && EachOf(procs[0], batch) == []
    ensures HandsEmpty(procs, batch) <==> procs[0].Filter? && NoCutFrom(procs[1..], 0)
  {
    forall j: nat | j < |procs| ensures EmptiedAt(procs, batch, j) <==> j == 0 && procs[0].Filter? {
      RunOfPrefix(procs, batch, j + 1);
      NothingRuns(procs[1..][..j]);
      if j > 0 {
        RunOfPrefix(procs, batch, j);
        NothingRuns(procs[1..][..j - 1]);
      }
    }
    NoCutNext(procs, 0);
    hide EmptiedAt;
    if procs[0].Filter? {
      assert EmptiedAt(procs, batch, 0);
    }
  }

  lemma HandedOnNext(procs: seq<Proc>, batch: seq<Row>)
    requires AllStateless(procs) && procs != []
    ensures HandedOn(procs, batch) ==
            if procs[0].Cut? && EachOf(procs[0], batch) == [] then [] else HandedOn(procs[1..], EachOf(procs[0], batch))
  {
  }

  /** A later one does. */
  lemma EmptiedLater(procs: seq<Proc>, batch: seq<Row>)
    requires AllStateless(procs) && procs != [] && batch != [] && EachOf(procs[0], batch) != []
    ensures HandsEmpty(procs, batch) <==> HandsEmpty(procs[1..], EachOf(procs[0], batch))
  {
    var rest, out := procs[1..], EachOf(procs[0], batch);
    forall j: nat | j < |procs| ensures EmptiedAt(procs, batch, j) <==> j > 0 && EmptiedAt(rest, out, j - 1) {
      RunOfPrefix(procs, batch, j + 1);
      assert rest[..0] == [] && Run(rest[..0], out) == out;
      if j > 0 {
        RunOfPrefix(procs, batch, j);
      }
    }
    hide EmptiedAt, NoCutFrom;
    if j: nat :| j < |procs| && EmptiedAt(procs, batch, j) && NoCutFrom(procs, j + 1) {
      NoCutNext(procs, j);
      assert EmptiedAt(rest, out, j - 1);
    }
    if j: nat :| j < |rest| && EmptiedAt(rest, out, j) && NoCutFrom(rest, j + 1) {
      NoCutNext(procs, j + 1);
      assert EmptiedAt(procs, batch, j + 1);
    }
  }

  lemma OnlyFilterEmpties(p: Proc, batch: seq<Row>)
    requires Stateless(p) && batch != [] && EachOf(p, batch) == []
    ensures p.Filter? || p.Cut?
  {
    assert Each(p, batch[0]).None?;
  }

  /** What stateless procs pass on, batch by batch. */
  function AllHandedOn(procs: seq<Proc>, batches: seq<seq<Row>>): seq<seq<Row>>
    requires forall i :: 0 <= i < |procs| ==> Stateless(procs[i])
    decreases |batches|
  {
    if batches == [] then [] else HandedOn(procs, batches[0]) + AllHandedOn(procs, batches[1..])
  }

  lemma AllHandedOnNext(procs: seq<Proc>, batches: seq<seq<Row>>)
    requires AllStateless(procs) && batches != []
    ensures AllHandedOn(procs, batches) == HandedOn(procs, batches[0]) + AllHandedOn(procs, batches[1..])
  {
    hide HandedOn;
  }

  lemma NothingHandedOn(procs: seq<Proc>)
    requires AllStateless(procs)
    ensures AllHandedOn(procs, []) == []
  {
  }

  lemma {:induction false} AllHandedOnAppend(procs: seq<Proc>, a: seq<seq<Row>>, b: seq<seq<Row>>)
    requires AllStateless(procs)
    ensures AllHandedOn(procs, a + b) == AllHandedOn(procs, a) + AllHandedOn(procs, b)
  {
    hide HandedOn, AllHandedOn, Stateless;
    if a == [] {
      NothingHandedOn(procs);
      assert a + b == b && [] + AllHandedOn(procs, b) == AllHandedOn(procs, b);
    } else {
      AllHandedOnAppend(procs, a[1..], b);
      assert (a + b)[1..] == a[1..] + b;
      AllHandedOnNext(procs, a);
      AllHandedOnNext(procs, a + b);
      ConcatAssociative(HandedOn(procs, a[0]), AllHandedOn(procs, a[1..]), AllHandedOn(procs, b));
    }
  }

  lemma EachBatchNext(p: Proc, batches: seq<seq<Row>>)
    requires Stateless(p) && batches != []
    ensures EachBatch(p, batches) == BatchOf(p, batches[0]) + EachBatch(p, batches[1..])
    ensures EachBatch(p, []) == []
  {
    hide EachOf;
  }

  /** What goes through the first proc goes through the others. */
  lemma FirstHandsOn(procs: seq<Proc>, batch: seq<Row>)
    requires AllStateless(procs) && procs != []
    ensures AllHandedOn(procs[1..], BatchOf(procs[0], batch)) == HandedOn(procs, batch)
  {
    hide EachOf, HandedOn, AllHandedOn;
    HandedOnNext(procs, batch);
    var one := BatchOf(procs[0], batch);
    NothingHandedOn(procs[1..]);
    if one != [] {
      AllHandedOnNext(procs[1..], one);
      assert one[1..] == [];
    }
  }

  lemma {:induction false} FirstProcHandsOn(procs: seq<Proc>, batches: seq<seq<Row>>)
    requires AllStateless(procs) && procs != []
    ensures AllHandedOn(procs, batches) == AllHandedOn(procs[1..], EachBatch(procs[0], batches))
    decreases |batches|
  {
    hide EachOf, HandedOn, AllHandedOn, BatchOf;
    if batches == [] {
      NothingHandedOn(procs);
      NothingHandedOn(procs[1..]);
    } else {
      FirstProcHandsOn(procs, batches[1..]);
      AllHandedOnNext(procs, batches);
      FirstHandsOn(procs, batches[0]);
      AllHandedOnAppend(procs[1..], BatchOf(procs[0], batches[0]), EachBatch(procs[0], batches[1..]));
      EachBatchNext(procs[0], batches);
    }
  }

  lemma {:induction false} NoProcHandsOn(batches: seq<seq<Row>>)
    ensures AllHandedOn([], batches) == batches
  {
    if batches != [] {
      NoProcHandsOn(batches[1..]);
    }
  }

  lemma {:induction false} StatelessStream(procs: seq<Proc>, s: Stream)
    requires AllStateless(procs)
    ensures RunStream(procs, s) == Stream(AllHandedOn(procs, s.batches), s.end)
    decreases |procs|
  {
    if procs == [] {
      NoProcHandsOn(s.batches);
    } else {
      hide HandedOn, EachBatch;
      StatelessStream(procs[1..], ApplyStream(procs[0], s));
      FirstProcHandsOn(procs, s.batches);
    }
  }

  lemma {:induction false} RunStreamAppend(a: seq<Proc>, b: seq<Proc>, s: Stream)
    ensures RunStream(a + b, s) == RunStream(b, RunStream(a, s))
    decreases |a|
  {
    if a == [] {
      assert a + b == b;
    } else {
      hide ApplyStream;
      assert (a + b)[1..] == a[1..] + b;
      RunStreamAppend(a[1..], b, ApplyStream(a[0], s));
    }
  }

  lemma {:induction false} StatelessConcat(procs: seq<Proc>, a: seq<Row>, b: seq<Row>)
    requires AllStateless(procs)
    ensures Run(procs, a + b) == Run(procs, a) + Run(procs, b)
    decreases |procs|
  {
    if procs != [] {
      hide EachOf;
      EachOfAppend(procs[0], a, b);
      StatelessConcat(procs[1..], EachOf(procs[0], a), EachOf(procs[0], b));
    }
  }

  /** Batch `j` is handed on empty while the head behind the procs, if any, still wants records. */
  ghost predicate EmptyBefore(procs: seq<Proc>, batches: seq<seq<Row>>, j: nat, limit: Option<nat>)
    requires AllStateless(procs)
  {
    && j < |batches| && HandsEmpty(procs, batches[j])
    && (limit.Some? ==> |Run(procs, Flatten(batches[..j]))| < limit.value)
  }

  ghost predicate SomeEmptyBefore(procs: seq<Proc>, batches: seq<seq<Row>>, limit: Option<nat>)
    requires AllStateless(procs)
  {
    exists j: nat :: EmptyBefore(procs, batches, j, limit)
  }

  lemma {:induction false} EmptyAmongHandedOn(procs: seq<Proc>, batches: seq<seq<Row>>)
    requires AllStateless(procs)
    ensures EmptyAmong(AllHandedOn(procs, batches)) <==> SomeEmptyBefore(procs, batches, None)
    decreases |batches|
  {
    hide HandedOn, AllHandedOn, HandsEmpty, Run, Flatten, Stateless;
    if batches == [] {
      NothingHandedOn(procs);
    } else {
      var first, rest := HandedOn(procs, batches[0]), AllHandedOn(procs, batches[1..]);
      AllHandedOnNext(procs, batches);
      HandedOnRows(procs, batches[0]);
      EmptiedExactly(procs, batches[0]);
      EmptyAmongHandedOn(procs, batches[1..]);
      EmptyAmongConcat(first, rest);
      SomeEmptyNext(procs, batches);
      hide EmptyAmong, SomeEmptyBefore;
    }
  }

  lemma SomeEmptyNext(procs: seq<Proc>, batches: seq<seq<Row>>)
    requires AllStateless(procs) && batches != []
    ensures SomeEmptyBefore(procs, batches, None) <==> HandsEmpty(procs, batches[0]) || SomeEmptyBefore(procs, batches[1..], None)
  {
    hide HandsEmpty, Run, Flatten, Stateless;
    assert HandsEmpty(procs, batches[0]) <==> EmptyBefore(procs, batches, 0, None);
    if j: nat :| EmptyBefore(procs, batches[1..], j, None) {
      assert EmptyBefore(procs, batches, j + 1, None);
    }
    if j: nat :| EmptyBefore(procs, batches, j, None) && j > 0 {
      assert EmptyBefore(procs, batches[1..], j - 1, None);
    }
  }

  lemma EmptyAmongConcat(a: seq<seq<Row>>, b: seq<seq<Row>>)
    ensures EmptyAmong(a + b) <==> EmptyAmong(a) || EmptyAmong(b)
    ensures |a| == 1 ==> (EmptyAmong(a) <==> a[0] == [])
  {
    if EmptyAmong(b) {
      var j :| 0 <= j < |b| && b[j] == [];
      assert (a + b)[|a| + j] == [];
    }
    if EmptyAmong(a) {
      var j :| 0 <= j < |a| && a[j] == [];
      assert (a + b)[j] == [];
    }
  }

  /** A head behind the procs passes on an empty batch that comes while it still wants records. */
  lemma {:induction false} EmptyAmongHead(procs: seq<Proc>, batches: seq<seq<Row>>, n: nat)
    requires AllStateless(procs)
    ensures EmptyAmong(HeadBatches(AllHandedOn(procs, batches), n).0) <==> SomeEmptyBefore(procs, batches, Some(n))
    decreases |batches|
  {
    hide HandedOn, HandsEmpty, Run, EmptyAmong, SomeEmptyBefore, HeadBatches, AllHandedOn, Flatten, Stateless;
    if batches == [] {
      NothingComes(procs, n);
    } else {
      var first, rest, out := HandedOn(procs, batches[0]), AllHandedOn(procs, batches[1..]), Run(procs, batches[0]);
      AllHandedOnNext(procs, batches);
      HandedOnRows(procs, batches[0]);
      EmptiedExactly(procs, batches[0]);
      SomeLater(procs, batches, n);
      if |out| < n {
        EmptyAmongHead(procs, batches[1..], n - |out|);
      }
      if first == [] {
        assert first + rest == rest;
        NoneWanted(rest);
      } else {
        HeadNext(out, rest, n);
      }
    }
  }

  lemma NothingComes(procs: seq<Proc>, n: nat)
    requires AllStateless(procs)
    ensures !EmptyAmong(HeadBatches(AllHandedOn(procs, []), n).0) && !SomeEmptyBefore(procs, [], Some(n))
  {
    hide HandedOn, HandsEmpty;
  }

  lemma NoneWanted(batches: seq<seq<Row>>)
    ensures !EmptyAmong(HeadBatches(batches, 0).0)
  {
  }

  lemma HeadNext(out: seq<Row>, rest: seq<seq<Row>>, n: nat)
    ensures EmptyAmong(HeadBatches([out] + rest, n).0) <==>
            n > 0 && (out == [] || (|out| < n && EmptyAmong(HeadBatches(rest, n - |out|).0)))
  {
    hide EmptyAmong;
    assert ([out] + rest)[1..] == rest;
    NoneWanted([out] + rest);
    if n > 0 {
      EmptyAmongConcat(HeadBatches([out] + rest, n).0, []);
      if |out| < n {
        EmptyAmongConcat([out], HeadBatches(rest, n - |out|).0);
      }
    }
  }

  lemma NothingWantedYet(procs: seq<Proc>, batches: seq<seq<Row>>, n: nat)
    requires AllStateless(procs) && batches != []
    ensures EmptyBefore(procs, batches, 0, Some(n)) <==> n > 0 && HandsEmpty(procs, batches[0])
  {
    NothingRuns(procs);
    assert batches[..0] == [];
  }

  lemma SomeLater(procs: seq<Proc>, batches: seq<seq<Row>>, n: nat)
    requires AllStateless(procs) && batches != []
    ensures var out := Run(procs, batches[0]);
            SomeEmptyBefore(procs, batches, Some(n)) <==>
            (n > 0 && HandsEmpty(procs, batches[0])) || (|out| < n && SomeEmptyBefore(procs, batches[1..], Some(n - |out|)))
  {
    NothingWantedYet(procs, batches, n);
    LaterIsLater(procs, batches, n);
    assert forall j: nat :: !EmptyBefore(procs, batches[1..], j, Some(0));
    hide EmptyBefore, Run, HandsEmpty, AllStateless;
    var out := Run(procs, batches[0]);
    if |out| < n {
      var left := Some(n - |out|);
      if j: nat :| EmptyBefore(procs, batches[1..], j, left) {
        assert EmptyBefore(procs, batches, j + 1, Some(n));
      }
    }
  }

  /** A later batch is reached when what comes before it has not filled the head. */
  lemma LaterIsLater(procs: seq<Proc>, batches: seq<seq<Row>>, n: nat)
    requires AllStateless(procs) && batches != []
    ensures var out := Run(procs, batches[0]);
            forall j: nat :: j > 0 ==>
              (EmptyBefore(procs, batches, j, Some(n)) <==> |out| <= n && EmptyBefore(procs, batches[1..], j - 1, Some(n - |out|)))
  {
    var out := Run(procs, batches[0]);
    forall j: nat | j > 0
      ensures EmptyBefore(procs, batches, j, Some(n)) <==> |out| <= n && EmptyBefore(procs, batches[1..], j - 1, Some(n - |out|))
    {
      if j < |batches| {
        assert batches[..j][1..] == batches[1..][..j - 1];
        StatelessConcat(procs, batches[0], Flatten(batches[1..][..j - 1]));
      }
    }
  }

  // ------------------------------------------------------------ the whole graph

  /** What running a graph gives; a branch without procs does not compile. */
  datatype Outcome = Done(rows: seq<Row>) | Panic | NotCompiled

  /** What the branches pass on when each reads its batches. */
  function Handed(branches: seq<seq<Proc>>, parts: Parents): (r: Parents)
    requires |parts| == |branches|
    ensures |r| == |parts| && forall k :: 0 <= k < |parts| ==> r[k] == RunStream(branches[k], Stream(parts[k], Finished)).batches
  {
    seq(|parts|, k requires 0 <= k < |parts| => RunStream(branches[k], Stream(parts[k], Finished)).batches)
  }

  /** What the procs behind the branches read; a single branch is not merged. */
  function MergedStream(g: Graph, parts: Parents): Stream
    requires |parts| == |g.branches| > 0
  {
    var handed := Handed(g.branches, parts);
    if |handed| == 1 then Stream(handed[0], Finished)
    else
      var (rows, end) := MergeRows(g.mergeField, g.reverse, handed);
      Chunks(rows, end)
  }

  function RunGraph(g: Graph, parts: Parents): Outcome
    requires |parts| == |g.branches| > 0
  {
    if exists k :: 0 <= k < |g.branches| && g.branches[k] == [] then NotCompiled
    else
      var out := RunStream(g.tail, MergedStream(g, parts));
      if out.end.Panicked? then Panic else Done(Flatten(out.batches))
  }

  lemma HandedRows(branch: seq<Proc>, parts: Parents)
    ensures Flats(Handed(Copies(branch, |parts|), parts)) == RunParts(branch, Flats(parts))
  {
    var branches := Copies(branch, |parts|);
    forall k | 0 <= k < |parts| ensures Flatten(Handed(branches, parts)[k]) == Run(branch, Flatten(parts[k])) {
      hide RunStream, Run;
      var s := Stream(parts[k], Finished);
      RunDelivers(branch, s, Flatten(parts[k]));
      RunFinishes(branch, s);
    }
  }

  /** What is read behind the branches is their merged records, up to a panic at an empty batch. */
  lemma MergedStreamDelivers(branch: seq<Proc>, tail: seq<Proc>, field: string, reverse: bool, parts: Parents)
    requires |parts| > 0
    ensures var g := Split(branch, tail, field, reverse, |parts|);
            && Delivers(MergedStream(g, parts), Merged(branch, field, reverse, Flats(parts)))
            && (MergedStream(g, parts).end.Panicked? <==> |parts| > 1 && HasEmpty(Handed(g.branches, parts)))
  {
    hide MergeRows, Chunks, OrderedMerge, HasEmpty, RunStream, Run;
    HandedRows(branch, parts);
    var handed := Handed(Copies(branch, |parts|), parts);
    if |parts| > 1 {
      var (rows, end) := MergeRows(field, reverse, handed);
      MergeDelivers(field, reverse, handed);
      MergePanicsExactly(field, reverse, handed);
      ChunksDeliver(rows, end);
    }
  }

  /** A graph panics exactly when the merge comes to an empty batch while the tail still asks. */
  lemma GraphExactly(branch: seq<Proc>, tail: seq<Proc>, field: string, reverse: bool, parts: Parents)
    requires |parts| > 0
    ensures var g := Split(branch, tail, field, reverse, |parts|);
            RunGraph(g, parts) ==
            if branch == [] then NotCompiled
            else if |parts| > 1 && HasEmpty(Handed(g.branches, parts)) && Asks(g.tail, MergedStream(g, parts).batches) then Panic
            else Done(Run(g.tail, Merged(branch, field, reverse, Flats(parts))))
  {
    var g := Split(branch, tail, field, reverse, |parts|);
    assert g.branches[0] == branch;
    hide MergedStream, HasEmpty, RunStream, Asks, Merged, Run, Handed, Flats;
    MergedStreamDelivers(branch, tail, field, reverse, parts);
    var s, rows := MergedStream(g, parts), Merged(branch, field, reverse, Flats(parts));
    RunDelivers(g.tail, s, rows);
    if s.end.Finished? {
      RunFinishes(g.tail, s);
    } else {
      PanicsExactly(g.tail, s.batches);
    }
  }

  /** The procs of each branch: up to where the pipeline is split, with a head or tail there. */
  function Branch(procs: seq<Proc>, field: string): seq<Proc> {
    var i := SplitPoint(procs, field);
    if i < |procs| && (procs[i].Head? || procs[i].Tail?) then procs[..i + 1] else procs[..i]
  }

  lemma PlanIsSplit(procs: seq<Proc>, n: nat, field: string, reverse: bool)
    requires Plan(procs, n, field, reverse).Some?
    ensures Plan(procs, n, field, reverse).value == Split(Branch(procs, field), procs[SplitPoint(procs, field)..], field, reverse, n)
  {
  }

  /**
   * A branch passes on an empty batch: a filter in it empties one, no cut follows in
   * the branch, and the branch does not end in a tail or in a head that has enough.
   */
  ghost predicate HandsEmptyBatch(procs: seq<Proc>, field: string, batches: seq<seq<Row>>) {
    var i := SplitPoint(procs, field);
    && !(i < |procs| && procs[i].Tail?)
    && SomeEmptyBefore(procs[..i], batches, if i < |procs| && procs[i].Head? then Some(Limit(procs[i].count)) else None)
  }

  /** ... which is what the merge sees. */
  lemma BranchHandsEmpty(procs: seq<Proc>, field: string, batches: seq<seq<Row>>)
    ensures EmptyAmong(RunStream(Branch(procs, field), Stream(batches, Finished)).batches) <==> HandsEmptyBatch(procs, field, batches)
  {
    var i, s := SplitPoint(procs, field), Stream(batches, Finished);
    var prefix := procs[..i];
    hide MustMergeBefore, HandedOn, AllHandedOn, HeadBatches, Run, SomeEmptyBefore, EmptyAmong, Flatten, Apply, OneBatch, EachBatch;
    StatelessStream(prefix, s);
    if i < |procs| && (procs[i].Head? || procs[i].Tail?) {
      assert procs[..i + 1] == prefix + [procs[i]];
      RunStreamAppend(prefix, [procs[i]], s);
      RunStreamOne(procs[i], RunStream(prefix, s));
      hide RunStream;
      if procs[i].Head? {
        EmptyAmongHead(prefix, batches, Limit(procs[i].count));
      } else {
        NoEmptyBatch(Apply(procs[i], Flatten(AllHandedOn(prefix, batches))));
      }
    } else {
      hide RunStream;
      EmptyAmongHandedOn(prefix, batches);
    }
  }

  lemma RunStreamOne(p: Proc, s: Stream)
    ensures RunStream([p], s) == ApplyStream(p, s)
  {
    hide ApplyStream;
    assert RunStream([p][1..], ApplyStream(p, s)) == ApplyStream(p, s);
  }

  lemma NoEmptyBatch(rows: seq<Row>)
    ensures !EmptyAmong(OneBatch(rows).batches)
  {
  }

  /**
   * What a parallelized pipeline does, for every pipeline whose branches do not rename
   * the sort field, any number of branches and any batches of a sorted input dealt out
   * to them: it computes what the pipeline computes on the whole input, unless nothing
   * is left for the branches, which does not compile, or some branch passes on an empty
   * batch and the procs behind the merge still ask for records then, which panics.
   */
  lemma ParallelExactly(procs: seq<Proc>, field: string, reverse: bool, rows: seq<Row>, parts: Parents)
    requires field != "" && |parts| > 0 && Plan(procs, |parts|, field, reverse).Some?
    requires Sorted(field, reverse, rows) && Dealt(rows, Flats(parts)) && KeepsName(procs, field)
    ensures var g := Plan(procs, |parts|, field, reverse).value;
            RunGraph(g, parts) ==
            if NothingToDo(procs, field) then NotCompiled
            else if |parts| > 1 && SomeHandsEmptyBatch(procs, field, parts) && Asks(g.tail, MergedStream(g, parts).batches) then Panic
            else Done(Run(procs, rows))
  {
    hide Plan, Split, RunGraph, MergedStream, Asks, Run, NothingToDo, Merged, Sorted, Dealt, KeepsName, SplitPoint, Flats;
    var branch, rest := Branch(procs, field), procs[SplitPoint(procs, field)..];
    PlanIsSplit(procs, |parts|, field, reverse);
    SplitBranch(branch, rest, field, reverse, |parts|);
    GraphExactly(branch, rest, field, reverse, parts);
    BranchesEmptyExactly(procs, |parts|, field, reverse);
    SplitMeansTheSame(procs, field, reverse, rows, Flats(parts));
    SomeEmptyHanded(procs, field, parts);
  }

  lemma SplitBranch(branch: seq<Proc>, rest: seq<Proc>, field: string, reverse: bool, n: nat)
    ensures Split(branch, rest, field, reverse, n).branches == Copies(branch, n)
  {
  }

  ghost predicate SomeHandsEmptyBatch(procs: seq<Proc>, field: string, parts: Parents) {
    exists k :: 0 <= k < |parts| && HandsEmptyBatch(procs, field, parts[k])
  }

  lemma SomeEmptyHanded(procs: seq<Proc>, field: string, parts: Parents)
    ensures HasEmpty(Handed(Copies(Branch(procs, field), |parts|), parts)) <==> SomeHandsEmptyBatch(procs, field, parts)
  {
    var handed := Handed(Copies(Branch(procs, field), |parts|), parts);
    hide RunStream, HandsEmptyBatch, Branch;
    forall k | 0 <= k < |parts| ensures EmptyAmong(handed[k]) <==> HandsEmptyBatch(procs, field, parts[k]) {
      BranchHandsEmpty(procs, field, parts[k]);
    }
    if HasEmpty(handed) {
      var k, j :| 0 <= k < |handed| && 0 <= j < |handed[k]| && handed[k][j] == [];
      assert EmptyAmong(handed[k]);
    }
    if k :| 0 <= k < |parts| && HandsEmptyBatch(procs, field, parts[k]) {
      assert EmptyAmong(handed[k]);
    }
  }

  /**
   * Without a head from the split on, a pipeline with work for its branches is computed
   * rightly if and only if no branch passes on an empty batch.
   */
  lemma RightExactly(procs: seq<Proc>, field: string, reverse: bool, rows: seq<Row>, parts: Parents)
    requires field != "" && |parts| > 1 && Plan(procs, |parts|, field, reverse).Some? && !NothingToDo(procs, field)
    requires Sorted(field, reverse, rows) && Dealt(rows, Flats(parts)) && KeepsName(procs, field)
    requires forall i :: SplitPoint(procs, field) <= i < |procs| ==> !procs[i].Head?
    ensures RunGraph(Plan(procs, |parts|, field, reverse).value, parts) == Done(Run(procs, rows)) <==> !SomeHandsEmptyBatch(procs, field, parts)
  {
    hide MergedStream, Asks, Run, NothingToDo, Sorted, Dealt, KeepsName, Flats, RunGraph, SomeHandsEmptyBatch, MustMergeBefore;
    ParallelExactly(procs, field, reverse, rows, parts);
    var g := Plan(procs, |parts|, field, reverse).value;
    NoHeadAsks(g.tail, MergedStream(g, parts).batches);
  }

  /** Two one-record batches in order of the sort field, one for each of two branches. */
  function OneEach(field: string): Parents {
    [[[Low(field, false)]], [[High(field, false)]]]
  }

  lemma OneEachIsDealt(field: string)
    ensures var rows := [Low(field, false), High(field, false)];
            Sorted(field, false, rows) && Dealt(rows, Flats(OneEach(field)))
  {
    var a, b := Low(field, false), High(field, false);
    LowIsFirst(field, false);
    OneBatchRows([a]);
    OneBatchRows([b]);
    var parts := Flats(OneEach(field));
    assert parts[0] == [a] && parts[1] == [b];
    var left := Popped(parts, 0);
    assert forall k :: 0 <= k < 2 ==> Popped(left, 1)[k] == [];
    assert [b][1..] == [] && Dealt([b][1..], Popped(left, 1));
    assert GoesTo(b, left, 1) && Dealt([b], left);
    assert GoesTo(a, parts, 0) && [a, b][1..] == [b];
  }

  /** A filter that drops the only record of a batch makes the graph panic, where the pipeline answers. */
  lemma EmptyBatchPanics(field: string, keep: Row -> bool)
    requires field != "" && !keep(Low(field, false)) && keep(High(field, false))
    ensures var procs, rows := [Pass, Filter(keep)], [Low(field, false), High(field, false)];
            var g := Plan(procs, 2, field, false);
            && g.Some? && RunGraph(g.value, OneEach(field)) == Panic
            && Run(procs, rows) == [High(field, false)]
            && Sorted(field, false, rows) && Dealt(rows, Flats(OneEach(field)))
  {
    var procs, a, b := [Pass, Filter(keep)], Low(field, false), High(field, false);
    SplitPointAt(procs, field, 2);
    OneEachIsDealt(field);
    assert procs[2..] == [];
    KeepsLater(keep, a, b);
    FirstIsEmptied(keep, field, a, [[[a]], [[b]]]);
    assert Plan(procs, 2, field, false).Some? && !NothingToDo(procs, field) && KeepsName(procs, field);
    hide *;
    RightExactly(procs, field, false, [a, b], OneEach(field));
    ParallelExactly(procs, field, false, [a, b], OneEach(field));
  }

  lemma KeepsLater(keep: Row -> bool, a: Row, b: Row)
    requires !keep(a) && keep(b)
    ensures Run([Pass, Filter(keep)], [a, b]) == [b] && Run([Pass, Filter(keep)], [a]) == []
  {
    var p := Filter(keep);
    PassThenFilter(keep, [a, b]);
    PassThenFilter(keep, [a]);
    EachNext(p, [a, b]);
    EachNext(p, [b]);
    EachNext(p, [a]);
    assert [a, b][1..] == [b] && [b][1..] == [] && [a][1..] == [];
    hide Apply;
  }

  lemma FirstIsEmptied(keep: Row -> bool, field: string, a: Row, parts: Parents)
    requires Run([Pass, Filter(keep)], [a]) == [] && parts != [] && parts[0] == [[a]]
    ensures SomeHandsEmptyBatch([Pass, Filter(keep)], field, parts)
  {
    var procs := [Pass, Filter(keep)];
    SplitPointAt(procs, field, 2);
    assert procs[..2] == procs && procs[..1] == [Pass];
    RunOne(Pass, a, a);
    assert EmptiedAt(procs, [a], 1) && HandsEmpty(procs, [a]);
    assert EmptyBefore(procs, parts[0], 0, None);
    hide Run, EmptyBefore, Plan;
    assert HandsEmptyBatch(procs, field, parts[0]);
  }

  lemma PassThenFilter(keep: Row -> bool, rows: seq<Row>)
    ensures Run([Pass, Filter(keep)], rows) == Apply(Filter(keep), rows)
  {
    PassAll(rows);
    RunNext([Pass, Filter(keep)], rows);
    assert [Pass, Filter(keep)][1..] == [Filter(keep)];
    RunNext([Filter(keep)], rows);
    assert [Filter(keep)][1..] == [];
  }

  /** A pipeline that begins with uniq leaves its branches without procs and does not compile. */
  lemma UniqDoesNotCompile(cflag: bool, field: string, reverse: bool, parts: Parents)
    requires field != "" && |parts| > 0
    ensures var g := Plan([Uniq(cflag)], |parts|, field, reverse);
            g.Some? && RunGraph(g.value, parts) == NotCompiled
  {
    var g := Plan([Uniq(cflag)], |parts|, field, reverse).value;
    assert g.branches[0] == [];
  }

  // ------------------------------------------------- renaming the sort field

  /** Renames drop no record, so the branches pass on no empty batch they did not read. */
  lemma RenamePassesOnAll(renames: seq<Assign>, field: string, parts: Parents)
    requires !MustMergeBefore(Rename(renames), field) && !HasEmpty(parts)
    ensures !SomeHandsEmptyBatch([Rename(renames)], field, parts)
  {
    var procs := [Rename(renames)];
    SplitPointAt(procs, field, 1);
    assert procs[..1] == procs;
    forall k, j: nat | 0 <= k < |parts| && j < |parts[k]| ensures !HandsEmpty(procs, parts[k][j]) {
      assert parts[k][j] != [];
    }
  }

  /** `DealtBackwards` with each record in a batch of its own. */
  function BackwardsBatches(a: Row, b: Row, n: nat): (r: Parents)
    ensures |r| == n && !HasEmpty(r)
  {
    seq(n, k => if k == 0 then [[b]] else if k == 1 then [[a]] else [])
  }

  lemma BackwardsBatchesRows(a: Row, b: Row, n: nat)
    ensures Flats(BackwardsBatches(a, b, n)) == DealtBackwards(a, b, n)
  {
    OneBatchRows([a]);
    OneBatchRows([b]);
    var flats := Flats(BackwardsBatches(a, b, n));
    forall k | 0 <= k < n ensures flats[k] == DealtBackwards(a, b, n)[k] {}
  }

  /** The graph computes what this one rename computes, on every sorted input without empty batches. */
  ghost predicate RenamesRightly(renames: seq<Assign>, field: string, reverse: bool, n: nat)
    requires n > 0 && Plan([Rename(renames)], n, field, reverse).Some?
  {
    forall rows: seq<Row>, parts: Parents ::
      |parts| == n && Sorted(field, reverse, rows) && Dealt(rows, Flats(parts)) && !HasEmpty(parts) ==>
      RunGraph(Plan([Rename(renames)], n, field, reverse).value, parts) == Done(Run([Rename(renames)], rows))
  }

  /** A rename the rewriting lets into the branches is computed rightly if and only if it spares the sort field. */
  lemma RenameExactly(renames: seq<Assign>, field: string, reverse: bool, n: nat)
    requires field != "" && n >= 2 && !MustMergeBefore(Rename(renames), field)
    ensures Plan([Rename(renames)], n, field, reverse).Some?
    ensures RenamesRightly(renames, field, reverse, n) <==> !RenamesAway(Rename(renames), field)
  {
    var p := Rename(renames);
    var procs := [p];
    SplitPointAt(procs, field, 1);
    assert procs[..1] == procs && procs[1..] == [];
    assert Plan(procs, n, field, reverse).Some? && !NothingToDo(procs, field);
    PlanIsSplit(procs, n, field, reverse);
    var g := Plan(procs, n, field, reverse).value;
    hide Plan, Split, RunGraph, Sorted, Dealt, Run, HasEmpty, Merged, MustMergeBefore, RenamesAway, MergedStream, Asks, NothingToDo, Flats, Branch, DealtBackwards;
    if RenamesAway(p, field) {
      var a, b := Low(field, reverse), High(field, reverse);
      var parts := BackwardsBatches(a, b, n);
      RenameAwayLosesOrder(renames, field, reverse, n);
      BackwardsBatchesRows(a, b, n);
      GraphExactly(procs, [], field, reverse, parts);
      ForcedPass([], Merged(procs, field, reverse, Flats(parts)));
      assert !HasEmpty(parts) && Dealt([a, b], Flats(parts));
    } else {
      forall rows: seq<Row>, parts: Parents | |parts| == n && Sorted(field, reverse, rows) && Dealt(rows, Flats(parts)) && !HasEmpty(parts)
        ensures RunGraph(g, parts) == Done(Run(procs, rows))
      {
        RenamePassesOnAll(renames, field, parts);
        assert KeepsName(procs, field);
        ParallelExactly(procs, field, reverse, rows, parts);
      }
    }
  }
}
