/**
 * Looking up a key in a finished index (microindex/finder.go, microindex/reader.go)
 * agrees with a linear scan of the base layer.
 */
module MicroindexFinder {
  import opened Bytes
  import opened Microindex

  // ----------------------------------------------------- reading part of a file

  /** The cell boundary at byte `pos`, if there is one. */
  function CellAt(cells: seq<Cell>, pos: int): (r: Option<nat>)
    ensures r.Some? ==> r.value <= |cells|
  {
    if pos == Size(cells) then Some(|cells|)
    else if cells == [] then None
    else CellAt(cells[..|cells| - 1], pos)
  }

  lemma {:induction false} CellAtEndOf(x: seq<Cell>, y: seq<Cell>)
    requires Positive(x + y)
    ensures CellAt(x + y, Size(x)) == Some(|x|)
    decreases |y|
  {
    if y == [] {
      assert x + y == x;
    } else {
      var y' := y[..|y| - 1];
      assert (x + y)[..|x + y| - 1] == x + y';
      CellAtEndOf(x, y');
      SizeRecsAppend(x, y);
      assert Positive(y) by {
        forall i | 0 <= i < |y| ensures y[i].width > 0 {
          assert y[i] == (x + y)[|x| + i];
        }
      }
      PositiveSize(y);
    }
  }

  lemma CellAtPrefix(cells: seq<Cell>, x: seq<Cell>)
    requires Positive(cells) && x <= cells
    ensures CellAt(cells, Size(x)) == Some(|x|)
  {
    assert cells == x + cells[|x|..];
    CellAtEndOf(x, cells[|x|..]);
  }

  /** Cell `at` can be read from: it is the front of the file or follows an end of stream. */
  ghost predicate StreamStart(cells: seq<Cell>, at: nat) {
    at <= |cells| && (at == 0 || cells[at - 1].item.Eos?)
  }

  /** The records of the streams that a section reader was opened on. */
  class SectionReader {
    var rest: seq<Cell>

    /** Opens `len` bytes at `off`, which run from a stream start, cell `from`, to before cell `to`. */
    constructor (cells: seq<Cell>, off: int, len: int, ghost from: nat, ghost to: nat)
      requires Positive(cells) && StreamStart(cells, from) && from <= to <= |cells|
      requires off == Size(cells[..from]) && off + len == Size(cells[..to])
      ensures rest == cells[from..to]
    {
      CellAtPrefix(cells, cells[..from]);
      CellAtPrefix(cells, cells[..to]);
      rest := cells[CellAt(cells, off).value..CellAt(cells, off + len).value];
    }

    /** The next record, skipping end-of-stream marks; None at the end. */
    method Read() returns (r: Option<Entry>)
      modifies this
      ensures Recs(old(rest)) == (match r
                                  case Some(e) => [e] + Recs(rest)
                                  case None => [])
      ensures r.Some? ==> |rest| < |old(rest)|
    {
      while rest != []
        invariant Recs(rest) == Recs(old(rest)) && |rest| <= |old(rest)|
        decreases |rest|
      {
        var cell := rest[0];
        assert rest == [cell] + rest[1..];
        SizeRecsAppend([cell], rest[1..]);
        assert [cell][..0] == [];
        assert Recs([cell]) == match cell.item case Rec(e) => [e] case Eos => [];
        rest := rest[1..];
        if cell.item.Rec? {
          return Some(cell.item.entry);
        }
      }
      r := None;
    }
  }

  /** The first `k` records are below the target. */
  ghost predicate Below(recs: seq<Entry>, k: nat, target: Key) {
    k <= |recs| && forall i :: 0 <= i < k ==> Compare(recs[i].key, target) < 0
  }

  /** The record before position `k`. */
  ghost function Before(recs: seq<Entry>, k: nat): Option<Entry>
    requires k <= |recs|
  {
    if k == 0 then None else Some(recs[k - 1])
  }

  /** What a scan that has passed `k` records below the target may answer at the next one. */
  lemma ScanStops(recs: seq<Entry>, k: nat, target: Key)
    requires Sorted(recs, |target|) && Below(recs, k, target) && k < |recs|
    requires Compare(recs[k].key, target) >= 0
    ensures Compare(recs[k].key, target) == 0 ==>
              IsExact(recs, target, Some(recs[k])) && IsClosest(recs, target, Some(recs[k]))
    ensures Compare(recs[k].key, target) > 0 ==>
              IsExact(recs, target, None) && IsClosest(recs, target, Before(recs, k))
  {
    AboveStaysAbove(recs, k, target);
    if Compare(recs[k].key, target) > 0 {
      forall i | 0 <= i < |recs| ensures Compare(recs[i].key, target) != 0 {}
      if k > 0 {
        assert recs[k - 1] == Before(recs, k).value;
      }
    }
  }

  /** ... and what it may answer at the end. */
  lemma ScanEnds(recs: seq<Entry>, target: Key)
    requires Below(recs, |recs|, target)
    ensures IsExact(recs, target, None) && IsClosest(recs, target, Before(recs, |recs|))
  {
  }

  /**
   * Scans forward for the target.  With `exact` only an equal key is returned,
   * otherwise the last record not above the target.
   */
  method Lookup(reader: SectionReader, target: Key, exact: bool) returns (r: Option<Entry>)
    requires Sorted(Recs(reader.rest), |target|)
    modifies reader
    ensures exact ==> IsExact(old(Recs(reader.rest)), target, r)
    ensures !exact ==> IsClosest(old(Recs(reader.rest)), target, r)
  {
    ghost var recs := Recs(reader.rest);
    ghost var k := 0;
    var prev: Option<Entry> := None;
    while true
      invariant Below(recs, k, target) && Recs(reader.rest) == recs[k..]
      invariant prev == Before(recs, k)
      decreases |reader.rest|
    {
      var rec := reader.Read();
      if rec.None? {
        assert recs[k..] == [];
        ScanEnds(recs, target);
        return if exact then None else prev;
      }
      assert rec.value == recs[k] && Recs(reader.rest) == recs[k + 1..];
      var cmp := Compare(rec.value.key, target);
      if cmp >= 0 {
        ScanStops(recs, k, target);
        if cmp == 0 {
          return rec;
        }
        return if exact then None else prev;
      }
      prev := rec;
      k := k + 1;
    }
  }

  lemma AboveStaysAbove(recs: seq<Entry>, k: nat, target: Key)
    requires Sorted(recs, |target|) && k < |recs| && Compare(recs[k].key, target) >= 0
    ensures forall j :: k < j < |recs| ==> Compare(recs[j].key, target) > 0
  {
    forall j | k < j < |recs| ensures Compare(recs[j].key, target) > 0 {
      CompareSwap(recs[k].key, target);
      CompareSwap(recs[j].key, target);
      CompareSwap(recs[k].key, recs[j].key);
      CompareTransitive(target, recs[k].key, recs[j].key);
    }
  }

  // --------------------------------------------------------- frames of a layer

  lemma FlatSplit(frames: seq<seq<Cell>>, i: nat)
    requires i <= |frames|
    ensures Flat(frames) == Flat(frames[..i]) + Flat(frames[i..])
    ensures Recs(Flat(frames)) == Recs(Flat(frames[..i])) + Recs(Flat(frames[i..]))
    ensures Size(Flat(frames)) == Size(Flat(frames[..i])) + Size(Flat(frames[i..]))
  {
    assert frames == frames[..i] + frames[i..];
    FlatAppend(frames[..i], frames[i..]);
    SizeRecsAppend(Flat(frames[..i]), Flat(frames[i..]));
  }

  lemma FlatOne(f: seq<Cell>)
    ensures Flat([f]) == f
  {
    FlatSnoc([], f);
    assert [] + [f] == [f];
  }

  /** A layer's first record is the first of its first frame. */
  lemma FirstRecord(frames: seq<seq<Cell>>)
    requires FramesOk(frames) && |frames| > 0
    ensures |Flat(frames)| > 0 && |Recs(Flat(frames))| > 0 && Recs(Flat(frames))[0].key == FirstKey(frames[0])
  {
    var f := frames[0];
    FlatSplit(frames, 1);
    assert frames[..1] == [f];
    FlatOne(f);
    assert f == [f[0]] + f[1..];
    SizeRecsAppend([f[0]], f[1..]);
    RecsOne(f[0]);
  }

  /** Frame `i` starts the rest of its layer, and its first record is the first of the rest. */
  lemma FrameSplit(frames: seq<seq<Cell>>, i: nat)
    requires FramesOk(frames) && i < |frames|
    ensures Recs(Flat(frames)) == Recs(Flat(frames[..i])) + Recs(Flat(frames[i..]))
    ensures |Recs(Flat(frames[i..]))| > 0 && Recs(Flat(frames[i..]))[0].key == FirstKey(frames[i])
  {
    FlatSplit(frames, i);
    FirstRecord(frames[i..]);
  }

  /** Layers end with an end-of-stream mark. */
  lemma LastCell(frames: seq<seq<Cell>>)
    requires FramesOk(frames) && |frames| > 0
    ensures Flat(frames) != [] && Flat(frames)[|Flat(frames)| - 1].item.Eos?
  {
    assert FrameOk(frames[|frames| - 1]);
  }

  /** Scanning from a frame whose first key is not above the target is as good as scanning it all. */
  lemma ScanFromFrame(frames: seq<seq<Cell>>, i: nat, target: Key, r: Option<Entry>)
    requires FramesOk(frames) && i < |frames| && Sorted(Recs(Flat(frames)), |target|)
    requires i == 0 || Compare(FirstKey(frames[i]), target) <= 0
    ensures Sorted(Recs(Flat(frames[i..])), |target|)
    ensures IsExact(Recs(Flat(frames[i..])), target, r) ==> IsExact(Recs(Flat(frames)), target, r)
    ensures IsClosest(Recs(Flat(frames[i..])), target, r) ==> IsClosest(Recs(Flat(frames)), target, r)
  {
    FrameSplit(frames, i);
    if i == 0 {
      assert frames[0..] == frames;
    } else {
      var before, rest, all := Recs(Flat(frames[..i])), Recs(Flat(frames[i..])), Recs(Flat(frames));
      forall k | 0 <= k < |before| ensures Compare(before[k].key, target) < 0 {
        assert all[k] == before[k] && all[|before|] == rest[0];
        CompareTransitive(before[k].key, rest[0].key, target);
      }
      forall k | 0 <= k < |rest| ensures rest[k] == all[|before| + k] {}
      SuffixAnswers(before, rest, target, r);
    }
  }

  /** Records below the target can be left out of a scan. */
  lemma SuffixAnswers(before: seq<Entry>, rest: seq<Entry>, target: Key, r: Option<Entry>)
    requires forall k :: 0 <= k < |before| ==> Compare(before[k].key, target) < 0
    requires |rest| > 0 && Compare(rest[0].key, target) <= 0
    ensures IsExact(rest, target, r) ==> IsExact(before + rest, target, r)
    ensures IsClosest(rest, target, r) ==> IsClosest(before + rest, target, r)
  {
    var all := before + rest;
    if IsExact(rest, target, r) {
      if r.None? {
        forall k | 0 <= k < |all| ensures Compare(all[k].key, target) != 0 {
          assert all[k] == if k < |before| then before[k] else rest[k - |before|];
        }
      }
    }
    if IsClosest(rest, target, r) {
      assert r.Some?;
      var i :| 0 <= i < |rest| && rest[i] == r.value && Compare(r.value.key, target) <= 0
               && forall j :: i < j < |rest| ==> Compare(rest[j].key, target) > 0;
      assert all[|before| + i] == r.value;
      forall j | |before| + i < j < |all| ensures Compare(all[j].key, target) > 0 {
        assert all[j] == rest[j - |before|];
      }
    }
  }

  // ---------------------------------------------------------------- all layers

  /** Where the first record of frame `i` stands among the records of its layer. */
  function FirstPos(frames: seq<seq<Cell>>, i: nat): nat
    requires i <= |frames|
  {
    |Recs(Flat(frames[..i]))|
  }

  lemma FrameRecord(frames: seq<seq<Cell>>, i: nat)
    requires FramesOk(frames) && i < |frames|
    ensures FirstPos(frames, i) < |Recs(Flat(frames))|
    ensures Recs(Flat(frames))[FirstPos(frames, i)].key == FirstKey(frames[i])
  {
    FrameSplit(frames, i);
  }

  lemma FirstPosInOrder(frames: seq<seq<Cell>>, i: nat, j: nat)
    requires FramesOk(frames) && i < j < |frames|
    ensures FirstPos(frames, i) < FirstPos(frames, j)
  {
    FrameRecord(frames[..j], i);
    assert frames[..j][..i] == frames[..i];
  }

  lemma FirstKeysInOrder(frames: seq<seq<Cell>>, recs: seq<Entry>, i: nat, j: nat, arity: nat)
    requires FramesOk(frames) && recs == Recs(Flat(frames)) && Sorted(recs, arity) && i < j < |frames|
    ensures Compare(FirstKey(frames[i]), FirstKey(frames[j])) < 0
  {
    FirstPosInOrder(frames, i, j);
    FrameRecord(frames, i);
    FrameRecord(frames, j);
  }

  /** First keys of frames are in order because records are. */
  lemma IndexIsSorted(frames: seq<seq<Cell>>, arity: nat)
    requires FramesOk(frames) && |frames| > 0 && Sorted(Recs(Flat(frames)), arity)
    ensures Sorted(IndexOf(frames[..|frames| - 1]), arity)
  {
    var index := IndexOf(frames[..|frames| - 1]);
    forall i | 0 <= i < |index| ensures |index[i].key| == arity {
      FrameRecord(frames, i);
    }
    forall i, j | 0 <= i < j < |index| ensures Compare(index[i].key, index[j].key) < 0 {
      FirstKeysInOrder(frames, Recs(Flat(frames)), i, j, arity);
    }
  }

  lemma {:induction false} LayersAreSorted(layers: seq<seq<seq<Cell>>>, arity: nat, c: nat)
    requires Linked(layers) && c < |layers| && Sorted(Recs(Flat(layers[0])), arity)
    ensures Sorted(Recs(Flat(layers[c])), arity)
  {
    if c > 0 {
      LayersAreSorted(layers, arity, c - 1);
      IndexIsSorted(layers[c - 1], arity);
    }
  }

  /** Every layer starts with the smallest key of the base. */
  lemma {:induction false} SmallestKeyInEveryLayer(layers: seq<seq<seq<Cell>>>, c: nat)
    requires Linked(layers) && c < |layers|
    ensures |Recs(Flat(layers[c]))| > 0 && |Recs(Flat(layers[0]))| > 0
    ensures Recs(Flat(layers[c]))[0].key == Recs(Flat(layers[0]))[0].key
  {
    FirstRecord(layers[c]);
    FirstRecord(layers[0]);
    if c > 0 {
      SmallestKeyInEveryLayer(layers, c - 1);
      FirstRecord(layers[c - 1]);
      assert IndexOf(layers[c - 1][..|layers[c - 1]| - 1])[0].key == FirstKey(layers[c - 1][0]);
    }
  }

  // ------------------------------------------------------- sections of the file

  lemma {:induction false} SectionsPrefix(layers: seq<seq<seq<Cell>>>, s: nat, t: nat)
    requires s <= t <= |layers|
    ensures SectionsUpTo(layers, s) <= SectionsUpTo(layers, t)
    decreases t - s
  {
    if s < t {
      SectionsPrefix(layers, s, t - 1);
    }
  }

  /** Cells `from` to `to` of a file that goes front, mid, rest are `rest`. */
  lemma PartsOfPrefix(cells: seq<Cell>, front: seq<Cell>, mid: seq<Cell>, rest: seq<Cell>)
    requires front + (mid + rest) <= cells
    ensures |front| + |mid| + |rest| <= |cells|
    ensures cells[..|front| + |mid|] == front + mid
    ensures cells[..|front| + |mid| + |rest|] == front + (mid + rest)
    ensures cells[|front| + |mid|..|front| + |mid| + |rest|] == rest
    ensures mid != [] ==> cells[|front| + |mid| - 1] == mid[|mid| - 1]
    ensures mid == [] && front != [] ==> cells[|front| + |mid| - 1] == front[|front| - 1]
  {
    var all := front + (mid + rest);
    assert cells[..|all|] == all;
    assert all[..|front| + |mid|] == front + mid;
    assert all[|front| + |mid|..] == rest;
  }

  lemma SizeOfParts(front: seq<Cell>, mid: seq<Cell>, rest: seq<Cell>)
    ensures Size(front + mid) == Size(front) + Size(mid)
    ensures Size(front + (mid + rest)) == Size(front) + Size(mid) + Size(rest)
  {
    SizeRecsAppend(front, mid);
    SizeRecsAppend(front, mid + rest);
    SizeRecsAppend(mid, rest);
  }

  /** Where `rest` lies in a file that goes front, mid, rest, in cells and in bytes. */
  lemma RangeInFile(cells: seq<Cell>, front: seq<Cell>, mid: seq<Cell>, rest: seq<Cell>) returns (from: nat, to: nat)
    requires front + (mid + rest) <= cells
    ensures from == |front| + |mid| && to == |front| + |mid| + |rest| && to <= |cells|
    ensures Size(cells[..from]) == Size(front) + Size(mid)
    ensures Size(cells[..to]) == Size(front) + Size(mid) + Size(rest)
    ensures cells[from..to] == rest
    ensures mid != [] ==> cells[from - 1] == mid[|mid| - 1]
    ensures mid == [] && front != [] ==> cells[from - 1] == front[|front| - 1]
  {
    from, to := |front| + |mid|, |front| + |mid| + |rest|;
    PartsOfPrefix(cells, front, mid, rest);
    SizeOfParts(front, mid, rest);
  }

  /** Frame `i` of a layer stored after `front`, and all that follows it there. */
  lemma FrameRange(cells: seq<Cell>, front: seq<Cell>, frames: seq<seq<Cell>>, i: nat) returns (from: nat, to: nat)
    requires FramesOk(frames) && i < |frames| && front + Flat(frames) <= cells
    requires front != [] ==> front[|front| - 1].item.Eos?
    ensures StreamStart(cells, from) && from <= to <= |cells|
    ensures Size(cells[..from]) == Size(front) + Size(Flat(frames[..i]))
    ensures Size(cells[..to]) == Size(front) + Size(Flat(frames))
    ensures cells[from..to] == Flat(frames[i..])
  {
    FlatSplit(frames, i);
    from, to := RangeInFile(cells, front, Flat(frames[..i]), Flat(frames[i..]));
    if i > 0 {
      LastCell(frames[..i]);
    }
  }

  /** Section `s` follows the sections before it. */
  lemma SectionInFile(idx: Index, layers: seq<seq<seq<Cell>>>, s: nat)
    requires Assembled(idx, layers) && s < |layers|
    ensures FramesOk(layers[LayerOf(|layers|, s)])
    ensures idx.sections[s] == Size(Flat(layers[LayerOf(|layers|, s)]))
    ensures SectionsUpTo(layers, s) + Flat(layers[LayerOf(|layers|, s)]) <= idx.cells
    ensures var front := SectionsUpTo(layers, s); front != [] ==> front[|front| - 1].item.Eos?
  {
    SectionsPrefix(layers, s + 1, |layers|);
    if s > 0 {
      SectionsEndStreams(layers, s);
    }
  }

  lemma {:induction false} SectionsEndStreams(layers: seq<seq<seq<Cell>>>, s: nat)
    requires Linked(layers) && 0 < s <= |layers|
    ensures SectionsUpTo(layers, s) != [] && SectionsUpTo(layers, s)[|SectionsUpTo(layers, s)| - 1].item.Eos?
  {
    var frames := layers[LayerOf(|layers|, s - 1)];
    var f := frames[|frames| - 1];
    assert FrameOk(f);
    assert Flat(frames) == Flat(frames[..|frames| - 1]) + f;
  }

  // ------------------------------------------------------------------- finder

  datatype Found = Found(value: Option<Entry>) | NotFound

  class Finder {
    const idx: Index

    constructor (idx: Index)
      ensures this.idx == idx
    {
      this.idx := idx;
    }

    predicate IsEmpty() { idx.sections == [] }

    /** Start and length in bytes of section `level`. */
    method Section(level: nat, ghost layers: seq<seq<seq<Cell>>>) returns (off: nat, len: nat)
      requires Assembled(idx, layers) && level < |idx.sections|
      ensures off == Size(SectionsUpTo(layers, level)) && len == idx.sections[level]
    {
      off := 0;
      for k := 0 to level
        invariant off == Size(SectionsUpTo(layers, k))
      {
        SizeRecsAppend(SectionsUpTo(layers, k), Flat(layers[LayerOf(|layers|, k)]));
        off := off + idx.sections[k];
      }
      len := idx.sections[level];
    }

    /** A reader on section `level` from `sectionOff`, the start of its frame `i`, to its end. */
    method NewSectionReader(level: nat, sectionOff: int, ghost layers: seq<seq<seq<Cell>>>, ghost i: nat) returns (r: SectionReader)
      requires Assembled(idx, layers) && level < |idx.sections|
      requires i < |layers[LayerOf(|layers|, level)]|
      requires sectionOff == Size(Flat(layers[LayerOf(|layers|, level)][..i]))
      ensures fresh(r) && r.rest == Flat(layers[LayerOf(|layers|, level)][i..])
    {
      var off, len := Section(level, layers);
      SectionInFile(idx, layers, level);
      ghost var from, to := FrameRange(idx.cells, SectionsUpTo(layers, level), layers[LayerOf(|layers|, level)], i);
      off := off + sectionOff;
      r := new SectionReader(idx.cells, off, len - sectionOff, from, to);
    }

    /**
     * Descends from the root; the reader returned stands at a base frame from
     * which the target can be scanned for.  None: the target is below every key.
     */
    method Search(target: Key, ghost layers: seq<seq<seq<Cell>>>) returns (r: Option<SectionReader>, ghost i: nat)
      requires Assembled(idx, layers) && Sorted(Recs(Flat(layers[0])), |target|)
      ensures r.Some? ==> fresh(r.value) && i < |layers[0]| && r.value.rest == Flat(layers[0][i..])
                          && ((i == 0 && |layers| == 1) || Compare(FirstKey(layers[0][i]), target) <= 0)
      ensures r.None? ==> |layers| > 1 && forall k :: 0 <= k < |Recs(Flat(layers[0]))| ==> Compare(Recs(Flat(layers[0]))[k].key, target) > 0
    {
      var n := |idx.sections|;
      var off := 0;
      i := 0;
      for level := 1 to n
        invariant i < |layers[LayerOf(n, if level < n then level else 0)]|
        invariant off == Size(Flat(layers[LayerOf(n, if level < n then level else 0)][..i]))
        invariant level == 1 ==> i == 0
        invariant level > 1 ==> Compare(FirstKey(layers[LayerOf(n, if level < n then level else 0)][i]), target) <= 0
      {
        ghost var c := LayerOf(n, level);
        var reader := NewSectionReader(level, off, layers, i);
        LayersAreSorted(layers, |target|, c);
        ScanFromFrame(layers[c], i, target, None);
        var rec := Lookup(reader, target, false);
        ScanFromFrame(layers[c], i, target, rec);
        if rec.None? {
          BelowEverything(layers, c, target);
          return None, i;
        }
        i := ChildFrame(layers, c, target, rec.value);
        off := rec.value.value;
        assert LayerOf(n, if level + 1 < n then level + 1 else 0) == c - 1;
      }
      var reader := NewSectionReader(0, off, layers, i);
      r := Some(reader);
    }

    /** The base record with the target key, found through the layers. */
    method LookupExact(target: Key, ghost layers: seq<seq<seq<Cell>>>) returns (r: Option<Entry>)
      requires !IsEmpty() ==> Assembled(idx, layers) && Sorted(Recs(Flat(layers[0])), |target|)
      ensures IsEmpty() ==> r == None
      ensures !IsEmpty() ==> IsExact(Recs(Flat(layers[0])), target, r)
    {
      if IsEmpty() {
        return None;
      }
      var reader, i := Search(target, layers);
      if reader.None? {
        return None;
      }
      ScanFromFrame(layers[0], i, target, None);
      r := Lookup(reader.value, target, true);
      ScanFromFrame(layers[0], i, target, r);
    }

    /** The base record with the largest key not above the target; an error when a layered index has none. */
    method LookupClosest(target: Key, ghost layers: seq<seq<seq<Cell>>>) returns (r: Found)
      requires !IsEmpty() ==> Assembled(idx, layers) && Sorted(Recs(Flat(layers[0])), |target|)
      ensures IsEmpty() ==> r == Found(None)
      ensures !IsEmpty() ==> match r
                             case Found(e) => IsClosest(Recs(Flat(layers[0])), target, e) && (e.None? ==> |layers| == 1)
                             case NotFound => IsClosest(Recs(Flat(layers[0])), target, None) && |layers| > 1
    {
      if IsEmpty() {
        return Found(None);
      }
      var reader, i := Search(target, layers);
      if reader.None? {
        return NotFound;
      }
      ScanFromFrame(layers[0], i, target, None);
      FrameSplit(layers[0], i);
      var e := Lookup(reader.value, target, false);
      ScanFromFrame(layers[0], i, target, e);
      r := Found(e);
    }
  }

  /** A target below everything in some layer is below everything in the base. */
  lemma BelowEverything(layers: seq<seq<seq<Cell>>>, c: nat, target: Key)
    requires Linked(layers) && c < |layers| && Sorted(Recs(Flat(layers[0])), |target|)
    requires IsClosest(Recs(Flat(layers[c])), target, None)
    ensures forall k :: 0 <= k < |Recs(Flat(layers[0]))| ==> Compare(Recs(Flat(layers[0]))[k].key, target) > 0
  {
    SmallestKeyInEveryLayer(layers, c);
    AboveStaysAbove(Recs(Flat(layers[0])), 0, target);
  }

  /** The closest entry of a parent layer points at a frame of its child that is not above the target. */
  lemma ChildFrame(layers: seq<seq<seq<Cell>>>, c: nat, target: Key, e: Entry) returns (i: nat)
    requires Linked(layers) && 0 < c < |layers|
    requires IsClosest(Recs(Flat(layers[c])), target, Some(e))
    ensures i < |layers[c - 1]| - 1
    ensures e.value == Size(Flat(layers[c - 1][..i]))
    ensures Compare(FirstKey(layers[c - 1][i]), target) <= 0
  {
    var child := layers[c - 1][..|layers[c - 1]| - 1];
    var index := IndexOf(child);
    assert Recs(Flat(layers[c])) == index;
    i :| 0 <= i < |index| && index[i] == e && Compare(e.key, target) <= 0;
    assert child[..i] == layers[c - 1][..i];
  }
}
