/**
 * Building a microindex in one pass (microindex/writer.go): every layer passes an
 * entry for each frame it ends to a parent layer that is created on demand.
 */
module MicroindexWriter {
  import opened Bytes
  import opened Microindex
  import opened MicroindexFinder
  import opened MicroindexFrames

  const MAX_LEVELS := 20

  datatype Error = TooManyLevels

  type Outcome = Result<(), Error>

  /** What was written since the last frame ended. */
  function Open(file: seq<Cell>, frames: seq<seq<Cell>>): seq<Cell>
    requires Flat(frames) <= file
  {
    file[|Flat(frames)|..]
  }

  /** A layer's file is its ended frames and then the records of the open one. */
  ghost predicate LayerOk(file: seq<Cell>, frames: seq<seq<Cell>>, frameStart: int, frameKey: Option<Key>,
                          entries: seq<Entry>, passed: seq<Entry>) {
    && FramesOk(frames) && Positive(file) && Flat(frames) <= file
    && (forall i :: 0 <= i < |Open(file, frames)| ==> Open(file, frames)[i].item.Rec?)
    && frameStart == Size(Flat(frames))
    && frameKey == (if Open(file, frames) == [] then None else Some(Open(file, frames)[0].item.entry.key))
    && entries == Recs(file) && passed == IndexOf(frames)
  }

  /** An end of stream turns the open records into a frame. */
  lemma EosKeepsLayer(file: seq<Cell>, frames: seq<seq<Cell>>, frameStart: int, frameKey: Option<Key>,
                      entries: seq<Entry>, passed: seq<Entry>, eos: Cell) returns (f: seq<Cell>)
    requires LayerOk(file, frames, frameStart, frameKey, entries, passed) && frameKey.Some?
    requires eos.item.Eos? && eos.width > 0
    ensures LayerOk(file + [eos], frames + [f], Size(file + [eos]), None, entries,
                    passed + [Entry(frameKey.value, frameStart)])
    ensures file + [eos] == Flat(frames + [f]) && f == Open(file, frames) + [eos]
  {
    hide FrameOk, Flat, Size, Recs, IndexOf;
    f := Open(file, frames) + [eos];
    FlatWithEos(file, frames, eos);
    OpenBecomesFrame(file, frames, eos);
    IndexOfSnoc(frames, f);
    RecsWithEos(file, eos);
    assert Open(file + [eos], frames + [f]) == [];
  }

  lemma RecsWithEos(file: seq<Cell>, eos: Cell)
    requires eos.item.Eos?
    ensures Recs(file + [eos]) == Recs(file)
  {
    SizeRecsAppend(file, [eos]);
    RecsOne(eos);
  }

  lemma FlatWithEos(file: seq<Cell>, frames: seq<seq<Cell>>, eos: Cell)
    requires Flat(frames) <= file
    ensures file + [eos] == Flat(frames + [Open(file, frames) + [eos]])
  {
    FlatSnoc(frames, Open(file, frames) + [eos]);
  }

  lemma OpenBecomesFrame(file: seq<Cell>, frames: seq<seq<Cell>>, eos: Cell)
    requires Positive(file) && Flat(frames) <= file && Open(file, frames) != [] && Open(file, frames)[0].item.Rec?
    requires eos.item.Eos? && eos.width > 0
    ensures FrameOk(Open(file, frames) + [eos])
  {
    var f := Open(file, frames) + [eos];
    forall i | 0 <= i < |f| ensures f[i].width > 0 {
      assert f[i] == (file + [eos])[|Flat(frames)| + i];
    }
  }

  lemma OpenIsSome(file: seq<Cell>, frames: seq<seq<Cell>>, frameStart: int, frameKey: Option<Key>,
                   entries: seq<Entry>, passed: seq<Entry>)
    requires LayerOk(file, frames, frameStart, frameKey, entries, passed)
    ensures Flat(frames) <= file && (frameKey.Some? <==> |file| > |Flat(frames)|)
  {
  }

  /** How ending the open frame leaves the layer's frames. */
  lemma CutFacts(file: seq<Cell>, frames: seq<seq<Cell>>, frameStart: int, frameKey: Option<Key>,
                 entries: seq<Entry>, passed: seq<Entry>, mark: int, eos: Cell)
    requires LayerOk(file, frames, frameStart, frameKey, entries, passed) && frameKey.Some?
    requires eos.item.Eos? && eos.width > 0
    ensures Flat(frames) <= file
    ensures forall thresh :: Filling(file, frames, thresh, mark) ==>
              var more := frames + [Open(file, frames) + [eos]];
              && CutRight(more, thresh)
              && (mark <= Size(file) ==> Filling(file + [eos], more, thresh, Size(file) + thresh))
  {
    hide CutRight, Filling, Flat, Size;
    OpenBecomesFrame(file, frames, eos);
    forall thresh | Filling(file, frames, thresh, mark)
      ensures var more := frames + [Open(file, frames) + [eos]];
              && CutRight(more, thresh)
              && (mark <= Size(file) ==> Filling(file + [eos], more, thresh, Size(file) + thresh))
    {
      ClosedFrameIsRight(file, frames, thresh, mark, eos);
      if mark <= Size(file) {
        EndedFrameFills(file, frames, thresh, mark, eos);
      }
    }
  }

  lemma RecordKeepsLayer(file: seq<Cell>, frames: seq<seq<Cell>>, frameStart: int, frameKey: Option<Key>,
                         entries: seq<Entry>, passed: seq<Entry>, cell: Cell)
    requires LayerOk(file, frames, frameStart, frameKey, entries, passed)
    requires cell.item.Rec? && cell.width > 0
    ensures LayerOk(file + [cell], frames, frameStart,
                    if frameKey.None? then Some(cell.item.entry.key) else frameKey,
                    entries + [cell.item.entry], passed)
  {
    hide Flat, FrameOk;
    assert Open(file + [cell], frames) == Open(file, frames) + [cell];
    assert Recs(file + [cell]) == entries + [cell.item.entry] by {
      SizeRecsAppend(file, [cell]);
      RecsOne(cell);
    }
  }

  /** One layer being written. */
  class IndexWriter {
    const thresh: int
    const level: nat
    var parent: IndexWriter?
    var file: seq<Cell>
    var frameStart: int
    var frameEnd: int
    var frameKey: Option<Key>
    /** The frames ended so far, what was passed up for them, and all records written. */
    ghost var frames: seq<seq<Cell>>
    ghost var passed: seq<Entry>
    ghost var entries: seq<Entry>

    constructor (thresh: int, level: nat)
      requires 1 <= level < MAX_LEVELS
      ensures this.thresh == thresh && this.level == level
      ensures Local() && parent == null && entries == [] && passed == [] && frameKey == None
      ensures Fills()
    {
      this.thresh := thresh;
      this.level := level;
      parent := null;
      file := [];
      frameStart := 0;
      frameEnd := thresh;
      frameKey := None;
      frames := [];
      passed := [];
      entries := [];
    }

    /** The fields of this layer agree with its file. */
    ghost predicate Local()
      reads this`file, this`frames, this`frameStart, this`frameKey, this`entries, this`passed
    {
      LayerOk(file, frames, frameStart, frameKey, entries, passed)
    }

    /** The frames are cut where they should be. */
    ghost predicate Fills()
      reads this`file, this`frames, this`frameEnd
    {
      Filling(file, frames, thresh, frameEnd)
    }

    /** Ends the current frame, full or not at a size of `mark`, with an end of stream. */
    method CloseFrame(ghost mark: int)
      requires Local() && frameKey.Some?
      modifies this`file, this`frames, this`frameStart, this`frameKey, this`passed
      ensures Local() && frameKey == None
      ensures passed == old(passed) + [Entry(old(frameKey).value, old(frameStart))]
      ensures Closed(this, old(passed))
      ensures old(Filling(file, frames, thresh, mark)) ==> CutRight(frames, thresh)
      ensures old(Filling(file, frames, thresh, mark)) && mark <= old(Size(file)) ==>
                Filling(file, frames, thresh, old(Size(file)) + thresh)
    {
      hide LayerOk, Filling, CutRight;
      var w: nat :| w > 0;
      var eos := Cell(Eos, w);
      CutFacts(file, frames, frameStart, frameKey, entries, passed, mark, eos);
      ghost var f := EosKeepsLayer(file, frames, frameStart, frameKey, entries, passed, eos);
      ghost var before, p := passed, passed + [Entry(frameKey.value, frameStart)];
      file := file + [eos];
      frameStart := Size(file);
      frameKey := None;
      frames := frames + [f];
      passed := p;
      assert LayerOk(file, frames, frameStart, frameKey, entries, passed);
      assert file == Flat(frames) && |p| == |before| + 1 && p[..|before|] == before;
    }

    /** The last frame can be closed. */
    ghost predicate Waiting(right: bool)
      reads this
    {
      Local() && frameKey.Some? && (right ==> Fills())
    }

    /** Closes the last frame, which may not be full. */
    method Close(ghost passed': seq<Entry>, ghost right: bool)
      requires Waits(this, passed', right)
      modifies this`file, this`frames, this`frameStart, this`frameKey, this`passed
      ensures ClosedAs(this, passed', right)
    {
      hide LayerOk, Filling, CutRight;
      CloseFrame(frameEnd);
    }

    /** Appends a record to the open frame. */
    method Append(e: Entry)
      requires Local()
      modifies this`file, this`frameKey, this`entries
      ensures Local() && frameKey.Some? && entries == old(entries) + [e]
      ensures old(Fills()) && (old(frameKey).Some? ==> old(Size(file)) < frameEnd) ==> Fills()
    {
      hide LayerOk, Filling;
      var w: nat :| w > 0;
      var cell := Cell(Rec(e), w);
      OpenIsSome(file, frames, frameStart, frameKey, entries, passed);
      if Fills() && (frameKey.Some? ==> Size(file) < frameEnd) {
        RecordFills(file, frames, thresh, frameEnd, cell);
      }
      RecordKeepsLayer(file, frames, frameStart, frameKey, entries, passed, cell);
      if frameKey.None? {
        frameKey := Some(e.key);
      }
      file := file + [cell];
      entries := entries + [e];
      assert LayerOk(file, frames, frameStart, frameKey, entries, passed);
    }

    /** Writes a record, first ending the frame if it has reached its threshold. */
    method Write(e: Entry, ghost chain: seq<IndexWriter>) returns (r: Outcome, ghost chain': seq<IndexWriter>)
      requires ChainOk(chain) && chain[0] == this
      modifies chain
      ensures ChainOk(chain') && chain'[0] == this && Extends(chain, chain')
      ensures r.Ok? ==> entries == old(entries) + [e] && frameKey.Some?
      ensures r.Err? ==> entries == old(entries) && frameKey == old(frameKey)
      ensures old(frameKey) == None ==> r.Ok?
      ensures r.Err? ==> chain' == chain && level + |chain| == 20
      ensures r.Ok? && old(AllFill(chain, thresh)) ==> AllFill(chain', thresh)
      decreases MAX_LEVELS - level, 2
    {
      hide LayerOk, Filling;
      chain' := chain;
      var offset := Size(file);
      ghost var mark := frameEnd;
      if offset >= frameEnd && frameKey.Some? {
        frameEnd := offset + thresh;
        r, chain' := EndFrame(chain, mark);
        if r.Err? {
          return;
        }
      }
      assert |chain'| > 1 ==> LinkOk(this, chain'[1..]) && ChainOk(chain'[1..]);
      Append(e);
      assert |chain'| > 1 ==> LinkOk(this, chain'[1..]) && ChainOk(chain'[1..]);
      r := Ok(());
    }

    /** Passes the frame's first key up and ends the frame. */
    method EndFrame(ghost chain: seq<IndexWriter>, ghost mark: int) returns (r: Outcome, ghost chain': seq<IndexWriter>)
      requires ChainOk(chain) && chain[0] == this && frameKey.Some?
      modifies chain
      ensures ChainOk(chain') && chain'[0] == this && Extends(chain, chain')
      ensures entries == old(entries)
      ensures r.Ok? ==> frameKey == None
      ensures r.Err? ==> frameKey == old(frameKey)
      ensures r.Err? ==> chain' == chain && level + |chain| == 20
      ensures r.Ok? && old(AllFill(chain[1..], thresh)) ==> AllFill(chain'[1..], thresh)
      ensures r.Ok? && old(Filling(file, frames, thresh, mark)) && mark <= old(Size(file)) ==>
                Filling(file, frames, thresh, old(Size(file)) + thresh)
      ensures frameEnd == old(frameEnd)
      decreases MAX_LEVELS - level, 1
    {
      hide LayerOk, Filling;
      ghost var tail;
      r, tail := AddToParentIndex(frameKey.value, frameStart, chain);
      chain' := [this] + tail;
      if r.Err? {
        return;
      }
      CloseFrame(mark);
    }

    /** Writes an entry for the frame to the parent, creating it if there is none. */
    method AddToParentIndex(key: Key, offset: int, ghost chain: seq<IndexWriter>) returns (r: Outcome, ghost tail: seq<IndexWriter>)
      requires ChainOk(chain) && chain[0] == this
      modifies this`parent, chain[1..]
      ensures Extends(chain[1..], tail) && this !in tail
      ensures r.Err? ==> ChainOk([this] + tail)
      ensures r.Ok? ==> ChainOk(tail) && parent == tail[0] && parent.level == level + 1 && parent.frameKey.Some?
                        && parent.entries == passed + [Entry(key, offset)]
      ensures r.Err? ==> tail == chain[1..] && level + |chain| == 20
      ensures r.Ok? && old(AllFill(chain[1..], thresh)) ==> AllFill(tail, thresh)
      decreases MAX_LEVELS - level, 0
    {
      hide LayerOk, Filling;
      tail := chain[1..];
      if parent == null {
        if level + 1 >= MAX_LEVELS {
          return Err(TooManyLevels), tail;
        }
        parent := new IndexWriter(thresh, level + 1);
        tail := [parent];
      }
      r, tail := parent.Write(Entry(key, offset), tail);
    }
  }

  /** All layers are cut at this threshold. */
  ghost predicate AllFill(chain: seq<IndexWriter>, thresh: int)
    reads chain
  {
    forall k :: 0 <= k < |chain| ==> chain[k].thresh == thresh && chain[k].Fills()
  }

  /** `b` is `a` with, possibly, new layers on top. */
  twostate predicate Extends(a: seq<IndexWriter>, new b: seq<IndexWriter>) {
    && |a| <= |b| && b[..|a|] == a
    && forall k :: |a| <= k < |b| ==> fresh(b[k])
  }

  /** Each layer of the chain is the parent of the one before it and indexes its ended frames. */
  ghost predicate ChainOk(chain: seq<IndexWriter>)
    reads chain
    decreases |chain|
  {
    && |chain| > 0
    && chain[0].Local() && chain[0].level < MAX_LEVELS
    && if |chain| == 1 then chain[0].parent == null && chain[0].passed == []
       else LinkOk(chain[0], chain[1..]) && ChainOk(chain[1..])
  }

  /** The layer above holds exactly what `w` has passed up. */
  ghost predicate LinkOk(w: IndexWriter, above: seq<IndexWriter>)
    reads w, above
  {
    && |above| > 0 && w !in above
    && w.parent == above[0] && above[0].level == w.level + 1
    && above[0].frameKey.Some? && above[0].entries == w.passed
  }

  /** The chain seen layer by layer. */
  ghost predicate Linear(chain: seq<IndexWriter>)
    reads chain
  {
    && |chain| > 0
    && (forall i, j :: 0 <= i < j < |chain| ==> chain[i] != chain[j])
    && (forall k :: 0 <= k < |chain| ==> chain[k].Local())
    && (forall k :: 0 <= k < |chain| ==> chain[k].parent == ParentIn(chain, k))
  }

  ghost function ParentIn(chain: seq<IndexWriter>, k: int): IndexWriter? {
    if 0 <= k + 1 < |chain| then chain[k + 1] else null
  }

  lemma {:induction false} ChainAt(chain: seq<IndexWriter>, k: nat)
    requires ChainOk(chain) && k < |chain|
    ensures chain[k].Local() && chain[k].parent == ParentIn(chain, k)
    ensures k > 0 ==> chain[k].frameKey.Some? && chain[k].entries == chain[k - 1].passed
    decreases k
  {
    hide LayerOk;
    if k > 0 {
      ChainAt(chain[1..], k - 1);
    }
  }

  lemma {:induction false} ChainDistinct(chain: seq<IndexWriter>, i: nat, j: nat)
    requires ChainOk(chain) && i < j < |chain|
    ensures chain[i] != chain[j]
    decreases i
  {
    hide LayerOk;
    if i == 0 {
      assert chain[j] == chain[1..][j - 1];
    } else {
      ChainDistinct(chain[1..], i - 1, j - 1);
    }
  }

  lemma ChainIsLinear(chain: seq<IndexWriter>)
    requires ChainOk(chain)
    ensures Linear(chain)
    ensures forall k :: 0 < k < |chain| ==> chain[k].frameKey.Some? && chain[k].entries == chain[k - 1].passed
  {
    hide LayerOk, LinkOk;
    forall k | 0 <= k < |chain|
      ensures chain[k].Local() && chain[k].parent == ParentIn(chain, k)
      ensures k > 0 ==> chain[k].frameKey.Some? && chain[k].entries == chain[k - 1].passed
    {
      ChainAt(chain, k);
    }
    forall i, j | 0 <= i < j < |chain| ensures chain[i] != chain[j] {
      ChainDistinct(chain, i, j);
    }
  }

  /** The layer has an open frame and has passed this up. */
  ghost predicate Waits(w: IndexWriter, passed: seq<Entry>, right: bool)
    reads w
  {
    w.Local() && w.frameKey.Some? && w.passed == passed && (right ==> w.Fills())
  }

  /** Every layer can be closed, from one parent to the next. */
  ghost predicate Ready(chain: seq<IndexWriter>, passed: seq<seq<Entry>>, right: bool)
    reads chain
  {
    && |chain| == |passed| > 0
    && (forall i, j :: 0 <= i < j < |chain| ==> chain[i] != chain[j])
    && (forall k :: 0 <= k < |chain| ==> chain[k].parent == ParentIn(chain, k))
    && (forall k :: 0 <= k < |chain| ==> Waits(chain[k], passed[k], right))
  }

  /** What closing the layers does not change. */
  ghost predicate Chained(chain: seq<IndexWriter>, passed: seq<seq<Entry>>, thresh: int, right: bool)
    reads chain`parent, chain`entries
  {
    && |chain| == |passed| > 0
    && (forall i, j :: 0 <= i < j < |chain| ==> chain[i] != chain[j])
    && (forall k :: 0 <= k < |chain| ==> chain[k].parent == ParentIn(chain, k))
    && (forall k :: 0 < k < |chain| ==> chain[k].entries == passed[k - 1])
    && (right ==> forall k :: 0 <= k < |chain| ==> chain[k].thresh == thresh)
  }

  lemma ReadyToClose(chain: seq<IndexWriter>, passed: seq<seq<Entry>>, thresh: int, right: bool)
    requires ChainOk(chain) && chain[0].frameKey.Some? && (right ==> AllFill(chain, thresh))
    requires |passed| == |chain| && forall k :: 0 <= k < |chain| ==> passed[k] == chain[k].passed
    ensures Ready(chain, passed, right) && Chained(chain, passed, thresh, right)
  {
    hide LayerOk, LinkOk, ChainOk, Filling;
    ChainIsLinear(chain);
  }

  /** The layer's last frame has been closed without being passed up. */
  ghost predicate Closed(w: IndexWriter, passed: seq<Entry>)
    reads w
  {
    && w.Local() && w.frameStart == Size(w.file) && w.file == Flat(w.frames)
    && |w.passed| == |passed| + 1 && w.passed[..|passed|] == passed
  }

  /** ... and, if they were before, its frames are cut where they should be. */
  ghost predicate ClosedAs(w: IndexWriter, passed: seq<Entry>, right: bool)
    reads w
  {
    Closed(w, passed) && (right ==> CutRight(w.frames, w.thresh))
  }

  /** What the finished layers hold, base first. */
  ghost function FramesOf(chain: seq<IndexWriter>): (r: seq<seq<seq<Cell>>>)
    reads chain
    ensures |r| == |chain| && forall i :: 0 <= i < |chain| ==> r[i] == chain[i].frames
  {
    seq(|chain|, i requires 0 <= i < |chain| reads chain => chain[i].frames)
  }

  ghost function PassedOf(chain: seq<IndexWriter>): (r: seq<seq<Entry>>)
    reads chain
    ensures |r| == |chain| && forall i :: 0 <= i < |chain| ==> r[i] == chain[i].passed
  {
    seq(|chain|, i requires 0 <= i < |chain| reads chain => chain[i].passed)
  }

  lemma IndexOfPrefix(frames: seq<seq<Cell>>, n: nat)
    requires FramesOk(frames) && n <= |frames|
    ensures IndexOf(frames[..n]) == IndexOf(frames)[..n]
  {
    forall i | 0 <= i < n ensures frames[..n][..i] == frames[..i] {}
  }

  /** What a closed layer holds. */
  lemma ClosedLayer(w: IndexWriter, passed: seq<Entry>)
    requires Closed(w, passed)
    ensures w.Local() && w.frameStart == Size(w.file) && w.file == Flat(w.frames)
    ensures FramesOk(w.frames) && |w.frames| > 0 && Recs(Flat(w.frames)) == w.entries
    ensures IndexOf(w.frames[..|w.frames| - 1]) == passed
  {
    IndexOfPrefix(w.frames, |w.frames| - 1);
  }

  /** Once every layer is closed, each indexes all but the last frame of the one below. */
  lemma ClosedChainIsLinked(chain: seq<IndexWriter>, passed: seq<seq<Entry>>)
    requires |chain| > 0 && |passed| == |chain|
    requires forall k :: 0 <= k < |chain| ==> Closed(chain[k], passed[k])
    requires forall k :: 0 < k < |chain| ==> chain[k].entries == passed[k - 1]
    ensures Linked(FramesOf(chain))
    ensures forall k :: 0 <= k < |chain| ==>
              chain[k].frameStart == Size(chain[k].file) && chain[k].file == Flat(chain[k].frames)
    ensures Recs(Flat(FramesOf(chain)[0])) == chain[0].entries
  {
    hide Closed, LayerOk, Flat, Recs, Size, FrameOk;
    var layers := FramesOf(chain);
    ClosedLayer(chain[0], passed[0]);
    forall c | 0 <= c < |layers|
      ensures FramesOk(layers[c]) && |layers[c]| > 0
      ensures chain[c].frameStart == Size(chain[c].file) && chain[c].file == Flat(chain[c].frames)
    {
      ClosedLayer(chain[c], passed[c]);
    }
    forall c | 0 <= c < |layers| - 1
      ensures Recs(Flat(layers[c + 1])) == IndexOf(layers[c][..|layers[c]| - 1])
    {
      ClosedLayer(chain[c], passed[c]);
      ClosedLayer(chain[c + 1], passed[c + 1]);
    }
  }

  lemma {:induction false} SectionsPositive(layers: seq<seq<seq<Cell>>>, s: nat)
    requires Linked(layers) && s <= |layers|
    ensures Positive(SectionsUpTo(layers, s))
  {
    if s > 0 {
      SectionsPositive(layers, s - 1);
      FlatPositive(layers[LayerOf(|layers|, s - 1)]);
    }
  }

  lemma TrailerCompletes(layers: seq<seq<seq<Cell>>>, sizes: seq<nat>, cells: seq<Cell>, trailer: seq<Cell>)
    requires Linked(layers) && |sizes| == |layers| && Positive(trailer)
    requires forall s :: 0 <= s < |sizes| ==> sizes[s] == Size(Flat(layers[LayerOf(|layers|, s)]))
    requires cells == SectionsUpTo(layers, |layers|)
    ensures Assembled(Index(cells + trailer, sizes), layers)
  {
    SectionsPositive(layers, |layers|);
  }

  /** Writes records in key order and assembles the index at the end. */
  class Writer {
    const thresh: int
    var writer: IndexWriter?
    ghost var chain: seq<IndexWriter>
    /** The records written so far. */
    ghost var written: seq<Entry>
    /** Some write has failed. */
    ghost var failed: bool

    ghost predicate Valid()
      reads this, chain
    {
      if writer == null then chain == [] && written == []
      else ChainOk(chain) && chain[0] == writer && writer.level == 1
           && writer.frameKey.Some? && writer.entries == written && written != []
           && (!failed ==> AllFill(chain, thresh))
    }

    constructor (thresh: int)
      requires thresh != 0
      ensures Valid() && written == [] && !failed && this.thresh == thresh
    {
      this.thresh := thresh;
      writer := null;
      chain := [];
      written := [];
      failed := false;
    }

    method Write(rec: Entry) returns (r: Outcome)
      requires Valid()
      modifies this, chain
      ensures Valid() && Extends(old(chain), chain)
      ensures r.Ok? ==> written == old(written) + [rec] && failed == old(failed)
      ensures r.Err? ==> written == old(written)
      ensures r.Err? ==> |old(chain)| == 19
    {
      hide LayerOk, Filling;
      if writer == null {
        writer := new IndexWriter(thresh, 1);
        chain := [writer];
      }
      var w := writer;
      ghost var grown;
      r, grown := w.Write(rec, chain);
      chain := grown;
      if r.Ok? {
        written := written + [rec];
      } else {
        failed := true;
      }
    }

    /** Closes every layer above the base. */
    method CloseTree(ghost passed: seq<seq<Entry>>, ghost right: bool)
      requires writer != null && Ready(chain, passed, right) && chain[0] == writer
      modifies chain[1..]`file, chain[1..]`frames, chain[1..]`frameStart, chain[1..]`frameKey, chain[1..]`passed
      ensures forall k :: 0 < k < |chain| ==> ClosedAs(chain[k], passed[k], right)
    {
      hide Waits, ClosedAs;
      var p := writer.parent;
      ghost var k := 1;
      while p != null
        invariant 1 <= k <= |chain| && p == ParentIn(chain, k - 1)
        invariant forall j :: k <= j < |chain| ==> Waits(chain[j], passed[j], right)
        invariant forall j :: 0 < j < k ==> ClosedAs(chain[j], passed[j], right)
        decreases |chain| - k
      {
        p.Close(passed[k], right);
        assert chain[k].parent == ParentIn(chain, k);
        p := p.parent;
        k := k + 1;
      }
    }

    /** The layers above the base, lowest first. */
    method Parents() returns (layers: seq<IndexWriter>)
      requires writer != null && Linear(chain) && chain[0] == writer
      ensures layers == chain[1..]
    {
      hide LayerOk;
      layers := [];
      var p := writer.parent;
      while p != null
        invariant |layers| < |chain| && layers == chain[1..|layers| + 1]
        invariant p == ParentIn(chain, |layers|)
        decreases |chain| - |layers|
      {
        assert p == chain[|layers| + 1] && p.parent == ParentIn(chain, |layers| + 1);
        layers := layers + [p];
        p := p.parent;
      }
    }

    /** Copies the closed layers behind the base, root first, and writes the trailer. */
    method Finalize(ghost all: seq<seq<seq<Cell>>>) returns (idx: Index)
      requires writer != null && Finished(chain, all) && chain[0] == writer
      ensures Assembled(idx, all)
    {
      hide LayerOk, Linked, Flat, Size, Assembled;
      var layers := Parents();
      var cells, sizes := CopyTopDown(writer, layers, all);
      var w1: nat, w2: nat :| w1 > 0 && w2 > 0;
      var trailer := [Cell(Rec(Entry([], 0)), w1), Cell(Eos, w2)];
      TrailerCompletes(all, sizes, cells, trailer);
      idx := Index(cells + trailer, sizes);
    }

    /** The base followed by the layers above it from the root down, and all their sizes. */
    method CopyTopDown(base: IndexWriter, layers: seq<IndexWriter>, ghost all: seq<seq<seq<Cell>>>)
      returns (cells: seq<Cell>, sizes: seq<nat>)
      requires |all| == |layers| + 1
      requires base.file == Flat(all[0]) && base.frameStart == Size(base.file)
      requires forall k :: 0 <= k < |layers| ==> layers[k].file == Flat(all[k + 1]) && layers[k].frameStart == Size(layers[k].file)
      ensures |sizes| == |all| && cells == SectionsUpTo(all, |all|)
      ensures forall s :: 0 <= s < |sizes| ==> sizes[s] == Size(Flat(all[LayerOf(|all|, s)]))
    {
      hide Flat, Size;
      sizes := [base.frameStart as int];
      cells := base.file;
      assert cells == SectionsUpTo(all, 1) && LayerOf(|all|, 0) == 0 by {
        assert SectionsUpTo(all, 0) + cells == cells;
      }
      var k := |layers| - 1;
      while k >= 0
        invariant -1 <= k < |layers|
        invariant |sizes| == |layers| - k && cells == SectionsUpTo(all, |sizes|)
        invariant forall s :: 0 <= s < |sizes| ==> sizes[s] == Size(Flat(all[LayerOf(|all|, s)]))
      {
        var layer := layers[k];
        assert LayerOf(|all|, |sizes|) == k + 1;
        sizes := sizes + [layer.frameStart];
        cells := cells + layer.file;
        k := k - 1;
      }
    }

    /**
     * Finishes the index.  An index without records has no sections; otherwise the
     * file holds the layers, base first, and the base holds what was written.  The root
     * has one frame, and unless a write has failed all layers are cut at the threshold.
     */
    method Close() returns (idx: Index, ghost layers: seq<seq<seq<Cell>>>)
      requires Valid()
      modifies chain
      ensures written == [] ==> idx.sections == []
      ensures written != [] ==> idx.sections != [] && Assembled(idx, layers) && Recs(Flat(layers[0])) == written
      ensures written != [] ==> |layers| == |old(chain)| && |layers[|layers| - 1]| == 1
      ensures written != [] && !failed ==> forall c :: 0 <= c < |layers| ==> CutRight(layers[c], thresh)
    {
      if writer == null {
        var w: nat :| w > 0;
        return Index([Cell(Eos, w)], []), [];
      }
      hide ChainOk, Finished, Assembled, Flat, Recs, CutRight, AllFill;
      layers := CloseAll();
      idx := Finalize(layers);
      SectionsPresent(idx, layers);
    }

    /** Ends all layers, and says what they are then. */
    method CloseAll() returns (ghost layers: seq<seq<seq<Cell>>>)
      requires writer != null && Valid()
      modifies chain`file, chain`frames, chain`frameStart, chain`frameKey, chain`passed
      ensures Finished(chain, layers) && chain[0] == writer && |layers| == |chain|
      ensures Recs(Flat(layers[0])) == written && |layers[|layers| - 1]| == 1
      ensures !failed ==> forall c :: 0 <= c < |layers| ==> CutRight(layers[c], thresh)
    {
      hide ChainOk, Ready, ClosedAs, Chained, Finished, Flat, Recs, CutRight, AllFill;
      ghost var passed := PassedOf(chain);
      TopPassesNothing(chain);
      assert |passed| > 0 && passed[|passed| - 1] == [];
      ReadyToClose(chain, passed, thresh, !failed);
      CloseLayers(passed, !failed);
      layers := FramesOf(chain);
      AllClosed(chain, passed, thresh, !failed);
    }

    /** Closes the last frame of every layer, the base last. */
    method CloseLayers(ghost passed: seq<seq<Entry>>, ghost right: bool)
      requires writer != null && Ready(chain, passed, right) && chain[0] == writer
      modifies chain`file, chain`frames, chain`frameStart, chain`frameKey, chain`passed
      ensures forall k :: 0 <= k < |chain| ==> ClosedAs(chain[k], passed[k], right)
    {
      hide Waits, ClosedAs;
      CloseTree(passed, right);
      writer.Close(passed[0], right);
    }
  }

  lemma {:induction false} TopPassesNothing(chain: seq<IndexWriter>)
    requires ChainOk(chain)
    ensures |chain| > 0 && chain[|chain| - 1].passed == []
    decreases |chain|
  {
    hide LayerOk;
    if |chain| > 1 {
      TopPassesNothing(chain[1..]);
    }
  }

  lemma OneRootFrame(w: IndexWriter, passed: seq<Entry>)
    requires Closed(w, passed) && passed == []
    ensures |w.frames| == 1
  {
  }

  /** The layers are complete files, linked one to the next. */
  ghost predicate Finished(chain: seq<IndexWriter>, layers: seq<seq<seq<Cell>>>)
    reads chain
  {
    && Linear(chain) && Linked(layers) && layers == FramesOf(chain)
    && forall k :: 0 <= k < |chain| ==> chain[k].frameStart == Size(chain[k].file) && chain[k].file == Flat(chain[k].frames)
  }

  lemma AllClosed(chain: seq<IndexWriter>, passed: seq<seq<Entry>>, thresh: int, right: bool)
    requires Chained(chain, passed, thresh, right) && passed[|passed| - 1] == []
    requires forall k :: 0 <= k < |chain| ==> ClosedAs(chain[k], passed[k], right)
    ensures Finished(chain, FramesOf(chain)) && Recs(Flat(FramesOf(chain)[0])) == chain[0].entries
    ensures |FramesOf(chain)[|chain| - 1]| == 1
    ensures right ==> forall c :: 0 <= c < |chain| ==> CutRight(FramesOf(chain)[c], thresh)
  {
    hide LayerOk, Linked, Linear, Flat, Size, Recs, CutRight;
    ClosedIsLinear(chain, passed, right);
    CutLayers(chain, passed, thresh, right);
    hide ClosedAs;
    ClosedChainIsLinked(chain, passed);
  }

  lemma ClosedIsLinear(chain: seq<IndexWriter>, passed: seq<seq<Entry>>, right: bool)
    requires |chain| == |passed| > 0
    requires forall i, j :: 0 <= i < j < |chain| ==> chain[i] != chain[j]
    requires forall k :: 0 <= k < |chain| ==> chain[k].parent == ParentIn(chain, k)
    requires forall k :: 0 <= k < |chain| ==> ClosedAs(chain[k], passed[k], right)
    ensures Linear(chain) && forall k :: 0 <= k < |chain| ==> Closed(chain[k], passed[k])
  {
    hide LayerOk, Flat, Size, CutRight;
  }

  /** When all layers have been closed, the root has one frame and all are cut where they should be. */
  lemma CutLayers(chain: seq<IndexWriter>, passed: seq<seq<Entry>>, thresh: int, right: bool)
    requires |chain| == |passed| > 0 && passed[|passed| - 1] == []
    requires forall k :: 0 <= k < |chain| ==> ClosedAs(chain[k], passed[k], right)
    requires right ==> forall k :: 0 <= k < |chain| ==> chain[k].thresh == thresh
    ensures |FramesOf(chain)[|chain| - 1]| == 1
    ensures right ==> forall c :: 0 <= c < |chain| ==> CutRight(FramesOf(chain)[c], thresh)
  {
    hide CutRight, Closed;
    OneRootFrame(chain[|chain| - 1], passed[|chain| - 1]);
  }

  // ------------------------------------------------------------ how many layers

  /** A layer with an open frame holds more records than it has passed entries up. */
  lemma MoreThanPassed(w: IndexWriter)
    requires w.Local() && w.frameKey.Some?
    ensures |w.entries| > |w.passed|
    ensures w.Fills() && w.thresh <= 1 ==> |w.entries| == |w.passed| + 1
  {
    var open := Open(w.file, w.frames);
    RecordsInLayer(w.file, w.frames);
    FramesHoldRecords(w.frames);
    hide Flat, Size, Recs, IndexOf;
    if w.Fills() && w.thresh <= 1 {
      OpenHasOneRecord(w.file, w.frames, w.thresh, w.frameEnd);
      forall i | 0 <= i < |w.frames| ensures |w.frames[i]| == 2 {
        OneRecordEach(w.frames, w.thresh, i);
      }
    }
  }

  lemma RecordsInLayer(file: seq<Cell>, frames: seq<seq<Cell>>)
    requires Flat(frames) <= file && Open(file, frames) != [] && Open(file, frames)[0].item.Rec?
    ensures |Recs(file)| > |Recs(Flat(frames))|
    ensures |Open(file, frames)| == 1 ==> |Recs(file)| == |Recs(Flat(frames))| + 1
  {
    hide Flat, Recs;
    var open := Open(file, frames);
    assert file == Flat(frames) + open && open == [open[0]] + open[1..];
    SizeRecsAppend(Flat(frames), open);
    SizeRecsAppend([open[0]], open[1..]);
    RecsOne(open[0]);
    if |open| == 1 {
      assert open == [open[0]];
    }
  }

  /** There are at most as many layers as records, and just as many when every record fills a frame. */
  lemma {:induction false} LayersAtMostRecords(chain: seq<IndexWriter>, thresh: int)
    requires ChainOk(chain) && chain[0].frameKey.Some?
    ensures |chain| <= |chain[0].entries|
    ensures AllFill(chain, thresh) && thresh <= 1 ==> |chain| == |chain[0].entries|
    ensures chain[0].level + |chain| <= 20
    decreases |chain|
  {
    hide LayerOk, Filling;
    MoreThanPassed(chain[0]);
    if |chain| > 1 {
      LayersAtMostRecords(chain[1..], thresh);
    }
  }

  lemma SectionsPresent(idx: Index, layers: seq<seq<seq<Cell>>>)
    requires Assembled(idx, layers)
    ensures idx.sections != []
  {
  }

  /** A parent layer's first entry is its child's first frame, at offset 0. */
  lemma ParentStartsAtZero(chain: seq<IndexWriter>, k: nat)
    requires ChainOk(chain) && 0 < k < |chain|
    ensures FramesOk(chain[k - 1].frames)
    ensures |chain[k].entries| == |chain[k - 1].frames| > 0
    ensures FrameOk(chain[k - 1].frames[0]) && chain[k].entries[0] == Entry(FirstKey(chain[k - 1].frames[0]), 0)
  {
    ChainAt(chain, k);
    ChainAt(chain, k - 1);
    MoreThanPassed(chain[k]);
    assert chain[k - 1].frames[..0] == [];
  }

  /**
   * Indexes `recs` and looks `target` up in the result, exactly and for the closest key.
   * At most nineteen records are indexed at any threshold; with a threshold of one byte,
   * where every record begins a frame, no more are.
   */
  method IndexedLookup(recs: seq<Entry>, thresh: int, target: Key) returns (r: Result<(Option<Entry>, Found), Error>)
    requires thresh != 0 && Sorted(recs, |target|)
    ensures r.Ok? ==> IsExact(recs, target, r.value.0)
    ensures r.Ok? ==> match r.value.1
                      case Found(e) => IsClosest(recs, target, e)
                      case NotFound => IsClosest(recs, target, None)
    ensures |recs| <= 19 ==> r.Ok?
    ensures thresh <= 1 ==> (r.Ok? <==> |recs| <= 19)
  {
    hide LayerOk, ChainOk, Assembled, Sorted, IsClosest, IsExact, Filling, CutRight, AllFill;
    var w := new Writer(thresh);
    for k := 0 to |recs|
      invariant w.Valid() && w.written == recs[..k] && fresh(w) && fresh(set x | x in w.chain)
      invariant !w.failed
      invariant w.writer != null <==> k > 0
      invariant k > 0 ==> |w.chain| <= k && |w.chain| <= 19 && (thresh <= 1 ==> |w.chain| == k)
    {
      var ok := w.Write(recs[k]);
      if ok.Err? {
        return Err(ok.error);
      }
      assert recs[..k] + [recs[k]] == recs[..k + 1];
      LayersAtMostRecords(w.chain, thresh);
    }
    assert recs[..|recs|] == recs;
    var idx, layers := w.Close();
    var finder := new Finder(idx);
    var exact := finder.LookupExact(target, layers);
    var closest := finder.LookupClosest(target, layers);
    if recs == [] {
      EmptyAnswers(target);
    }
    r := Ok((exact, closest));
  }

  lemma EmptyAnswers(target: Key)
    ensures IsExact([], target, None) && IsClosest([], target, None)
  {
  }
}
