/**
 * Where the frames of a microindex layer end (microindex/writer.go): at the first
 * record that takes the layer to its threshold past the end of the last frame.
 */
module MicroindexFrames {
  import opened Microindex

  /** Size of a layer up to the end-of-stream mark of frame `i`. */
  function FrameSizeUpTo(frames: seq<seq<Cell>>, i: nat): nat
    requires FramesOk(frames) && i < |frames|
  {
    assert FrameOk(frames[i]);
    Size(Flat(frames[..i])) + Size(frames[i][..|frames[i]| - 1])
  }

  /** The size at which the frame behind the first `n` is full. */
  function Mark(frames: seq<seq<Cell>>, thresh: int, n: nat): int
    requires FramesOk(frames) && n <= |frames|
  {
    if n == 0 then thresh else FrameSizeUpTo(frames, n - 1) + thresh
  }

  /** Frame `i` is full. */
  ghost predicate Full(frames: seq<seq<Cell>>, thresh: int, i: nat)
    requires FramesOk(frames) && i < |frames|
  {
    Mark(frames, thresh, i) <= FrameSizeUpTo(frames, i)
  }

  /** ... and was not before its last record, unless that is its only one. */
  ghost predicate NotLonger(frames: seq<seq<Cell>>, thresh: int, i: nat)
    requires FramesOk(frames) && i < |frames|
  {
    assert FrameOk(frames[i]);
    var n := |frames[i]|;
    n > 2 ==> FrameSizeUpTo(frames, i) - frames[i][n - 2].width < Mark(frames, thresh, i)
  }

  /** A finished layer: no frame is longer than needed, and all but the last are full. */
  ghost predicate CutRight(frames: seq<seq<Cell>>, thresh: int) {
    && FramesOk(frames)
    && (forall i :: 0 <= i < |frames| ==> NotLonger(frames, thresh, i))
    && (forall i :: 0 <= i < |frames| - 1 ==> Full(frames, thresh, i))
  }

  /** A layer being written: its ended frames are cut right and so far is the open one. */
  ghost predicate Filling(file: seq<Cell>, frames: seq<seq<Cell>>, thresh: int, frameEnd: int) {
    && FramesOk(frames) && Flat(frames) <= file
    && frameEnd == Mark(frames, thresh, |frames|)
    && (forall i :: 0 <= i < |frames| ==> NotLonger(frames, thresh, i) && Full(frames, thresh, i))
    && (|file| > |Flat(frames)| + 1 ==> Size(file) - file[|file| - 1].width < frameEnd)
  }

  /** What is said of a frame does not depend on later ones. */
  lemma EarlierFrames(frames: seq<seq<Cell>>, f: seq<Cell>, thresh: int, i: nat)
    requires FramesOk(frames) && FrameOk(f) && i <= |frames|
    ensures FramesOk(frames + [f])
    ensures Mark(frames + [f], thresh, i) == Mark(frames, thresh, i)
    ensures i < |frames| ==> FrameSizeUpTo(frames + [f], i) == FrameSizeUpTo(frames, i)
  {
    hide Flat, Size, FrameOk;
    var more := frames + [f];
    assert more[..i] == frames[..i];
    if i > 0 {
      assert more[..i - 1] == frames[..i - 1];
    }
  }

  lemma EarlierFrameStays(frames: seq<seq<Cell>>, f: seq<Cell>, thresh: int, i: nat)
    requires FramesOk(frames) && FrameOk(f) && i < |frames|
    ensures FramesOk(frames + [f])
    ensures NotLonger(frames + [f], thresh, i) <==> NotLonger(frames, thresh, i)
    ensures Full(frames + [f], thresh, i) <==> Full(frames, thresh, i)
  {
    EarlierFrames(frames, f, thresh, i);
    hide Mark, FrameSizeUpTo, FrameOk;
  }

  /** Ending the open frame at a size of `offset`. */
  lemma NewFrameSize(file: seq<Cell>, frames: seq<seq<Cell>>, eos: Cell)
    requires FramesOk(frames) && Flat(frames) <= file && FrameOk(file[|Flat(frames)|..] + [eos])
    ensures var f := file[|Flat(frames)|..] + [eos];
            FramesOk(frames + [f]) && FrameSizeUpTo(frames + [f], |frames|) == Size(file)
  {
    hide Flat, Size, FrameOk;
    var open := file[|Flat(frames)|..];
    var f, n := open + [eos], |frames|;
    assert (frames + [f])[..n] == frames && f[..|f| - 1] == open;
    assert file == Flat(frames) + open;
    SizeRecsAppend(Flat(frames), open);
  }

  /** The frame that ends where the layer does. */
  lemma NewFrame(file: seq<Cell>, frames: seq<seq<Cell>>, thresh: int, frameEnd: int, eos: Cell)
    requires Filling(file, frames, thresh, frameEnd)
    requires FrameOk(file[|Flat(frames)|..] + [eos])
    ensures var f := file[|Flat(frames)|..] + [eos];
            && FramesOk(frames + [f]) && Mark(frames + [f], thresh, |frames| + 1) == Size(file) + thresh
            && NotLonger(frames + [f], thresh, |frames|)
            && (Full(frames + [f], thresh, |frames|) <==> frameEnd <= Size(file))
  {
    hide Size, FrameOk, Flat, FrameSizeUpTo;
    var f := file[|Flat(frames)|..] + [eos];
    NewFrameSize(file, frames, eos);
    EarlierFrames(frames, f, thresh, |frames|);
    if |f| > 2 {
      assert f[|f| - 2] == file[|file| - 1];
    }
  }

  /** A full frame that is ended leaves a layer that is filling. */
  lemma EndedFrameFills(file: seq<Cell>, frames: seq<seq<Cell>>, thresh: int, frameEnd: int, eos: Cell)
    requires Filling(file, frames, thresh, frameEnd) && frameEnd <= Size(file)
    requires FrameOk(file[|Flat(frames)|..] + [eos])
    ensures Filling(file + [eos], frames + [file[|Flat(frames)|..] + [eos]], thresh, Size(file) + thresh)
  {
    hide Size, FrameOk, FrameSizeUpTo, Mark, NotLonger, Full;
    var f := file[|Flat(frames)|..] + [eos];
    NewFrame(file, frames, thresh, frameEnd, eos);
    FlatSnoc(frames, f);
    assert file + [eos] == Flat(frames + [f]);
    hide Flat;
    forall i | 0 <= i < |frames| ensures NotLonger(frames + [f], thresh, i) && Full(frames + [f], thresh, i) {
      EarlierFrameStays(frames, f, thresh, i);
    }
  }

  /** Closing the last frame leaves the layer cut right. */
  lemma ClosedFrameIsRight(file: seq<Cell>, frames: seq<seq<Cell>>, thresh: int, frameEnd: int, eos: Cell)
    requires Filling(file, frames, thresh, frameEnd)
    requires FrameOk(file[|Flat(frames)|..] + [eos])
    ensures CutRight(frames + [file[|Flat(frames)|..] + [eos]], thresh)
  {
    hide Size, FrameOk, Flat, FrameSizeUpTo, Mark, NotLonger, Full;
    var f := file[|Flat(frames)|..] + [eos];
    NewFrame(file, frames, thresh, frameEnd, eos);
    forall i | 0 <= i < |frames| ensures NotLonger(frames + [f], thresh, i) && Full(frames + [f], thresh, i) {
      EarlierFrameStays(frames, f, thresh, i);
    }
  }

  /** A record goes into the open frame unless that is full. */
  lemma RecordFills(file: seq<Cell>, frames: seq<seq<Cell>>, thresh: int, frameEnd: int, cell: Cell)
    requires Filling(file, frames, thresh, frameEnd)
    requires |file| > |Flat(frames)| ==> Size(file) < frameEnd
    ensures Filling(file + [cell], frames, thresh, frameEnd)
  {
    hide Flat;
    SizeRecsAppend(file, [cell]);
    assert [cell][..0] == [];
  }

  /** The first record of a layer always fits. */
  lemma NothingFilled(thresh: int)
    ensures Filling([], [], thresh, thresh)
  {
  }

  // ---------------------------------------------------------- how many frames

  lemma {:induction false} FramesHoldRecords(frames: seq<seq<Cell>>)
    requires FramesOk(frames)
    ensures |Recs(Flat(frames))| >= |frames|
    ensures (forall i :: 0 <= i < |frames| ==> |frames[i]| == 2) ==> |Recs(Flat(frames))| == |frames|
  {
    if frames != [] {
      var front, last := frames[..|frames| - 1], frames[|frames| - 1];
      assert FrameOk(last);
      FramesHoldRecords(front);
      SizeRecsAppend(Flat(front), last);
      assert last == [last[0]] + last[1..];
      SizeRecsAppend([last[0]], last[1..]);
      RecsOne(last[0]);
      if |last| == 2 {
        assert last[1..] == [last[1]];
        RecsOne(last[1]);
      }
    }
  }

  lemma FrameStartsLater(frames: seq<seq<Cell>>, i: nat)
    requires FramesOk(frames) && 0 < i <= |frames|
    ensures Size(Flat(frames[..i])) > FrameSizeUpTo(frames, i - 1)
  {
    var front, f := frames[..i - 1], frames[i - 1];
    assert FrameOk(f);
    assert frames[..i] == front + [f];
    FlatSnoc(front, f);
    SizeRecsAppend(Flat(front), f);
    hide Flat;
    assert f == f[..|f| - 1] + [f[|f| - 1]];
  }

  /** With a threshold of at most one byte every frame has one record. */
  lemma OneRecordEach(frames: seq<seq<Cell>>, thresh: int, i: nat)
    requires FramesOk(frames) && i < |frames| && thresh <= 1 && NotLonger(frames, thresh, i)
    ensures |frames[i]| == 2
  {
    var f := frames[i];
    assert FrameOk(f);
    if |f| > 2 {
      var n := |f|;
      if i > 0 {
        FrameStartsLater(frames, i);
      }
      hide Flat;
      assert f[..n - 1][..n - 2] == f[..n - 2];
      PositiveSize(f[..n - 2]);
    }
  }

  lemma OpenHasOneRecord(file: seq<Cell>, frames: seq<seq<Cell>>, thresh: int, frameEnd: int)
    requires Filling(file, frames, thresh, frameEnd) && Positive(file) && thresh <= 1
    ensures |file| <= |Flat(frames)| + 1
  {
    var n, m := |frames|, |file|;
    if m > |Flat(frames)| + 1 {
      assert frames[..n] == frames;
      if n > 0 {
        FrameStartsLater(frames, n);
      }
      var open := file[|Flat(frames)|..m - 1];
      assert file[..m - 1] == Flat(frames) + open;
      SizeRecsAppend(Flat(frames), open);
      PositiveSize(open);
    }
  }
}
