/**
 * The layout of a microindex (microindex/) and the lookup in it: sections of
 * records cut into streams, each parent section holding one entry (first key,
 * start offset) for every frame of its child but the last.
 */
module Microindex {
  import opened Bytes

  // --------------------------------------------------------------------- keys

  /** A full key: the values of the key fields in order of precedence. */
  type Key = seq<int>

  /** Sign of the comparison of `a` with `b`, field by field. */
  function Compare(a: Key, b: Key): int {
    if a == [] || b == [] then 0
    else if a[0] < b[0] then -1
    else if a[0] > b[0] then 1
    else Compare(a[1..], b[1..])
  }

  lemma {:induction false} CompareSwap(a: Key, b: Key)
    requires |a| == |b|
    ensures Compare(a, b) == -Compare(b, a)
    ensures Compare(a, b) == 0 <==> a == b
  {
    if a != [] {
      CompareSwap(a[1..], b[1..]);
      assert a == [a[0]] + a[1..] && b == [b[0]] + b[1..];
    }
  }

  /** The keys are the same before field `i`, where `a` has the smaller value. */
  ghost predicate SmallerAt(a: Key, b: Key, i: nat) {
    i < |a| && i < |b| && a[..i] == b[..i] && a[i] < b[i]
  }

  /** A key is less when it has the smaller value in the first field in which they differ. */
  lemma {:induction false} LessAtFirstDifference(a: Key, b: Key)
    requires |a| == |b|
    ensures Compare(a, b) < 0 <==> exists i :: SmallerAt(a, b, i)
  {
    if a != [] {
      LessAtFirstDifference(a[1..], b[1..]);
      if i: nat :| SmallerAt(a[1..], b[1..], i) && a[0] == b[0] {
        assert a[..i + 1] == [a[0]] + a[1..][..i] && b[..i + 1] == [b[0]] + b[1..][..i];
        assert SmallerAt(a, b, i + 1);
      }
      if i: nat :| SmallerAt(a, b, i) {
        if i == 0 {
          assert a[0] < b[0];
        } else {
          assert a[..i][0] == a[0] && b[..i][0] == b[0];
          assert a[..i][1..] == a[1..][..i - 1] && b[..i][1..] == b[1..][..i - 1];
          assert SmallerAt(a[1..], b[1..], i - 1);
        }
      }
      if a[0] < b[0] {
        assert SmallerAt(a, b, 0);
      }
    }
  }

  lemma {:induction false} CompareTransitive(a: Key, b: Key, c: Key)
    requires |a| == |b| == |c|
    ensures Compare(a, b) < 0 && Compare(b, c) <= 0 ==> Compare(a, c) < 0
    ensures Compare(a, b) <= 0 && Compare(b, c) < 0 ==> Compare(a, c) < 0
    ensures Compare(a, b) <= 0 && Compare(b, c) <= 0 ==> Compare(a, c) <= 0
  {
    if a != [] {
      CompareTransitive(a[1..], b[1..], c[1..]);
    }
  }

  // ---------------------------------------------------------- files and frames

  /** A record with its key; in a parent layer `value` is the offset of a child frame. */
  datatype Entry = Entry(key: Key, value: int)

  datatype Item = Rec(entry: Entry) | Eos

  /** What one write put in a file, and how many bytes it took. */
  datatype Cell = Cell(item: Item, width: nat)

  function Size(cells: seq<Cell>): nat {
    if cells == [] then 0 else Size(cells[..|cells| - 1]) + cells[|cells| - 1].width
  }

  function Recs(cells: seq<Cell>): seq<Entry> {
    if cells == [] then []
    else Recs(cells[..|cells| - 1]) + (match cells[|cells| - 1].item
                                       case Rec(e) => [e]
                                       case Eos => [])
  }

  /** Every write takes at least one byte. */
  ghost predicate Positive(cells: seq<Cell>) {
    forall i :: 0 <= i < |cells| ==> cells[i].width > 0
  }

  lemma {:induction false} SizeRecsAppend(a: seq<Cell>, b: seq<Cell>)
    ensures Size(a + b) == Size(a) + Size(b)
    ensures Recs(a + b) == Recs(a) + Recs(b)
    decreases |b|
  {
    if b == [] {
      assert a + b == a;
    } else {
      SizeRecsAppend(a, b[..|b| - 1]);
      assert (a + b)[..|a + b| - 1] == a + b[..|b| - 1];
    }
  }

  lemma RecsOne(c: Cell)
    ensures Recs([c]) == match c.item case Rec(e) => [e] case Eos => []
  {
    assert [c][..0] == [];
  }

  lemma {:induction false} PositiveSize(cells: seq<Cell>)
    requires Positive(cells)
    ensures Size(cells) >= |cells|
  {
    if cells != [] {
      PositiveSize(cells[..|cells| - 1]);
    }
  }

  /** A finished stream: it starts with a record and ends with an end-of-stream mark. */
  ghost predicate FrameOk(f: seq<Cell>) {
    && |f| >= 2 && Positive(f)
    && f[0].item.Rec? && f[|f| - 1].item.Eos?
  }

  ghost predicate FramesOk(frames: seq<seq<Cell>>) {
    forall i :: 0 <= i < |frames| ==> FrameOk(frames[i])
  }

  function Flat(frames: seq<seq<Cell>>): seq<Cell> {
    if frames == [] then [] else Flat(frames[..|frames| - 1]) + frames[|frames| - 1]
  }

  lemma {:induction false} FlatAppend(a: seq<seq<Cell>>, b: seq<seq<Cell>>)
    ensures Flat(a + b) == Flat(a) + Flat(b)
    decreases |b|
  {
    if b == [] {
      assert a + b == a;
    } else {
      FlatAppend(a, b[..|b| - 1]);
      assert (a + b)[..|a + b| - 1] == a + b[..|b| - 1];
    }
  }

  lemma FlatSnoc(a: seq<seq<Cell>>, f: seq<Cell>)
    ensures Flat(a + [f]) == Flat(a) + f
  {
    assert (a + [f])[..|a|] == a;
  }

  lemma {:induction false} FlatPositive(frames: seq<seq<Cell>>)
    requires FramesOk(frames)
    ensures Positive(Flat(frames))
  {
    if frames != [] {
      FlatPositive(frames[..|frames| - 1]);
    }
  }

  function FirstKey(f: seq<Cell>): Key
    requires FrameOk(f)
  {
    f[0].item.entry.key
  }

  /** What a parent layer holds: first key and start offset of each of these frames. */
  function IndexOf(frames: seq<seq<Cell>>): (r: seq<Entry>)
    requires FramesOk(frames)
    ensures |r| == |frames|
    ensures forall i :: 0 <= i < |frames| ==> r[i] == Entry(FirstKey(frames[i]), Size(Flat(frames[..i])))
  {
    seq(|frames|, i requires 0 <= i < |frames| => Entry(FirstKey(frames[i]), Size(Flat(frames[..i]))))
  }

  lemma IndexOfSnoc(frames: seq<seq<Cell>>, f: seq<Cell>)
    requires FramesOk(frames) && FrameOk(f)
    ensures FramesOk(frames + [f])
    ensures IndexOf(frames + [f]) == IndexOf(frames) + [Entry(FirstKey(f), Size(Flat(frames)))]
  {
    forall i | 0 <= i < |frames| ensures (frames + [f])[..i] == frames[..i] {}
    assert (frames + [f])[..|frames|] == frames;
  }

  // --------------------------------------------------------- a finished index

  /** The file and the section sizes recorded in its trailer. */
  datatype Index = Index(cells: seq<Cell>, sections: seq<nat>)

  /** Layer stored in section `s`: the base first, then from the root down. */
  function LayerOf(n: nat, s: nat): nat
    requires s < n
  {
    if s == 0 then 0 else n - s
  }

  /** The first `s` sections, in file order. */
  function SectionsUpTo(layers: seq<seq<seq<Cell>>>, s: nat): seq<Cell>
    requires s <= |layers|
  {
    if s == 0 then [] else SectionsUpTo(layers, s - 1) + Flat(layers[LayerOf(|layers|, s - 1)])
  }

  /** Entries of every layer, in order, are the index of the layer below without its last frame. */
  ghost predicate Linked(layers: seq<seq<seq<Cell>>>) {
    && |layers| > 0
    && (forall c :: 0 <= c < |layers| ==> FramesOk(layers[c]) && |layers[c]| > 0)
    && (forall c :: 0 <= c < |layers| - 1 ==>
          Recs(Flat(layers[c + 1])) == IndexOf(layers[c][..|layers[c]| - 1]))
  }

  /** `idx` is the file assembled from `layers`, base first. */
  ghost predicate Assembled(idx: Index, layers: seq<seq<seq<Cell>>>) {
    && Linked(layers)
    && |idx.sections| == |layers|
    && (forall s :: 0 <= s < |layers| ==> idx.sections[s] == Size(Flat(layers[LayerOf(|layers|, s)])))
    && Positive(idx.cells)
    && SectionsUpTo(layers, |layers|) <= idx.cells
  }

  /** The records of an index in key order. */
  ghost predicate Sorted(recs: seq<Entry>, arity: nat) {
    && (forall i :: 0 <= i < |recs| ==> |recs[i].key| == arity)
    && (forall i, j :: 0 <= i < j < |recs| ==> Compare(recs[i].key, recs[j].key) < 0)
  }

  // ---------------------------------------------------------- what lookup means

  ghost predicate IsExact(recs: seq<Entry>, target: Key, r: Option<Entry>) {
    match r
    case Some(e) => e in recs && Compare(e.key, target) == 0
    case None => forall i :: 0 <= i < |recs| ==> Compare(recs[i].key, target) != 0
  }

  /** The record with the largest key not above the target. */
  ghost predicate IsClosest(recs: seq<Entry>, target: Key, r: Option<Entry>) {
    match r
    case Some(e) =>
      exists i :: 0 <= i < |recs| && recs[i] == e && Compare(e.key, target) <= 0
                  && forall j :: i < j < |recs| ==> Compare(recs[j].key, target) > 0
    case None => forall i :: 0 <= i < |recs| ==> Compare(recs[i].key, target) > 0
  }
}
