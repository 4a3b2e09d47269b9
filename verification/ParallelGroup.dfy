/**
 * Heads of parallel branches pulling from shared sources (driver/parallel.go), as a
 * state machine whose steps are what happens between two accesses to shared state.
 */
module ParallelGroups {
  import opened Bytes
  import opened Dealing
  import opened Flowgraph
  import Combiners
  import Batches
  import Sorting

  type Stats = Combiners.ScannerStats

  const NO_STATS := Combiners.ScannerStats(0, 0, 0, 0)

  // --------------------------------------------------------------------- states

  /** What a head is doing, with the index of the source it has received. */
  datatype HeadState =
    | Idle
    | Opening(src: nat)
    | Opened(src: nat)
    | Scanning(src: nat, pos: nat)
    | Finished(src: nat)
    | Stopped

  datatype State = State(
    sources: seq<seq<Row>>,
    next: nat,
    heads: seq<HeadState>,
    /** The head that received each source sent so far. */
    owner: seq<nat>,
    /** The batches each head has passed on. */
    outs: Batches.Parents,
    /** The counters of every scanner opened, those registered, and the accumulated total. */
    counters: map<nat, Stats>,
    scanners: set<nat>,
    stats: Stats)

  datatype Step =
    | Receive(head: nat)
    | OpenNil(head: nat)
    | Open(head: nat)
    | Register(head: nat)
    | PullBatch(head: nat, count: nat, delta: Stats)
    | PullEnd(head: nat, delta: Stats)
    | DoneSource(head: nat)
    | Stop(head: nat)

  function Init(sources: seq<seq<Row>>, n: nat): State {
    State(sources, 0, seq(n, _ => Idle), [], seq(n, _ => []), map[], {}, NO_STATS)
  }

  /** The state after a step, if the step can be taken. */
  function Do(s: State, step: Step): Option<State>
    requires |s.outs| == |s.heads|
  {
    if step.head >= |s.heads| then None
    else
      var h := step.head;
      match (step, s.heads[h])
      case (Receive(_), Idle) =>
        // the sender hands out the sources one by one
        if s.next < |s.sources| then
          Some(s.(heads := s.heads[h := Opening(s.next)], next := s.next + 1, owner := s.owner + [h]))
        else None
      case (OpenNil(_), Opening(i)) =>
        // a source without a scanner has nothing to deliver
        if i < |s.sources| && s.sources[i] == [] then Some(s.(heads := s.heads[h := Idle])) else None
      case (Open(_), Opening(i)) =>
        Some(s.(heads := s.heads[h := Opened(i)], counters := s.counters[i := NO_STATS]))
      case (Register(_), Opened(i)) =>
        Some(s.(heads := s.heads[h := Scanning(i, 0)], scanners := s.scanners + {i}))
      case (PullBatch(_, count, delta), Scanning(i, pos)) =>
        if i in s.counters && i < |s.sources| && 0 < count && pos + count <= |s.sources[i]| then
          Some(s.(heads := s.heads[h := Scanning(i, pos + count)],
                  outs := s.outs[h := s.outs[h] + [s.sources[i][pos..pos + count]]],
                  counters := s.counters[i := s.counters[i].Plus(delta)]))
        else None
      case (PullEnd(_, delta), Scanning(i, pos)) =>
        if i in s.counters && i < |s.sources| && pos == |s.sources[i]| then
          Some(s.(heads := s.heads[h := Finished(i)], counters := s.counters[i := s.counters[i].Plus(delta)]))
        else None
      case (DoneSource(_), Finished(i)) =>
        if i in s.counters then
          Some(s.(heads := s.heads[h := Idle], scanners := s.scanners - {i}, stats := s.stats.Plus(s.counters[i])))
        else None
      case (Stop(_), Idle) =>
        if s.next == |s.sources| then Some(s.(heads := s.heads[h := Stopped])) else None
      case _ => None
  }

  // ----------------------------------------------------------------- the counters

  /** Sum of the counters of those of the first `n` scanners that are in `ids`. */
  function SumIn(ids: set<nat>, counters: map<nat, Stats>, n: nat): Stats {
    if n == 0 then NO_STATS
    else
      var s := SumIn(ids, counters, n - 1);
      if n - 1 in ids && n - 1 in counters then s.Plus(counters[n - 1]) else s
  }

  lemma {:induction false} SumSame(a: set<nat>, b: set<nat>, ca: map<nat, Stats>, cb: map<nat, Stats>, n: nat)
    requires forall i :: 0 <= i < n ==> (i in a && i in ca <==> i in b && i in cb) && (i in a && i in ca ==> ca[i] == cb[i])
    ensures SumIn(a, ca, n) == SumIn(b, cb, n)
  {
    if n > 0 {
      SumSame(a, b, ca, cb, n - 1);
    }
  }

  /** Adding to the counters of one scanner adds to the sum. */
  lemma {:induction false} SumOfCounted(ids: set<nat>, counters: map<nat, Stats>, n: nat, i: nat, delta: Stats)
    requires i in ids && i in counters && i < n
    ensures SumIn(ids, counters[i := counters[i].Plus(delta)], n) == SumIn(ids, counters, n).Plus(delta)
  {
    if i == n - 1 {
      SumSame(ids, ids, counters[i := counters[i].Plus(delta)], counters, n - 1);
    } else {
      SumOfCounted(ids, counters, n - 1, i, delta);
    }
  }

  /** Taking a scanner out takes its counters off the sum. */
  lemma {:induction false} SumWithout(ids: set<nat>, counters: map<nat, Stats>, n: nat, i: nat)
    requires i in ids && i in counters && i < n
    ensures SumIn(ids - {i}, counters, n).Plus(counters[i]) == SumIn(ids, counters, n)
  {
    if i == n - 1 {
      SumSame(ids - {i}, ids, counters, counters, n - 1);
    } else {
      SumWithout(ids, counters, n - 1, i);
    }
  }

  /** The group's statistics: the accumulated ones and those of the registered scanners, in any order. */
  method GroupStats(s: State) returns (ss: Stats)
    requires forall i :: i in s.scanners ==> i in s.counters && i < s.next
    ensures ss == s.stats.Plus(SumIn(s.scanners, s.counters, s.next))
  {
    ss := s.stats;
    var left: set<nat> := s.scanners;
    while left != {}
      invariant left <= s.scanners
      invariant ss.Plus(SumIn(left, s.counters, s.next)) == s.stats.Plus(SumIn(s.scanners, s.counters, s.next))
      decreases |left|
    {
      Sorting.HasMember(left);
      var sc :| sc in left;
      SumWithout(left, s.counters, s.next, sc);
      ss := ss.Plus(s.counters[sc]);
      left := left - {sc};
    }
    NothingToSum(s.counters, s.next);
  }

  lemma {:induction false} NothingToSum(counters: map<nat, Stats>, n: nat)
    ensures SumIn({}, counters, n) == NO_STATS
  {
    if n > 0 {
      NothingToSum(counters, n - 1);
    }
  }

  // -------------------------------------------------------------- what every step keeps

  /** What a head should have passed on of the first `k` sources: those it received, in order. */
  function Owned(sources: seq<seq<Row>>, owner: seq<nat>, h: nat, k: nat): seq<Row>
    requires k <= |owner| && k <= |sources|
  {
    if k == 0 then []
    else Owned(sources, owner, h, k - 1) + if owner[k - 1] == h then sources[k - 1] else []
  }

  /** The source a head is busy with is the last one it received. */
  ghost predicate LastReceived(owner: seq<nat>, h: nat, i: nat) {
    i < |owner| && owner[i] == h && forall j :: i < j < |owner| ==> owner[j] != h
  }

  /** A head's state agrees with what it has received, opened and passed on. */
  ghost predicate HeadOk(sources: seq<seq<Row>>, owner: seq<nat>, counters: map<nat, Stats>, scanners: set<nat>,
                         h: nat, st: HeadState, out: seq<Row>)
    requires |owner| <= |sources|
  {
    match st
    case Idle => out == Owned(sources, owner, h, |owner|)
    case Opening(i) => LastReceived(owner, h, i) && i !in counters && out == Owned(sources, owner, h, i)
    case Opened(i) => LastReceived(owner, h, i) && i in counters && counters[i] == NO_STATS && i !in scanners
                      && out == Owned(sources, owner, h, i)
    case Scanning(i, pos) => LastReceived(owner, h, i) && i in counters && i in scanners && pos <= |sources[i]|
                             && out == Owned(sources, owner, h, i) + sources[i][..pos]
    case Finished(i) => LastReceived(owner, h, i) && i in counters && i in scanners
                        && out == Owned(sources, owner, h, i) + sources[i]
    case Stopped => |owner| == |sources| && out == Owned(sources, owner, h, |owner|)
  }

  /** A head works on scanner `i`. */
  predicate WorksOn(st: HeadState, i: nat) {
    match st
    case Scanning(j, _) => i == j
    case Finished(j) => i == j
    case _ => false
  }

  ghost predicate Inv(s: State) {
    && |s.outs| == |s.heads| && |s.owner| == s.next <= |s.sources|
    && (forall i :: 0 <= i < s.next ==> s.owner[i] < |s.heads|)
    && (forall i :: i in s.counters ==> i < s.next)
    && (forall i :: i in s.scanners ==> i in s.counters && WorksOn(s.heads[s.owner[i]], i))
    && (forall h :: 0 <= h < |s.heads| ==> HeadOk(s.sources, s.owner, s.counters, s.scanners, h, s.heads[h], Flatten(s.outs[h])))
    && s.stats == SumIn(s.counters.Keys - s.scanners, s.counters, s.next)
    && !Batches.HasEmpty(s.outs)
  }

  lemma {:induction false} OwnedSkips(sources: seq<seq<Row>>, owner: seq<nat>, h: nat, i: nat, k: nat)
    requires i <= k <= |owner| <= |sources| && forall j :: i <= j < k ==> owner[j] != h
    ensures Owned(sources, owner, h, k) == Owned(sources, owner, h, i)
    decreases k
  {
    if i < k {
      OwnedSkips(sources, owner, h, i, k - 1);
    }
  }

  lemma {:induction false} OwnedPrefix(sources: seq<seq<Row>>, owner: seq<nat>, more: seq<nat>, h: nat, k: nat)
    requires k <= |owner| <= |more| <= |sources| && owner == more[..|owner|]
    ensures Owned(sources, owner, h, k) == Owned(sources, more, h, k)
  {
    if k > 0 {
      OwnedPrefix(sources, owner, more, h, k - 1);
      assert owner[k - 1] == more[k - 1];
    }
  }

  /** A finished head has passed on all it has received. */
  lemma OwnedWhenFinished(sources: seq<seq<Row>>, owner: seq<nat>, h: nat, i: nat)
    requires |owner| <= |sources| && LastReceived(owner, h, i)
    ensures Owned(sources, owner, h, |owner|) == Owned(sources, owner, h, i) + sources[i]
  {
    assert Owned(sources, owner, h, i + 1) == Owned(sources, owner, h, i) + sources[i];
    hide Owned;
    OwnedSkips(sources, owner, h, i + 1, |owner|);
  }

  /** A head is not affected by another head receiving a source. */
  lemma OtherReceives(sources: seq<seq<Row>>, owner: seq<nat>, counters: map<nat, Stats>, scanners: set<nat>,
                      h: nat, st: HeadState, out: seq<Row>, g: nat)
    requires |owner| < |sources| && g != h && HeadOk(sources, owner, counters, scanners, h, st, out)
    ensures HeadOk(sources, owner + [g], counters, scanners, h, st, out)
  {
    var more := owner + [g];
    OwnedPrefix(sources, owner, more, h, |owner|);
    match st {
      case Opening(i) => OwnedPrefix(sources, owner, more, h, i);
      case Opened(i) => OwnedPrefix(sources, owner, more, h, i);
      case Scanning(i, _) => OwnedPrefix(sources, owner, more, h, i);
      case Finished(i) => OwnedPrefix(sources, owner, more, h, i);
      case _ =>
    }
  }

  lemma ReceiveKeeps(s: State, h: nat)
    requires Inv(s) && h < |s.heads| && s.heads[h].Idle? && s.next < |s.sources|
    ensures Inv(Do(s, Receive(h)).value)
  {
    var t := Do(s, Receive(h)).value;
    OwnedPrefix(s.sources, s.owner, t.owner, h, s.next);
    forall g | 0 <= g < |s.heads| ensures HeadOk(t.sources, t.owner, t.counters, t.scanners, g, t.heads[g], Flatten(t.outs[g])) {
      if g != h {
        OtherReceives(s.sources, s.owner, s.counters, s.scanners, g, s.heads[g], Flatten(s.outs[g]), h);
      }
    }
    assert SumIn(t.counters.Keys - t.scanners, t.counters, t.next) == SumIn(s.counters.Keys - s.scanners, s.counters, s.next);
  }

  /** Steps of one head that touch only its own scanner leave the other heads as they are. */
  lemma OthersKeep(s: State, t: State, h: nat, i: nat)
    requires Inv(s) && h < |s.heads| && LastReceived(s.owner, h, i)
    requires t.sources == s.sources && t.owner == s.owner && |t.heads| == |s.heads| == |t.outs|
    requires forall g :: 0 <= g < |s.heads| && g != h ==> t.heads[g] == s.heads[g] && t.outs[g] == s.outs[g]
    requires forall j :: j != i ==> (j in t.counters <==> j in s.counters) && (j in t.scanners <==> j in s.scanners)
    requires forall j :: j != i && j in s.counters ==> t.counters[j] == s.counters[j]
    ensures forall g :: 0 <= g < |s.heads| && g != h ==> HeadOk(t.sources, t.owner, t.counters, t.scanners, g, t.heads[g], Flatten(t.outs[g]))
  {
    hide Owned;
    forall g | 0 <= g < |s.heads| && g != h ensures HeadOk(t.sources, t.owner, t.counters, t.scanners, g, t.heads[g], Flatten(t.outs[g])) {
      assert HeadOk(s.sources, s.owner, s.counters, s.scanners, g, s.heads[g], Flatten(s.outs[g]));
    }
  }

  /** The source of a busy head. */
  function SourceOf(st: HeadState): Option<nat> {
    match st
    case Opening(i) => Some(i)
    case Opened(i) => Some(i)
    case Scanning(i, _) => Some(i)
    case Finished(i) => Some(i)
    case _ => None
  }

  lemma OpenNilKeeps(s: State, h: nat)
    requires Inv(s) && h < |s.heads| && Do(s, OpenNil(h)).Some?
    ensures Inv(Do(s, OpenNil(h)).value)
  {
    var t, i := Do(s, OpenNil(h)).value, s.heads[h].src;
    assert HeadOk(s.sources, s.owner, s.counters, s.scanners, h, s.heads[h], Flatten(s.outs[h]));
    OthersKeep(s, t, h, i);
    OwnedWhenFinished(s.sources, s.owner, h, i);
    assert HeadOk(t.sources, t.owner, t.counters, t.scanners, h, t.heads[h], Flatten(t.outs[h]));
  }

  lemma OpenKeeps(s: State, h: nat)
    requires Inv(s) && h < |s.heads| && Do(s, Open(h)).Some?
    ensures Inv(Do(s, Open(h)).value)
  {
    var t, i := Do(s, Open(h)).value, s.heads[h].src;
    assert HeadOk(s.sources, s.owner, s.counters, s.scanners, h, s.heads[h], Flatten(s.outs[h]));
    OthersKeep(s, t, h, i);
    assert HeadOk(t.sources, t.owner, t.counters, t.scanners, h, t.heads[h], Flatten(t.outs[h]));
    SumWithFresh(s.counters.Keys - s.scanners, s.counters, s.next, i);
    SumSame(t.counters.Keys - t.scanners, s.counters.Keys - s.scanners + {i}, t.counters, s.counters[i := NO_STATS], s.next);
  }

  /** A scanner that has counted nothing does not change the sum. */
  lemma {:induction false} SumWithFresh(ids: set<nat>, counters: map<nat, Stats>, n: nat, i: nat)
    requires i !in counters
    ensures SumIn(ids + {i}, counters[i := NO_STATS], n) == SumIn(ids, counters, n)
  {
    if n > 0 {
      SumWithFresh(ids, counters, n - 1, i);
    }
  }

  lemma {:induction false} SumWithoutFresh(ids: set<nat>, counters: map<nat, Stats>, n: nat, i: nat)
    requires i in counters && counters[i] == NO_STATS
    ensures SumIn(ids - {i}, counters, n) == SumIn(ids, counters, n)
  {
    if n > 0 {
      SumWithoutFresh(ids, counters, n - 1, i);
    }
  }

  lemma RegisterKeeps(s: State, h: nat)
    requires Inv(s) && h < |s.heads| && Do(s, Register(h)).Some?
    ensures Inv(Do(s, Register(h)).value)
  {
    var t, i := Do(s, Register(h)).value, s.heads[h].src;
    assert HeadOk(s.sources, s.owner, s.counters, s.scanners, h, s.heads[h], Flatten(s.outs[h]));
    OthersKeep(s, t, h, i);
    assert s.sources[i][..0] == [];
    assert HeadOk(t.sources, t.owner, t.counters, t.scanners, h, t.heads[h], Flatten(t.outs[h]));
    SumWithoutFresh(s.counters.Keys - s.scanners, s.counters, s.next, i);
    assert t.counters.Keys - t.scanners == s.counters.Keys - s.scanners - {i};
    StillWorking(s, t, h, i);
  }

  /** Registered scanners of other heads stay with these. */
  lemma StillWorking(s: State, t: State, h: nat, i: nat)
    requires Inv(s) && h < |s.heads| && LastReceived(s.owner, h, i)
    requires t.owner == s.owner && t.next == s.next && |t.heads| == |s.heads|
    requires forall g :: 0 <= g < |s.heads| && g != h ==> t.heads[g] == s.heads[g]
    requires forall j :: j != i && j in t.scanners ==> j in s.scanners && j in t.counters
    requires SourceOf(s.heads[h]) == Some(i)
    requires i in t.scanners ==> i in t.counters && WorksOn(t.heads[h], i)
    ensures forall j :: j in t.scanners ==> j in t.counters && j < s.next && WorksOn(t.heads[t.owner[j]], j)
  {
    forall j | j in t.scanners ensures j in t.counters && j < s.next && WorksOn(t.heads[t.owner[j]], j) {
      if j != i {
        assert WorksOn(s.heads[s.owner[j]], j);
        assert s.owner[j] != h;
      }
    }
  }

  lemma PullBatchKeeps(s: State, h: nat, count: nat, delta: Stats)
    requires Inv(s) && h < |s.heads| && Do(s, PullBatch(h, count, delta)).Some?
    ensures Inv(Do(s, PullBatch(h, count, delta)).value)
  {
    var t, i, pos := Do(s, PullBatch(h, count, delta)).value, s.heads[h].src, s.heads[h].pos;
    assert HeadOk(s.sources, s.owner, s.counters, s.scanners, h, s.heads[h], Flatten(s.outs[h]));
    OthersKeep(s, t, h, i);
    assert s.sources[i][..pos + count] == s.sources[i][..pos] + s.sources[i][pos..pos + count];
    var batch := s.sources[i][pos..pos + count];
    ConcatAssociative(Owned(s.sources, s.owner, h, i), s.sources[i][..pos], batch);
    FlattenAppend(s.outs[h], [batch]);
    Batches.OneBatchRows(batch);
    assert !Batches.HasEmpty(t.outs);
    assert HeadOk(t.sources, t.owner, t.counters, t.scanners, h, t.heads[h], Flatten(t.outs[h]));
    SumSame(t.counters.Keys - t.scanners, s.counters.Keys - s.scanners, t.counters, s.counters, s.next);
    StillWorking(s, t, h, i);
  }

  lemma PullEndKeeps(s: State, h: nat, delta: Stats)
    requires Inv(s) && h < |s.heads| && Do(s, PullEnd(h, delta)).Some?
    ensures Inv(Do(s, PullEnd(h, delta)).value)
  {
    var t, i, pos := Do(s, PullEnd(h, delta)).value, s.heads[h].src, s.heads[h].pos;
    assert HeadOk(s.sources, s.owner, s.counters, s.scanners, h, s.heads[h], Flatten(s.outs[h]));
    OthersKeep(s, t, h, i);
    assert s.sources[i][..pos] == s.sources[i];
    assert HeadOk(t.sources, t.owner, t.counters, t.scanners, h, t.heads[h], Flatten(t.outs[h]));
    SumSame(t.counters.Keys - t.scanners, s.counters.Keys - s.scanners, t.counters, s.counters, s.next);
    StillWorking(s, t, h, i);
  }

  /** Moving a scanner from the registered ones to the accumulated total loses nothing. */
  lemma DoneSourceKeeps(s: State, h: nat)
    requires Inv(s) && h < |s.heads| && Do(s, DoneSource(h)).Some?
    ensures Inv(Do(s, DoneSource(h)).value)
  {
    var t, i := Do(s, DoneSource(h)).value, s.heads[h].src;
    assert HeadOk(s.sources, s.owner, s.counters, s.scanners, h, s.heads[h], Flatten(s.outs[h]));
    OthersKeep(s, t, h, i);
    OwnedWhenFinished(s.sources, s.owner, h, i);
    assert HeadOk(t.sources, t.owner, t.counters, t.scanners, h, t.heads[h], Flatten(t.outs[h]));
    var done := t.counters.Keys - t.scanners;
    SumWithout(done, s.counters, s.next, i);
    assert done - {i} == s.counters.Keys - s.scanners;
    StillWorking(s, t, h, i);
  }

  lemma StopKeeps(s: State, h: nat)
    requires Inv(s) && h < |s.heads| && Do(s, Stop(h)).Some?
    ensures Inv(Do(s, Stop(h)).value)
  {
    var t := Do(s, Stop(h)).value;
    assert HeadOk(s.sources, s.owner, s.counters, s.scanners, h, s.heads[h], Flatten(s.outs[h]));
    forall g | 0 <= g < |s.heads| ensures HeadOk(t.sources, t.owner, t.counters, t.scanners, g, t.heads[g], Flatten(t.outs[g])) {
      assert HeadOk(s.sources, s.owner, s.counters, s.scanners, g, s.heads[g], Flatten(s.outs[g]));
    }
    forall j | j in t.scanners ensures WorksOn(t.heads[t.owner[j]], j) {
      assert WorksOn(s.heads[s.owner[j]], j);
    }
  }

  lemma StepKeeps(s: State, step: Step)
    requires Inv(s) && Do(s, step).Some?
    ensures Inv(Do(s, step).value)
  {
    hide Do, HeadOk, SumIn, WorksOn;
    assert step.head < |s.heads| by {
      HeadInRange(s, step);
    }
    match step {
      case Receive(h) => CanReceive(s, h); ReceiveKeeps(s, h);
      case OpenNil(h) => OpenNilKeeps(s, h);
      case Open(h) => OpenKeeps(s, h);
      case Register(h) => RegisterKeeps(s, h);
      case PullBatch(h, count, delta) => PullBatchKeeps(s, h, count, delta);
      case PullEnd(h, delta) => PullEndKeeps(s, h, delta);
      case DoneSource(h) => DoneSourceKeeps(s, h);
      case Stop(h) => StopKeeps(s, h);
    }
  }

  lemma HeadInRange(s: State, step: Step)
    requires |s.outs| == |s.heads| && Do(s, step).Some?
    ensures step.head < |s.heads|
  {
  }

  lemma CanReceive(s: State, h: nat)
    requires |s.outs| == |s.heads| && Do(s, Receive(h)).Some?
    ensures h < |s.heads| && s.heads[h].Idle? && s.next < |s.sources|
  {
  }

  // -------------------------------------------------------------------- whole runs

  /** The states of a run of the heads in any order. */
  ghost predicate Reachable(sources: seq<seq<Row>>, n: nat, steps: seq<Step>, s: State)
    decreases |steps|
  {
    if steps == [] then s == Init(sources, n)
    else
      exists before :: Reachable(sources, n, steps[..|steps| - 1], before) && |before.outs| == |before.heads|
                       && Do(before, steps[|steps| - 1]) == Some(s)
  }

  /** Whatever the interleaving, the invariant holds, over the same sources and heads. */
  lemma {:induction false} ReachableOk(sources: seq<seq<Row>>, n: nat, steps: seq<Step>, s: State)
    requires Reachable(sources, n, steps, s)
    ensures Inv(s) && s.sources == sources && |s.heads| == n
    decreases |steps|
  {
    if steps == [] {
      InitOk(sources, n);
    } else {
      var before :| Reachable(sources, n, steps[..|steps| - 1], before) && |before.outs| == |before.heads|
                    && Do(before, steps[|steps| - 1]) == Some(s);
      ReachableOk(sources, n, steps[..|steps| - 1], before);
      StepKeeps(before, steps[|steps| - 1]);
      SameSources(before, steps[|steps| - 1]);
    }
  }

  lemma SameSources(s: State, step: Step)
    requires |s.outs| == |s.heads| && Do(s, step).Some?
    ensures Do(s, step).value.sources == s.sources && |Do(s, step).value.heads| == |s.heads|
  {
  }

  lemma InitOk(sources: seq<seq<Row>>, n: nat)
    ensures Inv(Init(sources, n))
  {
    var s := Init(sources, n);
    assert s.counters.Keys - s.scanners == {};
  }

  lemma PlusCommutes(x: Stats, y: Stats, z: Stats)
    ensures x.Plus(z).Plus(y) == x.Plus(y).Plus(z) == x.Plus(y.Plus(z))
  {
  }

  lemma SumNext(ids: set<nat>, counters: map<nat, Stats>, n: nat)
    requires n > 0
    ensures SumIn(ids, counters, n) ==
            if n - 1 in ids && n - 1 in counters then SumIn(ids, counters, n - 1).Plus(counters[n - 1]) else SumIn(ids, counters, n - 1)
  {
  }

  lemma NothingYet(a: set<nat>, b: set<nat>, counters: map<nat, Stats>, n: nat)
    requires n == 0
    ensures SumIn(a, counters, n).Plus(SumIn(b, counters, n)) == SumIn(a + b, counters, n)
  {
    assert SumIn(a, counters, n) == NO_STATS;
    assert SumIn(b, counters, n) == NO_STATS;
    assert SumIn(a + b, counters, n) == NO_STATS;
    hide SumIn;
  }

  lemma {:induction false} SumSplits(a: set<nat>, b: set<nat>, counters: map<nat, Stats>, n: nat)
    requires a !! b
    ensures SumIn(a, counters, n).Plus(SumIn(b, counters, n)) == SumIn(a + b, counters, n)
  {
    hide SumIn, Combiners.ScannerStats.Plus;
    if n == 0 {
      NothingYet(a, b, counters, n);
    } else {
      SumSplits(a, b, counters, n - 1);
      SumNext(a, counters, n);
      SumNext(b, counters, n);
      SumNext(a + b, counters, n);
      assert n - 1 in a + b <==> n - 1 in a || n - 1 in b;
      assert !(n - 1 in a && n - 1 in b);
      if n - 1 in counters {
        PlusCommutes(SumIn(a, counters, n - 1), SumIn(b, counters, n - 1), counters[n - 1]);
      }
    }
  }

  /** In every state of every run the group's statistics count each opened scanner once. */
  lemma StatsCountEachScannerOnce(sources: seq<seq<Row>>, n: nat, steps: seq<Step>, s: State)
    requires Reachable(sources, n, steps, s)
    ensures s.stats.Plus(SumIn(s.scanners, s.counters, s.next)) == SumIn(s.counters.Keys, s.counters, s.next)
  {
    hide Reachable, SumIn, HeadOk, WorksOn, Combiners.ScannerStats.Plus;
    ReachableOk(sources, n, steps, s);
    var done := s.counters.Keys - s.scanners;
    assert done + s.scanners == s.counters.Keys;
    SumSplits(done, s.scanners, s.counters, s.next);
  }

  /** What a step's scanner has counted in it. */
  function CountedIn(step: Step): Stats {
    match step
    case PullBatch(_, _, delta) => delta
    case PullEnd(_, delta) => delta
    case _ => NO_STATS
  }

  function CountedBy(steps: seq<Step>): Stats {
    if steps == [] then NO_STATS else CountedBy(steps[..|steps| - 1]).Plus(CountedIn(steps[|steps| - 1]))
  }

  /** A step adds to the counters what its scanner has counted. */
  lemma StepCounts(s: State, step: Step)
    requires Inv(s) && Do(s, step).Some?
    ensures var t := Do(s, step).value;
            SumIn(t.counters.Keys, t.counters, t.next) == SumIn(s.counters.Keys, s.counters, s.next).Plus(CountedIn(step))
  {
    hide Owned, SumIn;
    HeadInRange(s, step);
    var h, t := step.head, Do(s, step).value;
    assert HeadOk(s.sources, s.owner, s.counters, s.scanners, h, s.heads[h], Flatten(s.outs[h]));
    match step {
      case Receive(_) =>
        SumNext(s.counters.Keys, s.counters, t.next);
      case Open(_) =>
        var i := s.heads[h].src;
        SumWithFresh(s.counters.Keys, s.counters, s.next, i);
        assert t.counters.Keys == s.counters.Keys + {i};
      case PullBatch(_, _, delta) =>
        SumOfCounted(s.counters.Keys, s.counters, s.next, s.heads[h].src, delta);
        assert t.counters.Keys == s.counters.Keys;
      case PullEnd(_, delta) =>
        SumOfCounted(s.counters.Keys, s.counters, s.next, s.heads[h].src, delta);
        assert t.counters.Keys == s.counters.Keys;
      case _ =>
        assert t.counters == s.counters && t.next == s.next;
    }
  }

  /** In every state of every run the group's statistics are all that its scanners have counted so far. */
  lemma {:induction false} NothingIsLost(sources: seq<seq<Row>>, n: nat, steps: seq<Step>, s: State)
    requires Reachable(sources, n, steps, s)
    ensures SumIn(s.counters.Keys, s.counters, s.next) == CountedBy(steps)
    ensures s.stats.Plus(SumIn(s.scanners, s.counters, s.next)) == CountedBy(steps)
    decreases |steps|
  {
    hide Do, SumIn, Combiners.ScannerStats.Plus, Inv;
    StatsCountEachScannerOnce(sources, n, steps, s);
    if steps == [] {
      NothingToSum(s.counters, s.next);
      assert s.counters.Keys == {};
    } else {
      var last := |steps| - 1;
      var before :| Reachable(sources, n, steps[..last], before) && |before.outs| == |before.heads| && Do(before, steps[last]) == Some(s);
      NothingIsLost(sources, n, steps[..last], before);
      ReachableOk(sources, n, steps[..last], before);
      StepCounts(before, steps[last]);
    }
  }

  /** No two heads ever have the same source. */
  lemma SourcesAreNotShared(sources: seq<seq<Row>>, n: nat, steps: seq<Step>, s: State, g: nat, h: nat)
    requires Reachable(sources, n, steps, s) && g < |s.heads| && h < |s.heads|
    requires SourceOf(s.heads[g]).Some? && SourceOf(s.heads[g]) == SourceOf(s.heads[h])
    ensures SourceOf(s.heads[g]).value < |s.owner| && g == h == s.owner[SourceOf(s.heads[g]).value]
  {
    ReachableOk(sources, n, steps, s);
    assert HeadOk(s.sources, s.owner, s.counters, s.scanners, g, s.heads[g], Flatten(s.outs[g]));
    assert HeadOk(s.sources, s.owner, s.counters, s.scanners, h, s.heads[h], Flatten(s.outs[h]));
  }

  ghost predicate AllStopped(s: State) {
    |s.heads| > 0 && forall h :: 0 <= h < |s.heads| ==> s.heads[h].Stopped?
  }

  /**
   * When all heads have stopped, every source has gone to exactly one head, each head
   * has passed on its sources in the order sent, and nothing is left to accumulate.
   */
  lemma StoppedRun(sources: seq<seq<Row>>, n: nat, steps: seq<Step>, s: State)
    requires Reachable(sources, n, steps, s) && AllStopped(s)
    ensures |s.outs| == n && |s.owner| == |sources| && !Batches.HasEmpty(s.outs)
    ensures forall h :: 0 <= h < n ==> Flatten(s.outs[h]) == Owned(sources, s.owner, h, |sources|)
    ensures s.scanners == {} && s.stats == SumIn(s.counters.Keys, s.counters, s.next)
    ensures forall i :: 0 <= i < |sources| ==> s.owner[i] < n
  {
    ReachableOk(sources, n, steps, s);
    assert s.heads[0].Stopped? && HeadOk(s.sources, s.owner, s.counters, s.scanners, 0, s.heads[0], Flatten(s.outs[0]));
    forall h | 0 <= h < n ensures Flatten(s.outs[h]) == Owned(sources, s.owner, h, |sources|) {
      assert HeadOk(s.sources, s.owner, s.counters, s.scanners, h, s.heads[h], Flatten(s.outs[h]));
    }
    forall i | 0 <= i < s.next ensures i !in s.scanners {
      assert !WorksOn(s.heads[s.owner[i]], i);
    }
    assert s.scanners == {};
    assert s.counters.Keys - s.scanners == s.counters.Keys;
  }

  // ----------------------------------------------- heads feeding parallel branches

  function Concat(sources: seq<seq<Row>>, k: nat): seq<Row>
    requires k <= |sources|
  {
    if k == 0 then [] else Concat(sources, k - 1) + sources[k - 1]
  }

  lemma {:induction false} DealtAppend(all: seq<Row>, parts: seq<seq<Row>>, h: nat, more: seq<Row>)
    requires Dealt(all, parts) && h < |parts|
    ensures Dealt(all + more, parts[h := parts[h] + more])
    decreases |all|, |more|
  {
    hide Dealt;
    var after := parts[h := parts[h] + more];
    if all != [] {
      var b := FirstDealt(all, parts);
      DealtAppend(all[1..], Popped(parts, b), h, more);
      assert (parts[b] + more)[1..] == parts[b][1..] + more;
      assert Popped(after, b) == Popped(parts, b)[h := Popped(parts, b)[h] + more];
      DealtWithFirst(all[0], all[1..] + more, after, b);
      assert all + more == [all[0]] + (all[1..] + more);
    } else {
      NoneDealt(parts);
      DealtToHead(more, after, h);
      assert all + more == more;
    }
  }

  lemma NoneDealt(parts: seq<seq<Row>>)
    requires Dealt([], parts)
    ensures forall k :: 0 <= k < |parts| ==> parts[k] == []
  {
  }

  lemma {:induction false} DealtToHead(all: seq<Row>, parts: seq<seq<Row>>, h: nat)
    requires h < |parts| && parts[h] == all && forall k :: 0 <= k < |parts| && k != h ==> parts[k] == []
    ensures Dealt(all, parts)
    decreases |all|
  {
    if all != [] {
      DealtToHead(all[1..], Popped(parts, h), h);
      assert GoesTo(all[0], parts, h);
    }
  }

  /** What the heads have received of the first `k` sources. */
  function OwnedParts(sources: seq<seq<Row>>, owner: seq<nat>, n: nat, k: nat): (r: seq<seq<Row>>)
    requires k <= |owner| && k <= |sources|
    ensures |r| == n && forall h :: 0 <= h < n ==> r[h] == Owned(sources, owner, h, k)
  {
    seq(n, h requires 0 <= h < n => Owned(sources, owner, h, k))
  }

  /** The records of all sources in order are dealt out to the heads. */
  lemma {:induction false} SourcesAreDealt(sources: seq<seq<Row>>, owner: seq<nat>, n: nat, k: nat)
    requires k <= |owner| && k <= |sources| && forall i :: 0 <= i < |owner| ==> owner[i] < n
    ensures Dealt(Concat(sources, k), OwnedParts(sources, owner, n, k))
  {
    if k > 0 {
      SourcesAreDealt(sources, owner, n, k - 1);
      var before, h := OwnedParts(sources, owner, n, k - 1), owner[k - 1];
      DealtAppend(Concat(sources, k - 1), before, h, sources[k - 1]);
      forall g | 0 <= g < n ensures Owned(sources, owner, g, k) == if g == h then before[g] + sources[k - 1] else before[g] {}
      assert OwnedParts(sources, owner, n, k) == before[h := before[h] + sources[k - 1]];
    }
  }

  /**
   * A parallelized pipeline over shared sources: for every interleaving of the heads
   * that runs to the end, the graph computes what the pipeline computes on the
   * records of all sources in order, or fails as `ParallelExactly` says.
   */
  lemma ParallelRunExactly(sources: seq<seq<Row>>, n: nat, steps: seq<Step>, s: State, procs: seq<Proc>, field: string, reverse: bool)
    requires Reachable(sources, n, steps, s) && AllStopped(s)
    requires field != "" && Plan(procs, n, field, reverse).Some? && KeepsName(procs, field)
    requires Sorted(field, reverse, Concat(sources, |sources|))
    ensures |s.outs| == n > 0
    ensures var g := Plan(procs, n, field, reverse).value;
            Batches.RunGraph(g, s.outs) ==
            if NothingToDo(procs, field) then Batches.NotCompiled
            else if n > 1 && Batches.SomeHandsEmptyBatch(procs, field, s.outs) && Batches.Asks(g.tail, Batches.MergedStream(g, s.outs).batches)
            then Batches.Panic
            else Batches.Done(Run(procs, Concat(sources, |sources|)))
  {
    hide Reachable, Do, Batches.RunGraph, Dealt, Run, KeepsName, Sorted, Batches.Asks, Batches.MergedStream, NothingToDo,
         Batches.SomeHandsEmptyBatch;
    ReachableOk(sources, n, steps, s);
    StoppedRun(sources, n, steps, s);
    SourcesAreDealt(sources, s.owner, n, |sources|);
    assert Batches.Flats(s.outs) == OwnedParts(sources, s.owner, n, |sources|);
    Batches.ParallelExactly(procs, field, reverse, Concat(sources, |sources|), s.outs);
  }

  // ------------------------------------------------------------------- every run ends

  /** Steps a head in this state has left, with the source it is busy with. */
  function HeadWork(sources: seq<seq<Row>>, st: HeadState): nat {
    match st
    case Idle => 1
    case Opening(i) => if i < |sources| then |sources[i]| + 5 else 0
    case Opened(i) => if i < |sources| then |sources[i]| + 4 else 0
    case Scanning(i, pos) => if i < |sources| && pos <= |sources[i]| then |sources[i]| - pos + 3 else 0
    case Finished(_) => 2
    case Stopped => 0
  }

  function HeadsWork(sources: seq<seq<Row>>, heads: seq<HeadState>): nat {
    if heads == [] then 0 else HeadWork(sources, heads[0]) + HeadsWork(sources, heads[1..])
  }

  /** Steps for the sources not sent yet. */
  function Unsent(sources: seq<seq<Row>>): nat {
    if sources == [] then 0 else |sources[0]| + 5 + Unsent(sources[1..])
  }

  function Work(s: State): nat
    requires s.next <= |s.sources|
  {
    Unsent(s.sources[s.next..]) + HeadsWork(s.sources, s.heads)
  }

  lemma {:induction false} WorkOfOne(sources: seq<seq<Row>>, heads: seq<HeadState>, h: nat, st: HeadState)
    requires h < |heads|
    ensures HeadsWork(sources, heads[h := st]) == HeadsWork(sources, heads) - HeadWork(sources, heads[h]) + HeadWork(sources, st)
  {
    if h > 0 {
      WorkOfOne(sources, heads[1..], h - 1, st);
      assert heads[h := st][1..] == heads[1..][h - 1 := st];
    } else {
      assert heads[h := st][1..] == heads[1..];
    }
  }

  /** Every step leaves less to do. */
  lemma StepLowersWork(s: State, step: Step)
    requires Inv(s) && Do(s, step).Some?
    ensures Do(s, step).value.next <= |s.sources| && Do(s, step).value.sources == s.sources
    ensures Work(Do(s, step).value) < Work(s)
  {
    hide HeadsWork, SumIn, Owned;
    HeadInRange(s, step);
    var h, t := step.head, Do(s, step).value;
    assert HeadOk(s.sources, s.owner, s.counters, s.scanners, h, s.heads[h], Flatten(s.outs[h]));
    WorkOfOne(s.sources, s.heads, h, t.heads[h]);
    assert t.heads == s.heads[h := t.heads[h]];
    if step.Receive? {
      assert s.sources[s.next..][1..] == s.sources[t.next..];
    }
  }

  /** A head that has not stopped can take a step, whatever the others do. */
  function NextStep(s: State, h: nat): Step
    requires h < |s.heads|
  {
    match s.heads[h]
    case Idle => if s.next < |s.sources| then Receive(h) else Stop(h)
    case Opening(_) => Open(h)
    case Opened(_) => Register(h)
    case Scanning(i, pos) => if i < |s.sources| && pos < |s.sources[i]| then PullBatch(h, 1, NO_STATS) else PullEnd(h, NO_STATS)
    case Finished(_) => DoneSource(h)
    case Stopped => Stop(h)
  }

  lemma CanStep(s: State, h: nat)
    requires Inv(s) && h < |s.heads| && !s.heads[h].Stopped?
    ensures Do(s, NextStep(s, h)).Some?
  {
    hide SumIn, Owned;
    assert HeadOk(s.sources, s.owner, s.counters, s.scanners, h, s.heads[h], Flatten(s.outs[h]));
  }

  lemma ReachableNext(sources: seq<seq<Row>>, n: nat, steps: seq<Step>, s: State, step: Step)
    requires Reachable(sources, n, steps, s) && Inv(s) && Do(s, step).Some?
    ensures Reachable(sources, n, steps + [step], Do(s, step).value)
  {
    assert (steps + [step])[..|steps|] == steps;
  }

  /** No run is longer than the work at its start. */
  lemma {:induction false} RunsAreBounded(sources: seq<seq<Row>>, n: nat, steps: seq<Step>, s: State)
    requires Reachable(sources, n, steps, s)
    ensures s.next <= |s.sources| && |steps| + Work(s) <= Work(Init(sources, n))
    decreases |steps|
  {
    hide Do, Work;
    ReachableOk(sources, n, steps, s);
    if steps != [] {
      var last := |steps| - 1;
      var before :| Reachable(sources, n, steps[..last], before) && |before.outs| == |before.heads| && Do(before, steps[last]) == Some(s);
      RunsAreBounded(sources, n, steps[..last], before);
      ReachableOk(sources, n, steps[..last], before);
      StepLowersWork(before, steps[last]);
    }
  }

  /** No run gets stuck: from every state it can be continued until all heads have stopped. */
  lemma {:induction false} EveryRunCanEnd(sources: seq<seq<Row>>, n: nat, steps: seq<Step>, s: State) returns (more: seq<Step>, end: State)
    requires n > 0 && Reachable(sources, n, steps, s)
    ensures Reachable(sources, n, steps + more, end) && AllStopped(end)
    decreases Work(Init(sources, n)) - |steps|
  {
    hide Do, Work, Reachable;
    ReachableOk(sources, n, steps, s);
    RunsAreBounded(sources, n, steps, s);
    if AllStopped(s) {
      more, end := [], s;
      assert steps + [] == steps;
    } else {
      var h :| 0 <= h < |s.heads| && !s.heads[h].Stopped?;
      var step := NextStep(s, h);
      CanStep(s, h);
      var t := Do(s, step).value;
      ReachableNext(sources, n, steps, s, step);
      RunsAreBounded(sources, n, steps + [step], t);
      more, end := EveryRunCanEnd(sources, n, steps + [step], t);
      assert steps + [step] + more == steps + ([step] + more);
      more := [step] + more;
    }
  }
}
