/** A sequence dealt out over several, each keeping the order of what it got. */
module Dealing {

  /** The parts without the head of part `b`. */
  function Popped<T>(parts: seq<seq<T>>, b: nat): seq<seq<T>>
    requires b < |parts| && parts[b] != []
  {
    parts[b := parts[b][1..]]
  }

  /** How much all parts hold together. */
  function Total<T>(parts: seq<seq<T>>): nat {
    if parts == [] then 0 else |parts[0]| + Total(parts[1..])
  }

  lemma {:induction false} TotalDrops<T>(parts: seq<seq<T>>, b: nat)
    requires b < |parts| && parts[b] != []
    ensures Total(Popped(parts, b)) == Total(parts) - 1
  {
    if b > 0 {
      TotalDrops(parts[1..], b - 1);
      assert Popped(parts, b)[1..] == Popped(parts[1..], b - 1);
    }
  }

  ghost predicate GoesTo<T>(x: T, parts: seq<seq<T>>, b: nat) {
    b < |parts| && parts[b] != [] && parts[b][0] == x
  }

  /** `all` is made by taking heads of `parts` until none is left. */
  ghost predicate Dealt<T>(all: seq<T>, parts: seq<seq<T>>)
    decreases |all|
  {
    if all == [] then forall k :: 0 <= k < |parts| ==> parts[k] == []
    else exists b: nat :: GoesTo(all[0], parts, b) && Dealt(all[1..], Popped(parts, b))
  }

  lemma FirstDealt<T>(all: seq<T>, parts: seq<seq<T>>) returns (b: nat)
    requires Dealt(all, parts) && all != []
    ensures b < |parts| && parts[b] != [] && parts[b][0] == all[0]
    ensures GoesTo(all[0], parts, b) && Dealt(all[1..], Popped(parts, b))
  {
    b :| GoesTo(all[0], parts, b) && Dealt(all[1..], Popped(parts, b));
  }

  lemma DealtWithFirst<T>(first: T, rest: seq<T>, parts: seq<seq<T>>, b: nat)
    requires GoesTo(first, parts, b) && Dealt(rest, Popped(parts, b))
    ensures Dealt([first] + rest, parts)
  {
    assert ([first] + rest)[1..] == rest;
  }
}
