/** Putting set bodies into canonical form (zng/set.go) and checking it (zng/recordval.go). */
module Sets {
  import opened Bytes
  import opened Sorting
  import opened Zcode

  // ----------------------------------------------------------------- byte order

  /** Byte strings are totally ordered. */
  lemma {:induction false} BytesLessOrder(a: ByteString, b: ByteString)
    ensures !BytesLess(a, a)
    ensures BytesLess(a, b) ==> !BytesLess(b, a)
    ensures BytesLess(a, b) || BytesLess(b, a) || a == b
  {
    if a != [] {
      BytesLessOrder(a[1..], if b == [] then [] else b[1..]);
      if b != [] {
        assert a == [a[0]] + a[1..] && b == [b[0]] + b[1..];
      }
    }
  }

  lemma {:induction false} BytesLessTransitive(a: ByteString, b: ByteString, c: ByteString)
    requires BytesLess(a, b) && BytesLess(b, c)
    ensures BytesLess(a, c)
  {
    if a != [] && a[0] == b[0] == c[0] {
      BytesLessTransitive(a[1..], b[1..], c[1..]);
    }
  }

  function ElementLess(): (ByteString, ByteString) -> bool {
    (a: ByteString, b: ByteString) => BytesLess(a, b)
  }

  lemma ElementsAreOrdered()
    ensures Orders(ElementLess())
  {
    var less := ElementLess();
    forall a, b | less(a, b) ensures !less(b, a) {
      BytesLessOrder(a, b);
    }
    forall a, b, c | !less(b, a) && !less(c, b) ensures !less(c, a) {
      BytesLessOrder(a, b);
      BytesLessOrder(b, c);
      BytesLessOrder(a, c);
      if BytesLess(a, b) && BytesLess(b, c) {
        BytesLessTransitive(a, b, c);
      }
    }
  }

  // ------------------------------------------------------------------- elements

  /** The elements of a set body, tags on. */
  function Elements(zv: ByteString): Option<seq<ByteString>> {
    if zv == [] then Some([])
    else
      match StepOf(zv)
      case Item(_, _, tagged, rest) =>
        (match Elements(rest)
         case Some(es) => Some([tagged] + es)
         case None => None)
      case _ => None
  }

  /** A complete element on its own. */
  ghost predicate IsElement(e: ByteString) {
    e != [] && StepOf(e).Item? && StepOf(e).rest == []
  }

  lemma {:induction false} DecodeLocal(buf: ByteString, i: nat, more: ByteString)
    requires DecodeFrom(buf, i).Decoded?
    ensures DecodeFrom(buf, i).size <= |buf| && DecodeFrom(buf[..DecodeFrom(buf, i).size] + more, i) == DecodeFrom(buf, i)
    decreases |buf|
  {
    var size := DecodeFrom(buf, i).size;
    var short := buf[..size] + more;
    if buf[0] >= 128 {
      DecodeLocal(buf[1..], i + 1, more);
      assert short[1..] == buf[1..][..size - 1] + more;
    }
  }

  /** An element reads the same whatever follows it. */
  lemma ElementStandsAlone(buf: ByteString, more: ByteString)
    requires StepOf(buf).Item?
    ensures var s := StepOf(buf); StepOf(s.tagged + more) == Item(s.body, s.container, s.tagged, more)
    ensures IsElement(StepOf(buf).tagged)
  {
    var s := StepOf(buf);
    var n := DecodeUvarint(buf).size;
    assert buf == s.tagged + s.rest;
    forall after: ByteString ensures StepOf(s.tagged + after) == Item(s.body, s.container, s.tagged, after) {
      var t := s.tagged + after;
      DecodeLocal(buf, 0, t[n..]);
      assert t == buf[..n] + t[n..];
      if s.body.Some? {
        var end := |s.tagged|;
        assert t[n..end] == buf[n..end] && t[..end] == buf[..end] && t[end..] == after;
      } else {
        assert t[..n] == buf[..n] && t[n..] == after;
      }
    }
    assert s.tagged + [] == s.tagged;
  }

  lemma {:induction false} ElementsAreElements(zv: ByteString)
    requires Elements(zv).Some?
    ensures forall k :: 0 <= k < |Elements(zv).value| ==> IsElement(Elements(zv).value[k])
    ensures Flatten(Elements(zv).value) == zv
    decreases |zv|
  {
    if zv != [] {
      var s := StepOf(zv);
      ElementStandsAlone(zv, []);
      ElementsAreElements(s.rest);
      assert Elements(zv).value[1..] == Elements(s.rest).value;
    }
  }

  /** Elements put one after the other are read back as they are. */
  lemma {:induction false} ElementsOfFlatten(es: seq<ByteString>)
    requires forall k :: 0 <= k < |es| ==> IsElement(es[k])
    ensures Elements(Flatten(es)) == Some(es)
    decreases |es|
  {
    if es != [] {
      var rest := Flatten(es[1..]);
      ElementsOfFlatten(es[1..]);
      assert StepOf(es[0]).tagged + [] == es[0];
      assert StepOf(es[0]).tagged == es[0];
      ElementStandsAlone(es[0], rest);
      assert es == [es[0]] + es[1..];
    }
  }

  // -------------------------------------------------------------- normalization

  /** Each element is greater than the one before it. */
  ghost predicate Increasing(es: seq<ByteString>) {
    forall i, j :: 0 <= i < j < |es| ==> BytesLess(es[i], es[j])
  }

  /** The first `n` elements of a sorted list without repetitions. */
  function Distinct(es: seq<ByteString>, n: nat): seq<ByteString>
    requires n <= |es|
  {
    if n == 0 then []
    else Distinct(es, n - 1) + if n >= 2 && es[n - 1] == es[n - 2] then [] else [es[n - 1]]
  }

  lemma {:induction false} DistinctIs(es: seq<ByteString>, n: nat)
    requires n <= |es| && Sorted(es, ElementLess())
    ensures Increasing(Distinct(es, n))
    ensures forall e :: e in Distinct(es, n) <==> e in es[..n]
    ensures n > 0 ==> Distinct(es, n) != [] && Distinct(es, n)[|Distinct(es, n)| - 1] == es[n - 1]
  {
    if n > 0 {
      DistinctIs(es, n - 1);
      var front, x := Distinct(es, n - 1), es[n - 1];
      assert es[..n] == es[..n - 1] + [x];
      if n == 1 || x != es[n - 2] {
        forall i | 0 <= i < |front| ensures BytesLess(front[i], x) {
          LastIsGreatest(es, n, front, i);
        }
      }
    }
  }

  lemma LastIsGreatest(es: seq<ByteString>, n: nat, front: seq<ByteString>, i: nat)
    requires 2 <= n <= |es| && Sorted(es, ElementLess()) && es[n - 1] != es[n - 2]
    requires i < |front| && Increasing(front) && front[|front| - 1] == es[n - 2]
    ensures BytesLess(front[i], es[n - 1])
  {
    assert !ElementLess()(es[n - 1], es[n - 2]);
    BytesLessOrder(es[n - 2], es[n - 1]);
    if i < |front| - 1 {
      BytesLessTransitive(front[i], es[n - 2], es[n - 1]);
    }
  }

  /** The canonical list of these elements. */
  function Normal(es: seq<ByteString>): seq<ByteString> {
    var sorted := Sort(es, ElementLess());
    Distinct(sorted, |sorted|)
  }

  lemma NormalIs(es: seq<ByteString>)
    ensures Increasing(Normal(es)) && forall e :: e in Normal(es) <==> e in es
  {
    var sorted := Sort(es, ElementLess());
    ElementsAreOrdered();
    SortSorted(es, ElementLess());
    DistinctIs(sorted, |sorted|);
    assert sorted[..|sorted|] == sorted;
    forall e ensures e in sorted <==> e in es {
      assert e in sorted <==> e in multiset(sorted);
      assert e in es <==> e in multiset(es);
    }
  }

  lemma NormalOfFew(es: seq<ByteString>)
    requires |es| < 2
    ensures Normal(es) == es
  {
    var sorted := Sort(es, ElementLess());
    if |es| == 1 {
      assert sorted == es by {
        assert es[1..] == [] && Sort([], ElementLess()) == [];
        assert Sort(es, ElementLess()) == Insert(es[0], [], ElementLess());
      }
      assert Distinct(sorted, 1) == Distinct(sorted, 0) + [sorted[0]];
    }
  }

  /** Sorts the elements of a set body and drops the duplicates. */
  method NormalizeSet(zv: ByteString) returns (norm: ByteString)
    requires Elements(zv).Some?
    ensures norm == Flatten(Normal(Elements(zv).value))
  {
    hide Elements, Flatten, Normal;
    var elements := ReadElements(zv);
    ElementsAreElements(zv);
    if |elements| < 2 {
      NormalOfFew(elements);
      return zv;
    }
    var sorted := Sort(elements, ElementLess());
    assert |multiset(sorted)| == |multiset(elements)|;
    norm := WithoutDuplicates(sorted);
    assert Normal(elements) == Distinct(sorted, |sorted|) by {
      NormalUnfolds(elements);
    }
  }

  lemma NormalUnfolds(es: seq<ByteString>)
    ensures Normal(es) == Distinct(Sort(es, ElementLess()), |Sort(es, ElementLess())|)
  {
  }

  method ReadElements(zv: ByteString) returns (elements: seq<ByteString>)
    requires Elements(zv).Some?
    ensures elements == Elements(zv).value
  {
    hide StepOf;
    elements := [];
    var it := new Iter(zv);
    while !it.Done()
      invariant Elements(it.buf).Some? && Elements(zv).value == elements + Elements(it.buf).value
      decreases |it.buf|
    {
      ghost var rest := Elements(it.buf).value;
      var elem := it.NextTagAndBody();
      assert rest == [elem.value.0] + Elements(it.buf).value;
      ConcatAssociative(elements, [elem.value.0], Elements(it.buf).value);
      elements := elements + [elem.value.0];
    }
  }

  method WithoutDuplicates(sorted: seq<ByteString>) returns (norm: ByteString)
    requires |sorted| > 0
    ensures norm == Flatten(Distinct(sorted, |sorted|))
  {
    hide Flatten;
    norm := sorted[0];
    FlattenOne(sorted[0]);
    assert Distinct(sorted, 1) == Distinct(sorted, 0) + [sorted[0]] == [sorted[0]];
    for i := 1 to |sorted|
      invariant norm == Flatten(Distinct(sorted, i))
    {
      assert Distinct(sorted, i + 1) == Distinct(sorted, i) + if sorted[i] == sorted[i - 1] then [] else [sorted[i]];
      if sorted[i] != sorted[i - 1] {
        FlattenAppend(Distinct(sorted, i), [sorted[i]]);
        FlattenOne(sorted[i]);
        norm := norm + sorted[i];
      } else {
        assert Distinct(sorted, i) + [] == Distinct(sorted, i);
      }
    }
  }

  lemma FlattenOne(e: ByteString)
    ensures Flatten([e]) == e
  {
    assert [e][1..] == [];
  }

  /** The result is an increasing set body with the same elements. */
  lemma NormalizedIsIncreasing(zv: ByteString)
    requires Elements(zv).Some?
    ensures var norm := Elements(Flatten(Normal(Elements(zv).value)));
            norm.Some? && Increasing(norm.value) && forall e :: e in norm.value <==> e in Elements(zv).value
  {
    var es := Elements(zv).value;
    NormalIs(es);
    ElementsAreElements(zv);
    forall k | 0 <= k < |Normal(es)| ensures IsElement(Normal(es)[k]) {
      assert Normal(es)[k] in es;
    }
    ElementsOfFlatten(Normal(es));
  }

  /** There is one increasing list of any set of elements. */
  lemma {:induction false} IncreasingIsUnique(a: seq<ByteString>, b: seq<ByteString>)
    requires Increasing(a) && Increasing(b) && forall e :: e in a <==> e in b
    ensures a == b
    decreases |a|
  {
    if a != [] && b != [] {
      LeastFirst(a, b);
      LeastFirst(b, a);
      BytesLessOrder(a[0], b[0]);
      forall e ensures e in a[1..] <==> e in b[1..] {
        WithoutFirst(a, e);
        WithoutFirst(b, e);
      }
      IncreasingIsUnique(a[1..], b[1..]);
      assert a == [a[0]] + a[1..] && b == [b[0]] + b[1..];
    } else {
      HasElement(a);
      HasElement(b);
    }
  }

  lemma HasElement(es: seq<ByteString>)
    ensures es == [] || exists e :: e in es
  {
    if es != [] {
      assert es[0] in es;
    }
  }

  lemma LeastFirst(a: seq<ByteString>, b: seq<ByteString>)
    requires Increasing(a) && a != [] && b != [] && b[0] in a
    ensures !BytesLess(b[0], a[0])
  {
    var i :| 0 <= i < |a| && a[i] == b[0];
    BytesLessOrder(a[0], a[i]);
  }

  lemma WithoutFirst(a: seq<ByteString>, e: ByteString)
    requires Increasing(a) && a != []
    ensures e in a[1..] <==> e in a && e != a[0]
  {
    BytesLessOrder(a[0], a[0]);
    assert a == [a[0]] + a[1..];
    forall i | 0 <= i < |a[1..]| ensures a[1..][i] != a[0] {
      assert BytesLess(a[0], a[i + 1]);
    }
  }

  /** Two bodies with the same elements normalize to the same bytes, and normalizing again changes nothing. */
  lemma NormalizationIsCanonical(x: ByteString, y: ByteString)
    requires Elements(x).Some? && Elements(y).Some?
    requires forall e :: e in Elements(x).value <==> e in Elements(y).value
    ensures Flatten(Normal(Elements(x).value)) == Flatten(Normal(Elements(y).value))
    ensures Elements(Flatten(Normal(Elements(x).value))).Some?
    ensures Flatten(Normal(Elements(Flatten(Normal(Elements(x).value))).value)) == Flatten(Normal(Elements(x).value))
  {
    var nx, ny := Normal(Elements(x).value), Normal(Elements(y).value);
    NormalIs(Elements(x).value);
    NormalIs(Elements(y).value);
    IncreasingIsUnique(nx, ny);
    NormalizedIsIncreasing(x);
    var again := Elements(Flatten(nx)).value;
    NormalIs(again);
    IncreasingIsUnique(Normal(again), nx);
  }

  // --------------------------------------------------------------------- checking

  datatype SetError = NotPrimitive | Duplicate | NotSorted | Malformed | Overrun

  /** No element is a container. */
  ghost predicate AllPrimitive(es: seq<ByteString>) {
    forall k :: 0 <= k < |es| ==> StepOf(es[k]).Item? && !StepOf(es[k]).container
  }

  /** Three-way comparison of byte strings. */
  function CompareBytes(a: ByteString, b: ByteString): int {
    if a == b then 0 else if BytesLess(a, b) then -1 else 1
  }

  /** The body of a set is well formed and its elements are primitive and increasing. */
  ghost predicate GoodSet(body: ByteString) {
    Elements(body).Some? && AllPrimitive(Elements(body).value) && Increasing(Elements(body).value)
  }

  /**
   * Accepts an unset body and, for primitive elements, exactly the bodies that are well
   * formed with primitive and increasing elements.  `Overrun` is a slice out of range.
   */
  method CheckSet(innerIsContainer: bool, body: Option<ByteString>) returns (r: Result<(), SetError>)
    ensures r.Ok? <==> body.None? || (!innerIsContainer && GoodSet(body.value))
    ensures r.Err? && (r.error.Malformed? || r.error.Overrun?) ==> body.Some? && Elements(body.value).None?
  {
    if body.None? {
      return Ok(());
    }
    if innerIsContainer {
      return Err(NotPrimitive);
    }
    hide StepOf, BytesLess, Increasing, AllPrimitive, Elements, CompareBytes;
    var it := new Iter(body.value);
    ghost var seen: seq<ByteString> := [];
    var prev: Option<ByteString> := None;
    NothingSeen(body.value);
    while !it.Done()
      invariant CheckedSoFar(body.value, it.buf, seen)
      invariant prev == if seen == [] then None else Some(seen[|seen| - 1])
      decreases |it.buf|
    {
      NextElement(body.value, it.buf, seen);
      if StepOf(it.buf).Panic? {
        return Err(Overrun);
      }
      var next := it.NextTagAndBody();
      if next.Err? {
        return Err(Malformed);
      }
      var elem := next.value.0;
      if next.value.1 && elem[0] != 0 {
        return Err(NotPrimitive);
      }
      if prev.Some? {
        ComparedWithLast(prev.value, elem);
        var cmp := CompareBytes(prev.value, elem);
        if cmp == 0 {
          return Err(Duplicate);
        }
        if cmp == 1 {
          return Err(NotSorted);
        }
      }
      seen := seen + [elem];
      prev := Some(elem);
    }
    AllSeen(body.value, seen);
    r := Ok(());
  }

  /** The elements passed over are primitive and increasing; the body is well formed if the rest is. */
  ghost predicate CheckedSoFar(body: ByteString, buf: ByteString, seen: seq<ByteString>) {
    && AllPrimitive(seen) && Increasing(seen)
    && match Elements(buf)
       case Some(es) => Elements(body) == Some(seen + es)
       case None => Elements(body) == None
  }

  lemma NothingSeen(body: ByteString)
    ensures CheckedSoFar(body, body, [])
  {
    if Elements(body).Some? {
      assert [] + Elements(body).value == Elements(body).value;
    }
  }

  lemma AllSeen(body: ByteString, seen: seq<ByteString>)
    requires CheckedSoFar(body, [], seen)
    ensures GoodSet(body)
  {
    assert seen + [] == seen;
  }

  lemma ComparedWithLast(last: ByteString, e: ByteString)
    ensures CompareBytes(last, e) in {-1, 0, 1} && (CompareBytes(last, e) == -1 <==> BytesLess(last, e))
  {
    BytesLessOrder(last, e);
  }

  /** What the next element means for the whole body. */
  lemma NextElement(body: ByteString, buf: ByteString, seen: seq<ByteString>)
    requires CheckedSoFar(body, buf, seen) && buf != []
    ensures var s := StepOf(buf);
            if !s.Item? then Elements(body).None?
            else
              && s.tagged != []
              && (s.container && s.tagged[0] != 0 ==> !GoodSet(body))
              && (seen != [] && !BytesLess(seen[|seen| - 1], s.tagged) ==> !GoodSet(body))
              && ((s.container ==> s.tagged[0] == 0) && (seen == [] || BytesLess(seen[|seen| - 1], s.tagged)) ==>
                    CheckedSoFar(body, s.rest, seen + [s.tagged]))
  {
    var s := StepOf(buf);
    if s.Item? {
      StepAlone(buf);
      hide StepOf, BytesLess;
      if Elements(buf).Some? {
        var all := Elements(body).value;
        assert Elements(buf).value == [s.tagged] + Elements(s.rest).value;
        assert all[|seen|] == s.tagged && (seen != [] ==> all[|seen| - 1] == seen[|seen| - 1]);
        ConcatAssociative(seen, [s.tagged], Elements(s.rest).value);
      }
      if seen == [] || BytesLess(seen[|seen| - 1], s.tagged) {
        IncreasingSnoc(seen, s.tagged);
      }
    }
  }

  lemma StepAlone(buf: ByteString)
    requires StepOf(buf).Item?
    ensures var s := StepOf(buf);
            s.tagged != [] && StepOf(s.tagged).Item? && StepOf(s.tagged).container == s.container
            && (s.container ==> s.tagged[0] != 0)
  {
    ElementStandsAlone(buf, []);
    assert StepOf(buf).tagged + [] == StepOf(buf).tagged;
    ContainerTagIsOdd(StepOf(buf).tagged);
  }

  /** The tag of a container does not start with a zero byte. */
  lemma ContainerTagIsOdd(e: ByteString)
    requires StepOf(e).Item? && e != []
    ensures StepOf(e).container ==> e[0] != 0
  {
  }

  lemma IncreasingSnoc(seen: seq<ByteString>, e: ByteString)
    requires Increasing(seen) && (seen != [] ==> BytesLess(seen[|seen| - 1], e))
    ensures Increasing(seen + [e])
  {
    forall i | 0 <= i < |seen| ensures BytesLess(seen[i], e) {
      if i < |seen| - 1 {
        BytesLessTransitive(seen[i], seen[|seen| - 1], e);
      }
    }
  }

  /** Normalized primitive elements pass the check. */
  lemma NormalizedPasses(zv: ByteString)
    requires Elements(zv).Some? && AllPrimitive(Elements(zv).value)
    ensures var norm := Elements(Flatten(Normal(Elements(zv).value)));
            norm.Some? && AllPrimitive(norm.value) && Increasing(norm.value)
  {
    NormalizedIsIncreasing(zv);
    var norm := Elements(Flatten(Normal(Elements(zv).value))).value;
    forall k | 0 <= k < |norm| ensures StepOf(norm[k]).Item? && !StepOf(norm[k]).container {
      assert norm[k] in Elements(zv).value;
    }
  }
}
