/** Bytes, byte strings and the small result types shared by every module. */
module Bytes {

  type Byte = b: int | 0 <= b < 256

  type ByteString = seq<Byte>

  datatype Option<+T> = None | Some(value: T) {
    function GetOr(default: T): T {
      if Some? then value else default
    }
  }

  /** Lexicographic order of byte strings. */
  predicate BytesLess(a: ByteString, b: ByteString) {
    if b == [] then false
    else if a == [] then true
    else a[0] < b[0] || (a[0] == b[0] && BytesLess(a[1..], b[1..]))
  }

  /** The strings are the same before byte `i`, where `a` has ended or has the smaller byte. */
  ghost predicate BeforeAt(a: ByteString, b: ByteString, i: nat) {
    i <= |a| && i < |b| && a[..i] == b[..i] && (i == |a| || a[i] < b[i])
  }

  /** `a` is a proper prefix of `b` or has the smaller byte where they first differ. */
  ghost predicate ComesBefore(a: ByteString, b: ByteString) {
    exists i: nat :: BeforeAt(a, b, i)
  }

  lemma {:induction false} LessIsBefore(a: ByteString, b: ByteString)
    ensures BytesLess(a, b) <==> ComesBefore(a, b)
  {
    if a != [] && b != [] && a[0] == b[0] {
      LessIsBefore(a[1..], b[1..]);
      if i: nat :| BeforeAt(a[1..], b[1..], i) {
        assert a[..i + 1] == [a[0]] + a[1..][..i] && b[..i + 1] == [b[0]] + b[1..][..i];
        assert BeforeAt(a, b, i + 1);
      }
      if i: nat :| BeforeAt(a, b, i) {
        assert a[..i][1..] == a[1..][..i - 1] && b[..i][1..] == b[1..][..i - 1];
        assert BeforeAt(a[1..], b[1..], i - 1);
      }
    } else if a != [] && b != [] {
      assert forall i: nat :: 0 < i <= |a| && i < |b| ==> a[..i][0] == a[0] && b[..i][0] == b[0];
      if a[0] < b[0] {
        assert BeforeAt(a, b, 0);
      }
    } else if b != [] {
      assert BeforeAt(a, b, 0);
    }
  }

  lemma ConcatAssociative<T>(a: seq<T>, b: seq<T>, c: seq<T>)
    ensures a + b + c == a + (b + c)
  {
  }

  /** Sequences one after another. */
  function Flatten<T>(parts: seq<seq<T>>): seq<T> {
    if parts == [] then [] else parts[0] + Flatten(parts[1..])
  }

  lemma {:induction false} FlattenAppend<T>(a: seq<seq<T>>, b: seq<seq<T>>)
    ensures Flatten(a + b) == Flatten(a) + Flatten(b)
  {
    if a == [] {
      assert a + b == b;
    } else {
      FlattenAppend(a[1..], b);
      assert (a + b)[1..] == a[1..] + b;
      ConcatAssociative(a[0], Flatten(a[1..]), Flatten(b));
    }
  }

  datatype Result<+T, +E> = Ok(value: T) | Err(error: E)
}
