/**
 * UTF-8 decoding (section 3 of RFC 3629, with the replacement rune for bytes
 * that do not decode) and the case-insensitive comparison built on it.
 *
 * Simple case folding is a parameter: `fold` sends a rune to the representative
 * of its folding orbit.
 */
module Utf8 {
  import opened Bytes
  import opened StringSearch

  const RUNE_SELF := 0x80
  const RUNE_ERROR := 0xFFFD

  predicate InRange(b: int, lo: int, hi: int) { lo <= b <= hi }

  /** The first rune of `s` and how many bytes it takes; an undecodable byte takes one. */
  function DecodeRune(s: ByteString): (r: (int, nat))
    requires |s| > 0
    ensures 1 <= r.1 <= |s| && r.1 <= 4
    ensures s[0] < RUNE_SELF <==> r.0 < RUNE_SELF
    ensures s[0] < RUNE_SELF ==> r == (s[0], 1)
    ensures s[0] >= RUNE_SELF && r.1 == 1 ==> r.0 == RUNE_ERROR
    ensures r.1 > 1 ==> forall i :: 0 <= i < r.1 ==> s[i] >= RUNE_SELF
  {
    var b: int := s[0];
    var c1: int := if |s| >= 2 then s[1] else 0;
    var c2: int := if |s| >= 3 then s[2] else 0;
    var c3: int := if |s| >= 4 then s[3] else 0;
    if b < 0x80 then (b, 1)
    else if 0xC2 <= b <= 0xDF && InRange(c1, 0x80, 0xBF) then
      ((b - 0xC0) * 64 + (c1 - 0x80), 2)
    else if 0xE0 <= b <= 0xEF
            && InRange(c1, if b == 0xE0 then 0xA0 else 0x80, if b == 0xED then 0x9F else 0xBF)
            && InRange(c2, 0x80, 0xBF) then
      ((b - 0xE0) * 4096 + (c1 - 0x80) * 64 + (c2 - 0x80), 3)
    else if 0xF0 <= b <= 0xF4
            && InRange(c1, if b == 0xF0 then 0x90 else 0x80, if b == 0xF4 then 0x8F else 0xBF)
            && InRange(c2, 0x80, 0xBF) && InRange(c3, 0x80, 0xBF) then
      ((b - 0xF0) * 262144 + (c1 - 0x80) * 4096 + (c2 - 0x80) * 64 + (c3 - 0x80), 4)
    else (RUNE_ERROR, 1)
  }

  /** A rune that has an encoding: no surrogate, and not too large. */
  predicate Scalar(r: int) { 0 <= r < 0xD800 || 0xE000 <= r <= 0x10FFFF }

  /** The UTF-8 encoding of a rune. */
  function EncodeRune(r: int): (s: ByteString)
    requires Scalar(r)
    ensures 1 <= |s| <= 4
  {
    if r < 0x80 then [r]
    else if r < 0x800 then [0xC0 + r / 64, 0x80 + r % 64]
    else if r < 0x10000 then [0xE0 + r / 4096, 0x80 + r / 64 % 64, 0x80 + r % 64]
    else [0xF0 + r / 262144, 0x80 + r / 4096 % 64, 0x80 + r / 64 % 64, 0x80 + r % 64]
  }

  /** Decoding gives back every rune that has an encoding, whatever follows. */
  lemma DecodeOfEncoded(r: int, rest: ByteString)
    requires Scalar(r)
    ensures DecodeRune(EncodeRune(r) + rest) == (r, |EncodeRune(r)|)
  {
    var s := EncodeRune(r) + rest;
    assert forall k :: 0 <= k < |EncodeRune(r)| ==> s[k] == EncodeRune(r)[k];
    ThreeGroups(r);
  }

  lemma DecodeStart(r: int, s: ByteString)
    requires Scalar(r) && EncodeRune(r) <= s
    ensures DecodeRune(s) == (r, |EncodeRune(r)|)
  {
    var rest := s[|EncodeRune(r)|..];
    assert s == EncodeRune(r) + rest;
    DecodeOfEncoded(r, rest);
  }

  /** A number is put together from its groups of six bits. */
  lemma ThreeGroups(r: int)
    requires r >= 0
    ensures r / 64 == r / 4096 * 64 + r / 64 % 64 && r / 4096 == r / 262144 * 64 + r / 4096 % 64
  {
    assert r / 64 / 64 == r / 4096 && r / 4096 / 64 == r / 262144;
  }

  /** What is decoded stood there encoded; U+FFFD with one byte means that no rune did. */
  lemma DecodedIsEncoded(s: ByteString)
    requires |s| > 0
    ensures var (r, n) := DecodeRune(s);
            if n > 1 || s[0] < 0x80 then Scalar(r) && s[..n] == EncodeRune(r)
            else r == 0xFFFD && forall q :: Scalar(q) ==> !(EncodeRune(q) <= s)
  {
    var (r, n) := DecodeRune(s);
    if n > 1 || s[0] < 0x80 {
      DecodedBytes(s);
    } else {
      forall q | Scalar(q) ensures !(EncodeRune(q) <= s) {
        if EncodeRune(q) <= s {
          DecodeStart(q, s);
        }
      }
    }
  }

  lemma DecodedBytes(s: ByteString)
    requires |s| > 0 && (DecodeRune(s).1 > 1 || s[0] < 0x80)
    ensures var (r, n) := DecodeRune(s); Scalar(r) && s[..n] == EncodeRune(r)
  {
    var (r, n) := DecodeRune(s);
    var b: seq<int> := seq(n, k requires 0 <= k < n => s[k]);
    if n == 2 {
      Groups(b[0] - 0xC0, b[1] - 0x80);
    } else if n == 3 {
      Groups(b[0] - 0xE0, b[1] - 0x80);
      Groups((b[0] - 0xE0) * 64 + (b[1] - 0x80), b[2] - 0x80);
      assert r / 4096 == r / 64 / 64;
    } else if n == 4 {
      Groups(b[0] - 0xF0, b[1] - 0x80);
      Groups((b[0] - 0xF0) * 64 + (b[1] - 0x80), b[2] - 0x80);
      Groups((b[0] - 0xF0) * 4096 + (b[1] - 0x80) * 64 + (b[2] - 0x80), b[3] - 0x80);
      assert r / 4096 == r / 64 / 64 && r / 262144 == r / 4096 / 64;
    }
  }

  lemma Groups(a: int, b: int)
    requires 0 <= a && 0 <= b < 64
    ensures (a * 64 + b) / 64 == a && (a * 64 + b) % 64 == b
  {
  }

  ghost predicate Ascii(s: ByteString) {
    forall i :: 0 <= i < |s| ==> s[i] < RUNE_SELF
  }

  /** Rune by rune comparison of folding orbits. */
  ghost predicate EqualFold(s: ByteString, t: ByteString, fold: int -> int)
    decreases |s|
  {
    if |s| == 0 || |t| == 0 then |s| == |t|
    else
      var (r, n) := DecodeRune(s);
      var (q, m) := DecodeRune(t);
      fold(r) == fold(q) && EqualFold(s[n..], t[m..], fold)
  }

  /** What is used of Unicode folding: ASCII folds as ASCII, and U+FFFD folds to no ASCII rune. */
  ghost predicate FoldsAscii(fold: int -> int) {
    && (forall a: int, b: int :: 0 <= a < RUNE_SELF && 0 <= b < RUNE_SELF ==>
          (fold(a) == fold(b) <==> SameLetter(a, b)))
    && (forall a: int :: 0 <= a < RUNE_SELF ==> fold(a) != fold(RUNE_ERROR))
  }

  lemma {:induction false} TooFewBytesNeverFold(s: ByteString, t: ByteString, fold: int -> int)
    requires Ascii(t) && |s| < |t|
    ensures !EqualFold(s, t, fold)
    decreases |s|
  {
    if |s| > 0 {
      var (r, n) := DecodeRune(s);
      assert DecodeRune(t) == (t[0], 1);
      TooFewBytesNeverFold(s[n..], t[1..], fold);
    }
  }

  /**
   * Against an ASCII pattern of the same length in bytes, Unicode folding says no
   * more than ASCII lower-casing: a wider rune that folds to an ASCII letter
   * leaves too few bytes for the rest.
   */
  lemma {:induction false} EqualFoldIsAsciiLower(s: ByteString, t: ByteString, fold: int -> int)
    requires FoldsAscii(fold) && Ascii(t) && |s| == |t|
    ensures EqualFold(s, t, fold) <==> LowerAll(s) == LowerAll(t)
    decreases |s|
  {
    if |s| > 0 {
      var (r, n) := DecodeRune(s);
      LowerEqualCons(s, t);
      FirstRune(s, t, fold);
      if n > 1 {
        TooFewBytesNeverFold(s[n..], t[1..], fold);
      } else {
        EqualFoldIsAsciiLower(s[1..], t[1..], fold);
      }
    }
  }

  /** How the first runes compare when the second string starts with an ASCII byte. */
  lemma FirstRune(s: ByteString, t: ByteString, fold: int -> int)
    requires FoldsAscii(fold) && |s| > 0 && |t| > 0 && t[0] < RUNE_SELF
    ensures DecodeRune(t) == (t[0], 1)
    ensures DecodeRune(s).1 > 1 ==> ToLower(s[0]) != ToLower(t[0])
    ensures DecodeRune(s).1 == 1 ==>
              (fold(DecodeRune(s).0) == fold(t[0]) <==> ToLower(s[0]) == ToLower(t[0]))
  {
    assert s[0] >= RUNE_SELF ==> ToLower(s[0]) == s[0] && ToLower(t[0]) < RUNE_SELF;
    SameLetterIsSameLower(s[0], t[0]);
  }

  lemma LowerEqualCons(s: ByteString, t: ByteString)
    requires |s| == |t| > 0
    ensures LowerAll(s) == LowerAll(t) <==>
            ToLower(s[0]) == ToLower(t[0]) && LowerAll(s[1..]) == LowerAll(t[1..])
  {
    var a, b, c, d := LowerAll(s), LowerAll(t), LowerAll(s[1..]), LowerAll(t[1..]);
    assert a == [ToLower(s[0])] + c;
    assert b == [ToLower(t[0])] + d;
    assert a[1..] == c && b[1..] == d;
  }

  /** The window of `a` at `i` folds to `b`. */
  ghost predicate FoldsAt(a: ByteString, b: ByteString, fold: int -> int, i: int) {
    0 <= i <= |a| - |b| && EqualFold(a[i..i + |b|], b, fold)
  }

  /** Some window of `a` as long as `b` folds to `b`. */
  ghost predicate FoldOccurs(a: ByteString, b: ByteString, fold: int -> int) {
    exists i :: FoldsAt(a, b, fold, i)
  }

  method CompareFold(s: ByteString, t: ByteString, fold: int -> int) returns (eq: bool)
    ensures eq <==> EqualFold(s, t, fold)
  {
    var a, b := s, t;
    while |a| > 0 && |b| > 0
      invariant EqualFold(s, t, fold) <==> EqualFold(a, b, fold)
      decreases |a|
    {
      var (r, n) := DecodeRune(a);
      var (q, m) := DecodeRune(b);
      if fold(r) != fold(q) {
        return false;
      }
      a, b := a[n..], b[m..];
    }
    eq := |a| == |b|;
  }

  /** Case-insensitive substring test (filter/filter.go). */
  method SearchFold(a: ByteString, b: ByteString, fold: int -> int) returns (found: bool)
    ensures found <==> FoldOccurs(a, b, fold)
  {
    if |b| > |a| {
      return false;
    }
    var end := |a| - |b| + 1;
    var i := 0;
    while i < end
      invariant 0 <= i <= end
      invariant forall k :: k < i ==> !FoldsAt(a, b, fold, k)
    {
      var eq := CompareFold(a[i..i + |b|], b, fold);
      assert eq <==> FoldsAt(a, b, fold, i);
      if eq {
        return true;
      }
      i := i + 1;
    }
    found := false;
  }

  /** For an ASCII pattern the slow search and a search of lower-cased bytes agree. */
  lemma FoldOccursIsLowerOccurs(a: ByteString, b: ByteString, fold: int -> int)
    requires FoldsAscii(fold) && Ascii(b)
    ensures FoldOccurs(a, b, fold) <==> Occurs(LowerAll(b), LowerAll(a))
  {
    forall i | 0 <= i <= |a| - |b|
      ensures FoldsAt(a, b, fold, i) <==> OccursAt(LowerAll(b), LowerAll(a), i)
    {
      EqualFoldIsAsciiLower(a[i..i + |b|], b, fold);
      var w := LowerAll(a[i..i + |b|]);
      if OccursAt(LowerAll(b), LowerAll(a), i) {
        assert w == LowerAll(b);
      }
      if w == LowerAll(b) {
        forall k | 0 <= k < |b| ensures LowerAll(a)[i + k] == LowerAll(b)[k] {
          assert w[k] == LowerAll(b)[k];
        }
      }
    }
  }
}
