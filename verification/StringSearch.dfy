/**
 * Boyer-Moore search (filter/search.go): the two skip tables, the loops that
 * fill them in place, and the two search loops that jump by them.
 *
 * The meaning of a search is `FirstOccurrence`; the meaning of an entry of the
 * good-suffix table is `LeastShift`.  Neither mentions how the tables are built.
 */
module StringSearch {
  import opened Bytes

  // ---------------------------------------------------------------- meaning

  /** `pattern` occurs in `text` starting at index `q`. */
  ghost predicate OccursAt(pattern: ByteString, text: ByteString, q: int) {
    0 <= q && q + |pattern| <= |text|
    && forall k :: 0 <= k < |pattern| ==> text[q + k] == pattern[k]
  }

  ghost predicate Occurs(pattern: ByteString, text: ByteString) {
    exists q :: OccursAt(pattern, text, q)
  }

  /** `r` is the least index at which `pattern` occurs, or -1 if there is none. */
  ghost predicate FirstOccurrence(pattern: ByteString, text: ByteString, r: int) {
    if r == -1 then !Occurs(pattern, text)
    else OccursAt(pattern, text, r) && forall q :: q < r ==> !OccursAt(pattern, text, q)
  }

  /** ASCII lower-casing of one byte; `byte` subtraction wraps as in the source. */
  function ToLower(b: Byte): (r: Byte)
  {
    if (b - 65) % 256 < 26 then (b + 32) % 256 else b
  }

  /** The same byte, or the capital and the small form of one ASCII letter. */
  predicate SameLetter(a: int, b: int) {
    || a == b
    || (65 <= a <= 90 && b == a + 32)
    || (65 <= b <= 90 && a == b + 32)
  }

  lemma SameLetterIsSameLower(a: Byte, b: Byte)
    ensures SameLetter(a, b) <==> ToLower(a) == ToLower(b)
  {
  }

  /** No ASCII capital. */
  ghost predicate NoCapital(s: ByteString) {
    forall k :: 0 <= k < |s| ==> !(65 <= s[k] <= 90)
  }

  /** `pattern` up to the case of ASCII letters stands in `text` at `q`. */
  ghost predicate LikeAt(pattern: ByteString, text: ByteString, q: int) {
    0 <= q && q + |pattern| <= |text|
    && forall k :: 0 <= k < |pattern| ==> SameLetter(text[q + k], pattern[k])
  }

  /** `r` is the least such place, or -1 if there is none. */
  ghost predicate FirstLike(pattern: ByteString, text: ByteString, r: int) {
    if r == -1 then forall q :: !LikeAt(pattern, text, q)
    else LikeAt(pattern, text, r) && forall q :: q < r ==> !LikeAt(pattern, text, q)
  }

  /** Where a pattern without capitals occurs in the lower-cased text. */
  lemma LikeIsLower(pattern: ByteString, text: ByteString, q: int)
    requires NoCapital(pattern)
    ensures LikeAt(pattern, text, q) <==> OccursAt(pattern, LowerAll(text), q)
  {
    if 0 <= q && q + |pattern| <= |text| {
      forall k | 0 <= k < |pattern| ensures SameLetter(text[q + k], pattern[k]) <==> LowerAll(text)[q + k] == pattern[k] {
        SameLetterIsSameLower(text[q + k], pattern[k]);
      }
    }
  }

  ghost predicate LikeIn(pattern: ByteString, text: ByteString) {
    exists q :: LikeAt(pattern, text, q)
  }

  /** Up to case a pattern stands where its lower-cased form occurs in the lower-cased text. */
  lemma LikeInIsLower(pattern: ByteString, text: ByteString)
    ensures LikeIn(pattern, text) <==> Occurs(LowerAll(pattern), LowerAll(text))
  {
    forall q ensures LikeAt(pattern, text, q) <==> OccursAt(LowerAll(pattern), LowerAll(text), q) {
      if 0 <= q && q + |pattern| <= |text| {
        forall k | 0 <= k < |pattern|
          ensures SameLetter(text[q + k], pattern[k]) <==> LowerAll(text)[q + k] == LowerAll(pattern)[k]
        {
          SameLetterIsSameLower(text[q + k], pattern[k]);
        }
      }
    }
    if LikeIn(pattern, text) {
      var q :| LikeAt(pattern, text, q);
      assert OccursAt(LowerAll(pattern), LowerAll(text), q);
    }
    if Occurs(LowerAll(pattern), LowerAll(text)) {
      var q :| OccursAt(LowerAll(pattern), LowerAll(text), q);
      assert LikeAt(pattern, text, q);
    }
  }

  function LowerAll(s: ByteString): (r: ByteString)
    ensures |r| == |s|
    ensures forall i :: 0 <= i < |s| ==> r[i] == ToLower(s[i])
  {
    seq(|s|, i requires 0 <= i < |s| => ToLower(s[i]))
  }

  // ------------------------------------------------------- shifts of a frame

  /** Shifting the frame by `s` puts equal bytes under the matched suffix. */
  ghost predicate Realigns(p: ByteString, j: int, s: int)
    requires 0 <= j < |p| && 0 <= s
  {
    forall k :: j < k < |p| && s <= k ==> p[k - s] == p[k]
  }

  /** A shift worth trying after `p[j+1..]` matched and `p[j]` did not. */
  ghost predicate GoodShift(p: ByteString, j: int, s: int)
    requires 0 <= j < |p|
  {
    1 <= s && Realigns(p, j, s) && (s <= j ==> p[j - s] != p[j])
  }

  ghost predicate LeastShift(p: ByteString, j: int, s: int)
    requires 0 <= j < |p|
  {
    GoodShift(p, j, s) && forall t :: 1 <= t < s ==> !GoodShift(p, j, t)
  }

  /** The least shift that moves the frame wholly past `j`. */
  ghost predicate LeastPrefixShift(p: ByteString, j: int, s: int)
    requires 0 <= j < |p|
  {
    j < s <= |p| && Realigns(p, j, s) && forall t :: j < t < s ==> !Realigns(p, j, t)
  }

  /** The least shift among those >= lo; later passes only lower `lo`. */
  ghost predicate LeastShiftFrom(p: ByteString, j: int, lo: int, s: int)
    requires 0 <= j < |p|
  {
    1 <= lo && GoodShift(p, j, s) && lo <= s
    && forall t :: lo <= t < s ==> !GoodShift(p, j, t)
  }

  /** What a bad-character entry means: no occurrence of `c` before the last byte is nearer. */
  ghost predicate BadSkip(p: ByteString, c: Byte, d: int) {
    && 0 <= d <= |p|
    && (|p| > 0 ==> 1 <= d)
    && (forall k :: 0 <= k < |p| - 1 && p[k] == c ==> d <= |p| - 1 - k)
    && (d < |p| ==> p[|p| - 1 - d] == c)
  }

  // ------------------------------------------------------------ table lemmas

  predicate IsPrefix(p: ByteString, s: ByteString) {
    |s| <= |p| && p[..|s|] == s
  }

  /** `p[s..]` is a prefix of `p` exactly when shift `s` realigns everything past `s-1`. */
  lemma PrefixIsRealign(p: ByteString, j: int, s: int)
    requires 0 <= j < s <= |p|
    ensures IsPrefix(p, p[s..]) <==> Realigns(p, j, s)
  {
    var suffix := p[s..];
    if IsPrefix(p, suffix) {
      forall k | j < k < |p| && s <= k ensures p[k - s] == p[k] {
        assert suffix[k - s] == p[..|suffix|][k - s];
      }
    }
    if Realigns(p, j, s) {
      forall i | 0 <= i < |suffix| ensures p[..|suffix|][i] == suffix[i] {
        assert p[(i + s) - s] == p[i + s];
      }
    }
  }

  /** Once a shift clears `j`, a good shift is just a realigning one. */
  lemma PrefixShiftIsGood(p: ByteString, j: int, s: int)
    requires 0 <= j < |p| && LeastPrefixShift(p, j, s)
    ensures LeastShiftFrom(p, j, j + 1, s)
  {
  }

  /** The byte `d` places before the last. */
  function FromEnd(s: ByteString, d: int): Byte
    requires 0 <= d < |s|
  {
    s[|s| - 1 - d]
  }

  /** `n` is the length of the longest common suffix of `a` and `b`. */
  ghost predicate CommonSuffixLength(a: ByteString, b: ByteString, n: int) {
    && 0 <= n <= |a| && n <= |b|
    && (forall d :: 0 <= d < n ==> FromEnd(a, d) == FromEnd(b, d))
    && (n < |a| && n < |b| ==> FromEnd(a, n) != FromEnd(b, n))
  }

  /** Among shifts not clearing `j`, shift `last - i` is good for exactly one `j`: the one the second pass writes. */
  lemma SecondPassWritesGoodShift(p: ByteString, i: int, n: int, j: int)
    requires 0 <= i < |p| - 1 && CommonSuffixLength(p, p[1..i + 1], n)
    requires 0 <= j < |p| && |p| - 1 - i <= j
    ensures GoodShift(p, j, |p| - 1 - i) <==>
            (j == |p| - 1 - n && p[i - n] != p[|p| - 1 - n])
  {
    var last, s, b := |p| - 1, |p| - 1 - i, p[1..i + 1];
    assert forall d :: 0 <= d < |p| ==> FromEnd(p, d) == p[last - d];
    assert forall d :: 0 <= d < i ==> FromEnd(b, d) == p[(last - d) - s];
    if j < last - n {
      assert n < i ==> p[(last - n) - s] != p[last - n];
    } else if last - n < j {
      assert FromEnd(p, last - j) == FromEnd(b, last - j);
    }
    if j == last - n && p[i - n] != p[last - n] {
      forall k | j < k < |p| && s <= k ensures p[k - s] == p[k] {
        assert FromEnd(p, last - k) == FromEnd(b, last - k);
      }
    }
  }

  /** Every entry, less the length of the matched suffix, is the least shift worth trying. */
  ghost predicate GoodSuffixTable(p: ByteString, table: seq<int>) {
    && |table| == |p|
    && forall j :: 0 <= j < |p| ==> LeastShift(p, j, table[j] - (|p| - 1 - j))
  }

  /** The table after the first pass. */
  ghost predicate PrefixTable(p: ByteString, table: seq<int>) {
    && |table| == |p|
    && forall j :: 0 <= j < |p| ==> LeastPrefixShift(p, j, table[j] - (|p| - 1 - j))
  }

  /** The entry for `j` after the second pass has tried every shift down to `|p| - i`. */
  ghost predicate LeastEntry(p: ByteString, table: seq<int>, i: int, j: int)
    requires 0 <= j < |p| == |table|
  {
    LeastShiftFrom(p, j, Min(j + 1, |p| - i), table[j] - (|p| - 1 - j))
  }

  ghost predicate LeastFrom(p: ByteString, table: seq<int>, i: int) {
    |table| == |p| && forall j :: 0 <= j < |p| ==> LeastEntry(p, table, i, j)
  }

  /** One round of the second pass keeps the entry for `j` least among the shifts seen so far. */
  lemma OneMoreShift(p: ByteString, i: int, n: int, before: seq<int>, after: seq<int>, j: int)
    requires 0 <= i < |p| - 1 && CommonSuffixLength(p, p[1..i + 1], n)
    requires 0 <= j < |p| == |before| == |after| && LeastEntry(p, before, i, j)
    requires after[j] == if j == |p| - 1 - n && p[i - n] != p[j] then n + |p| - 1 - i else before[j]
    ensures LeastEntry(p, after, i + 1, j)
  {
    if |p| - 1 - i <= j {
      SecondPassWritesGoodShift(p, i, n, j);
      hide GoodShift;
    }
  }

  /** ... and so every entry. */
  lemma SecondPassStep(p: ByteString, i: int, n: int, before: seq<int>, after: seq<int>)
    requires 0 <= i < |p| - 1 && CommonSuffixLength(p, p[1..i + 1], n)
    requires LeastFrom(p, before, i)
    requires after == if p[i - n] != p[|p| - 1 - n] then before[|p| - 1 - n := n + |p| - 1 - i] else before
    ensures LeastFrom(p, after, i + 1)
  {
    assert 0 <= n <= i;
    hide CommonSuffixLength, LeastEntry;
    var next := i + 1;
    forall j | 0 <= j < |p| ensures LeastEntry(p, after, next, j) {
      OneMoreShift(p, i, n, before, after, j);
    }
  }

  lemma SecondPassStart(p: ByteString, table: seq<int>)
    requires PrefixTable(p, table)
    ensures LeastFrom(p, table, 0)
  {
    forall j | 0 <= j < |p| ensures LeastEntry(p, table, 0, j) {
      PrefixShiftIsGood(p, j, table[j] - (|p| - 1 - j));
    }
  }

  lemma SecondPassEnd(p: ByteString, table: seq<int>, i: int)
    requires LeastFrom(p, table, i) && |p| - 1 <= i
    ensures GoodSuffixTable(p, table)
  {
    forall j | 0 <= j < |p| ensures LeastShift(p, j, table[j] - (|p| - 1 - j)) {
      assert LeastEntry(p, table, i, j);
    }
  }

  /** A frame at `start` that mismatched at `j` cannot hide an occurrence at a smaller shift. */
  lemma SkipIsSafe(p: ByteString, text: ByteString, start: int, j: int, bad: int, good: int, s: int)
    requires 0 <= j < |p| && 0 <= start && start + |p| <= |text|
    requires forall k :: j < k < |p| ==> text[start + k] == p[k]
    requires text[start + j] != p[j]
    requires BadSkip(p, text[start + j], bad)
    requires LeastShift(p, j, good)
    requires 0 <= s < good || 0 <= s < bad - (|p| - 1 - j)
    ensures !OccursAt(p, text, start + s)
  {
    if start + s + |p| <= |text| {
      if s == 0 {
        assert text[start + s + j] != p[j];
      } else if s < good {
        assert !GoodShift(p, j, s);
        if !Realigns(p, j, s) {
          var k :| j < k < |p| && s <= k && p[k - s] != p[k];
          assert text[start + s + (k - s)] != p[k - s];
        } else {
          assert text[start + s + (j - s)] != p[j - s];
        }
      } else {
        assert text[start + s + (j - s)] != p[j - s];
      }
    }
  }

  // ------------------------------------------------------------------ finder

  /** The length of the longest common suffix of `a` and `b`. */
  method LongestCommonSuffix(a: ByteString, b: ByteString) returns (i: nat)
    ensures CommonSuffixLength(a, b, i)
  {
    i := 0;
    while i < |a| && i < |b|
      invariant i <= |a| && i <= |b|
      invariant forall d :: 0 <= d < i ==> FromEnd(a, d) == FromEnd(b, d)
    {
      if a[|a| - 1 - i] != b[|b| - 1 - i] {
        break;
      }
      i := i + 1;
    }
  }

  function Min(a: int, b: int): int {
    if a < b then a else b
  }

  function Max(a: int, b: int): int {
    if a > b then a else b
  }

  class StringFinder {
    const pattern: ByteString
    const badCharSkip: array<int>
    const goodSuffixSkip: array<int>

    /** Both tables say exactly what they are meant to say about `pattern`. */
    ghost predicate Valid()
      reads badCharSkip, goodSuffixSkip
    {
      && badCharSkip.Length == 256
      && (forall c: Byte :: BadSkip(pattern, c, badCharSkip[c]))
      && GoodSuffixTable(pattern, goodSuffixSkip[..])
    }

    constructor (pattern: ByteString)
      ensures this.pattern == pattern && Valid()
      ensures fresh(badCharSkip) && fresh(goodSuffixSkip)
    {
      this.pattern := pattern;
      this.badCharSkip := new int[256];
      this.goodSuffixSkip := new int[|pattern|];
      new;
      BuildBadChar();
      BuildPrefixShifts();
      BuildSuffixShifts();
    }

    /** The bad-character loops. */
    method BuildBadChar()
      requires badCharSkip.Length == 256
      modifies badCharSkip
      ensures forall c: Byte :: BadSkip(pattern, c, badCharSkip[c])
    {
      var last := |pattern| - 1;
      var b := 0;
      while b < 256
        invariant 0 <= b <= 256
        invariant forall c :: 0 <= c < b ==> badCharSkip[c] == |pattern|
      {
        badCharSkip[b] := |pattern|;
        b := b + 1;
      }
      var i := 0;
      while i < last
        invariant 0 <= i && (i <= last || i == 0)
        invariant forall c: Byte :: badCharSkip[c] == |pattern| || (|pattern| > 0 && last - i < badCharSkip[c] <= last)
        invariant forall c: Byte, k :: 0 <= k < i && pattern[k] == c ==> badCharSkip[c] <= last - k
        invariant forall c: Byte :: 0 < badCharSkip[c] < |pattern| ==> pattern[last - badCharSkip[c]] == c
      {
        badCharSkip[pattern[i]] := last - i;
        i := i + 1;
      }
    }

    /** First pass: the least shift that clears `j`. */
    method BuildPrefixShifts()
      requires goodSuffixSkip.Length == |pattern|
      modifies goodSuffixSkip
      ensures PrefixTable(pattern, goodSuffixSkip[..])
    {
      var last := |pattern| - 1;
      var lastPrefix := last;
      var i := last;
      while i >= 0
        invariant -1 <= i <= last
        invariant i == last ==> lastPrefix == last
        invariant i < last ==> i + 1 < |pattern| && LeastPrefixShift(pattern, i + 1, lastPrefix)
        invariant forall j :: i < j < |pattern| ==>
                    LeastPrefixShift(pattern, j, goodSuffixSkip[j] - (last - j))
      {
        if IsPrefix(pattern, pattern[i + 1..]) {
          lastPrefix := i + 1;
        }
        forall s | i < s <= |pattern| ensures IsPrefix(pattern, pattern[s..]) <==> Realigns(pattern, i, s) {
          PrefixIsRealign(pattern, i, s);
        }
        if i < last {
          forall s | i + 1 < s <= |pattern| ensures IsPrefix(pattern, pattern[s..]) <==> Realigns(pattern, i + 1, s) {
            PrefixIsRealign(pattern, i + 1, s);
          }
        }
        assert LeastPrefixShift(pattern, i, lastPrefix);
        goodSuffixSkip[i] := lastPrefix + last - i;
        i := i - 1;
      }
    }

    /** One round of the second pass: the shift `last - i` is written where it is good. */
    method TryShift(i: nat)
      requires goodSuffixSkip.Length == |pattern| && i < |pattern| - 1
      requires LeastFrom(pattern, goodSuffixSkip[..], i)
      modifies goodSuffixSkip
      ensures LeastFrom(pattern, goodSuffixSkip[..], i + 1)
    {
      hide LeastFrom;
      var last := |pattern| - 1;
      var n := LongestCommonSuffix(pattern, pattern[1..i + 1]);
      ghost var before := goodSuffixSkip[..];
      if pattern[i - n] != pattern[last - n] {
        goodSuffixSkip[last - n] := n + last - i;
      }
      SecondPassStep(pattern, i, n, before, goodSuffixSkip[..]);
    }

    /** Second pass: overwrite with shifts that do not clear `j`, larger shifts first. */
    method BuildSuffixShifts()
      requires goodSuffixSkip.Length == |pattern|
      requires PrefixTable(pattern, goodSuffixSkip[..])
      modifies goodSuffixSkip
      ensures GoodSuffixTable(pattern, goodSuffixSkip[..])
    {
      hide LeastFrom, PrefixTable, GoodSuffixTable;
      var last := |pattern| - 1;
      SecondPassStart(pattern, goodSuffixSkip[..]);
      var i := 0;
      while i < last
        invariant 0 <= i && (i <= last || i == 0)
        invariant LeastFrom(pattern, goodSuffixSkip[..], i)
      {
        TryShift(i);
        i := i + 1;
      }
      SecondPassEnd(pattern, goodSuffixSkip[..], i);
    }

    /** The index of the first occurrence of the pattern, or -1. */
    method Next(text: ByteString) returns (r: int)
      requires Valid()
      ensures FirstOccurrence(pattern, text, r)
    {
      r := Search(text, text, false);
    }

    /**
     * Like Next, but ASCII letters of `text` are lower-cased before comparing; a pattern
     * without capitals is found where it stands in either case.
     */
    method NextFold(text: ByteString) returns (r: int)
      requires Valid()
      ensures FirstOccurrence(pattern, LowerAll(text), r)
      ensures NoCapital(pattern) ==> FirstLike(pattern, text, r)
    {
      r := Search(text, LowerAll(text), true);
      if NoCapital(pattern) {
        forall q ensures LikeAt(pattern, text, q) <==> OccursAt(pattern, LowerAll(text), q) {
          LikeIsLower(pattern, text, q);
        }
      }
    }

    /** The search loop; `seen` is what the loop compares with. */
    method Search(text: ByteString, ghost seen: ByteString, fold: bool) returns (r: int)
      requires Valid()
      requires seen == if fold then LowerAll(text) else text
      ensures FirstOccurrence(pattern, seen, r)
    {
      hide BadSkip, Realigns, LowerAll;
      var last := |pattern| - 1;
      var i := last;
      while i < |text|
        invariant last <= i
        invariant forall q :: q < i - last ==> !OccursAt(pattern, seen, q)
        decreases |text| - i
      {
        var j := last;
        ghost var start := i - last;
        while j >= 0 && (if fold then ToLower(text[i]) else text[i]) == pattern[j]
          invariant -1 <= j <= last && i == start + j
          invariant forall k :: j < k <= last ==> seen[start + k] == pattern[k]
        {
          i := i - 1;
          j := j - 1;
        }
        if j < 0 {
          return i + 1;
        }
        var c := if fold then ToLower(text[i]) else text[i];
        ghost var bad, good := badCharSkip[c], goodSuffixSkip[j] - (last - j);
        i := i + Max(badCharSkip[c], goodSuffixSkip[j]);
        forall q | start <= q < i - last ensures !OccursAt(pattern, seen, q) {
          SkipIsSafe(pattern, seen, start, j, bad, good, q - start);
        }
      }
      r := -1;
    }
  }
}
