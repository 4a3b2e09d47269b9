/**
 * The text form of byte strings in the format that escapes no backslash (zng/bstring.go):
 * which byte strings unescaping (zng/escape.go) gives back from it.
 */
module UnescapedText {
  import opened Bytes
  import opened Utf8
  import opened Bstring

  /** What can be read of isPrint without the Unicode tables: ASCII from the space to the tilde prints. */
  ghost predicate PrintsAscii(isPrint: int -> bool) {
    forall r :: 32 <= r < 127 ==> isPrint(r)
  }

  /** The byte at `i` is written as an escape. */
  predicate Escaped(data: ByteString, i: nat, isPrint: int -> bool)
    requires i < |data|
  {
    var r := DecodeRune(data[i..]).0;
    r == RUNE_ERROR || !isPrint(r)
  }

  predicate IsHex(b: Byte) { Unhex(b) <= 0xf }

  /**
   * The backslash at `i` is read as an escape together with what comes behind it in the
   * text: another backslash, the escape of a byte, or an x and two bytes of which one is
   * a hexadecimal digit.
   */
  predicate Misread(data: ByteString, i: nat, isPrint: int -> bool)
    requires i < |data|
  {
    && data[i] == BACKSLASH && i + 1 < |data|
    && (|| data[i + 1] == BACKSLASH
        || Escaped(data, i + 1, isPrint)
        || (data[i + 1] == X && i + 3 < |data| && !Escaped(data, i + 2, isPrint) && (IsHex(data[i + 2]) || IsHex(data[i + 3]))))
  }

  ghost predicate NoneMisread(data: ByteString, i: nat, isPrint: int -> bool) {
    forall k :: i <= k < |data| ==> !Misread(data, k, isPrint)
  }

  /** The text of the data from `i` on. */
  function TextFrom(data: ByteString, i: nat, isPrint: int -> bool): ByteString
    requires i <= |data|
  {
    EscapedFrom(data, i, Unescaped, false, isPrint)
  }

  /** How many bytes the text at `i` is for. */
  function Width(data: ByteString, i: nat, isPrint: int -> bool): (n: nat)
    requires i < |data|
    ensures 1 <= n <= |data| - i
  {
    Token(data, i, Unescaped, false, isPrint).1
  }

  /** A piece of text is the escape of a byte that is no printable ASCII, or the data itself. */
  lemma TextNext(data: ByteString, i: nat, isPrint: int -> bool)
    requires i < |data| && PrintsAscii(isPrint)
    ensures var n := Width(data, i, isPrint);
            && (Escaped(data, i, isPrint) ==>
                  n == 1 && !(32 <= data[i] < 127) && TextFrom(data, i, isPrint) == EscapeByte(data[i]) + TextFrom(data, i + 1, isPrint))
            && (!Escaped(data, i, isPrint) ==>
                  && (data[i] < RUNE_SELF <==> n == 1) && (forall k :: i < k < i + n ==> data[k] >= RUNE_SELF)
                  && TextFrom(data, i, isPrint) == data[i..i + n] + TextFrom(data, i + n, isPrint))
  {
    hide DecodeRune, EscapedFrom;
    var (r, l) := DecodeRune(data[i..]);
    assert forall k :: 0 <= k < l ==> data[i..][k] == data[i + k];
    EscapedNext(data, i, Unescaped, false, isPrint);
  }

  lemma TextEnds(data: ByteString, isPrint: int -> bool)
    ensures TextFrom(data, |data|, isPrint) == []
  {
  }

  // ------------------------------------------------------------- how long it gets

  /** Printable ASCII weighs one, any other byte three. */
  function Weight(s: ByteString): nat {
    if s == [] then 0 else (if 32 <= s[0] < 127 then 1 else 3) + Weight(s[1..])
  }

  lemma {:induction false} WeightAppend(a: ByteString, b: ByteString)
    ensures Weight(a + b) == Weight(a) + Weight(b)
  {
    if a == [] {
      assert a + b == b;
    } else {
      WeightAppend(a[1..], b);
      assert (a + b)[1..] == a[1..] + b;
    }
  }

  lemma {:induction false} WeightAtLeast(s: ByteString)
    ensures |s| <= Weight(s) <= 3 * |s|
  {
    if s != [] {
      WeightAtLeast(s[1..]);
    }
  }

  /** The data between two places and the rest. */
  lemma WeightFrom(data: ByteString, i: nat, j: nat)
    requires i <= j <= |data|
    ensures Weight(data[i..]) == Weight(data[i..j]) + Weight(data[j..])
  {
    assert data[i..] == data[i..j] + data[j..];
    WeightAppend(data[i..j], data[j..]);
  }

  /** A backslash that starts an escape in some text. */
  predicate StartsEscape(t: ByteString) {
    |t| >= 2 && t[0] == BACKSLASH && ParseEscape(t).1 > 1
  }

  lemma UnescapeFirst(t: ByteString)
    requires t != []
    ensures !StartsEscape(t) ==> Unescape(t) == [t[0]] + Unescape(t[1..])
    ensures StartsEscape(t) ==> Unescape(t) == [ParseEscape(t).0] + Unescape(t[ParseEscape(t).1..])
    ensures StartsEscape(t) ==>
              if t[1] == BACKSLASH then ParseEscape(t) == (BACKSLASH, 2)
              else t[1] == X && |t| >= 4 && ParseEscape(t).1 == 4 && (IsHex(t[2]) || IsHex(t[3]))
    ensures |t| >= 2 && t[0] == BACKSLASH && t[1] == BACKSLASH ==> StartsEscape(t)
    ensures |t| >= 4 && t[0] == BACKSLASH && t[1] == X && (IsHex(t[2]) || IsHex(t[3])) ==> StartsEscape(t)
  {
  }

  /** Unescaping behind the first byte of a piece of text. */
  lemma UnescapeBehindFirst(data: ByteString, i: nat, isPrint: int -> bool)
    requires i < |data| && PrintsAscii(isPrint)
    ensures var t, n := TextFrom(data, i, isPrint), Width(data, i, isPrint);
            && t != []
            && (Escaped(data, i, isPrint) ==>
                  && |t| >= 4 && t[..4] == EscapeByte(data[i]) && t[4..] == TextFrom(data, i + 1, isPrint)
                  && Unescape(t[1..]) == EscapeByte(data[i])[1..] + Unescape(TextFrom(data, i + 1, isPrint)))
            && (!Escaped(data, i, isPrint) ==>
                  && t[0] == data[i] && (n == 1 ==> t[1..] == TextFrom(data, i + 1, isPrint))
                  && Unescape(t[1..]) == data[i + 1..i + n] + Unescape(TextFrom(data, i + n, isPrint)))
  {
    hide Unescape, EscapedFrom, Token, DecodeRune, Escaped, TextFrom;
    TextNext(data, i, isPrint);
    var t, n := TextFrom(data, i, isPrint), Width(data, i, isPrint);
    var rest := TextFrom(data, i + n, isPrint);
    if Escaped(data, i, isPrint) {
      var digits := EscapeByte(data[i])[1..];
      assert t[1..] == digits + rest;
      UnescapePlain(digits, rest);
    } else {
      var more := data[i + 1..i + n];
      assert data[i..i + n] == [data[i]] + more;
      assert t[1..] == more + rest;
      assert forall k :: 0 <= k < |more| ==> more[k] == data[i + 1 + k];
      UnescapePlain(more, rest);
      if n == 1 {
        assert more + rest == rest;
      }
    }
  }

  /** Unescaping the text from `i` on gives no more than the data weighs. */
  ghost predicate Light(data: ByteString, i: nat, isPrint: int -> bool)
    requires i <= |data|
  {
    Weight(Unescape(TextFrom(data, i, isPrint))) <= Weight(data[i..])
  }

  lemma WeightOne(s: ByteString)
    requires s != []
    ensures Weight(s) == Weight([s[0]]) + Weight(s[1..]) && Weight([s[0]]) == if 32 <= s[0] < 127 then 1 else 3
  {
    assert [s[0]][1..] == [];
  }

  lemma BehindFirstIsLight(data: ByteString, i: nat, isPrint: int -> bool)
    requires i < |data| && PrintsAscii(isPrint) && Light(data, i + Width(data, i, isPrint), isPrint)
    ensures Weight(Unescape(TextFrom(data, i, isPrint)[1..])) <= Weight(data[i..]) - (if Escaped(data, i, isPrint) then 0 else Weight([data[i]]))
  {
    hide Unescape, EscapedFrom, Token, DecodeRune, Escaped, TextFrom, Weight;
    UnescapeBehindFirst(data, i, isPrint);
    TextNext(data, i, isPrint);
    var n := Width(data, i, isPrint);
    var after := Unescape(TextFrom(data, i + n, isPrint));
    assert data[i..][0] == data[i] && data[i..][1..] == data[i + 1..];
    WeightOne(data[i..]);
    if Escaped(data, i, isPrint) {
      var digits := EscapeByte(data[i])[1..];
      WeightAppend(digits, after);
      ThreePlain(digits);
    } else {
      WeightAppend(data[i + 1..i + n], after);
      WeightFrom(data, i + 1, i + n);
    }
  }

  lemma ThreePlain(digits: ByteString)
    requires |digits| == 3 && forall k :: 0 <= k < 3 ==> 32 <= digits[k] < 127
    ensures Weight(digits) == 3
  {
    WeightOne(digits);
    WeightOne(digits[1..]);
    WeightOne(digits[2..]);
    assert digits[1..][1..] == digits[2..] && digits[2..][1..] == [];
  }

  /** Behind the second byte of a piece that is the data itself. */
  lemma BehindSecondIsLight(data: ByteString, j: nat, isPrint: int -> bool)
    requires j + 1 < |data| && PrintsAscii(isPrint) && !Escaped(data, j, isPrint)
    requires Light(data, j + Width(data, j, isPrint), isPrint)
    requires Light(data, j + 1 + Width(data, j + 1, isPrint), isPrint)
    ensures |TextFrom(data, j, isPrint)| >= 2
    ensures Weight(Unescape(TextFrom(data, j, isPrint)[2..])) <= Weight(data[j + 1..])
  {
    hide Unescape, EscapedFrom, Token, DecodeRune, Escaped, TextFrom, Weight;
    TextNext(data, j, isPrint);
    var t, n := TextFrom(data, j, isPrint), Width(data, j, isPrint);
    if n == 1 {
      UnescapeBehindFirst(data, j, isPrint);
      UnescapeBehindFirst(data, j + 1, isPrint);
      BehindFirstIsLight(data, j + 1, isPrint);
      assert t[2..] == t[1..][1..];
    } else {
      var more, rest := data[j + 2..j + n], TextFrom(data, j + n, isPrint);
      assert t[2..] == more + rest;
      assert forall k :: 0 <= k < |more| ==> more[k] == data[j + 2 + k];
      UnescapePlain(more, rest);
      WeightAppend(more, Unescape(rest));
      WeightFrom(data, j + 2, j + n);
      WeightFrom(data, j + 1, j + 2);
    }
  }

  /** What a misread backslash is read as, and what is unescaped after that. */
  lemma MisreadIs(data: ByteString, i: nat, isPrint: int -> bool)
    requires i < |data| && data[i] == BACKSLASH && PrintsAscii(isPrint)
    ensures var t := TextFrom(data, i, isPrint);
            && t == [BACKSLASH] + TextFrom(data, i + 1, isPrint)
            && (StartsEscape(t) <==> Misread(data, i, isPrint))
            && (StartsEscape(t) ==>
                  if data[i + 1] == BACKSLASH || Escaped(data, i + 1, isPrint)
                  then Unescape(t) == [BACKSLASH] + Unescape(TextFrom(data, i + 1, isPrint)[1..])
                  else |TextFrom(data, i + 2, isPrint)| >= 2
                       && Unescape(t) == [ParseEscape(t).0] + Unescape(TextFrom(data, i + 2, isPrint)[2..]))
  {
    hide Unescape, EscapedFrom, Token, DecodeRune, Escaped, TextFrom, ParseEscape;
    var t, u := TextFrom(data, i, isPrint), TextFrom(data, i + 1, isPrint);
    AsciiIsRaw(data, i, isPrint);
    UnescapeFirst(t);
    if i + 1 < |data| {
      UnescapeBehindFirst(data, i + 1, isPrint);
      assert t[2..] == u[1..];
      if data[i + 1] == X {
        XBehindBackslash(data, i, isPrint);
      }
    } else {
      TextEnds(data, isPrint);
    }
  }

  /** ASCII that prints stands for itself. */
  lemma AsciiIsRaw(data: ByteString, i: nat, isPrint: int -> bool)
    requires i < |data| && 32 <= data[i] < 127 && PrintsAscii(isPrint)
    ensures !Escaped(data, i, isPrint) && Width(data, i, isPrint) == 1
    ensures TextFrom(data, i, isPrint) == [data[i]] + TextFrom(data, i + 1, isPrint)
  {
    TextNext(data, i, isPrint);
    assert data[i..][0] == data[i];
    assert data[i..i + 1] == [data[i]];
  }

  lemma XBehindBackslash(data: ByteString, i: nat, isPrint: int -> bool)
    requires i + 1 < |data| && data[i] == BACKSLASH && data[i + 1] == X && PrintsAscii(isPrint)
    ensures var t, u := TextFrom(data, i, isPrint), TextFrom(data, i + 2, isPrint);
            && t == [BACKSLASH, X] + u
            && (|u| >= 2 && (IsHex(u[0]) || IsHex(u[1])) <==> Misread(data, i, isPrint))
            && t[2..] == u && (|t| >= 4 ==> t[2] == u[0] && t[3] == u[1] && t[4..] == u[2..])
  {
    hide Unescape, EscapedFrom, Token, DecodeRune, Escaped, TextFrom;
    AsciiIsRaw(data, i, isPrint);
    AsciiIsRaw(data, i + 1, isPrint);
    if i + 2 < |data| {
      UnescapeBehindFirst(data, i + 2, isPrint);
      TextNext(data, i + 2, isPrint);
      SecondOfText(data, i + 2, isPrint);
    } else {
      TextEnds(data, isPrint);
    }
  }

  /** The second byte of the text is the second of the data, or no digit either way. */
  lemma SecondOfText(data: ByteString, j: nat, isPrint: int -> bool)
    requires j < |data| && PrintsAscii(isPrint)
    ensures var u := TextFrom(data, j, isPrint);
            && (Escaped(data, j, isPrint) ==> |u| >= 2 && !IsHex(u[0]) && !IsHex(u[1]))
            && (!Escaped(data, j, isPrint) ==>
                  && u != [] && u[0] == data[j] && (|u| >= 2 <==> j + 1 < |data|)
                  && (j + 1 < |data| ==> (IsHex(u[1]) <==> IsHex(data[j + 1]))))
  {
    hide Unescape, EscapedFrom, Token, DecodeRune, Escaped, TextFrom;
    TextNext(data, j, isPrint);
    var u, n := TextFrom(data, j, isPrint), Width(data, j, isPrint);
    if !Escaped(data, j, isPrint) {
      if n > 1 {
        assert data[j..j + n][1] == data[j + 1];
      } else if j + 1 < |data| {
        UnescapeBehindFirst(data, j, isPrint);
        UnescapeBehindFirst(data, j + 1, isPrint);
        TextNext(data, j + 1, isPrint);
        assert u[1] == TextFrom(data, j + 1, isPrint)[0];
      } else {
        TextEnds(data, isPrint);
      }
    }
  }

  lemma RawText(data: ByteString, i: nat, isPrint: int -> bool)
    requires i < |data| && PrintsAscii(isPrint) && !Escaped(data, i, isPrint) && data[i] != BACKSLASH
    ensures var n := Width(data, i, isPrint);
            Unescape(TextFrom(data, i, isPrint)) == data[i..i + n] + Unescape(TextFrom(data, i + n, isPrint))
  {
    hide Unescape, EscapedFrom, Token, DecodeRune, Escaped, TextFrom;
    TextNext(data, i, isPrint);
    var n := Width(data, i, isPrint);
    var plain := data[i..i + n];
    assert forall k :: 0 <= k < n ==> plain[k] == data[i + k];
    UnescapePlain(plain, TextFrom(data, i + n, isPrint));
  }

  lemma FirstByte(data: ByteString, i: nat)
    requires i < |data|
    ensures data[i..] == [data[i]] + data[i + 1..] && Weight(data[i..]) == Weight([data[i]]) + Weight(data[i + 1..])
    ensures 1 <= Weight([data[i]]) <= 3
    ensures 32 <= data[i] < 127 ==> Weight([data[i]]) == 1
    ensures !(32 <= data[i] < 127) ==> Weight([data[i]]) == 3
  {
    WeightOne(data[i..]);
    assert data[i..][1..] == data[i + 1..];
  }

  /** A misread backslash gives less than the data weighs, or something else than the data at once. */
  lemma BackslashIsLight(data: ByteString, i: nat, isPrint: int -> bool)
    requires i < |data| && data[i] == BACKSLASH && PrintsAscii(isPrint)
    requires forall j :: i < j <= |data| ==> Light(data, j, isPrint)
    ensures Light(data, i, isPrint)
    ensures Misread(data, i, isPrint) ==> Unescape(TextFrom(data, i, isPrint)) != data[i..]
    ensures !Misread(data, i, isPrint) ==> Unescape(TextFrom(data, i, isPrint)) == [BACKSLASH] + Unescape(TextFrom(data, i + 1, isPrint))
  {
    hide Unescape, EscapedFrom, Token, DecodeRune, Escaped, TextFrom, Weight, ParseEscape;
    var t := TextFrom(data, i, isPrint);
    MisreadIs(data, i, isPrint);
    FirstByte(data, i);
    if !Misread(data, i, isPrint) {
      assert t[1..] == TextFrom(data, i + 1, isPrint) && Light(data, i + 1, isPrint);
      UnescapeFirst(t);
      WeightAppend([BACKSLASH], Unescape(TextFrom(data, i + 1, isPrint)));
    } else if data[i + 1] == BACKSLASH || Escaped(data, i + 1, isPrint) {
      ReadAsBackslash(data, i, isPrint);
    } else {
      ReadAsByte(data, i, ParseEscape(t).0, isPrint);
    }
  }

  lemma ReadAsBackslash(data: ByteString, i: nat, isPrint: int -> bool)
    requires i + 1 < |data| && data[i] == BACKSLASH && PrintsAscii(isPrint)
    requires data[i + 1] == BACKSLASH || Escaped(data, i + 1, isPrint)
    requires Light(data, i + 1 + Width(data, i + 1, isPrint), isPrint)
    ensures TextFrom(data, i + 1, isPrint) != []
    ensures var after := [BACKSLASH] + Unescape(TextFrom(data, i + 1, isPrint)[1..]);
            Weight(after) <= Weight(data[i..]) && after != data[i..]
  {
    hide Unescape, EscapedFrom, Token, DecodeRune, Escaped, TextFrom, Weight;
    TextNext(data, i + 1, isPrint);
    UnescapeBehindFirst(data, i + 1, isPrint);
    var behind := Unescape(TextFrom(data, i + 1, isPrint)[1..]);
    FirstByte(data, i);
    FirstByte(data, i + 1);
    BehindFirstIsLight(data, i + 1, isPrint);
    WeightAppend([BACKSLASH], behind);
    if Escaped(data, i + 1, isPrint) {
      assert ([BACKSLASH] + behind)[1] == X && data[i..][1] == data[i + 1];
    }
  }

  lemma ReadAsByte(data: ByteString, i: nat, c: Byte, isPrint: int -> bool)
    requires i + 3 < |data| && data[i] == BACKSLASH && PrintsAscii(isPrint) && !Escaped(data, i + 2, isPrint)
    requires Light(data, i + 2 + Width(data, i + 2, isPrint), isPrint)
    requires Light(data, i + 3 + Width(data, i + 3, isPrint), isPrint)
    ensures |TextFrom(data, i + 2, isPrint)| >= 2
    ensures var after := [c] + Unescape(TextFrom(data, i + 2, isPrint)[2..]);
            Weight(after) <= Weight(data[i..]) && after != data[i..]
  {
    hide Unescape, EscapedFrom, Token, DecodeRune, Escaped, TextFrom, Weight;
    FirstByte(data, i);
    FirstByte(data, i + 1);
    FirstByte(data, i + 2);
    BehindSecondIsLight(data, i + 2, isPrint);
    var after := [c] + Unescape(TextFrom(data, i + 2, isPrint)[2..]);
    FirstByte(after, 0);
    assert after[0..] == after && after[1..] == Unescape(TextFrom(data, i + 2, isPrint)[2..]);
  }

  lemma {:induction false} AllLight(data: ByteString, i: nat, isPrint: int -> bool)
    requires i <= |data| && PrintsAscii(isPrint)
    ensures Light(data, i, isPrint)
    decreases |data| - i
  {
    hide Unescape, EscapedFrom, Token, DecodeRune, Escaped, TextFrom, Weight, Misread;
    if i == |data| {
      TextEnds(data, isPrint);
      NothingToUnescape();
      assert data[i..] == [];
    } else {
      forall j | i < j <= |data| ensures Light(data, j, isPrint) {
        AllLight(data, j, isPrint);
      }
      var n := Width(data, i, isPrint);
      var after := Unescape(TextFrom(data, i + n, isPrint));
      WeightFrom(data, i, i + n);
      if data[i] == BACKSLASH {
        BackslashIsLight(data, i, isPrint);
      } else {
        PieceIsRead(data, i, isPrint);
        WeightAppend(data[i..i + n], after);
        assert Light(data, i + n, isPrint);
      }
    }
  }

  /** Everything but a backslash comes back. */
  lemma PieceIsRead(data: ByteString, i: nat, isPrint: int -> bool)
    requires i < |data| && data[i] != BACKSLASH && PrintsAscii(isPrint)
    ensures var n := Width(data, i, isPrint);
            && Unescape(TextFrom(data, i, isPrint)) == data[i..i + n] + Unescape(TextFrom(data, i + n, isPrint))
            && (forall k :: i <= k < i + n ==> data[k] != BACKSLASH)
  {
    hide Unescape, EscapedFrom, Token, DecodeRune, Escaped, TextFrom;
    TextNext(data, i, isPrint);
    if Escaped(data, i, isPrint) {
      UnescapeOneByte(data[i], TextFrom(data, i + 1, isPrint));
      assert data[i..i + 1] == [data[i]];
    } else {
      RawText(data, i, isPrint);
    }
  }

  // ------------------------------------------------------------- what comes back

  lemma {:induction false} ReadsBackFrom(data: ByteString, i: nat, isPrint: int -> bool)
    requires i <= |data| && PrintsAscii(isPrint)
    ensures Unescape(TextFrom(data, i, isPrint)) == data[i..] <==> NoneMisread(data, i, isPrint)
    decreases |data| - i
  {
    hide Unescape, EscapedFrom, Token, DecodeRune, Escaped, TextFrom, Light;
    if i == |data| {
      TextEnds(data, isPrint);
      NothingToUnescape();
    } else {
      var n := Width(data, i, isPrint);
      ReadsBackFrom(data, i + n, isPrint);
      assert data[i..] == data[i..i + n] + data[i + n..];
      if data[i] == BACKSLASH {
        forall j | i < j <= |data| ensures Light(data, j, isPrint) {
          AllLight(data, j, isPrint);
        }
        BackslashIsLight(data, i, isPrint);
        AsciiIsRaw(data, i, isPrint);
        hide Misread;
        assert data[i..i + n] == [BACKSLASH];
      } else {
        PieceIsRead(data, i, isPrint);
        assert forall k :: i <= k < i + n ==> !Misread(data, k, isPrint);
      }
    }
  }

  lemma {:induction false} ContainerMakesNoDifference(data: ByteString, i: nat, inContainer: bool, isPrint: int -> bool)
    requires i <= |data|
    ensures EscapedFrom(data, i, Unescaped, inContainer, isPrint) == TextFrom(data, i, isPrint)
    decreases |data| - i
  {
    if i < |data| {
      hide DecodeRune;
      ContainerMakesNoDifference(data, i + Width(data, i, isPrint), inContainer, isPrint);
    }
  }

  /** A byte string comes back from its text without escaped backslashes if and only if none of its backslashes is misread. */
  lemma UnescapedReadsBack(data: ByteString, inContainer: bool, isPrint: int -> bool)
    requires PrintsAscii(isPrint)
    ensures Unescape(Text(data, Unescaped, inContainer, isPrint)) == data <==> NoneMisread(data, 0, isPrint)
  {
    if data == [HYPHEN] {
      UnescapeOneByte(HYPHEN, []);
      assert EscapeByte(HYPHEN) + [] == EscapeByte(HYPHEN);
      NothingToUnescape();
    } else {
      ContainerMakesNoDifference(data, 0, inContainer, isPrint);
      ReadsBackFrom(data, 0, isPrint);
      assert data[0..] == data;
    }
  }

  /** A backslash, an x and two digits, as in an escape. */
  lemma MisreadExample(isPrint: int -> bool)
    requires PrintsAscii(isPrint)
    ensures var data := [BACKSLASH, X, 52, 49]; Misread(data, 0, isPrint) && !NoneMisread(data, 0, isPrint)
  {
    var data := [BACKSLASH, X, 52, 49];
    AsciiIsRaw(data, 2, isPrint);
    assert Misread(data, 0, isPrint);
  }
}
