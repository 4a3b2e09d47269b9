/**
 * The text form of byte strings (zng/bstring.go, zng/escape.go) and finding its end
 * again when a record is parsed (zng/parser.go).
 */
module Bstring {
  import opened Bytes
  import opened Utf8

  const BACKSLASH: Byte := 92
  const SEMICOLON: Byte := 59
  const LEFT_BRACKET: Byte := 91
  const HYPHEN: Byte := 45
  const X: Byte := 120
  const TAB := 9
  const COMMA := 44

  datatype OutFmt = Unescaped | Zng | Zeek | ZeekAscii | Debug

  // ------------------------------------------------------------------- escaping

  function HexDigit(d: nat): Byte
    requires d < 16
  {
    if d < 10 then 48 + d else 87 + d
  }

  /** A byte as a backslash, an x and two hexadecimal digits. */
  function EscapeByte(c: Byte): ByteString {
    [BACKSLASH, X, HexDigit(c / 16), HexDigit(c % 16)]
  }

  /** Whether the rune at `pos` means something to the format. */
  predicate ShouldEscape(r: int, fmt: OutFmt, pos: nat, inContainer: bool) {
    || (fmt != Unescaped && r == BACKSLASH)
    || (fmt == Zng && (r == SEMICOLON || (pos == 0 && r == LEFT_BRACKET)))
    || ((fmt == Zeek || fmt == ZeekAscii) && (r == TAB || (r == COMMA && inContainer)))
    || (fmt == ZeekAscii && r > 0x7f)
  }

  /** The text for what stands at `i`, and how many bytes of the data it is for. */
  function Token(data: ByteString, i: nat, fmt: OutFmt, inContainer: bool, isPrint: int -> bool): (r: (ByteString, nat))
    requires i < |data|
    ensures 1 <= r.1 <= |data| - i
  {
    var (r, l) := DecodeRune(data[i..]);
    if fmt != Unescaped && r == BACKSLASH then ([BACKSLASH, BACKSLASH], 1)
    else if r == RUNE_ERROR || !isPrint(r) || ShouldEscape(r, fmt, i, inContainer) then (EscapeByte(data[i]), 1)
    else (data[i..i + l], l)
  }

  function EscapedFrom(data: ByteString, i: nat, fmt: OutFmt, inContainer: bool, isPrint: int -> bool): ByteString
    requires i <= |data|
    decreases |data| - i
  {
    if i == |data| then []
    else
      var (text, n) := Token(data, i, fmt, inContainer, isPrint);
      text + EscapedFrom(data, i + n, fmt, inContainer, isPrint)
  }

  /** The hexadecimal digits of a byte, in small letters. */
  lemma DigitsOfByte(c: Byte)
    ensures var t := EscapeByte(c);
            |t| == 4 && t[0] == '\\' as int && t[1] == 'x' as int
            && t[2] == "0123456789abcdef"[c / 16] as int && t[3] == "0123456789abcdef"[c % 16] as int
  {
  }

  /** Which ASCII bytes are written as they are, which doubled, and which as escapes, in each format. */
  lemma TextOfAscii(data: ByteString, i: nat, fmt: OutFmt, inContainer: bool, isPrint: int -> bool)
    requires i < |data| && data[i] < 0x80
    ensures var c := data[i];
            var special := match fmt
                           case Zng => c == ';' as int || (i == 0 && c == '[' as int)
                           case Zeek => c == '\t' as int || (inContainer && c == ',' as int)
                           case ZeekAscii => c == '\t' as int || (inContainer && c == ',' as int)
                           case _ => false;
            Token(data, i, fmt, inContainer, isPrint) ==
            (if c == '\\' as int && fmt != Unescaped then ['\\' as int, '\\' as int]
             else if !isPrint(c) || special then EscapeByte(c)
             else [c], 1)
  {
    assert data[i..][0] == data[i] && data[i..i + 1] == [data[i]];
  }

  /** Other runes are written as they are if they print, and never in the format for ASCII alone. */
  lemma TextOfRune(data: ByteString, i: nat, fmt: OutFmt, inContainer: bool, isPrint: int -> bool)
    requires i < |data| && data[i] >= 0x80
    ensures var (r, n) := DecodeRune(data[i..]);
            Token(data, i, fmt, inContainer, isPrint) ==
            if r == 0xFFFD || !isPrint(r) || fmt == ZeekAscii then (EscapeByte(data[i]), 1) else (data[i..i + n], n)
  {
    hide DecodeRune;
    assert data[i..][0] == data[i];
  }

  /** The text of a byte string; a lone hyphen would read as no value. */
  function Text(data: ByteString, fmt: OutFmt, inContainer: bool, isPrint: int -> bool): ByteString {
    if data == [HYPHEN] then EscapeByte(HYPHEN) else EscapedFrom(data, 0, fmt, inContainer, isPrint)
  }

  /** Copies stretches that need no escape and escapes the rest. */
  method StringOf(data: ByteString, fmt: OutFmt, inContainer: bool, isPrint: int -> bool) returns (text: ByteString)
    ensures text == Text(data, fmt, inContainer, isPrint)
  {
    if data == [HYPHEN] {
      return [BACKSLASH, X, 50, 100];
    }
    hide Copied, ShouldEscape, EscapeByte, DecodeRune;
    var out: ByteString, start, i := [], 0, 0;
    NothingCopied(data, fmt, inContainer, isPrint);
    while i < |data|
      invariant 0 <= start <= i <= |data| && Copied(data, out, start, i, fmt, inContainer, isPrint)
    {
      var (r, l) := DecodeRune(data[i..]);
      if fmt != Unescaped && r == BACKSLASH {
        CopyEscape(data, out, start, i, fmt, inContainer, isPrint);
        out := out + data[start..i] + [BACKSLASH, BACKSLASH];
        i := i + 1;
        start := i;
        continue;
      }
      var needEscape := r == RUNE_ERROR || !isPrint(r);
      if !needEscape {
        needEscape := ShouldEscape(r, fmt, i, inContainer);
      }
      if needEscape {
        CopyEscape(data, out, start, i, fmt, inContainer, isPrint);
        out := out + data[start..i] + EscapeByte(data[i]);
        i := i + 1;
        start := i;
      } else {
        CopyPlain(data, out, start, i, fmt, inContainer, isPrint);
        i := i + l;
      }
    }
    text := out + data[start..|data|];
    AllCopied(data, out, start, fmt, inContainer, isPrint);
  }

  /** The output, the stretch not copied yet and the text of the rest make the whole text. */
  ghost predicate Copied(data: ByteString, out: ByteString, start: nat, i: nat, fmt: OutFmt, inContainer: bool, isPrint: int -> bool)
    requires start <= i <= |data|
  {
    out + data[start..i] + EscapedFrom(data, i, fmt, inContainer, isPrint) == EscapedFrom(data, 0, fmt, inContainer, isPrint)
  }

  lemma NothingCopied(data: ByteString, fmt: OutFmt, inContainer: bool, isPrint: int -> bool)
    ensures Copied(data, [], 0, 0, fmt, inContainer, isPrint)
  {
    assert [] + data[0..0] + EscapedFrom(data, 0, fmt, inContainer, isPrint) == EscapedFrom(data, 0, fmt, inContainer, isPrint);
  }

  lemma CopyEscape(data: ByteString, out: ByteString, start: nat, i: nat, fmt: OutFmt, inContainer: bool, isPrint: int -> bool)
    requires start <= i < |data| && Copied(data, out, start, i, fmt, inContainer, isPrint)
    ensures var (text, n) := Token(data, i, fmt, inContainer, isPrint);
            Copied(data, out + data[start..i] + text, i + n, i + n, fmt, inContainer, isPrint)
  {
    hide EscapedFrom, Token;
    var (text, n) := Token(data, i, fmt, inContainer, isPrint);
    var after := EscapedFrom(data, i + n, fmt, inContainer, isPrint);
    EscapedNext(data, i, fmt, inContainer, isPrint);
    ConcatAssociative(out + data[start..i], text, after);
    assert (out + data[start..i] + text) + data[i + n..i + n] == out + data[start..i] + text;
  }

  lemma CopyPlain(data: ByteString, out: ByteString, start: nat, i: nat, fmt: OutFmt, inContainer: bool, isPrint: int -> bool)
    requires start <= i < |data| && Copied(data, out, start, i, fmt, inContainer, isPrint)
    requires var (text, n) := Token(data, i, fmt, inContainer, isPrint); text == data[i..i + n]
    ensures Copied(data, out, start, i + Token(data, i, fmt, inContainer, isPrint).1, fmt, inContainer, isPrint)
  {
    hide EscapedFrom, Token;
    var (text, n) := Token(data, i, fmt, inContainer, isPrint);
    var after := EscapedFrom(data, i + n, fmt, inContainer, isPrint);
    EscapedNext(data, i, fmt, inContainer, isPrint);
    ConcatAssociative(out + data[start..i], text, after);
    ConcatAssociative(out, data[start..i], text);
    assert data[start..i + n] == data[start..i] + text;
  }

  lemma AllCopied(data: ByteString, out: ByteString, start: nat, fmt: OutFmt, inContainer: bool, isPrint: int -> bool)
    requires start <= |data| && Copied(data, out, start, |data|, fmt, inContainer, isPrint)
    ensures out + data[start..] == EscapedFrom(data, 0, fmt, inContainer, isPrint)
  {
    EscapedNone(data, fmt, inContainer, isPrint);
    assert out + data[start..|data|] + [] == out + data[start..];
  }

  lemma EscapedNext(data: ByteString, i: nat, fmt: OutFmt, inContainer: bool, isPrint: int -> bool)
    requires i < |data|
    ensures var (text, n) := Token(data, i, fmt, inContainer, isPrint);
            EscapedFrom(data, i, fmt, inContainer, isPrint) == text + EscapedFrom(data, i + n, fmt, inContainer, isPrint)
  {
  }

  lemma EscapedNone(data: ByteString, fmt: OutFmt, inContainer: bool, isPrint: int -> bool)
    ensures EscapedFrom(data, |data|, fmt, inContainer, isPrint) == []
  {
  }

  // ----------------------------------------------------------------- unescaping

  /** The value of a hexadecimal digit, 255 for any other byte. */
  function Unhex(b: Byte): Byte {
    if 48 <= b <= 57 then b - 48
    else if 97 <= b <= 102 then b - 87
    else if 65 <= b <= 70 then b - 55
    else 255
  }

  /** The high and the low half of a byte put together; halves that are no digits fill it up. */
  function Halves(v1: Byte, v2: Byte): Byte {
    if v2 == 255 then 255 else if v2 <= 15 then v1 * 16 % 256 + v2 else 255
  }

  /** The byte an escape stands for and how long it is; a backslash that starts none stands for itself. */
  function ParseEscape(data: ByteString): (r: (Byte, nat))
    requires |data| >= 2
    ensures 1 <= r.1 <= |data|
  {
    if |data| >= 4 && data[1] == X then
      var v1, v2 := Unhex(data[2]), Unhex(data[3]);
      if v1 <= 0xf || v2 <= 0xf then (Halves(v1, v2), 4) else (data[0], 1)
    else if data[1] == BACKSLASH then (data[1], 2)
    else (data[0], 1)
  }

  function Unescape(data: ByteString): ByteString {
    if data == [] then []
    else if data[0] == BACKSLASH && |data| >= 2 then
      var (c, n) := ParseEscape(data);
      [c] + Unescape(data[n..])
    else [data[0]] + Unescape(data[1..])
  }

  lemma {:induction false} UnescapePlain(plain: ByteString, rest: ByteString)
    requires BACKSLASH !in plain
    ensures Unescape(plain + rest) == plain + Unescape(rest)
  {
    hide ParseEscape;
    if plain == [] {
      assert plain + rest == rest;
    } else {
      assert plain[0] in plain;
      UnescapePlain(plain[1..], rest);
      UnescapeOrdinary(plain + rest);
      hide Unescape;
      assert (plain + rest)[1..] == plain[1..] + rest;
      assert plain == [plain[0]] + plain[1..];
      ConcatAssociative([plain[0]], plain[1..], Unescape(rest));
    }
  }

  lemma UnescapeOrdinary(data: ByteString)
    requires data != [] && data[0] != BACKSLASH
    ensures Unescape(data) == [data[0]] + Unescape(data[1..])
  {
  }

  method UnescapeBstring(data: ByteString) returns (out: ByteString)
    ensures out == Unescape(data)
  {
    if BACKSLASH !in data {
      UnescapePlain(data, []);
      assert data + [] == data;
      return data;
    }
    var buf: ByteString, i := [], 0;
    assert data[0..] == data;
    while i < |data|
      invariant 0 <= i <= |data| && buf + Unescape(data[i..]) == Unescape(data)
    {
      ghost var rest := data[i..];
      var c := data[i];
      var n := 1;
      if c == BACKSLASH && |data[i..]| >= 2 {
        var e := ParseEscape(data[i..]);
        c, n := e.0, e.1;
      }
      assert data[i..][n..] == data[i + n..];
      assert Unescape(rest) == [c] + Unescape(data[i + n..]);
      hide Unescape;
      ConcatAssociative(buf, [c], Unescape(data[i + n..]));
      i := i + n;
      buf := buf + [c];
    }
    out := buf;
  }

  lemma NothingToUnescape()
    ensures Unescape([]) == []
  {
  }

  lemma UnescapeOneByte(c: Byte, rest: ByteString)
    ensures Unescape(EscapeByte(c) + rest) == [c] + Unescape(rest)
  {
    var t := EscapeByte(c) + rest;
    assert Unhex(HexDigit(c / 16)) == c / 16 && Unhex(HexDigit(c % 16)) == c % 16;
    assert ParseEscape(t) == (c, 4);
    assert t[4..] == rest;
  }

  lemma UnescapeBackslash(rest: ByteString)
    ensures Unescape([BACKSLASH, BACKSLASH] + rest) == [BACKSLASH] + Unescape(rest)
  {
    var t := [BACKSLASH, BACKSLASH] + rest;
    assert ParseEscape(t) == (BACKSLASH, 2);
    assert t[2..] == rest;
  }

  /** The text at `i` stands for the data at `i`. */
  lemma TokenStandsForData(data: ByteString, i: nat, fmt: OutFmt, inContainer: bool, isPrint: int -> bool, rest: ByteString)
    requires i < |data| && fmt != Unescaped
    ensures var (text, n) := Token(data, i, fmt, inContainer, isPrint);
            Unescape(text + rest) == data[i..i + n] + Unescape(rest)
  {
    hide DecodeRune, Unescape, EscapeByte;
    var (r, l) := DecodeRune(data[i..]);
    assert data[i..][0] == data[i];
    if r == BACKSLASH {
      UnescapeBackslash(rest);
      assert data[i..i + 1] == [BACKSLASH];
    } else if r == RUNE_ERROR || !isPrint(r) || ShouldEscape(r, fmt, i, inContainer) {
      UnescapeOneByte(data[i], rest);
      assert data[i..i + 1] == [data[i]];
    } else {
      RuneBytes(data, i, r, l, BACKSLASH);
      UnescapePlain(data[i..i + l], rest);
    }
  }

  /** A byte below 0x80 occurs in the encoding of no other rune. */
  lemma RuneBytes(data: ByteString, i: nat, r: int, l: nat, c: Byte)
    requires i < |data| && (r, l) == DecodeRune(data[i..]) && c < RUNE_SELF && r != c
    ensures c !in data[i..i + l]
  {
    hide DecodeRune;
    var s := data[i..];
    assert forall k :: 0 <= k < l ==> data[i..i + l][k] == s[k];
  }

  lemma {:induction false} UnescapeEscaped(data: ByteString, i: nat, fmt: OutFmt, inContainer: bool, isPrint: int -> bool)
    requires i <= |data| && fmt != Unescaped
    ensures Unescape(EscapedFrom(data, i, fmt, inContainer, isPrint)) == data[i..]
    decreases |data| - i
  {
    hide Unescape, Token, EscapedFrom, DecodeRune, ShouldEscape, EscapeByte;
    if i == |data| {
      EscapedNone(data, fmt, inContainer, isPrint);
      NothingToUnescape();
    } else {
      EscapedNext(data, i, fmt, inContainer, isPrint);
      var (text, n) := Token(data, i, fmt, inContainer, isPrint);
      UnescapeEscaped(data, i + n, fmt, inContainer, isPrint);
      TokenStandsForData(data, i, fmt, inContainer, isPrint, EscapedFrom(data, i + n, fmt, inContainer, isPrint));
      assert data[i..] == data[i..i + n] + data[i + n..];
    }
  }

  /** Unescaping gives back any byte string whose text was made with escapes. */
  lemma TextRoundTrip(data: ByteString, fmt: OutFmt, inContainer: bool, isPrint: int -> bool)
    requires fmt != Unescaped
    ensures Unescape(Text(data, fmt, inContainer, isPrint)) == data
  {
    if data == [HYPHEN] {
      UnescapeOneByte(HYPHEN, []);
      assert EscapeByte(HYPHEN) + [] == EscapeByte(HYPHEN);
    } else {
      UnescapeEscaped(data, 0, fmt, inContainer, isPrint);
      assert data[0..] == data;
    }
  }

  // --------------------------------------------------------------------- parsing

  /** `Overrun` is a slice past the end, behind a backslash that ends the input. */
  datatype ParseError = Unterminated | NotPrimitive | Overrun

  /** Where the value in front ends: at the first semicolon that is not escaped. */
  function Boundary(b: ByteString): (r: Result<nat, ParseError>)
    ensures r.Ok? ==> r.value < |b|
  {
    if b == [] then Err(Unterminated)
    else if b[0] == SEMICOLON then Ok(0)
    else
      var step := if b[0] == BACKSLASH then 2 else 1;
      if step > |b| then Err(Overrun)
      else
        match Boundary(b[step..])
        case Ok(n) => Ok(step + n)
        case Err(e) => Err(e)
  }

  /** A value (none for a lone hyphen) and what follows it. */
  type Field = (Option<ByteString>, ByteString)

  /** Reads one byte string field; `nfc` is Unicode normalization. */
  method ParseField(b: ByteString, nfc: ByteString -> ByteString) returns (r: Result<Field, ParseError>)
    requires |b| > 0
    ensures |b| >= 2 && b[0] == HYPHEN && b[1] == SEMICOLON ==> r == Ok((None, b[2..]))
    ensures b[0] == LEFT_BRACKET ==> r == Err(NotPrimitive)
    ensures !(|b| >= 2 && b[0] == HYPHEN && b[1] == SEMICOLON) && b[0] != LEFT_BRACKET ==>
              && (Boundary(b).Err? ==> r == Err(Boundary(b).error))
              && (Boundary(b).Ok? ==>
                    var end := Boundary(b).value;
                    r == Ok((Some(nfc(Unescape(b[..end]))), b[end + 1..])))
  {
    if |b| >= 2 && b[0] == HYPHEN && b[1] == SEMICOLON {
      return Ok((None, b[2..]));
    }
    if b[0] == LEFT_BRACKET {
      return Err(NotPrimitive);
    }
    var i := 0;
    assert b[0..] == b;
    while i < |b|
      invariant 0 <= i <= |b| + 1
      invariant i <= |b| ==> Boundary(b) == match Boundary(b[i..]) case Ok(n) => Ok(i + n) case Err(e) => Err(e)
      invariant i > |b| ==> Boundary(b) == Err(Overrun)
    {
      if b[i] == SEMICOLON {
        break;
      }
      ghost var was := i;
      if b[i] == BACKSLASH {
        i := i + 1;
      }
      i := i + 1;
      if i <= |b| {
        assert b[was..][i - was..] == b[i..];
      }
    }
    if i == |b| {
      return Err(Unterminated);
    }
    if i > |b| {
      return Err(Overrun);
    }
    var zv := UnescapeBstring(b[..i]);
    r := Ok((Some(nfc(zv)), b[i + 1..]));
  }

  lemma {:induction false} BoundaryAfterPlain(plain: ByteString, rest: ByteString)
    requires BACKSLASH !in plain && SEMICOLON !in plain && Boundary(rest).Ok?
    ensures Boundary(plain + rest) == Ok(|plain| + Boundary(rest).value)
  {
    if plain == [] {
      assert plain + rest == rest;
    } else {
      BoundaryAfterPlain(plain[1..], rest);
      assert plain[0] in plain;
      assert (plain + rest)[1..] == plain[1..] + rest;
    }
  }

  /** No text for a piece of data holds a semicolon that ends the field. */
  lemma BoundaryAfterToken(data: ByteString, i: nat, inContainer: bool, isPrint: int -> bool, rest: ByteString)
    requires i < |data| && Boundary(rest).Ok?
    ensures var text := Token(data, i, Zng, inContainer, isPrint).0;
            Boundary(text + rest) == Ok(|text| + Boundary(rest).value)
  {
    hide DecodeRune, Boundary;
    var (r, l) := DecodeRune(data[i..]);
    var text := Token(data, i, Zng, inContainer, isPrint).0;
    if r == BACKSLASH {
      BoundaryAfterBackslash(rest);
    } else if r == RUNE_ERROR || !isPrint(r) || ShouldEscape(r, Zng, i, inContainer) {
      BoundaryAfterEscape(data[i], rest);
    } else {
      RuneBytes(data, i, r, l, BACKSLASH);
      RuneBytes(data, i, r, l, SEMICOLON);
      BoundaryAfterPlain(text, rest);
    }
  }

  lemma BoundaryAfterBackslash(rest: ByteString)
    requires Boundary(rest).Ok?
    ensures Boundary([BACKSLASH, BACKSLASH] + rest) == Ok(2 + Boundary(rest).value)
  {
    assert ([BACKSLASH, BACKSLASH] + rest)[2..] == rest;
  }

  lemma BoundaryHere(rest: ByteString)
    requires rest != [] && rest[0] == SEMICOLON
    ensures Boundary(rest) == Ok(0)
  {
  }

  lemma BoundaryAfterEscape(c: Byte, rest: ByteString)
    requires Boundary(rest).Ok?
    ensures Boundary(EscapeByte(c) + rest) == Ok(4 + Boundary(rest).value)
  {
    var digits := [HexDigit(c / 16), HexDigit(c % 16)];
    assert (EscapeByte(c) + rest)[2..] == digits + rest;
    BoundaryAfterPlain(digits, rest);
  }

  lemma {:induction false} BoundaryAfterText(data: ByteString, i: nat, inContainer: bool, isPrint: int -> bool, rest: ByteString)
    requires i <= |data| && rest != [] && rest[0] == SEMICOLON
    ensures var text := EscapedFrom(data, i, Zng, inContainer, isPrint);
            Boundary(text + rest) == Ok(|text|)
    decreases |data| - i
  {
    hide Boundary, Token, EscapedFrom;
    var text := EscapedFrom(data, i, Zng, inContainer, isPrint);
    if i == |data| {
      EscapedNone(data, Zng, inContainer, isPrint);
      BoundaryHere(rest);
      assert text + rest == rest;
    } else {
      EscapedNext(data, i, Zng, inContainer, isPrint);
      var (t, n) := Token(data, i, Zng, inContainer, isPrint);
      var more := EscapedFrom(data, i + n, Zng, inContainer, isPrint);
      BoundaryAfterText(data, i + n, inContainer, isPrint, rest);
      BoundaryAfterToken(data, i, inContainer, isPrint, more + rest);
      assert text + rest == t + (more + rest);
    }
  }

  /** The text does not start like a container and is not read as no value. */
  lemma TextStart(data: ByteString, inContainer: bool, isPrint: int -> bool, rest: ByteString)
    ensures var b := Text(data, Zng, inContainer, isPrint) + [SEMICOLON] + rest;
            b[0] != LEFT_BRACKET && !(|b| >= 2 && b[0] == HYPHEN && b[1] == SEMICOLON)
  {
    if data != [] && data != [HYPHEN] {
      hide DecodeRune, Token, EscapedFrom;
      FirstOfToken(data, 0, inContainer, isPrint);
      EscapedNext(data, 0, Zng, inContainer, isPrint);
      if data[0] == HYPHEN {
        EscapedNext(data, 1, Zng, inContainer, isPrint);
        FirstOfToken(data, 1, inContainer, isPrint);
      }
    } else {
      EscapedNone(data, Zng, inContainer, isPrint);
    }
  }

  lemma FirstOfToken(data: ByteString, i: nat, inContainer: bool, isPrint: int -> bool)
    requires i < |data|
    ensures var t := Token(data, i, Zng, inContainer, isPrint).0;
            && t != [] && t[0] != SEMICOLON && (i == 0 ==> t[0] != LEFT_BRACKET)
            && (t[0] == HYPHEN ==> data[i] == HYPHEN && t == [HYPHEN] && Token(data, i, Zng, inContainer, isPrint).1 == 1)
  {
    hide DecodeRune;
    var (r, l) := DecodeRune(data[i..]);
    assert data[i..][0] == data[i];
    assert l > 0 ==> data[i..i + l][0] == data[i];
  }

  /** Parsing the text of a byte string in a record gives it back, normalized, whatever follows. */
  method FieldRoundTrip(data: ByteString, inContainer: bool, isPrint: int -> bool, rest: ByteString, nfc: ByteString -> ByteString)
    returns (r: Result<Field, ParseError>)
    ensures r == Ok((Some(nfc(data)), rest))
  {
    var text := StringOf(data, Zng, inContainer, isPrint);
    var b := text + [SEMICOLON] + rest;
    TextStart(data, inContainer, isPrint, rest);
    BoundaryOfText(data, inContainer, isPrint, rest);
    TextRoundTrip(data, Zng, inContainer, isPrint);
    r := ParseField(b, nfc);
    assert b[..|text|] == text && b[|text| + 1..] == rest;
  }

  lemma BoundaryOfText(data: ByteString, inContainer: bool, isPrint: int -> bool, rest: ByteString)
    ensures var text := Text(data, Zng, inContainer, isPrint);
            Boundary(text + [SEMICOLON] + rest) == Ok(|text|)
  {
    var text, more := Text(data, Zng, inContainer, isPrint), [SEMICOLON] + rest;
    assert text + [SEMICOLON] + rest == text + more;
    if data == [HYPHEN] {
      BoundaryAfterEscape(HYPHEN, more);
    } else {
      BoundaryAfterText(data, 0, inContainer, isPrint, more);
    }
  }
}
