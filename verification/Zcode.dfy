/**
 * The nested value encoding of zcode/: varint tags, the iterator that decodes
 * them, and the Builder that grows a buffer and shifts bodies inside it.
 */
module Zcode {
  import opened Bytes

  // ------------------------------------------------------------------ varint

  /** Longest body whose tag fits in 64 bits. */
  const MAX_BODY: nat := 0x7fff_ffff_ffff_fffe

  /** Exclusive bound on what a varint may still hold after `i` bytes of it. */
  function Limit(i: nat): nat
    requires i <= 9
    decreases 9 - i
  {
    if i == 9 then 2 else 128 * Limit(i + 1)
  }

  lemma LimitIs64Bits()
    ensures Limit(0) == 0x1_0000_0000_0000_0000
  {
    assert Limit(5) == 0x2000_0000 by {
      assert Limit(8) == 256 && Limit(7) == 32768;
    }
    assert Limit(2) == 128 * 128 * 128 * Limit(5);
  }

  /** The unsigned LEB128 form of `u`. */
  function UvarintBytes(u: nat): (r: ByteString)
    ensures 1 <= |r|
  {
    if u < 128 then [u] else [u % 128 + 128] + UvarintBytes(u / 128)
  }

  datatype Uvarint = Decoded(value: nat, size: nat) | Short | Overflow

  /** Decoding with `i` bytes already consumed; the tenth byte may only be 0 or 1. */
  function DecodeFrom(buf: ByteString, i: nat): (r: Uvarint)
    ensures r.Decoded? ==> 1 <= r.size <= |buf|
  {
    if |buf| == 0 then Short
    else if buf[0] < 128 then
      if i > 9 || (i == 9 && buf[0] > 1) then Overflow else Decoded(buf[0], 1)
    else
      match DecodeFrom(buf[1..], i + 1)
      case Decoded(v, n) => Decoded(buf[0] - 128 + 128 * v, n + 1)
      case other => other
  }

  function DecodeUvarint(buf: ByteString): (r: Uvarint)
    ensures r.Decoded? ==> 1 <= r.size <= |buf|
  {
    DecodeFrom(buf, 0)
  }

  lemma {:induction false} DecodeFromEncoded(u: nat, i: nat, rest: ByteString)
    requires i <= 9 && u < Limit(i)
    ensures DecodeFrom(UvarintBytes(u) + rest, i) == Decoded(u, |UvarintBytes(u)|)
  {
    var s := UvarintBytes(u) + rest;
    if u >= 128 {
      DecodeFromEncoded(u / 128, i + 1, rest);
      assert s[1..] == UvarintBytes(u / 128) + rest;
    }
  }

  /** Every 64-bit value survives the varint form, whatever follows it. */
  lemma UvarintRoundTrip(u: nat, rest: ByteString)
    requires u < 0x1_0000_0000_0000_0000
    ensures DecodeUvarint(UvarintBytes(u) + rest) == Decoded(u, |UvarintBytes(u)|)
  {
    LimitIs64Bits();
    DecodeFromEncoded(u, 0, rest);
  }

  /** The number whose groups of seven bits these are, the lowest first. */
  function GroupsValue(bytes: ByteString): nat {
    if bytes == [] then 0 else bytes[0] % 128 + 128 * GroupsValue(bytes[1..])
  }

  /** The top bit is set in all bytes but the last. */
  ghost predicate OneVarint(bytes: ByteString) {
    bytes != [] && bytes[|bytes| - 1] < 128 && forall i :: 0 <= i < |bytes| - 1 ==> bytes[i] >= 128
  }

  /** What the bytes of a varint are: the number's groups of seven bits, and none of them superfluous. */
  lemma {:induction false} UvarintForm(u: nat)
    ensures var b := UvarintBytes(u);
            OneVarint(b) && GroupsValue(b) == u && (|b| > 1 ==> b[|b| - 1] != 0)
  {
    var b := UvarintBytes(u);
    if u >= 128 {
      UvarintForm(u / 128);
      assert b[1..] == UvarintBytes(u / 128);
    } else {
      assert b[1..] == [];
    }
  }

  /** The number of a varint of `n` bytes behind `i` others fits in 64 bits. */
  ghost predicate FitsBehind(bytes: ByteString, i: nat) {
    |bytes| + i <= 10 && (|bytes| + i == 10 && bytes != [] ==> bytes[|bytes| - 1] <= 1)
  }

  /** What is decoded: the first varint in the buffer, if its number fits. */
  lemma {:induction false} DecodedIs(buf: ByteString, i: nat)
    ensures match DecodeFrom(buf, i)
            case Decoded(v, n) => OneVarint(buf[..n]) && v == GroupsValue(buf[..n]) && FitsBehind(buf[..n], i)
            case Short => forall k :: 0 <= k < |buf| ==> buf[k] >= 128
            case Overflow => exists n: nat :: BadVarint(buf, n, i)
  {
    if buf != [] {
      var rest := buf[1..];
      if buf[0] < 128 {
        assert buf[..1] == [buf[0]] && [buf[0]][1..] == [];
        if DecodeFrom(buf, i).Overflow? {
          assert BadVarint(buf, 1, i);
        }
      } else {
        var more := i + 1;
        DecodedIs(rest, more);
        match DecodeFrom(rest, more) {
          case Decoded(v, n) => assert buf[..n + 1][1..] == rest[..n];
          case Short =>
          case Overflow =>
            var n: nat :| BadVarint(rest, n, more);
            assert buf[..n + 1] == [buf[0]] + rest[..n];
            assert BadVarint(buf, n + 1, i);
        }
      }
    }
  }

  ghost predicate BadVarint(buf: ByteString, n: nat, i: nat) {
    n <= |buf| && OneVarint(buf[..n]) && !FitsBehind(buf[..n], i)
  }

  method AppendUvarint(dst: ByteString, u64: nat) returns (r: ByteString)
    ensures r == dst + UvarintBytes(u64)
  {
    r := dst;
    var u := u64;
    while u >= 128
      invariant r + UvarintBytes(u) == dst + UvarintBytes(u64)
    {
      assert r + UvarintBytes(u) == r + [u % 128 + 128] + UvarintBytes(u / 128);
      r := r + [u % 128 + 128];
      u := u / 128;
    }
    r := r + [u];
  }

  method SizeOfUvarint(u64: nat) returns (n: nat)
    ensures n == |UvarintBytes(u64)|
  {
    n := 1;
    var u := u64;
    while u >= 128
      invariant n + |UvarintBytes(u)| == 1 + |UvarintBytes(u64)|
    {
      n := n + 1;
      u := u / 128;
    }
  }

  // -------------------------------------------------------------------- tags

  function ContainerTag(length: nat): nat { 2 * length + 1 }

  function PrimitiveTag(length: nat): nat { 2 * (length + 1) }

  const TAG_NULL: nat := 0

  predicate TagIsContainer(t: nat) { t % 2 == 1 }

  function TagLength(t: nat): nat
    requires t != TAG_NULL
  {
    t / 2 - (1 - t % 2)
  }

  // -------------------------------------------------------------- value trees

  /**
   * What a sequence of Builder calls describes.  `Opaque` is a container whose
   * body was supplied already encoded; `Raw` stands for bytes put in place by a
   * body transformation.
   */
  datatype Value =
    | Null
    | Primitive(body: ByteString)
    | Container(children: seq<Value>)
    | Opaque(body: ByteString)
    | Raw(bytes: ByteString)

  /** Body of a tagged value: absent for an unset value. */
  type Body = Option<ByteString>

  function EncodePrimitive(body: Body): ByteString {
    match body
    case None => UvarintBytes(TAG_NULL)
    case Some(b) => UvarintBytes(PrimitiveTag(|b|)) + b
  }

  function EncodeContainer(body: Body): ByteString {
    match body
    case None => UvarintBytes(TAG_NULL)
    case Some(b) => UvarintBytes(ContainerTag(|b|)) + b
  }

  function Encode(v: Value): ByteString
    decreases v, 1
  {
    match v
    case Null => [0]
    case Primitive(b) => EncodePrimitive(Some(b))
    case Container(vs) => EncodeContainer(Some(EncodeAll(vs)))
    case Opaque(b) => EncodeContainer(Some(b))
    case Raw(b) => b
  }

  function EncodeAll(vs: seq<Value>): ByteString
    decreases vs, 0
  {
    if |vs| == 0 then [] else Encode(vs[0]) + EncodeAll(vs[1..])
  }

  lemma {:induction false} EncodeAllAppend(a: seq<Value>, b: seq<Value>)
    ensures EncodeAll(a + b) == EncodeAll(a) + EncodeAll(b)
  {
    if |a| == 0 {
      assert a + b == b;
    } else {
      EncodeAllAppend(a[1..], b);
      assert (a + b)[1..] == a[1..] + b && (a + b)[0] == a[0];
      ConcatAssociative(Encode(a[0]), EncodeAll(a[1..]), EncodeAll(b));
    }
  }

  lemma EncodeAllSnoc(a: seq<Value>, v: Value)
    ensures EncodeAll(a + [v]) == EncodeAll(a) + Encode(v)
  {
    EncodeAllAppend(a, [v]);
    assert EncodeAll([v]) == Encode(v) + EncodeAll([]);
  }

  // ---------------------------------------------------------------- iteration

  /** One step of the iterator; `Panic` is a slice out of range. */
  datatype Step =
    | Item(body: Body, container: bool, tagged: ByteString, rest: ByteString)
    | BadUvarint
    | Panic

  function StepOf(buf: ByteString): (s: Step)
    ensures s.Item? ==> |s.rest| < |buf| && buf == s.tagged + s.rest
    ensures s.Item? && s.body.Some? ==> |s.body.value| < |s.tagged|
  {
    match DecodeUvarint(buf)
    case Short => BadUvarint
    case Overflow => BadUvarint
    case Decoded(u, n) =>
      if u == TAG_NULL then Item(None, false, buf[..n], buf[n..])
      else
        var end := n + TagLength(u);
        if end > |buf| then Panic
        else Item(Some(buf[n..end]), TagIsContainer(u), buf[..end], buf[end..])
  }

  /** The decoder position over an encoded sequence. */
  class Iter {
    var buf: ByteString

    constructor (b: ByteString)
      ensures buf == b
    {
      buf := b;
    }

    predicate Done()
      reads this
    {
      |buf| == 0
    }

    /** Returns the next body and whether it is a container, and moves past it. */
    method Next() returns (r: Result<(Body, bool), ()>)
      requires !StepOf(buf).Panic?
      modifies this
      ensures match old(StepOf(buf))
              case Item(body, container, _, rest) => r == Ok((body, container)) && buf == rest
              case BadUvarint => r.Err? && buf == old(buf)
              case Panic => true
    {
      var d := DecodeUvarint(buf);
      if !d.Decoded? {
        return Err(());
      }
      if d.value == TAG_NULL {
        buf := buf[d.size..];
        return Ok((None, false));
      }
      var end := d.size + TagLength(d.value);
      var val := buf[d.size..end];
      buf := buf[end..];
      r := Ok((Some(val), TagIsContainer(d.value)));
    }

    /** Returns the next value with its tag still on, and moves past it. */
    method NextTagAndBody() returns (r: Result<(ByteString, bool), ()>)
      requires !StepOf(buf).Panic?
      modifies this
      ensures match old(StepOf(buf))
              case Item(_, container, tagged, rest) => r == Ok((tagged, container)) && buf == rest
              case BadUvarint => r.Err? && buf == old(buf)
              case Panic => true
    {
      var d := DecodeUvarint(buf);
      if !d.Decoded? {
        return Err(());
      }
      var n := d.size;
      if d.value != TAG_NULL {
        n := n + TagLength(d.value);
      }
      var val := buf[..n];
      buf := buf[n..];
      r := Ok((val, TagIsContainer(d.value)));
    }
  }

  lemma StepOfTagged(tag: nat, body: ByteString, rest: ByteString)
    requires 0 < tag < 0x1_0000_0000_0000_0000 && TagLength(tag) == |body|
    ensures StepOf(UvarintBytes(tag) + body + rest) ==
            Item(Some(body), TagIsContainer(tag), UvarintBytes(tag) + body, rest)
  {
    var buf := UvarintBytes(tag) + body + rest;
    assert buf == UvarintBytes(tag) + (body + rest);
    UvarintRoundTrip(tag, body + rest);
    var n := |UvarintBytes(tag)|;
    assert buf[n..n + |body|] == body;
    assert buf[..n + |body|] == UvarintBytes(tag) + body;
    assert buf[n + |body|..] == rest;
  }

  /** What the iterator should hand back for `v`. */
  function BodyOf(v: Value): Body {
    match v
    case Null => None
    case Primitive(b) => Some(b)
    case Container(vs) => Some(EncodeAll(vs))
    case Opaque(b) => Some(b)
    case Raw(_) => None
  }

  predicate IsContainer(v: Value) { v.Container? || v.Opaque? }

  /** A value whose own tag fits; nested values are smaller. */
  ghost predicate Fits(v: Value) {
    !v.Raw? && (BodyOf(v).Some? ==> |BodyOf(v).value| <= MAX_BODY)
  }

  lemma StepOfEncoded(v: Value, rest: ByteString)
    requires Fits(v)
    ensures StepOf(Encode(v) + rest) == Item(BodyOf(v), IsContainer(v), Encode(v), rest)
  {
    match v
    case Null =>
      UvarintRoundTrip(0, rest);
      assert ([0] + rest)[1..] == rest;
    case Primitive(b) => StepOfTagged(PrimitiveTag(|b|), b, rest);
    case Container(vs) => StepOfTagged(ContainerTag(|EncodeAll(vs)|), EncodeAll(vs), rest);
    case Opaque(b) => StepOfTagged(ContainerTag(|b|), b, rest);
  }

  /** Reads a whole buffer back as a tree, descending into every container body. */
  function DecodeTree(buf: ByteString): Option<seq<Value>>
    decreases |buf|
  {
    if buf == [] then Some([])
    else
      match StepOf(buf)
      case Item(body, container, _, rest) =>
        var head := match body
                    case None => Some(Null)
                    case Some(b) =>
                      if !container then Some(Primitive(b))
                      else match DecodeTree(b)
                           case Some(vs) => Some(Container(vs))
                           case None => None;
        var tail := DecodeTree(rest);
        if head.Some? && tail.Some? then Some([head.value] + tail.value) else None
      case _ => None
  }

  /** A tree of unset values, primitives and containers built call by call. */
  ghost predicate Plain(vs: seq<Value>)
    decreases vs
  {
    forall i :: 0 <= i < |vs| ==>
      !vs[i].Raw? && !vs[i].Opaque? && (vs[i].Container? ==> Plain(vs[i].children))
  }

  /**
   * The bytes hold these values: each has a varint in front, which is zero for an unset
   * value, twice a primitive's length and two more, or twice a container's length and
   * one more; a container's bytes hold its values.
   */
  ghost predicate HoldsValues(buf: ByteString, vs: seq<Value>)
    decreases vs
  {
    if |vs| == 0 then buf == []
    else
      var tag := DecodeUvarint(buf);
      && tag.Decoded?
      && match vs[0]
         case Null => tag.value == 0 && HoldsValues(buf[tag.size..], vs[1..])
         case Primitive(b) =>
           && tag.value == 2 * |b| + 2 && tag.size + |b| <= |buf|
           && buf[tag.size..tag.size + |b|] == b && HoldsValues(buf[tag.size + |b|..], vs[1..])
         case Container(cs) =>
           exists n: nat :: tag.value == 2 * n + 1 && tag.size + n <= |buf|
             && HoldsValues(buf[tag.size..tag.size + n], cs) && HoldsValues(buf[tag.size + n..], vs[1..])
         case _ => false
  }

  /** What the encoding of one value looks like. */
  lemma TaggedForm(v: Value, rest: ByteString)
    requires Fits(v)
    ensures var tag := DecodeUvarint(Encode(v) + rest);
            && tag.Decoded? && tag.size <= |Encode(v)|
            && (v.Null? ==> tag.value == 0 && |Encode(v)| == tag.size)
            && (v.Primitive? ==> tag.value == 2 * |v.body| + 2 && Encode(v)[tag.size..] == v.body)
            && (v.Opaque? ==> tag.value == 2 * |v.body| + 1 && Encode(v)[tag.size..] == v.body)
            && (v.Container? ==> tag.value == 2 * |EncodeAll(v.children)| + 1 && Encode(v)[tag.size..] == EncodeAll(v.children))
  {
    hide UvarintBytes, DecodeUvarint;
    if v.Null? {
      NullTag();
      UvarintRoundTrip(0, rest);
    } else {
      var body := BodyOf(v).value;
      var tag := if v.Primitive? then PrimitiveTag(|body|) else ContainerTag(|body|);
      assert Encode(v) == UvarintBytes(tag) + body;
      assert Encode(v) + rest == UvarintBytes(tag) + (body + rest);
      UvarintRoundTrip(tag, body + rest);
    }
  }

  lemma NullTag()
    ensures UvarintBytes(0) == [0]
  {
  }

  /** The encoding of values has the format of zcode. */
  lemma {:induction false} EncodingFormat(vs: seq<Value>)
    requires Plain(vs) && |EncodeAll(vs)| <= MAX_BODY
    ensures HoldsValues(EncodeAll(vs), vs)
    decreases vs
  {
    if |vs| > 0 {
      hide DecodeUvarint, Encode;
      var v, rest := vs[0], EncodeAll(vs[1..]);
      var buf := Encode(v) + rest;
      EncodingFormat(vs[1..]);
      FirstFits(vs);
      TaggedForm(v, rest);
      var size := DecodeUvarint(buf).size;
      assert buf[|Encode(v)|..] == rest;
      var n := |Encode(v)| - size;
      assert buf[size..size + n] == Encode(v)[size..];
      if v.Container? {
        EncodingFormat(v.children);
        assert buf[size..size + |EncodeAll(v.children)|] == EncodeAll(v.children);
      }
    }
  }

  lemma FirstFits(vs: seq<Value>)
    requires |vs| > 0 && Plain(vs) && |EncodeAll(vs)| <= MAX_BODY
    ensures Fits(vs[0]) && (vs[0].Container? ==> |EncodeAll(vs[0].children)| <= MAX_BODY)
  {
  }

  /**
   * The encoding is a faithful picture of the tree: reading it back, level by
   * level, gives the tree itself, with unset, empty and non-empty bodies apart.
   */
  lemma {:induction false} TreeRoundTrip(vs: seq<Value>)
    requires Plain(vs) && |EncodeAll(vs)| <= MAX_BODY
    ensures DecodeTree(EncodeAll(vs)) == Some(vs)
    decreases vs
  {
    if |vs| > 0 {
      var v, rest := vs[0], EncodeAll(vs[1..]);
      StepOfEncoded(v, rest);
      TreeRoundTrip(vs[1..]);
      if v.Container? {
        TreeRoundTrip(v.children);
      }
      assert [v] + vs[1..] == vs;
    }
  }

  // ------------------------------------------------------------------ builder

  /** The buffer while `frames` are open: each open container owns one tag byte so far. */
  function Layout(frames: seq<seq<Value>>): ByteString
    requires |frames| > 0
    decreases |frames|
  {
    if |frames| == 1 then EncodeAll(frames[0])
    else Layout(frames[..|frames| - 1]) + [0] + EncodeAll(frames[|frames| - 1])
  }

  /** Where the body of each open container starts. */
  function Offsets(frames: seq<seq<Value>>): (r: seq<nat>)
    requires |frames| > 0
    ensures |r| == |frames| - 1
    decreases |frames|
  {
    if |frames| == 1 then []
    else Offsets(frames[..|frames| - 1]) + [|Layout(frames[..|frames| - 1])| + 1]
  }

  /** The frames after appending `v` to the innermost one. */
  function Push(frames: seq<seq<Value>>, v: Value): (r: seq<seq<Value>>)
    requires |frames| > 0
    ensures |r| == |frames|
  {
    frames[..|frames| - 1] + [frames[|frames| - 1] + [v]]
  }

  /** The frames after closing the innermost container. */
  function Pop(frames: seq<seq<Value>>): (r: seq<seq<Value>>)
    requires |frames| > 1
    ensures |r| == |frames| - 1
  {
    Push(frames[..|frames| - 1], Container(frames[|frames| - 1]))
  }

  lemma LayoutTop(outer: seq<seq<Value>>, inner: seq<Value>)
    ensures Layout(outer + [inner]) ==
            if |outer| == 0 then EncodeAll(inner) else Layout(outer) + [0] + EncodeAll(inner)
    ensures Offsets(outer + [inner]) ==
            if |outer| == 0 then [] else Offsets(outer) + [|Layout(outer)| + 1]
  {
    assert (outer + [inner])[..|outer|] == outer;
  }

  lemma LayoutPush(frames: seq<seq<Value>>, v: Value)
    requires |frames| > 0
    ensures Layout(Push(frames, v)) == Layout(frames) + Encode(v)
    ensures Offsets(Push(frames, v)) == Offsets(frames)
  {
    var outer, inner := frames[..|frames| - 1], frames[|frames| - 1];
    assert frames == outer + [inner];
    LayoutTop(outer, inner);
    LayoutTop(outer, inner + [v]);
    EncodeAllSnoc(inner, v);
    if |outer| > 0 {
      ConcatAssociative(Layout(outer) + [0], EncodeAll(inner), Encode(v));
    }
    assert Push(frames, v) == outer + [inner + [v]];
  }

  lemma LayoutBegin(frames: seq<seq<Value>>)
    requires |frames| > 0
    ensures Layout(frames + [[]]) == Layout(frames) + [0]
    ensures Offsets(frames + [[]]) == Offsets(frames) + [|Layout(frames)| + 1]
  {
    LayoutTop(frames, []);
  }

  /** Moving `body` over by a tag's worth leaves the room in front of it and the body behind it. */
  lemma ShiftedBody(buf: ByteString, bodyOff: nat, tagSize: nat)
    requires 1 <= bodyOff <= |buf| && 1 <= tagSize <= |buf| - bodyOff + 1
    ensures var moved := buf[..bodyOff - 1 + tagSize] + buf[bodyOff..];
            && moved[..bodyOff - 1] == buf[..bodyOff - 1]
            && moved[bodyOff - 1 + tagSize..] == buf[bodyOff..]
  {
  }

  /** Replaces the one byte before `bodyOff` by `tag`, moving the body over if need be. */
  method ShiftIn(buf: ByteString, bodyOff: nat, tag: ByteString, tagSize: nat) returns (bytes: ByteString)
    requires 1 <= bodyOff <= |buf| && 1 <= tagSize == |tag| <= |buf| - bodyOff + 1
    ensures bytes == buf[..bodyOff - 1] + (tag + buf[bodyOff..])
  {
    var tagOff := bodyOff - 1;
    ShiftedBody(buf, bodyOff, tagSize);
    bytes := buf;
    if tagSize > 1 {
      bytes := buf[..tagOff + tagSize] + buf[bodyOff..];
    }
    bytes := bytes[..tagOff] + tag + bytes[tagOff + tagSize..];
  }

  /** Writes the tag of the container whose body starts at `bodyOff`. */
  method WriteTag(buf: ByteString, bodyOff: nat) returns (bytes: ByteString)
    requires 1 <= bodyOff <= |buf|
    ensures bytes == buf[..bodyOff - 1] + EncodeContainer(Some(buf[bodyOff..]))
  {
    var encoded, tagSize := TagBytes(|buf| - bodyOff);
    bytes := ShiftIn(buf, bodyOff, encoded, tagSize);
  }

  /** The tag of a container body of this length, and its size. */
  method TagBytes(length: nat) returns (encoded: ByteString, tagSize: nat)
    ensures encoded == UvarintBytes(ContainerTag(length))
    ensures 1 <= tagSize == |encoded| <= length + 1
  {
    var tag := ContainerTag(length);
    tagSize := SizeOfUvarint(tag);
    encoded := AppendUvarint([], tag);
    BodyOutgrowsTag(length);
  }

  lemma LayoutSplit(frames: seq<seq<Value>>)
    requires |frames| > 1
    ensures var off := Offsets(frames)[|frames| - 2];
            && 1 <= off <= |Layout(frames)|
            && Layout(frames)[..off - 1] == Layout(frames[..|frames| - 1])
            && Layout(frames)[off..] == EncodeAll(frames[|frames| - 1])
            && Offsets(frames)[..|frames| - 2] == Offsets(frames[..|frames| - 1])
  {
  }

  class Builder {
    var bytes: ByteString
    var containers: seq<nat>
    ghost var frames: seq<seq<Value>>

    ghost predicate Valid()
      reads this
    {
      |frames| > 0 && bytes == Layout(frames) && containers == Offsets(frames)
    }

    constructor ()
      ensures Valid() && frames == [[]]
    {
      bytes := [];
      containers := [];
      frames := [[]];
    }

    method Reset()
      modifies this
      ensures Valid() && frames == [[]]
    {
      bytes := [];
      containers := [];
      frames := [[]];
    }

    method BeginContainer()
      requires Valid()
      modifies this
      ensures Valid() && frames == old(frames) + [[]]
    {
      LayoutBegin(frames);
      bytes := bytes + [0];
      containers := containers + [|bytes|];
      frames := frames + [[]];
    }

    /** Closes the innermost container, shifting its body when the tag needs more than one byte. */
    method EndContainer()
      requires Valid() && |frames| > 1
      modifies this
      ensures Valid() && frames == Pop(old(frames))
    {
      ghost var outer, inner := frames[..|frames| - 1], frames[|frames| - 1];
      LayoutPush(outer, Container(inner));
      LayoutSplit(frames);
      var bodyOff := containers[|containers| - 1];
      containers := containers[..|containers| - 1];
      bytes := WriteTag(bytes, bodyOff);
      frames := Pop(frames);
    }

    /** Replaces the body of the innermost container by its image under `transform`. */
    method TransformContainer(transform: ByteString -> ByteString)
      requires Valid() && |frames| > 1
      modifies this
      ensures Valid()
      ensures frames == old(frames)[..|old(frames)| - 1] + [[Raw(transform(EncodeAll(old(frames)[|old(frames)| - 1])))]]
    {
      ghost var outer, inner := frames[..|frames| - 1], frames[|frames| - 1];
      var bodyOff := containers[|containers| - 1];
      assert bytes[bodyOff..] == EncodeAll(inner);
      var body := transform(bytes[bodyOff..]);
      bytes := bytes[..bodyOff] + body;
      frames := outer + [[Raw(body)]];
      assert EncodeAll([Raw(body)]) == body + EncodeAll([]);
      assert frames[..|frames| - 1] == outer;
    }

    method AppendContainer(val: Body)
      requires Valid()
      modifies this
      ensures Valid() && frames == Push(old(frames), if val.None? then Null else Opaque(val.value))
    {
      LayoutPush(frames, if val.None? then Null else Opaque(val.value));
      if val.None? {
        bytes := AppendUvarint(bytes, TAG_NULL);
      } else {
        bytes := AppendUvarint(bytes, ContainerTag(|val.value|));
        bytes := bytes + val.value;
      }
      frames := Push(frames, if val.None? then Null else Opaque(val.value));
    }

    method AppendPrimitive(val: Body)
      requires Valid()
      modifies this
      ensures Valid() && frames == Push(old(frames), if val.None? then Null else Primitive(val.value))
    {
      LayoutPush(frames, if val.None? then Null else Primitive(val.value));
      if val.None? {
        bytes := AppendUvarint(bytes, TAG_NULL);
      } else {
        bytes := AppendUvarint(bytes, PrimitiveTag(|val.value|));
        bytes := bytes + val.value;
      }
      frames := Push(frames, if val.None? then Null else Primitive(val.value));
    }

    method AppendNull()
      requires Valid()
      modifies this
      ensures Valid() && frames == Push(old(frames), Null)
    {
      LayoutPush(frames, Null);
      bytes := bytes + [TAG_NULL];
      frames := Push(frames, Null);
    }

    /** The finished value; the source panics while a container is open. */
    method Finish() returns (r: ByteString)
      requires Valid() && |frames| == 1
      ensures r == EncodeAll(frames[0])
    {
      r := bytes;
    }
  }

  /** A body that needs a longer tag is long enough for the tag to be written over it after the shift. */
  lemma BodyOutgrowsTag(length: nat)
    ensures |UvarintBytes(ContainerTag(length))| <= length + 1
  {
    UvarintShort(ContainerTag(length));
  }

  lemma {:induction false} UvarintShort(u: nat)
    ensures u >= 128 ==> |UvarintBytes(u)| <= u / 64
    ensures u < 128 ==> |UvarintBytes(u)| == 1
  {
    if u >= 128 {
      UvarintShort(u / 128);
    }
  }

  // ------------------------------------------------- whole runs of the builder

  /** A call of one of the Builder's methods. */
  datatype Call =
    | Begin
    | End
    | PutNull
    | PutPrimitive(body: Body)
    | PutContainer(body: Body)
    | Transform(transform: ByteString -> ByteString)

  /** The value a call appends. */
  function Appended(c: Call): Value
    requires c.PutNull? || c.PutPrimitive? || c.PutContainer?
  {
    match c
    case PutPrimitive(Some(b)) => Primitive(b)
    case PutContainer(Some(b)) => Opaque(b)
    case _ => Null
  }

  /** The effect of one call on the open frames; None when it needs an open container and there is none. */
  function AfterCall(frames: seq<seq<Value>>, c: Call): (r: Option<seq<seq<Value>>>)
    requires |frames| > 0
    ensures r.Some? ==> |r.value| > 0
  {
    var k := |frames| - 1;
    match c
    case Begin => Some(frames + [[]])
    case End => if k == 0 then None else Some(Pop(frames))
    case Transform(f) => if k == 0 then None else Some(frames[..k] + [[Raw(f(EncodeAll(frames[k])))]])
    case _ => Some(Push(frames, Appended(c)))
  }

  /** The effect of a run on the open frames. */
  function RunFrames(frames: seq<seq<Value>>, calls: seq<Call>): (r: Option<seq<seq<Value>>>)
    requires |frames| > 0
    ensures r.Some? ==> |r.value| > 0
    decreases |calls|
  {
    if |calls| == 0 then Some(frames)
    else
      match AfterCall(frames, calls[0])
      case Some(next) => RunFrames(next, calls[1..])
      case None => None
  }

  method MakeCall(b: Builder, c: Call)
    requires b.Valid() && AfterCall(b.frames, c).Some?
    modifies b
    ensures b.Valid() && Some(b.frames) == AfterCall(old(b.frames), c)
  {
    match c {
      case Begin => b.BeginContainer();
      case End => b.EndContainer();
      case PutNull => b.AppendNull();
      case PutPrimitive(body) => b.AppendPrimitive(body);
      case PutContainer(body) => b.AppendContainer(body);
      case Transform(f) => b.TransformContainer(f);
    }
  }

  /** Drives a builder through `calls`. */
  method Drive(b: Builder, calls: seq<Call>)
    requires b.Valid()
    requires RunFrames(b.frames, calls).Some?
    modifies b
    ensures b.Valid() && Some(b.frames) == RunFrames(old(b.frames), calls)
  {
    hide AfterCall;
    var k := 0;
    while k < |calls|
      invariant 0 <= k <= |calls| && b.Valid()
      invariant RunFrames(b.frames, calls[k..]) == RunFrames(old(b.frames), calls)
    {
      assert calls[k..][1..] == calls[k + 1..];
      MakeCall(b, calls[k]);
      k := k + 1;
    }
  }

  /** Every value appended is unset or a primitive, and no body is replaced. */
  predicate PutsLeaves(calls: seq<Call>) {
    forall i :: 0 <= i < |calls| ==> !calls[i].Transform? && (calls[i].PutContainer? ==> calls[i].body.None?)
  }

  ghost predicate AllPlain(frames: seq<seq<Value>>) {
    forall i :: 0 <= i < |frames| ==> Plain(frames[i])
  }

  lemma PlainSnoc(vs: seq<Value>, v: Value)
    requires Plain(vs) && !v.Raw? && !v.Opaque? && (v.Container? ==> Plain(v.children))
    ensures Plain(vs + [v])
  {
  }

  /** Such calls leave plain trees. */
  lemma {:induction false} RunIsPlain(frames: seq<seq<Value>>, calls: seq<Call>)
    requires |frames| > 0 && AllPlain(frames) && PutsLeaves(calls) && RunFrames(frames, calls).Some?
    ensures AllPlain(RunFrames(frames, calls).value)
    decreases |calls|
  {
    if |calls| > 0 {
      var c, k := calls[0], |frames| - 1;
      if c.End? {
        PlainSnoc(frames[k - 1], Container(frames[k]));
      } else if !c.Begin? {
        PlainSnoc(frames[k], Appended(c));
      }
      RunIsPlain(AfterCall(frames, c).value, calls[1..]);
    }
  }

  /**
   * Any balanced run of calls on a reset builder gives the recursive encoding of
   * the tree the calls describe; if only unset values and primitives were
   * appended, reading the bytes gives back that tree.
   */
  method BuildWith(b: Builder, calls: seq<Call>, ghost vs: seq<Value>) returns (r: ByteString)
    requires RunFrames([[]], calls) == Some([vs])
    modifies b
    ensures r == EncodeAll(vs)
    ensures PutsLeaves(calls) && |r| <= MAX_BODY ==> DecodeTree(r) == Some(vs)
  {
    b.Reset();
    Drive(b, calls);
    r := b.Finish();
    if PutsLeaves(calls) && |r| <= MAX_BODY {
      RunIsPlain([[]], calls);
      assert Plain([vs][0]);
      TreeRoundTrip(vs);
    }
  }

  /** A tree whose every part some call can write. */
  ghost predicate Writable(vs: seq<Value>)
    decreases vs
  {
    forall i :: 0 <= i < |vs| ==> !vs[i].Raw? && (vs[i].Container? ==> Writable(vs[i].children))
  }

  /** The calls that write `vs`; a container becomes Begin, its children, End. */
  function CallsFor(vs: seq<Value>): seq<Call>
    requires Writable(vs)
    decreases vs
  {
    if |vs| == 0 then [] else CallsForOne(vs) + CallsFor(vs[1..])
  }

  function CallsForOne(vs: seq<Value>): seq<Call>
    requires |vs| > 0 && Writable(vs)
    decreases vs, 0
  {
    match vs[0]
    case Null => [PutNull]
    case Primitive(b) => [PutPrimitive(Some(b))]
    case Opaque(b) => [PutContainer(Some(b))]
    case Container(cs) => [Begin] + CallsFor(cs) + [End]
  }

  lemma {:induction false} RunFramesAppend(frames: seq<seq<Value>>, a: seq<Call>, b: seq<Call>)
    requires |frames| > 0 && RunFrames(frames, a).Some?
    ensures RunFrames(frames, a + b) == RunFrames(RunFrames(frames, a).value, b)
    decreases |a|
  {
    if |a| == 0 {
      assert a + b == b;
    } else {
      assert (a + b)[1..] == a[1..] + b;
      RunFramesAppend(AfterCall(frames, a[0]).value, a[1..], b);
    }
  }

  /** Running the calls for `vs` adds exactly `vs` to the innermost open frame. */
  lemma {:induction false} CallsWriteTree(frames: seq<seq<Value>>, vs: seq<Value>)
    requires |frames| > 0 && Writable(vs)
    ensures RunFrames(frames, CallsFor(vs)) ==
            Some(frames[..|frames| - 1] + [frames[|frames| - 1] + vs])
    decreases vs
  {
    var k := |frames| - 1;
    if |vs| == 0 {
      assert frames[k] + vs == frames[k];
      assert frames[..k] + [frames[k]] == frames;
    } else {
      var after := Push(frames, vs[0]);
      CallsWriteOne(frames, vs);
      RunFramesAppend(frames, CallsForOne(vs), CallsFor(vs[1..]));
      CallsWriteTree(after, vs[1..]);
      assert after[..k] == frames[..k] && after[k] == frames[k] + [vs[0]];
      assert frames[k] + [vs[0]] + vs[1..] == frames[k] + vs;
    }
  }

  lemma {:induction false} CallsWriteOne(frames: seq<seq<Value>>, vs: seq<Value>)
    requires |frames| > 0 && |vs| > 0 && Writable(vs)
    ensures RunFrames(frames, CallsForOne(vs)) == Some(Push(frames, vs[0]))
    decreases vs, 0
  {
    var calls := CallsForOne(vs);
    if vs[0].Container? {
      var cs, inside := vs[0].children, frames + [[]];
      CallsWriteTree(inside, cs);
      assert inside[..|frames|] == frames && inside[|frames|] + cs == cs;
      assert calls[1..] == CallsFor(cs) + [End];
      RunFramesAppend(inside, CallsFor(cs), [End]);
      assert (frames + [cs])[..|frames|] == frames;
      assert [End][1..] == [];
    } else {
      assert calls[1..] == [];
    }
  }

  /** Building any tree leaves no container open and yields its recursive encoding. */
  method BuildTree(vs: seq<Value>) returns (r: ByteString)
    requires Plain(vs)
    ensures r == EncodeAll(vs)
    ensures |r| <= MAX_BODY ==> DecodeTree(r) == Some(vs) && HoldsValues(r, vs)
  {
    PlainIsWritable(vs);
    CallsWriteTree([[]], vs);
    CallsPutLeaves(vs);
    var b := new Builder();
    ghost var none: seq<seq<Value>> := [[]];
    assert none[..0] == [] && none[0] + vs == vs;
    assert none[..0] + [none[0] + vs] == [vs];
    if |EncodeAll(vs)| <= MAX_BODY {
      EncodingFormat(vs);
    }
    r := BuildWith(b, CallsFor(vs), vs);
  }

  lemma {:induction false} PlainIsWritable(vs: seq<Value>)
    requires Plain(vs)
    ensures Writable(vs)
    decreases vs
  {
    forall i | 0 <= i < |vs| && vs[i].Container? ensures Writable(vs[i].children) {
      PlainIsWritable(vs[i].children);
    }
  }

  lemma {:induction false} CallsPutLeaves(vs: seq<Value>)
    requires Plain(vs) && Writable(vs)
    ensures PutsLeaves(CallsFor(vs))
    decreases vs
  {
    if |vs| > 0 {
      CallsPutLeaves(vs[1..]);
      if vs[0].Container? {
        CallsPutLeaves(vs[0].children);
      }
    }
  }
}
