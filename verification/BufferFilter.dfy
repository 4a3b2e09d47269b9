/**
 * The buffer prefilter (filter/bufferfilter.go): a boolean search expression
 * compiled to a cheap test on raw bytes, which must not reject a buffer that holds
 * a matching record.
 */
module BufferFilters {
  import opened Bytes
  import opened StringSearch
  import opened Utf8
  import opened Zcode
  import opened Fields
  import opened FieldNames
  import opened Filter

  // ------------------------------------------------------- messages in a buffer

  const CTRL_VALUE_ESCAPE: Byte := 0xf5

  /** A value message: a type identifier and the record body. */
  datatype Message = Message(id: nat, body: ByteString)

  datatype MessageStep = Next(msg: Message, rest: ByteString) | Malformed | Cut

  /** The message at the front: a control code or bad varint is malformed, a short body is cut. */
  function NextMessage(buf: ByteString): (s: MessageStep)
    requires |buf| > 0
    ensures s.Next? ==> |s.rest| < |buf|
  {
    var code := buf[0];
    if code > CTRL_VALUE_ESCAPE then Malformed
    else if code == CTRL_VALUE_ESCAPE then
      match DecodeUvarint(buf[1..])
      case Decoded(id, n) => NextBody(id, buf[1 + n..])
      case _ => Malformed
    else NextBody(code, buf[1..])
  }

  function NextBody(id: nat, buf: ByteString): (s: MessageStep)
    ensures s.Next? ==> |s.rest| < |buf|
  {
    match DecodeUvarint(buf)
    case Decoded(length, n) =>
      if n + length > |buf| then Cut
      else Next(Message(id, buf[n..n + length]), buf[n + length..])
    case _ => Malformed
  }

  datatype Ending = Clean | Bad | Truncated

  /** All messages up to the end of the buffer or the first that cannot be read. */
  function Messages(buf: ByteString): (r: (seq<Message>, Ending))
    decreases |buf|
  {
    if |buf| == 0 then ([], Clean)
    else
      match NextMessage(buf)
      case Next(msg, rest) => var more := Messages(rest); ([msg] + more.0, more.1)
      case Malformed => ([], Bad)
      case Cut => ([], Truncated)
  }

  /** A record as the writer puts it in a buffer: identifiers from the escape on are written less it. */
  function WrittenMessage(id: nat, body: ByteString): ByteString {
    (if id < CTRL_VALUE_ESCAPE then [id] else [CTRL_VALUE_ESCAPE] + UvarintBytes(id - CTRL_VALUE_ESCAPE))
    + (UvarintBytes(|body|) + body)
  }

  /** The reader does not add the escape again, so it gets back identifiers below the escape only. */
  lemma MessageRoundTrip(id: nat, body: ByteString, rest: ByteString)
    requires id < MAX_BODY && |body| <= MAX_BODY
    ensures NextMessage(WrittenMessage(id, body) + rest) ==
            Next(Message(if id < CTRL_VALUE_ESCAPE then id else id - CTRL_VALUE_ESCAPE, body), rest)
  {
    hide UvarintBytes, NextBody, NextMessage;
    var tail := UvarintBytes(|body|) + body + rest;
    BodyFollows(if id < CTRL_VALUE_ESCAPE then id else id - CTRL_VALUE_ESCAPE, body, rest);
    if id < CTRL_VALUE_ESCAPE {
      ShortHeader(id, tail);
      assert WrittenMessage(id, body) + rest == [id] + tail;
    } else {
      LongHeader(id - CTRL_VALUE_ESCAPE, tail);
      assert WrittenMessage(id, body) + rest == [CTRL_VALUE_ESCAPE] + (UvarintBytes(id - CTRL_VALUE_ESCAPE) + tail);
    }
  }

  lemma ShortHeader(id: nat, tail: ByteString)
    requires id < CTRL_VALUE_ESCAPE
    ensures NextMessage([id] + tail) == NextBody(id, tail)
  {
    hide NextBody;
    assert ([id] + tail)[1..] == tail;
  }

  lemma LongHeader(v: nat, tail: ByteString)
    requires v < MAX_BODY
    ensures NextMessage([CTRL_VALUE_ESCAPE] + (UvarintBytes(v) + tail)) == NextBody(v, tail)
  {
    hide NextBody, UvarintBytes, DecodeUvarint;
    var all, n := [CTRL_VALUE_ESCAPE] + (UvarintBytes(v) + tail), |UvarintBytes(v)|;
    assert all[1..] == UvarintBytes(v) + tail;
    UvarintRoundTrip(v, tail);
    assert all[1 + n..] == tail;
  }

  lemma BodyFollows(id: nat, body: ByteString, rest: ByteString)
    requires |body| <= MAX_BODY
    ensures NextBody(id, UvarintBytes(|body|) + body + rest) == Next(Message(id, body), rest)
  {
    hide DecodeUvarint;
    var all, n := UvarintBytes(|body|) + body + rest, |UvarintBytes(|body|)|;
    assert all == UvarintBytes(|body|) + (body + rest);
    UvarintRoundTrip(|body|, body + rest);
    assert all[n..n + |body|] == body && all[n + |body|..] == rest;
  }

  /** What the writer puts in a buffer for a run of records. */
  function WrittenBuffer(msgs: seq<Message>): ByteString {
    if |msgs| == 0 then [] else WrittenMessage(msgs[0].id, msgs[0].body) + WrittenBuffer(msgs[1..])
  }

  ghost predicate ReadBack(msgs: seq<Message>) {
    forall i :: 0 <= i < |msgs| ==> msgs[i].id < CTRL_VALUE_ESCAPE && |msgs[i].body| <= MAX_BODY
  }

  /** A buffer of records with identifiers below the escape holds exactly those records. */
  lemma {:induction false} WrittenBufferRoundTrip(msgs: seq<Message>)
    requires ReadBack(msgs)
    ensures Messages(WrittenBuffer(msgs)) == (msgs, Clean)
  {
    if |msgs| > 0 {
      hide WrittenMessage, NextMessage;
      WrittenBufferRoundTrip(msgs[1..]);
      MessageRoundTrip(msgs[0].id, msgs[0].body, WrittenBuffer(msgs[1..]));
      assert msgs == [msgs[0]] + msgs[1..];
    }
  }

  /** The first identifier that is escaped comes back as 0. */
  lemma EscapedIdentifierIsLost(body: ByteString)
    requires |body| <= MAX_BODY
    ensures Messages(WrittenBuffer([Message(245, body)])) == ([Message(0, body)], Clean)
  {
    hide WrittenMessage, NextMessage;
    MessageRoundTrip(245, body, []);
    assert [Message(245, body)][1..] == [];
    assert WrittenBuffer([Message(245, body)]) == WrittenMessage(245, body) + [];
    assert [Message(0, body)] + Messages([]).0 == [Message(0, body)];
  }

  // ------------------------------------------------------------- name finder

  /** The types of a buffer, by identifier. */
  type TypeContext = map<nat, Type>

  ghost predicate NameOccurs(pattern: ByteString, names: seq<ByteString>) {
    exists i :: 0 <= i < |names| && Occurs(pattern, LowerAll(names[i]))
  }

  /** What the names of a record type answer; None is the panic at a record type without columns. */
  ghost function NamesAnswer(pattern: ByteString, walk: NameWalk): Option<bool> {
    if NameOccurs(pattern, walk.names) then Some(true) else if walk.ok then Some(false) else None
  }

  /** What the type of a message answers; a type that is not a known record may match. */
  ghost function TypeAnswer(zctx: TypeContext, pattern: ByteString, id: nat): Option<bool> {
    if id !in zctx || !IsRecord(zctx[id]) then Some(true) else NamesAnswer(pattern, TypeNames(ColumnsOf(zctx[id])))
  }

  /** The first message whose type does not answer false decides, and if there is none, how the buffer ends. */
  ghost function FindIn(zctx: TypeContext, pattern: ByteString, msgs: seq<Message>, end: Ending): Option<bool> {
    if |msgs| == 0 then
      match end
      case Clean => Some(false)
      case Bad => Some(true)
      case Truncated => None
    else if TypeAnswer(zctx, pattern, msgs[0].id) != Some(false) then TypeAnswer(zctx, pattern, msgs[0].id)
    else FindIn(zctx, pattern, msgs[1..], end)
  }

  /** What the name finder answers for a buffer; None is a panic. */
  ghost function FindName(zctx: TypeContext, pattern: ByteString, buf: ByteString): Option<bool> {
    FindIn(zctx, pattern, Messages(buf).0, Messages(buf).1)
  }

  /** One message at the front either decides or can be dropped. */
  lemma FindNext(zctx: TypeContext, pattern: ByteString, buf: ByteString)
    requires |buf| > 0
    ensures var step := NextMessage(buf);
            FindName(zctx, pattern, buf) ==
            if step.Malformed? then Some(true)
            else if step.Cut? then None
            else if TypeAnswer(zctx, pattern, step.msg.id) != Some(false) then TypeAnswer(zctx, pattern, step.msg.id)
            else FindName(zctx, pattern, step.rest)
  {
    hide TypeAnswer, NextMessage;
    var step := NextMessage(buf);
    if step.Next? {
      assert Messages(buf).0 == [step.msg] + Messages(step.rest).0;
      assert Messages(buf).0[1..] == Messages(step.rest).0;
    }
  }

  /** Scans the names of one record type. */
  method NameMatches(finder: StringFinder, iter: FieldNameIter, cols: seq<Column>) returns (b: Option<bool>)
    requires finder.Valid()
    requires iter as object !in {finder, finder.badCharSkip, finder.goodSuffixSkip}
    modifies iter
    ensures b == NamesAnswer(finder.pattern, TypeNames(cols))
  {
    iter.Init(cols);
    ghost var walk := TypeNames(cols);
    ghost var k := 0;
    hide TypeNames;
    while !iter.Done()
      invariant finder.Valid() && iter.Valid() && 0 <= k <= |walk.names|
      invariant iter.Remaining() == NameWalk(walk.names[k..], walk.ok)
      invariant iter.Done() ==> iter.Remaining() == NameWalk([], true)
      invariant forall i :: 0 <= i < k ==> !Occurs(finder.pattern, LowerAll(walk.names[i]))
      decreases |walk.names| - k
    {
      var name := iter.Next();
      if name.None? {
        return None;
      }
      assert name.value == walk.names[k] && iter.Remaining().names == walk.names[k + 1..];
      var found := finder.NextFold(name.value);
      if found != -1 {
        assert Occurs(finder.pattern, LowerAll(walk.names[k]));
        return Some(true);
      }
      k := k + 1;
    }
    b := Some(false);
  }

  /** Scans a buffer of value messages, looking at each type once; None is a panic. */
  method Find(finder: StringFinder, zctx: TypeContext, buf0: ByteString) returns (r: Option<bool>)
    requires finder.Valid()
    ensures r == FindName(zctx, finder.pattern, buf0)
  {
    hide StringFinder.Valid, NextMessage, FindName, NamesAnswer, TypeNames;
    var checkedIDs: set<nat> := {};
    var iter := new FieldNameIter();
    var buf := buf0;
    while |buf| > 0
      invariant finder.Valid()
      invariant FindName(zctx, finder.pattern, buf) == FindName(zctx, finder.pattern, buf0)
      invariant forall id :: id in checkedIDs ==> TypeAnswer(zctx, finder.pattern, id) == Some(false)
      decreases |buf|
    {
      FindNext(zctx, finder.pattern, buf);
      var step := NextMessage(buf);
      if step.Malformed? {
        return Some(true);
      }
      if step.Cut? {
        return None;
      }
      var id := step.msg.id;
      buf := step.rest;
      if id in checkedIDs {
        continue;
      }
      checkedIDs := checkedIDs + {id};
      if id !in zctx || !IsRecord(zctx[id]) {
        return Some(true);
      }
      var hit := NameMatches(finder, iter, ColumnsOf(zctx[id]));
      if hit != Some(false) {
        return hit;
      }
    }
    NothingToFind(zctx, finder.pattern);
    r := Some(false);
  }

  lemma NothingToFind(zctx: TypeContext, pattern: ByteString)
    ensures FindName(zctx, pattern, []) == Some(false)
  {
  }

  // ---------------------------------------------------------- when it answers

  /** Up to the first type that is not a known record, no record type is without columns, and no body is cut off. */
  ghost predicate NoPanic(zctx: TypeContext, msgs: seq<Message>, end: Ending) {
    if |msgs| == 0 then end != Truncated
    else
      var id := msgs[0].id;
      || id !in zctx || !IsRecord(zctx[id])
      || (NoEmptyRecords(ColumnsOf(zctx[id])) && NoPanic(zctx, msgs[1..], end))
  }

  lemma {:induction false} NoPanicAnswers(zctx: TypeContext, pattern: ByteString, msgs: seq<Message>, end: Ending)
    requires NoPanic(zctx, msgs, end)
    ensures FindIn(zctx, pattern, msgs, end).Some?
  {
    if |msgs| > 0 {
      var id := msgs[0].id;
      if id in zctx && IsRecord(zctx[id]) {
        WalkEndsExactly(ColumnsOf(zctx[id]), []);
        NoPanicAnswers(zctx, pattern, msgs[1..], end);
      }
    }
  }

  /** A length that every name is below. */
  ghost function NameBound(names: seq<ByteString>): (n: nat)
    ensures forall i :: 0 <= i < |names| ==> |names[i]| < n
  {
    if |names| == 0 then 0 else Max(NameBound(names[..|names| - 1]), |names[|names| - 1]| + 1)
  }

  ghost function TypesBound(zctx: TypeContext, msgs: seq<Message>): nat {
    if |msgs| == 0 then 0
    else
      var id := msgs[0].id;
      var here := if id in zctx && IsRecord(zctx[id]) then NameBound(TypeNames(ColumnsOf(zctx[id])).names) else 0;
      Max(here, TypesBound(zctx, msgs[1..]))
  }

  /** A pattern longer than every name is looked for in all of them. */
  lemma {:induction false} LongPatternPanics(zctx: TypeContext, pattern: ByteString, msgs: seq<Message>, end: Ending)
    requires !NoPanic(zctx, msgs, end) && |pattern| >= TypesBound(zctx, msgs)
    ensures FindIn(zctx, pattern, msgs, end).None?
  {
    if |msgs| > 0 {
      var id := msgs[0].id;
      var walk := TypeNames(ColumnsOf(zctx[id]));
      WalkEndsExactly(ColumnsOf(zctx[id]), []);
      assert !NameOccurs(pattern, walk.names) by {
        assert forall i :: 0 <= i < |walk.names| ==> |LowerAll(walk.names[i])| < |pattern|;
      }
      if walk.ok {
        LongPatternPanics(zctx, pattern, msgs[1..], end);
      }
    }
  }

  /** Every search for a name in the buffer gets an answer if and only if `NoPanic`. */
  lemma FinderAnswersExactly(zctx: TypeContext, buf: ByteString)
    ensures (forall p :: FindName(zctx, p, buf).Some?) <==> NoPanic(zctx, Messages(buf).0, Messages(buf).1)
  {
    var (msgs, end) := Messages(buf);
    if NoPanic(zctx, msgs, end) {
      forall p ensures FindName(zctx, p, buf).Some? {
        NoPanicAnswers(zctx, p, msgs, end);
      }
    } else {
      var long := Zeros(TypesBound(zctx, msgs));
      LongPatternPanics(zctx, long, msgs, end);
      assert FindName(zctx, long, buf).None?;
    }
  }

  /** A message of a record type without columns is enough. */
  lemma EmptyRecordPanics(pattern: ByteString)
    ensures FindName(map[23 := RecordType([])], pattern, WrittenBuffer([Message(23, [])])).None?
  {
    var zctx: TypeContext, msgs := map[23 := RecordType([])], [Message(23, [])];
    WrittenBufferRoundTrip(msgs);
    assert !NameOccurs(pattern, TypeNames([]).names);
    assert TypeAnswer(zctx, pattern, 23) == None;
  }

  // ------------------------------------------------------------ filter trees

  datatype BufferFilter =
    | AndFilter(left: BufferFilter, right: BufferFilter)
    | OrFilter(left: BufferFilter, right: BufferFilter)
    | FieldNameFinder(pattern: ByteString)
    | CaseFinder(pattern: ByteString)
    | ExactFinder(pattern: ByteString)

  /** Compiles an expression; None means no useful filter. */
  function NewBufferFilter(e: Expr): Option<BufferFilter>
    requires ExprOk(e)
  {
    match e
    case CompareAny(op, _, lit) => if op != Eq && op != In then None else ForLiteral(lit)
    case CompareField(op, _, lit) => if op != Eq && op != In then None else ForLiteral(lit)
    case Other(_) => None
    case And(a, b) =>
      var left, right := NewBufferFilter(a), NewBufferFilter(b);
      if left.None? then right
      else if right.None? then left
      else Some(AndFilter(left.value, right.value))
    case Or(a, b) =>
      var left, right := NewBufferFilter(a), NewBufferFilter(b);
      if left.None? || right.None? then None
      else Some(OrFilter(left.value, right.value))
    case Not(_) => None
    case MatchAll => None
    case Search(term) =>
      var left := ForStringCase(term);
      if left.None? then None
      else Some(OrFilter(left.value, FieldNameFinder(LowerAll(term))))
    case SearchAddress(text, ip) =>
      var left, right := ForStringCase(text), ForLiteral(Address(ip));
      if left.None? || right.None? then None
      else Some(OrFilter(left.value, right.value))
  }

  /** The whole encoding of a literal, tag included. */
  function LiteralPattern(lit: Literal): ByteString
    requires LiteralOk(lit)
  {
    EncodePrimitive(Some(LiteralBody(lit)))
  }

  function ForLiteral(lit: Literal): Option<BufferFilter>
    requires LiteralOk(lit)
  {
    if |LiteralPattern(lit)| < 2 then None else Some(ExactFinder(LiteralPattern(lit)))
  }

  function ForStringCase(pattern: ByteString): Option<BufferFilter> {
    if |pattern| < 2 || (exists i :: 0 <= i < |pattern| && pattern[i] >= RUNE_SELF) then None
    else Some(CaseFinder(LowerAll(pattern)))
  }

  /** What the filter answers for a buffer; None is a panic. */
  ghost function Eval(f: BufferFilter, zctx: TypeContext, buf: ByteString): Option<bool> {
    match f
    case AndFilter(a, b) => if Eval(a, zctx, buf) == Some(true) then Eval(b, zctx, buf) else Eval(a, zctx, buf)
    case OrFilter(a, b) => if Eval(a, zctx, buf) == Some(false) then Eval(b, zctx, buf) else Eval(a, zctx, buf)
    case FieldNameFinder(p) => FindName(zctx, p, buf)
    case CaseFinder(p) => Some(Occurs(p, LowerAll(buf)))
    case ExactFinder(p) => Some(Occurs(p, buf))
  }

  /** Evaluates the tree with the skip-table searches. */
  method Run(f: BufferFilter, zctx: TypeContext, buf: ByteString) returns (r: Option<bool>)
    ensures r == Eval(f, zctx, buf)
    decreases f
  {
    match f {
      case AndFilter(a, b) =>
        r := Run(a, zctx, buf);
        if r == Some(true) {
          r := Run(b, zctx, buf);
        }
      case OrFilter(a, b) =>
        r := Run(a, zctx, buf);
        if r == Some(false) {
          r := Run(b, zctx, buf);
        }
      case FieldNameFinder(p) =>
        var finder := new StringFinder(p);
        r := Find(finder, zctx, buf);
      case CaseFinder(p) =>
        var finder := new StringFinder(p);
        var i := finder.NextFold(buf);
        r := Some(i > -1);
      case ExactFinder(p) =>
        var finder := new StringFinder(p);
        var i := finder.Next(buf);
        r := Some(i > -1);
    }
  }

  // --------------------------------------------------- containment of encodings

  lemma OccursTrans(a: ByteString, b: ByteString, c: ByteString)
    requires Occurs(a, b) && Occurs(b, c)
    ensures Occurs(a, c)
  {
    var i :| OccursAt(a, b, i);
    var j :| OccursAt(b, c, j);
    forall k | 0 <= k < |a| ensures c[i + j + k] == a[k] {
      assert c[j + (i + k)] == b[i + k];
    }
    assert OccursAt(a, c, i + j);
  }

  lemma PartOccurs(pre: ByteString, a: ByteString, post: ByteString)
    ensures Occurs(a, pre + a + post)
  {
    assert OccursAt(a, pre + a + post, |pre|);
  }

  lemma LowerOccurs(a: ByteString, b: ByteString)
    requires Occurs(a, b)
    ensures Occurs(LowerAll(a), LowerAll(b))
  {
    var i :| OccursAt(a, b, i);
    forall k | 0 <= k < |a| ensures LowerAll(b)[i + k] == LowerAll(a)[k] {
      assert b[i + k] == a[k];
    }
    assert OccursAt(LowerAll(a), LowerAll(b), i);
  }

  lemma BodyOccurs(v: Value)
    requires !v.Raw?
    ensures Occurs(BodyOf(v).GetOr([]), Encode(v))
  {
    match v
    case Null => assert OccursAt([], Encode(v), 0);
    case Primitive(b) => PartOccurs(UvarintBytes(PrimitiveTag(|b|)), b, []);
      assert Encode(v) == UvarintBytes(PrimitiveTag(|b|)) + b + [];
    case Container(vs) => PartOccurs(UvarintBytes(ContainerTag(|EncodeAll(vs)|)), EncodeAll(vs), []);
      assert Encode(v) == UvarintBytes(ContainerTag(|EncodeAll(vs)|)) + EncodeAll(vs) + [];
    case Opaque(b) => PartOccurs(UvarintBytes(ContainerTag(|b|)), b, []);
      assert Encode(v) == UvarintBytes(ContainerTag(|b|)) + b + [];
  }

  lemma {:induction false} ChildOccurs(vs: seq<Value>, i: nat)
    requires i < |vs|
    ensures Occurs(Encode(vs[i]), EncodeAll(vs))
  {
    var rest := EncodeAll(vs[1..]);
    if i == 0 {
      PartOccurs([], Encode(vs[0]), rest);
      assert EncodeAll(vs) == [] + Encode(vs[0]) + rest;
    } else {
      ChildOccurs(vs[1..], i - 1);
      PartOccurs(Encode(vs[0]), rest, []);
      assert EncodeAll(vs) == Encode(vs[0]) + rest + [];
      OccursTrans(Encode(vs[i]), rest, EncodeAll(vs));
    }
  }

  /** The encoding of an element occurs in that of its container. */
  lemma ElementOccurs(v: Value, i: nat)
    requires i < |Elements(v)|
    ensures Occurs(Encode(Elements(v)[i]), Encode(v))
  {
    ChildOccurs(v.children, i);
    BodyOccurs(v);
    OccursTrans(Encode(v.children[i]), EncodeAll(v.children), Encode(v));
  }

  // ------------------------------------------------- one encoding per literal

  /**
   * No value in `v` equals the literal while being encoded differently.  Strings
   * never do; a four-byte address equals its mapped form, and subnets of one address
   * are equal whatever their masks.
   */
  ghost predicate PlainIn(lit: Literal, t: Type, v: Value)
    requires LiteralOk(lit)
    decreases v
  {
    lit.Str? ||
    (&& (Compares(Eq, lit, t, BodyOf(v)) ==> BodyOf(v) == Some(LiteralBody(lit)))
     && (v.Container? ==>
           match AliasedType(t)
           case RecordType(cols) =>
             |v.children| == |cols| ==> forall i :: 0 <= i < |cols| ==> PlainIn(lit, cols[i].typ, v.children[i])
           case SetType(e) => forall i :: 0 <= i < |v.children| ==> PlainIn(lit, e, v.children[i])
           case ArrayType(e) => forall i :: 0 <= i < |v.children| ==> PlainIn(lit, e, v.children[i])
           case _ => true))
  }

  ghost predicate PlainAll(lit: Literal, vs: seq<Value>, cols: seq<Column>)
    requires LiteralOk(lit) && |vs| == |cols|
  {
    forall i :: 0 <= i < |vs| ==> PlainIn(lit, cols[i].typ, vs[i])
  }

  /** The record is plain for every literal the expression looks for. */
  ghost predicate PlainFor(e: Expr, r: Record)
    requires ExprOk(e) && |r.vals| == |r.cols|
  {
    match e
    case And(a, b) => PlainFor(a, r) && PlainFor(b, r)
    case Or(a, b) => PlainFor(a, r) && PlainFor(b, r)
    case CompareAny(op, _, lit) => op == Eq || op == In ==> PlainAll(lit, r.vals, r.cols)
    case CompareField(op, _, lit) => op == Eq || op == In ==> PlainAll(lit, r.vals, r.cols)
    case SearchAddress(_, ip) => PlainAll(Address(ip), r.vals, r.cols)
    case _ => true
  }

  // ----------------------------------------------------- what a match leaves behind

  /** The bytes a test looks for are in `raw`. */
  ghost predicate ShowsIn(p: Test, raw: ByteString)
    requires TestOk(p)
  {
    match p
    case SearchFor(term) => Occurs(LowerAll(term), LowerAll(raw))
    case SearchForAddress(text, ip) =>
      Occurs(LowerAll(text), LowerAll(raw)) || Occurs(LiteralPattern(Address(ip)), raw)
    case CompareTo(_, lit) => Occurs(LiteralPattern(lit), raw)
  }

  /** A test for which a filter can be built; the empty string is nowhere to be seen. */
  ghost predicate Visible(p: Test) {
    match p
    case SearchFor(term) => Ascii(term)
    case SearchForAddress(text, _) => Ascii(text)
    case CompareTo(op, lit) => (op == Eq || op == In) && LiteralOk(lit) && LiteralBody(lit) != []
  }

  function LiteralOf(p: Test): Literal {
    match p
    case SearchFor(term) => Str(term)
    case SearchForAddress(_, ip) => Address(ip)
    case CompareTo(_, lit) => lit
  }

  lemma ShowsTrans(p: Test, a: ByteString, b: ByteString)
    requires TestOk(p) && ShowsIn(p, a) && Occurs(a, b)
    ensures ShowsIn(p, b)
  {
    LowerOccurs(a, b);
    match p
    case SearchFor(term) => OccursTrans(LowerAll(term), LowerAll(a), LowerAll(b));
    case CompareTo(_, lit) => OccursTrans(LiteralPattern(lit), a, b);
    case SearchForAddress(text, ip) =>
      if Occurs(LowerAll(text), LowerAll(a)) {
        OccursTrans(LowerAll(text), LowerAll(a), LowerAll(b));
      } else {
        OccursTrans(LiteralPattern(Address(ip)), a, b);
      }
  }

  /** A case-insensitive hit in a value is a hit in its lower-cased bytes. */
  lemma TextShows(t: Type, v: Value, term: ByteString, fold: int -> int)
    requires FoldsAscii(fold) && Ascii(term) && Conforms(v, t)
    requires FoldOccurs(BodyOf(v).GetOr([]), term, fold)
    ensures Occurs(LowerAll(term), LowerAll(Encode(v)))
  {
    var body := BodyOf(v).GetOr([]);
    FoldOccursIsLowerOccurs(body, term, fold);
    BodyOccurs(v);
    LowerOccurs(body, Encode(v));
    OccursTrans(LowerAll(term), LowerAll(body), LowerAll(Encode(v)));
  }

  /** A value that equals a literal, in the literal's own encoding, is that encoding. */
  lemma EqualShows(lit: Literal, t: Type, v: Value)
    requires LiteralOk(lit) && LiteralBody(lit) != [] && Conforms(v, t) && PlainIn(lit, t, v)
    requires Compares(Eq, lit, t, BodyOf(v))
    ensures Occurs(LiteralPattern(lit), Encode(v))
  {
    assert v == Primitive(LiteralBody(lit));
    assert OccursAt(Encode(v), Encode(v), 0);
  }

  lemma ValueShows(p: Test, t: Type, v: Value, fold: int -> int)
    requires FoldsAscii(fold) && Visible(p) && Conforms(v, t) && PlainIn(LiteralOf(p), t, v)
    requires Holds(p, t, BodyOf(v), fold)
    ensures ShowsIn(p, Encode(v))
  {
    match p
    case SearchFor(term) => TextShows(t, v, term, fold);
    case SearchForAddress(text, ip) =>
      if IsString(t) {
        TextShows(t, v, text, fold);
      } else {
        EqualShows(Address(ip), t, v);
      }
    case CompareTo(op, lit) =>
      assert Compares(Eq, lit, t, BodyOf(v));
      EqualShows(lit, t, v);
  }

  lemma InsideShows(p: Test, t: Type, v: Value, fold: int -> int)
    requires FoldsAscii(fold) && Visible(p) && Conforms(v, t) && PlainIn(LiteralOf(p), t, v)
    requires HoldsInside(p, t, v, fold)
    ensures ShowsIn(p, Encode(v))
  {
    var inner := InnerType(t).value;
    var i :| 0 <= i < |Elements(v)| && Holds(p, inner, BodyOf(Elements(v)[i]), fold);
    ValueShows(p, inner, Elements(v)[i], fold);
    ElementOccurs(v, i);
    ShowsTrans(p, Encode(Elements(v)[i]), Encode(v));
  }

  /** A value that passes a test, or holds one that does, shows in its own encoding what the test looks for. */
  lemma TestShows(p: Test, inside: bool, t: Type, v: Value, fold: int -> int)
    requires FoldsAscii(fold) && Visible(p) && Conforms(v, t) && PlainIn(LiteralOf(p), t, v)
    requires HoldsFor(p, inside, t, v, fold)
    ensures ShowsIn(p, Encode(v))
  {
    if inside {
      InsideShows(p, t, v, fold);
    } else {
      ValueShows(p, t, v, fold);
    }
  }

  lemma FirstOfAllShows(p: Test, vs: seq<Value>)
    requires TestOk(p) && |vs| > 0 && (ShowsIn(p, Encode(vs[0])) || ShowsIn(p, EncodeAll(vs[1..])))
    ensures ShowsIn(p, EncodeAll(vs))
  {
    var rest := EncodeAll(vs[1..]);
    if ShowsIn(p, Encode(vs[0])) {
      ChildOccurs(vs, 0);
      ShowsTrans(p, Encode(vs[0]), EncodeAll(vs));
    } else {
      PartOccurs(Encode(vs[0]), rest, []);
      assert EncodeAll(vs) == Encode(vs[0]) + rest + [];
      ShowsTrans(p, rest, EncodeAll(vs));
    }
  }

  /** A test that some column passes shows in the record's bytes. */
  lemma {:induction false} AnyColumnShows(p: Test, inside: bool, recursive: bool, vs: seq<Value>, cols: seq<Column>, fold: int -> int)
    requires FoldsAscii(fold) && Visible(p) && ConformsAll(vs, cols) && PlainAll(LiteralOf(p), vs, cols)
    requires AnyColumn(p, inside, recursive, vs, cols, fold)
    ensures ShowsIn(p, EncodeAll(vs))
    decreases vs
  {
    hide ShowsIn, HoldsFor;
    assert Conforms(vs[0], cols[0].typ) && PlainIn(LiteralOf(p), cols[0].typ, vs[0]);
    if FirstColumnHolds(p, inside, recursive, vs, cols, fold) {
      if recursive && cols[0].typ.RecordType? {
        AnyColumnShows(p, inside, recursive, vs[0].children, cols[0].typ.columns, fold);
        BodyOccurs(vs[0]);
        ShowsTrans(p, EncodeAll(vs[0].children), Encode(vs[0]));
      } else {
        TestShows(p, inside, cols[0].typ, vs[0], fold);
      }
    } else {
      AnyColumnShows(p, inside, recursive, vs[1..], cols[1..], fold);
    }
    FirstOfAllShows(p, vs);
  }

  /** One step of a reference leads to an unset value or into the elements, and to nothing less plain. */
  lemma StepShows(lit: Literal, tv: TypedValue, step: Ref)
    requires LiteralOk(lit) && Conforms(tv.val, tv.typ) && PlainIn(lit, tv.typ, tv.val)
    requires ResolveStep(tv, step).Some?
    ensures var next := ResolveStep(tv, step).value;
            && Conforms(next.val, next.typ) && PlainIn(lit, next.typ, next.val)
            && (next.val.Null? || (!tv.val.Null? && Occurs(Encode(next.val), EncodeAll(Elements(tv.val)))))
  {
    if tv.val.Container? {
      var i := match step
               case At(k) => k
               case _ => ColumnOfField(tv.typ.columns, step.name).value;
      ChildOccurs(Elements(tv.val), i);
    }
  }

  /** A value reached by a field reference is encoded inside the value it was reached from, or is unset. */
  lemma {:induction false} ResolveShows(lit: Literal, tv: TypedValue, path: seq<Ref>)
    requires LiteralOk(lit) && Conforms(tv.val, tv.typ) && PlainIn(lit, tv.typ, tv.val)
    requires Resolve(tv, path).Some?
    ensures var found := Resolve(tv, path).value;
            && Conforms(found.val, found.typ) && PlainIn(lit, found.typ, found.val)
            && (found.val.Null? || path == [] || (!tv.val.Null? && Occurs(Encode(found.val), EncodeAll(Elements(tv.val)))))
    decreases |path|
  {
    hide Conforms, PlainIn, ResolveStep;
    if |path| > 0 {
      var next, found := ResolveStep(tv, path[0]).value, Resolve(tv, path).value.val;
      StepShows(lit, tv, path[0]);
      ResolveShows(lit, next, path[1..]);
      if !found.Null? && path[1..] != [] {
        ElementsOccur(next);
        OccursTrans(Encode(found), EncodeAll(Elements(next.val)), Encode(next.val));
        OccursTrans(Encode(found), Encode(next.val), EncodeAll(Elements(tv.val)));
      }
    }
  }

  lemma ElementsOccur(tv: TypedValue)
    requires Conforms(tv.val, tv.typ)
    ensures Occurs(EncodeAll(Elements(tv.val)), Encode(tv.val))
  {
    BodyOccurs(tv.val);
    if !tv.val.Container? {
      assert OccursAt([], Encode(tv.val), 0);
    }
  }

  /** A reference that passes a test shows in the record's bytes. */
  lemma FieldShows(p: Test, r: Record, path: seq<Ref>, inside: bool, fold: int -> int)
    requires FoldsAscii(fold) && Visible(p) && p.CompareTo? && path != []
    requires ConformsAll(r.vals, r.cols) && PlainAll(LiteralOf(p), r.vals, r.cols)
    requires var tv := Resolve(TypedValue(RecordType(r.cols), Container(r.vals)), path);
             tv.Some? && HoldsFor(p, inside, tv.value.typ, tv.value.val, fold)
    ensures ShowsIn(p, EncodeAll(r.vals))
  {
    var root := TypedValue(RecordType(r.cols), Container(r.vals));
    var tv := Resolve(root, path).value;
    RecordIsPlain(p.literal, r);
    ResolveShows(p.literal, root, path);
    TestShows(p, inside, tv.typ, tv.val, fold);
    if tv.val.Null? {
      UnsetShowsNothing(p);
    }
    ShowsTrans(p, Encode(tv.val), EncodeAll(r.vals));
  }

  lemma RecordIsPlain(lit: Literal, r: Record)
    requires LiteralOk(lit) && ConformsAll(r.vals, r.cols) && PlainAll(lit, r.vals, r.cols)
    ensures PlainIn(lit, RecordType(r.cols), Container(r.vals))
    ensures Conforms(Container(r.vals), RecordType(r.cols))
  {
  }

  lemma UnsetShowsNothing(p: Test)
    requires p.CompareTo? && Visible(p)
    ensures !ShowsIn(p, Encode(Null))
  {
  }

  /** The bytes of every leaf value are among the record's bytes. */
  lemma {:induction false} LeafOccurs(vs: seq<Value>, cols: seq<Column>, outer: ByteString, i: nat)
    requires ConformsAll(vs, cols) && i < |Leaves(vs, cols, outer).leaves|
    ensures Occurs(Encode(Leaves(vs, cols, outer).leaves[i].val), EncodeAll(vs))
    ensures Conforms(Leaves(vs, cols, outer).leaves[i].val, Leaves(vs, cols, outer).leaves[i].typ)
    decreases vs
  {
    var leaf := Leaves(vs, cols, outer).leaves[i].val;
    var head, rest := FirstLeaves(vs, cols, outer), EncodeAll(vs[1..]);
    assert Conforms(vs[0], cols[0].typ);
    if i < |head.leaves| {
      ChildOccurs(vs, 0);
      if IsRecord(cols[0].typ) {
        assert head == Enter(vs[0], ColumnsOf(cols[0].typ), FieldName(outer, cols[0].name));
        LeafOccurs(vs[0].children, ColumnsOf(cols[0].typ), FieldName(outer, cols[0].name), i);
        BodyOccurs(vs[0]);
        OccursTrans(Encode(leaf), EncodeAll(vs[0].children), Encode(vs[0]));
        OccursTrans(Encode(leaf), Encode(vs[0]), EncodeAll(vs));
      } else {
        assert head.leaves == [Leaf(FieldName(outer, cols[0].name), cols[0].typ, vs[0])];
      }
    } else {
      LeafOccurs(vs[1..], cols[1..], outer, i - |head.leaves|);
      PartOccurs(Encode(vs[0]), rest, []);
      assert EncodeAll(vs) == Encode(vs[0]) + rest + [];
      OccursTrans(Encode(leaf), rest, EncodeAll(vs));
    }
  }

  lemma {:induction false} LeafIsPlain(lit: Literal, vs: seq<Value>, cols: seq<Column>, outer: ByteString, i: nat)
    requires LiteralOk(lit) && |vs| == |cols| && PlainAll(lit, vs, cols) && i < |Leaves(vs, cols, outer).leaves|
    ensures var leaf := Leaves(vs, cols, outer).leaves[i]; PlainIn(lit, leaf.typ, leaf.val)
    decreases vs
  {
    var head := FirstLeaves(vs, cols, outer);
    assert PlainIn(lit, cols[0].typ, vs[0]);
    if i >= |head.leaves| {
      LeafIsPlain(lit, vs[1..], cols[1..], outer, i - |head.leaves|);
    } else if IsRecord(cols[0].typ) {
      assert head == Enter(vs[0], ColumnsOf(cols[0].typ), FieldName(outer, cols[0].name));
      LeafIsPlain(lit, vs[0].children, ColumnsOf(cols[0].typ), FieldName(outer, cols[0].name), i);
    }
  }

  /** A leaf that a search finds shows by its name or in the record's bytes. */
  lemma LeafShows(p: Test, r: Record, i: nat, fold: int -> int)
    requires FoldsAscii(fold) && Visible(p) && ConformsAll(r.vals, r.cols) && PlainAll(LiteralOf(p), r.vals, r.cols)
    requires i < |RecordLeaves(r).leaves| && LeafMatches(p, RecordLeaves(r).leaves[i], fold)
    ensures ShowsIn(p, EncodeAll(r.vals)) || (p.SearchFor? && NameOccurs(LowerAll(p.term), TypeNames(r.cols).names))
  {
    var leaf := RecordLeaves(r).leaves[i];
    LeafOccurs(r.vals, r.cols, [], i);
    LeafIsPlain(LiteralOf(p), r.vals, r.cols, [], i);
    if p.SearchFor? && FoldOccurs(leaf.name, p.term, fold) {
      LeafNameShows(p.term, r, i, fold);
    } else {
      if Holds(p, leaf.typ, BodyOf(leaf.val), fold) {
        ValueShows(p, leaf.typ, leaf.val, fold);
      } else {
        InsideShows(p, leaf.typ, leaf.val, fold);
      }
      ShowsTrans(p, Encode(leaf.val), EncodeAll(r.vals));
    }
  }

  lemma LeafNameShows(term: ByteString, r: Record, i: nat, fold: int -> int)
    requires FoldsAscii(fold) && Ascii(term) && |r.vals| == |r.cols| && i < |RecordLeaves(r).leaves|
    requires FoldOccurs(RecordLeaves(r).leaves[i].name, term, fold)
    ensures NameOccurs(LowerAll(term), TypeNames(r.cols).names)
  {
    var name, p := RecordLeaves(r).leaves[i].name, LowerAll(term);
    assert Dots(0) == [];
    LeavesHaveTypeNames(r.vals, r.cols, [], [], 0);
    var dotted, k := TypeNames(r.cols).names[i], Leads(r.cols, 0, false)[i];
    FoldOccursIsLowerOccurs(name, term, fold);
    PartOccurs(Dots(k), name, []);
    assert dotted == Dots(k) + name + [];
    LowerOccurs(name, dotted);
    OccursTrans(p, LowerAll(name), LowerAll(dotted));
  }

  // ---------------------------------------------------------------- soundness

  /** Message `i` of the buffer is the record `r`, of a record type known to the context. */
  ghost predicate Holding(zctx: TypeContext, buf: ByteString, i: nat, r: Record) {
    var msgs := Messages(buf).0;
    && i < |msgs| && msgs[i].id in zctx && IsRecord(zctx[msgs[i].id])
    && ColumnsOf(zctx[msgs[i].id]) == r.cols
    && msgs[i].body == EncodeAll(r.vals) && RecordOk(r)
  }

  lemma {:induction false} MessageOccurs(buf: ByteString, i: nat)
    requires i < |Messages(buf).0|
    ensures Occurs(Messages(buf).0[i].body, buf)
    decreases |buf|
  {
    var step := NextMessage(buf);
    var start := |buf| - |step.rest|;
    assert buf == buf[..start] + step.rest by {
      FrontMessage(buf);
    }
    FrontMessage(buf);
    if i > 0 {
      MessageOccurs(step.rest, i - 1);
      PartOccurs(buf[..start], step.rest, []);
      assert buf[..start] + step.rest + [] == buf;
      OccursTrans(Messages(buf).0[i].body, step.rest, buf);
    }
  }

  lemma FrontMessage(buf: ByteString)
    requires |buf| > 0 && NextMessage(buf).Next?
    ensures var s := NextMessage(buf);
            buf[|buf| - |s.rest|..] == s.rest && Occurs(s.msg.body, buf)
  {
    hide DecodeUvarint;
    var code := buf[0];
    var d := DecodeUvarint(buf[1..]);
    var at := if code == CTRL_VALUE_ESCAPE then 1 + d.size else 1;
    var n := DecodeUvarint(buf[at..]);
    assert OccursAt(NextMessage(buf).msg.body, buf, at + n.size);
  }

  /** What a buffer owes a record in it: its bytes, and every part of its field names. */
  ghost predicate Shows(zctx: TypeContext, buf: ByteString, r: Record) {
    && Occurs(EncodeAll(r.vals), buf)
    && forall p :: NameOccurs(p, TypeNames(r.cols).names) ==> FindName(zctx, p, buf) != Some(false)
  }

  lemma {:induction false} HitIsNotMissed(zctx: TypeContext, pattern: ByteString, msgs: seq<Message>, end: Ending, i: nat)
    requires i < |msgs| && TypeAnswer(zctx, pattern, msgs[i].id) != Some(false)
    ensures FindIn(zctx, pattern, msgs, end) != Some(false)
  {
    if TypeAnswer(zctx, pattern, msgs[0].id) == Some(false) {
      HitIsNotMissed(zctx, pattern, msgs[1..], end, i - 1);
    }
  }

  lemma HeldRecordShows(zctx: TypeContext, buf: ByteString, i: nat, r: Record)
    requires Holding(zctx, buf, i, r)
    ensures Shows(zctx, buf, r)
  {
    MessageOccurs(buf, i);
    forall p | NameOccurs(p, TypeNames(r.cols).names) ensures FindName(zctx, p, buf) != Some(false) {
      HitIsNotMissed(zctx, p, Messages(buf).0, Messages(buf).1, i);
    }
  }

  /** The filter built for `e`, if any, does not reject the buffer. */
  ghost predicate Passes(e: Expr, zctx: TypeContext, buf: ByteString)
    requires ExprOk(e)
  {
    NewBufferFilter(e).Some? ==> Eval(NewBufferFilter(e).value, zctx, buf) != Some(false)
  }

  /** A literal seen in a record is seen in any buffer showing the record. */
  lemma LiteralPasses(lit: Literal, r: Record, zctx: TypeContext, buf: ByteString)
    requires LiteralOk(lit) && Shows(zctx, buf, r)
    requires LiteralBody(lit) != [] ==> Occurs(LiteralPattern(lit), EncodeAll(r.vals))
    ensures ForLiteral(lit).Some? ==> Eval(ForLiteral(lit).value, zctx, buf) == Some(true)
  {
    if LiteralBody(lit) == [] {
      assert |LiteralPattern(lit)| == 1;
    } else {
      OccursTrans(LiteralPattern(lit), EncodeAll(r.vals), buf);
    }
  }

  lemma SearchPasses(p: Test, k: nat, zctx: TypeContext, buf: ByteString, r: Record, fold: int -> int)
    requires FoldsAscii(fold) && Shows(zctx, buf, r) && ConformsAll(r.vals, r.cols)
    requires !p.CompareTo? && PlainAll(LiteralOf(p), r.vals, r.cols)
    requires k < |RecordLeaves(r).leaves| && LeafMatches(p, RecordLeaves(r).leaves[k], fold)
    ensures Passes(if p.SearchFor? then Search(p.term) else SearchAddress(p.text, p.address), zctx, buf)
  {
    var text := if p.SearchFor? then p.term else p.text;
    if ForStringCase(text).Some? {
      assert Ascii(text);
      LeafShows(p, r, k, fold);
      SearchFilterAnswers(p, EncodeAll(r.vals), TypeNames(r.cols).names, zctx, buf);
    }
  }

  lemma OrAnswers(a: BufferFilter, b: BufferFilter, zctx: TypeContext, buf: ByteString)
    requires Eval(a, zctx, buf) != Some(false) || Eval(b, zctx, buf) != Some(false)
    ensures Eval(OrFilter(a, b), zctx, buf) != Some(false)
  {
  }

  lemma SearchFilterAnswers(p: Test, raw: ByteString, names: seq<ByteString>, zctx: TypeContext, buf: ByteString)
    requires !p.CompareTo? && Occurs(raw, buf)
    requires ShowsIn(p, raw) || (p.SearchFor? && NameOccurs(LowerAll(p.term), names))
    requires forall q :: NameOccurs(q, names) ==> FindName(zctx, q, buf) != Some(false)
    ensures Passes(if p.SearchFor? then Search(p.term) else SearchAddress(p.text, p.address), zctx, buf)
  {
    hide FindName, Occurs, LiteralPattern, LowerAll;
    if ShowsIn(p, raw) {
      ShowsTrans(p, raw, buf);
    }
    if p.SearchForAddress? {
      var text, pattern := LowerAll(p.text), LiteralPattern(Address(p.address));
      assert Eval(CaseFinder(text), zctx, buf) == Some(Occurs(text, LowerAll(buf)));
      assert Eval(ExactFinder(pattern), zctx, buf) == Some(Occurs(pattern, buf));
      assert Occurs(text, LowerAll(buf)) || Occurs(pattern, buf);
      OrAnswers(CaseFinder(text), ExactFinder(pattern), zctx, buf);
    } else {
      var term := LowerAll(p.term);
      assert Eval(CaseFinder(term), zctx, buf) == Some(Occurs(term, LowerAll(buf)));
      OrAnswers(CaseFinder(term), FieldNameFinder(term), zctx, buf);
    }
  }

  /** The leaf cases of soundness. */
  lemma TestPasses(e: Expr, zctx: TypeContext, buf: ByteString, r: Record, fold: int -> int, other: (nat, ByteString) -> bool)
    requires FoldsAscii(fold) && Shows(zctx, buf, r) && ConformsAll(r.vals, r.cols)
    requires e.CompareAny? || e.CompareField? || e.Search? || e.SearchAddress?
    requires ExprOk(e) && PlainFor(e, r) && Matches(e, r, fold, other)
    ensures Passes(e, zctx, buf)
  {
    hide Shows, AnyColumn, PlainAll, Resolve, HoldsFor, LeafMatches, ForLiteral;
    match e
    case CompareAny(op, recursive, lit) =>
      if op == Eq || op == In {
        if LiteralBody(lit) != [] {
          AnyColumnShows(CompareTo(op, lit), op == In, recursive, r.vals, r.cols, fold);
        }
        LiteralPasses(lit, r, zctx, buf);
      }
    case CompareField(op, path, lit) =>
      if op == Eq || op == In {
        if LiteralBody(lit) != [] {
          FieldShows(CompareTo(op, lit), r, path, op == In, fold);
        }
        LiteralPasses(lit, r, zctx, buf);
      }
    case Search(term) =>
      var p := SearchFor(term);
      var k :| 0 <= k < |RecordLeaves(r).leaves| && LeafMatches(p, RecordLeaves(r).leaves[k], fold);
      StringsArePlain(term, r);
      SearchPasses(p, k, zctx, buf, r, fold);
    case SearchAddress(text, ip) =>
      var p := SearchForAddress(text, ip);
      var k :| 0 <= k < |RecordLeaves(r).leaves| && LeafMatches(p, RecordLeaves(r).leaves[k], fold);
      SearchPasses(p, k, zctx, buf, r, fold);
  }

  lemma StringsArePlain(s: ByteString, r: Record)
    requires |r.vals| == |r.cols|
    ensures PlainAll(Str(s), r.vals, r.cols)
  {
  }

  lemma {:induction false} ShownRecordPasses(e: Expr, zctx: TypeContext, buf: ByteString, r: Record, fold: int -> int, other: (nat, ByteString) -> bool)
    requires FoldsAscii(fold) && Shows(zctx, buf, r) && ConformsAll(r.vals, r.cols)
    requires ExprOk(e) && PlainFor(e, r) && Matches(e, r, fold, other)
    ensures Passes(e, zctx, buf)
    decreases e
  {
    match e
    case And(a, b) =>
      ShownRecordPasses(a, zctx, buf, r, fold, other);
      ShownRecordPasses(b, zctx, buf, r, fold, other);
    case Or(a, b) =>
      if Matches(a, r, fold, other) {
        ShownRecordPasses(a, zctx, buf, r, fold, other);
      } else {
        ShownRecordPasses(b, zctx, buf, r, fold, other);
      }
    case MatchAll =>
    case Not(_) =>
    case Other(_) =>
    case _ => TestPasses(e, zctx, buf, r, fold, other);
  }

  /**
   * The prefilter never rejects a buffer that holds a matching record: for every
   * expression and every buffer, no filter is built or it does not answer false,
   * if the record holds no value that equals a literal in another encoding.
   */
  lemma PrefilterNeverRejects(e: Expr, zctx: TypeContext, buf: ByteString, i: nat, r: Record, fold: int -> int, other: (nat, ByteString) -> bool)
    requires FoldsAscii(fold) && ExprOk(e)
    requires Holding(zctx, buf, i, r) && Matches(e, r, fold, other) && PlainFor(e, r)
    ensures NewBufferFilter(e).Some? ==> Eval(NewBufferFilter(e).value, zctx, buf) != Some(false)
  {
    HeldRecordShows(zctx, buf, i, r);
    ShownRecordPasses(e, zctx, buf, r, fold, other);
  }

  lemma {:induction false} EvalAnswers(f: BufferFilter, zctx: TypeContext, buf: ByteString)
    requires NoPanic(zctx, Messages(buf).0, Messages(buf).1)
    ensures Eval(f, zctx, buf).Some?
  {
    match f
    case AndFilter(a, b) => EvalAnswers(a, zctx, buf); EvalAnswers(b, zctx, buf);
    case OrFilter(a, b) => EvalAnswers(a, zctx, buf); EvalAnswers(b, zctx, buf);
    case FieldNameFinder(p) => FinderAnswersExactly(zctx, buf);
    case _ =>
  }

  /** ... and it answers true when the name finder cannot panic on the buffer. */
  lemma PrefilterIsSound(e: Expr, zctx: TypeContext, buf: ByteString, i: nat, r: Record, fold: int -> int, other: (nat, ByteString) -> bool)
    requires FoldsAscii(fold) && ExprOk(e) && NoPanic(zctx, Messages(buf).0, Messages(buf).1)
    requires Holding(zctx, buf, i, r) && Matches(e, r, fold, other) && PlainFor(e, r)
    ensures NewBufferFilter(e).Some? ==> Eval(NewBufferFilter(e).value, zctx, buf) == Some(true)
  {
    PrefilterNeverRejects(e, zctx, buf, i, r, fold, other);
    if NewBufferFilter(e).Some? {
      var f := NewBufferFilter(e).value;
      EvalAnswers(f, zctx, buf);
      var answer: bool := Eval(f, zctx, buf).value;
      assert Eval(f, zctx, buf) == Some(answer);
    }
  }

  /** So it is for whatever the writer put in a buffer under identifiers below the escape. */
  lemma WrittenRecordsPass(e: Expr, zctx: TypeContext, msgs: seq<Message>, i: nat, r: Record, fold: int -> int, other: (nat, ByteString) -> bool)
    requires FoldsAscii(fold) && ExprOk(e) && ReadBack(msgs) && NoPanic(zctx, msgs, Clean)
    requires i < |msgs| && msgs[i].id in zctx && zctx[msgs[i].id] == RecordType(r.cols)
    requires msgs[i].body == EncodeAll(r.vals) && RecordOk(r) && Matches(e, r, fold, other) && PlainFor(e, r)
    ensures NewBufferFilter(e).Some? ==> Eval(NewBufferFilter(e).value, zctx, WrittenBuffer(msgs)) == Some(true)
  {
    WrittenBufferRoundTrip(msgs);
    PrefilterIsSound(e, zctx, WrittenBuffer(msgs), i, r, fold, other);
  }

  // ------------------------------------------------------------ what it answers

  /** The type of the message is not a known record, or has a name that holds the term up to case. */
  ghost predicate TypeMayName(zctx: TypeContext, term: ByteString, id: nat) {
    || id !in zctx || !IsRecord(zctx[id])
    || var names := TypeNames(ColumnsOf(zctx[id])).names;
       exists i :: 0 <= i < |names| && LikeIn(term, names[i])
  }

  ghost predicate MayName(zctx: TypeContext, term: ByteString, msgs: seq<Message>, end: Ending) {
    end == Bad || exists i :: 0 <= i < |msgs| && TypeMayName(zctx, term, msgs[i].id)
  }

  /** The bytes of a literal are there, if it is long enough to look for. */
  ghost predicate MayEqual(lit: Literal, buf: ByteString)
    requires LiteralOk(lit)
  {
    |LiteralPattern(lit)| >= 2 ==> Occurs(LiteralPattern(lit), buf)
  }

  /** All that can be told from a buffer's bytes and types: some record in it may match. */
  ghost predicate MayMatch(e: Expr, zctx: TypeContext, buf: ByteString)
    requires ExprOk(e)
  {
    match e
    case And(a, b) => MayMatch(a, zctx, buf) && MayMatch(b, zctx, buf)
    case Or(a, b) => MayMatch(a, zctx, buf) || MayMatch(b, zctx, buf)
    case CompareAny(op, _, lit) => op == Eq || op == In ==> MayEqual(lit, buf)
    case CompareField(op, _, lit) => op == Eq || op == In ==> MayEqual(lit, buf)
    case Search(term) =>
      |term| >= 2 && Ascii(term) ==> LikeIn(term, buf) || MayName(zctx, term, Messages(buf).0, Messages(buf).1)
    case SearchAddress(text, ip) =>
      |text| >= 2 && Ascii(text) ==> LikeIn(text, buf) || Occurs(LiteralPattern(Address(ip)), buf)
    case _ => true
  }

  lemma {:induction false} FindsNames(zctx: TypeContext, term: ByteString, msgs: seq<Message>, end: Ending)
    requires NoPanic(zctx, msgs, end)
    ensures FindIn(zctx, LowerAll(term), msgs, end) == Some(MayName(zctx, term, msgs, end))
  {
    if |msgs| > 0 {
      var id := msgs[0].id;
      NamesLike(zctx, term, id);
      if id in zctx && IsRecord(zctx[id]) {
        WalkEndsExactly(ColumnsOf(zctx[id]), []);
        FindsNames(zctx, term, msgs[1..], end);
        hide TypeMayName, TypeAnswer;
        MayNameNext(zctx, term, msgs, end);
        var here: bool := TypeMayName(zctx, term, id);
        assert TypeAnswer(zctx, LowerAll(term), id) == Some(here);
      } else {
        assert TypeMayName(zctx, term, msgs[0].id);
      }
    }
  }

  lemma MayNameNext(zctx: TypeContext, term: ByteString, msgs: seq<Message>, end: Ending)
    requires |msgs| > 0
    ensures MayName(zctx, term, msgs, end) <==> TypeMayName(zctx, term, msgs[0].id) || MayName(zctx, term, msgs[1..], end)
  {
    hide TypeMayName;
    if i :| 0 <= i < |msgs[1..]| && TypeMayName(zctx, term, msgs[1..][i].id) {
      assert TypeMayName(zctx, term, msgs[i + 1].id);
    }
    if i :| 0 <= i < |msgs| && TypeMayName(zctx, term, msgs[i].id) && i > 0 {
      assert TypeMayName(zctx, term, msgs[1..][i - 1].id);
    }
  }

  lemma NamesLike(zctx: TypeContext, term: ByteString, id: nat)
    ensures TypeAnswer(zctx, LowerAll(term), id) == Some(true) <==> TypeMayName(zctx, term, id)
    ensures id in zctx && IsRecord(zctx[id]) && TypeNames(ColumnsOf(zctx[id])).ok ==> TypeAnswer(zctx, LowerAll(term), id).Some?
  {
    if id in zctx && IsRecord(zctx[id]) {
      hide TypeNames, LikeIn, Occurs, LowerAll;
      var names := TypeNames(ColumnsOf(zctx[id])).names;
      forall i | 0 <= i < |names| ensures Occurs(LowerAll(term), LowerAll(names[i])) <==> LikeIn(term, names[i]) {
        LikeInIsLower(term, names[i]);
      }
    }
  }

  /**
   * The filter built answers just whether a record may match, on every buffer on which
   * the name finder cannot panic; where none is built every buffer may hold one.
   */
  lemma {:induction false} FilterAnswersExactly(e: Expr, zctx: TypeContext, buf: ByteString)
    requires ExprOk(e) && NoPanic(zctx, Messages(buf).0, Messages(buf).1)
    ensures if NewBufferFilter(e).Some? then Eval(NewBufferFilter(e).value, zctx, buf) == Some(MayMatch(e, zctx, buf))
            else MayMatch(e, zctx, buf)
    decreases e
  {
    hide LiteralPattern, Occurs, LikeIn, LowerAll, MayName, NoPanic;
    match e
    case And(a, b) => FilterAnswersExactly(a, zctx, buf); FilterAnswersExactly(b, zctx, buf);
    case Or(a, b) => FilterAnswersExactly(a, zctx, buf); FilterAnswersExactly(b, zctx, buf);
    case Search(term) =>
      FindsNames(zctx, term, Messages(buf).0, Messages(buf).1);
      LikeInIsLower(term, buf);
    case SearchAddress(text, ip) =>
      LikeInIsLower(text, buf);
      AddressesAreLong(ip);
    case _ =>
  }

  lemma AddressesAreLong(ip: IP)
    ensures |LiteralPattern(Address(ip))| >= 2
  {
  }

  // ------------------------------------------------- where the condition is needed

  /** A record of one address or subnet. */
  function OneValue(t: Type, body: ByteString): Record {
    Record([Column([X_NAME], t)], [Primitive(body)])
  }

  const X_NAME: Byte := 120

  lemma OneValueBytes(t: Type, body: ByteString)
    requires |body| <= 60
    ensures EncodeAll(OneValue(t, body).vals) == [2 * (|body| + 1)] + body
  {
    assert [Primitive(body)][1..] == [];
    assert EncodeAll(OneValue(t, body).vals) == Encode(Primitive(body)) + EncodeAll([]);
    assert UvarintBytes(PrimitiveTag(|body|)) == [2 * (|body| + 1)];
  }

  /** The buffer with that record alone, byte by byte. */
  lemma OneValueBuffer(id: nat, t: Type, body: ByteString)
    requires id < CTRL_VALUE_ESCAPE && |body| <= 60
    ensures var raw := EncodeAll(OneValue(t, body).vals);
            WrittenBuffer([Message(id, raw)]) == [id, |body| + 1, 2 * (|body| + 1)] + body
  {
    var raw := EncodeAll(OneValue(t, body).vals);
    OneValueBytes(t, body);
    assert [Message(id, raw)][1..] == [];
    assert UvarintBytes(|raw|) == [|body| + 1];
    assert WrittenBuffer([Message(id, raw)]) == WrittenMessage(id, raw) + [];
  }

  /** Equal to a literal but not in its bytes: a mapped address, or a subnet with another mask. */
  lemma OtherForms(lit: Literal, t: Type, body: ByteString)
    requires LiteralOk(lit) && !lit.Str? && Compares(Eq, lit, t, Some(body)) && body != LiteralBody(lit)
    ensures var l := LiteralBody(lit);
            if lit.Address? then |l| == 4 && IsMapped(body) && body[12..] == l
            else |l| == |body| && (|l| == 8 || |l| == 32) && (|l| == 32 ==> l[0] == 0)
  {
  }

  lemma SmallPattern(lit: Literal)
    requires LiteralOk(lit) && |LiteralBody(lit)| <= 60
    ensures LiteralPattern(lit) == [2 * (|LiteralBody(lit)| + 1)] + LiteralBody(lit)
  {
    hide LiteralBody;
    assert UvarintBytes(PrimitiveTag(|LiteralBody(lit)|)) == [2 * (|LiteralBody(lit)| + 1)];
  }

  /** Neither form holds the literal's pattern, wherever one looks in the buffer. */
  lemma OtherFormIsNotSeen(lit: Literal, t: Type, body: ByteString, id: nat)
    requires 23 <= id < CTRL_VALUE_ESCAPE
    requires LiteralOk(lit) && !lit.Str? && Compares(Eq, lit, t, Some(body)) && body != LiteralBody(lit)
    ensures !Occurs(LiteralPattern(lit), [id, |body| + 1, 2 * (|body| + 1)] + body)
  {
    var l := LiteralBody(lit);
    OtherForms(lit, t, body);
    var buf := [id, |body| + 1, 2 * (|body| + 1)] + body;
    var p := [2 * (|l| + 1)] + l;
    SmallPattern(lit);
    hide Compares, LiteralBody, LiteralPattern;
    assert forall k :: 3 <= k < |buf| ==> buf[k] == body[k - 3];
    if lit.Address? {
      assert forall k :: 0 <= k < 12 ==> body[k] == body[..12][k] && (body[k] == 0 || body[k] == 0xff);
      forall q ensures !OccursAt(p, buf, q) {
        DiffersAt(p, buf, q, 0);
      }
    } else {
      var k := FirstDifference(body, l);
      forall q ensures !OccursAt(p, buf, q) {
        DiffersAt(p, buf, q, if q == 2 then k + 1 else if q == 0 && |l| == 32 then 1 else 0);
      }
    }
  }

  lemma DiffersAt(p: ByteString, text: ByteString, q: int, j: nat)
    requires j < |p| && (0 <= q <= |text| - |p| ==> text[q + j] != p[j])
    ensures !OccursAt(p, text, q)
  {
  }

  lemma FirstDifference(a: ByteString, b: ByteString) returns (k: nat)
    requires |a| == |b| && a != b
    ensures k < |a| && a[k] != b[k]
  {
    if a[0] != b[0] {
      k := 0;
    } else {
      assert a == [a[0]] + a[1..] && b == [b[0]] + b[1..];
      k := FirstDifference(a[1..], b[1..]);
      k := k + 1;
    }
  }

  /** The record is in the buffer and matches. */
  lemma OneValueMatches(lit: Literal, t: Type, body: ByteString, id: nat, fold: int -> int, other: (nat, ByteString) -> bool)
    requires id < CTRL_VALUE_ESCAPE && |body| <= 60 && LiteralOk(lit)
    requires (t.IpType? || t.NetType?) && Compares(Eq, lit, t, Some(body))
    ensures var e, r := CompareField(Eq, [Dot([X_NAME])], lit), OneValue(t, body);
            && Holding(map[id := RecordType(r.cols)], WrittenBuffer([Message(id, EncodeAll(r.vals))]), 0, r)
            && Matches(e, r, fold, other)
  {
    var r := OneValue(t, body);
    OneValueBytes(t, body);
    WrittenBufferRoundTrip([Message(id, EncodeAll(r.vals))]);
    hide Compares, WrittenBuffer, Messages;
    var root, path := TypedValue(RecordType(r.cols), Container(r.vals)), [Dot([X_NAME])];
    assert ResolveStep(root, path[0]) == Some(TypedValue(t, Primitive(body)));
    assert path[1..] == [];
    assert Resolve(root, path) == Some(TypedValue(t, Primitive(body)));
  }

  /** The filter is a search for the literal's pattern. */
  lemma FilterIsPattern(lit: Literal, path: seq<Ref>, zctx: TypeContext, buf: ByteString)
    requires LiteralOk(lit) && !lit.Str?
    ensures var f := NewBufferFilter(CompareField(Eq, path, lit));
            f.Some? && Eval(f.value, zctx, buf) == Some(Occurs(LiteralPattern(lit), buf))
  {
    assert |LiteralPattern(lit)| >= 2;
  }

  lemma OneFormIsSmall(lit: Literal, t: Type, body: ByteString)
    requires LiteralOk(lit) && !lit.Str? && Compares(Eq, lit, t, Some(body))
    ensures |body| <= 60
  {
  }

  lemma OneFormIsSeen(lit: Literal, t: Type, body: ByteString, id: nat)
    requires 23 <= id < CTRL_VALUE_ESCAPE && LiteralOk(lit) && !lit.Str? && Compares(Eq, lit, t, Some(body))
    ensures Occurs(LiteralPattern(lit), [id, |body| + 1, 2 * (|body| + 1)] + body) <==> body == LiteralBody(lit)
  {
    OneFormIsSmall(lit, t, body);
    hide *;
    if body == LiteralBody(lit) {
      SmallPattern(lit);
      var head, pattern := [id, |body| + 1], LiteralPattern(lit);
      PartOccurs(head, pattern, []);
      assert head + pattern + [] == [id, |body| + 1, 2 * (|body| + 1)] + body;
    } else {
      OtherFormIsNotSeen(lit, t, body, id);
    }
  }

  lemma OneValueIsPlain(lit: Literal, t: Type, body: ByteString)
    requires LiteralOk(lit) && !lit.Str? && (t.IpType? || t.NetType?) && Compares(Eq, lit, t, Some(body))
    ensures PlainFor(CompareField(Eq, [Dot([X_NAME])], lit), OneValue(t, body)) <==> body == LiteralBody(lit)
  {
    hide Compares, LiteralBody;
    var r := OneValue(t, body);
    assert PlainIn(lit, t, Primitive(body)) <==> body == LiteralBody(lit);
    assert r.vals[0] == Primitive(body) && r.cols[0].typ == t;
  }

  /**
   * The condition is exact: a buffer with a record of one address or subnet that
   * equals the literal is let through if and only if the value is the literal's own
   * encoding, which is when the record is plain for the query.
   */
  lemma OneFormIsExact(lit: Literal, t: Type, body: ByteString, id: nat, fold: int -> int, other: (nat, ByteString) -> bool)
    requires 23 <= id < CTRL_VALUE_ESCAPE && LiteralOk(lit)
    requires t == (if lit.Address? then IpType else NetType) && !lit.Str? && Compares(Eq, lit, t, Some(body))
    ensures var e, r := CompareField(Eq, [Dot([X_NAME])], lit), OneValue(t, body);
            var zctx, buf := map[id := RecordType(r.cols)], WrittenBuffer([Message(id, EncodeAll(r.vals))]);
            && Holding(zctx, buf, 0, r) && Matches(e, r, fold, other) && NewBufferFilter(e).Some?
            && (PlainFor(e, r) <==> body == LiteralBody(lit))
            && (Eval(NewBufferFilter(e).value, zctx, buf) == Some(true) <==> body == LiteralBody(lit))
  {
    var r := OneValue(t, body);
    var zctx, buf := map[id := RecordType(r.cols)], WrittenBuffer([Message(id, EncodeAll(r.vals))]);
    OneFormIsSmall(lit, t, body);
    hide *;
    OneValueBuffer(id, t, body);
    OneFormIsSeen(lit, t, body, id);
    OneValueIsPlain(lit, t, body);
    FilterIsPattern(lit, [Dot([X_NAME])], zctx, buf);
    OneValueMatches(lit, t, body, id, fold, other);
  }

  /** The filter turns away a buffer with a record of this one value, although the query for it matches. */
  ghost predicate TurnsAway(lit: Literal, t: Type, body: ByteString, id: nat, fold: int -> int, other: (nat, ByteString) -> bool)
    requires LiteralOk(lit)
  {
    var e, r := CompareField(Eq, [Dot([X_NAME])], lit), OneValue(t, body);
    var zctx, buf := map[id := RecordType(r.cols)], WrittenBuffer([Message(id, EncodeAll(r.vals))]);
    && Holding(zctx, buf, 0, r) && Matches(e, r, fold, other)
    && NewBufferFilter(e).Some? && Eval(NewBufferFilter(e).value, zctx, buf) == Some(false)
  }

  lemma OtherFormIsTurnedAway(lit: Literal, t: Type, body: ByteString, id: nat, fold: int -> int, other: (nat, ByteString) -> bool)
    requires 23 <= id < CTRL_VALUE_ESCAPE && LiteralOk(lit)
    requires t == (if lit.Address? then IpType else NetType) && !lit.Str? && Compares(Eq, lit, t, Some(body))
    requires body != LiteralBody(lit)
    ensures TurnsAway(lit, t, body, id, fold, other)
  {
    var r := OneValue(t, body);
    hide Compares, LiteralBody, Holding, Matches, NewBufferFilter, Eval, WrittenBuffer, EncodeAll, OneValue;
    OneFormIsExact(lit, t, body, id, fold, other);
    FilterIsPattern(lit, [Dot([X_NAME])], map[id := RecordType(r.cols)], WrittenBuffer([Message(id, EncodeAll(r.vals))]));
  }

  /** The filter for x = 10.0.0.0/8 turns away a buffer with an x of 10.0.0.0/16, and so for any two masks. */
  lemma SubnetMaskIsIgnored(fold: int -> int, other: (nat, ByteString) -> bool)
    ensures forall ip: ByteString, m, n :: |ip| == |m| == |n| == 4 && m != n ==>
              TurnsAway(Net(Subnet(ip, m)), NetType, ip + n, 23, fold, other)
    ensures TurnsAway(Net(Subnet([10, 0, 0, 0], [255, 0, 0, 0])), NetType, [10, 0, 0, 0] + [255, 255, 0, 0], 23, fold, other)
  {
    hide TurnsAway, Compares, LiteralBody, Zeros;
    forall ip: ByteString, m, n | |ip| == |m| == |n| == 4 && m != n
      ensures TurnsAway(Net(Subnet(ip, m)), NetType, ip + n, 23, fold, other)
    {
      OtherMask(ip, m, n);
      OtherFormIsTurnedAway(Net(Subnet(ip, m)), NetType, ip + n, 23, fold, other);
    }
    var m, n: ByteString := [255, 0, 0, 0], [255, 255, 0, 0];
    assert m[1] != n[1];
  }

  /** Two subnets of one address are equal, but not the same bytes unless the masks are. */
  lemma OtherMask(ip: ByteString, m: ByteString, n: ByteString)
    requires |ip| == |m| == |n| == 4
    ensures var lit := Net(Subnet(ip, m));
            Compares(Eq, lit, NetType, Some(ip + n)) && (ip + n == LiteralBody(lit) <==> m == n)
  {
    var l := ip + m;
    assert NetIP(ip + n) == ip == NetIP(l);
    assert (ip + n)[4..] == n && l[4..] == m;
  }

  /** The filter for x = 1.2.3.4 turns away a buffer with an x of ::ffff:1.2.3.4, and so for any address. */
  lemma MappedAddressIsRejected(ip: IP, fold: int -> int, other: (nat, ByteString) -> bool)
    requires |ip| == 4
    ensures TurnsAway(Address(ip), IpType, Zeros(10) + [0xff, 0xff] + ip, 23, fold, other)
  {
    MappedIsEqual(ip);
    hide *;
    OtherFormIsTurnedAway(Address(ip), IpType, Zeros(10) + [0xff, 0xff] + ip, 23, fold, other);
  }

  lemma MappedIsEqual(ip: ByteString)
    requires |ip| == 4
    ensures var body := Zeros(10) + [0xff, 0xff] + ip;
            Compares(Eq, Address(ip), IpType, Some(body)) && body != LiteralBody(Address(ip))
  {
    var body := Zeros(10) + [0xff, 0xff] + ip;
    assert body[..12] == Zeros(10) + [0xff, 0xff] && body[12..] == ip;
  }

  /** A subnet literal keeps its address exactly when that has a four-byte form or is zero. */
  lemma SubnetKeepsAddress(n: Subnet)
    requires LiteralOk(Net(n))
    ensures SameIP(NetIP(LiteralBody(Net(n))), n.ip) <==> To4(n.ip).Some? || n.ip == Zeros(16)
  {
    var body := LiteralBody(Net(n));
    if To4(n.ip).Some? {
      assert NetIP(body) == To4(n.ip).value;
    } else {
      assert NetIP(body) == Zeros(16);
    }
  }

  function ShortMask(mask: ByteString): ByteString {
    if |mask| == 16 then mask[12..] else mask
  }

  /**
   * Two subnet literals are encoded alike exactly when they have the same four-byte
   * address and mask, or neither has a four-byte address and the masks are the same.
   */
  lemma SubnetsEncodedAlike(a: Subnet, b: Subnet)
    requires LiteralOk(Net(a)) && LiteralOk(Net(b))
    ensures LiteralBody(Net(a)) == LiteralBody(Net(b)) <==>
            if To4(a.ip).Some? && To4(b.ip).Some? then To4(a.ip) == To4(b.ip) && ShortMask(a.mask) == ShortMask(b.mask)
            else To4(a.ip).None? && To4(b.ip).None? && a.mask == b.mask
  {
    var la, lb := LiteralBody(Net(a)), LiteralBody(Net(b));
    var h := |la| / 2;
    assert la == la[..h] + la[h..];
    if la == lb {
      assert la[..h] == lb[..h] && la[h..] == lb[h..];
    }
    assert To4(a.ip).Some? ==> la[..4] == To4(a.ip).value && la[4..] == ShortMask(a.mask);
    assert To4(b.ip).Some? ==> lb[..4] == To4(b.ip).value && lb[4..] == ShortMask(b.mask);
    assert To4(a.ip).None? ==> la[16..] == a.mask;
    assert To4(b.ip).None? ==> lb[16..] == b.mask;
  }
}
