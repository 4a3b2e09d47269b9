/**
 * The meaning of a search expression on a record (filter/filter.go and
 * filter/compare.go), for string, address and subnet literals, and the loops that
 * compute it from the record's bytes.
 */
module Filter {
  import opened Bytes
  import opened StringSearch
  import opened Utf8
  import opened Zcode
  import opened Fields

  /** A record as the reader hands it out: its columns and the values its body encodes. */
  datatype Record = Record(cols: seq<Column>, vals: seq<Value>)

  ghost predicate RecordOk(r: Record) {
    ConformsAll(r.vals, r.cols) && |EncodeAll(r.vals)| <= MAX_BODY
  }

  datatype Comparator = Eq | Ne | Lt | Le | Gt | Ge | In

  /** One step of a field reference: a column, an array position, or a column by a string index. */
  datatype Ref = Dot(name: ByteString) | At(index: int) | Key(name: ByteString)

  /**
   * Search expressions.  Strings are already parsed to bytes.  `SearchAddress` is
   * the search for an address, with the text it was written as.  `Other` stands for
   * every leaf whose literal is a number, boolean, null, time, duration or regular
   * expression, for the search for a subnet, for the operators =~ and !~, and for
   * general expressions.
   */
  datatype Expr =
    | MatchAll
    | And(left: Expr, right: Expr)
    | Or(left: Expr, right: Expr)
    | Not(arg: Expr)
    | Search(term: ByteString)
    | SearchAddress(text: ByteString, address: IP)
    | CompareAny(op: Comparator, recursive: bool, literal: Literal)
    | CompareField(op: Comparator, path: seq<Ref>, literal: Literal)
    | Other(id: nat)

  // -------------------------------------------------- addresses and subnets

  /** An address as it is parsed, in four or in sixteen bytes. */
  type IP = b: ByteString | |b| == 4 || |b| == 16 witness [0, 0, 0, 0]

  /** A subnet as it is parsed: the mask is as long as the address. */
  datatype Subnet = Subnet(ip: IP, mask: ByteString)

  datatype Literal = Str(text: ByteString) | Address(ip: IP) | Net(net: Subnet)

  function Zeros(n: nat): (r: ByteString)
    ensures |r| == n && forall i :: 0 <= i < n ==> r[i] == 0
  {
    seq(n, _ => 0)
  }

  /** The sixteen bytes are a four-byte address mapped into the longer form. */
  predicate IsMapped(ip: ByteString) {
    |ip| == 16 && ip[..12] == Zeros(10) + [0xff, 0xff]
  }

  /** The four-byte form, if there is one. */
  function To4(ip: ByteString): Option<ByteString> {
    if |ip| == 4 then Some(ip) else if IsMapped(ip) then Some(ip[12..]) else None
  }

  function EncodeIP(ip: IP): ByteString {
    To4(ip).GetOr(ip)
  }

  /** Four or sixteen bytes of address and as many of mask; an address without a four-byte form is left zero. */
  function EncodeNet(n: Subnet): (r: ByteString)
    requires |n.mask| == |n.ip|
    ensures |r| == 8 || |r| == 32
  {
    match To4(n.ip)
    case Some(ip) => ip + (if |n.mask| == 16 then n.mask[12..] else n.mask)
    case None => Zeros(16) + n.mask
  }

  /** A subnet literal comes from text with a prefix length, so its mask fits its address. */
  predicate LiteralOk(lit: Literal) {
    lit.Net? ==> |lit.net.mask| == |lit.net.ip|
  }

  /** The body of the value a literal stands for. */
  function LiteralBody(lit: Literal): ByteString
    requires LiteralOk(lit)
  {
    match lit
    case Str(s) => s
    case Address(ip) => EncodeIP(ip)
    case Net(n) => EncodeNet(n)
  }

  /** The address in the body of a subnet. */
  function NetIP(body: ByteString): ByteString
    requires |body| == 8 || |body| == 32
  {
    body[..|body| / 2]
  }

  /** Equality of addresses: a four-byte address equals its mapped form. */
  predicate SameIP(a: ByteString, b: ByteString) {
    if |a| == |b| then a == b
    else (|a| == 4 && IsMapped(b) && a == b[12..]) || (|b| == 4 && IsMapped(a) && b == a[12..])
  }

  /** Two addresses are equal exactly when they are encoded alike. */
  lemma SameIPIsSameEncoding(a: IP, b: IP)
    ensures SameIP(a, b) <==> EncodeIP(a) == EncodeIP(b)
  {
    if IsMapped(a) && IsMapped(b) && a[12..] == b[12..] {
      assert a == a[..12] + a[12..] && b == b[..12] + b[12..];
    }
  }

  /** Of the lowest `n` bits those set in both. */
  function AndBits(a: nat, b: nat, n: nat): (r: nat)
    ensures r <= a
  {
    if n == 0 then 0 else (if a % 2 == 1 && b % 2 == 1 then 1 else 0) + 2 * AndBits(a / 2, b / 2, n - 1)
  }

  /** The address with the bits outside the mask cleared; nothing when they do not fit each other. */
  function Masked(ip: ByteString, mask: ByteString): ByteString {
    var m := if |mask| == 16 && |ip| == 4 && (forall i :: 0 <= i < 12 ==> mask[i] == 0xff) then mask[12..] else mask;
    var a := if |m| == 4 && IsMapped(ip) then ip[12..] else ip;
    if |a| != |m| then [] else seq(|a|, i requires 0 <= i < |a| => AndBits(a[i], m[i], 8))
  }

  // ------------------------------------------------------------- one value

  predicate IsString(t: Type) {
    AliasedType(t).StringType? || AliasedType(t).BstringType?
  }

  /** The element type of a set or array; an alias of one has none. */
  function InnerType(t: Type): Option<Type> {
    match t
    case SetType(e) => Some(e)
    case ArrayType(e) => Some(e)
    case _ => None
  }

  function Elements(v: Value): seq<Value> {
    if v.Container? then v.children else []
  }

  predicate CompareStrings(op: Comparator, a: ByteString, b: ByteString) {
    match op
    case Eq => a == b
    case Ne => a != b
    case Lt => BytesLess(a, b)
    case Le => a == b || BytesLess(a, b)
    case Gt => BytesLess(b, a)
    case Ge => a == b || BytesLess(b, a)
    case In => a == b
  }

  /** Addresses are equal in either form, but ordered by their bytes. */
  predicate CompareIPs(op: Comparator, a: ByteString, b: ByteString) {
    match op
    case Eq => SameIP(a, b)
    case Ne => !SameIP(a, b)
    case In => SameIP(a, b)
    case _ => CompareStrings(op, a, b)
  }

  /** Subnets are compared by their addresses alone, and "not equal" is computed as "equal". */
  predicate CompareNets(op: Comparator, a: ByteString, b: ByteString) {
    CompareStrings(if op == Ne then Eq else op, a, b)
  }

  /** An address is below or above a subnet when its masked form is; it never equals one. */
  predicate CompareToNet(op: Comparator, ip: ByteString, net: ByteString, mask: ByteString) {
    op != Eq && op != Ne && op != In && CompareStrings(op, Masked(ip, mask), net)
  }

  /** A value compared with a literal; for strings an unset value has an empty body. */
  predicate Compares(op: Comparator, lit: Literal, t: Type, body: Body)
    requires LiteralOk(lit)
  {
    var type', b, l := AliasedType(t), body.GetOr([]), LiteralBody(lit);
    match lit
    case Str(_) => IsString(t) && CompareStrings(op, b, l)
    case Address(_) => type'.IpType? && (|b| == 4 || |b| == 16) && CompareIPs(op, b, l)
    case Net(_) =>
      || (type'.NetType? && (|b| == 8 || |b| == 32) && CompareNets(op, NetIP(b), NetIP(l)))
      || (type'.IpType? && (|b| == 4 || |b| == 16) && CompareToNet(op, b, NetIP(l), l[|l| / 2..]))
  }

  // ------------------------------------------------- what comparisons mean

  /** What an operator asks of two byte strings, byte by byte. */
  ghost predicate InOrder(op: Comparator, a: ByteString, b: ByteString) {
    match op
    case Eq => a == b
    case Ne => a != b
    case Lt => ComesBefore(a, b)
    case Le => a == b || ComesBefore(a, b)
    case Gt => ComesBefore(b, a)
    case Ge => a == b || ComesBefore(b, a)
    case In => a == b
  }

  lemma StringsCompare(op: Comparator, a: ByteString, b: ByteString)
    ensures CompareStrings(op, a, b) <==> InOrder(op, a, b)
  {
    LessIsBefore(a, b);
    LessIsBefore(b, a);
  }

  /** An address in sixteen bytes. */
  function Long(ip: ByteString): ByteString {
    if |ip| == 4 then [0, 0, 0, 0, 0, 0, 0, 0, 0, 0, 255, 255] + ip else ip
  }

  /** Addresses are the same when their sixteen bytes are. */
  lemma SameIPIsSameLong(a: IP, b: IP)
    ensures SameIP(a, b) <==> Long(a) == Long(b)
  {
    var prefix: ByteString := [0, 0, 0, 0, 0, 0, 0, 0, 0, 0, 255, 255];
    assert Zeros(10) + [0xff, 0xff] == prefix;
    if |a| == 4 && |b| == 4 {
      assert Long(a)[12..] == a && Long(b)[12..] == b;
    } else if |a| == 4 {
      assert b == b[..12] + b[12..] && Long(a)[..12] == prefix && Long(a)[12..] == a;
    } else if |b| == 4 {
      assert a == a[..12] + a[12..] && Long(b)[..12] == prefix && Long(b)[12..] == b;
    }
  }

  /** Bit `i` of a number. */
  function Bit(a: nat, i: nat): nat { if i == 0 then a % 2 else Bit(a / 2, i - 1) }

  /** Masking keeps the bits that are set in the mask. */
  lemma {:induction false} MaskedBits(a: nat, b: nat, n: nat, i: nat)
    ensures Bit(AndBits(a, b, n), i) == if i < n && Bit(a, i) == 1 && Bit(b, i) == 1 then 1 else 0
    decreases n, i
  {
    if n == 0 {
      BitsOfZero(i);
    } else if i > 0 {
      MaskedBits(a / 2, b / 2, n - 1, i - 1);
    }
  }

  lemma {:induction false} BitsOfZero(i: nat)
    ensures Bit(0, i) == 0
  {
    if i > 0 {
      BitsOfZero(i - 1);
    }
  }

  /**
   * Masking an address: the mask's bits are kept, if the two fit each other.  An IPv4
   * address mapped into sixteen bytes fits a short mask, and a long mask that begins
   * with twelve bytes of ones fits a short address.
   */
  lemma MaskedIs(ip: IP, mask: ByteString)
    requires |mask| == 4 || |mask| == 16
    ensures var n := if |ip| == |mask| then |ip|
                     else if |ip| == 16 then (if Long(ip[12..]) == ip then 4 else 0)
                     else if forall k :: 0 <= k < 12 ==> mask[k] == 255 then 4 else 0;
            && |Masked(ip, mask)| == n
            && forall k, i: nat :: 0 <= k < n && i < 8 ==>
                 Bit(Masked(ip, mask)[k], i) ==
                 if Bit(ip[|ip| - n + k], i) == 1 && Bit(mask[|mask| - n + k], i) == 1 then 1 else 0
  {
    if |ip| == 16 {
      assert Zeros(10) + [0xff, 0xff] == [0, 0, 0, 0, 0, 0, 0, 0, 0, 0, 255, 255];
      assert ip == ip[..12] + ip[12..] && Long(ip[12..])[..12] == Zeros(10) + [0xff, 0xff];
    }
    var out := Masked(ip, mask);
    var n := |out|;
    forall k, i: nat | 0 <= k < n && i < 8
      ensures Bit(out[k], i) == if Bit(ip[|ip| - n + k], i) == 1 && Bit(mask[|mask| - n + k], i) == 1 then 1 else 0
    {
      MaskedBits(ip[|ip| - n + k], mask[|mask| - n + k], 8, i);
    }
  }

  /** What comparing a value with a literal means for each of its types. */
  ghost predicate ComparesAs(op: Comparator, lit: Literal, t: Type, b: ByteString)
    requires LiteralOk(lit)
  {
    var type' := AliasedType(t);
    match lit
    case Str(s) => (type' == StringType || type' == BstringType) && InOrder(op, b, s)
    case Address(ip) =>
      && type'.IpType? && (|b| == 4 || |b| == 16)
      && (if op == Eq || op == In then Long(b) == Long(ip)
          else if op == Ne then Long(b) != Long(ip)
          else InOrder(op, b, EncodeIP(ip)))
    case Net(n) =>
      var l := EncodeNet(n);
      var ip, mask := l[..|l| / 2], l[|l| / 2..];
      || (type'.NetType? && (|b| == 8 || |b| == 32) && InOrder(if op == Ne then Eq else op, b[..|b| / 2], ip))
      || (type'.IpType? && (|b| == 4 || |b| == 16) && op != Eq && op != Ne && op != In && InOrder(op, Masked(b, mask), ip))
  }

  lemma EncodedIsLong(ip: IP)
    ensures Long(EncodeIP(ip)) == Long(ip)
  {
    SameIPIsSameEncoding(ip, EncodeIP(ip));
    SameIPIsSameLong(ip, EncodeIP(ip));
    if IsMapped(ip) {
      assert ip == ip[..12] + ip[12..];
    }
  }

  lemma ValuesCompare(op: Comparator, lit: Literal, t: Type, body: Body)
    requires LiteralOk(lit)
    ensures Compares(op, lit, t, body) <==> ComparesAs(op, lit, t, body.GetOr([]))
  {
    var b, l := body.GetOr([]), LiteralBody(lit);
    match lit {
      case Str(s) => StringsCompare(op, b, s);
      case Address(ip) =>
        if |b| == 4 || |b| == 16 {
          SameIPIsSameLong(b, l);
          EncodedIsLong(ip);
          StringsCompare(op, b, l);
        }
      case Net(_) =>
        if |b| == 8 || |b| == 32 {
          StringsCompare(if op == Ne then Eq else op, NetIP(b), NetIP(l));
        }
        StringsCompare(op, Masked(b, l[|l| / 2..]), NetIP(l));
    }
  }

  datatype Test =
    | SearchFor(term: ByteString)
    | SearchForAddress(text: ByteString, address: IP)
    | CompareTo(op: Comparator, literal: Literal)

  predicate TestOk(p: Test) {
    p.CompareTo? ==> LiteralOk(p.literal)
  }

  /** A test on the body of a value. */
  ghost predicate Holds(p: Test, t: Type, body: Body, fold: int -> int)
    requires TestOk(p)
  {
    match p
    case SearchFor(term) => IsString(t) && FoldOccurs(body.GetOr([]), term, fold)
    case SearchForAddress(text, ip) =>
      if IsString(t) then FoldOccurs(body.GetOr([]), text, fold) else Compares(Eq, Address(ip), t, body)
    case CompareTo(op, lit) => Compares(op, lit, t, body)
  }

  /** Some element of the set or array passes. */
  ghost predicate HoldsInside(p: Test, t: Type, v: Value, fold: int -> int)
    requires TestOk(p)
  {
    InnerType(t).Some?
    && exists i :: 0 <= i < |Elements(v)| && Holds(p, InnerType(t).value, BodyOf(Elements(v)[i]), fold)
  }

  ghost predicate HoldsFor(p: Test, inside: bool, t: Type, v: Value, fold: int -> int)
    requires TestOk(p)
  {
    if inside then HoldsInside(p, t, v, fold) else Holds(p, t, BodyOf(v), fold)
  }

  // ----------------------------------------------------------- whole records

  /** Some column passes; with `recursive`, record columns are searched instead of tested. */
  ghost predicate AnyColumn(p: Test, inside: bool, recursive: bool, vs: seq<Value>, cols: seq<Column>, fold: int -> int)
    requires |vs| == |cols| && TestOk(p)
    decreases vs
  {
    |cols| > 0 &&
    (FirstColumnHolds(p, inside, recursive, vs, cols, fold)
     || AnyColumn(p, inside, recursive, vs[1..], cols[1..], fold))
  }

  ghost predicate FirstColumnHolds(p: Test, inside: bool, recursive: bool, vs: seq<Value>, cols: seq<Column>, fold: int -> int)
    requires |vs| == |cols| > 0 && TestOk(p)
    decreases vs, 0
  {
    var t := cols[0].typ;
    if recursive && t.RecordType? then
      vs[0].Container? && |vs[0].children| == |t.columns|
      && AnyColumn(p, inside, recursive, vs[0].children, t.columns, fold)
    else HoldsFor(p, inside, t, vs[0], fold)
  }

  /** The column a field name refers to: the last one so named. */
  function ColumnOfField(cols: seq<Column>, name: ByteString): (r: Option<nat>)
    ensures r.Some? ==> r.value < |cols| && cols[r.value].name == name
    ensures r.Some? ==> forall i :: r.value < i < |cols| ==> cols[i].name != name
    ensures r.None? ==> forall i :: 0 <= i < |cols| ==> cols[i].name != name
  {
    if |cols| == 0 then None
    else if cols[|cols| - 1].name == name then Some(|cols| - 1)
    else ColumnOfField(cols[..|cols| - 1], name)
  }

  datatype TypedValue = TypedValue(typ: Type, val: Value)

  /** What one step of a field reference denotes, starting from a value; None when it denotes nothing. */
  function ResolveStep(tv: TypedValue, step: Ref): Option<TypedValue> {
    var elements := Elements(tv.val);
    match step
    case Dot(name) =>
      if !tv.typ.RecordType? then None
      else
        var col := ColumnOfField(tv.typ.columns, name);
        if col.None? then None
        else if tv.val.Null? then Some(TypedValue(tv.typ.columns[col.value].typ, Null))
        else if col.value < |elements| then Some(TypedValue(tv.typ.columns[col.value].typ, elements[col.value]))
        else None
    case At(i) =>
      if !tv.typ.ArrayType? || !(0 <= i < |elements|) then None
      else Some(TypedValue(tv.typ.elem, elements[i]))
    case Key(name) =>
      if !tv.typ.RecordType? then None
      else
        var col := ColumnOfField(tv.typ.columns, name);
        if col.None? || col.value >= |elements| then None
        else Some(TypedValue(tv.typ.columns[col.value].typ, elements[col.value]))
  }

  /** What a field reference denotes. */
  function Resolve(tv: TypedValue, path: seq<Ref>): Option<TypedValue>
    decreases |path|
  {
    if |path| == 0 then Some(tv)
    else
      match ResolveStep(tv, path[0])
      case Some(next) => Resolve(next, path[1..])
      case None => None
  }

  /** A leaf passes a search by its value or an element, and a string search also by its name. */
  ghost predicate LeafMatches(p: Test, leaf: Leaf, fold: int -> int)
    requires TestOk(p)
  {
    || (p.SearchFor? && FoldOccurs(leaf.name, p.term, fold))
    || Holds(p, leaf.typ, BodyOf(leaf.val), fold)
    || HoldsInside(p, leaf.typ, leaf.val, fold)
  }

  ghost predicate AnyLeaf(p: Test, leaves: seq<Leaf>, fold: int -> int)
    requires TestOk(p)
  {
    exists i :: 0 <= i < |leaves| && LeafMatches(p, leaves[i], fold)
  }

  /** The subnet literals of an expression are as parsed. */
  predicate ExprOk(e: Expr) {
    match e
    case And(a, b) => ExprOk(a) && ExprOk(b)
    case Or(a, b) => ExprOk(a) && ExprOk(b)
    case Not(a) => ExprOk(a)
    case CompareAny(_, _, lit) => LiteralOk(lit)
    case CompareField(_, _, lit) => LiteralOk(lit)
    case _ => true
  }

  /** The record's leaves in the order they are searched. */
  function RecordLeaves(r: Record): Walk
    requires |r.vals| == |r.cols|
  {
    Enter(Container(r.vals), r.cols, [])
  }

  /** The record matches the expression; `other` decides the leaves outside this model. */
  ghost predicate Matches(e: Expr, r: Record, fold: int -> int, other: (nat, ByteString) -> bool)
    requires |r.vals| == |r.cols| && ExprOk(e)
  {
    match e
    case MatchAll => true
    case And(a, b) => Matches(a, r, fold, other) && Matches(b, r, fold, other)
    case Or(a, b) => Matches(a, r, fold, other) || Matches(b, r, fold, other)
    case Not(a) => !Matches(a, r, fold, other)
    case Search(term) => AnyLeaf(SearchFor(term), RecordLeaves(r).leaves, fold)
    case SearchAddress(text, ip) => AnyLeaf(SearchForAddress(text, ip), RecordLeaves(r).leaves, fold)
    case CompareAny(op, recursive, s) =>
      AnyColumn(CompareTo(op, s), op == In, recursive, r.vals, r.cols, fold)
    case CompareField(op, path, s) =>
      var tv := Resolve(TypedValue(RecordType(r.cols), Container(r.vals)), path);
      path != [] && tv.Some? && HoldsFor(CompareTo(op, s), op == In, tv.value.typ, tv.value.val, fold)
    case Other(id) => other(id, EncodeAll(r.vals))
  }

  /** A value, or with "in" some element of it, compares as it should. */
  ghost predicate ValueCompares(op: Comparator, lit: Literal, t: Type, v: Value)
    requires LiteralOk(lit)
  {
    if op != In then ComparesAs(op, lit, t, BodyOf(v).GetOr([]))
    else
      && (t.SetType? || t.ArrayType?) && v.Container?
      && exists i :: 0 <= i < |v.children| && ComparesAs(op, lit, t.elem, BodyOf(v.children[i]).GetOr([]))
  }

  /** The field exists and compares as it should. */
  ghost predicate FieldCompares(op: Comparator, path: seq<Ref>, lit: Literal, r: Record)
    requires LiteralOk(lit)
  {
    var tv := Resolve(TypedValue(RecordType(r.cols), Container(r.vals)), path);
    path != [] && tv.Some? && ValueCompares(op, lit, tv.value.typ, tv.value.val)
  }

  /** Some column compares as it should. */
  ghost predicate ColumnCompares(op: Comparator, lit: Literal, r: Record)
    requires LiteralOk(lit) && |r.vals| == |r.cols|
  {
    exists k :: 0 <= k < |r.cols| && ValueCompares(op, lit, r.cols[k].typ, r.vals[k])
  }

  lemma HoldsCompares(op: Comparator, lit: Literal, t: Type, v: Value, fold: int -> int)
    requires LiteralOk(lit)
    ensures HoldsFor(CompareTo(op, lit), op == In, t, v, fold) <==> ValueCompares(op, lit, t, v)
  {
    hide ComparesAs, Compares;
    ValuesCompare(op, lit, t, BodyOf(v));
    if (t.SetType? || t.ArrayType?) && v.Container? {
      assert InnerType(t) == Some(t.elem) && Elements(v) == v.children;
      forall i | 0 <= i < |v.children|
        ensures Compares(op, lit, t.elem, BodyOf(v.children[i])) <==> ComparesAs(op, lit, t.elem, BodyOf(v.children[i]).GetOr([]))
      {
        ValuesCompare(op, lit, t.elem, BodyOf(v.children[i]));
      }
    }
  }

  /** A query for a field matches when the field's bytes are in the order asked for. */
  lemma FieldMatches(op: Comparator, path: seq<Ref>, lit: Literal, r: Record, fold: int -> int, other: (nat, ByteString) -> bool)
    requires LiteralOk(lit) && |r.vals| == |r.cols|
    ensures Matches(CompareField(op, path, lit), r, fold, other) <==> FieldCompares(op, path, lit, r)
  {
    hide HoldsFor, ValueCompares, Resolve;
    var tv := Resolve(TypedValue(RecordType(r.cols), Container(r.vals)), path);
    if tv.Some? {
      HoldsCompares(op, lit, tv.value.typ, tv.value.val, fold);
    }
  }

  lemma {:induction false} ColumnsFrom(op: Comparator, lit: Literal, vs: seq<Value>, cols: seq<Column>, fold: int -> int)
    requires LiteralOk(lit) && |vs| == |cols|
    ensures AnyColumn(CompareTo(op, lit), op == In, false, vs, cols, fold) <==> ColumnCompares(op, lit, Record(cols, vs))
    decreases |vs|
  {
    if |cols| > 0 {
      hide HoldsFor, ValueCompares;
      HoldsCompares(op, lit, cols[0].typ, vs[0], fold);
      ColumnsFrom(op, lit, vs[1..], cols[1..], fold);
      if k :| 0 <= k < |cols[1..]| && ValueCompares(op, lit, cols[1..][k].typ, vs[1..][k]) {
        assert ValueCompares(op, lit, cols[k + 1].typ, vs[k + 1]);
      }
      if k :| 0 <= k < |cols| && ValueCompares(op, lit, cols[k].typ, vs[k]) && k > 0 {
        assert ValueCompares(op, lit, cols[1..][k - 1].typ, vs[1..][k - 1]);
      }
    }
  }

  /** A query for any column matches when some column's bytes are. */
  lemma AnyMatches(op: Comparator, lit: Literal, r: Record, fold: int -> int, other: (nat, ByteString) -> bool)
    requires LiteralOk(lit) && |r.vals| == |r.cols|
    ensures Matches(CompareAny(op, false, lit), r, fold, other) <==> ColumnCompares(op, lit, r)
  {
    ColumnsFrom(op, lit, r.vals, r.cols, fold);
  }

  /** A string value holds the term, up to case. */
  ghost predicate TextLike(term: ByteString, t: Type, body: Body) {
    (AliasedType(t) == StringType || AliasedType(t) == BstringType) && LikeIn(term, body.GetOr([]))
  }

  /** The leaf, or an element of it, is a string that holds the term. */
  ghost predicate LeafTextLike(term: ByteString, leaf: Leaf) {
    || TextLike(term, leaf.typ, BodyOf(leaf.val))
    || ((leaf.typ.SetType? || leaf.typ.ArrayType?) && leaf.val.Container?
        && exists i :: 0 <= i < |leaf.val.children| && TextLike(term, leaf.typ.elem, BodyOf(leaf.val.children[i])))
  }

  /** The leaf, or an element of it, is the address. */
  ghost predicate LeafIsAddress(ip: IP, leaf: Leaf) {
    || ComparesAs(Eq, Address(ip), leaf.typ, BodyOf(leaf.val).GetOr([]))
    || ((leaf.typ.SetType? || leaf.typ.ArrayType?) && leaf.val.Container?
        && exists i :: 0 <= i < |leaf.val.children|
             && ComparesAs(Eq, Address(ip), leaf.typ.elem, BodyOf(leaf.val.children[i]).GetOr([])))
  }

  lemma FoldsLike(term: ByteString, text: ByteString, fold: int -> int)
    requires FoldsAscii(fold) && Ascii(term)
    ensures FoldOccurs(text, term, fold) <==> LikeIn(term, text)
  {
    FoldOccursIsLowerOccurs(text, term, fold);
    LikeInIsLower(term, text);
  }

  lemma TextHolds(p: Test, term: ByteString, t: Type, body: Body, fold: int -> int)
    requires FoldsAscii(fold) && Ascii(term)
    ensures Holds(SearchFor(term), t, body, fold) <==> TextLike(term, t, body)
    ensures p.SearchForAddress? && p.text == term ==>
              (Holds(p, t, body, fold) <==> TextLike(term, t, body) || ComparesAs(Eq, Address(p.address), t, body.GetOr([])))
  {
    FoldsLike(term, body.GetOr([]), fold);
    if p.SearchForAddress? {
      ValuesCompare(Eq, Address(p.address), t, body);
    }
  }

  /** What a search for a term finds: it in a field's name, in a string, or in a string in a set or array. */
  lemma SearchMatches(term: ByteString, r: Record, fold: int -> int, other: (nat, ByteString) -> bool)
    requires FoldsAscii(fold) && Ascii(term) && |r.vals| == |r.cols|
    ensures Matches(Search(term), r, fold, other) <==>
            var leaves := RecordLeaves(r).leaves;
            exists k :: 0 <= k < |leaves| && (LikeIn(term, leaves[k].name) || LeafTextLike(term, leaves[k]))
  {
    hide TextLike, Holds, LikeIn, FoldOccurs, RecordLeaves, FoldsAscii;
    var leaves, p := RecordLeaves(r).leaves, SearchFor(term);
    forall k | 0 <= k < |leaves|
      ensures LeafMatches(p, leaves[k], fold) <==> LikeIn(term, leaves[k].name) || LeafTextLike(term, leaves[k])
    {
      var leaf := leaves[k];
      FoldsLike(term, leaf.name, fold);
      TextHolds(p, term, leaf.typ, BodyOf(leaf.val), fold);
      if (leaf.typ.SetType? || leaf.typ.ArrayType?) && leaf.val.Container? {
        var t, vs := leaf.typ.elem, leaf.val.children;
        assert InnerType(leaf.typ) == Some(t) && Elements(leaf.val) == vs;
        forall i | 0 <= i < |vs| ensures Holds(p, t, BodyOf(vs[i]), fold) <==> TextLike(term, t, BodyOf(vs[i])) {
          TextHolds(p, term, t, BodyOf(vs[i]), fold);
        }
      }
    }
    hide LeafMatches, LeafTextLike;
  }

  /** ... and a search for an address: the address, or its text in a string. */
  lemma AddressSearchMatches(text: ByteString, ip: IP, r: Record, fold: int -> int, other: (nat, ByteString) -> bool)
    requires FoldsAscii(fold) && Ascii(text) && |r.vals| == |r.cols|
    ensures Matches(SearchAddress(text, ip), r, fold, other) <==>
            var leaves := RecordLeaves(r).leaves;
            exists k :: 0 <= k < |leaves| && (LeafIsAddress(ip, leaves[k]) || LeafTextLike(text, leaves[k]))
  {
    hide TextLike, Holds, LikeIn, FoldOccurs, RecordLeaves, FoldsAscii, ComparesAs;
    var leaves, p := RecordLeaves(r).leaves, SearchForAddress(text, ip);
    forall k | 0 <= k < |leaves|
      ensures LeafMatches(p, leaves[k], fold) <==> LeafIsAddress(ip, leaves[k]) || LeafTextLike(text, leaves[k])
    {
      var leaf := leaves[k];
      TextHolds(p, text, leaf.typ, BodyOf(leaf.val), fold);
      if (leaf.typ.SetType? || leaf.typ.ArrayType?) && leaf.val.Container? {
        var t, vs := leaf.typ.elem, leaf.val.children;
        assert InnerType(leaf.typ) == Some(t) && Elements(leaf.val) == vs;
        forall i | 0 <= i < |vs|
          ensures Holds(p, t, BodyOf(vs[i]), fold) <==>
                  TextLike(text, t, BodyOf(vs[i])) || ComparesAs(Eq, Address(ip), t, BodyOf(vs[i]).GetOr([]))
        {
          TextHolds(p, text, t, BodyOf(vs[i]), fold);
        }
      }
    }
    hide LeafMatches, LeafTextLike, LeafIsAddress;
  }

  /** Queries are combined as in logic. */
  lemma QueriesCombine(a: Expr, b: Expr, r: Record, fold: int -> int, other: (nat, ByteString) -> bool)
    requires |r.vals| == |r.cols| && ExprOk(a) && ExprOk(b)
    ensures assert ExprOk(Not(a)) && ExprOk(Not(b));
            Matches(Not(And(a, b)), r, fold, other) <==> Matches(Or(Not(a), Not(b)), r, fold, other)
    ensures Matches(And(a, Or(a, b)), r, fold, other) <==> Matches(a, r, fold, other)
    ensures Matches(Or(a, Not(a)), r, fold, other) && !Matches(And(a, Not(a)), r, fold, other)
    ensures Matches(MatchAll, r, fold, other)
  {
  }

  // -------------------------------------------------- the loops that compute it

  method Check(p: Test, t: Type, body: Body, fold: int -> int) returns (b: bool)
    requires TestOk(p)
    ensures b <==> Holds(p, t, body, fold)
  {
    match p {
      case SearchFor(term) =>
        if !IsString(t) {
          return false;
        }
        b := SearchFold(body.GetOr([]), term, fold);
      case SearchForAddress(text, ip) =>
        if IsString(t) {
          b := SearchFold(body.GetOr([]), text, fold);
        } else {
          b := Compares(Eq, Address(ip), t, body);
        }
      case CompareTo(op, lit) => b := Compares(op, lit, t, body);
    }
  }

  /** Elements decode one by one from the body of their container. */
  lemma DecodeFirst(vs: seq<Value>)
    requires |vs| > 0 && Fits(vs[0])
    ensures StepOf(EncodeAll(vs)) == Item(BodyOf(vs[0]), IsContainer(vs[0]), Encode(vs[0]), EncodeAll(vs[1..]))
  {
    StepOfEncoded(vs[0], EncodeAll(vs[1..]));
  }

  ghost predicate AllFit(vs: seq<Value>) {
    forall i :: 0 <= i < |vs| ==> Fits(vs[i])
  }

  lemma {:induction false} SmallBodiesFit(vs: seq<Value>)
    requires |EncodeAll(vs)| <= MAX_BODY
    requires forall i :: 0 <= i < |vs| ==> !vs[i].Raw?
    ensures AllFit(vs)
    ensures forall i :: 0 <= i < |vs| ==> |Encode(vs[i])| <= |EncodeAll(vs)|
  {
    if |vs| > 0 {
      SmallBodiesFit(vs[1..]);
      BodyIsShorter(vs[0]);
    }
  }

  lemma BodyIsShorter(v: Value)
    requires !v.Raw?
    ensures BodyOf(v).Some? ==> |BodyOf(v).value| < |Encode(v)|
  {
  }

  lemma ElementsFit(t: Type, v: Value)
    requires Conforms(v, t) && Fits(v) && InnerType(t).Some?
    ensures AllFit(Elements(v)) && BodyOf(v).GetOr([]) == EncodeAll(Elements(v))
  {
    SmallBodiesFit(Elements(v));
  }

  /** The test on the elements of a container value with body `body`. */
  method CheckInside(p: Test, t: Type, body: Body, ghost v: Value, fold: int -> int) returns (b: bool)
    requires TestOk(p) && Conforms(v, t) && Fits(v) && body == BodyOf(v)
    ensures b <==> HoldsInside(p, t, v, fold)
  {
    var inner := InnerType(t);
    if inner.None? {
      return false;
    }
    ghost var vs := Elements(v);
    ElementsFit(t, v);
    hide Holds, Compares, Conforms, StepOf, EncodeAll;
    var it := new Iter(body.GetOr([]));
    ghost var k := 0;
    while !it.Done()
      invariant 0 <= k <= |vs| && it.buf == EncodeAll(vs[k..])
      invariant forall i :: 0 <= i < k ==> !Holds(p, inner.value, BodyOf(vs[i]), fold)
      decreases |it.buf|
    {
      SomethingLeft(vs[k..]);
      assert k < |vs| && Fits(vs[k]);
      DecodeFirst(vs[k..]);
      assert vs[k..][1..] == vs[k + 1..];
      var r := it.Next();
      var found := Check(p, inner.value, r.value.0, fold);
      if found {
        return true;
      }
      k := k + 1;
    }
    NothingLeft(vs[k..]);
    b := false;
  }

  lemma SomethingLeft(vs: seq<Value>)
    requires EncodeAll(vs) != []
    ensures vs != []
  {
  }

  lemma NothingLeft(vs: seq<Value>)
    requires EncodeAll(vs) == [] && AllFit(vs)
    ensures vs == []
  {
    if vs != [] {
      assert |Encode(vs[0])| >= 1;
    }
  }

  method CheckFor(p: Test, inside: bool, t: Type, body: Body, ghost v: Value, fold: int -> int) returns (b: bool)
    requires TestOk(p) && Conforms(v, t) && Fits(v) && body == BodyOf(v)
    ensures b <==> HoldsFor(p, inside, t, v, fold)
  {
    if inside {
      b := CheckInside(p, t, body, v, fold);
    } else {
      b := Check(p, t, body, fold);
    }
  }

  /** Tests the columns of a record body in order. */
  method CheckColumns(p: Test, inside: bool, recursive: bool, raw: ByteString, cols: seq<Column>, ghost vs: seq<Value>, fold: int -> int)
    returns (b: bool)
    requires TestOk(p) && ConformsAll(vs, cols) && raw == EncodeAll(vs) && |raw| <= MAX_BODY
    ensures b <==> AnyColumn(p, inside, recursive, vs, cols, fold)
    decreases vs
  {
    hide HoldsFor;
    var it := new Iter(raw);
    SmallBodiesFit(vs);
    assert cols[0..] == cols && vs[0..] == vs;
    for k := 0 to |cols|
      invariant it.buf == EncodeAll(vs[k..])
      invariant AnyColumn(p, inside, recursive, vs, cols, fold) <==> AnyColumn(p, inside, recursive, vs[k..], cols[k..], fold)
    {
      assert Fits(vs[k]) && Conforms(vs[k], cols[k].typ);
      DecodeFirst(vs[k..]);
      assert vs[k..][1..] == vs[k + 1..] && cols[k..][1..] == cols[k + 1..];
      var r := it.Next();
      var t := cols[k].typ;
      var hit;
      if recursive && t.RecordType? {
        if r.value.0.None? {
          hit := false;
        } else {
          hit := CheckColumns(p, inside, recursive, r.value.0.value, t.columns, vs[k].children, fold);
        }
      } else {
        hit := CheckFor(p, inside, t, r.value.0, vs[k], fold);
      }
      assert hit <==> FirstColumnHolds(p, inside, recursive, vs[k..], cols[k..], fold);
      if hit {
        return true;
      }
    }
    b := false;
  }

  ghost predicate LeafOk(leaf: Leaf) {
    Conforms(leaf.val, leaf.typ) && Fits(leaf.val)
  }

  ghost predicate LeavesOk(leaves: seq<Leaf>) {
    forall i :: 0 <= i < |leaves| ==> LeafOk(leaves[i])
  }

  method CheckLeaf(p: Test, f: Field, ghost leaf: Leaf, fold: int -> int) returns (b: bool)
    requires TestOk(p) && LeafOk(leaf) && f == FieldOf(leaf)
    ensures b <==> LeafMatches(p, leaf, fold)
  {
    b := false;
    if p.SearchFor? {
      b := SearchFold(f.name, p.term, fold);
    }
    if !b {
      b := Check(p, f.typ, f.body, fold);
    }
    if !b {
      b := CheckInside(p, f.typ, f.body, leaf.val, fold);
    }
  }

  /** Searches values, elements and, for a string, field names, leaf by leaf, until the walk ends or cannot go on. */
  method SearchRecord(p: Test, raw: ByteString, cols: seq<Column>, ghost vals: seq<Value>, fold: int -> int)
    returns (b: bool)
    requires TestOk(p) && RecordOk(Record(cols, vals)) && raw == EncodeAll(vals)
    ensures b <==> AnyLeaf(p, RecordLeaves(Record(cols, vals)).leaves, fold)
  {
    var iter := new FieldIter(cols, raw, vals);
    ghost var leaves := RecordLeaves(Record(cols, vals)).leaves;
    EnteredLeavesOk(Container(vals), cols, []);
    hide LeafMatches, LeafOk, RecordLeaves, RemainingOf, FramesOk;
    ghost var k := 0;
    while !iter.Done()
      invariant iter.Valid() && 0 <= k <= |leaves|
      invariant iter.Remaining().leaves == leaves[k..]
      invariant forall i :: 0 <= i < k ==> !LeafMatches(p, leaves[i], fold)
      decreases |leaves| - k
    {
      var f := iter.Next();
      if f.Err? {
        return false;
      }
      var found := CheckLeaf(p, f.value, leaves[k], fold);
      if found {
        return true;
      }
      k := k + 1;
    }
    assert leaves[k..] == [];
    b := false;
  }

  lemma {:induction false} EnteredLeavesOk(v: Value, cols: seq<Column>, name: ByteString)
    requires v.Container? && ConformsAll(v.children, cols) && |EncodeAll(v.children)| <= MAX_BODY
    ensures LeavesOk(Enter(v, cols, name).leaves)
    decreases v, 0
  {
    if cols != [] {
      ColumnLeavesOk(v.children, cols, name);
    }
  }

  lemma {:induction false} ColumnLeavesOk(vs: seq<Value>, cols: seq<Column>, outer: ByteString)
    requires ConformsAll(vs, cols) && |EncodeAll(vs)| <= MAX_BODY
    ensures LeavesOk(Leaves(vs, cols, outer).leaves)
    decreases vs
  {
    if |cols| > 0 {
      assert Conforms(vs[0], cols[0].typ);
      BodyIsShorter(vs[0]);
      ColumnLeavesOk(vs[1..], cols[1..], outer);
      var head := FirstLeaves(vs, cols, outer);
      assert EncodeAll(vs) == Encode(vs[0]) + EncodeAll(vs[1..]);
      if !IsRecord(cols[0].typ) {
        assert LeafOk(Leaf(FieldName(outer, cols[0].name), cols[0].typ, vs[0]));
      } else if vs[0].Container? {
        EnteredLeavesOk(vs[0], ColumnsOf(cols[0].typ), FieldName(outer, cols[0].name));
      } else {
        assert Enter(vs[0], ColumnsOf(cols[0].typ), FieldName(outer, cols[0].name)).leaves == [];
      }
    }
  }

  /** The `idx`-th value encoded in a container body. */
  method NthFromContainer(body: ByteString, idx: int, ghost vs: seq<Value>) returns (r: Option<Body>)
    requires body == EncodeAll(vs) && AllFit(vs)
    ensures r == if 0 <= idx < |vs| then Some(BodyOf(vs[idx])) else None
  {
    var it := new Iter(body);
    var i := 0;
    while !it.Done()
      invariant 0 <= i <= |vs| && it.buf == EncodeAll(vs[i..])
      invariant !(0 <= idx < i)
      decreases |it.buf|
    {
      assert vs[i..] != [];
      assert Fits(vs[i]);
      DecodeFirst(vs[i..]);
      assert vs[i..][1..] == vs[i + 1..];
      var v := it.Next();
      if i == idx {
        return Some(v.value.0);
      }
      i := i + 1;
    }
    NothingLeft(vs[i..]);
    r := None;
  }

  /** Follows one step of a field reference through the bytes of a value. */
  method FieldStep(t: Type, body: Body, step: Ref, ghost v: Value) returns (r: Option<(Type, Body)>, ghost w: Value)
    requires Conforms(v, t) && Fits(v) && body == BodyOf(v)
    ensures var next := ResolveStep(TypedValue(t, v), step);
            && (r.Some? <==> next.Some?)
            && (r.Some? ==> r.value == (next.value.typ, BodyOf(next.value.val)))
            && (r.Some? ==> w == next.value.val && Conforms(w, r.value.0) && Fits(w))
  {
    w := v;
    ghost var vs := Elements(v);
    var inner, i;
    match step {
      case At(k) =>
        if !t.ArrayType? {
          return None, v;
        }
        inner, i := t.elem, k;
      case _ =>
        if !t.RecordType? {
          return None, v;
        }
        var col := ColumnOfField(t.columns, step.name);
        if col.None? {
          return None, v;
        }
        inner, i := t.columns[col.value].typ, col.value;
        if step.Dot? && body.None? {
          return Some((inner, None)), Null;
        }
    }
    SmallBodiesFit(vs);
    var b := NthFromContainer(body.GetOr([]), i, vs);
    if b.None? {
      return None, v;
    }
    w := vs[i];
    r := Some((inner, b.value));
  }

  /** Follows a field reference through the bytes of a record. */
  method FieldValue(cols: seq<Column>, raw: ByteString, path: seq<Ref>, ghost vals: seq<Value>)
    returns (r: Option<(Type, Body)>, ghost v: Value)
    requires RecordOk(Record(cols, vals)) && raw == EncodeAll(vals)
    ensures var tv := Resolve(TypedValue(RecordType(cols), Container(vals)), path);
            && (r.Some? <==> tv.Some?)
            && (r.Some? ==> r.value == (tv.value.typ, BodyOf(tv.value.val)))
            && (r.Some? ==> v == tv.value.val && Conforms(v, r.value.0) && Fits(v))
  {
    var t: Type, body: Body := RecordType(cols), Some(raw);
    v := Container(vals);
    assert body == BodyOf(v) && Conforms(v, t) && Fits(v);
    hide Conforms, Fits, BodyOf, ResolveStep;
    for k := 0 to |path|
      invariant Resolve(TypedValue(RecordType(cols), Container(vals)), path) == Resolve(TypedValue(t, v), path[k..])
      invariant body == BodyOf(v) && Conforms(v, t) && Fits(v)
    {
      assert path[k..][1..] == path[k + 1..];
      var next;
      next, v := FieldStep(t, body, path[k], v);
      if next.None? {
        return None, v;
      }
      t, body := next.value.0, next.value.1;
    }
    r := Some((t, body));
  }

  lemma MeaningOfComparisons(e: Expr, r: Record, fold: int -> int, other: (nat, ByteString) -> bool)
    requires ExprOk(e) && |r.vals| == |r.cols|
    ensures e.CompareField? ==> (Matches(e, r, fold, other) <==> FieldCompares(e.op, e.path, e.literal, r))
    ensures e.CompareAny? && !e.recursive ==> (Matches(e, r, fold, other) <==> ColumnCompares(e.op, e.literal, r))
  {
    if e.CompareField? {
      FieldMatches(e.op, e.path, e.literal, r, fold, other);
    } else if e.CompareAny? && !e.recursive {
      AnyMatches(e.op, e.literal, r, fold, other);
    }
  }

  /** The compiled filter, run on a record's type and bytes. */
  method Apply(e: Expr, cols: seq<Column>, raw: ByteString, ghost vals: seq<Value>, fold: int -> int, other: (nat, ByteString) -> bool)
    returns (b: bool)
    requires ExprOk(e) && RecordOk(Record(cols, vals)) && raw == EncodeAll(vals)
    ensures b <==> Matches(e, Record(cols, vals), fold, other)
    ensures e.CompareField? ==> (b <==> FieldCompares(e.op, e.path, e.literal, Record(cols, vals)))
    ensures e.CompareAny? && !e.recursive ==> (b <==> ColumnCompares(e.op, e.literal, Record(cols, vals)))
    decreases e
  {
    MeaningOfComparisons(e, Record(cols, vals), fold, other);
    hide FieldCompares, ColumnCompares;
    match e {
      case MatchAll => b := true;
      case And(x, y) =>
        b := Apply(x, cols, raw, vals, fold, other);
        if b {
          b := Apply(y, cols, raw, vals, fold, other);
        }
      case Or(x, y) =>
        b := Apply(x, cols, raw, vals, fold, other);
        if !b {
          b := Apply(y, cols, raw, vals, fold, other);
        }
      case Not(x) =>
        b := Apply(x, cols, raw, vals, fold, other);
        b := !b;
      case Search(term) => b := SearchRecord(SearchFor(term), raw, cols, vals, fold);
      case SearchAddress(text, ip) => b := SearchRecord(SearchForAddress(text, ip), raw, cols, vals, fold);
      case CompareAny(op, recursive, s) =>
        b := CheckColumns(CompareTo(op, s), op == In, recursive, raw, cols, vals, fold);
      case CompareField(op, path, s) =>
        if path == [] {
          return false;
        }
        var r, v := FieldValue(cols, raw, path, vals);
        if r.None? {
          return false;
        }
        b := CheckFor(CompareTo(op, s), op == In, r.value.0, r.value.1, v, fold);
      case Other(id) => b := other(id, raw);
    }
  }
}
