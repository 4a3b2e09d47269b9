/**
 * Record types and the two walks over their fields: fieldIter (zng/fielditer.go),
 * which walks a value, and fieldNameIter (filter/fieldnamefinder.go), which walks
 * the type alone.
 */
module Fields {
  import opened Bytes
  import opened Zcode

  const DOT: Byte := 46

  datatype Column = Column(name: ByteString, typ: Type)

  /** Value types; a map or union body is never looked into by the filters. */
  datatype Type =
    | StringType
    | BstringType
    | IpType
    | NetType
    | OtherPrimitive(id: nat)
    | RecordType(columns: seq<Column>)
    | SetType(elem: Type)
    | ArrayType(elem: Type)
    | OtherContainer(id: nat)
    | Alias(name: ByteString, of: Type)

  /** The type behind any chain of aliases. */
  function AliasedType(t: Type): (r: Type)
    ensures !r.Alias? && (r == t || r < t)
  {
    match t
    case Alias(_, of) => AliasedType(of)
    case _ => t
  }

  predicate IsRecord(t: Type) { AliasedType(t).RecordType? }

  /** The columns of a record type, aliased or not. */
  function ColumnsOf(t: Type): seq<Column>
    requires IsRecord(t)
  {
    AliasedType(t).columns
  }

  /** A value shaped as its type asks, with an unset value allowed anywhere. */
  ghost predicate Conforms(v: Value, t: Type)
    decreases v
  {
    match AliasedType(t)
    case RecordType(cols) =>
      v.Null? || (v.Container? && |v.children| == |cols|
                  && forall i :: 0 <= i < |cols| ==> Conforms(v.children[i], cols[i].typ))
    case SetType(e) => v.Null? || (v.Container? && forall i :: 0 <= i < |v.children| ==> Conforms(v.children[i], e))
    case ArrayType(e) => v.Null? || (v.Container? && forall i :: 0 <= i < |v.children| ==> Conforms(v.children[i], e))
    case OtherContainer(_) => v.Null? || v.Container? || v.Opaque?
    case _ => v.Null? || v.Primitive?
  }

  ghost predicate ConformsAll(vs: seq<Value>, cols: seq<Column>) {
    |vs| == |cols| && forall i :: 0 <= i < |vs| ==> Conforms(vs[i], cols[i].typ)
  }

  // ------------------------------------------------------- fields of a value

  datatype Leaf = Leaf(name: ByteString, typ: Type, val: Value)

  /** A field as the iterator hands it out. */
  datatype Field = Field(name: ByteString, typ: Type, body: Body)

  function FieldOf(leaf: Leaf): Field {
    Field(leaf.name, leaf.typ, BodyOf(leaf.val))
  }

  /** Leaves in order, up to the first nested record that cannot be entered. */
  datatype Walk = Walk(leaves: seq<Leaf>, ok: bool)

  /** Dotted name of a column of the record called `outer`. */
  function FieldName(outer: ByteString, name: ByteString): ByteString {
    if |outer| > 0 then outer + [DOT] + name else name
  }

  /** First `a`, then, if it could be finished, `b`. */
  function Then(a: Walk, b: Walk): Walk {
    if a.ok then Walk(a.leaves + b.leaves, b.ok) else a
  }

  lemma ThenAssociative(a: Walk, b: Walk, c: Walk)
    ensures Then(Then(a, b), c) == Then(a, Then(b, c))
  {
    assert a.leaves + b.leaves + c.leaves == a.leaves + (b.leaves + c.leaves);
  }

  /** The leaves of the columns still to visit. */
  function Leaves(vs: seq<Value>, cols: seq<Column>, outer: ByteString): Walk
    requires |vs| == |cols|
    decreases vs
  {
    if |cols| == 0 then Walk([], true)
    else Then(FirstLeaves(vs, cols, outer), Leaves(vs[1..], cols[1..], outer))
  }

  /** The leaves under the first column. */
  function FirstLeaves(vs: seq<Value>, cols: seq<Column>, outer: ByteString): Walk
    requires |vs| == |cols| > 0
    decreases vs, 0
  {
    var name := FieldName(outer, cols[0].name);
    if IsRecord(cols[0].typ) then
      Enter(vs[0], ColumnsOf(cols[0].typ), name)
    else
      Walk([Leaf(name, cols[0].typ, vs[0])], true)
  }

  /** The leaves of one record value: unset records and records without columns cannot be entered. */
  function Enter(v: Value, cols: seq<Column>, name: ByteString): Walk
    decreases v
  {
    if !v.Container? || |v.children| != |cols| || |cols| == 0 then Walk([], false)
    else Leaves(v.children, cols, name)
  }

  /** One open record: the undecoded rest of its body, its columns, the current one, its dotted name. */
  datatype IterInfo = IterInfo(iter: ByteString, columns: seq<Column>, offset: nat, fullname: ByteString)

  /** What one open record has left to visit. */
  datatype Todo = Todo(vals: seq<Value>, cols: seq<Column>, outer: ByteString)

  ghost predicate TodoOk(t: Todo) {
    ConformsAll(t.vals, t.cols) && |EncodeAll(t.vals)| <= MAX_BODY
  }

  /** The frame has `t` left; an outer frame is still on the column that was entered. */
  ghost predicate FrameOk(info: IterInfo, t: Todo, innermost: bool) {
    var from := info.offset + (if innermost then 0 else 1);
    && TodoOk(t)
    && info.iter == EncodeAll(t.vals)
    && info.fullname == t.outer
    && from <= |info.columns| && info.columns[from..] == t.cols
  }

  ghost predicate FramesOk(stack: seq<IterInfo>, todos: seq<Todo>) {
    |stack| == |todos| && forall k :: 0 <= k < |stack| ==> FrameOk(stack[k], todos[k], k == |stack| - 1)
  }

  ghost predicate TodosOk(todos: seq<Todo>) {
    forall k :: 0 <= k < |todos| ==> TodoOk(todos[k])
  }

  ghost function TodoLeaves(t: Todo): Walk
    requires TodoOk(t)
  {
    Leaves(t.vals, t.cols, t.outer)
  }

  /** All that is left, innermost record first. */
  ghost function Rest(todos: seq<Todo>): Walk
    requires TodosOk(todos)
  {
    if |todos| == 0 then Walk([], true)
    else Then(TodoLeaves(todos[|todos| - 1]), Rest(todos[..|todos| - 1]))
  }

  lemma RestSnoc(todos: seq<Todo>, t: Todo)
    requires TodosOk(todos) && TodoOk(t)
    ensures TodosOk(todos + [t]) && Rest(todos + [t]) == Then(TodoLeaves(t), Rest(todos))
  {
    assert (todos + [t])[..|todos|] == todos;
  }

  /** What the first column yields, and what is left after it. */
  lemma FirstColumn(t: Todo)
    requires TodoOk(t) && |t.cols| > 0
    ensures TodoOk(Todo(t.vals[1..], t.cols[1..], t.outer))
    ensures TodoLeaves(t) == Then(FirstLeaves(t.vals, t.cols, t.outer),
                                  TodoLeaves(Todo(t.vals[1..], t.cols[1..], t.outer)))
  {
  }

  /** Entering a record neither adds nor drops leaves; one without columns cannot be entered. */
  lemma RestEnter(todos: seq<Todo>, before: Todo, rest: Todo, child: Todo)
    requires TodosOk(todos) && TodoOk(before) && TodoOk(child)
    requires |before.cols| > 0 && IsRecord(before.cols[0].typ) && before.vals[0].Container?
    requires child == Todo(before.vals[0].children, ColumnsOf(before.cols[0].typ), FieldName(before.outer, before.cols[0].name))
    requires rest == Todo(before.vals[1..], before.cols[1..], before.outer)
    ensures TodosOk(todos + [rest, child])
    ensures child.cols == [] ==> Rest(todos + [before]) == Walk([], false)
    ensures child.cols != [] ==> Rest(todos + [rest, child]) == Rest(todos + [before])
  {
    FirstColumn(before);
    RestSnoc(todos, before);
    RestSnoc(todos, rest);
    RestSnoc(todos + [rest], child);
    assert todos + [rest, child] == todos + [rest] + [child];
    if child.cols != [] {
      ThenAssociative(TodoLeaves(child), TodoLeaves(rest), Rest(todos));
    }
  }

  /** Passing a leaf removes exactly that leaf. */
  lemma RestLeaf(todos: seq<Todo>, before: Todo, rest: Todo)
    requires TodosOk(todos) && TodoOk(before)
    requires |before.cols| > 0 && !IsRecord(before.cols[0].typ)
    requires rest == Todo(before.vals[1..], before.cols[1..], before.outer)
    ensures TodosOk(todos + [rest])
    ensures var leaf := Leaf(FieldName(before.outer, before.cols[0].name), before.cols[0].typ, before.vals[0]);
            Rest(todos + [before]) == Then(Walk([leaf], true), Rest(todos + [rest]))
  {
    FirstColumn(before);
    RestSnoc(todos, before);
    RestSnoc(todos, rest);
    var leaf := Leaf(FieldName(before.outer, before.cols[0].name), before.cols[0].typ, before.vals[0]);
    ThenAssociative(Walk([leaf], true), TodoLeaves(rest), Rest(todos));
  }

  /** An unset record stops the walk. */
  lemma RestStuck(todos: seq<Todo>, before: Todo)
    requires TodosOk(todos) && TodoOk(before)
    requires |before.cols| > 0 && IsRecord(before.cols[0].typ) && !before.vals[0].Container?
    ensures Rest(todos + [before]) == Walk([], false)
  {
    FirstColumn(before);
    RestSnoc(todos, before);
  }

  /** Decoding the first value of an encoded, conforming sequence. */
  lemma StepOfFirst(t: Todo)
    requires TodoOk(t) && |t.vals| > 0
    ensures StepOf(EncodeAll(t.vals)) ==
            Item(BodyOf(t.vals[0]), IsContainer(t.vals[0]), Encode(t.vals[0]), EncodeAll(t.vals[1..]))
    ensures BodyOf(t.vals[0]).Some? ==> |BodyOf(t.vals[0]).value| <= MAX_BODY
    ensures TodoOk(Todo(t.vals[1..], t.cols[1..], t.outer))
  {
    assert Conforms(t.vals[0], t.cols[0].typ);
    assert |BodyOf(t.vals[0]).GetOr([])| <= |Encode(t.vals[0])|;
    StepOfEncoded(t.vals[0], EncodeAll(t.vals[1..]));
  }

  /** What is still to come; a record without columns fails on entry. */
  ghost function RemainingOf(todos: seq<Todo>): Walk
    requires TodosOk(todos)
  {
    if |todos| > 0 && todos[|todos| - 1].cols == [] then Walk([], false) else Rest(todos)
  }

  /** The frames after entering the record in the current column. */
  lemma EnterFrames(stack: seq<IterInfo>, todos: seq<Todo>, t: Todo, rest: Todo, child: Todo, step: Step)
    requires FramesOk(stack, todos + [t]) && |t.cols| > 0
    requires step == StepOf(EncodeAll(t.vals)) && step.Item? && step.container
    requires IsRecord(t.cols[0].typ)
    requires rest == Todo(t.vals[1..], t.cols[1..], t.outer)
    requires t.vals[0].Container? ==>
               child == Todo(t.vals[0].children, ColumnsOf(t.cols[0].typ), FieldName(t.outer, t.cols[0].name))
    ensures t.vals[0].Container? && step.body.Some?
    ensures var info := stack[|todos|];
            FramesOk(stack[..|todos|] + [info.(iter := step.rest), IterInfo(step.body.value, child.cols, 0, child.outer)],
                     todos + [rest, child])
    ensures TodosOk(todos + [t]) && TodosOk(todos + [rest, child])
    ensures child.cols == [] ==> RemainingOf(todos + [t]) == Walk([], false)
    ensures RemainingOf(todos + [rest, child]) == RemainingOf(todos + [t])
  {
    assert FrameOk(stack[|todos|], (todos + [t])[|todos|], true);
    StepOfFirst(t);
    assert Conforms(t.vals[0], t.cols[0].typ);
    forall k | 0 <= k < |todos| ensures FrameOk(stack[k], todos[k], false) && TodoOk(todos[k]) {
      assert FrameOk(stack[k], (todos + [t])[k], false);
    }
    var cols := stack[|todos|].columns;
    assert cols[stack[|todos|].offset + 1..] == rest.cols;
    assert child.cols[0..] == child.cols;
    RestEnter(todos, t, rest, child);
  }

  lemma FramesTodosOk(stack: seq<IterInfo>, todos: seq<Todo>)
    requires FramesOk(stack, todos)
    ensures TodosOk(todos)
  {
    forall k | 0 <= k < |todos| ensures TodoOk(todos[k]) {
      assert FrameOk(stack[k], todos[k], k == |stack| - 1);
    }
  }

  /** The frames after delivering the leaf in the current column. */
  lemma LeafFrames(stack: seq<IterInfo>, todos: seq<Todo>, t: Todo, rest: Todo, step: Step)
    requires FramesOk(stack, todos + [t]) && |t.cols| > 0
    requires step == StepOf(EncodeAll(t.vals)) && step.Item?
    requires rest == Todo(t.vals[1..], t.cols[1..], t.outer)
    ensures step.body == BodyOf(t.vals[0])
    ensures var info := stack[|todos|];
            FramesOk(stack[..|todos|] + [info.(iter := step.rest, offset := info.offset + 1)], todos + [rest])
  {
    assert FrameOk(stack[|todos|], (todos + [t])[|todos|], true);
    StepOfFirst(t);
    forall k | 0 <= k < |todos| ensures FrameOk(stack[k], todos[k], false) {
      assert FrameOk(stack[k], (todos + [t])[k], false);
    }
    assert stack[|todos|].columns[stack[|todos|].offset + 1..] == rest.cols;
  }

  /** What is left after delivering the leaf in the current column. */
  lemma LeafRemaining(todos: seq<Todo>, t: Todo, rest: Todo)
    requires TodosOk(todos + [t]) && |t.vals| == |t.cols| > 0
    requires !IsRecord(t.cols[0].typ)
    requires rest == Todo(t.vals[1..], t.cols[1..], t.outer)
    ensures TodosOk(todos + [rest])
    ensures var leaf := Leaf(FieldName(t.outer, t.cols[0].name), t.cols[0].typ, t.vals[0]);
            RemainingOf(todos + [t]) == Then(Walk([leaf], true), Rest(todos + [rest]))
  {
    assert TodoOk((todos + [t])[|todos|]);
    forall k | 0 <= k < |todos| ensures TodoOk(todos[k]) {
      assert TodoOk((todos + [t])[k]);
    }
    RestLeaf(todos, t, rest);
  }

  /** A record column holding an unset value. */
  lemma StuckFrames(stack: seq<IterInfo>, todos: seq<Todo>, t: Todo, step: Step)
    requires FramesOk(stack, todos + [t]) && |t.cols| > 0
    requires step == StepOf(EncodeAll(t.vals)) && step.Item? && !step.container
    requires IsRecord(t.cols[0].typ)
    ensures TodosOk(todos + [t]) && RemainingOf(todos + [t]) == Walk([], false)
  {
    assert FrameOk(stack[|todos|], (todos + [t])[|todos|], true);
    StepOfFirst(t);
    forall k | 0 <= k < |todos| ensures TodoOk(todos[k]) {
      assert FrameOk(stack[k], (todos + [t])[k], false);
    }
    RestStuck(todos, t);
  }

  /** There is a value to decode exactly when a column is left, and it belongs to that column. */
  lemma CurrentColumn(stack: seq<IterInfo>, todos: seq<Todo>)
    requires FramesOk(stack, todos) && |stack| > 0
    ensures var info, t := stack[|stack| - 1], todos[|todos| - 1];
            && FrameOk(info, t, true) && info.iter == EncodeAll(t.vals)
            && (StepOf(info.iter).Item? <==> t.cols != [])
            && (t.cols != [] ==> info.offset < |info.columns| && info.columns[info.offset] == t.cols[0])
    ensures TodosOk(todos) && (todos[|todos| - 1].cols == [] ==> RemainingOf(todos) == Walk([], false))
  {
    var t := todos[|todos| - 1];
    assert FrameOk(stack[|stack| - 1], t, true);
    FramesTodosOk(stack, todos);
    if t.vals != [] {
      StepOfFirst(t);
    }
  }

  /** Leaving a record whose columns are used up makes the column it was in the last one passed. */
  lemma PopFrame(stack: seq<IterInfo>, todos: seq<Todo>)
    requires FramesOk(stack, todos) && |stack| > 0
    requires stack[|stack| - 1].offset >= |stack[|stack| - 1].columns|
    ensures var k := |stack| - 2;
            FramesOk(if k < 0 then [] else stack[..k] + [stack[k].(offset := stack[k].offset + 1)], todos[..k + 1])
    ensures todos[|todos| - 1].cols == []
  {
    hide TodoOk;
    var k := |stack| - 2;
    assert FrameOk(stack[k + 1], todos[k + 1], true);
    if k >= 0 {
      assert FrameOk(stack[k], todos[k], false);
    }
  }

  lemma RestOfNothing(todos: seq<Todo>)
    requires TodosOk(todos) && |todos| > 0 && todos[|todos| - 1].cols == []
    ensures Rest(todos[..|todos| - 1]) == Rest(todos)
  {
    assert TodoOk(todos[|todos| - 1]);
    var w := Rest(todos[..|todos| - 1]);
    assert [] + w.leaves == w.leaves;
  }

  lemma ColumnsLeft(stack: seq<IterInfo>, todos: seq<Todo>)
    requires FramesOk(stack, todos)
    ensures |stack| == |todos|
    ensures |stack| > 0 && stack[|stack| - 1].offset < |stack[|stack| - 1].columns| ==> todos[|todos| - 1].cols != []
  {
    if |stack| > 0 {
      assert FrameOk(stack[|stack| - 1], todos[|todos| - 1], true);
    }
  }

  /** One step of a walk: `f` is the first field of `before`, and `after` is the rest. */
  ghost predicate Delivers(before: Walk, f: Field, after: Walk) {
    && before.leaves != []
    && f == FieldOf(before.leaves[0])
    && after == Walk(before.leaves[1..], before.ok)
  }

  lemma ThenDelivers(leaf: Leaf, w: Walk)
    ensures Delivers(Then(Walk([leaf], true), w), FieldOf(leaf), w)
  {
  }

  class FieldIter {
    var stack: seq<IterInfo>
    ghost var todos: seq<Todo>

    ghost predicate Valid()
      reads this
    {
      FramesOk(stack, todos)
    }

    /** Everything the iterator has still to deliver. */
    ghost function Remaining(): Walk
      requires Valid()
      reads this
    {
      RemainingOf(todos)
    }

    /** Walks the record with columns `cols` whose body `raw` is the encoding of `vs`. */
    constructor (cols: seq<Column>, raw: ByteString, ghost vs: seq<Value>)
      requires raw == EncodeAll(vs) && |raw| <= MAX_BODY && ConformsAll(vs, cols)
      ensures Valid()
      ensures Remaining() == Enter(Container(vs), cols, [])
    {
      stack := [IterInfo(raw, cols, 0, [])];
      todos := [Todo(vs, cols, [])];
      new;
      assert cols[0..] == cols;
      RestSnoc([], todos[0]);
      assert Leaves(vs, cols, []).leaves + [] == Leaves(vs, cols, []).leaves;
    }

    predicate Done()
      reads this
    {
      |stack| == 0
    }

    /** The next leaf, or an error at a record that cannot be entered. */
    method Next() returns (r: Result<Field, ()>)
      requires Valid()
      modifies this
      ensures r.Ok? ==> Valid() && Delivers(old(Remaining()), r.value, Remaining())
      ensures r.Err? ==> old(stack) == [] || old(Remaining()) == Walk([], false)
      decreases if todos == [] then [] else todos[|todos| - 1].vals
    {
      if |stack| == 0 {
        return Err(());
      }
      var step := Current();
      if step.None? {
        return Err(());
      }
      var info := stack[|stack| - 1];
      var col := info.columns[info.offset];
      var name := FieldName(info.fullname, col.name);
      if IsRecord(col.typ) {
        EnterRecord(step.value, name);
        r := Next();
        return;
      }
      PassLeaf(step.value);
      StepOut();
      r := Ok(Field(name, col.typ, step.value.body));
    }

    /** Decodes the value in the current column; None when it cannot be visited. */
    method Current() returns (r: Option<Step>)
      requires Valid() && |stack| > 0
      ensures r.None? ==> Remaining() == Walk([], false)
      ensures r.Some? ==> todos[|todos| - 1].cols != [] && FrameOk(stack[|stack| - 1], todos[|todos| - 1], true)
                          && r.value == StepOf(stack[|stack| - 1].iter) && r.value.Item?
                          && (IsRecord(todos[|todos| - 1].cols[0].typ) ==> r.value.container)
    {
      hide FrameOk, Rest, StepOf, RemainingOf;
      CurrentColumn(stack, todos);
      var info := stack[|stack| - 1];
      var step := StepOf(info.iter);
      if !step.Item? {
        return None;
      }
      if IsRecord(info.columns[info.offset].typ) && !step.container {
        StuckFrames(stack, todos[..|todos| - 1], todos[|todos| - 1], step);
        assert todos == todos[..|todos| - 1] + [todos[|todos| - 1]];
        return None;
      }
      r := Some(step);
    }

    /** Opens the record in the current column. */
    method EnterRecord(step: Step, name: ByteString)
      requires Valid() && |stack| > 0 && todos[|todos| - 1].cols != []
      requires step == StepOf(stack[|stack| - 1].iter) && step.Item? && step.container
      requires IsRecord(todos[|todos| - 1].cols[0].typ)
      requires name == FieldName(todos[|todos| - 1].outer, todos[|todos| - 1].cols[0].name)
      modifies this
      ensures Valid() && |stack| > 0 && Remaining() == old(Remaining())
      ensures old(todos[|todos| - 1].vals[0].Container?)
      ensures todos[|todos| - 1].vals == old(todos[|todos| - 1].vals[0].children)
    {
      var k := |stack| - 1;
      var info := stack[k];
      ghost var outer, t := todos[..k], todos[k];
      assert todos == outer + [t];
      assert FrameOk(info, t, true);
      var cols := ColumnsOf(info.columns[info.offset].typ);
      ghost var rest := Todo(t.vals[1..], t.cols[1..], t.outer);
      ghost var child := Todo(if t.vals[0].Container? then t.vals[0].children else [], cols, name);
      EnterFrames(stack, outer, t, rest, child, step);
      stack := stack[..k] + [info.(iter := step.rest), IterInfo(step.body.value, cols, 0, name)];
      todos := outer + [rest, child];
    }

    /** Moves past the leaf in the current column. */
    method PassLeaf(step: Step)
      requires Valid() && |stack| > 0 && todos[|todos| - 1].cols != []
      requires step == StepOf(stack[|stack| - 1].iter) && step.Item?
      requires !IsRecord(todos[|todos| - 1].cols[0].typ)
      modifies this
      ensures Valid() && |stack| > 0
      ensures var t := old(todos[|todos| - 1]);
              Delivers(old(Remaining()), Field(FieldName(t.outer, t.cols[0].name), t.cols[0].typ, step.body), Rest(todos))
    {
      var k := |stack| - 1;
      var info := stack[k];
      ghost var outer, t := todos[..k], todos[k];
      assert todos == outer + [t];
      assert FrameOk(info, t, true);
      ghost var rest := Todo(t.vals[1..], t.cols[1..], t.outer);
      FramesTodosOk(stack, todos);
      LeafFrames(stack, outer, t, rest, step);
      LeafRemaining(outer, t, rest);
      ThenDelivers(Leaf(FieldName(t.outer, t.cols[0].name), t.cols[0].typ, t.vals[0]), Rest(outer + [rest]));
      stack := stack[..k] + [info.(iter := step.rest, offset := info.offset + 1)];
      todos := outer + [rest];
    }

    /** Leaves every record whose columns are used up. */
    method StepOut()
      requires Valid() && |stack| > 0
      modifies this
      ensures Valid() && Rest(todos) == old(Rest(todos))
      ensures |stack| == |todos| && (|stack| > 0 ==> todos[|todos| - 1].cols != [])
    {
      hide FrameOk, TodoOk, Rest;
      FramesTodosOk(stack, todos);
      while |stack| > 0 && stack[|stack| - 1].offset >= |stack[|stack| - 1].columns|
        invariant Valid() && TodosOk(todos) && Rest(todos) == old(Rest(todos))
        decreases |stack|
      {
        PopFrame(stack, todos);
        RestOfNothing(todos);
        stack := stack[..|stack| - 1];
        todos := todos[..|todos| - 1];
        if |stack| == 0 {
          break;
        }
        var k := |stack| - 1;
        stack := stack[k := stack[k].(offset := stack[k].offset + 1)];
      }
      ColumnsLeft(stack, todos);
    }
  }
}
