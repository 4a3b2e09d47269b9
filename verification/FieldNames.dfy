/**
 * fieldNameIter (filter/fieldnamefinder.go): walks the dotted field names of a
 * record type in one reused buffer, and how its names relate to those that a walk
 * of a value of that type reports.
 */
module FieldNames {
  import opened Bytes
  import opened Zcode
  import opened Fields

  /** Names in order, up to the first record without columns, where the walk panics. */
  datatype NameWalk = NameWalk(names: seq<ByteString>, ok: bool)

  /** First `a`, then, if it could be finished, `b`. */
  function ThenNames(a: NameWalk, b: NameWalk): NameWalk {
    if a.ok then NameWalk(a.names + b.names, b.ok) else a
  }

  lemma ThenNamesAssociative(a: NameWalk, b: NameWalk, c: NameWalk)
    ensures ThenNames(ThenNames(a, b), c) == ThenNames(a, ThenNames(b, c))
  {
    ConcatAssociative(a.names, b.names, c.names);
  }

  /** The dotted names of the columns still to visit, each preceded by `buf` and a dot; the first byte is dropped. */
  function Names(cols: seq<Column>, buf: ByteString): NameWalk
    decreases cols, 1
  {
    if |cols| == 0 then NameWalk([], true)
    else ThenNames(FirstNames(cols, buf), Names(cols[1..], buf))
  }

  function FirstNames(cols: seq<Column>, buf: ByteString): NameWalk
    requires |cols| > 0
    decreases cols, 0
  {
    var dotted := buf + [DOT] + cols[0].name;
    if IsRecord(cols[0].typ) then EnterNames(ColumnsOf(cols[0].typ), dotted)
    else NameWalk([dotted[1..]], true)
  }

  /** The dotted names of one record type. */
  function EnterNames(cols: seq<Column>, buf: ByteString): NameWalk
    decreases cols, 2
  {
    if |cols| == 0 then NameWalk([], false) else Names(cols, buf)
  }

  /** The names of a record type from the start. */
  function TypeNames(cols: seq<Column>): NameWalk {
    EnterNames(cols, [])
  }

  /** No record type, at any depth, is without columns. */
  ghost predicate NoEmptyRecords(cols: seq<Column>)
    decreases cols
  {
    |cols| > 0 && forall i :: 0 <= i < |cols| && IsRecord(cols[i].typ) ==> NoEmptyRecords(ColumnsOf(cols[i].typ))
  }

  /** The walk of a record type ends well exactly when no record type in it is without columns. */
  lemma {:induction false} WalkEndsExactly(cols: seq<Column>, buf: ByteString)
    ensures EnterNames(cols, buf).ok <==> NoEmptyRecords(cols)
    decreases cols, 1
  {
    if |cols| > 0 {
      ColumnsEndExactly(cols, buf);
    }
  }

  lemma {:induction false} ColumnsEndExactly(cols: seq<Column>, buf: ByteString)
    ensures Names(cols, buf).ok <==>
            forall i :: 0 <= i < |cols| && IsRecord(cols[i].typ) ==> NoEmptyRecords(ColumnsOf(cols[i].typ))
    decreases cols, 0
  {
    if |cols| > 0 {
      ColumnsEndExactly(cols[1..], buf);
      if IsRecord(cols[0].typ) {
        WalkEndsExactly(ColumnsOf(cols[0].typ), buf + [DOT] + cols[0].name);
      }
      assert forall i :: 0 < i < |cols| ==> cols[i] == cols[1..][i - 1];
    }
  }

  // ---------------------------------------------------------------- iterator

  datatype NameInfo = NameInfo(columns: seq<Column>, offset: nat)

  /** Columns an open record has left, and the buffer contents while it is innermost. */
  datatype NameTodo = NameTodo(cols: seq<Column>, buf: ByteString)

  /** Frame `k` is on column `offset`; the record inside it, if any, was reached through that column. */
  ghost predicate NameFrameOk(stack: seq<NameInfo>, todos: seq<NameTodo>, k: nat)
    requires |stack| == |todos| && k < |stack|
  {
    var info := stack[k];
    var from := info.offset + (if k + 1 == |stack| then 0 else 1);
    && from <= |info.columns| && todos[k].cols == info.columns[from..]
    && (k == 0 ==> todos[k].buf == [])
    && (k + 1 < |stack| ==> todos[k + 1].buf == todos[k].buf + [DOT] + info.columns[info.offset].name)
  }

  ghost predicate NameFramesOk(stack: seq<NameInfo>, todos: seq<NameTodo>) {
    |stack| == |todos| && forall k: nat :: k < |stack| ==> NameFrameOk(stack, todos, k)
  }

  /** All that is left, innermost record first. */
  ghost function RestNames(todos: seq<NameTodo>): NameWalk {
    if |todos| == 0 then NameWalk([], true)
    else ThenNames(Names(todos[|todos| - 1].cols, todos[|todos| - 1].buf), RestNames(todos[..|todos| - 1]))
  }

  /** What is still to come; a record without columns panics on entry. */
  ghost function RemainingNames(todos: seq<NameTodo>): NameWalk {
    if |todos| > 0 && todos[|todos| - 1].cols == [] then NameWalk([], false) else RestNames(todos)
  }

  lemma RestNamesSnoc(todos: seq<NameTodo>, t: NameTodo)
    ensures RestNames(todos + [t]) == ThenNames(Names(t.cols, t.buf), RestNames(todos))
  {
    assert (todos + [t])[..|todos|] == todos;
  }

  lemma StepIntoRecord(stack: seq<NameInfo>, todos: seq<NameTodo>)
    requires NameFramesOk(stack, todos) && |stack| > 0
    requires var t := todos[|todos| - 1]; t.cols != [] && IsRecord(t.cols[0].typ)
    ensures var k := |todos| - 1;
            var t := todos[k];
            var child := NameTodo(ColumnsOf(t.cols[0].typ), t.buf + [DOT] + t.cols[0].name);
            var todos' := todos[..k] + [NameTodo(t.cols[1..], t.buf), child];
            && NameFramesOk(stack + [NameInfo(child.cols, 0)], todos')
            && RemainingNames(todos') == RemainingNames(todos)
  {
    var k := |todos| - 1;
    var t, outer := todos[k], todos[..k];
    var child := NameTodo(ColumnsOf(t.cols[0].typ), t.buf + [DOT] + t.cols[0].name);
    var rest := NameTodo(t.cols[1..], t.buf);
    var stack', todos' := stack + [NameInfo(child.cols, 0)], outer + [rest, child];
    assert NameFrameOk(stack, todos, k);
    forall j: nat | j < |stack'| ensures NameFrameOk(stack', todos', j) {
      if j < k {
        assert NameFrameOk(stack, todos, j);
      }
    }
    EnterRest(outer, t, rest, child);
  }

  lemma EnterRest(outer: seq<NameTodo>, t: NameTodo, rest: NameTodo, child: NameTodo)
    requires t.cols != [] && IsRecord(t.cols[0].typ) && rest == NameTodo(t.cols[1..], t.buf)
    requires child == NameTodo(ColumnsOf(t.cols[0].typ), t.buf + [DOT] + t.cols[0].name)
    ensures RemainingNames(outer + [rest, child]) == RestNames(outer + [t])
  {
    RestNamesSnoc(outer, t);
    RestNamesSnoc(outer, rest);
    RestNamesSnoc(outer + [rest], child);
    assert outer + [rest, child] == outer + [rest] + [child];
    assert Names(t.cols, t.buf) == ThenNames(FirstNames(t.cols, t.buf), Names(rest.cols, rest.buf));
    assert FirstNames(t.cols, t.buf) == EnterNames(child.cols, child.buf);
    ThenNamesAssociative(FirstNames(t.cols, t.buf), Names(rest.cols, rest.buf), RestNames(outer));
  }

  /** Dropping the finished column of the innermost record. */
  lemma NextColumn(stack: seq<NameInfo>, todos: seq<NameTodo>)
    requires NameFramesOk(stack, todos) && |stack| > 0
    requires stack[|stack| - 1].offset + 1 < |stack[|stack| - 1].columns|
    ensures NameFrameOk(stack, todos, |todos| - 1)
    ensures var k := |todos| - 1;
            && |todos[k].cols| > 1
            && NameFramesOk(stack[k := stack[k].(offset := stack[k].offset + 1)],
                            todos[..k] + [NameTodo(todos[k].cols[1..], todos[k].buf)])
  {
    var k := |todos| - 1;
    assert NameFrameOk(stack, todos, k);
    var stack' := stack[k := stack[k].(offset := stack[k].offset + 1)];
    var todos' := todos[..k] + [NameTodo(todos[k].cols[1..], todos[k].buf)];
    forall j: nat | j < |stack'| ensures NameFrameOk(stack', todos', j) {
      assert NameFrameOk(stack, todos, j);
    }
  }

  /** Leaving the innermost record makes the column it was in current again. */
  lemma LeaveRecord(stack: seq<NameInfo>, todos: seq<NameTodo>)
    requires NameFramesOk(stack, todos) && |stack| > 1
    ensures var k := |todos| - 2;
            var info := stack[k];
            info.offset <= |info.columns| &&
            var t := NameTodo(info.columns[info.offset..], todos[k].buf);
            && NameFramesOk(stack[..k + 1], todos[..k] + [t])
            && |t.cols| > 0
            && todos[k] == NameTodo(t.cols[1..], t.buf)
            && todos[k + 1].buf == t.buf + [DOT] + t.cols[0].name
  {
    var k := |todos| - 2;
    assert NameFrameOk(stack, todos, k) && NameFrameOk(stack, todos, k + 1);
    var stack' := stack[..k + 1];
    var todos' := todos[..k] + [NameTodo(stack[k].columns[stack[k].offset..], todos[k].buf)];
    forall j: nat | j < |stack'| ensures NameFrameOk(stack', todos', j) {
      assert NameFrameOk(stack, todos, j);
    }
  }

  /** One step of a walk: `name` is the first name of `before`, and `after` is the rest. */
  ghost predicate DeliversName(before: NameWalk, name: ByteString, after: NameWalk) {
    before.names != [] && name == before.names[0] && after == NameWalk(before.names[1..], before.ok)
  }

  class FieldNameIter {
    var buf: ByteString
    var stack: seq<NameInfo>
    ghost var todos: seq<NameTodo>

    ghost predicate Valid()
      reads this
    {
      NameFramesOk(stack, todos) && (|stack| > 0 ==> buf == todos[|todos| - 1].buf)
    }

    ghost function Remaining(): NameWalk
      reads this
    {
      RemainingNames(todos)
    }

    constructor ()
      ensures stack == []
    {
      buf := [];
      stack := [];
      todos := [];
    }

    /** Starts over on the record type with columns `cols`. */
    method Init(cols: seq<Column>)
      modifies this
      ensures Valid() && !Done() && Remaining() == TypeNames(cols)
    {
      buf := [];
      stack := [NameInfo(cols, 0)];
      todos := [NameTodo(cols, [])];
      RestNamesSnoc([], todos[0]);
      assert cols[0..] == cols;
      assert NameFrameOk(stack, todos, 0);
      assert Names(cols, []).names + [] == Names(cols, []).names;
    }

    predicate Done()
      reads this
    {
      |stack| == 0
    }

    /** The next dotted name; None is a panic at a record without columns. */
    method Next() returns (name: Option<ByteString>)
      requires Valid() && !Done()
      modifies this
      ensures name.Some? ==> Valid() && DeliversName(old(Remaining()), name.value, Remaining())
                             && (Done() ==> Remaining() == NameWalk([], true))
      ensures name.None? ==> old(Remaining()) == NameWalk([], false)
    {
      var ok := StepIn();
      if !ok {
        return None;
      }
      name := Some(buf[1..]);
      StepOut();
    }

    /** Enters records until the current column is a leaf, and puts its name in the buffer. */
    method StepIn() returns (ok: bool)
      requires Valid() && !Done()
      modifies this
      ensures !ok ==> old(Remaining()) == NameWalk([], false)
      ensures ok ==> NameFramesOk(stack, todos) && |stack| > 0
                     && var t := todos[|todos| - 1];
                        && t.cols != [] && !IsRecord(t.cols[0].typ)
                        && buf == t.buf + [DOT] + t.cols[0].name
                        && RestNames(todos) == old(Remaining())
    {
      hide RestNames, Names;
      while true
        invariant Valid() && |stack| > 0
        invariant Remaining() == old(Remaining())
        decreases if |todos| > 0 then todos[|todos| - 1].cols else []
      {
        ghost var k := |todos| - 1;
        assert NameFrameOk(stack, todos, k);
        var info := stack[|stack| - 1];
        if info.offset >= |info.columns| {
          return false;
        }
        var col := info.columns[info.offset];
        buf := buf + [DOT] + col.name;
        if !IsRecord(col.typ) {
          return true;
        }
        StepIntoRecord(stack, todos);
        ghost var t := todos[k];
        stack := stack + [NameInfo(ColumnsOf(col.typ), 0)];
        todos := todos[..k] + [NameTodo(t.cols[1..], t.buf), NameTodo(ColumnsOf(col.typ), buf)];
      }
    }

    /** Takes the finished name off the buffer and leaves every record that is used up. */
    method StepOut()
      requires NameFramesOk(stack, todos) && |stack| > 0
      requires var t := todos[|todos| - 1];
               && t.cols != [] && !IsRecord(t.cols[0].typ)
               && buf == t.buf + [DOT] + t.cols[0].name
      modifies this
      ensures Valid() && DeliversName(old(RestNames(todos)), old(buf)[1..], Remaining())
      ensures Done() ==> Remaining() == NameWalk([], true)
    {
      hide RestNames, Names;
      NoNames();
      ghost var goal := RestNames(todos[..|todos| - 1] + [NameTodo(todos[|todos| - 1].cols[1..], todos[|todos| - 1].buf)]);
      FinishLeaf(todos);
      while |stack| > 0
        invariant NameFramesOk(stack, todos)
        invariant |stack| > 0 ==> var t := todos[|todos| - 1];
                                  t.cols != [] && buf == t.buf + [DOT] + t.cols[0].name
                                  && goal == RestNames(todos[..|todos| - 1] + [NameTodo(t.cols[1..], t.buf)])
        invariant |stack| == 0 ==> goal == NameWalk([], true)
        decreases |stack|
      {
        var k := |stack| - 1;
        ghost var t := todos[k];
        assert NameFrameOk(stack, todos, k);
        var info := stack[k];
        var col := info.columns[info.offset];
        buf := buf[..|buf| - |col.name| - 1];
        assert buf == t.buf;
        if info.offset + 1 < |info.columns| {
          NextColumn(stack, todos);
          stack := stack[k := info.(offset := info.offset + 1)];
          todos := todos[..k] + [NameTodo(t.cols[1..], t.buf)];
          break;
        }
        NothingMore(todos[..k], t);
        if k > 0 {
          LeaveRecord(stack, todos);
          assert todos[..k] == todos[..k - 1] + [todos[k - 1]];
          todos := todos[..k - 1] + [NameTodo(stack[k - 1].columns[stack[k - 1].offset..], todos[k - 1].buf)];
          stack := stack[..k];
        } else {
          assert todos[..k] == [];
          stack := [];
          todos := [];
        }
      }
    }
  }

  lemma NoNames()
    ensures RestNames([]) == NameWalk([], true)
  {
  }

  lemma NothingMore(outer: seq<NameTodo>, t: NameTodo)
    requires |t.cols| == 1
    ensures RestNames(outer + [NameTodo(t.cols[1..], t.buf)]) == RestNames(outer)
  {
    RestNamesSnoc(outer, NameTodo(t.cols[1..], t.buf));
    assert [] + RestNames(outer).names == RestNames(outer).names;
  }

  lemma FinishLeaf(todos: seq<NameTodo>)
    requires |todos| > 0
    requires var t := todos[|todos| - 1]; t.cols != [] && !IsRecord(t.cols[0].typ)
    ensures var k := |todos| - 1;
            var t := todos[k];
            DeliversName(RestNames(todos), (t.buf + [DOT] + t.cols[0].name)[1..], RestNames(todos[..k] + [NameTodo(t.cols[1..], t.buf)]))
  {
    var k := |todos| - 1;
    var t := todos[k];
    RestNamesSnoc(todos[..k], NameTodo(t.cols[1..], t.buf));
    ThenNamesAssociative(FirstNames(t.cols, t.buf), Names(t.cols[1..], t.buf), RestNames(todos[..k]));
  }

  // ------------------------------------------- names of a value, names of a type

  function Dots(k: nat): (r: ByteString)
    ensures |r| == k && forall i :: 0 <= i < k ==> r[i] == DOT
  {
    seq(k, _ => DOT)
  }

  /** The two walks' notions of the record they are in: the value walk forgets `k` leading empty names. */
  ghost predicate Behind(outer: ByteString, buf: ByteString, k: nat) {
    buf == if outer == [] then Dots(k) else Dots(k + 1) + outer
  }

  /** One more column: only an empty name right after other empty names, or first, is forgotten. */
  lemma BehindColumn(outer: ByteString, buf: ByteString, k: nat, name: ByteString)
    requires Behind(outer, buf, k)
    ensures (buf + [DOT] + name)[1..] == Dots(k) + FieldName(outer, name)
    ensures Behind(FieldName(outer, name), buf + [DOT] + name, if outer == [] && name == [] then k + 1 else k)
  {
    assert Dots(k) + [DOT] == Dots(k + 1) == [DOT] + Dots(k);
    if outer != [] {
      assert buf + [DOT] + name == Dots(k + 1) + FieldName(outer, name);
    }
    assert buf + [DOT] + name == [DOT] + (Dots(k) + FieldName(outer, name));
  }

  /** For each leaf under `cols`, how many empty record names its path starts with. */
  function Leads(cols: seq<Column>, k: nat, named: bool): seq<nat>
    decreases cols, 1
  {
    if |cols| == 0 then [] else FirstLeads(cols, k, named) + Leads(cols[1..], k, named)
  }

  function FirstLeads(cols: seq<Column>, k: nat, named: bool): seq<nat>
    requires |cols| > 0
    decreases cols, 0
  {
    if IsRecord(cols[0].typ) then
      var more := !named && cols[0].name == [];
      Leads(ColumnsOf(cols[0].typ), if more then k + 1 else k, !more)
    else [k]
  }

  /** Name `i` of a type is leaf `i` of a value with the leading empty record names spelled out as dots. */
  ghost predicate NamesMatch(leaves: seq<Leaf>, names: seq<ByteString>, leads: seq<nat>) {
    && |leaves| <= |names| && |leaves| <= |leads|
    && forall i :: 0 <= i < |leaves| ==> names[i] == Dots(leads[i]) + leaves[i].name
  }

  /** A walk of a value and one of its type, as far as both get. */
  ghost predicate WalksMatch(w: Walk, n: NameWalk, leads: seq<nat>) {
    && NamesMatch(w.leaves, n.names, leads)
    && (w.ok ==> n.ok && |w.leaves| == |n.names| == |leads|)
  }

  lemma WalksMatchThen(a: Walk, b: Walk, m: NameWalk, n: NameWalk, x: seq<nat>, y: seq<nat>)
    requires WalksMatch(a, m, x) && (a.ok ==> WalksMatch(b, n, y))
    ensures WalksMatch(Then(a, b), ThenNames(m, n), x + y)
  {
    var leaves, names := Then(a, b).leaves, ThenNames(m, n).names;
    forall i | 0 <= i < |leaves| ensures names[i] == Dots((x + y)[i]) + leaves[i].name {
      if i < |a.leaves| {
        assert leaves[i] == a.leaves[i] && names[i] == m.names[i] && (x + y)[i] == x[i];
      } else {
        var j := i - |a.leaves|;
        assert leaves[i] == b.leaves[j] && names[i] == n.names[j] && (x + y)[i] == y[j];
      }
    }
  }

  /**
   * The names of a type are those of the leaves of any value of it: every leaf is
   * met in the same order under its dotted name, none is skipped, and a walk that
   * finishes meets them all.
   */
  lemma {:induction false} LeavesHaveTypeNames(vs: seq<Value>, cols: seq<Column>, outer: ByteString, buf: ByteString, k: nat)
    requires |vs| == |cols| && Behind(outer, buf, k)
    ensures WalksMatch(Leaves(vs, cols, outer), Names(cols, buf), Leads(cols, k, outer != []))
    decreases vs
  {
    if |cols| > 0 {
      LeavesHaveTypeNames(vs[1..], cols[1..], outer, buf, k);
      FirstHasTypeNames(vs, cols, outer, buf, k);
      WalksMatchThen(FirstLeaves(vs, cols, outer), Leaves(vs[1..], cols[1..], outer),
                     FirstNames(cols, buf), Names(cols[1..], buf),
                     FirstLeads(cols, k, outer != []), Leads(cols[1..], k, outer != []));
    }
  }

  lemma {:induction false} FirstHasTypeNames(vs: seq<Value>, cols: seq<Column>, outer: ByteString, buf: ByteString, k: nat)
    requires |vs| == |cols| > 0 && Behind(outer, buf, k)
    ensures WalksMatch(FirstLeaves(vs, cols, outer), FirstNames(cols, buf), FirstLeads(cols, k, outer != []))
    decreases vs, 0
  {
    var name, dotted := FieldName(outer, cols[0].name), buf + [DOT] + cols[0].name;
    BehindColumn(outer, buf, k, cols[0].name);
    hide Behind, Dots;
    if IsRecord(cols[0].typ) {
      var sub := ColumnsOf(cols[0].typ);
      if vs[0].Container? && |vs[0].children| == |sub| > 0 {
        LeavesHaveTypeNames(vs[0].children, sub, name, dotted, if outer == [] && cols[0].name == [] then k + 1 else k);
        assert FirstLeaves(vs, cols, outer) == Leaves(vs[0].children, sub, name);
        assert FirstNames(cols, buf) == Names(sub, dotted);
      } else {
        assert FirstLeaves(vs, cols, outer) == Walk([], false);
      }
    }
  }

  // ------------------------------------------------------ when the names agree

  /** No record column of the record type itself has an empty name. */
  predicate RecordsNamed(cols: seq<Column>) {
    forall i :: 0 <= i < |cols| && IsRecord(cols[i].typ) ==> cols[i].name != []
  }

  ghost predicate AllAre(leads: seq<nat>, k: nat) {
    forall i :: 0 <= i < |leads| ==> leads[i] == k
  }

  lemma {:induction false} NamedLeads(cols: seq<Column>, k: nat)
    ensures AllAre(Leads(cols, k, true), k)
    decreases cols
  {
    if |cols| > 0 {
      NamedLeads(cols[1..], k);
      if IsRecord(cols[0].typ) {
        NamedLeads(ColumnsOf(cols[0].typ), k);
      }
    }
  }

  lemma {:induction false} LeadsOnlyGrow(cols: seq<Column>, k: nat, named: bool)
    ensures forall i :: 0 <= i < |Leads(cols, k, named)| ==> Leads(cols, k, named)[i] >= k
    decreases cols
  {
    if |cols| > 0 {
      var first, rest := FirstLeads(cols, k, named), Leads(cols[1..], k, named);
      assert Leads(cols, k, named) == first + rest;
      LeadsOnlyGrow(cols[1..], k, named);
      if IsRecord(cols[0].typ) {
        var more := !named && cols[0].name == [];
        LeadsOnlyGrow(ColumnsOf(cols[0].typ), if more then k + 1 else k, !more);
        assert first == Leads(ColumnsOf(cols[0].typ), if more then k + 1 else k, !more);
      }
    }
  }

  /** Under a walk that finishes, some leaf is in each record column, so an empty name there shows. */
  lemma {:induction false} ZeroLeadsExactly(vs: seq<Value>, cols: seq<Column>)
    requires |vs| == |cols| && Leaves(vs, cols, []).ok
    ensures AllAre(Leads(cols, 0, false), 0) <==> RecordsNamed(cols)
    decreases vs
  {
    if |cols| > 0 {
      var first, rest := FirstLeads(cols, 0, false), Leads(cols[1..], 0, false);
      ZeroLeadsExactly(vs[1..], cols[1..]);
      assert RecordsNamed(cols) <==>
             (IsRecord(cols[0].typ) ==> cols[0].name != []) && RecordsNamed(cols[1..]) by {
        assert forall i :: 0 < i < |cols| ==> cols[i] == cols[1..][i - 1];
      }
      assert AllAre(first + rest, 0) <==> AllAre(first, 0) && AllAre(rest, 0) by {
        assert forall i :: 0 <= i < |first| ==> (first + rest)[i] == first[i];
        assert forall i :: 0 <= i < |rest| ==> (first + rest)[|first| + i] == rest[i];
      }
      FirstLeadsExactly(vs, cols);
    }
  }

  lemma FirstLeadsExactly(vs: seq<Value>, cols: seq<Column>)
    requires |vs| == |cols| > 0 && FirstLeaves(vs, cols, []).ok
    ensures AllAre(FirstLeads(cols, 0, false), 0) <==> (IsRecord(cols[0].typ) ==> cols[0].name != [])
  {
    if IsRecord(cols[0].typ) {
      var sub, name := ColumnsOf(cols[0].typ), cols[0].name;
      if name != [] {
        NamedLeads(sub, 0);
      } else {
        LeadsOnlyGrow(sub, 1, false);
        assert Dots(0) == [];
        LeavesHaveTypeNames(vs[0].children, sub, [], Dots(1), 1);
        FinishedWalkHasLeaves(vs[0].children, sub, []);
        assert Leads(sub, 1, false)[0] >= 1;
      }
    }
  }

  lemma {:induction false} FinishedWalkHasLeaves(vs: seq<Value>, cols: seq<Column>, outer: ByteString)
    requires |vs| == |cols| > 0 && Leaves(vs, cols, outer).ok
    ensures |Leaves(vs, cols, outer).leaves| > 0
    decreases vs
  {
    assert FirstLeaves(vs, cols, outer).ok;
    if IsRecord(cols[0].typ) {
      assert vs[0].Container?;
      FinishedWalkHasLeaves(vs[0].children, ColumnsOf(cols[0].typ), FieldName(outer, cols[0].name));
    }
  }

  /**
   * When the walk of a value finishes, both walks enumerate the same names if and
   * only if no record column at the top has an empty name.
   */
  lemma NamesAgreeExactly(vs: seq<Value>, cols: seq<Column>)
    requires |vs| == |cols| && Enter(Container(vs), cols, []).ok
    ensures var leaves, names := Enter(Container(vs), cols, []).leaves, TypeNames(cols).names;
            && |leaves| == |names|
            && ((forall i :: 0 <= i < |leaves| ==> leaves[i].name == names[i]) <==> RecordsNamed(cols))
  {
    assert Dots(0) == [];
    LeavesHaveTypeNames(vs, cols, [], [], 0);
    ZeroLeadsExactly(vs, cols);
    var leaves, names, leads := Leaves(vs, cols, []).leaves, Names(cols, []).names, Leads(cols, 0, false);
    forall i | 0 <= i < |leaves| ensures leaves[i].name == names[i] <==> leads[i] == 0 {
      assert names[i] == Dots(leads[i]) + leaves[i].name;
      assert [] + leaves[i].name == leaves[i].name;
    }
  }

  /** A record without a name around a field: the value walk says a, the type walk says .a. */
  lemma EmptyRecordNameShows(v: ByteString)
    ensures var a: ByteString := [97];
            var cols := [Column([], RecordType([Column(a, StringType)]))];
            && Enter(Container([Container([Primitive(v)])]), cols, []) == Walk([Leaf(a, StringType, Primitive(v))], true)
            && TypeNames(cols) == NameWalk([[DOT] + a], true)
  {
    var a: ByteString := [97];
    var inner := [Column(a, StringType)];
    var cols := [Column([], RecordType(inner))];
    var leaves := [Leaf(a, StringType, Primitive(v))];
    assert inner[1..] == [] && cols[1..] == [] && [Primitive(v)][1..] == [] && [Container([Primitive(v)])][1..] == [];
    assert leaves + [] == leaves && [[DOT] + a] + [] == [[DOT] + a];
    assert Leaves([Primitive(v)], inner, []) == Walk(leaves, true);
    assert FirstLeaves([Container([Primitive(v)])], cols, []) == Walk(leaves, true);
    assert ([DOT] + [DOT] + a)[1..] == [DOT] + a;
    assert Names(inner, [DOT]) == NameWalk([[DOT] + a], true);
    assert [] + [DOT] + [] == [DOT];
    assert FirstNames(cols, []) == NameWalk([[DOT] + a], true);
    assert Leaves([Container([Primitive(v)])], cols, []) == Walk(leaves, true);
    assert Names(cols, []) == NameWalk([[DOT] + a], true);
  }
}
