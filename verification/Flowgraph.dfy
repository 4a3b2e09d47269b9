/**
 * Rewriting a pipeline so that a prefix of it runs in parallel branches that are then
 * merged in order (driver/compile.go), and what both forms compute (proc/).
 */
module Flowgraph {
  import opened Bytes
  import opened Dealing

  // ------------------------------------------------------------------- records

  /** A column; no value is null. */
  datatype Column = Column(name: string, value: Option<int>)

  type Row = seq<Column>

  /** A field's value; a missing field counts as null. */
  function Get(row: Row, name: string): Option<int> {
    if row == [] then None
    else if row[0].name == name then row[0].value
    else Get(row[1..], name)
  }

  predicate Has(row: Row, name: string) {
    exists i :: 0 <= i < |row| && row[i].name == name
  }

  lemma {:induction false} GetNone(row: Row, name: string)
    requires !Has(row, name)
    ensures Get(row, name) == None
  {
    if row != [] {
      forall i | 0 <= i < |row[1..]| ensures row[1..][i].name != name {
        assert row[1..][i] == row[i + 1];
      }
      GetNone(row[1..], name);
    }
  }

  // --------------------------------------------------------------------- procs

  /** `target` is empty when the field keeps its name. */
  datatype Assign = Assign(target: string, source: string)

  datatype Clause = Clause(target: string, eval: Row -> Option<int>)

  datatype Proc =
    | Filter(keep: Row -> bool)
    | Pass
    | Cut(complement: bool, fields: seq<Assign>)
    | Put(clauses: seq<Clause>)
    | Rename(renames: seq<Assign>)
    | Head(count: nat)
    | Tail(count: nat)
    | Uniq(cflag: bool)
    /** `types` are the known record types, as lists of column names, in the order of their identifiers. */
    | Fuse(types: seq<seq<string>>)
    | Nested(run: seq<Row> -> seq<Row>)

  function Target(a: Assign): string { if a.target == "" then a.source else a.target }

  /** The columns of these fields, under their targets. */
  function CutRow(row: Row, fields: seq<Assign>): Row {
    if fields == [] then []
    else
      (if Has(row, fields[0].source) then [Column(Target(fields[0]), Get(row, fields[0].source))] else [])
      + CutRow(row, fields[1..])
  }

  /** The columns other than these fields. */
  function DropColumns(row: Row, fields: seq<Assign>): Row {
    if row == [] then []
    else
      (if exists i :: 0 <= i < |fields| && fields[i].source == row[0].name then [] else [row[0]])
      + DropColumns(row[1..], fields)
  }

  /** Replaces a column or appends a new one. */
  function SetColumn(row: Row, name: string, value: Option<int>): Row {
    if row == [] then [Column(name, value)]
    else if row[0].name == name then [Column(name, value)] + row[1..]
    else [row[0]] + SetColumn(row[1..], name, value)
  }

  /** Sets the targets to values computed from the input record; None when one fails. */
  function PutClauses(input: Row, out: Row, clauses: seq<Clause>): Option<Row>
    decreases clauses
  {
    if clauses == [] then Some(out)
    else
      match clauses[0].eval(input)
      case None => None
      case Some(v) => PutClauses(input, SetColumn(out, clauses[0].target, Some(v)), clauses[1..])
  }

  /** Two clauses make a new column of one name, which no record type can have twice. */
  predicate TargetsClash(row: Row, clauses: seq<Clause>) {
    exists i, j :: 0 <= i < j < |clauses| && clauses[i].target == clauses[j].target && !Has(row, clauses[i].target)
  }

  function RenameColumn(row: Row, source: string, target: string): Row {
    if row == [] then []
    else if row[0].name == source then [Column(target, row[0].value)] + row[1..]
    else [row[0]] + RenameColumn(row[1..], source, target)
  }

  function RenameColumns(row: Row, renames: seq<Assign>): Row
    decreases renames
  {
    if renames == [] then row
    else RenameColumns(RenameColumn(row, renames[0].source, renames[0].target), renames[1..])
  }

  predicate Stateless(p: Proc) {
    p.Filter? || p.Pass? || p.Cut? || p.Put? || p.Rename?
  }

  /** What a stateless proc makes of one record. */
  function Each(p: Proc, row: Row): Option<Row>
    requires Stateless(p)
  {
    match p
    case Filter(keep) => if keep(row) then Some(row) else None
    case Pass => Some(row)
    case Cut(complement, fields) =>
      var out := if complement then DropColumns(row, fields) else CutRow(row, fields);
      if out == [] then None else Some(out)
    case Put(clauses) => Some(if TargetsClash(row, clauses) then row else PutClauses(row, row, clauses).GetOr(row))
    case Rename(renames) => Some(RenameColumns(row, renames))
  }

  function EachOf(p: Proc, rows: seq<Row>): seq<Row>
    requires Stateless(p)
  {
    if rows == [] then []
    else
      (match Each(p, rows[0])
       case Some(r) => [r]
       case None => [])
      + EachOf(p, rows[1..])
  }

  /** Head and tail take one record when no count is given. */
  function Limit(count: nat): nat { if count == 0 then 1 else count }

  function First<T>(s: seq<T>, n: nat): seq<T> { if |s| <= n then s else s[..n] }

  function Last<T>(s: seq<T>, n: nat): seq<T> { if |s| <= n then s else s[|s| - n..] }

  /** The values of a record, which is all its encoding holds; names are in its type. */
  function Raw(row: Row): seq<Option<int>> {
    seq(|row|, i requires 0 <= i < |row| => row[i].value)
  }

  function Wrap(row: Row, count: nat, cflag: bool): Row {
    if cflag && !Has(row, "_uniq") then row + [Column("_uniq", Some(count))] else row
  }

  /** The first record of each run of equally encoded ones, with the length of the run if asked for. */
  function UniqFrom(last: Row, count: nat, rows: seq<Row>, cflag: bool): seq<Row>
    decreases rows
  {
    if rows == [] then [Wrap(last, count, cflag)]
    else if Raw(rows[0]) == Raw(last) then UniqFrom(last, count + 1, rows[1..], cflag)
    else [Wrap(last, count, cflag)] + UniqFrom(rows[0], 1, rows[1..], cflag)
  }

  function UniqRows(rows: seq<Row>, cflag: bool): seq<Row> {
    if rows == [] then [] else UniqFrom(rows[0], 1, rows[1..], cflag)
  }

  /** The columns of a record type. */
  function RowNames(row: Row): seq<string> {
    seq(|row|, i requires 0 <= i < |row| => row[i].name)
  }

  function TypesOf(rows: seq<Row>): seq<seq<string>> {
    seq(|rows|, i requires 0 <= i < |rows| => RowNames(rows[i]))
  }

  function Among(types: seq<seq<string>>, some: seq<seq<string>>): seq<seq<string>> {
    if types == [] then [] else (if types[0] in some then [types[0]] else []) + Among(types[1..], some)
  }

  /** The types of the records: those known in their order, and then new ones as they come. */
  function TypesInOrder(types: seq<seq<string>>, rows: seq<Row>): seq<seq<string>> {
    Among(types, TypesOf(rows)) + TypesOf(rows)
  }

  /** The names of these types after those there are. */
  function Schema(types: seq<seq<string>>, names: seq<string>): seq<string>
    decreases types
  {
    if types == [] then names else Schema(types[1..], Mixin(types[0], names))
  }

  function Mixin(columns: seq<string>, names: seq<string>): seq<string>
    decreases columns
  {
    if columns == [] then names
    else Mixin(columns[1..], if columns[0] in names then names else names + [columns[0]])
  }

  /** Gives every record the columns of all. */
  function FuseRows(rows: seq<Row>, schema: seq<string>): seq<Row> {
    seq(|rows|, i requires 0 <= i < |rows| => seq(|schema|, j requires 0 <= j < |schema| => Column(schema[j], Get(rows[i], schema[j]))))
  }

  function Apply(p: Proc, rows: seq<Row>): seq<Row> {
    match p
    case Head(count) => First(rows, Limit(count))
    case Tail(count) => Last(rows, Limit(count))
    case Uniq(cflag) => UniqRows(rows, cflag)
    case Fuse(types) => FuseRows(rows, Schema(TypesInOrder(types, rows), []))
    case Nested(run) => run(rows)
    case _ => EachOf(p, rows)
  }

  function Run(procs: seq<Proc>, rows: seq<Row>): seq<Row> {
    if procs == [] then rows else Run(procs[1..], Apply(procs[0], rows))
  }

  lemma {:induction false} RunAppend(a: seq<Proc>, b: seq<Proc>, rows: seq<Row>)
    ensures Run(a + b, rows) == Run(b, Run(a, rows))
    decreases |a|
  {
    if a == [] {
      assert a + b == b;
    } else {
      assert (a + b)[1..] == a[1..] + b;
      RunAppend(a[1..], b, Apply(a[0], rows));
    }
  }

  // ------------------------------------------------------------- ordered merge

  /** Whether key `a` comes strictly before `b`; null is the largest value. */
  predicate Before(reverse: bool, a: Option<int>, b: Option<int>) {
    if reverse then CompareKeys(b, a) < 0 else CompareKeys(a, b) < 0
  }

  function CompareKeys(a: Option<int>, b: Option<int>): int {
    match (a, b)
    case (None, None) => 0
    case (None, Some(_)) => 1
    case (Some(_), None) => -1
    case (Some(x), Some(y)) => x - y
  }

  /** The parent to take the next record from: the first one whose record no other comes before. */
  function NextParent(field: string, reverse: bool, parts: seq<seq<Row>>, n: nat): (b: int)
    requires n <= |parts|
    ensures -1 <= b < n && (b >= 0 ==> parts[b] != [])
  {
    if n == 0 then -1
    else
      var b := NextParent(field, reverse, parts, n - 1);
      if parts[n - 1] == [] then b
      else if b == -1 || Before(reverse, Get(parts[n - 1][0], field), Get(parts[b][0], field)) then n - 1
      else b
  }

  /** The parent chosen has the record that comes first; of those that tie the first parent is taken. */
  lemma {:induction false} NextComesFirst(field: string, reverse: bool, parts: seq<seq<Row>>, n: nat)
    requires n <= |parts|
    ensures var b := NextParent(field, reverse, parts, n);
            if b == -1 then forall j :: 0 <= j < n ==> parts[j] == []
            else forall j :: 0 <= j < n && parts[j] != [] && j != b ==>
                   var mine, other := Get(parts[b][0], field), Get(parts[j][0], field);
                   if j < b then Before(reverse, mine, other) else !Before(reverse, other, mine)
  {
    if n > 0 {
      hide Get;
      NextComesFirst(field, reverse, parts, n - 1);
    }
  }

  function OrderedMerge(field: string, reverse: bool, parts: seq<seq<Row>>): seq<Row>
    decreases Total(parts)
  {
    var b := NextParent(field, reverse, parts, |parts|);
    if b == -1 then []
    else
      TotalDrops(parts, b);
      [parts[b][0]] + OrderedMerge(field, reverse, Popped(parts, b))
  }

  /** Every record has the field, and they come in strict order of it. */
  ghost predicate Sorted(field: string, reverse: bool, rows: seq<Row>) {
    && (forall i :: 0 <= i < |rows| ==> Get(rows[i], field).Some?)
    && (forall i, j :: 0 <= i < j < |rows| ==> Before(reverse, Get(rows[i], field), Get(rows[j], field)))
  }

  /** Everything dealt out is there. */
  lemma {:induction false} DealtFrom(all: seq<Row>, parts: seq<seq<Row>>, k: nat, i: nat)
    requires Dealt(all, parts) && k < |parts| && i < |parts[k]|
    ensures parts[k][i] in all
    decreases |all|
  {
    if all != [] {
      var b: nat :| GoesTo(all[0], parts, b) && Dealt(all[1..], Popped(parts, b));
      if k != b || i > 0 {
        DealtFrom(all[1..], Popped(parts, b), k, if k == b then i - 1 else i);
      }
    }
  }

  lemma {:induction false} NextIs(field: string, reverse: bool, parts: seq<seq<Row>>, n: nat, b: nat)
    requires b < n <= |parts| && parts[b] != []
    requires forall k :: 0 <= k < n && k != b && parts[k] != [] ==> Before(reverse, Get(parts[b][0], field), Get(parts[k][0], field))
    ensures NextParent(field, reverse, parts, n) == b
  {
    if n - 1 == b {
      var c := NextParent(field, reverse, parts, n - 1);
    } else {
      NextIs(field, reverse, parts, n - 1, b);
    }
  }

  /** Merging what sorted records were dealt out to gives them back. */
  lemma {:induction false} MergeOfDealt(field: string, reverse: bool, all: seq<Row>, parts: seq<seq<Row>>)
    requires Sorted(field, reverse, all) && Dealt(all, parts)
    ensures OrderedMerge(field, reverse, parts) == all
    decreases |all|
  {
    if all != [] {
      var b: nat :| GoesTo(all[0], parts, b) && Dealt(all[1..], Popped(parts, b));
      forall k | 0 <= k < |parts| && k != b && parts[k] != []
        ensures Before(reverse, Get(parts[b][0], field), Get(parts[k][0], field))
      {
        DealtFrom(all[1..], Popped(parts, b), k, 0);
      }
      NextIs(field, reverse, parts, |parts|, b);
      MergeOfDealt(field, reverse, all[1..], Popped(parts, b));
    } else {
      NothingNext(field, reverse, parts, |parts|);
    }
  }

  lemma {:induction false} NothingNext(field: string, reverse: bool, parts: seq<seq<Row>>, n: nat)
    requires n <= |parts| && forall k :: 0 <= k < |parts| ==> parts[k] == []
    ensures NextParent(field, reverse, parts, n) == -1
  {
    if n > 0 {
      NothingNext(field, reverse, parts, n - 1);
    }
  }

  // --------------------------------------------- procs that keep the sort field

  /** Running these procs before the merge could change or lose the sort field. */
  predicate MustMergeBefore(p: Proc, field: string) {
    match p
    case Cut(complement, fields) =>
      if complement then exists i :: 0 <= i < |fields| && fields[i].source == field
      else
        || (exists i :: 0 <= i < |fields| && fields[i].source != field && fields[i].target == field)
        || !(exists i :: 0 <= i < |fields| && fields[i].source == field && fields[i].target == "")
    case Put(clauses) => exists i :: 0 <= i < |clauses| && clauses[i].target == field
    case Rename(renames) => exists i :: 0 <= i < |renames| && renames[i].target == field
    case _ => false
  }

  /** The proc renames the sort field to something else. */
  predicate RenamesAway(p: Proc, field: string) {
    p.Rename? && exists i :: 0 <= i < |p.renames| && p.renames[i].source == field
  }

  lemma {:induction false} CutKeeps(row: Row, fields: seq<Assign>, field: string)
    requires field != "" && Has(row, field)
    requires forall i :: 0 <= i < |fields| && fields[i].target == field ==> fields[i].source == field
    requires exists i :: 0 <= i < |fields| && fields[i].source == field && Target(fields[i]) == field
    ensures Get(CutRow(row, fields), field) == Get(row, field)
    decreases |fields|
  {
    if fields[0].source == field && Target(fields[0]) == field {
      assert CutRow(row, fields)[0] == Column(field, Get(row, field));
    } else {
      var i :| 0 <= i < |fields| && fields[i].source == field && Target(fields[i]) == field;
      assert fields[1..][i - 1] == fields[i];
      CutKeeps(row, fields[1..], field);
      if Has(row, fields[0].source) {
        assert CutRow(row, fields)[1..] == CutRow(row, fields[1..]);
      } else {
        assert CutRow(row, fields) == CutRow(row, fields[1..]);
      }
    }
  }

  lemma {:induction false} DropKeeps(row: Row, fields: seq<Assign>, field: string)
    requires !exists i :: 0 <= i < |fields| && fields[i].source == field
    ensures Get(DropColumns(row, fields), field) == Get(row, field)
  {
    if row != [] {
      DropKeeps(row[1..], fields, field);
      if !exists i :: 0 <= i < |fields| && fields[i].source == row[0].name {
        assert DropColumns(row, fields)[1..] == DropColumns(row[1..], fields);
      } else {
        assert DropColumns(row, fields) == DropColumns(row[1..], fields);
      }
    }
  }

  lemma {:induction false} SetKeeps(row: Row, name: string, value: Option<int>, field: string)
    requires name != field
    ensures Get(SetColumn(row, name, value), field) == Get(row, field)
  {
    if row == [] {
      assert SetColumn(row, name, value)[1..] == [];
    } else if row[0].name == name {
      assert SetColumn(row, name, value)[1..] == row[1..];
    } else {
      SetKeeps(row[1..], name, value, field);
      assert SetColumn(row, name, value)[1..] == SetColumn(row[1..], name, value);
    }
  }

  lemma {:induction false} PutKeeps(input: Row, out: Row, clauses: seq<Clause>, field: string)
    requires !exists i :: 0 <= i < |clauses| && clauses[i].target == field
    ensures PutClauses(input, out, clauses).Some? ==> Get(PutClauses(input, out, clauses).value, field) == Get(out, field)
    decreases |clauses|
  {
    if clauses != [] && clauses[0].eval(input).Some? {
      var v := clauses[0].eval(input);
      SetKeeps(out, clauses[0].target, v, field);
      assert forall i :: 0 <= i < |clauses[1..]| ==> clauses[1..][i] == clauses[i + 1];
      PutKeeps(input, SetColumn(out, clauses[0].target, v), clauses[1..], field);
    }
  }

  lemma {:induction false} RenameKeeps(row: Row, source: string, target: string, field: string)
    requires source != field && target != field
    ensures Get(RenameColumn(row, source, target), field) == Get(row, field)
  {
    if row == [] {
    } else if row[0].name == source {
      assert RenameColumn(row, source, target)[1..] == row[1..];
    } else {
      RenameKeeps(row[1..], source, target, field);
      assert RenameColumn(row, source, target)[1..] == RenameColumn(row[1..], source, target);
    }
  }

  lemma {:induction false} RenamesKeep(row: Row, renames: seq<Assign>, field: string)
    requires forall i :: 0 <= i < |renames| ==> renames[i].source != field && renames[i].target != field
    ensures Get(RenameColumns(row, renames), field) == Get(row, field)
    decreases |renames|
  {
    if renames != [] {
      RenameKeeps(row, renames[0].source, renames[0].target, field);
      RenamesKeep(RenameColumn(row, renames[0].source, renames[0].target), renames[1..], field);
    }
  }

  /** A proc the rewriting leaves in the branches keeps the sort field, if it is not renamed away. */
  lemma EachKeepsKey(p: Proc, row: Row, field: string)
    requires Stateless(p) && field != "" && !MustMergeBefore(p, field) && !RenamesAway(p, field)
    requires Get(row, field).Some? && Each(p, row).Some?
    ensures Get(Each(p, row).value, field) == Get(row, field)
  {
    match p {
      case Cut(complement, fields) =>
        if complement {
          DropKeeps(row, fields, field);
        } else {
          var i :| 0 <= i < |fields| && fields[i].source == field && fields[i].target == "";
          assert Target(fields[i]) == field;
          if !Has(row, field) {
            GetNone(row, field);
          }
          CutKeeps(row, fields, field);
        }
      case Put(clauses) => PutKeeps(row, row, clauses, field);
      case Rename(renames) => RenamesKeep(row, renames, field);
      case _ =>
    }
  }

  // ------------------------------------------------------ branches and the merge

  lemma EachNext(p: Proc, rows: seq<Row>)
    requires Stateless(p) && rows != []
    ensures Apply(p, rows) == (if Each(p, rows[0]).Some? then [Each(p, rows[0]).value] else []) + Apply(p, rows[1..])
    ensures Apply(p, []) == []
  {
    hide Each;
  }

  /** The stateless prefix computes in each branch what it computes on the whole. */
  lemma {:induction false} DealtEach(p: Proc, all: seq<Row>, parts: seq<seq<Row>>)
    requires Stateless(p) && Dealt(all, parts)
    ensures Dealt(Apply(p, all), EachPart(p, parts))
    decreases |all|
  {
    if all != [] {
      hide Apply, Each, Dealt;
      var b := FirstDealt(all, parts);
      DealtEach(p, all[1..], Popped(parts, b));
      EachNext(p, all);
      EachNext(p, parts[b]);
      EachPopped(p, parts, b);
      if Each(p, all[0]).Some? {
        DealtWithFirst(Each(p, all[0]).value, Apply(p, all[1..]), EachPart(p, parts), b);
      } else {
        assert Apply(p, all) == Apply(p, all[1..]);
      }
    } else {
      assert EachPart(p, parts) == parts;
    }
  }

  lemma EachPopped(p: Proc, parts: seq<seq<Row>>, b: nat)
    requires Stateless(p) && b < |parts| && parts[b] != []
    ensures var out, rest := EachPart(p, parts), EachPart(p, Popped(parts, b));
            match Each(p, parts[b][0])
            case Some(r) => GoesTo(r, out, b) && Popped(out, b) == rest
            case None => out == rest
  {
    hide Apply, Each;
    EachNext(p, parts[b]);
    var out, rest := EachPart(p, parts), EachPart(p, Popped(parts, b));
    if Each(p, parts[b][0]).Some? {
      assert Popped(out, b) == rest;
    } else {
      assert out[b] == rest[b];
      assert out == rest;
    }
  }

  function EachPart(p: Proc, parts: seq<seq<Row>>): (r: seq<seq<Row>>)
    ensures |r| == |parts| && forall k :: 0 <= k < |parts| ==> r[k] == Apply(p, parts[k])
  {
    seq(|parts|, k requires 0 <= k < |parts| => Apply(p, parts[k]))
  }

  function RunParts(procs: seq<Proc>, parts: seq<seq<Row>>): (r: seq<seq<Row>>)
    ensures |r| == |parts| && forall k :: 0 <= k < |parts| ==> r[k] == Run(procs, parts[k])
  {
    seq(|parts|, k requires 0 <= k < |parts| => Run(procs, parts[k]))
  }

  ghost predicate AllStateless(procs: seq<Proc>) {
    forall i :: 0 <= i < |procs| ==> Stateless(procs[i])
  }

  lemma {:induction false} DealtRun(procs: seq<Proc>, all: seq<Row>, parts: seq<seq<Row>>)
    requires AllStateless(procs) && Dealt(all, parts)
    ensures Dealt(Run(procs, all), RunParts(procs, parts))
    decreases |procs|
  {
    if procs == [] {
      assert RunParts(procs, parts) == parts;
    } else {
      DealtEach(procs[0], all, parts);
      DealtRun(procs[1..], Apply(procs[0], all), EachPart(procs[0], parts));
      assert RunParts(procs, parts) == RunParts(procs[1..], EachPart(procs[0], parts));
    }
  }

  /** The procs of a branch keep the sort field. */
  ghost predicate KeepField(procs: seq<Proc>, field: string) {
    forall i :: 0 <= i < |procs| ==> Stateless(procs[i]) && !MustMergeBefore(procs[i], field) && !RenamesAway(procs[i], field)
  }

  /** The sort field of each output record is that of an input record, in order. */
  ghost predicate KeysFrom(field: string, out: seq<Row>, rows: seq<Row>) {
    forall i :: 0 <= i < |out| ==> KeyIn(field, out[i], rows)
  }

  ghost predicate KeyIn(field: string, row: Row, rows: seq<Row>) {
    exists j :: 0 <= j < |rows| && Get(row, field) == Get(rows[j], field)
  }

  lemma {:induction false} SortedEach(p: Proc, field: string, reverse: bool, rows: seq<Row>)
    requires Stateless(p) && field != "" && !MustMergeBefore(p, field) && !RenamesAway(p, field) && Sorted(field, reverse, rows)
    ensures Sorted(field, reverse, Apply(p, rows)) && KeysFrom(field, Apply(p, rows), rows)
  {
    if rows != [] {
      hide Apply, Each, MustMergeBefore, RenamesAway, Before;
      SortedEach(p, field, reverse, rows[1..]);
      EachNext(p, rows);
      if Each(p, rows[0]).Some? {
        EachKeepsKey(p, rows[0], field);
        SortedWithFirst(field, reverse, Each(p, rows[0]).value, Apply(p, rows[1..]), rows);
      } else {
        assert Apply(p, rows) == Apply(p, rows[1..]);
        KeysFromMore(field, Apply(p, rows), rows);
      }
    }
  }

  lemma KeysFromMore(field: string, out: seq<Row>, rows: seq<Row>)
    requires rows != [] && KeysFrom(field, out, rows[1..])
    ensures KeysFrom(field, out, rows)
  {
    hide Get;
    forall i | 0 <= i < |out| ensures KeyIn(field, out[i], rows) {
      assert KeyIn(field, out[i], rows[1..]);
      var j :| 0 <= j < |rows[1..]| && Get(out[i], field) == Get(rows[1..][j], field);
      assert rows[1..][j] == rows[j + 1];
    }
  }

  lemma SortedWithFirst(field: string, reverse: bool, first: Row, more: seq<Row>, rows: seq<Row>)
    requires rows != [] && Sorted(field, reverse, rows) && Get(first, field) == Get(rows[0], field)
    requires Sorted(field, reverse, more) && KeysFrom(field, more, rows[1..])
    ensures Sorted(field, reverse, [first] + more) && KeysFrom(field, [first] + more, rows)
  {
    hide Get, Before;
    forall i | 0 <= i < |more| ensures Before(reverse, Get(first, field), Get(more[i], field)) {
      assert KeyIn(field, more[i], rows[1..]);
      var j :| 0 <= j < |rows[1..]| && Get(more[i], field) == Get(rows[1..][j], field);
      assert rows[1..][j] == rows[j + 1];
    }
    KeysFromMore(field, more, rows);
    forall i | 0 <= i < |[first] + more| ensures KeyIn(field, ([first] + more)[i], rows) {
      assert i > 0 ==> ([first] + more)[i] == more[i - 1];
    }
  }

  lemma {:induction false} SortedRun(procs: seq<Proc>, field: string, reverse: bool, rows: seq<Row>)
    requires KeepField(procs, field) && field != "" && Sorted(field, reverse, rows)
    ensures Sorted(field, reverse, Run(procs, rows))
    decreases |procs|
  {
    if procs != [] {
      SortedEach(procs[0], field, reverse, rows);
      SortedRun(procs[1..], field, reverse, Apply(procs[0], rows));
    }
  }

  /** Running a prefix in branches and merging is running it on the whole. */
  lemma MergedPrefix(procs: seq<Proc>, field: string, reverse: bool, all: seq<Row>, parts: seq<seq<Row>>)
    requires KeepField(procs, field) && field != "" && Sorted(field, reverse, all) && Dealt(all, parts)
    ensures OrderedMerge(field, reverse, RunParts(procs, parts)) == Run(procs, all)
  {
    DealtRun(procs, all, parts);
    SortedRun(procs, field, reverse, all);
    MergeOfDealt(field, reverse, Run(procs, all), RunParts(procs, parts));
  }

  // ------------------------------------------------------------- head and tail

  /** Each of `b` starts like that of `a`, up to `n` records or all of it. */
  ghost predicate SameStarts(a: seq<seq<Row>>, b: seq<seq<Row>>, n: nat) {
    |a| == |b| && forall k :: 0 <= k < |a| ==> b[k] <= a[k] && (b[k] == a[k] || |b[k]| >= n)
  }

  lemma SameStartsPopped(a: seq<seq<Row>>, b: seq<seq<Row>>, n: nat, c: nat)
    requires SameStarts(a, b, n) && n > 0 && c < |a| && a[c] != []
    ensures |a| == |b| && b[c] != [] && a[c][0] == b[c][0]
    ensures SameStarts(Popped(a, c), Popped(b, c), n - 1)
  {
  }

  lemma FirstNext(x: Row, rest: seq<Row>, n: nat)
    requires n > 0
    ensures First([x] + rest, n) == [x] + First(rest, n - 1)
  {
  }

  lemma MergeNext(field: string, reverse: bool, parts: seq<seq<Row>>)
    ensures var b := NextParent(field, reverse, parts, |parts|);
            OrderedMerge(field, reverse, parts) == if b == -1 then [] else [parts[b][0]] + OrderedMerge(field, reverse, Popped(parts, b))
  {
  }

  /** The first records of a merge depend on the first records of its inputs only. */
  lemma {:induction false} FirstOfMerge(field: string, reverse: bool, a: seq<seq<Row>>, b: seq<seq<Row>>, n: nat)
    requires SameStarts(a, b, n)
    ensures First(OrderedMerge(field, reverse, a), n) == First(OrderedMerge(field, reverse, b), n)
    decreases n
  {
    if n > 0 {
      hide OrderedMerge, NextParent, First, SameStarts;
      SameNext(field, reverse, a, b, n, |a|);
      var c := NextParent(field, reverse, a, |a|);
      MergeNext(field, reverse, a);
      MergeNext(field, reverse, b);
      if c != -1 {
        SameStartsPopped(a, b, n, c);
        FirstOfMerge(field, reverse, Popped(a, c), Popped(b, c), n - 1);
        FirstNext(a[c][0], OrderedMerge(field, reverse, Popped(a, c)), n);
        FirstNext(a[c][0], OrderedMerge(field, reverse, Popped(b, c)), n);
      }
    } else {
      assert First(OrderedMerge(field, reverse, a), 0) == [] == First(OrderedMerge(field, reverse, b), 0);
    }
  }

  lemma {:induction false} SameNext(field: string, reverse: bool, a: seq<seq<Row>>, b: seq<seq<Row>>, n: nat, m: nat)
    requires SameStarts(a, b, n) && n > 0 && m <= |a|
    ensures NextParent(field, reverse, a, m) == NextParent(field, reverse, b, m)
  {
    if m > 0 {
      SameNext(field, reverse, a, b, n, m - 1);
    }
  }

  function LastParts(parts: seq<seq<Row>>, n: nat): (r: seq<seq<Row>>)
    ensures |r| == |parts| && forall k :: 0 <= k < |parts| ==> r[k] == Last(parts[k], n)
  {
    seq(|parts|, k requires 0 <= k < |parts| => Last(parts[k], n))
  }

  lemma {:induction false} PartFits(all: seq<Row>, parts: seq<seq<Row>>, k: nat)
    requires Dealt(all, parts) && k < |parts|
    ensures |parts[k]| <= |all|
    decreases |all|
  {
    if all != [] {
      var b: nat :| GoesTo(all[0], parts, b) && Dealt(all[1..], Popped(parts, b));
      PartFits(all[1..], Popped(parts, b), k);
    }
  }

  /** The last records of what was dealt out are among the last records of the parts. */
  lemma {:induction false} LastDealt(field: string, reverse: bool, all: seq<Row>, parts: seq<seq<Row>>, n: nat) returns (rest: seq<Row>)
    requires Sorted(field, reverse, all) && Dealt(all, parts)
    ensures Sorted(field, reverse, rest) && Dealt(rest, LastParts(parts, n)) && Last(rest, n) == Last(all, n)
    ensures AllIn(rest, all)
    decreases |all|
  {
    hide Sorted, LastParts, Last, Dealt, Popped, AllIn, GoesTo;
    if all == [] {
      LastOfNone(field, reverse, parts, n);
      rest := [];
    } else {
      var b := FirstDealt(all, parts);
      SortedTail(field, reverse, all);
      rest := LastDealt(field, reverse, all[1..], Popped(parts, b), n);
      PartFits(all, parts, b);
      if |parts[b]| > n {
        LastPartsSame(parts, b, n);
        LastOfMore(all, n);
        assert AllIn(rest, all) by {
          StaysIn(rest, all);
        }
      } else {
        LastPartsPopped(parts, b, n);
        LastWithOneMore(all[0], all[1..], rest, n);
        SortedInFront(field, reverse, all, rest);
        DealtWithFirst(all[0], rest, LastParts(parts, n), b);
        assert all == [all[0]] + all[1..];
        rest := [all[0]] + rest;
      }
    }
  }

  ghost predicate AllIn(rest: seq<Row>, all: seq<Row>) {
    forall i :: 0 <= i < |rest| ==> rest[i] in all
  }

  lemma LastOfNone(field: string, reverse: bool, parts: seq<seq<Row>>, n: nat)
    requires Dealt([], parts)
    ensures Dealt([], LastParts(parts, n)) && Sorted(field, reverse, []) && AllIn([], [])
  {
  }

  lemma StaysIn(rest: seq<Row>, all: seq<Row>)
    requires all != [] && AllIn(rest, all[1..])
    ensures AllIn(rest, all)
  {
  }

  lemma SortedTail(field: string, reverse: bool, all: seq<Row>)
    requires Sorted(field, reverse, all) && all != []
    ensures Sorted(field, reverse, all[1..])
  {
    hide Get, Before;
  }

  lemma SortedInFront(field: string, reverse: bool, all: seq<Row>, rest: seq<Row>)
    requires all != [] && Sorted(field, reverse, all) && Sorted(field, reverse, rest)
    requires AllIn(rest, all[1..])
    ensures Sorted(field, reverse, [all[0]] + rest) && AllIn([all[0]] + rest, all)
  {
    hide Get, Before;
    forall i | 0 <= i < |rest| ensures Before(reverse, Get(all[0], field), Get(rest[i], field)) {
      var j :| 0 <= j < |all[1..]| && all[1..][j] == rest[i];
      assert all[1..][j] == all[j + 1];
    }
  }

  lemma LastPartsSame(parts: seq<seq<Row>>, b: nat, n: nat)
    requires b < |parts| && |parts[b]| > n
    ensures LastParts(Popped(parts, b), n) == LastParts(parts, n)
  {
  }

  lemma LastPartsPopped(parts: seq<seq<Row>>, b: nat, n: nat)
    requires b < |parts| && 0 < |parts[b]| <= n
    ensures GoesTo(parts[b][0], LastParts(parts, n), b)
    ensures LastParts(Popped(parts, b), n) == Popped(LastParts(parts, n), b)
  {
  }

  lemma LastOfMore<T>(all: seq<T>, n: nat)
    requires |all| > n
    ensures Last(all[1..], n) == Last(all, n)
  {
  }

  lemma LastWithOneMore<T>(x: T, a: seq<T>, b: seq<T>, n: nat)
    requires Last(a, n) == Last(b, n)
    ensures Last([x] + a, n) == Last([x] + b, n)
  {
    if |a| >= n {
      assert Last([x] + a, n) == Last(a, n);
      assert Last([x] + b, n) == Last(b, n);
    }
  }

  // ------------------------------------------------------------- the rewriting

  /** Parallel branches, how to merge them, and the procs after the merge. */
  datatype Graph = Graph(branches: seq<seq<Proc>>, mergeField: string, reverse: bool, tail: seq<Proc>)

  /** The procs up to here can all run in the branches. */
  predicate Continues(p: Proc, field: string) {
    Stateless(p) && (field == "" || !MustMergeBefore(p, field))
  }

  function SplitPoint(procs: seq<Proc>, field: string): (i: nat)
    ensures i <= |procs| && (i < |procs| ==> !Continues(procs[i], field))
    ensures forall j :: 0 <= j < i ==> Continues(procs[j], field)
  {
    if procs == [] || !Continues(procs[0], field) then 0
    else
      var i := SplitPoint(procs[1..], field);
      assert forall j :: 0 <= j < i ==> procs[1..][j] == procs[j + 1];
      i + 1
  }

  lemma {:induction false} SplitPointAt(procs: seq<Proc>, field: string, i: nat)
    requires i <= |procs| && forall j :: 0 <= j < i ==> Continues(procs[j], field)
    requires i < |procs| ==> !Continues(procs[i], field)
    ensures SplitPoint(procs, field) == i
  {
    if i > 0 {
      SplitPointAt(procs[1..], field, i - 1);
    }
  }

  function Copies(branch: seq<Proc>, n: nat): (r: seq<seq<Proc>>)
    ensures |r| == n && forall k :: 0 <= k < n ==> r[k] == branch
  {
    seq(n, k requires 0 <= k < n => branch)
  }

  /** A pass forces the branches to be merged when nothing follows them. */
  function Split(branch: seq<Proc>, tail: seq<Proc>, field: string, reverse: bool, n: nat): Graph {
    Graph(Copies(branch, n), field, reverse, if tail == [] && field != "" then [Pass] else tail)
  }

  /** The graph for a pipeline over input sorted by `field`, if there is one. */
  function Plan(procs: seq<Proc>, n: nat, field: string, reverse: bool): Option<Graph> {
    var i := SplitPoint(procs, field);
    if field == "" || (i < |procs| && procs[i].Nested?) then None
    else if i < |procs| && (procs[i].Head? || procs[i].Tail?) then Some(Split(procs[..i + 1], procs[i..], field, reverse, n))
    else Some(Split(procs[..i], procs[i..], field, reverse, n))
  }

  method BuildSplitFlowgraph(branch: seq<Proc>, tail: seq<Proc>, mergeField: string, reverse: bool, n: nat) returns (g: Graph)
    ensures g == Split(branch, tail, mergeField, reverse, n)
  {
    var rest := tail;
    if |rest| == 0 && mergeField != "" {
      rest := [Pass];
    }
    var branches: seq<seq<Proc>> := [];
    for i := 0 to n
      invariant branches == Copies(branch, i)
    {
      branches := branches + [branch];
    }
    g := Graph(branches, mergeField, reverse, rest);
  }

  /** Whether a cut keeps the sort field under its name. */
  method CutNeedsMerge(complement: bool, fields: seq<Assign>, field: string) returns (r: bool)
    ensures r == MustMergeBefore(Cut(complement, fields), field)
  {
    if complement {
      for k := 0 to |fields|
        invariant forall i :: 0 <= i < k ==> fields[i].source != field
      {
        if fields[k].source == field {
          return true;
        }
      }
      return false;
    }
    var found := false;
    for k := 0 to |fields|
      invariant forall i :: 0 <= i < k && fields[i].target == field ==> fields[i].source == field
      invariant found <==> exists i :: 0 <= i < k && fields[i].source == field && fields[i].target == ""
    {
      if fields[k].source != field && fields[k].target == field {
        return true;
      }
      if fields[k].source == field && fields[k].target == "" {
        found := true;
      }
    }
    r := !found;
  }

  /** Splits as much of the pipeline as possible into `n` branches. */
  method ParallelizeFlowgraph(procs: seq<Proc>, n: nat, inputSortField: string, inputSortReversed: bool) returns (r: Option<Graph>)
    ensures r == Plan(procs, n, inputSortField, inputSortReversed)
  {
    hide Plan, MustMergeBefore;
    for i := 0 to |procs|
      invariant forall j :: 0 <= j < i ==> Continues(procs[j], inputSortField)
    {
      var merge := false;
      match procs[i] {
        case Filter(_) =>
        case Pass =>
        case Cut(complement, fields) =>
          if inputSortField != "" {
            merge := CutNeedsMerge(complement, fields, inputSortField);
          }
        case Put(clauses) =>
          if inputSortField != "" {
            merge := PutNeedsMerge(clauses, inputSortField);
          }
        case Rename(renames) =>
          if inputSortField != "" {
            merge := RenameNeedsMerge(renames, inputSortField);
          }
        case Nested(_) =>
          PlanAt(procs, n, inputSortField, inputSortReversed, i);
          return None;
        case Head(_) =>
          r := HeadOrTail(procs, n, inputSortField, inputSortReversed, i);
          return;
        case Tail(_) =>
          r := HeadOrTail(procs, n, inputSortField, inputSortReversed, i);
          return;
        case _ =>
          PlanAt(procs, n, inputSortField, inputSortReversed, i);
          if inputSortField == "" {
            return None;
          }
          var g := BuildSplitFlowgraph(procs[..i], procs[i..], inputSortField, inputSortReversed, n);
          return Some(g);
      }
      NeverForced(procs[i], inputSortField);
      if merge {
        PlanAt(procs, n, inputSortField, inputSortReversed, i);
        var g := BuildSplitFlowgraph(procs[..i], procs[i..], inputSortField, inputSortReversed, n);
        return Some(g);
      }
    }
    PlanAt(procs, n, inputSortField, inputSortReversed, |procs|);
    if inputSortField == "" {
      return None;
    }
    var g := BuildSplitFlowgraph(procs, [], inputSortField, inputSortReversed, n);
    assert procs[..|procs|] == procs && procs[|procs|..] == [];
    r := Some(g);
  }

  lemma NeverForced(p: Proc, field: string)
    ensures p.Filter? || p.Pass? ==> !MustMergeBefore(p, field)
  {
  }

  method PutNeedsMerge(clauses: seq<Clause>, field: string) returns (r: bool)
    ensures r == MustMergeBefore(Put(clauses), field)
  {
    for k := 0 to |clauses|
      invariant forall i :: 0 <= i < k ==> clauses[i].target != field
    {
      if clauses[k].target == field {
        return true;
      }
    }
    r := false;
  }

  method RenameNeedsMerge(renames: seq<Assign>, field: string) returns (r: bool)
    ensures r == MustMergeBefore(Rename(renames), field)
  {
    for k := 0 to |renames|
      invariant forall i :: 0 <= i < k ==> renames[i].target != field
    {
      if renames[k].target == field {
        return true;
      }
    }
    r := false;
  }

  /** One head or tail on each branch and one after the merge. */
  method HeadOrTail(procs: seq<Proc>, n: nat, field: string, reverse: bool, i: nat) returns (r: Option<Graph>)
    requires i < |procs| && (procs[i].Head? || procs[i].Tail?) && forall j :: 0 <= j < i ==> Continues(procs[j], field)
    ensures r == Plan(procs, n, field, reverse)
  {
    PlanAt(procs, n, field, reverse, i);
    if field == "" {
      return None;
    }
    var g := BuildSplitFlowgraph(procs[..i + 1], procs[i..], field, reverse, n);
    r := Some(g);
  }

  lemma PlanAt(procs: seq<Proc>, n: nat, field: string, reverse: bool, i: nat)
    requires i <= |procs| && forall j :: 0 <= j < i ==> Continues(procs[j], field)
    requires i < |procs| ==> !Continues(procs[i], field)
    ensures Plan(procs, n, field, reverse) ==
            if field == "" || (i < |procs| && procs[i].Nested?) then None
            else if i < |procs| && (procs[i].Head? || procs[i].Tail?) then Some(Split(procs[..i + 1], procs[i..], field, reverse, n))
            else Some(Split(procs[..i], procs[i..], field, reverse, n))
  {
    SplitPointAt(procs, field, i);
  }

  /** Nothing is left for the branches to do. */
  predicate NothingToDo(procs: seq<Proc>, field: string) {
    procs == [] || (!Continues(procs[0], field) && !procs[0].Head? && !procs[0].Tail?)
  }

  /** The branches are empty exactly when the first proc can neither run in them nor be copied into them. */
  lemma BranchesEmptyExactly(procs: seq<Proc>, n: nat, field: string, reverse: bool)
    requires n > 0 && Plan(procs, n, field, reverse).Some?
    ensures Plan(procs, n, field, reverse).value.branches[0] == [] <==> NothingToDo(procs, field)
  {
    hide MustMergeBefore, Stateless;
  }

  // ------------------------------------------------- both forms mean the same

  /** What the tail of a graph reads when all branches are the same. */
  function Merged(branch: seq<Proc>, field: string, reverse: bool, parts: seq<seq<Row>>): seq<Row>
    requires |parts| > 0
  {
    var outs := RunParts(branch, parts);
    if |outs| > 1 then OrderedMerge(field, reverse, outs) else outs[0]
  }

  lemma {:induction false} PassAll(rows: seq<Row>)
    ensures Apply(Pass, rows) == rows
  {
    if rows != [] {
      PassAll(rows[1..]);
      assert rows == [rows[0]] + rows[1..];
    }
  }

  lemma {:induction false} DealtToOne(all: seq<Row>, part: seq<Row>)
    requires Dealt(all, [part])
    ensures part == all
    decreases |all|
  {
    if all == [] {
      assert [part][0] == [];
    } else {
      var b := FirstDealt(all, [part]);
      assert Popped([part], b) == [part[1..]];
      DealtToOne(all[1..], part[1..]);
      assert part == [part[0]] + part[1..] && all == [all[0]] + all[1..];
    }
  }

  /** A stateless branch: merging gives the prefix's result on the whole input. */
  lemma MergedBranch(branch: seq<Proc>, field: string, reverse: bool, rows: seq<Row>, parts: seq<seq<Row>>)
    requires KeepField(branch, field) && field != "" && Sorted(field, reverse, rows) && Dealt(rows, parts) && |parts| > 0
    ensures Merged(branch, field, reverse, parts) == Run(branch, rows)
  {
    MergedPrefix(branch, field, reverse, rows, parts);
    if |parts| == 1 {
      assert parts == [parts[0]];
      DealtToOne(rows, parts[0]);
    }
  }

  lemma RunSnoc(procs: seq<Proc>, p: Proc, rows: seq<Row>)
    ensures Run(procs + [p], rows) == Apply(p, Run(procs, rows))
  {
    RunAppend(procs, [p], rows);
    assert Run([p], Run(procs, rows)) == Run([], Apply(p, Run(procs, rows)));
  }

  /** A branch ending in head: what the head after the merge makes of it is right. */
  lemma MergedHead(prefix: seq<Proc>, count: nat, field: string, reverse: bool, rows: seq<Row>, parts: seq<seq<Row>>)
    requires KeepField(prefix, field) && field != "" && Sorted(field, reverse, rows) && Dealt(rows, parts) && |parts| > 0
    ensures Apply(Head(count), Merged(prefix + [Head(count)], field, reverse, parts)) == Apply(Head(count), Run(prefix, rows))
  {
    var n, outs, heads := Limit(count), RunParts(prefix, parts), RunParts(prefix + [Head(count)], parts);
    forall k | 0 <= k < |parts| ensures heads[k] == First(outs[k], n) {
      RunSnoc(prefix, Head(count), parts[k]);
    }
    if |parts| == 1 {
      hide Run, Dealt;
      assert parts == [parts[0]];
      DealtToOne(rows, parts[0]);
    } else {
      hide Run, Dealt, OrderedMerge, Sorted, KeepField;
      MergedPrefix(prefix, field, reverse, rows, parts);
      assert SameStarts(outs, heads, n);
      FirstOfMerge(field, reverse, outs, heads, n);
    }
  }

  /** ... and one ending in tail likewise. */
  lemma MergedTail(prefix: seq<Proc>, count: nat, field: string, reverse: bool, rows: seq<Row>, parts: seq<seq<Row>>)
    requires KeepField(prefix, field) && field != "" && Sorted(field, reverse, rows) && Dealt(rows, parts) && |parts| > 0
    ensures Apply(Tail(count), Merged(prefix + [Tail(count)], field, reverse, parts)) == Apply(Tail(count), Run(prefix, rows))
  {
    var n, outs, tails := Limit(count), RunParts(prefix, parts), RunParts(prefix + [Tail(count)], parts);
    forall k | 0 <= k < |parts| ensures tails[k] == Last(outs[k], n) {
      RunSnoc(prefix, Tail(count), parts[k]);
    }
    if |parts| == 1 {
      assert parts == [parts[0]];
      DealtToOne(rows, parts[0]);
    } else {
      DealtRun(prefix, rows, parts);
      SortedRun(prefix, field, reverse, rows);
      var rest := LastDealt(field, reverse, Run(prefix, rows), outs, n);
      assert tails == LastParts(outs, n);
      MergeOfDealt(field, reverse, rest, tails);
    }
  }

  /** No proc of the branches renames the sort field away. */
  predicate KeepsName(procs: seq<Proc>, field: string) {
    forall i :: 0 <= i < SplitPoint(procs, field) ==> !RenamesAway(procs[i], field)
  }

  /**
   * What the procs after the merge make of the branches' records, merged in order, is
   * what the pipeline makes of the whole input, for any number of branches and however
   * the sorted input is dealt out to them, provided no proc of the branches renames
   * the sort field.
   */
  lemma SplitMeansTheSame(procs: seq<Proc>, field: string, reverse: bool, rows: seq<Row>, parts: seq<seq<Row>>)
    requires field != "" && |parts| > 0 && Plan(procs, |parts|, field, reverse).Some?
    requires Sorted(field, reverse, rows) && Dealt(rows, parts) && KeepsName(procs, field)
    ensures var g := Plan(procs, |parts|, field, reverse).value;
            Run(g.tail, Merged(g.branches[0], field, reverse, parts)) == Run(procs, rows)
  {
    hide Stateless, MustMergeBefore, Apply, Merged, Sorted, Dealt, RenamesAway, OrderedMerge, Run;
    var i := SplitPoint(procs, field);
    if i < |procs| && (procs[i].Head? || procs[i].Tail?) {
      LimitedBranches(procs, i, field, reverse, rows, parts);
    } else {
      StatelessBranches(procs, i, field, reverse, rows, parts);
      ForcedPass(procs[i..], Merged(procs[..i], field, reverse, parts));
    }
  }

  /** The pass that forces a merge changes nothing. */
  lemma ForcedPass(tail: seq<Proc>, rows: seq<Row>)
    ensures Run(if tail == [] then [Pass] else tail, rows) == Run(tail, rows)
  {
    PassAll(rows);
    assert Run([Pass], rows) == Run([], Apply(Pass, rows));
  }

  lemma StatelessBranches(procs: seq<Proc>, i: nat, field: string, reverse: bool, rows: seq<Row>, parts: seq<seq<Row>>)
    requires field != "" && |parts| > 0 && Sorted(field, reverse, rows) && Dealt(rows, parts)
    requires i <= |procs| && KeepField(procs[..i], field)
    ensures Run(procs[i..], Merged(procs[..i], field, reverse, parts)) == Run(procs, rows)
  {
    hide Apply, Merged, Sorted, Dealt, OrderedMerge, Run, KeepField;
    assert procs == procs[..i] + procs[i..];
    RunAppend(procs[..i], procs[i..], rows);
    MergedBranch(procs[..i], field, reverse, rows, parts);
  }

  lemma LimitedBranches(procs: seq<Proc>, i: nat, field: string, reverse: bool, rows: seq<Row>, parts: seq<seq<Row>>)
    requires field != "" && |parts| > 0 && Sorted(field, reverse, rows) && Dealt(rows, parts)
    requires i < |procs| && KeepField(procs[..i], field) && (procs[i].Head? || procs[i].Tail?)
    ensures Run(procs[i..], Merged(procs[..i + 1], field, reverse, parts)) == Run(procs, rows)
  {
    hide Apply, Merged, Sorted, Dealt, OrderedMerge, Run, KeepField;
    var prefix, rest, branch := procs[..i], procs[i..], procs[..i + 1];
    assert procs == prefix + rest && branch == prefix + [procs[i]];
    RunAppend(prefix, rest, rows);
    if procs[i].Head? {
      MergedHead(prefix, procs[i].count, field, reverse, rows, parts);
    } else {
      MergedTail(prefix, procs[i].count, field, reverse, rows, parts);
    }
    RunNext(rest, Merged(branch, field, reverse, parts));
    RunNext(rest, Run(prefix, rows));
  }

  lemma RunNext(procs: seq<Proc>, rows: seq<Row>)
    requires procs != []
    ensures Run(procs, rows) == Run(procs[1..], Apply(procs[0], rows))
  {
  }

  // ---------------------------------------------- when the sort field is lost

  ghost predicate FieldLost(field: string, parts: seq<seq<Row>>) {
    forall k, i :: 0 <= k < |parts| && 0 <= i < |parts[k]| ==> Get(parts[k][i], field) == None
  }

  /** Without the sort field the merge puts one branch's records after another's. */
  lemma {:induction false} LostFieldConcatenates(field: string, reverse: bool, parts: seq<seq<Row>>)
    requires FieldLost(field, parts)
    ensures OrderedMerge(field, reverse, parts) == Flatten(parts)
    decreases Total(parts)
  {
    FirstNonEmpty(field, reverse, parts, |parts|);
    var b := NextParent(field, reverse, parts, |parts|);
    if b == -1 {
      FlattenFrom(parts, |parts|);
    } else {
      hide Flatten, NextParent, FieldLost;
      TotalDrops(parts, b);
      StillLost(field, parts, b);
      LostFieldConcatenates(field, reverse, Popped(parts, b));
      FlattenPopped(parts, b);
    }
  }

  lemma StillLost(field: string, parts: seq<seq<Row>>, b: nat)
    requires FieldLost(field, parts) && b < |parts| && parts[b] != []
    ensures FieldLost(field, Popped(parts, b))
  {
    hide Get;
  }

  lemma FlattenPopped(parts: seq<seq<Row>>, b: nat)
    requires b < |parts| && parts[b] != [] && forall k :: 0 <= k < b ==> parts[k] == []
    ensures Flatten(parts) == [parts[b][0]] + Flatten(Popped(parts, b))
  {
    hide Flatten;
    var left, rest := Popped(parts, b), parts[b + 1..];
    FlattenFrom(parts, b);
    FlattenFrom(left, b);
    assert left[b + 1..] == rest;
    ConcatAssociative([parts[b][0]], left[b], Flatten(rest));
    assert parts[b] == [parts[b][0]] + left[b];
  }

  lemma {:induction false} FirstNonEmpty(field: string, reverse: bool, parts: seq<seq<Row>>, n: nat)
    requires n <= |parts|
    requires FieldLost(field, parts)
    ensures var b := NextParent(field, reverse, parts, n); forall k :: 0 <= k < (if b == -1 then n else b) ==> parts[k] == []
  {
    if n > 0 {
      FirstNonEmpty(field, reverse, parts, n - 1);
    }
  }

  lemma {:induction false} FlattenFrom(parts: seq<seq<Row>>, b: nat)
    requires b <= |parts| && forall k :: 0 <= k < b ==> parts[k] == []
    ensures Flatten(parts) == if b == |parts| then [] else parts[b] + Flatten(parts[b + 1..])
  {
    if b > 0 {
      FlattenFrom(parts[1..], b - 1);
      if b < |parts| {
        assert parts[1..][b..] == parts[b + 1..];
      }
    }
  }

  /** What a column called `name` is called after these renames. */
  function FinalName(name: string, renames: seq<Assign>): string
    decreases renames
  {
    if renames == [] then name
    else FinalName(if renames[0].source == name then renames[0].target else name, renames[1..])
  }

  lemma {:induction false} OneColumnRenamed(name: string, value: Option<int>, renames: seq<Assign>)
    ensures RenameColumns([Column(name, value)], renames) == [Column(FinalName(name, renames), value)]
    decreases renames
  {
    if renames != [] {
      var next := if renames[0].source == name then renames[0].target else name;
      assert [Column(name, value)][1..] == [];
      assert RenameColumn([Column(name, value)], renames[0].source, renames[0].target) == [Column(next, value)];
      OneColumnRenamed(next, value, renames[1..]);
    }
  }

  /** A name that these renames take away and never give is lost. */
  lemma {:induction false} NameIsLost(name: string, renames: seq<Assign>, field: string)
    requires forall i :: 0 <= i < |renames| ==> renames[i].target != field
    requires name != field || exists i :: 0 <= i < |renames| && renames[i].source == field
    ensures FinalName(name, renames) != field
    decreases renames
  {
    if renames != [] {
      var next := if renames[0].source == name then renames[0].target else name;
      assert forall i :: 0 < i < |renames| ==> renames[i] == renames[1..][i - 1];
      NameIsLost(next, renames[1..], field);
    }
  }

  /** Two records in order of the sort field, dealt out over two branches against that order. */
  function Low(field: string, reverse: bool): Row { [Column(field, Some(if reverse then 2 else 1))] }

  function High(field: string, reverse: bool): Row { [Column(field, Some(if reverse then 1 else 2))] }

  lemma LowIsFirst(field: string, reverse: bool)
    ensures Sorted(field, reverse, [Low(field, reverse), High(field, reverse)])
  {
  }

  /** Two records dealt out over `n` branches, the later one to the first branch. */
  function DealtBackwards(a: Row, b: Row, n: nat): (r: seq<seq<Row>>)
    ensures |r| == n
  {
    seq(n, k => if k == 0 then [b] else if k == 1 then [a] else [])
  }

  lemma BackwardsIsDealt(a: Row, b: Row, n: nat)
    requires n >= 2
    ensures Dealt([a, b], DealtBackwards(a, b, n))
  {
    var parts := DealtBackwards(a, b, n);
    var left := Popped(parts, 1);
    assert forall k :: 0 <= k < n ==> Popped(left, 0)[k] == [];
    assert [b][1..] == [] && Dealt([b][1..], Popped(left, 0));
    assert GoesTo(b, left, 0) && Dealt([b], left);
    assert GoesTo(a, parts, 1) && [a, b][1..] == [b];
  }

  /** A rename of the sort field, which the rewriting lets into the branches, loses the order. */
  lemma RenameAwayLosesOrder(renames: seq<Assign>, field: string, reverse: bool, n: nat)
    requires n >= 2 && RenamesAway(Rename(renames), field) && !MustMergeBefore(Rename(renames), field)
    ensures var p, a, b := Rename(renames), Low(field, reverse), High(field, reverse);
            && Sorted(field, reverse, [a, b]) && Dealt([a, b], DealtBackwards(a, b, n))
            && Merged([p], field, reverse, DealtBackwards(a, b, n)) != Run([p], [a, b])
  {
    var p, a, b := Rename(renames), Low(field, reverse), High(field, reverse);
    var name := FinalName(field, renames);
    var a', b' := [Column(name, a[0].value)], [Column(name, b[0].value)];
    NameIsLost(field, renames, field);
    OneColumnRenamed(field, a[0].value, renames);
    OneColumnRenamed(field, b[0].value, renames);
    LostOrder(p, a, b, a', b', field, reverse, n);
    RenameBoth(p, a, b, a', b');
    hide *;
    BackwardsIsDealt(a, b, n);
    LowIsFirst(field, reverse);
  }

  /** What the merge makes of two records that have lost the field. */
  lemma LostOrder(p: Proc, a: Row, b: Row, a': Row, b': Row, field: string, reverse: bool, n: nat)
    requires n >= 2 && Stateless(p) && Each(p, a) == Some(a') && Each(p, b) == Some(b')
    requires Get(a', field).None? && Get(b', field).None?
    ensures Merged([p], field, reverse, DealtBackwards(a, b, n)) == [b', a']
  {
    var outs := RunParts([p], DealtBackwards(a, b, n));
    RunOne(p, a, a');
    RunOne(p, b, b');
    RunNone(p);
    assert outs == DealtBackwards(a', b', n) by {
      hide *;
      forall k | 0 <= k < n ensures outs[k] == DealtBackwards(a', b', n)[k] {}
    }
    BackwardsLost(a', b', field, n);
    hide Run, Get, Each, OrderedMerge, FieldLost, DealtBackwards;
    LostFieldConcatenates(field, reverse, outs);
    BackwardsFlattened(a', b', n);
  }

  lemma BackwardsFlattened(a: Row, b: Row, n: nat)
    requires n >= 2
    ensures Flatten(DealtBackwards(a, b, n)) == [b, a]
  {
    var parts := DealtBackwards(a, b, n);
    assert parts[1..][1..] == parts[2..];
    FlattenFrom(parts[2..], n - 2);
    assert Flatten(parts[1..]) == [a] + Flatten(parts[2..]);
  }

  lemma BackwardsLost(a: Row, b: Row, field: string, n: nat)
    requires Get(a, field).None? && Get(b, field).None?
    ensures FieldLost(field, DealtBackwards(a, b, n))
  {
  }

  lemma RunNone(p: Proc)
    requires Stateless(p)
    ensures Run([p], []) == []
  {
    assert Run([p], []) == Run([p][1..], Apply(p, []));
  }

  lemma RenameBoth(p: Proc, a: Row, b: Row, a': Row, b': Row)
    requires Stateless(p) && Each(p, a) == Some(a') && Each(p, b) == Some(b')
    ensures Run([p], [a, b]) == [a', b']
  {
    EachNext(p, [a, b]);
    assert [a, b][1..] == [b];
    EachNext(p, [b]);
    assert [b][1..] == [];
    RunNext([p], [a, b]);
    assert [p][1..] == [];
  }

  lemma RunOne(p: Proc, row: Row, out: Row)
    requires Stateless(p) && Each(p, row) == Some(out)
    ensures Run([p], [row]) == [out]
  {
    EachNext(p, [row]);
    assert [row][1..] == [] && [p][1..] == [];
    assert Apply(p, [row]) == [out];
    RunNext([p], [row]);
  }
}
