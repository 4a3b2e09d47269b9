/**
 * What each proc computes from its input (proc/): which records come out, in which
 * order, and what their columns hold, said by positions in the input.
 */
module ProcMeaning {
  import opened Bytes
  import opened Flowgraph

  // ----------------------------------------------------------------- positions

  /** `idx` lists the positions below `n` that are picked, in order. */
  ghost predicate Picks(idx: seq<nat>, n: nat, picked: nat -> bool) {
    && (forall i, j :: 0 <= i < j < |idx| ==> idx[i] < idx[j])
    && (forall k: nat :: k in idx <==> k < n && picked(k))
  }

  lemma PickNone(idx: seq<nat>, n: nat, picked: nat -> bool)
    requires n > 0 && Picks(idx, n - 1, picked) && !picked(n - 1)
    ensures Picks(idx, n, picked)
  {
    assert forall k: nat :: k < n && picked(k) ==> k < n - 1;
  }

  lemma PickLast(idx: seq<nat>, n: nat, picked: nat -> bool)
    requires n > 0 && Picks(idx, n - 1, picked) && picked(n - 1)
    ensures Picks(idx + [n - 1], n, picked)
  {
    var more := idx + [n - 1];
    forall i, j | 0 <= i < j < |more| ensures more[i] < more[j] {
      assert more[i] in idx;
    }
    forall k: nat ensures k in more <==> k < n && picked(k) {
      assert k in more <==> k in idx || k == n - 1;
    }
  }

  // ------------------------------------------------------------- stateless procs

  lemma {:induction false} EachOfLast(p: Proc, rows: seq<Row>)
    requires Stateless(p) && rows != []
    ensures var front, last := rows[..|rows| - 1], rows[|rows| - 1];
            EachOf(p, rows) == EachOf(p, front) + if Each(p, last).Some? then [Each(p, last).value] else []
    decreases |rows|
  {
    hide Each;
    if |rows| == 1 {
      assert rows[1..] == [] && rows[..0] == [];
    } else {
      EachOfLast(p, rows[1..]);
      assert rows[1..][..|rows| - 2] == rows[..|rows| - 1][1..];
    }
  }

  /** One record comes out for each record the proc does not drop, in order. */
  lemma {:induction false} EachPicked(p: Proc, rows: seq<Row>) returns (idx: seq<nat>)
    requires Stateless(p)
    ensures Picks(idx, |rows|, (k: nat) => k < |rows| && Each(p, rows[k]).Some?)
    ensures |Apply(p, rows)| == |idx|
    ensures forall k :: 0 <= k < |idx| ==> idx[k] < |rows| && Each(p, rows[idx[k]]) == Some(Apply(p, rows)[k])
    decreases |rows|
  {
    hide Each;
    if rows == [] {
      idx := [];
    } else {
      var n := |rows|;
      var front := rows[..n - 1];
      var before := EachPicked(p, front);
      EachOfLast(p, rows);
      var was: nat -> bool := (k: nat) => k < |front| && Each(p, front[k]).Some?;
      var picked: nat -> bool := (k: nat) => k < n && Each(p, rows[k]).Some?;
      assert Picks(before, n - 1, picked) by {
        assert forall k: nat :: k < n - 1 ==> (was(k) <==> picked(k));
      }
      if Each(p, rows[n - 1]).Some? {
        PickLast(before, n, picked);
        idx := before + [n - 1];
      } else {
        PickNone(before, n, picked);
        idx := before;
      }
    }
  }

  /** Filter passes on just the records that pass, in order. */
  lemma FilterMeaning(keep: Row -> bool, rows: seq<Row>) returns (idx: seq<nat>)
    ensures Picks(idx, |rows|, (k: nat) => k < |rows| && keep(rows[k]))
    ensures |Apply(Filter(keep), rows)| == |idx|
    ensures forall k :: 0 <= k < |idx| ==> idx[k] < |rows| && Apply(Filter(keep), rows)[k] == rows[idx[k]]
  {
    var p := Filter(keep);
    idx := EachPicked(p, rows);
    var picked: nat -> bool := (k: nat) => k < |rows| && Each(p, rows[k]).Some?;
    assert forall k: nat :: picked(k) <==> k < |rows| && keep(rows[k]);
    hide Apply;
  }

  /** Pass, put and rename make one record of each. */
  lemma OneForOne(p: Proc, rows: seq<Row>)
    requires p.Pass? || p.Put? || p.Rename?
    ensures |Apply(p, rows)| == |rows|
    ensures forall k :: 0 <= k < |rows| ==> Each(p, rows[k]) == Some(Apply(p, rows)[k])
  {
    hide Apply;
    AllPicked(p, rows);
  }

  lemma {:induction false} AllPicked(p: Proc, rows: seq<Row>)
    requires p.Pass? || p.Put? || p.Rename?
    ensures |EachOf(p, rows)| == |rows| && Apply(p, rows) == EachOf(p, rows)
    ensures forall k :: 0 <= k < |rows| ==> Each(p, rows[k]) == Some(EachOf(p, rows)[k])
    decreases |rows|
  {
    if rows != [] {
      var out := EachOf(p, rows[1..]);
      AllPicked(p, rows[1..]);
      assert Each(p, rows[0]).Some?;
      hide Each;
      assert EachOf(p, rows) == [Each(p, rows[0]).value] + out;
      forall k | 0 < k < |rows| ensures Each(p, rows[k]) == Some(EachOf(p, rows)[k]) {
        assert rows[1..][k - 1] == rows[k];
      }
    }
  }

  // -------------------------------------------------------------------- columns

  /** A field is the first column of its name; one that is missing counts as null. */
  lemma {:induction false} GetIsFirst(row: Row, name: string)
    ensures !Has(row, name) ==> Get(row, name) == None
    ensures forall i :: 0 <= i < |row| && row[i].name == name && (forall j :: 0 <= j < i ==> row[j].name != name) ==>
              Get(row, name) == row[i].value
  {
    if row != [] {
      GetIsFirst(row[1..], name);
      assert forall j :: 0 < j < |row| ==> row[j] == row[1..][j - 1];
      if Has(row[1..], name) {
        var j :| 0 <= j < |row[1..]| && row[1..][j].name == name;
        assert row[j + 1].name == name;
      }
    }
  }

  /** The column cut makes of a field. */
  predicate CutsTo(row: Row, fields: seq<Assign>, i: nat, c: Column) {
    i < |fields| && c == Column(if fields[i].target == "" then fields[i].source else fields[i].target, Get(row, fields[i].source))
  }

  /** Cut makes a column of each field the record has, in the order of the fields, under its target. */
  lemma {:induction false} CutMeaning(row: Row, fields: seq<Assign>) returns (idx: seq<nat>)
    ensures Picks(idx, |fields|, (k: nat) => k < |fields| && Has(row, fields[k].source))
    ensures |CutRow(row, fields)| == |idx|
    ensures forall k :: 0 <= k < |idx| ==> CutsTo(row, fields, idx[k], CutRow(row, fields)[k])
    decreases |fields|
  {
    hide Has, Get;
    if fields == [] {
      idx := [];
    } else {
      var n := |fields|;
      var before := CutMeaning(row, fields[..n - 1]);
      CutLast(row, fields);
      var picked: nat -> bool := (k: nat) => k < n && Has(row, fields[k].source);
      assert Picks(before, n - 1, picked);
      if Has(row, fields[n - 1].source) {
        PickLast(before, n, picked);
        idx := before + [n - 1];
      } else {
        PickNone(before, n, picked);
        idx := before;
      }
    }
  }

  lemma {:induction false} CutLast(row: Row, fields: seq<Assign>)
    requires fields != []
    ensures var front, f := fields[..|fields| - 1], fields[|fields| - 1];
            CutRow(row, fields) ==
            CutRow(row, front) + if Has(row, f.source) then [Column(Target(f), Get(row, f.source))] else []
    decreases |fields|
  {
    hide Has, Get;
    if |fields| == 1 {
      assert fields[1..] == [] && fields[..0] == [];
    } else {
      CutLast(row, fields[1..]);
      assert fields[1..][..|fields| - 2] == fields[..|fields| - 1][1..];
    }
  }

  predicate Named(fields: seq<Assign>, name: string) {
    exists i :: 0 <= i < |fields| && fields[i].source == name
  }

  /** The complement of cut keeps just the other columns, in order. */
  lemma {:induction false} DropMeaning(row: Row, fields: seq<Assign>) returns (idx: seq<nat>)
    ensures Picks(idx, |row|, (k: nat) => k < |row| && !Named(fields, row[k].name))
    ensures |DropColumns(row, fields)| == |idx|
    ensures forall k :: 0 <= k < |idx| ==> idx[k] < |row| && DropColumns(row, fields)[k] == row[idx[k]]
    decreases |row|
  {
    hide Named;
    if row == [] {
      idx := [];
    } else {
      var n := |row|;
      var before := DropMeaning(row[..n - 1], fields);
      DropLast(row, fields);
      var picked: nat -> bool := (k: nat) => k < n && !Named(fields, row[k].name);
      assert Picks(before, n - 1, picked);
      if !Named(fields, row[n - 1].name) {
        PickLast(before, n, picked);
        idx := before + [n - 1];
      } else {
        PickNone(before, n, picked);
        idx := before;
      }
    }
  }

  lemma {:induction false} DropLast(row: Row, fields: seq<Assign>)
    requires row != []
    ensures DropColumns(row, fields) ==
            DropColumns(row[..|row| - 1], fields) + if Named(fields, row[|row| - 1].name) then [] else [row[|row| - 1]]
    decreases |row|
  {
    if |row| == 1 {
      assert row[1..] == [] && row[..0] == [];
    } else {
      DropLast(row[1..], fields);
      assert row[1..][..|row| - 2] == row[..|row| - 1][1..];
    }
  }

  /** A cut drops the records it leaves without columns. */
  lemma CutDropsEmpty(complement: bool, fields: seq<Assign>, row: Row)
    ensures var out := if complement then DropColumns(row, fields) else CutRow(row, fields);
            Each(Cut(complement, fields), row) == if |out| == 0 then None else Some(out)
  {
  }

  /** Setting a column sets the first of its name, or a new one behind all others. */
  lemma {:induction false} SetMeaning(row: Row, name: string, value: Option<int>)
    ensures var out := SetColumn(row, name, value);
            && |out| == |row| + (if Has(row, name) then 0 else 1)
            && (forall i :: 0 <= i < |row| ==> out[i].name == row[i].name)
            && (!Has(row, name) ==> out[|row|].name == name)
            && Get(out, name) == value && (forall other :: other != name ==> Get(out, other) == Get(row, other))
            && (forall other :: Has(out, other) <==> other == name || Has(row, other))
  {
    var out := SetColumn(row, name, value);
    if row == [] {
      assert out[0].name == name && out[1..] == [];
    } else if row[0].name == name {
      assert out[1..] == row[1..] && out[0].name == name;
      assert forall other :: Has(out, other) <==> other == name || Has(row, other);
    } else {
      SetMeaning(row[1..], name, value);
      assert out[1..] == SetColumn(row[1..], name, value);
      HasFirst(row, name);
      forall other ensures Has(out, other) <==> other == name || Has(row, other) {
        HasFirst(out, other);
        HasFirst(row, other);
      }
      hide SetColumn;
      forall other | other != name ensures Get(out, other) == Get(row, other) {}
    }
  }

  lemma HasFirst(row: Row, name: string)
    requires row != []
    ensures Has(row, name) <==> row[0].name == name || Has(row[1..], name)
  {
    assert forall i :: 0 < i < |row| ==> row[i] == row[1..][i - 1];
    if Has(row[1..], name) {
      var j :| 0 <= j < |row[1..]| && row[1..][j].name == name;
      assert row[j + 1].name == name;
    }
  }

  /** No clause from `k` on sets this name. */
  predicate NotSet(clauses: seq<Clause>, k: nat, name: string) {
    forall i :: k <= i < |clauses| ==> clauses[i].target != name
  }

  /**
   * What put makes of a record: each clause is computed from the record as it came in;
   * the last clause for a name sets it; other fields stay; and new columns come last.
   * If a clause cannot be computed the record stays as it is.
   */
  lemma {:induction false} PutMeaning(input: Row, row: Row, clauses: seq<Clause>)
    ensures PutClauses(input, row, clauses).Some? <==> forall i :: 0 <= i < |clauses| ==> clauses[i].eval(input).Some?
    ensures PutClauses(input, row, clauses).Some? ==>
              var out := PutClauses(input, row, clauses).value;
              && |out| >= |row| && (forall i :: 0 <= i < |row| ==> out[i].name == row[i].name)
              && (forall name :: NotSet(clauses, 0, name) ==> Get(out, name) == Get(row, name))
              && (forall k :: 0 <= k < |clauses| && NotSet(clauses, k + 1, clauses[k].target) ==>
                    Get(out, clauses[k].target) == clauses[k].eval(input))
    decreases |clauses|
  {
    if clauses != [] {
      var c, rest := clauses[0], clauses[1..];
      assert forall i :: 0 < i < |clauses| ==> clauses[i] == rest[i - 1];
      if c.eval(input).Some? {
        var next := SetColumn(row, c.target, c.eval(input));
        SetMeaning(row, c.target, c.eval(input));
        PutMeaning(input, next, rest);
        hide SetColumn, Get;
        if PutClauses(input, row, clauses).Some? {
          var out := PutClauses(input, row, clauses).value;
          forall name | NotSet(clauses, 0, name) ensures Get(out, name) == Get(row, name) {
            assert NotSet(rest, 0, name);
          }
          forall k | 0 <= k < |clauses| && NotSet(clauses, k + 1, clauses[k].target)
            ensures Get(out, clauses[k].target) == clauses[k].eval(input)
          {
            if k == 0 {
              assert NotSet(rest, 0, c.target);
            } else {
              assert NotSet(rest, k, rest[k - 1].target);
            }
          }
        }
      }
    }
  }

  /** Two clauses for one new column leave the record as it is; else the clauses are carried out. */
  lemma PutKeepsOrSets(clauses: seq<Clause>, row: Row)
    ensures (exists i, j :: 0 <= i < j < |clauses| && clauses[i].target == clauses[j].target && !Has(row, clauses[i].target)) ==>
              Each(Put(clauses), row) == Some(row)
    ensures (forall i, j :: 0 <= i < j < |clauses| && clauses[i].target == clauses[j].target ==> Has(row, clauses[i].target)) ==>
              Each(Put(clauses), row) == Some(PutClauses(row, row, clauses).GetOr(row))
  {
  }

  /** Renaming renames the first column of that name and leaves its value and all others. */
  lemma {:induction false} RenameMeaning(row: Row, source: string, target: string, i: nat)
    requires i < |row| && row[i].name == source && forall j :: 0 <= j < i ==> row[j].name != source
    ensures RenameColumn(row, source, target) == row[i := Column(target, row[i].value)]
  {
    if i > 0 {
      var rest := row[1..];
      assert rest[i - 1] == row[i] && forall j :: 0 <= j < i - 1 ==> rest[j] == row[j + 1];
      RenameMeaning(rest, source, target, i - 1);
      assert row[0].name != source;
    }
  }

  lemma {:induction false} RenameOfNothing(row: Row, source: string, target: string)
    requires !Has(row, source)
    ensures RenameColumn(row, source, target) == row
  {
    if row != [] {
      HasFirst(row, source);
      RenameOfNothing(row[1..], source, target);
    }
  }

  /** Renames are made one after the other. */
  lemma {:induction false} RenamesInOrder(row: Row, renames: seq<Assign>, last: Assign)
    ensures RenameColumns(row, []) == row
    ensures RenameColumns(row, renames + [last]) == RenameColumn(RenameColumns(row, renames), last.source, last.target)
    decreases |renames|
  {
    if renames == [] {
      assert [] + [last] == [last] && [last][1..] == [];
    } else {
      assert (renames + [last])[1..] == renames[1..] + [last];
      RenamesInOrder(RenameColumn(row, renames[0].source, renames[0].target), renames[1..], last);
    }
  }

  // ------------------------------------------------------------- head and tail

  /** Head gives the first records and tail the last, one when no count is given. */
  lemma HeadAndTailMeaning(count: nat, rows: seq<Row>)
    ensures var n := if count == 0 then 1 else count;
            var k := if |rows| < n then |rows| else n;
            && |Apply(Head(count), rows)| == |Apply(Tail(count), rows)| == k
            && forall i :: 0 <= i < k ==> Apply(Head(count), rows)[i] == rows[i] && Apply(Tail(count), rows)[i] == rows[|rows| - k + i]
  {
  }

  // -------------------------------------------------------------------- uniq

  /** The record is not encoded like the one before it. */
  predicate StartsRun(rows: seq<Row>, k: nat) {
    k < |rows| && (k == 0 || Raw(rows[k]) != Raw(rows[k - 1]))
  }

  /** Where run `k` ends. */
  function RunEnd(starts: seq<nat>, k: nat, n: nat): nat {
    if k + 1 < |starts| then starts[k + 1] else n
  }

  /** From `s` to `e` all are encoded like the first, which is `out`, with their number if `cflag`. */
  ghost predicate RunIs(rows: seq<Row>, s: nat, e: nat, out: Row, cflag: bool) {
    && s < e <= |rows|
    && (forall i :: s <= i < e ==> Raw(rows[i]) == Raw(rows[s]))
    && out == (if cflag && !Has(rows[s], "_uniq") then rows[s] + [Column("_uniq", Some(e - s))] else rows[s])
  }

  /** `out` has the first record of each run, and with `cflag` the length of the run. */
  ghost predicate FirstOfRuns(rows: seq<Row>, starts: seq<nat>, out: seq<Row>, cflag: bool) {
    && |out| == |starts|
    && (forall k :: 0 <= k < |starts| ==> RunIs(rows, starts[k], RunEnd(starts, k, |rows|), out[k], cflag))
  }

  lemma {:induction false} UniqFromStart(rows: seq<Row>, s: nat, i: nat, cflag: bool) returns (starts: seq<nat>)
    requires s < i <= |rows| && StartsRun(rows, s)
    requires forall j :: s <= j < i ==> Raw(rows[j]) == Raw(rows[s])
    ensures starts != [] && starts[0] == s
    ensures forall a, b :: 0 <= a < b < |starts| ==> starts[a] < starts[b]
    ensures forall k: nat :: k in starts <==> s <= k && StartsRun(rows, k)
    ensures FirstOfRuns(rows, starts, UniqFrom(rows[s], i - s, rows[i..], cflag), cflag)
    decreases |rows| - i
  {
    hide Raw, FirstOfRuns;
    if i == |rows| {
      starts := [s];
      LastRun(rows, s, cflag);
    } else {
      assert rows[i..][0] == rows[i] && rows[i..][1..] == rows[i + 1..];
      if Raw(rows[i]) == Raw(rows[s]) {
        starts := UniqFromStart(rows, s, i + 1, cflag);
      } else {
        var later := UniqFromStart(rows, i, i + 1, cflag);
        starts := [s] + later;
        MoreRuns(rows, s, i, later, UniqFrom(rows[i], 1, rows[i + 1..], cflag), cflag);
        MoreStarts(rows, s, i, later);
      }
    }
  }

  lemma LastRun(rows: seq<Row>, s: nat, cflag: bool)
    requires s < |rows| && forall j :: s <= j < |rows| ==> Raw(rows[j]) == Raw(rows[s])
    ensures FirstOfRuns(rows, [s], UniqFrom(rows[s], |rows| - s, [], cflag), cflag)
  {
    hide Raw;
  }

  lemma MoreStarts(rows: seq<Row>, s: nat, i: nat, later: seq<nat>)
    requires s < i < |rows| && StartsRun(rows, s) && later != [] && later[0] == i
    requires forall j :: s <= j < i ==> Raw(rows[j]) == Raw(rows[s])
    requires forall a, b :: 0 <= a < b < |later| ==> later[a] < later[b]
    requires forall k: nat :: k in later <==> i <= k && StartsRun(rows, k)
    ensures var starts := [s] + later;
            && (forall a, b :: 0 <= a < b < |starts| ==> starts[a] < starts[b])
            && (forall k: nat :: k in starts <==> s <= k && StartsRun(rows, k))
  {
    hide Raw;
    var starts := [s] + later;
    forall a, b | 0 <= a < b < |starts| ensures starts[a] < starts[b] {
      assert starts[b] == later[b - 1];
    }
  }

  lemma MoreRuns(rows: seq<Row>, s: nat, i: nat, later: seq<nat>, more: seq<Row>, cflag: bool)
    requires s < i < |rows| && later != [] && later[0] == i && FirstOfRuns(rows, later, more, cflag)
    requires forall j :: s <= j < i ==> Raw(rows[j]) == Raw(rows[s])
    ensures FirstOfRuns(rows, [s] + later, [Wrap(rows[s], i - s, cflag)] + more, cflag)
  {
    hide Raw, RunIs;
    var starts, out := [s] + later, [Wrap(rows[s], i - s, cflag)] + more;
    assert RunIs(rows, s, i, out[0], cflag) by {
      FirstRun(rows, s, i, cflag);
    }
    forall k | 0 < k < |starts| ensures RunIs(rows, starts[k], RunEnd(starts, k, |rows|), out[k], cflag) {
      assert RunEnd(starts, k, |rows|) == RunEnd(later, k - 1, |rows|) && starts[k] == later[k - 1] && out[k] == more[k - 1];
    }
  }

  lemma FirstRun(rows: seq<Row>, s: nat, i: nat, cflag: bool)
    requires s < i <= |rows| && forall j :: s <= j < i ==> Raw(rows[j]) == Raw(rows[s])
    ensures RunIs(rows, s, i, Wrap(rows[s], i - s, cflag), cflag)
  {
    hide Raw;
  }

  /** Uniq gives the first record of each run of records encoded alike, and all of the runs. */
  lemma UniqMeaning(rows: seq<Row>, cflag: bool) returns (starts: seq<nat>)
    ensures Picks(starts, |rows|, (k: nat) => StartsRun(rows, k))
    ensures FirstOfRuns(rows, starts, Apply(Uniq(cflag), rows), cflag)
    ensures rows != [] ==> starts != [] && starts[0] == 0
  {
    if rows == [] {
      starts := [];
    } else {
      starts := UniqFromStart(rows, 0, 1, cflag);
    }
  }

  /** No two neighbours in the output of uniq are encoded alike. */
  lemma UniqRepeatsNothing(rows: seq<Row>, k: nat)
    requires k + 1 < |Apply(Uniq(false), rows)|
    ensures Raw(Apply(Uniq(false), rows)[k]) != Raw(Apply(Uniq(false), rows)[k + 1])
  {
    hide Raw, Apply;
    var starts := UniqMeaning(rows, false);
    var next := starts[k + 1];
    assert next in starts && StartsRun(rows, next);
    assert RunIs(rows, starts[k], next, Apply(Uniq(false), rows)[k], false);
    assert Raw(rows[next - 1]) == Raw(rows[starts[k]]);
    assert RunIs(rows, next, RunEnd(starts, k + 1, |rows|), Apply(Uniq(false), rows)[k + 1], false);
  }

  /** The count in a record's last column. */
  function CountOf(row: Row): int {
    if row == [] then 0 else row[|row| - 1].value.GetOr(0)
  }

  function Counts(rows: seq<Row>): int {
    if rows == [] then 0 else CountOf(rows[0]) + Counts(rows[1..])
  }

  lemma {:induction false} CountsFrom(rows: seq<Row>, starts: seq<nat>, out: seq<Row>, k: nat)
    requires FirstOfRuns(rows, starts, out, true) && k < |starts|
    requires forall i :: 0 <= i < |rows| ==> !Has(rows[i], "_uniq")
    ensures Counts(out[k..]) == |rows| - starts[k]
    decreases |starts| - k
  {
    hide Raw;
    assert RunIs(rows, starts[k], RunEnd(starts, k, |rows|), out[k], true);
    assert out[k..][1..] == out[k + 1..] && CountOf(out[k]) == RunEnd(starts, k, |rows|) - starts[k];
    if k + 1 < |starts| {
      CountsFrom(rows, starts, out, k + 1);
    } else {
      assert out[k + 1..] == [];
    }
  }

  /** The counts of uniq add up to the number of records, if these have no column for it yet. */
  lemma CountsAddUp(rows: seq<Row>)
    requires forall i :: 0 <= i < |rows| ==> !Has(rows[i], "_uniq")
    ensures Counts(Apply(Uniq(true), rows)) == |rows|
  {
    var starts := UniqMeaning(rows, true);
    var out := Apply(Uniq(true), rows);
    if rows != [] {
      CountsFrom(rows, starts, out, 0);
      assert out[0..] == out;
    }
  }

  // --------------------------------------------------------------------- fuse

  /** A column name as it first comes up. */
  predicate FirstNamed(names: seq<string>, k: nat) {
    k < |names| && names[k] !in names[..k]
  }

  /** `schema` lists the names at the positions where each first comes up. */
  ghost predicate FirstNames(names: seq<string>, schema: seq<string>, idx: seq<nat>) {
    && Picks(idx, |names|, (k: nat) => FirstNamed(names, k))
    && |schema| == |idx| && (forall k :: 0 <= k < |idx| ==> idx[k] < |names| && schema[k] == names[idx[k]])
    && (forall name :: name in schema <==> name in names)
  }

  lemma OneMoreName(names: seq<string>, schema: seq<string>, idx: seq<nat>, name: string) returns (more: seq<nat>)
    requires FirstNames(names, schema, idx)
    ensures FirstNames(names + [name], if name in schema then schema else schema + [name], more)
  {
    var all, n := names + [name], |names|;
    forall k: nat | k < n ensures FirstNamed(all, k) <==> FirstNamed(names, k) {
      assert all[..k] == names[..k];
    }
    assert all[..n] == names;
    var picked: nat -> bool := (k: nat) => FirstNamed(all, k);
    assert Picks(idx, n, picked);
    hide FirstNamed;
    if name in schema {
      PickNone(idx, n + 1, picked);
      more := idx;
    } else {
      PickLast(idx, n + 1, picked);
      more := idx + [n];
    }
    assert Picks(more, |all|, picked);
  }

  lemma {:induction false} TypeCollected(names: seq<string>, schema: seq<string>, idx: seq<nat>, columns: seq<string>) returns (more: seq<nat>)
    requires FirstNames(names, schema, idx)
    ensures FirstNames(names + columns, Mixin(columns, schema), more)
    decreases |columns|
  {
    hide FirstNames;
    if columns == [] {
      more := idx;
      assert names + columns == names;
    } else {
      var first := columns[0];
      var next := OneMoreName(names, schema, idx, first);
      more := TypeCollected(names + [first], if first in schema then schema else schema + [first], next, columns[1..]);
      assert names + columns == names + [first] + columns[1..];
    }
  }

  lemma {:induction false} TypesCollected(names: seq<string>, schema: seq<string>, idx: seq<nat>, types: seq<seq<string>>) returns (more: seq<nat>)
    requires FirstNames(names, schema, idx)
    ensures FirstNames(names + Flatten(types), Schema(types, schema), more)
    decreases |types|
  {
    hide FirstNames;
    if types == [] {
      more := idx;
      assert names + Flatten(types) == names;
    } else {
      var next := TypeCollected(names, schema, idx, types[0]);
      more := TypesCollected(names + types[0], Mixin(types[0], schema), next, types[1..]);
      ConcatAssociative(names, types[0], Flatten(types[1..]));
    }
  }

  /** The types of the records come in the order of their identifiers: known ones first. */
  lemma {:induction false} AmongMeaning(types: seq<seq<string>>, some: seq<seq<string>>) returns (idx: seq<nat>)
    ensures Picks(idx, |types|, (k: nat) => k < |types| && types[k] in some)
    ensures |Among(types, some)| == |idx| && forall k :: 0 <= k < |idx| ==> idx[k] < |types| && Among(types, some)[k] == types[idx[k]]
    decreases |types|
  {
    if types == [] {
      idx := [];
    } else {
      var n := |types|;
      var before := AmongMeaning(types[..n - 1], some);
      AmongLast(types, some);
      var picked: nat -> bool := (k: nat) => k < n && types[k] in some;
      assert Picks(before, n - 1, picked);
      if types[n - 1] in some {
        PickLast(before, n, picked);
        idx := before + [n - 1];
      } else {
        PickNone(before, n, picked);
        idx := before;
      }
    }
  }

  lemma {:induction false} AmongLast(types: seq<seq<string>>, some: seq<seq<string>>)
    requires types != []
    ensures var last := types[|types| - 1];
            Among(types, some) == Among(types[..|types| - 1], some) + if last in some then [last] else []
    decreases |types|
  {
    if |types| == 1 {
      assert types[1..] == [] && types[..0] == [];
    } else {
      AmongLast(types[1..], some);
      assert types[1..][..|types| - 2] == types[..|types| - 1][1..];
    }
  }

  /**
   * Fuse gives every record the columns of all, with its own values or null.  The
   * columns come in the order in which the records' types first name them, known types
   * first.
   */
  lemma FuseMeaning(types: seq<seq<string>>, rows: seq<Row>) returns (schema: seq<string>, idx: seq<nat>)
    ensures FirstNames(Flatten(Among(types, TypesOf(rows)) + TypesOf(rows)), schema, idx)
    ensures |Apply(Fuse(types), rows)| == |rows|
    ensures forall i :: 0 <= i < |rows| ==>
              |Apply(Fuse(types), rows)[i]| == |schema|
              && forall j :: 0 <= j < |schema| ==> Apply(Fuse(types), rows)[i][j] == Column(schema[j], Get(rows[i], schema[j]))
    ensures forall i, name :: 0 <= i < |rows| && Has(rows[i], name) ==> name in schema
  {
    var all := TypesInOrder(types, rows);
    schema := Schema(all, []);
    assert FirstNames([], [], []);
    idx := TypesCollected([], [], [], all);
    assert [] + Flatten(all) == Flatten(all);
    forall i, name | 0 <= i < |rows| && Has(rows[i], name) ensures name in schema {
      var k :| 0 <= k < |rows[i]| && rows[i][k].name == name;
      assert RowNames(rows[i])[k] == name;
      assert all[|Among(types, TypesOf(rows))| + i] == RowNames(rows[i]);
      InFlatten(all, |Among(types, TypesOf(rows))| + i, name);
    }
  }

  lemma {:induction false} InFlatten(parts: seq<seq<string>>, i: nat, x: string)
    requires i < |parts| && x in parts[i]
    ensures x in Flatten(parts)
  {
    if i > 0 {
      InFlatten(parts[1..], i - 1, x);
    }
  }

  // ---------------------------------------------------------------- sort field

  /** The names a proc gives to columns. */
  function GivenNames(p: Proc): set<string> {
    match p
    case Cut(complement, fields) =>
      if complement then {} else set i | 0 <= i < |fields| && fields[i].target != "" :: fields[i].target
    case Put(clauses) => set i | 0 <= i < |clauses| :: clauses[i].target
    case Rename(renames) => set i | 0 <= i < |renames| :: renames[i].target
    case _ => {}
  }

  /** The names of columns a cut keeps under their name. */
  function KeptNames(fields: seq<Assign>): set<string> {
    set i | 0 <= i < |fields| && fields[i].target == "" :: fields[i].source
  }

  /**
   * A proc has to come after the merge when it gives another column the sort field's
   * name, or is a cut that does not keep the sort field; a cut may give the sort field
   * its own name besides keeping it.
   */
  lemma MergeNeeded(p: Proc, field: string)
    requires field != ""
    ensures p.Put? || p.Rename? ==> (MustMergeBefore(p, field) <==> field in GivenNames(p))
    ensures p.Cut? && p.complement ==> (MustMergeBefore(p, field) <==> Named(p.fields, field))
    ensures p.Cut? && !p.complement ==>
              (MustMergeBefore(p, field) <==>
               field !in KeptNames(p.fields) || exists f :: f in p.fields && f.source != field && f.target == field)
    ensures !p.Put? && !p.Rename? && !p.Cut? ==> !MustMergeBefore(p, field)
  {
  }

  /** The order of the sort field: by number, null last; and backwards in reverse. */
  lemma KeyOrder(a: Option<int>, b: Option<int>)
    ensures Before(false, a, b) <==> a.Some? && (b.None? || a.value < b.value)
    ensures Before(true, a, b) <==> Before(false, b, a)
  {
  }
}
