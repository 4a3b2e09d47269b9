/**
 * Writing fields with dotted names as nested records (proc/colbuilder.go): which lists
 * of names are accepted, and that the records built hold the fields as named.
 */
module ColumnBuilders {
  import opened Bytes
  import opened Fields
  import opened Zcode

  /** A dotted name taken apart: the records it goes through and the leaf. */
  type Path = seq<ByteString>

  function RecordOf(p: Path): Path
    requires p != []
  {
    p[..|p| - 1]
  }

  function LeafName(p: Path): ByteString
    requires p != []
  {
    p[|p| - 1]
  }

  /** What to open before a field and close after it. */
  datatype FieldInfo = FieldInfo(name: ByteString, path: Path, begins: seq<ByteString>, ends: nat)

  datatype Error = NonAdjacent(record: Path) | Duplicate(field: Path)

  // ---------------------------------------------------------- accepted field lists

  /** No field is another one or a record another one is in. */
  ghost predicate PrefixFree(fields: seq<Path>) {
    forall i, j :: 0 <= i < j < |fields| ==> !(fields[i] <= fields[j]) && !(fields[j] <= fields[i])
  }

  /** The field is inside record `r`. */
  predicate InRecord(r: Path, field: Path) {
    r != [] && r < field
  }

  /** The fields of each record stand next to each other. */
  ghost predicate Contiguous(fields: seq<Path>) {
    forall i, j, k, r :: 0 <= i < j < k < |fields| && InRecord(r, fields[i]) && InRecord(r, fields[k]) ==> InRecord(r, fields[j])
  }

  ghost predicate Acceptable(fields: seq<Path>) {
    PrefixFree(fields) && Contiguous(fields)
  }

  /** The brackets of a field when the records `before` are open. */
  predicate InfoFits(info: FieldInfo, field: Path, before: Path)
  {
    && field != [] && info.path == field && info.name == LeafName(field)
    && before + info.begins == RecordOf(field) && info.ends <= |field| - 1
  }

  /** The records open after a field. */
  function OpenAfter(info: FieldInfo, field: Path): Path {
    if field == [] || info.ends > |field| - 1 then [] else RecordOf(field)[..|field| - 1 - info.ends]
  }

  /** The records open before field `i`. */
  function OpenBefore(infos: seq<FieldInfo>, fields: seq<Path>, i: nat): Path
    requires i <= |fields| && i <= |infos|
  {
    if i == 0 then [] else OpenAfter(infos[i - 1], fields[i - 1])
  }

  /** Every field is written with the records of its name open, and no other. */
  ghost predicate InfosFit(infos: seq<FieldInfo>, fields: seq<Path>) {
    |infos| <= |fields| && forall k :: 0 <= k < |infos| ==> FitsAt(infos, fields, k)
  }

  ghost predicate FitsAt(infos: seq<FieldInfo>, fields: seq<Path>, k: nat)
    requires k < |infos| <= |fields|
  {
    && InfoFits(infos[k], fields[k], OpenBefore(infos, fields, k))
    && Tight(infos[k], OpenBefore(infos, fields, k), RecordBefore(fields, k))
  }

  /** The record that the field before field `i` is in. */
  function RecordBefore(fields: seq<Path>, i: nat): Path {
    if i == 0 || i > |fields| || fields[i - 1] == [] then [] else RecordOf(fields[i - 1])
  }

  /** No record that could have stayed open was closed. */
  predicate Tight(info: FieldInfo, before: Path, last: Path) {
    info.begins != [] ==> !(before + [info.begins[0]] <= last)
  }

  lemma SameFit(a: seq<FieldInfo>, b: seq<FieldInfo>, fields: seq<Path>, k: nat)
    requires k < |a| <= |fields| && k < |b| <= |fields| && FitsAt(a, fields, k)
    requires b[k] == a[k] && (k > 0 ==> b[k - 1] == a[k - 1])
    ensures FitsAt(b, fields, k)
  {
  }

  // -------------------------------------------------------------- building the infos

  /** Length of the common prefix of two paths. */
  method CommonPrefix(a: Path, b: Path) returns (pos: nat)
    ensures pos <= |a| && pos <= |b| && a[..pos] == b[..pos]
    ensures pos < |a| && pos < |b| ==> a[pos] != b[pos]
  {
    var l := if |a| < |b| then |a| else |b|;
    pos := 0;
    while pos < l
      invariant pos <= l && a[..pos] == b[..pos]
    {
      if a[pos] != b[pos] {
        break;
      }
      pos := pos + 1;
    }
  }

  /** Whether the field is one of those already there, or a record of one, or in one. */
  method IsIn(field: Path, infos: seq<FieldInfo>) returns (r: bool)
    ensures r <==> exists k :: 0 <= k < |infos| && (infos[k].path <= field || field <= infos[k].path)
  {
    for k := 0 to |infos|
      invariant forall m :: 0 <= m < k ==> !(infos[m].path <= field) && !(field <= infos[m].path)
    {
      if infos[k].path <= field || field <= infos[k].path {
        return true;
      }
    }
    r := false;
  }

  /** The records seen are those the fields go through. */
  ghost predicate SeenOk(fields: seq<Path>, seen: set<Path>) {
    forall r :: r in seen <==> exists k :: 0 <= k < |fields| && InRecord(r, fields[k])
  }

  /** The record is one of those opened when `record` is entered with `pos` of its names open. */
  predicate NewlyOpened(r: Path, record: Path, pos: nat) {
    r <= record && pos < |r|
  }

  /** Opens the records of a field that are not open yet; an error when one was opened before. */
  method OpenRecords(record: Path, pos: nat, seen: set<Path>) returns (r: Result<seq<ByteString>, Path>, seen': set<Path>)
    requires pos <= |record|
    ensures match r
            case Ok(begins) =>
              && begins == record[pos..]
              && (forall p :: p in seen' <==> p in seen || NewlyOpened(p, record, pos))
              && (forall p :: NewlyOpened(p, record, pos) ==> p !in seen)
            case Err(p) => NewlyOpened(p, record, pos) && p in seen
  {
    seen' := seen;
    var begins: seq<ByteString> := [];
    for pos2 := pos to |record|
      invariant begins == record[pos..pos2]
      invariant forall p :: p in seen' <==> p in seen || (NewlyOpened(p, record, pos) && |p| <= pos2)
      invariant forall p :: NewlyOpened(p, record, pos) && |p| <= pos2 ==> p !in seen
    {
      var recname := record[..pos2 + 1];
      assert NewlyOpened(recname, record, pos);
      if recname in seen' {
        return Err(recname), seen;
      }
      forall p | NewlyOpened(p, record, pos) && |p| == pos2 + 1 ensures p == recname {}
      seen' := seen' + {recname};
      begins := begins + [record[pos2]];
    }
    assert record[pos..|record|] == record[pos..];
    r := Ok(begins);
  }

  /** Leaves the records the field is not in and opens those it is in. */
  method EnterRecord(record: Path, current: Path, infos: seq<FieldInfo>, seen: set<Path>)
    returns (r: Result<seq<ByteString>, Path>, patched: seq<FieldInfo>, seen': set<Path>, ghost pos: nat)
    requires infos != [] ==> infos[|infos| - 1].ends == 0
    ensures pos <= |record| && pos <= |current| && record[..pos] == current[..pos]
    ensures pos < |record| && pos < |current| ==> record[pos] != current[pos]
    ensures patched == Patched(infos, |current| - pos)
    ensures match r
            case Ok(begins) =>
              && begins == record[pos..]
              && (forall p :: p in seen' <==> p in seen || NewlyOpened(p, record, pos))
              && (forall p :: NewlyOpened(p, record, pos) ==> p !in seen)
            case Err(p) => NewlyOpened(p, record, pos) && p in seen
  {
    patched, seen', pos := infos, seen, |record|;
    if record == current {
      return Ok([]), patched, seen', pos;
    }
    var p := CommonPrefix(record, current);
    pos := p;
    patched := PatchLast(infos, |current| - p);
    r, seen' := OpenRecords(record, p, seen);
  }

  /** Field `i` goes back into a record that the field before it has left. */
  ghost predicate ReopensAt(fields: seq<Path>, i: nat, r: Path) {
    0 < i < |fields| && InRecord(r, fields[i]) && !InRecord(r, fields[i - 1])
    && exists k :: 0 <= k < i - 1 && InRecord(r, fields[k])
  }

  /** Field `i` is an earlier field, or a record it is in, or is in it as in a record. */
  ghost predicate RepeatsAt(fields: seq<Path>, i: nat) {
    i < |fields| && exists k :: 0 <= k < i && (fields[k] <= fields[i] || fields[i] <= fields[k])
  }

  /** Field `i` is the first that cannot be accepted, for this reason. */
  ghost predicate FailsAt(fields: seq<Path>, i: nat, e: Error) {
    && i < |fields| && Acceptable(fields[..i])
    && match e
       case NonAdjacent(r) => ReopensAt(fields, i, r)
       case Duplicate(f) => f == fields[i] && RepeatsAt(fields, i)
  }

  /** Works out the brackets, refusing lists that would repeat a field or reopen a record. */
  method NewColumnBuilder(fields: seq<Path>) returns (r: Result<seq<FieldInfo>, Error>)
    requires forall k :: 0 <= k < |fields| ==> fields[k] != []
    ensures r.Ok? <==> Acceptable(fields)
    ensures r.Ok? ==> |r.value| == |fields| && InfosFit(r.value, fields) && OpenBefore(r.value, fields, |fields|) == []
    ensures r.Err? ==> exists i: nat :: FailsAt(fields, i, r.error)
  {
    hide InfosFit, Acceptable, ReopensAt, RepeatsAt, SeenOk, InfoFits, NewlyOpened, OpenBefore, OpenAfter, InRecord, Patched;
    var infos: seq<FieldInfo> := [];
    var seen: set<Path> := {};
    var current: Path := [];
    Nothing(fields);
    for i := 0 to |fields|
      invariant Progress(fields, i, infos, seen, current)
    {
      var field := fields[i];
      var record := RecordOf(field);
      ghost var before, seenBefore := infos, seen;
      var entered, patched, seen', pos := EnterRecord(record, current, infos, seen);
      if entered.Err? {
        Reopened(fields, i, before, seenBefore, current, pos, entered.error);
        assert FailsAt(fields, i, NonAdjacent(entered.error));
        return Err(NonAdjacent(entered.error));
      }
      var dup := IsIn(field, patched);
      if dup {
        Repeated(fields, i, before, patched, |current| - pos);
        assert FailsAt(fields, i, Duplicate(field));
        return Err(Duplicate(field));
      }
      infos, seen, current := patched + [FieldInfo(LeafName(field), field, entered.value, 0)], seen', record;
      OneMoreField(fields, i, before, seenBefore, pos, patched, seen, entered.value);
    }
    ghost var open := infos;
    infos := PatchLast(infos, |current|);
    AllClosed(fields, open, seen, current, infos);
    r := Ok(infos);
  }

  /** Tells the last field how many records to close. */
  method PatchLast(infos: seq<FieldInfo>, ends: nat) returns (patched: seq<FieldInfo>)
    ensures patched == Patched(infos, ends)
  {
    patched := infos;
    if |infos| > 0 {
      patched := infos[|infos| - 1 := infos[|infos| - 1].(ends := ends)];
    }
  }

  /** What is known after `i` fields: the last one closes nothing yet. */
  ghost predicate Progress(fields: seq<Path>, i: nat, infos: seq<FieldInfo>, seen: set<Path>, current: Path) {
    && i == |infos| <= |fields| && (forall k :: 0 <= k < |fields| ==> fields[k] != [])
    && InfosFit(infos, fields) && SeenOk(fields[..i], seen) && Acceptable(fields[..i])
    && current == RecordBefore(fields, i)
    && (i > 0 ==> infos[i - 1].ends == 0)
  }

  lemma Nothing(fields: seq<Path>)
    requires forall k :: 0 <= k < |fields| ==> fields[k] != []
    ensures Progress(fields, 0, [], {}, [])
  {
  }

  /** The infos after the last one was told how many records to close. */
  function Patched(infos: seq<FieldInfo>, ends: nat): seq<FieldInfo> {
    if infos == [] then [] else infos[|infos| - 1 := infos[|infos| - 1].(ends := ends)]
  }

  /** Changing how many records are closed after the last field keeps the rest. */
  lemma PatchedFits(infos: seq<FieldInfo>, fields: seq<Path>, ends: nat)
    requires InfosFit(infos, fields) && infos != [] && ends <= |fields[|infos| - 1]| - 1
    ensures InfosFit(Patched(infos, ends), fields)
  {
    var after, last := Patched(infos, ends), |infos| - 1;
    assert FitsAt(infos, fields, last);
    PatchedFit(infos[last], fields[last], OpenBefore(infos, fields, last), ends);
    assert FitsAt(after, fields, last);
    hide FitsAt;
    forall k | 0 <= k < last ensures FitsAt(after, fields, k) {
      SameFit(infos, after, fields, k);
    }
  }

  lemma PatchedFit(info: FieldInfo, field: Path, before: Path, ends: nat)
    requires InfoFits(info, field, before) && ends <= |field| - 1
    ensures InfoFits(info.(ends := ends), field, before)
  {
  }

  /** A record is part of a field's name when it is a prefix of the record the field is in. */
  lemma InRecordOf(r: Path, field: Path)
    requires field != []
    ensures InRecord(r, field) <==> r != [] && r <= RecordOf(field)
  {
    if r != [] && r <= RecordOf(field) {
      assert field[..|r|] == RecordOf(field)[..|r|];
    }
  }

  /** A record opened a second time has a field outside it in between. */
  lemma Reopened(fields: seq<Path>, i: nat, infos: seq<FieldInfo>, seen: set<Path>, current: Path, pos: nat, r: Path)
    requires Progress(fields, i, infos, seen, current) && i < |fields|
    requires NewlyOpened(r, RecordOf(fields[i]), pos) && r in seen
    requires pos <= |current| && pos <= |RecordOf(fields[i])|
    requires pos < |current| && pos < |RecordOf(fields[i])| ==> RecordOf(fields[i])[pos] != current[pos]
    ensures !Acceptable(fields) && ReopensAt(fields, i, r)
  {
    var k := SeenAt(fields, i, seen, r);
    NotOpen(RecordOf(fields[i]), current, pos, r);
    InRecordOf(r, fields[i]);
    InRecordOf(r, fields[i - 1]);
    hide InfosFit, SeenOk, RecordOf, InRecord, PrefixFree;
    assert InRecord(r, fields[k]) && !InRecord(r, fields[i - 1]) && InRecord(r, fields[i]);
    assert k < i - 1;
  }

  lemma SeenAt(fields: seq<Path>, i: nat, seen: set<Path>, r: Path) returns (k: nat)
    requires i <= |fields| && SeenOk(fields[..i], seen) && r in seen
    ensures k < i && InRecord(r, fields[k])
  {
    k :| 0 <= k < i && InRecord(r, fields[..i][k]);
    assert fields[..i][k] == fields[k];
  }

  lemma NotOpen(record: Path, current: Path, pos: nat, r: Path)
    requires NewlyOpened(r, record, pos) && pos <= |current|
    requires pos < |current| ==> record[pos] != current[pos]
    ensures !(r <= current)
  {
    assert r[pos] == record[pos];
  }

  /** A field found among the others makes the list unacceptable. */
  lemma Repeated(fields: seq<Path>, i: nat, infos: seq<FieldInfo>, patched: seq<FieldInfo>, ends: nat)
    requires i < |fields| && i == |infos| && InfosFit(infos, fields) && patched == Patched(infos, ends)
    requires exists k :: 0 <= k < |patched| && (patched[k].path <= fields[i] || fields[i] <= patched[k].path)
    ensures !Acceptable(fields) && RepeatsAt(fields, i)
  {
    var k :| 0 <= k < |patched| && (patched[k].path <= fields[i] || fields[i] <= patched[k].path);
    hide OpenBefore;
    assert FitsAt(infos, fields, k);
    assert patched[k].path == fields[k];
  }

  /** How a step gets from the state before a field to that after it. */
  ghost predicate StepTaken(fields: seq<Path>, i: nat, infos: seq<FieldInfo>, seen: set<Path>, pos: nat,
                            patched: seq<FieldInfo>, seen': set<Path>, begins: seq<ByteString>)
    requires i < |fields| && forall k :: 0 <= k < |fields| ==> fields[k] != []
  {
    var current, record := RecordBefore(fields, i), RecordOf(fields[i]);
    && pos <= |current| && pos <= |record| && record[..pos] == current[..pos]
    && (pos < |record| && pos < |current| ==> record[pos] != current[pos])
    && patched == Patched(infos, |current| - pos) && begins == record[pos..]
    && (forall p :: p in seen' <==> p in seen || NewlyOpened(p, record, pos))
    && (forall p :: NewlyOpened(p, record, pos) ==> p !in seen)
    && (forall k :: 0 <= k < |patched| ==> !(patched[k].path <= fields[i]) && !(fields[i] <= patched[k].path))
  }

  lemma OneMoreField(fields: seq<Path>, i: nat, infos: seq<FieldInfo>, seen: set<Path>, pos: nat,
                     patched: seq<FieldInfo>, seen': set<Path>, begins: seq<ByteString>)
    requires i < |fields| && Progress(fields, i, infos, seen, RecordBefore(fields, i))
    requires StepTaken(fields, i, infos, seen, pos, patched, seen', begins)
    ensures Progress(fields, i + 1, patched + [FieldInfo(LeafName(fields[i]), fields[i], begins, 0)], seen', RecordOf(fields[i]))
  {
    hide InfosFit, SeenOk, Acceptable;
    MoreFits(fields, i, infos, seen, pos, patched, seen', begins);
    MoreSeen(fields, i, infos, seen, pos, patched, seen', begins);
    MoreAcceptable(fields, i, infos, seen, pos, patched, seen', begins);
  }

  lemma MoreFits(fields: seq<Path>, i: nat, infos: seq<FieldInfo>, seen: set<Path>, pos: nat,
                 patched: seq<FieldInfo>, seen': set<Path>, begins: seq<ByteString>)
    requires i < |fields| && Progress(fields, i, infos, seen, RecordBefore(fields, i))
    requires StepTaken(fields, i, infos, seen, pos, patched, seen', begins)
    ensures InfosFit(patched + [FieldInfo(LeafName(fields[i]), fields[i], begins, 0)], fields)
  {
    hide SeenOk, Acceptable, NewlyOpened, InfoFits, InfosFit;
    var current, record := RecordBefore(fields, i), RecordOf(fields[i]);
    var info := FieldInfo(LeafName(fields[i]), fields[i], begins, 0);
    if i > 0 {
      PatchedFits(infos, fields, |current| - pos);
      assert OpenBefore(patched, fields, i) == current[..pos];
    } else {
      assert patched == infos && current[..pos] == [];
    }
    assert record == record[..pos] + record[pos..];
    NewFits(info, fields[i], current[..pos]);
    NewTight(info, record, current, pos);
    FitsSnoc(patched, fields, info);
  }

  lemma FitsSnoc(infos: seq<FieldInfo>, fields: seq<Path>, info: FieldInfo)
    requires InfosFit(infos, fields) && |infos| < |fields|
    requires InfoFits(info, fields[|infos|], OpenBefore(infos, fields, |infos|))
    requires Tight(info, OpenBefore(infos, fields, |infos|), RecordBefore(fields, |infos|))
    ensures InfosFit(infos + [info], fields)
  {
    hide InfoFits, OpenAfter;
    var after := infos + [info];
    assert FitsAt(after, fields, |infos|);
    hide FitsAt;
    forall k | 0 <= k < |infos| ensures FitsAt(after, fields, k) {
      SameFit(infos, after, fields, k);
    }
  }

  lemma NewTight(info: FieldInfo, record: Path, current: Path, pos: nat)
    requires pos <= |record| && pos <= |current| && info.begins == record[pos..]
    requires pos < |record| && pos < |current| ==> record[pos] != current[pos]
    ensures Tight(info, current[..pos], current)
  {
    if pos < |record| {
      var longer := current[..pos] + [record[pos]];
      assert longer[pos] == record[pos];
    }
  }

  lemma NewFits(info: FieldInfo, field: Path, before: Path)
    requires field != [] && info == FieldInfo(LeafName(field), field, info.begins, 0) && before + info.begins == RecordOf(field)
    ensures InfoFits(info, field, before)
  {
  }

  lemma MoreSeen(fields: seq<Path>, i: nat, infos: seq<FieldInfo>, seen: set<Path>, pos: nat,
                 patched: seq<FieldInfo>, seen': set<Path>, begins: seq<ByteString>)
    requires i < |fields| && Progress(fields, i, infos, seen, RecordBefore(fields, i))
    requires StepTaken(fields, i, infos, seen, pos, patched, seen', begins)
    ensures SeenOk(fields[..i + 1], seen')
  {
    hide InfosFit, Acceptable, InfoFits;
    var upTo := fields[..i + 1];
    forall r ensures r in seen' <==> exists k :: 0 <= k < |upTo| && InRecord(r, upTo[k]) {
      InRecordOf(r, fields[i]);
      if r in seen {
        var k :| 0 <= k < i && InRecord(r, fields[..i][k]);
        assert upTo[k] == fields[..i][k];
      }
      if NewlyOpened(r, RecordOf(fields[i]), pos) {
        assert InRecord(r, upTo[i]);
      }
      if k :| 0 <= k < |upTo| && InRecord(r, upTo[k]) {
        if k < i {
          assert InRecord(r, fields[..i][k]);
        } else if |r| <= pos {
          SeenBefore(fields, i, infos, seen, pos, patched, seen', begins, r);
        }
      }
    }
  }

  /** A record that was open already has been seen. */
  lemma SeenBefore(fields: seq<Path>, i: nat, infos: seq<FieldInfo>, seen: set<Path>, pos: nat,
                   patched: seq<FieldInfo>, seen': set<Path>, begins: seq<ByteString>, r: Path)
    requires i < |fields| && Progress(fields, i, infos, seen, RecordBefore(fields, i))
    requires StepTaken(fields, i, infos, seen, pos, patched, seen', begins)
    requires InRecord(r, fields[i]) && |r| <= pos
    ensures i > 0 && InRecord(r, fields[i - 1]) && r in seen
  {
    hide InfosFit, Acceptable, InfoFits;
    InRecordOf(r, fields[i]);
    var record := RecordOf(fields[i]);
    assert r == record[..pos][..|r|];
    assert i > 0;
    var current := RecordOf(fields[i - 1]);
    assert r == current[..pos][..|r|] && r <= current;
    InRecordOf(r, fields[i - 1]);
    assert InRecord(r, fields[..i][i - 1]);
  }

  lemma MoreAcceptable(fields: seq<Path>, i: nat, infos: seq<FieldInfo>, seen: set<Path>, pos: nat,
                       patched: seq<FieldInfo>, seen': set<Path>, begins: seq<ByteString>)
    requires i < |fields| && Progress(fields, i, infos, seen, RecordBefore(fields, i))
    requires StepTaken(fields, i, infos, seen, pos, patched, seen', begins)
    ensures Acceptable(fields[..i + 1])
  {
    hide InfosFit, SeenOk, NewlyOpened, InfoFits;
    StillPrefixFree(fields, i, infos, seen, pos, patched, seen', begins);
    StillContiguous(fields, i, infos, seen, pos, patched, seen', begins);
  }

  lemma StillPrefixFree(fields: seq<Path>, i: nat, infos: seq<FieldInfo>, seen: set<Path>, pos: nat,
                        patched: seq<FieldInfo>, seen': set<Path>, begins: seq<ByteString>)
    requires i < |fields| && Progress(fields, i, infos, seen, RecordBefore(fields, i))
    requires StepTaken(fields, i, infos, seen, pos, patched, seen', begins)
    ensures PrefixFree(fields[..i + 1])
  {
    hide SeenOk, NewlyOpened, Contiguous, InfosFit, RecordBefore, RecordOf;
    var upTo, before := fields[..i + 1], fields[..i];
    forall a, b | 0 <= a < b < |upTo| ensures !(upTo[a] <= upTo[b]) && !(upTo[b] <= upTo[a]) {
      assert upTo[a] == before[a];
      if b < i {
        assert upTo[b] == before[b];
      } else {
        PathKept(infos, fields, patched, a);
      }
    }
  }

  lemma PathKept(infos: seq<FieldInfo>, fields: seq<Path>, patched: seq<FieldInfo>, a: nat)
    requires InfosFit(infos, fields) && a < |infos|
    requires exists ends: nat :: patched == Patched(infos, ends)
    ensures a < |patched| && patched[a].path == fields[a]
  {
    hide OpenBefore;
    assert FitsAt(infos, fields, a);
  }

  lemma StillContiguous(fields: seq<Path>, i: nat, infos: seq<FieldInfo>, seen: set<Path>, pos: nat,
                        patched: seq<FieldInfo>, seen': set<Path>, begins: seq<ByteString>)
    requires i < |fields| && Progress(fields, i, infos, seen, RecordBefore(fields, i))
    requires StepTaken(fields, i, infos, seen, pos, patched, seen', begins)
    ensures Contiguous(fields[..i + 1])
  {
    hide InfosFit, SeenOk, NewlyOpened, InfoFits, InRecord, PrefixFree, Patched;
    var upTo, before := fields[..i + 1], fields[..i];
    forall a, b, c, r | 0 <= a < b < c < |upTo| && InRecord(r, upTo[a]) && InRecord(r, upTo[c]) ensures InRecord(r, upTo[b]) {
      assert upTo[a] == before[a] == fields[a] && upTo[b] == before[b] == fields[b];
      if c < i {
        assert upTo[c] == before[c];
      } else {
        StaysTogether(fields, i, infos, seen, pos, patched, seen', begins, a, b, r);
      }
    }
  }

  lemma StaysTogether(fields: seq<Path>, i: nat, infos: seq<FieldInfo>, seen: set<Path>, pos: nat,
                      patched: seq<FieldInfo>, seen': set<Path>, begins: seq<ByteString>, a: nat, b: nat, r: Path)
    requires i < |fields| && Progress(fields, i, infos, seen, RecordBefore(fields, i))
    requires StepTaken(fields, i, infos, seen, pos, patched, seen', begins)
    requires a < b < i && InRecord(r, fields[a]) && InRecord(r, fields[i])
    ensures InRecord(r, fields[b])
  {
    hide InfosFit, InfoFits;
    InRecordOf(r, fields[i]);
    assert r in seen by {
      assert InRecord(r, fields[..i][a]);
    }
    assert !NewlyOpened(r, RecordOf(fields[i]), pos);
    SeenBefore(fields, i, infos, seen, pos, patched, seen', begins, r);
    if b < i - 1 {
      assert Contiguous(fields[..i]) && fields[..i][a] == fields[a] && fields[..i][b] == fields[b] && fields[..i][i - 1] == fields[i - 1];
    }
  }

  /** After the last field all records are closed. */
  lemma AllClosed(fields: seq<Path>, infos: seq<FieldInfo>, seen: set<Path>, current: Path, patched: seq<FieldInfo>)
    requires Progress(fields, |fields|, infos, seen, current) && patched == Patched(infos, |current|)
    ensures |patched| == |fields| && Acceptable(fields) && InfosFit(patched, fields) && OpenBefore(patched, fields, |fields|) == []
  {
    hide InfosFit, SeenOk, Acceptable, InfoFits;
    assert fields[..|fields|] == fields;
    if infos != [] {
      PatchedFits(infos, fields, |current|);
    }
  }

  // ------------------------------------------------------- the records being built

  /** A record being built: its name, the columns it has so far and their values. */
  datatype Frame = Frame(name: ByteString, cols: seq<Column>, vals: seq<Value>)

  function Opened(frames: seq<Frame>, names: seq<ByteString>): (r: seq<Frame>)
    ensures |r| == |frames| + |names|
    decreases |names|
  {
    if names == [] then frames else Opened(frames + [Frame(names[0], [], [])], names[1..])
  }

  function WithColumn(frames: seq<Frame>, c: Column, v: Value): (r: seq<Frame>)
    requires |frames| > 0
    ensures |r| == |frames|
  {
    var top := frames[|frames| - 1];
    frames[..|frames| - 1] + [Frame(top.name, top.cols + [c], top.vals + [v])]
  }

  function ClosedOne(frames: seq<Frame>): (r: seq<Frame>)
    requires |frames| > 1
    ensures |r| == |frames| - 1
  {
    var top := frames[|frames| - 1];
    WithColumn(frames[..|frames| - 1], Column(top.name, RecordType(top.cols)), Container(top.vals))
  }

  function Closed(frames: seq<Frame>, n: nat): (r: seq<Frame>)
    requires |frames| > n
    ensures |r| == |frames| - n
    decreases n
  {
    if n == 0 then frames else Closed(ClosedOne(frames), n - 1)
  }

  /** The frames after a field and its brackets. */
  function Placed(frames: seq<Frame>, info: FieldInfo, typ: Type, v: Value): seq<Frame>
    requires |frames| > 0 && |frames| + |info.begins| > info.ends
  {
    Closed(WithColumn(Opened(frames, info.begins), Column(info.name, typ), v), info.ends)
  }

  /** The frames are the records of this path, and their values fit their columns. */
  ghost predicate FramesOk(frames: seq<Frame>, open: Path) {
    && |frames| == |open| + 1
    && (forall k :: 0 <= k < |open| ==> frames[k + 1].name == open[k])
    && forall k :: 0 <= k < |frames| ==> ConformsAll(frames[k].vals, frames[k].cols)
  }

  /** Dotted name of the innermost of these records. */
  function OuterName(open: Path): ByteString {
    if open == [] then [] else FieldName(OuterName(open[..|open| - 1]), open[|open| - 1])
  }

  /** The name under which a field is found again. */
  function DottedName(p: Path): ByteString
    requires p != []
  {
    FieldName(OuterName(RecordOf(p)), LeafName(p))
  }

  function Join(p: Path): ByteString {
    if p == [] then []
    else if |p| == 1 then p[0]
    else Join(p[..|p| - 1]) + [DOT] + p[|p| - 1]
  }

  /** The field is found under its own dotted name exactly when no empty record name leads it. */
  lemma {:induction false} DottedNameIsJoin(p: Path)
    requires p != []
    ensures DottedName(p) == Join(p) <==> |p| == 1 || p[0] != []
    ensures |p| == 1 || p[0] != [] ==> OuterName(p) == Join(p)
    ensures |OuterName(p)| <= |Join(p)|
  {
    if |p| > 1 {
      DottedNameIsJoin(p[..|p| - 1]);
      if p[0] != [] {
        JoinStarts(p[..|p| - 1]);
      }
    }
  }

  lemma {:induction false} JoinStarts(p: Path)
    requires p != [] && p[0] != []
    ensures Join(p) != []
  {
    if |p| > 1 {
      JoinStarts(p[..|p| - 1]);
    }
  }

  /** A name taken apart at its dots. */
  function Split(name: ByteString): (p: Path)
    ensures p != []
  {
    if name == [] then [[]]
    else
      var rest := Split(name[1..]);
      if name[0] == DOT then [[]] + rest else [[name[0]] + rest[0]] + rest[1..]
  }

  lemma {:induction false} JoinFirst(first: ByteString, rest: Path)
    requires rest != []
    ensures Join([first] + rest) == first + [DOT] + Join(rest)
  {
    var p, last := [first] + rest, |rest| - 1;
    assert p[..|p| - 1] == [first] + rest[..last];
    if last > 0 {
      JoinFirst(first, rest[..last]);
      var more := [DOT] + rest[last];
      assert first + [DOT] + Join(rest[..last]) + more == first + [DOT] + (Join(rest[..last]) + more);
    }
  }

  /** Joining what a name was split into gives the name back. */
  lemma {:induction false} JoinOfSplit(name: ByteString)
    ensures Join(Split(name)) == name
  {
    if name != [] {
      var rest := Split(name[1..]);
      JoinOfSplit(name[1..]);
      assert name == [name[0]] + name[1..];
      if name[0] == DOT {
        JoinFirst([], rest);
      } else if |rest| > 1 {
        var c, more := [name[0]], rest[1..];
        assert rest == [rest[0]] + more;
        JoinFirst(rest[0], more);
        JoinFirst(c + rest[0], more);
        assert c + rest[0] + [DOT] + Join(more) == c + (rest[0] + [DOT] + Join(more));
      }
    }
  }

  lemma SplitStarts(name: ByteString)
    ensures |Split(name)| == 1 || Split(name)[0] != [] <==> name == [] || name[0] != DOT
  {
  }

  /** A field is found under the name it was given by exactly when that does not start with a dot. */
  lemma FoundByName(name: ByteString)
    ensures DottedName(Split(name)) == name <==> name == [] || name[0] != DOT
  {
    JoinOfSplit(name);
    DottedNameIsJoin(Split(name));
    SplitStarts(name);
  }

  /** ".a" is found as "a". */
  lemma LeadingDotIsLost(a: Byte)
    requires a != '.' as int
    ensures var name: ByteString := ['.' as int, a];
            Split(name) == [[], [a]] && DottedName(Split(name)) == [a] && Join(Split(name)) == name
  {
    assert [DOT, a][1..] == [a] && [a][1..] == [];
    assert Split([]) == [[]] && [a] + [] == [a] && [[a]] + [[]][1..] == [[a]];
    assert Split([a]) == [[a]];
    JoinOfSplit([DOT, a]);
    assert RecordOf([[], [a]]) == [[]] && OuterName([[]]) == [];
  }

  /** The leaves in all open records, outermost first. */
  ghost function StackWalk(frames: seq<Frame>, open: Path): Walk
    requires FramesOk(frames, open)
    decreases |frames|
  {
    var top := frames[|frames| - 1];
    if open == [] then Leaves(top.vals, top.cols, [])
    else
      InnerFrames(frames, open);
      Then(StackWalk(frames[..|frames| - 1], open[..|open| - 1]), Leaves(top.vals, top.cols, OuterName(open)))
  }

  lemma InnerFrames(frames: seq<Frame>, open: Path)
    requires FramesOk(frames, open) && open != []
    ensures FramesOk(frames[..|frames| - 1], open[..|open| - 1])
  {
  }

  lemma {:induction false} LeavesSnoc(vs: seq<Value>, cols: seq<Column>, v: Value, c: Column, outer: ByteString)
    requires |vs| == |cols|
    ensures Leaves(vs + [v], cols + [c], outer) == Then(Leaves(vs, cols, outer), Leaves([v], [c], outer))
    decreases |vs|
  {
    if vs == [] {
      assert vs + [v] == [v] && cols + [c] == [c];
    } else {
      LeavesSnoc(vs[1..], cols[1..], v, c, outer);
      LeavesNext(vs + [v], cols + [c], outer);
      LeavesNext(vs, cols, outer);
      assert (vs + [v])[1..] == vs[1..] + [v] && (cols + [c])[1..] == cols[1..] + [c];
      FirstSame(vs, cols, v, c, outer);
      hide Leaves, FirstLeaves;
      ThenAssociative(FirstLeaves(vs, cols, outer), Leaves(vs[1..], cols[1..], outer), Leaves([v], [c], outer));
    }
  }

  lemma LeavesNext(vs: seq<Value>, cols: seq<Column>, outer: ByteString)
    requires |vs| == |cols| > 0
    ensures Leaves(vs, cols, outer) == Then(FirstLeaves(vs, cols, outer), Leaves(vs[1..], cols[1..], outer))
  {
  }

  lemma FirstSame(vs: seq<Value>, cols: seq<Column>, v: Value, c: Column, outer: ByteString)
    requires |vs| == |cols| > 0
    ensures FirstLeaves(vs + [v], cols + [c], outer) == FirstLeaves(vs, cols, outer)
  {
  }

  lemma LeavesOfOne(v: Value, c: Column, outer: ByteString)
    ensures Leaves([v], [c], outer) == FirstLeaves([v], [c], outer)
  {
    assert [v][1..] == [] && [c][1..] == [];
    LeavesNext([v], [c], outer);
    var w := FirstLeaves([v], [c], outer);
    assert w.leaves + [] == w.leaves;
  }

  lemma StackWalkTop(frames: seq<Frame>, open: Path)
    requires FramesOk(frames, open)
    ensures open == [] ==> StackWalk(frames, open) == Leaves(frames[|frames| - 1].vals, frames[|frames| - 1].cols, [])
    ensures open != [] ==> FramesOk(frames[..|frames| - 1], open[..|open| - 1])
    ensures open != [] ==>
              StackWalk(frames, open) == Then(StackWalk(frames[..|frames| - 1], open[..|open| - 1]),
                                              Leaves(frames[|frames| - 1].vals, frames[|frames| - 1].cols, OuterName(open)))
  {
    if open != [] {
      InnerFrames(frames, open);
    }
  }

  /** A record just opened holds no leaves. */
  lemma BeginKeepsLeaves(frames: seq<Frame>, open: Path, name: ByteString)
    requires FramesOk(frames, open)
    ensures FramesOk(frames + [Frame(name, [], [])], open + [name])
    ensures StackWalk(frames, open).ok ==> StackWalk(frames + [Frame(name, [], [])], open + [name]) == StackWalk(frames, open)
  {
    var after := frames + [Frame(name, [], [])];
    assert after[..|after| - 1] == frames && (open + [name])[..|open|] == open;
    StackWalkTop(after, open + [name]);
    assert StackWalk(frames, open).leaves + [] == StackWalk(frames, open).leaves;
  }

  lemma {:induction false} OpenedKeepsLeaves(frames: seq<Frame>, open: Path, names: seq<ByteString>)
    requires FramesOk(frames, open) && StackWalk(frames, open).ok
    ensures FramesOk(Opened(frames, names), open + names)
    ensures StackWalk(Opened(frames, names), open + names) == StackWalk(frames, open)
    decreases |names|
  {
    hide StackWalk, FramesOk;
    if names == [] {
      assert open + names == open;
    } else {
      BeginKeepsLeaves(frames, open, names[0]);
      OpenedKeepsLeaves(frames + [Frame(names[0], [], [])], open + [names[0]], names[1..]);
      assert open + [names[0]] + names[1..] == open + names;
    }
  }

  /** A column adds its leaves behind all others. */
  lemma ColumnAddsLeaves(frames: seq<Frame>, open: Path, c: Column, v: Value)
    requires FramesOk(frames, open) && Conforms(v, c.typ)
    ensures FramesOk(WithColumn(frames, c, v), open)
    ensures StackWalk(WithColumn(frames, c, v), open) == Then(StackWalk(frames, open), Leaves([v], [c], OuterName(open)))
  {
    hide Conforms;
    var after, top := WithColumn(frames, c, v), frames[|frames| - 1];
    assert FramesOk(after, open) by {
      forall k | 0 <= k < |after| ensures ConformsAll(after[k].vals, after[k].cols) {
        assert k < |frames| - 1 ==> after[k] == frames[k];
      }
      forall k | 0 <= k < |open| ensures after[k + 1].name == open[k] {}
    }
    StackWalkTop(frames, open);
    StackWalkTop(after, open);
    LeavesSnoc(top.vals, top.cols, v, c, OuterName(open));
    if open != [] {
      InnerFrames(frames, open);
      assert after[..|after| - 1] == frames[..|frames| - 1];
      hide StackWalk, Leaves, FramesOk;
      ThenAssociative(StackWalk(frames[..|frames| - 1], open[..|open| - 1]), Leaves(top.vals, top.cols, OuterName(open)),
                      Leaves([v], [c], OuterName(open)));
    }
  }

  /** Closing a record leaves its leaves where they are. */
  lemma EndKeepsLeaves(frames: seq<Frame>, open: Path)
    requires FramesOk(frames, open) && open != [] && frames[|frames| - 1].cols != []
    ensures FramesOk(ClosedOne(frames), open[..|open| - 1])
    ensures StackWalk(ClosedOne(frames), open[..|open| - 1]) == StackWalk(frames, open)
    ensures ClosedOne(frames)[|frames| - 2].cols != []
  {
    var outer, top, path := frames[..|frames| - 1], frames[|frames| - 1], open[..|open| - 1];
    var c, v := Column(top.name, RecordType(top.cols)), Container(top.vals);
    InnerFrames(frames, open);
    assert Conforms(v, c.typ);
    ColumnAddsLeaves(outer, path, c, v);
    StackWalkTop(frames, open);
    LeavesOfOne(v, c, OuterName(path));
    assert frames[|open|].name == open[|open| - 1];
    assert OuterName(open) == FieldName(OuterName(path), top.name);
    RecordLeaves(v, c, OuterName(path));
  }

  lemma RecordLeaves(v: Value, c: Column, outer: ByteString)
    requires v.Container? && c.typ.RecordType? && |v.children| == |c.typ.columns| > 0
    ensures FirstLeaves([v], [c], outer) == Leaves(v.children, c.typ.columns, FieldName(outer, c.name))
  {
    assert IsRecord(c.typ) && ColumnsOf(c.typ) == c.typ.columns;
  }

  lemma {:induction false} ClosedKeepsLeaves(frames: seq<Frame>, open: Path, n: nat)
    requires FramesOk(frames, open) && n <= |open| && frames[|frames| - 1].cols != []
    ensures FramesOk(Closed(frames, n), open[..|open| - n])
    ensures StackWalk(Closed(frames, n), open[..|open| - n]) == StackWalk(frames, open)
    ensures Closed(frames, n)[|frames| - n - 1].cols != []
    decreases n
  {
    hide StackWalk, FramesOk;
    if n == 0 {
      assert open[..|open|] == open;
    } else {
      assert |frames| == |open| + 1 by {
        DepthOf(frames, open);
      }
      EndKeepsLeaves(frames, open);
      ClosedKeepsLeaves(ClosedOne(frames), open[..|open| - 1], n - 1);
      assert open[..|open| - 1][..|open| - n] == open[..|open| - n];
    }
  }

  lemma DepthOf(frames: seq<Frame>, open: Path)
    requires FramesOk(frames, open)
    ensures |frames| == |open| + 1
  {
  }

  /** A field goes behind all others, under its own dotted name, and its brackets nest. */
  lemma FieldAddsLeaf(frames: seq<Frame>, open: Path, info: FieldInfo, field: Path, typ: Type, v: Value)
    requires FramesOk(frames, open) && StackWalk(frames, open).ok
    requires InfoFits(info, field, open) && Conforms(v, typ) && !IsRecord(typ)
    ensures |frames| + |info.begins| > info.ends
    ensures FramesOk(Placed(frames, info, typ, v), OpenAfter(info, field))
    ensures StackWalk(Placed(frames, info, typ, v), OpenAfter(info, field)) ==
            Walk(StackWalk(frames, open).leaves + [Leaf(DottedName(field), typ, v)], true)
  {
    hide *;
    DepthOf(frames, open);
    OpenAfterIs(info, field, open);
    FilledWithLeaf(frames, open, info, field, typ, v);
    var filled := WithColumn(Opened(frames, info.begins), Column(info.name, typ), v);
    ClosedKeepsLeaves(filled, RecordOf(field), info.ends);
    PlacedIs(frames, info, typ, v);
  }

  lemma FilledWithLeaf(frames: seq<Frame>, open: Path, info: FieldInfo, field: Path, typ: Type, v: Value)
    requires FramesOk(frames, open) && StackWalk(frames, open).ok && |frames| > 0
    requires InfoFits(info, field, open) && Conforms(v, typ) && !IsRecord(typ)
    ensures var filled := WithColumn(Opened(frames, info.begins), Column(info.name, typ), v);
            && FramesOk(filled, RecordOf(field)) && filled[|filled| - 1].cols != []
            && StackWalk(filled, RecordOf(field)) == Walk(StackWalk(frames, open).leaves + [Leaf(DottedName(field), typ, v)], true)
  {
    hide StackWalk, FramesOk, Conforms, Leaves, OuterName;
    OpenedKeepsLeaves(frames, open, info.begins);
    var c := Column(info.name, typ);
    ColumnAddsLeaves(Opened(frames, info.begins), RecordOf(field), c, v);
    LeavesOfOne(v, c, OuterName(RecordOf(field)));
    assert FirstLeaves([v], [c], OuterName(RecordOf(field))) == Walk([Leaf(DottedName(field), typ, v)], true);
  }

  lemma PlacedIs(frames: seq<Frame>, info: FieldInfo, typ: Type, v: Value)
    requires |frames| > 0 && |frames| + |info.begins| > info.ends
    ensures Placed(frames, info, typ, v) == Closed(WithColumn(Opened(frames, info.begins), Column(info.name, typ), v), info.ends)
  {
  }

  // --------------------------------------------------------------- all fields

  /** Values and types for the fields: no leaf is itself a record. */
  ghost predicate LeavesFit(fields: seq<Path>, types: seq<Type>, vals: seq<Value>) {
    && |types| == |vals| == |fields|
    && forall k :: 0 <= k < |fields| ==> Conforms(vals[k], types[k]) && !IsRecord(types[k])
  }

  function LeavesFor(fields: seq<Path>, types: seq<Type>, vals: seq<Value>, n: nat): (r: seq<Leaf>)
    requires n <= |fields| && n <= |types| && n <= |vals| && forall k :: 0 <= k < n ==> fields[k] != []
    ensures |r| == n && forall k :: 0 <= k < n ==> r[k] == Leaf(DottedName(fields[k]), types[k], vals[k])
  {
    seq(n, k requires 0 <= k < n => Leaf(DottedName(fields[k]), types[k], vals[k]))
  }

  lemma FieldOfInfo(infos: seq<FieldInfo>, fields: seq<Path>, k: nat)
    requires InfosFit(infos, fields) && k < |infos|
    ensures |infos| <= |fields|
    ensures InfoFits(infos[k], fields[k], OpenBefore(infos, fields, k)) && fields[k] != []
    ensures |OpenBefore(infos, fields, k)| + |infos[k].begins| >= infos[k].ends
    ensures OpenBefore(infos, fields, k + 1) == OpenAfter(infos[k], fields[k])
    ensures |OpenAfter(infos[k], fields[k])| == |OpenBefore(infos, fields, k)| + |infos[k].begins| - infos[k].ends
  {
    assert FitsAt(infos, fields, k);
  }

  /** The frames after the first `n` fields. */
  ghost function PlacedAll(infos: seq<FieldInfo>, fields: seq<Path>, types: seq<Type>, vals: seq<Value>, n: nat): (r: seq<Frame>)
    requires InfosFit(infos, fields) && n <= |infos| && |types| == |vals| == |fields|
    ensures |r| == |OpenBefore(infos, fields, n)| + 1
  {
    if n == 0 then [Frame([], [], [])]
    else
      FieldOfInfo(infos, fields, n - 1);
      Placed(PlacedAll(infos, fields, types, vals, n - 1), infos[n - 1], types[n - 1], vals[n - 1])
  }

  /** After any number of fields the open records hold exactly these, in order. */
  lemma {:induction false} PlacedAllLeaves(infos: seq<FieldInfo>, fields: seq<Path>, types: seq<Type>, vals: seq<Value>, n: nat)
    requires InfosFit(infos, fields) && n <= |infos| && LeavesFit(fields, types, vals)
    ensures forall k :: 0 <= k < n ==> fields[k] != []
    ensures FramesOk(PlacedAll(infos, fields, types, vals, n), OpenBefore(infos, fields, n))
    ensures StackWalk(PlacedAll(infos, fields, types, vals, n), OpenBefore(infos, fields, n)) == Walk(LeavesFor(fields, types, vals, n), true)
  {
    hide FramesOk, StackWalk, Placed, InfosFit, InfoFits, OpenBefore, OpenAfter, Conforms, PlacedAll, DottedName, LeavesFor;
    if n > 0 {
      PlacedAllLeaves(infos, fields, types, vals, n - 1);
      FieldOfInfo(infos, fields, n - 1);
      PlacedAllNext(infos, fields, types, vals, n);
      FieldAddsLeaf(PlacedAll(infos, fields, types, vals, n - 1), OpenBefore(infos, fields, n - 1), infos[n - 1], fields[n - 1], types[n - 1], vals[n - 1]);
      LeavesForNext(fields, types, vals, n);
    } else {
      NoFields();
      PlacedAllNone(infos, fields, types, vals, n);
    }
  }

  lemma PlacedAllNext(infos: seq<FieldInfo>, fields: seq<Path>, types: seq<Type>, vals: seq<Value>, n: nat)
    requires InfosFit(infos, fields) && 0 < n <= |infos| && |types| == |vals| == |fields|
    ensures |PlacedAll(infos, fields, types, vals, n - 1)| + |infos[n - 1].begins| > infos[n - 1].ends
    ensures PlacedAll(infos, fields, types, vals, n) ==
            Placed(PlacedAll(infos, fields, types, vals, n - 1), infos[n - 1], types[n - 1], vals[n - 1])
  {
    FieldOfInfo(infos, fields, n - 1);
    hide Placed, InfosFit, InfoFits, OpenAfter, OpenBefore;
  }

  lemma PlacedAllNone(infos: seq<FieldInfo>, fields: seq<Path>, types: seq<Type>, vals: seq<Value>, n: nat)
    requires InfosFit(infos, fields) && n == 0 && |types| == |vals| == |fields|
    ensures PlacedAll(infos, fields, types, vals, n) == [Frame([], [], [])]
    ensures OpenBefore(infos, fields, n) == [] && LeavesFor(fields, types, vals, n) == []
  {
  }

  lemma LeavesForNext(fields: seq<Path>, types: seq<Type>, vals: seq<Value>, n: nat)
    requires 0 < n <= |fields| && n <= |types| && n <= |vals| && forall k :: 0 <= k < n ==> fields[k] != []
    ensures LeavesFor(fields, types, vals, n) == LeavesFor(fields, types, vals, n - 1) + [Leaf(DottedName(fields[n - 1]), types[n - 1], vals[n - 1])]
  {
    hide DottedName;
  }

  lemma NoFields()
    ensures FramesOk([Frame([], [], [])], []) && StackWalk([Frame([], [], [])], []) == Walk([], true)
  {
  }

  /** The values of all frames, as the record is encoded. */
  function ValsOf(frames: seq<Frame>): (r: seq<seq<Value>>)
    ensures |r| == |frames| && forall k :: 0 <= k < |frames| ==> r[k] == frames[k].vals
  {
    seq(|frames|, k requires 0 <= k < |frames| => frames[k].vals)
  }

  class ColumnBuilder {
    const infos: seq<FieldInfo>
    const builder: Builder
    var curField: nat
    ghost const fields: seq<Path>

    ghost predicate Valid()
      reads this, builder
    {
      && builder.Valid() && curField <= |infos| == |fields|
      && InfosFit(infos, fields) && OpenBefore(infos, fields, |fields|) == []
    }

    constructor (infos: seq<FieldInfo>, ghost fields: seq<Path>)
      requires |infos| == |fields| && InfosFit(infos, fields) && OpenBefore(infos, fields, |fields|) == []
      ensures Valid() && fresh(builder) && this.infos == infos && this.fields == fields
      ensures curField == 0 && builder.frames == [[]]
    {
      this.infos := infos;
      this.fields := fields;
      builder := new Builder();
      curField := 0;
    }

    /** Writes the next field with the brackets around it. */
    method Append(leaf: Value, ghost types: seq<Type>, ghost vals: seq<Value>)
      requires Valid() && curField < |infos| && |types| == |vals| == |fields|
      requires leaf == vals[curField] && (leaf.Null? || leaf.Primitive? || leaf.Opaque?)
      requires builder.frames == ValsOf(PlacedAll(infos, fields, types, vals, curField))
      modifies this, builder
      ensures Valid() && curField == old(curField) + 1
      ensures builder.frames == ValsOf(PlacedAll(infos, fields, types, vals, curField))
    {
      hide InfosFit, OpenBefore, OpenAfter, InfoFits, PlacedAll, Builder.Valid, ValsOf, Closed, Opened, WithColumn;
      var info := infos[curField];
      FieldOfInfo(infos, fields, curField);
      PlacedAllNext(infos, fields, types, vals, curField + 1);
      ghost var frames := PlacedAll(infos, fields, types, vals, curField);
      ghost var inside := Opened(frames, info.begins);
      ghost var filled := WithColumn(inside, Column(info.name, types[curField]), leaf);
      BeginAll(info.begins, frames);
      AppendLeaf(leaf, inside, Column(info.name, types[curField]));
      EndAll(info.ends, filled);
      curField := curField + 1;
      PlacedIs(frames, info, types[curField - 1], leaf);
    }

    method BeginAll(names: seq<ByteString>, ghost frames: seq<Frame>)
      requires builder.Valid() && builder.frames == ValsOf(frames)
      modifies builder
      ensures builder.Valid() && builder.frames == ValsOf(Opened(frames, names))
    {
      hide Builder.Valid, Opened;
      OpenedVals(frames, names, 0);
      for k := 0 to |names|
        invariant builder.Valid() && builder.frames == ValsOf(Opened(frames, names[..k]))
      {
        builder.BeginContainer();
        OpenedVals(frames, names, k + 1);
        assert ValsOf(Opened(frames, names[..k + 1])) == ValsOf(Opened(frames, names[..k])) + [[]];
      }
      assert names[..|names|] == names;
    }

    method AppendLeaf(leaf: Value, ghost frames: seq<Frame>, ghost c: Column)
      requires |frames| > 0 && builder.Valid() && builder.frames == ValsOf(frames) && (leaf.Null? || leaf.Primitive? || leaf.Opaque?)
      modifies builder
      ensures builder.Valid() && builder.frames == ValsOf(WithColumn(frames, c, leaf))
    {
      hide Builder.Valid;
      match leaf {
        case Null => builder.AppendPrimitive(None);
        case Primitive(b) => builder.AppendPrimitive(Some(b));
        case Opaque(b) => builder.AppendContainer(Some(b));
      }
      assert Push(ValsOf(frames), leaf) == ValsOf(WithColumn(frames, c, leaf));
    }

    method EndAll(n: nat, ghost frames: seq<Frame>)
      requires |frames| > n && builder.Valid() && builder.frames == ValsOf(frames)
      modifies builder
      ensures builder.Valid() && builder.frames == ValsOf(Closed(frames, n))
    {
      hide Builder.Valid, Closed, ClosedOne, Pop;
      ClosedNone(frames);
      for k := 0 to n
        invariant builder.Valid() && builder.frames == ValsOf(Closed(frames, k))
      {
        ClosedNext(frames, k);
        PopVals(Closed(frames, k));
        builder.EndContainer();
      }
    }
  }

  lemma ClosedNone(frames: seq<Frame>)
    requires |frames| > 0
    ensures Closed(frames, 0) == frames
  {
  }

  lemma PopVals(frames: seq<Frame>)
    requires |frames| > 1
    ensures Pop(ValsOf(frames)) == ValsOf(ClosedOne(frames))
  {
    var vals, top := ValsOf(frames), frames[|frames| - 1];
    assert vals[..|vals| - 1] == ValsOf(frames[..|frames| - 1]);
    assert vals[|vals| - 1] == top.vals;
  }

  lemma OpenedVals(frames: seq<Frame>, names: seq<ByteString>, k: nat)
    requires k <= |names|
    ensures k == 0 ==> Opened(frames, names[..k]) == frames
    ensures k > 0 ==> Opened(frames, names[..k]) == Opened(frames, names[..k - 1]) + [Frame(names[k - 1], [], [])]
    decreases k
  {
    if k > 0 {
      OpenedSnoc(frames, names[..k - 1], names[k - 1]);
      assert names[..k] == names[..k - 1] + [names[k - 1]];
    }
  }

  lemma {:induction false} OpenedSnoc(frames: seq<Frame>, names: seq<ByteString>, name: ByteString)
    ensures Opened(frames, names + [name]) == Opened(frames, names) + [Frame(name, [], [])]
    decreases |names|
  {
    if names == [] {
      assert names + [name] == [name] && [name][1..] == [];
    } else {
      OpenedSnoc(frames + [Frame(names[0], [], [])], names[1..], name);
      assert (names + [name])[1..] == names[1..] + [name];
    }
  }

  lemma {:induction false} ClosedNext(frames: seq<Frame>, n: nat)
    requires |frames| > n + 1
    ensures Closed(frames, n + 1) == ClosedOne(Closed(frames, n))
    decreases n
  {
    if n > 0 {
      ClosedNext(ClosedOne(frames), n - 1);
    }
  }

  // ---------------------------------------------------- no column name twice

  ghost predicate DistinctNames(cols: seq<Column>) {
    forall i, j :: 0 <= i < j < |cols| ==> cols[i].name != cols[j].name
  }

  /** Some of the first `n` fields is there or in there. */
  ghost predicate Taken(p: Path, fields: seq<Path>, n: nat) {
    exists k :: 0 <= k < n && k < |fields| && p <= fields[k]
  }

  /** Columns of the record at `path`: distinct, for fields placed, and none named like the record open inside. */
  ghost predicate ColsDistinct(cols: seq<Column>, path: Path, inner: Option<ByteString>, fields: seq<Path>, n: nat) {
    && DistinctNames(cols)
    && (forall i :: 0 <= i < |cols| ==> Taken(path + [cols[i].name], fields, n))
    && (inner.Some? ==> forall i :: 0 <= i < |cols| ==> cols[i].name != inner.value)
  }

  /** The name of the record open inside the one at depth `k`. */
  function InnerOf(open: Path, k: nat): Option<ByteString> {
    if k < |open| then Some(open[k]) else None
  }

  ghost predicate StackDistinct(frames: seq<Frame>, open: Path, fields: seq<Path>, n: nat) {
    && |frames| == |open| + 1
    && (forall k :: 0 <= k < |open| ==> frames[k + 1].name == open[k])
    && forall k :: 0 <= k < |frames| ==> ColsDistinct(frames[k].cols, open[..k], InnerOf(open, k), fields, n)
  }

  lemma MoreTaken(cols: seq<Column>, path: Path, inner: Option<ByteString>, fields: seq<Path>, n: nat)
    requires ColsDistinct(cols, path, inner, fields, n)
    ensures ColsDistinct(cols, path, inner, fields, n + 1)
  {
    hide Taken;
    forall i | 0 <= i < |cols| ensures Taken(path + [cols[i].name], fields, n + 1) {
      assert Taken(path + [cols[i].name], fields, n);
      TakenMore(path + [cols[i].name], fields, n);
    }
  }

  lemma TakenMore(p: Path, fields: seq<Path>, n: nat)
    requires Taken(p, fields, n)
    ensures Taken(p, fields, n + 1)
  {
    var k :| 0 <= k < n && k < |fields| && p <= fields[k];
  }

  /** Opening a record whose name is free keeps the columns distinct. */
  lemma BeginDistinct(frames: seq<Frame>, open: Path, name: ByteString, fields: seq<Path>, n: nat)
    requires StackDistinct(frames, open, fields, n)
    requires forall i :: 0 <= i < |frames[|open|].cols| ==> frames[|open|].cols[i].name != name
    ensures StackDistinct(frames + [Frame(name, [], [])], open + [name], fields, n)
  {
    hide Taken;
    var after, path := frames + [Frame(name, [], [])], open + [name];
    forall k | 0 <= k < |after| ensures ColsDistinct(after[k].cols, path[..k], InnerOf(path, k), fields, n) {
      if k < |frames| {
        assert path[..k] == open[..k];
        assert ColsDistinct(frames[k].cols, open[..k], InnerOf(open, k), fields, n);
      }
    }
  }

  lemma {:induction false} OpenedDistinct(frames: seq<Frame>, open: Path, names: seq<ByteString>, fields: seq<Path>, n: nat)
    requires StackDistinct(frames, open, fields, n)
    requires names != [] ==> forall i :: 0 <= i < |frames[|open|].cols| ==> frames[|open|].cols[i].name != names[0]
    ensures StackDistinct(Opened(frames, names), open + names, fields, n)
    ensures names != [] ==> Opened(frames, names)[|frames| + |names| - 1].cols == []
    ensures names == [] ==> Opened(frames, names) == frames
    decreases |names|
  {
    hide StackDistinct;
    if names == [] {
      assert open + names == open;
    } else {
      DepthOfDistinct(frames, open, fields, n);
      BeginDistinct(frames, open, names[0], fields, n);
      OpenedDistinct(frames + [Frame(names[0], [], [])], open + [names[0]], names[1..], fields, n);
      assert open + [names[0]] + names[1..] == open + names;
    }
  }

  lemma DepthOfDistinct(frames: seq<Frame>, open: Path, fields: seq<Path>, n: nat)
    requires StackDistinct(frames, open, fields, n)
    ensures |frames| == |open| + 1 && (open != [] ==> frames[|open|].name == open[|open| - 1])
    ensures forall k :: 0 <= k < |frames| ==> DistinctNames(frames[k].cols)
  {
  }

  /** A column with a free name keeps them distinct, once its field counts as placed. */
  lemma ColumnDistinct(frames: seq<Frame>, open: Path, c: Column, v: Value, fields: seq<Path>, n: nat)
    requires StackDistinct(frames, open, fields, n)
    requires forall i :: 0 <= i < |frames[|open|].cols| ==> frames[|open|].cols[i].name != c.name
    requires Taken(open + [c.name], fields, n)
    ensures StackDistinct(WithColumn(frames, c, v), open, fields, n)
  {
    hide Taken;
    var after := WithColumn(frames, c, v);
    forall k | 0 <= k < |after| ensures ColsDistinct(after[k].cols, open[..k], InnerOf(open, k), fields, n) {
      assert ColsDistinct(frames[k].cols, open[..k], InnerOf(open, k), fields, n);
      if k == |open| {
        assert open[..k] == open && InnerOf(open, k) == None;
        assert after[k].cols == frames[k].cols + [c];
      } else {
        assert after[k] == frames[k];
      }
    }
  }

  lemma StillDistinct(frames: seq<Frame>, open: Path, fields: seq<Path>, n: nat)
    requires StackDistinct(frames, open, fields, n)
    ensures StackDistinct(frames, open, fields, n + 1)
  {
    hide ColsDistinct;
    forall k | 0 <= k < |frames| ensures ColsDistinct(frames[k].cols, open[..k], InnerOf(open, k), fields, n + 1) {
      MoreTaken(frames[k].cols, open[..k], InnerOf(open, k), fields, n);
    }
  }

  /** Closing a record of a field placed keeps the columns distinct. */
  lemma EndDistinct(frames: seq<Frame>, open: Path, fields: seq<Path>, n: nat)
    requires StackDistinct(frames, open, fields, n) && open != [] && Taken(open, fields, n)
    ensures StackDistinct(ClosedOne(frames), open[..|open| - 1], fields, n)
  {
    hide Taken;
    var outer, path, top := frames[..|frames| - 1], open[..|open| - 1], frames[|frames| - 1];
    var c := Column(top.name, RecordType(top.cols));
    forall k | 0 <= k < |outer| ensures ColsDistinct(outer[k].cols, path[..k], InnerOf(path, k), fields, n) {
      assert ColsDistinct(frames[k].cols, open[..k], InnerOf(open, k), fields, n);
      assert path[..k] == open[..k];
    }
    assert StackDistinct(outer, path, fields, n);
    assert ColsDistinct(frames[|path|].cols, open[..|path|], InnerOf(open, |path|), fields, n);
    assert path + [top.name] == open;
    ColumnDistinct(outer, path, c, Container(top.vals), fields, n);
  }

  lemma TakenPrefix(p: Path, q: Path, fields: seq<Path>, n: nat)
    requires Taken(q, fields, n) && p <= q
    ensures Taken(p, fields, n)
  {
    var k :| 0 <= k < n && k < |fields| && q <= fields[k];
  }

  lemma {:induction false} ClosedDistinct(frames: seq<Frame>, open: Path, m: nat, fields: seq<Path>, n: nat)
    requires StackDistinct(frames, open, fields, n) && m <= |open| && Taken(open, fields, n)
    ensures |frames| > m && StackDistinct(Closed(frames, m), open[..|open| - m], fields, n)
    decreases m
  {
    hide StackDistinct, Taken, ClosedOne;
    DepthOfDistinct(frames, open, fields, n);
    if m == 0 {
      assert open[..|open|] == open;
    } else {
      EndDistinct(frames, open, fields, n);
      TakenPrefix(open[..|open| - 1], open, fields, n);
      ClosedDistinct(ClosedOne(frames), open[..|open| - 1], m - 1, fields, n);
      assert open[..|open| - 1][..|open| - m] == open[..|open| - m];
    }
  }

  /** A record a field opens is new, and so is the field. */
  lemma NotTakenYet(infos: seq<FieldInfo>, fields: seq<Path>, n: nat)
    requires InfosFit(infos, fields) && n < |infos| == |fields| && Acceptable(fields)
    ensures !Taken(fields[n], fields, n)
    ensures infos[n].begins != [] ==> !Taken(OpenBefore(infos, fields, n) + [infos[n].begins[0]], fields, n)
  {
    assert FitsAt(infos, fields, n);
    assert n > 0 ==> FitsAt(infos, fields, n - 1);
    forall k | 0 <= k < n ensures !(fields[n] <= fields[k]) {}
    if infos[n].begins != [] {
      var open := OpenBefore(infos, fields, n);
      var b := open + [infos[n].begins[0]];
      assert b <= RecordOf(fields[n]);
      InRecordOf(b, fields[n]);
      forall k | 0 <= k < n ensures !(b <= fields[k]) {
        NotInEarlier(fields, n, k, b);
      }
    }
  }

  lemma NotInEarlier(fields: seq<Path>, n: nat, k: nat, b: Path)
    requires k < n < |fields| && Acceptable(fields) && fields[n - 1] != []
    requires InRecord(b, fields[n]) && !(b <= RecordBefore(fields, n))
    ensures !(b <= fields[k])
  {
    var earlier, last, field := fields[k], fields[n - 1], fields[n];
    InRecordOf(b, last);
    assert !InRecord(b, last);
    if k < n - 1 {
      assert InRecord(b, earlier) && InRecord(b, field) ==> InRecord(b, last);
    }
    assert !InRecord(b, earlier);
    assert !(earlier <= field);
    assert b <= field;
  }

  /** The columns of the open records are distinct after any number of fields. */
  lemma {:induction false} PlacedAllDistinct(infos: seq<FieldInfo>, fields: seq<Path>, types: seq<Type>, vals: seq<Value>, n: nat)
    requires InfosFit(infos, fields) && n <= |infos| == |fields| && |types| == |vals| == |fields| && Acceptable(fields)
    ensures StackDistinct(PlacedAll(infos, fields, types, vals, n), OpenBefore(infos, fields, n), fields, n)
  {
    hide StackDistinct, InfosFit, Acceptable, PlacedAll, OpenBefore, OpenAfter, InfoFits, Placed;
    if n == 0 {
      PlacedAllNone(infos, fields, types, vals, n);
      NothingDistinct(fields, n);
    } else {
      PlacedAllDistinct(infos, fields, types, vals, n - 1);
      PlacedAllNext(infos, fields, types, vals, n);
      FieldOfInfo(infos, fields, n - 1);
      FieldDistinct(infos, fields, n - 1, PlacedAll(infos, fields, types, vals, n - 1), types[n - 1], vals[n - 1]);
    }
  }

  lemma NothingDistinct(fields: seq<Path>, n: nat)
    ensures StackDistinct([Frame([], [], [])], [], fields, n)
  {
  }

  /** The frames with the field placed and nothing closed yet, and those closed one by one. */
  lemma FilledDistinct(infos: seq<FieldInfo>, fields: seq<Path>, n: nat, frames: seq<Frame>, typ: Type, v: Value)
    requires InfosFit(infos, fields) && n < |infos| == |fields| && Acceptable(fields)
    requires StackDistinct(frames, OpenBefore(infos, fields, n), fields, n)
    ensures |frames| > 0 && fields[n] != [] && Taken(RecordOf(fields[n]), fields, n + 1)
    ensures StackDistinct(WithColumn(Opened(frames, infos[n].begins), Column(infos[n].name, typ), v), RecordOf(fields[n]), fields, n + 1)
  {
    hide StackDistinct, WithColumn, Opened, Acceptable, InfosFit;
    FieldOfInfo(infos, fields, n);
    NotTakenYet(infos, fields, n);
    FieldParts(infos[n], fields[n], OpenBefore(infos, fields, n));
    TakenNow(fields, n, RecordOf(fields[n]));
    FilledFrom(fields, n, frames, OpenBefore(infos, fields, n), infos[n], Column(infos[n].name, typ), v);
  }

  lemma FilledFrom(fields: seq<Path>, n: nat, frames: seq<Frame>, open: Path, info: FieldInfo, c: Column, v: Value)
    requires n < |fields| && StackDistinct(frames, open, fields, n) && c.name == info.name
    requires fields[n] == open + info.begins + [info.name]
    requires !Taken(open + [if info.begins != [] then info.begins[0] else info.name], fields, n)
    ensures |frames| > 0
    ensures StackDistinct(WithColumn(Opened(frames, info.begins), c, v), open + info.begins, fields, n + 1)
  {
    hide StackDistinct, Taken;
    var record, inside := open + info.begins, Opened(frames, info.begins);
    TopIsFree(frames, open, fields, n, if info.begins != [] then info.begins[0] else info.name);
    OpenedDistinct(frames, open, info.begins, fields, n);
    StillDistinct(inside, record, fields, n);
    DepthOfDistinct(inside, record, fields, n + 1);
    if info.begins != [] {
      assert inside[|record|].cols == [];
    } else {
      assert record == open;
    }
    TakenNow(fields, n, record);
    ColumnDistinct(inside, record, c, v, fields, n + 1);
  }

  lemma TakenNow(fields: seq<Path>, n: nat, record: Path)
    requires n < |fields| && record <= fields[n]
    ensures Taken(fields[n], fields, n + 1) && Taken(record, fields, n + 1)
  {
  }

  lemma FieldParts(info: FieldInfo, field: Path, before: Path)
    requires InfoFits(info, field, before)
    ensures field == RecordOf(field) + [info.name] && RecordOf(field) == before + info.begins
  {
  }

  /** A name under which no field was placed is free in the innermost record. */
  lemma TopIsFree(frames: seq<Frame>, open: Path, fields: seq<Path>, n: nat, name: ByteString)
    requires StackDistinct(frames, open, fields, n) && !Taken(open + [name], fields, n)
    ensures |frames| == |open| + 1
    ensures forall i :: 0 <= i < |frames[|open|].cols| ==> frames[|open|].cols[i].name != name
  {
    assert ColsDistinct(frames[|open|].cols, open[..|open|], InnerOf(open, |open|), fields, n);
    assert open[..|open|] == open;
  }

  lemma FieldDistinct(infos: seq<FieldInfo>, fields: seq<Path>, n: nat, frames: seq<Frame>, typ: Type, v: Value)
    requires InfosFit(infos, fields) && n < |infos| == |fields| && Acceptable(fields)
    requires StackDistinct(frames, OpenBefore(infos, fields, n), fields, n)
    ensures |frames| > 0 && |frames| + |infos[n].begins| > infos[n].ends
    ensures StackDistinct(Placed(frames, infos[n], typ, v), OpenAfter(infos[n], fields[n]), fields, n + 1)
  {
    hide *;
    FieldOfInfo(infos, fields, n);
    DepthOfDistinct(frames, OpenBefore(infos, fields, n), fields, n);
    FilledDistinct(infos, fields, n, frames, typ, v);
    var filled := WithColumn(Opened(frames, infos[n].begins), Column(infos[n].name, typ), v);
    OpenAfterIs(infos[n], fields[n], OpenBefore(infos, fields, n));
    ClosedDistinct(filled, RecordOf(fields[n]), infos[n].ends, fields, n + 1);
    PlacedIs(frames, infos[n], typ, v);
  }

  lemma OpenAfterIs(info: FieldInfo, field: Path, before: Path)
    requires InfoFits(info, field, before)
    ensures field != [] && |before| + |info.begins| == |RecordOf(field)| >= info.ends
    ensures OpenAfter(info, field) == RecordOf(field)[..|RecordOf(field)| - info.ends]
  {
  }

  // ------------------------------------------------------- the typed columns

  /** A record type; the source panics when a column name occurs twice. */
  method LookupTypeRecord(cols: seq<Column>) returns (t: Type)
    requires DistinctNames(cols)
    ensures t == RecordType(cols)
  {
    t := RecordType(cols);
  }

  /** A record type being put together. */
  datatype Rec = Rec(name: ByteString, cols: seq<Column>)

  function RecsOf(frames: seq<Frame>): (r: seq<Rec>)
    ensures |r| == |frames| && forall k :: 0 <= k < |frames| ==> r[k] == Rec(frames[k].name, frames[k].cols)
  {
    seq(|frames|, k requires 0 <= k < |frames| => Rec(frames[k].name, frames[k].cols))
  }

  /** Opens the records of a field. */
  method PushRecords(stack: seq<Rec>, names: seq<ByteString>, ghost frames: seq<Frame>) returns (r: seq<Rec>)
    requires stack == RecsOf(frames)
    ensures r == RecsOf(Opened(frames, names))
  {
    hide Opened;
    r := stack;
    OpenedVals(frames, names, 0);
    for k := 0 to |names|
      invariant r == RecsOf(Opened(frames, names[..k]))
    {
      r := r + [Rec(names[k], [])];
      OpenedVals(frames, names, k + 1);
    }
    assert names[..|names|] == names;
  }

  /** Closes records, each a column of the one around it. */
  method PopRecords(stack: seq<Rec>, n: nat, ghost frames: seq<Frame>, ghost open: Path, ghost fields: seq<Path>, ghost m: nat) returns (r: seq<Rec>)
    requires stack == RecsOf(frames) && StackDistinct(frames, open, fields, m) && n <= |open| && Taken(open, fields, m)
    ensures |frames| > n && r == RecsOf(Closed(frames, n))
  {
    hide StackDistinct, Taken, Closed;
    r := stack;
    DepthOfDistinct(frames, open, fields, m);
    ClosedNone(frames);
    for k := 0 to n
      invariant r == RecsOf(Closed(frames, k))
    {
      ClosedDistinct(frames, open, k, fields, m);
      ghost var now := Closed(frames, k);
      DepthOfDistinct(now, open[..|open| - k], fields, m);
      var top := r[|r| - 1];
      var recType := LookupTypeRecord(top.cols);
      var cur := r[|r| - 2];
      ClosedNext(frames, k);
      r := r[..|r| - 2] + [Rec(cur.name, cur.cols + [Column(top.name, recType)])];
      assert r == RecsOf(ClosedOne(now));
    }
  }

  /**
   * The columns for fields of these types.  No record is closed that is not open, none
   * stays open, and no record gets a column twice.
   */
  method TypedColumns(infos: seq<FieldInfo>, types: seq<Type>, ghost fields: seq<Path>, ghost vals: seq<Value>) returns (cols: seq<Column>)
    requires InfosFit(infos, fields) && |infos| == |types| == |fields| == |vals| && Acceptable(fields)
    requires OpenBefore(infos, fields, |fields|) == []
    ensures |PlacedAll(infos, fields, types, vals, |fields|)| == 1
    ensures cols == PlacedAll(infos, fields, types, vals, |fields|)[0].cols
  {
    hide InfosFit, Acceptable, PlacedAll, StackDistinct, Taken, Opened, Closed, WithColumn, InfoFits, OpenAfter;
    var stack := [Rec([], [])];
    PlacedAllNone(infos, fields, types, vals, 0);
    for i := 0 to |infos|
      invariant stack == RecsOf(PlacedAll(infos, fields, types, vals, i))
    {
      ghost var frames := PlacedAll(infos, fields, types, vals, i);
      PlacedAllDistinct(infos, fields, types, vals, i);
      PlacedAllNext(infos, fields, types, vals, i + 1);
      FilledDistinct(infos, fields, i, frames, types[i], vals[i]);
      FieldOfInfo(infos, fields, i);
      FieldParts(infos[i], fields[i], OpenBefore(infos, fields, i));
      ghost var filled := WithColumn(Opened(frames, infos[i].begins), Column(infos[i].name, types[i]), vals[i]);
      stack := PushRecords(stack, infos[i].begins, frames);
      stack := AddTo(stack, Column(infos[i].name, types[i]), Opened(frames, infos[i].begins), vals[i]);
      stack := PopRecords(stack, infos[i].ends, filled, RecordOf(fields[i]), fields, i + 1);
      PlacedIs(frames, infos[i], types[i], vals[i]);
    }
    cols := stack[0].cols;
  }

  method AddTo(stack: seq<Rec>, c: Column, ghost frames: seq<Frame>, ghost v: Value) returns (r: seq<Rec>)
    requires |frames| > 0 && stack == RecsOf(frames)
    ensures r == RecsOf(WithColumn(frames, c, v))
  {
    var top := stack[|stack| - 1];
    r := stack[..|stack| - 1] + [Rec(top.name, top.cols + [c])];
    assert r == RecsOf(WithColumn(frames, c, v));
  }

  // ---------------------------------------------------------------- round trip

  /** Leaves a column builder can write as they are. */
  ghost predicate Writable(vals: seq<Value>) {
    forall k :: 0 <= k < |vals| ==> vals[k].Null? || vals[k].Primitive? || vals[k].Opaque?
  }

  /** Encodes leaves with the brackets of their fields. */
  method Encode(infos: seq<FieldInfo>, vals: seq<Value>, ghost fields: seq<Path>, ghost types: seq<Type>) returns (r: ByteString)
    requires InfosFit(infos, fields) && |infos| == |types| == |fields| == |vals| && OpenBefore(infos, fields, |fields|) == []
    requires Writable(vals)
    ensures |PlacedAll(infos, fields, types, vals, |fields|)| == 1
    ensures r == EncodeAll(PlacedAll(infos, fields, types, vals, |fields|)[0].vals)
  {
    hide InfosFit, PlacedAll, ValsOf;
    var b := new ColumnBuilder(infos, fields);
    PlacedAllNone(infos, fields, types, vals, 0);
    OneFrame();
    for k := 0 to |vals|
      invariant fresh(b) && fresh(b.builder) && b.Valid() && b.curField == k
      invariant b.builder.frames == ValsOf(PlacedAll(infos, fields, types, vals, k))
    {
      b.Append(vals[k], types, vals);
    }
    r := b.builder.Finish();
  }

  lemma OneFrame()
    ensures ValsOf([Frame([], [], [])]) == [[]]
  {
  }

  function SplitAll(names: seq<ByteString>): (r: seq<Path>)
    ensures |r| == |names| && forall k :: 0 <= k < |names| ==> r[k] == Split(names[k])
  {
    seq(|names|, k requires 0 <= k < |names| => Split(names[k]))
  }

  /** The fields under the names they were given by. */
  function NamedLeaves(names: seq<ByteString>, types: seq<Type>, vals: seq<Value>): (r: seq<Leaf>)
    requires |types| == |vals| == |names|
    ensures |r| == |names| && forall k :: 0 <= k < |names| ==> r[k] == Leaf(names[k], types[k], vals[k])
  {
    seq(|names|, k requires 0 <= k < |names| => Leaf(names[k], types[k], vals[k]))
  }

  lemma NamedExactly(names: seq<ByteString>, types: seq<Type>, vals: seq<Value>)
    requires |types| == |vals| == |names|
    ensures LeavesFor(SplitAll(names), types, vals, |names|) == NamedLeaves(names, types, vals) <==>
            forall k :: 0 <= k < |names| ==> names[k] == [] || names[k][0] != DOT
  {
    var found, named := LeavesFor(SplitAll(names), types, vals, |names|), NamedLeaves(names, types, vals);
    hide DottedName;
    forall k | 0 <= k < |names| ensures found[k] == named[k] <==> names[k] == [] || names[k][0] != DOT {
      FoundByName(names[k]);
    }
  }

  /**
   * Walking the record built for an accepted list of names finds exactly these fields,
   * in order, with their types and values; and under exactly these names if and only if
   * none of them starts with a dot.
   */
  method BuildAndWalk(names: seq<ByteString>, types: seq<Type>, vals: seq<Value>) returns (r: Result<(seq<Column>, ByteString), Error>, ghost children: seq<Value>)
    requires LeavesFit(SplitAll(names), types, vals) && Writable(vals)
    ensures r.Ok? <==> Acceptable(SplitAll(names))
    ensures r.Ok? ==> ConformsAll(children, r.value.0) && r.value.1 == EncodeAll(children)
    ensures r.Ok? ==> Leaves(children, r.value.0, []) == Walk(LeavesFor(SplitAll(names), types, vals, |names|), true)
    ensures r.Ok? ==> (Leaves(children, r.value.0, []) == Walk(NamedLeaves(names, types, vals), true) <==>
                       forall k :: 0 <= k < |names| ==> names[k] == [] || names[k][0] != DOT)
  {
    hide InfosFit, Acceptable, OpenBefore, PlacedAll, StackWalk, LeavesFor, LeavesFit, Writable, DottedName, NamedLeaves, Split;
    var fields := SplitAll(names);
    var infos := NewColumnBuilder(fields);
    if infos.Err? {
      return Err(infos.error), [];
    }
    FitLengths(fields, types, vals);
    var cols := TypedColumns(infos.value, types, fields, vals);
    var bytes := Encode(infos.value, vals, fields, types);
    PlacedAllLeaves(infos.value, fields, types, vals, |fields|);
    ghost var frames := PlacedAll(infos.value, fields, types, vals, |fields|);
    StackWalkTop(frames, []);
    NamedExactly(names, types, vals);
    children := frames[0].vals;
    r := Ok((cols, bytes));
  }

  lemma FitLengths(fields: seq<Path>, types: seq<Type>, vals: seq<Value>)
    requires LeavesFit(fields, types, vals)
    ensures |types| == |vals| == |fields|
  {
  }
}
