/** Department calls whose transactions overlap. Each checks the rows it had read; the database aborts one
    only if a row it would write has been written since. */
module DepartmentRaces {
  import opened Wrappers
  import opened Paths
  import opened Departments

  /** A transaction in commit order, and how many commits it had seen when it read. */
  datatype Tx = Tx(op: Op, seen: nat)

  function SeenBy(txs: seq<Tx>, i: nat): (n: nat)
    requires i < |txs|
    ensures n <= i
  {
    if txs[i].seen < i then txs[i].seen else i
  }

  /** The rows a call writes. */
  function Changed(t: Table, u: Table): set<Id> {
    set d | d in u && (d !in t || t[d] != u[d])
  }

  /** What the last transaction had read. */
  function Read(txs: seq<Tx>): Table
    requires txs != []
    decreases |txs|, 0
  {
    Overlapped(txs[..SeenBy(txs, |txs| - 1)])
  }

  /** The rows the last transaction wrote: none if one of them had been written since it read. */
  function Wrote(txs: seq<Tx>): (rows: set<Id>)
    requires txs != []
    ensures rows <= Apply(Read(txs), txs[|txs| - 1].op).Keys
    decreases |txs|, 1
  {
    var last := |txs| - 1;
    var rows := Changed(Read(txs), Apply(Read(txs), txs[last].op));
    if exists k :: SeenBy(txs, last) <= k < last && Collides(txs, k, rows) then {} else rows
  }

  predicate Collides(txs: seq<Tx>, k: nat, rows: set<Id>)
    requires k < |txs| - 1
    decreases |txs|, 0
  {
    Wrote(txs[..k + 1]) * rows != {}
  }

  function Written(t: Table, u: Table, rows: set<Id>): Table
    requires rows <= u.Keys
  {
    map d | d in t.Keys + rows :: if d in rows then u[d] else t[d]
  }

  /** The table after these commits. */
  function Overlapped(txs: seq<Tx>): Table
    decreases |txs|, 2
  {
    if txs == [] then map[]
    else Written(Overlapped(txs[..|txs| - 1]), Apply(Read(txs), txs[|txs| - 1].op), Wrote(txs))
  }

  // ---- One commit ---------------------------------------------------------------------------------

  /** What an accepted call had found in the rows it read, it would find in the rows there are: the path of
      the parent it puts its row under, the rows below the one it moves, its name and its code free. */
  predicate StillHolds(read: Table, t: Table, op: Op) {
    match op
    case Create(members, id, parent, name, code, head) =>
      Created(read, members, id, parent, name, code, head).Ok? ==>
        ParentPath(t, parent) == ParentPath(read, parent) && NameFree(t, name, parent, Some(id))
          && CodeFree(t, code, Some(id))
    case Change(members, id, input, expected) =>
      UpdateProblem(read, members, id, input, expected) == None ==>
        var row := NewRow(read, id, input);
        && NameFree(t, row.name, row.parent, Some(id)) && CodeFree(t, row.code, Some(id))
        && (Reparents(read[id], input) ==> MoveStillHolds(read, t, id, row.parent))
    case Archive(_, _, _, _) => true
  }

  predicate MoveStillHolds(read: Table, t: Table, id: Id, parent: Option<Id>)
    requires id in read
  {
    ParentPath(t, parent) == ParentPath(read, parent) && Descendants(t, read[id].path) == Descendants(read, read[id].path)
  }

  /** Nobody has written these rows since they were read. */
  predicate Unwritten(read: Table, t: Table, rows: set<Id>) {
    forall d :: d in rows ==> (d in read <==> d in t) && (d in read && d in t ==> read[d] == t[d])
  }

  lemma SamePathUnder(a: Option<string>, b: Option<string>, id: Id)
    requires a.Some? == b.Some? && PathUnder(a, id) == PathUnder(b, id)
    ensures a == b
  {
    if a.Some? {
      var (x, y) := (PathUnder(a, id), PathUnder(b, id));
      assert |a.value| == |b.value|;
      assert a.value == x[..|a.value|] && b.value == y[..|a.value|];
    }
  }

  /** One row is written and the others keep name, code and parent. */
  lemma UniqueExactlyWhen(t: Table, id: Id, row: Dept, t': Table)
    requires NamesUnique(t) && CodesUnique(t) && t'.Keys == t.Keys + {id} && t'[id] == row
    requires forall d :: d in t && d != id ==> t'[d] == t[d].(path := t'[d].path)
    ensures NamesUnique(t') <==> NameFree(t, row.name, row.parent, Some(id))
    ensures CodesUnique(t') <==> CodeFree(t, row.code, Some(id))
  {
    if NamesUnique(t') {
      forall d | d in t && t[d].parent == row.parent && t[d].name == row.name ensures d == id { assert d in t' && id in t'; }
    }
    if CodesUnique(t') && row.code.Some? {
      forall d | d in t && t[d].code == row.code ensures d == id { assert d in t' && id in t'; }
    }
  }

  lemma OneRowWritten(read: Table, t: Table, id: Id, row: Dept)
    requires id !in read || row != read[id]
    ensures Changed(read, read[id := row]) == {id} && Written(t, read[id := row], {id}) == t[id := row]
  {}

  lemma CreateExactlyWhen(read: Table, t: Table, members: Members, id: Id, parent: Option<Id>, name: string,
                          code: Option<string>, head: Option<Id>)
    requires IndexOk(read) && IndexOk(t) && read.Keys <= t.Keys && ValidId(id) && id !in t
    requires Created(read, members, id, parent, name, code, head).Ok?
    ensures var u := Created(read, members, id, parent, name, code, head).value;
            Changed(read, u) == {id}
            && (IndexOk(Written(t, u, {id})) <==> StillHolds(read, t, Op.Create(members, id, parent, name, code, head)))
  {
    var row := Created(read, members, id, parent, name, code, head).value[id];
    OneRowWritten(read, t, id, row);
    UniqueExactlyWhen(t, id, row, t[id := row]);
    LeafExactlyWhen(t, id, row, ParentPath(read, parent));
  }

  /** A new row under a path that was read. */
  lemma LeafExactlyWhen(t: Table, id: Id, row: Dept, parentPath: Option<string>)
    requires TreeOk(t) && ValidId(id) && id !in t && row.path == PathUnder(parentPath, id)
    requires row.parent.Some? == parentPath.Some? && (row.parent.Some? ==> row.parent.value in t)
    ensures TreeOk(t[id := row]) <==> ParentPath(t, row.parent) == parentPath
  {
    if ParentPath(t, row.parent) == parentPath {
      LeafKeepsTree(t, id, row, row.parent);
    } else if TreeOk(t[id := row]) {
      assert RowOk(t[id := row], id);
      SamePathUnder(ParentPath(t, row.parent), parentPath, id);
    }
  }

  /** A row that stays where it is. */
  lemma StayExactlyWhen(read: Table, t: Table, members: Members, id: Id, input: Update, expected: nat)
    requires IndexOk(read) && IndexOk(t) && UpdateProblem(read, members, id, input, expected) == None
    requires !Reparents(read[id], input)
    requires id in t && t[id] == read[id]
    ensures var u := Updated(read, id, input).0;
            Changed(read, u) == {id}
            && (IndexOk(Written(t, u, {id})) <==> StillHolds(read, t, Op.Change(members, id, input, expected)))
  {
    var row := NewRow(read, id, input);
    OneRowWritten(read, t, id, row);
    SameShape(t, t[id := row]);
    UniqueExactlyWhen(t, id, row, t[id := row]);
  }

  /** An accepted move, as it was checked. */
  ghost predicate Moves(read: Table, id: Id, row: Dept) {
    && TreeOk(read) && id in read && row.parent != read[id].parent && row.version != read[id].version
    && row.path == PathUnder(ParentPath(read, row.parent), id)
    && (row.parent.Some? ==> row.parent.value in read && !IsWithinSubtree(read[row.parent.value].path, read[id].path))
  }

  /** It writes its own row, and of the subtree it had read the paths. */
  lemma MoveWrites(read: Table, t: Table, id: Id, row: Dept)
    requires Moves(read, id, row) && read.Keys <= t.Keys && Unwritten(read, t, Changed(read, Moved(read, id, row)))
    ensures var (u, was) := (Moved(read, id, row), read[id].path);
            var (below, t') := (Descendants(read, was), Written(t, u, Changed(read, u)));
            && t'.Keys == t.Keys && t[id] == read[id] && t'[id] == row && !(was <= row.path)
            && (forall d :: d in below ==> d in t && t[d] == read[d] && t'[d].path != t[d].path)
            && (forall d :: d in below ==> t'[d] == t[d].(path := Repath(t[d].path, was, row.path)))
            && (forall d :: d in t && d != id && d !in below ==> t'[d] == t[d])
  {
    MoveKeepsTree(read, id, row);
    MovedRowLeavesItsSubtree(read, id, row.parent);
    var (u, was) := (Moved(read, id, row), read[id].path);
    forall d | d in Descendants(read, was) ensures d in Changed(read, u) && u[d].path != read[d].path && d != id {
      SuffixChange(read[d].path, was, row.path);
    }
    assert id in Changed(read, u);
  }

  lemma MovedRow(t: Table, id: Id, row: Dept, d: Id)
    requires id in t && d in t && d != id
    ensures d in Moved(t, id, row)
    ensures Moved(t, id, row)[d]
         == if d in Descendants(t, t[id].path) then t[d].(path := Repath(t[d].path, t[id].path, row.path)) else t[d]
  {}

  lemma MovedItself(t: Table, id: Id, row: Dept)
    requires id in t && !(t[id].path <= row.path)
    ensures Moved(t, id, row).Keys == t.Keys && Moved(t, id, row)[id] == row
  {}

  /** With the subtree as it was read, the move comes out as one made on the rows there are. */
  lemma MoveLands(read: Table, t: Table, id: Id, row: Dept)
    requires Moves(read, id, row) && read.Keys <= t.Keys && Unwritten(read, t, Changed(read, Moved(read, id, row)))
    requires id in t && Descendants(t, read[id].path) == Descendants(read, read[id].path)
    ensures Written(t, Moved(read, id, row), Changed(read, Moved(read, id, row))) == Moved(t, id, row)
  {
    MoveWrites(read, t, id, row);
    MovedItself(t, id, row);
    var t' := Written(t, Moved(read, id, row), Changed(read, Moved(read, id, row)));
    forall d | d in t && d != id ensures t'[d] == Moved(t, id, row)[d] { MovedRow(t, id, row, d); }
    SameTable(t', Moved(t, id, row));
  }

  lemma SameTable(t: Table, u: Table)
    requires t.Keys == u.Keys && forall d :: d in t ==> t[d] == u[d]
    ensures t == u
  {}

  lemma MoveKeepsTreeWhen(read: Table, t: Table, id: Id, row: Dept)
    requires Moves(read, id, row) && read.Keys <= t.Keys && Unwritten(read, t, Changed(read, Moved(read, id, row)))
    requires TreeOk(t) && MoveStillHolds(read, t, id, row.parent)
    ensures TreeOk(Written(t, Moved(read, id, row), Changed(read, Moved(read, id, row))))
  {
    MoveWrites(read, t, id, row);
    MoveLands(read, t, id, row);
    MoveKeepsTree(t, id, row);
  }

  /** A row put below the moved one without having been seen keeps a path that is no longer its parent's. */
  lemma {:induction false} LeftBehind(read: Table, t: Table, id: Id, row: Dept, c: Id)
    requires Moves(read, id, row) && read.Keys <= t.Keys && Unwritten(read, t, Changed(read, Moved(read, id, row)))
    requires TreeOk(t) && c in Descendants(t, read[id].path) && c !in Descendants(read, read[id].path)
    ensures !TreeOk(Written(t, Moved(read, id, row), Changed(read, Moved(read, id, row))))
    decreases |t[c].path|
  {
    MoveWrites(read, t, id, row);
    var t' := Written(t, Moved(read, id, row), Changed(read, Moved(read, id, row)));
    assert RowOk(t, c);
    ParentIsInside(t, c, id);
    var p := t[c].parent.value;
    if p != id && p !in Descendants(read, read[id].path) {
      if t[p].path == t[id].path { PathsDiffer(t, p, id); }
      LeftBehind(read, t, id, row, p);
    } else if TreeOk(t') {
      assert RowOk(t', c);
      SamePathUnder(Some(t[p].path), Some(t'[p].path), c);
    }
  }

  /** A parent that moved meanwhile is no longer where the row says. */
  lemma ParentGone(read: Table, t: Table, id: Id, row: Dept)
    requires Moves(read, id, row) && read.Keys <= t.Keys && Unwritten(read, t, Changed(read, Moved(read, id, row)))
    requires ParentPath(t, row.parent) != ParentPath(read, row.parent)
    ensures !TreeOk(Written(t, Moved(read, id, row), Changed(read, Moved(read, id, row))))
  {
    MoveWrites(read, t, id, row);
    var t' := Written(t, Moved(read, id, row), Changed(read, Moved(read, id, row)));
    if TreeOk(t') {
      assert RowOk(t', id);
      assert t'[row.parent.value] == t[row.parent.value];
      SamePathUnder(ParentPath(t, row.parent), ParentPath(read, row.parent), id);
    }
  }

  lemma MoveExactlyWhen(read: Table, t: Table, members: Members, id: Id, input: Update, expected: nat)
    requires IndexOk(read) && IndexOk(t) && UpdateProblem(read, members, id, input, expected) == None
    requires Reparents(read[id], input)
    requires read.Keys <= t.Keys && Unwritten(read, t, Changed(read, Updated(read, id, input).0))
    ensures var u := Updated(read, id, input).0;
            IndexOk(Written(t, u, Changed(read, u))) <==> StillHolds(read, t, Op.Change(members, id, input, expected))
  {
    var row := NewRow(read, id, input);
    AcceptedMove(read, members, id, input, expected);
    var t' := Written(t, Moved(read, id, row), Changed(read, Moved(read, id, row)));
    MoveNamesExactlyWhen(read, t, id, row);
    MoveTreeExactlyWhen(read, t, id, row);
  }

  lemma AcceptedMove(read: Table, members: Members, id: Id, input: Update, expected: nat)
    requires TreeOk(read) && UpdateProblem(read, members, id, input, expected) == None && Reparents(read[id], input)
    ensures Moves(read, id, NewRow(read, id, input))
    ensures Updated(read, id, input).0 == Moved(read, id, NewRow(read, id, input))
  {}

  lemma MoveNamesExactlyWhen(read: Table, t: Table, id: Id, row: Dept)
    requires Moves(read, id, row) && read.Keys <= t.Keys && Unwritten(read, t, Changed(read, Moved(read, id, row)))
    requires NamesUnique(t) && CodesUnique(t)
    ensures var t' := Written(t, Moved(read, id, row), Changed(read, Moved(read, id, row)));
            && (NamesUnique(t') <==> NameFree(t, row.name, row.parent, Some(id)))
            && (CodesUnique(t') <==> CodeFree(t, row.code, Some(id)))
  {
    MoveWrites(read, t, id, row);
    UniqueExactlyWhen(t, id, row, Written(t, Moved(read, id, row), Changed(read, Moved(read, id, row))));
  }

  lemma MoveTreeExactlyWhen(read: Table, t: Table, id: Id, row: Dept)
    requires Moves(read, id, row) && read.Keys <= t.Keys && Unwritten(read, t, Changed(read, Moved(read, id, row)))
    requires TreeOk(t)
    ensures TreeOk(Written(t, Moved(read, id, row), Changed(read, Moved(read, id, row))))
      <==> MoveStillHolds(read, t, id, row.parent)
  {
    MoveWrites(read, t, id, row);
    var was := read[id].path;
    if MoveStillHolds(read, t, id, row.parent) {
      MoveKeepsTreeWhen(read, t, id, row);
    } else if ParentPath(t, row.parent) != ParentPath(read, row.parent) {
      ParentGone(read, t, id, row);
    } else {
      assert Descendants(read, was) <= Descendants(t, was);
      var c :| c in Descendants(t, was) && c !in Descendants(read, was);
      LeftBehind(read, t, id, row, c);
    }
  }

  /** One commit beside whatever was written since it read keeps the index right exactly when what it had
      checked still holds. */
  lemma CommitKeepsExactlyWhen(read: Table, t: Table, op: Op)
    requires IndexOk(read) && IndexOk(t) && read.Keys <= t.Keys && (op.Create? ==> ValidId(op.id) && op.id !in t)
    requires Unwritten(read, t, Changed(read, Apply(read, op)))
    ensures IndexOk(Written(t, Apply(read, op), Changed(read, Apply(read, op)))) <==> StillHolds(read, t, op)
  {
    var u := Apply(read, op);
    match op {
      case Create(members, id, parent, name, code, head) =>
        if u == read {
          NothingWritten(t, u, Changed(read, u));
        } else {
          CreateExactlyWhen(read, t, members, id, parent, name, code, head);
        }
      case Change(members, id, input, expected) =>
        if UpdateProblem(read, members, id, input, expected) != None {
          NothingWritten(t, u, Changed(read, u));
        } else if Reparents(read[id], input) {
          MoveExactlyWhen(read, t, members, id, input, expected);
        } else {
          assert id in Changed(read, u);
          StayExactlyWhen(read, t, members, id, input, expected);
        }
      case Archive(staffed, id, archived, expected) =>
        if u == read {
          NothingWritten(t, u, Changed(read, u));
        } else {
          ArchiveLands(read, t, staffed, id, archived, expected);
        }
    }
  }

  lemma NothingWritten(t: Table, u: Table, rows: set<Id>)
    requires rows == {}
    ensures Written(t, u, rows) == t
  {}

  lemma ArchiveLands(read: Table, t: Table, staffed: set<Id>, id: Id, archived: bool, expected: nat)
    requires IndexOk(t) && ArchiveProblem(read, staffed, id, archived, expected) == None && id in t && t[id] == read[id]
    ensures var u := Archived(read, id, archived);
            Changed(read, u) == {id} && IndexOk(Written(t, u, {id}))
  {
    OneRowWritten(read, t, id, Archived(read, id, archived)[id]);
    ArchiveKeeps(t, id, archived);
  }

  // ---- Whole runs ---------------------------------------------------------------------------------

  /** Generated identifiers are well formed and never reused. */
  ghost predicate NewIds(txs: seq<Tx>) {
    && (forall i :: 0 <= i < |txs| && txs[i].op.Create? ==> ValidId(txs[i].op.id))
    && (forall i, j :: 0 <= i < j < |txs| && txs[i].op.Create? && txs[j].op.Create? ==> txs[i].op.id != txs[j].op.id)
  }

  ghost predicate CreatedBy(txs: seq<Tx>, d: Id) {
    exists i :: 0 <= i < |txs| && txs[i].op.Create? && txs[i].op.id == d
  }

  lemma ApplyAddsOnlyCreated(t: Table, op: Op)
    ensures t.Keys <= Apply(t, op).Keys
    ensures forall d :: d in Apply(t, op) && d !in t ==> op.Create? && op.id == d
  {}

  lemma CreatedByLonger(txs: seq<Tx>, n: nat, d: Id)
    requires n <= |txs| && CreatedBy(txs[..n], d)
    ensures CreatedBy(txs, d)
  {
    var i :| 0 <= i < n && txs[..n][i].op.Create? && txs[..n][i].op.id == d;
    assert txs[i] == txs[..n][i];
  }

  lemma {:induction false} RowsAreCreated(txs: seq<Tx>, d: Id)
    requires d in Overlapped(txs)
    ensures CreatedBy(txs, d)
    decreases |txs|
  {
    var last := |txs| - 1;
    if d in Overlapped(txs[..last]) {
      RowsAreCreated(txs[..last], d);
      CreatedByLonger(txs, last, d);
    } else {
      ApplyAddsOnlyCreated(Read(txs), txs[last].op);
      if d in Read(txs) {
        RowsAreCreated(txs[..SeenBy(txs, last)], d);
        CreatedByLonger(txs, SeenBy(txs, last), d);
      }
    }
  }

  lemma {:induction false} RowsStay(txs: seq<Tx>, n: nat, d: Id)
    requires n <= |txs| && d in Overlapped(txs[..n])
    ensures d in Overlapped(txs)
    decreases |txs|
  {
    if n == |txs| {
      assert txs[..n] == txs;
    } else {
      assert txs[..|txs| - 1][..n] == txs[..n];
      RowsStay(txs[..|txs| - 1], n, d);
    }
  }

  predicate Writes(txs: seq<Tx>, k: nat, d: Id)
    requires k < |txs|
  {
    d in Wrote(txs[..k + 1])
  }

  /** A row that no commit wrote is as it was. */
  lemma {:induction false} UnwrittenStays(txs: seq<Tx>, n: nat, d: Id)
    requires n <= |txs| && d in Overlapped(txs) && forall k :: n <= k < |txs| ==> !Writes(txs, k, d)
    ensures d in Overlapped(txs[..n]) && Overlapped(txs)[d] == Overlapped(txs[..n])[d]
    decreases |txs|
  {
    if n == |txs| {
      assert txs[..n] == txs;
    } else {
      var last := |txs| - 1;
      var before := txs[..last];
      assert txs[..last + 1] == txs && !Writes(txs, last, d) && before[..n] == txs[..n];
      forall k | n <= k < last ensures !Writes(before, k, d) {
        assert before[..k + 1] == txs[..k + 1] && !Writes(txs, k, d);
      }
      UnwrittenStays(before, n, d);
    }
  }

  lemma WroteWithoutCollision(txs: seq<Tx>, k: nat)
    requires txs != [] && Wrote(txs) != {} && SeenBy(txs, |txs| - 1) <= k < |txs| - 1
    ensures Wrote(txs[..k + 1]) * Wrote(txs) == {}
  {
    var rows := Changed(Read(txs), Apply(Read(txs), txs[|txs| - 1].op));
    assert Wrote(txs) == rows && !Collides(txs, k, rows);
  }

  /** A row that the last transaction writes has not been written since it read. */
  lemma NotWrittenSince(txs: seq<Tx>, k: nat, d: Id)
    requires txs != [] && d in Wrote(txs) && SeenBy(txs, |txs| - 1) <= k < |txs| - 1
    ensures !Writes(txs[..|txs| - 1], k, d)
  {
    WroteWithoutCollision(txs, k);
    assert d !in Wrote(txs[..k + 1]) * Wrote(txs);
    assert txs[..|txs| - 1][..k + 1] == txs[..k + 1];
  }

  /** A transaction that commits finds the rows it writes as it had read them. */
  lemma CommitFindsItsRows(txs: seq<Tx>)
    requires txs != [] && Wrote(txs) != {}
    ensures var (read, t) := (Read(txs), Overlapped(txs[..|txs| - 1]));
            && read.Keys <= t.Keys && Wrote(txs) == Changed(read, Apply(read, txs[|txs| - 1].op))
            && Unwritten(read, t, Wrote(txs))
  {
    var (n, before) := (SeenBy(txs, |txs| - 1), txs[..|txs| - 1]);
    assert before[..n] == txs[..n];
    forall d | d in Read(txs) ensures d in Overlapped(before) { RowsStay(before, n, d); }
    forall d | d in Wrote(txs) && d in Overlapped(before)
      ensures d in Read(txs) && Read(txs)[d] == Overlapped(before)[d]
    {
      forall k | n <= k < |before| ensures !Writes(before, k, d) { NotWrittenSince(txs, k, d); }
      UnwrittenStays(before, n, d);
    }
  }

  /** What the last transaction had checked still held when it committed, if it did. */
  predicate LastStillHolds(txs: seq<Tx>)
    requires txs != []
  {
    Wrote(txs) != {} ==> StillHolds(Read(txs), Overlapped(txs[..|txs| - 1]), txs[|txs| - 1].op)
  }

  lemma CreatedEarlier(txs: seq<Tx>, d: Id)
    requires txs != [] && NewIds(txs) && txs[|txs| - 1].op.Create? && CreatedBy(txs[..|txs| - 1], d)
    ensures d != txs[|txs| - 1].op.id
  {
    var before := txs[..|txs| - 1];
    var i :| 0 <= i < |before| && before[i].op.Create? && before[i].op.id == d;
    assert txs[i] == before[i];
  }

  lemma NotYetThere(txs: seq<Tx>)
    requires txs != [] && NewIds(txs) && txs[|txs| - 1].op.Create?
    ensures txs[|txs| - 1].op.id !in Overlapped(txs[..|txs| - 1])
  {
    var before := txs[..|txs| - 1];
    forall d | d in Overlapped(before) ensures d != txs[|txs| - 1].op.id {
      RowsAreCreated(before, d);
      CreatedEarlier(txs, d);
    }
  }

  lemma LastKeepsExactlyWhen(txs: seq<Tx>)
    requires txs != [] && NewIds(txs) && IndexOk(Overlapped(txs[..|txs| - 1])) && IndexOk(Read(txs))
    ensures IndexOk(Overlapped(txs)) <==> LastStillHolds(txs)
  {
    var last := |txs| - 1;
    var (op, t) := (txs[last].op, Overlapped(txs[..last]));
    if Wrote(txs) == {} {
      NothingWritten(t, Apply(Read(txs), op), Wrote(txs));
    } else {
      CommitFindsItsRows(txs);
      if op.Create? { NotYetThere(txs); }
      CommitKeepsExactlyWhen(Read(txs), t, op);
    }
  }

  /** The index is right now and was after every commit so far. */
  ghost predicate AlwaysOk(txs: seq<Tx>) {
    IndexOk(Overlapped(txs)) && (txs != [] ==> AlwaysOk(txs[..|txs| - 1]))
  }

  /** Every commit so far found what it had checked still holding. */
  predicate AlwaysStillHolds(txs: seq<Tx>) {
    txs != [] ==> LastStillHolds(txs) && AlwaysStillHolds(txs[..|txs| - 1])
  }

  lemma {:induction false} WasOk(txs: seq<Tx>, n: nat)
    requires n <= |txs| && AlwaysOk(txs)
    ensures IndexOk(Overlapped(txs[..n]))
  {
    if n == |txs| {
      assert txs[..n] == txs;
    } else {
      assert txs[..|txs| - 1][..n] == txs[..n];
      WasOk(txs[..|txs| - 1], n);
    }
  }

  /** Whatever overlaps, paths, sibling names and codes are right after every commit exactly when for every
      commit what it had checked still held: the path of the parent it puts its row under, the rows below
      the one it moves, its name and its code. */
  lemma {:induction false} OverlappingCallsKeepTheIndexExactlyWhen(txs: seq<Tx>)
    requires NewIds(txs)
    ensures AlwaysOk(txs) <==> AlwaysStillHolds(txs)
    decreases |txs|
  {
    if txs != [] {
      var (before, n) := (txs[..|txs| - 1], SeenBy(txs, |txs| - 1));
      OverlappingCallsKeepTheIndexExactlyWhen(before);
      if AlwaysOk(before) {
        assert before[..n] == txs[..n];
        WasOk(before, n);
        LastKeepsExactlyWhen(txs);
      }
    }
  }

  // ---- A cycle ------------------------------------------------------------------------------------

  /** An update that only puts `id` under `p`. */
  function PutUnder(members: Members, id: Id, p: Id, expected: nat): Op {
    Op.Change(members, id, Update(Change.Set(Some(p)), Leave, Leave, Leave), expected)
  }

  ghost predicate LiveRoot(t: Table, d: Id) {
    d in t && t[d].parent == None && !t[d].archived
  }

  /** Roots have nothing above them to move, and neither is within the other. */
  lemma RootsApart(t: Table, x: Id, y: Id)
    requires TreeOk(t) && x != y && LiveRoot(t, x) && LiveRoot(t, y)
    ensures !IsWithinSubtree(t[x].path, t[y].path)
  {
    ChainStep(t, x);
    ChainStep(t, y);
    PathEncodesChain(t, x);
    PathEncodesChain(t, y);
    EncodePrefix([y], [x]);
    assert [y] != [x][..1];
  }

  /** A root put under another: its row is written, the other's is not. */
  lemma RootMoves(t: Table, members: Members, x: Id, y: Id)
    requires IndexOk(t) && x != y && LiveRoot(t, x) && LiveRoot(t, y) && NameFree(t, t[x].name, Some(y), Some(x))
    ensures var u := Apply(t, PutUnder(members, x, y, t[x].version));
            && u.Keys == t.Keys && u[x].parent == Some(y) && u[x] != t[x] && u[y] == t[y]
            && forall d :: d in Changed(t, u) ==> Reaches(t, d, x)
  {
    var input := Update(Change.Set(Some(y)), Leave, Leave, Leave);
    RootsApart(t, y, x);
    assert UpdateProblem(t, members, x, input, t[x].version) == None;
    MoveTouchesOnlyItsSubtree(t, members, x, input, t[x].version);
    MoveKeepsTree(t, x, NewRow(t, x, input));
    WithinSubtreeIsAncestry(t, y, x);
    assert Up(t, x, 0) == Some(x);
    var u := Updated(t, x, input).0;
    forall d | d in Changed(t, u) ensures Reaches(t, d, x) {}
  }

  lemma RootOpensChain(t: Table, x: Id, d: Id)
    requires TreeOk(t) && LiveRoot(t, x) && d in t && Reaches(t, d, x)
    ensures Chain(t, d)[0] == x
  {
    ChainStep(t, x);
    PathEncodesChain(t, x);
    PathEncodesChain(t, d);
    WithinSubtreeIsAncestry(t, d, x);
    EncodePrefix([x], Chain(t, d));
  }

  /** Rows below one root are not below another. */
  lemma OneRootEach(t: Table, x: Id, y: Id, d: Id)
    requires TreeOk(t) && LiveRoot(t, x) && LiveRoot(t, y) && d in t && Reaches(t, d, x) && Reaches(t, d, y)
    ensures x == y
  {
    RootOpensChain(t, x, d);
    RootOpensChain(t, y, d);
  }

  /** Two transactions that have both seen just these commits. */
  function AtOnce(txs: seq<Tx>, a: Op, b: Op): seq<Tx> {
    txs + [Tx(a, |txs|)] + [Tx(b, |txs|)]
  }

  lemma WroteAll(txs: seq<Tx>, read: Table)
    requires txs != [] && txs[..SeenBy(txs, |txs| - 1)] == txs[..|txs| - 1] && Overlapped(txs[..|txs| - 1]) == read
    ensures Wrote(txs) == Changed(read, Apply(read, txs[|txs| - 1].op))
  {
    assert SeenBy(txs, |txs| - 1) == |txs[..SeenBy(txs, |txs| - 1)]| == |txs| - 1;
  }

  lemma WroteUnlessCollides(txs: seq<Tx>, read: Table, rows: set<Id>)
    requires txs != [] && Overlapped(txs[..SeenBy(txs, |txs| - 1)]) == read
    requires rows == Changed(read, Apply(read, txs[|txs| - 1].op))
    requires forall k :: SeenBy(txs, |txs| - 1) <= k < |txs| - 1 ==> !Collides(txs, k, rows)
    ensures Wrote(txs) == rows
  {}

  lemma KeepsClear(txs: seq<Tx>, k: nat, other: set<Id>, rows: set<Id>)
    requires k < |txs| - 1 && Wrote(txs[..k + 1]) == other && other !! rows
    ensures !Collides(txs, k, rows)
  {}

  lemma WroteBeside(txs: seq<Tx>, n: nat, read: Table, other: set<Id>, rows: set<Id>)
    requires |txs| == n + 2 && SeenBy(txs, n + 1) == n && Overlapped(txs[..n]) == read && Wrote(txs[..n + 1]) == other
    requires rows == Changed(read, Apply(read, txs[n + 1].op)) && other !! rows
    ensures Wrote(txs) == rows
  {
    KeepsClear(txs, n, other, rows);
    WroteUnlessCollides(txs, read, rows);
  }

  lemma LastWritten(txs: seq<Tx>, t: Table, read: Table, rows: set<Id>)
    requires txs != [] && Overlapped(txs[..|txs| - 1]) == t && Overlapped(txs[..SeenBy(txs, |txs| - 1)]) == read
    requires Wrote(txs) == rows && rows <= Apply(read, txs[|txs| - 1].op).Keys
    ensures Overlapped(txs) == Written(t, Apply(read, txs[|txs| - 1].op), rows)
  {}

  lemma FirstCommits(txs: seq<Tx>, a: Op)
    ensures var (t, one) := (Overlapped(txs), txs + [Tx(a, |txs|)]);
            Wrote(one) == Changed(t, Apply(t, a)) && Overlapped(one) == Written(t, Apply(t, a), Changed(t, Apply(t, a)))
  {
    var (t, one) := (Overlapped(txs), txs + [Tx(a, |txs|)]);
    assert one[..|txs|] == txs && SeenBy(one, |txs|) == |txs|;
    WroteAll(one, t);
    LastWritten(one, t, t, Changed(t, Apply(t, a)));
  }

  lemma SecondCommits(one: seq<Tx>, n: nat, t: Table, b: Op, other: set<Id>)
    requires |one| == n + 1 && Overlapped(one[..n]) == t && Wrote(one) == other && other !! Changed(t, Apply(t, b))
    ensures Overlapped(one + [Tx(b, n)]) == Written(Overlapped(one), Apply(t, b), Changed(t, Apply(t, b)))
  {
    var two := one + [Tx(b, n)];
    assert two[..n + 1] == one && two[..n] == one[..n] && SeenBy(two, n + 1) == n && two[n + 1].op == b;
    WroteBeside(two, n, t, other, Changed(t, Apply(t, b)));
    LastWritten(two, Overlapped(one), t, Changed(t, Apply(t, b)));
  }

  /** If neither writes what the other does, both commit. */
  lemma BothCommit(txs: seq<Tx>, a: Op, b: Op)
    requires Changed(Overlapped(txs), Apply(Overlapped(txs), a)) !! Changed(Overlapped(txs), Apply(Overlapped(txs), b))
    ensures var t := Overlapped(txs);
            var one := Written(t, Apply(t, a), Changed(t, Apply(t, a)));
            Overlapped(AtOnce(txs, a, b)) == Written(one, Apply(t, b), Changed(t, Apply(t, b)))
  {
    var (t, one) := (Overlapped(txs), txs + [Tx(a, |txs|)]);
    FirstCommits(txs, a);
    assert one[..|txs|] == txs;
    SecondCommits(one, |txs|, t, b, Changed(t, Apply(t, a)));
  }

  lemma MovesApart(t: Table, members: Members, x: Id, y: Id)
    requires IndexOk(t) && x != y && LiveRoot(t, x) && LiveRoot(t, y)
    requires NameFree(t, t[x].name, Some(y), Some(x)) && NameFree(t, t[y].name, Some(x), Some(y))
    ensures Changed(t, Apply(t, PutUnder(members, x, y, t[x].version)))
         !! Changed(t, Apply(t, PutUnder(members, y, x, t[y].version)))
  {
    RootMoves(t, members, x, y);
    RootMoves(t, members, y, x);
    forall d | d in Changed(t, Apply(t, PutUnder(members, x, y, t[x].version)))
      ensures d !in Changed(t, Apply(t, PutUnder(members, y, x, t[y].version)))
    {
      if Reaches(t, d, y) { OneRootEach(t, x, y, d); }
    }
  }

  lemma EachAboveItself(t: Table, a: Table, b: Table, x: Id, y: Id)
    requires x in t && y in t && x in a && y in a && x in b && y in b
    requires a[x].parent == Some(y) && b[y].parent == Some(x) && a[y] == t[y] && b[x] == t[x] && b[y] != t[y]
    requires a[x] != t[x]
    ensures var w := Written(Written(t, a, Changed(t, a)), b, Changed(t, b));
            Up(w, x, 2) == Some(x) && Up(w, y, 2) == Some(y)
  {
    var w := Written(Written(t, a, Changed(t, a)), b, Changed(t, b));
    assert w[x] == a[x] && w[y] == b[y];
    assert Up(w, x, 1) == Some(y) && Up(w, y, 1) == Some(x);
  }

  /** Two roots, each put under the other by transactions that have both read them as roots: neither writes a
      row that the other does, both commit, and each department is then above itself. */
  lemma EachUnderTheOther(txs: seq<Tx>, members: Members, x: Id, y: Id)
    requires IndexOk(Overlapped(txs)) && x != y && LiveRoot(Overlapped(txs), x) && LiveRoot(Overlapped(txs), y)
    requires NameFree(Overlapped(txs), Overlapped(txs)[x].name, Some(y), Some(x))
    requires NameFree(Overlapped(txs), Overlapped(txs)[y].name, Some(x), Some(y))
    ensures var t := Overlapped(txs);
            var w := Overlapped(AtOnce(txs, PutUnder(members, x, y, t[x].version), PutUnder(members, y, x, t[y].version)));
            Up(w, x, 2) == Some(x) && Up(w, y, 2) == Some(y)
  {
    var t := Overlapped(txs);
    var (a, b) := (PutUnder(members, x, y, t[x].version), PutUnder(members, y, x, t[y].version));
    MovesApart(t, members, x, y);
    BothCommit(txs, a, b);
    RootMoves(t, members, x, y);
    RootMoves(t, members, y, x);
    EachAboveItself(t, Apply(t, a), Apply(t, b), x, y);
  }

  function NewRoot(id: Id): Op {
    Op.Create(map[], id, None, id, None, None)
  }

  function RootRow(id: Id): Dept {
    Dept(None, id, None, PathUnder(None, id), None, false, 1)
  }

  lemma RootAdded(t: Table, id: Id)
    requires id !in t && forall d :: d in t ==> t[d].name != id
    ensures Written(t, Apply(t, NewRoot(id)), Changed(t, Apply(t, NewRoot(id)))) == t[id := RootRow(id)]
  {
    OneRowWritten(t, t, id, RootRow(id));
  }

  lemma RootCreated(txs: seq<Tx>, id: Id)
    requires id !in Overlapped(txs) && forall d :: d in Overlapped(txs) ==> Overlapped(txs)[d].name != id
    ensures Overlapped(txs + [Tx(NewRoot(id), |txs|)]) == Overlapped(txs)[id := RootRow(id)]
  {
    FirstCommits(txs, NewRoot(id));
    RootAdded(Overlapped(txs), id);
  }

  lemma TwoRoots()
    ensures Overlapped([] + [Tx(NewRoot("x"), 0)] + [Tx(NewRoot("y"), 1)])
         == map["x" := RootRow("x"), "y" := RootRow("y")]
  {
    RootCreated([], "x");
    RootCreated([] + [Tx(NewRoot("x"), 0)], "y");
  }

  lemma CycleFromTwoRoots(txs: seq<Tx>)
    requires Overlapped(txs) == map["x" := RootRow("x"), "y" := RootRow("y")]
    ensures Up(Overlapped(AtOnce(txs, PutUnder(map[], "x", "y", 1), PutUnder(map[], "y", "x", 1))), "x", 2) == Some("x")
  {
    var t := Overlapped(txs);
    forall d | d in t ensures RowOk(t, d) {}
    EachUnderTheOther(txs, map[], "x", "y");
  }

  /** The smallest instance: two departments and nothing else. */
  lemma TwoRootsMakeACycle()
    ensures var txs := [] + [Tx(NewRoot("x"), 0)] + [Tx(NewRoot("y"), 1)];
            Up(Overlapped(AtOnce(txs, PutUnder(map[], "x", "y", 1), PutUnder(map[], "y", "x", 1))), "x", 2) == Some("x")
  {
    TwoRoots();
    CycleFromTwoRoots([] + [Tx(NewRoot("x"), 0)] + [Tx(NewRoot("y"), 1)]);
  }
}
