/** The department tree: rows with a parent pointer and a materialised path that must agree. */
module Departments {
  import opened Wrappers
  import opened Paths
  import opened Lexicographic

  datatype Dept = Dept(parent: Option<Id>, name: string, code: Option<string>, path: string,
                       head: Option<Id>, archived: bool, version: nat)

  type Table = map<Id, Dept>

  /** Memberships of the organisation, and whether each is active. */
  type Members = map<Id, bool>

  datatype Error =
    | NotFound | StaleVersion | ArchivedImmutable | ParentNotFound | ParentArchived | Cyclic
    | NameTaken | CodeTaken | HeadNotFound | HeadInactive | InvalidTransition | HasChildren | HasMembers

  datatype Change<T> = Leave | Set(to: T)

  datatype Update = Update(parent: Change<Option<Id>>, name: Change<string>, code: Change<Option<string>>,
                           head: Change<Option<Id>>)

  // ---- The tree, by parent pointers ---------------------------------------------------------------

  /** `n` steps up the parent pointers. */
  function Up(t: Table, d: Id, n: nat): Option<Id> {
    if n == 0 then Some(d)
    else
      match Up(t, d, n - 1)
      case None => None
      case Some(x) => if x in t then t[x].parent else None
  }

  /** `a` is `d` or an ancestor of `d`. */
  ghost predicate Reaches(t: Table, d: Id, a: Id) {
    exists n :: Up(t, d, n) == Some(a)
  }

  /** The row's path is its parent's path with the own id under it. */
  ghost predicate RowOk(t: Table, d: Id)
    requires d in t
  {
    && ValidId(d)
    && (t[d].parent.Some? ==> t[d].parent.value in t)
    && t[d].path == PathUnder(ParentPath(t, t[d].parent), d)
  }

  ghost predicate TreeOk(t: Table) {
    forall d {:trigger RowOk(t, d)} :: d in t ==> RowOk(t, d)
  }

  function ParentPath(t: Table, parent: Option<Id>): Option<string> {
    if parent.Some? && parent.value in t then Some(t[parent.value].path) else None
  }

  /** Root first, ending in the department itself. */
  ghost function Chain(t: Table, d: Id): (ids: seq<Id>)
    requires TreeOk(t) && d in t
    ensures ids != [] && ids[|ids| - 1] == d
    decreases |t[d].path|
  {
    assert RowOk(t, d);
    if t[d].parent.None? then [d] else Chain(t, t[d].parent.value) + [d]
  }

  lemma {:induction false} PathEncodesChain(t: Table, d: Id)
    requires TreeOk(t) && d in t
    ensures ValidIds(Chain(t, d)) && t[d].path == Encode(Chain(t, d))
    decreases |t[d].path|
  {
    assert RowOk(t, d);
    if t[d].parent.None? {
      EncodeOfAppend([], d);
      assert [] + [d] == [d];
    } else {
      PathEncodesChain(t, t[d].parent.value);
      EncodeOfAppend(Chain(t, t[d].parent.value), d);
    }
  }

  /** Walking up reads the chain backwards and then stops. */
  lemma {:induction false} UpReadsChain(t: Table, d: Id, n: nat)
    requires TreeOk(t) && d in t
    ensures var c := Chain(t, d);
            Up(t, d, n) == (if n < |c| then Some(c[|c| - 1 - n]) else None)
            && (n < |c| ==> c[|c| - 1 - n] in t && Chain(t, c[|c| - 1 - n]) == c[..|c| - n])
  {
    var c := Chain(t, d);
    if n > 0 {
      UpReadsChain(t, d, n - 1);
      if n - 1 < |c| {
        var x := c[|c| - n];
        ChainStep(t, x);
        assert c[..|c| - n + 1][..|c| - n] == c[..|c| - n];
      }
    } else {
      assert c[..|c|] == c;
    }
  }

  lemma ChainStep(t: Table, x: Id)
    requires TreeOk(t) && x in t
    ensures t[x].parent.None? ==> Chain(t, x) == [x]
    ensures t[x].parent.Some? ==>
      t[x].parent.value in t && Chain(t, x) == Chain(t, t[x].parent.value) + [x]
      && Chain(t, t[x].parent.value) == Chain(t, x)[..|Chain(t, x)| - 1]
  {
    assert RowOk(t, x);
  }

  /** The character-level test on paths is ancestry by parent pointers. */
  lemma WithinSubtreeIsAncestry(t: Table, d: Id, a: Id)
    requires TreeOk(t) && d in t && a in t
    ensures IsWithinSubtree(t[d].path, t[a].path) <==> Reaches(t, d, a)
  {
    var (c, ca) := (Chain(t, d), Chain(t, a));
    PathEncodesChain(t, d);
    PathEncodesChain(t, a);
    EncodePrefix(ca, c);
    if ca <= c {
      UpReadsChain(t, d, |c| - |ca|);
      assert c[|ca| - 1] == a;
    }
    if Reaches(t, d, a) {
      var n :| Up(t, d, n) == Some(a);
      UpReadsChain(t, d, n);
    }
  }

  /** The depth shown is the number of ancestors: that many steps up is a root, which has no parent. */
  lemma DepthCountsAncestors(t: Table, d: Id) returns (root: Id)
    requires TreeOk(t) && d in t
    ensures Up(t, d, DepthOfPath(t[d].path)) == Some(root) && root in t && t[root].parent == None
  {
    PathEncodesChain(t, d);
    var c := Chain(t, d);
    SegmentsOfPath(c);
    UpReadsChain(t, d, |c| - 1);
    root := c[0];
    RootOfSingleChain(t, root);
  }

  lemma RootOfSingleChain(t: Table, d: Id)
    requires TreeOk(t) && d in t && |Chain(t, d)| == 1
    ensures t[d].parent == None
  {
    ChainStep(t, d);
  }

  lemma PathsDiffer(t: Table, d: Id, e: Id)
    requires TreeOk(t) && d in t && e in t && t[d].path == t[e].path
    ensures d == e
  {
    PathEncodesChain(t, d);
    PathEncodesChain(t, e);
    EncodeInjective(Chain(t, d), Chain(t, e));
  }

  /** No department is above itself. */
  lemma NoCycle(t: Table, d: Id, n: nat)
    requires TreeOk(t) && d in t && n > 0
    ensures Up(t, d, n) != Some(d)
  {
    UpReadsChain(t, d, n);
    UpReadsChain(t, d, 0);
    var c := Chain(t, d);
    if n < |c| { assert |Chain(t, c[|c| - 1 - n])| < |c|; }
  }

  // ---- Listing ------------------------------------------------------------------------------------

  ghost predicate Listing(t: Table, rows: seq<Id>) {
    && (forall i :: 0 <= i < |rows| ==> rows[i] in t)
    && (forall i, j :: 0 <= i < j < |rows| ==> rows[i] != rows[j] && LexLeq(t[rows[i]].path, t[rows[j]].path))
  }

  /** In path order every subtree is one contiguous block that its root opens, so a parent always
      comes before its children. */
  lemma SubtreesAreContiguous(t: Table, rows: seq<Id>, a: Id, i: nat, j: nat, k: nat)
    requires TreeOk(t) && Listing(t, rows) && a in t && i < j < k < |rows|
    requires Reaches(t, rows[i], a) && Reaches(t, rows[k], a)
    ensures Reaches(t, rows[j], a) && rows[j] != a && rows[k] != a
  {
    WithinSubtreeIsAncestry(t, rows[i], a);
    WithinSubtreeIsAncestry(t, rows[j], a);
    WithinSubtreeIsAncestry(t, rows[k], a);
    PrefixIsInterval(t[a].path, t[rows[i]].path, t[rows[j]].path, t[rows[k]].path);
    RootOpensItsBlock(t, rows, a, i, j);
    RootOpensItsBlock(t, rows, a, i, k);
  }

  lemma RootOpensItsBlock(t: Table, rows: seq<Id>, a: Id, i: nat, j: nat)
    requires TreeOk(t) && Listing(t, rows) && a in t && i < j < |rows|
    requires Reaches(t, rows[i], a)
    ensures rows[j] != a
  {
    WithinSubtreeIsAncestry(t, rows[i], a);
    PrefixIsLower(t[a].path, t[rows[i]].path);
    if rows[j] == a {
      LexAntisymmetric(t[a].path, t[rows[i]].path);
      PathsDiffer(t, a, rows[i]);
      assert false;
    }
  }

  // ---- Operations ---------------------------------------------------------------------------------

  predicate NameFree(t: Table, name: string, parent: Option<Id>, exclude: Option<Id>) {
    forall d :: d in t && t[d].parent == parent && t[d].name == name ==> exclude == Some(d)
  }

  predicate CodeFree(t: Table, code: Option<string>, exclude: Option<Id>) {
    code.Some? ==> forall d :: d in t && t[d].code == code ==> exclude == Some(d)
  }

  function HeadProblem(members: Members, head: Option<Id>): Option<Error> {
    if head.None? then None
    else if head.value !in members then Some(HeadNotFound)
    else if !members[head.value] then Some(HeadInactive)
    else None
  }

  function ParentProblem(t: Table, parent: Option<Id>): Option<Error> {
    if parent.None? then None
    else if parent.value !in t then Some(ParentNotFound)
    else if t[parent.value].archived then Some(ParentArchived)
    else None
  }

  function Created(t: Table, members: Members, id: Id, parent: Option<Id>, name: string, code: Option<string>,
                   head: Option<Id>): Result<Table, Error> {
    if ParentProblem(t, parent).Some? then Err(ParentProblem(t, parent).value)
    else if !NameFree(t, name, parent, None) then Err(NameTaken)
    else if !CodeFree(t, code, None) then Err(CodeTaken)
    else if HeadProblem(members, head).Some? then Err(HeadProblem(members, head).value)
    else Ok(t[id := Dept(parent, name, code, PathUnder(ParentPath(t, parent), id), head, false, 1)])
  }

  predicate Reparents(row: Dept, input: Update) {
    input.parent.Set? && input.parent.to != row.parent
  }

  /** The first check of `update` that refuses it, in the order the service makes them. */
  function UpdateProblem(t: Table, members: Members, id: Id, input: Update, expected: nat): Option<Error> {
    if id !in t then Some(NotFound)
    else
      var row := t[id];
      if expected != row.version then Some(StaleVersion)
      else if row.archived then Some(ArchivedImmutable)
      else
        var moving := Reparents(row, input);
        if moving && ParentProblem(t, input.parent.to).Some? then ParentProblem(t, input.parent.to)
        else if moving && input.parent.to.Some? && IsWithinSubtree(t[input.parent.to.value].path, row.path) then Some(Cyclic)
        else
          var parent := if moving then input.parent.to else row.parent;
          if input.name.Set? && input.name.to != row.name && !NameFree(t, input.name.to, parent, Some(id)) then Some(NameTaken)
          else if !(input.name.Set? && input.name.to != row.name) && moving && !NameFree(t, row.name, parent, Some(id)) then
            Some(NameTaken)
          else if input.code.Set? && input.code.to != row.code && !CodeFree(t, input.code.to, Some(id)) then Some(CodeTaken)
          else if input.head.Set? then HeadProblem(members, input.head.to)
          else None
  }

  /** The row `update` writes. */
  function NewRow(t: Table, id: Id, input: Update): Dept
    requires id in t
  {
    var row := t[id];
    var moving := Reparents(row, input);
    row.(name := if input.name.Set? then input.name.to else row.name,
         code := if input.code.Set? then input.code.to else row.code,
         head := if input.head.Set? then input.head.to else row.head,
         parent := if moving then input.parent.to else row.parent,
         path := if moving then PathUnder(ParentPath(t, input.parent.to), id) else row.path,
         version := row.version + 1)
  }

  /** `path` with the subtree's old prefix replaced. */
  function Repath(path: string, oldPath: string, newPath: string): string {
    if oldPath <= path && path != oldPath then newPath + path[|oldPath|..] else path
  }

  function Rewritten(t: Table, oldPath: string, newPath: string): Table {
    map d | d in t :: t[d].(path := Repath(t[d].path, oldPath, newPath))
  }

  function Descendants(t: Table, oldPath: string): set<Id> {
    set d | d in t && oldPath <= t[d].path && t[d].path != oldPath
  }

  /** The table after an accepted update, and how many rows were re-pathed. */
  function Updated(t: Table, id: Id, input: Update): (Table, nat)
    requires id in t
  {
    var written := t[id := NewRow(t, id, input)];
    if Reparents(t[id], input) then
      (Rewritten(written, t[id].path, NewRow(t, id, input).path), |Descendants(written, t[id].path)|)
    else (written, 0)
  }

  function ArchiveProblem(t: Table, staffed: set<Id>, id: Id, archived: bool, expected: nat): Option<Error> {
    if id !in t then Some(NotFound)
    else if expected != t[id].version then Some(StaleVersion)
    else if t[id].archived == archived then Some(InvalidTransition)
    else if archived && exists c :: c in t && t[c].parent == Some(id) && !t[c].archived then Some(HasChildren)
    else if archived && id in staffed then Some(HasMembers)
    else None
  }

  function Archived(t: Table, id: Id, archived: bool): Table
    requires id in t
  {
    t[id := t[id].(archived := archived, head := if archived then None else t[id].head, version := t[id].version + 1)]
  }

  /** The row after an accepted update: what it set is as asked, and what it left is as it was. */
  predicate AsAsked(before: Dept, after: Dept, input: Update) {
    && after.parent == (if input.parent.Set? then input.parent.to else before.parent)
    && after.name == (if input.name.Set? then input.name.to else before.name)
    && after.code == (if input.code.Set? then input.code.to else before.code)
    && after.head == (if input.head.Set? then input.head.to else before.head)
    && after.archived == before.archived && after.version == before.version + 1
  }

  class DepartmentsService {
    var rows: Table

    constructor ()
      ensures rows == map[]
    {
      rows := map[];
    }

    /** `id` is the identifier generated for the new row. */
    method Create(members: Members, id: Id, parent: Option<Id>, name: string, code: Option<string>, head: Option<Id>)
      returns (refused: Option<Error>)
      modifies this
      ensures match Created(old(rows), members, id, parent, name, code, head)
              case Ok(t) => refused == None && rows == t
              case Err(e) => refused == Some(e) && rows == old(rows)
    {
      refused := ParentProblem(rows, parent);
      if refused.Some? {
        return;
      }
      if !NameFree(rows, name, parent, None) {
        return Some(NameTaken);
      }
      if !CodeFree(rows, code, None) {
        return Some(CodeTaken);
      }
      refused := HeadProblem(members, head);
      if refused.Some? {
        return;
      }
      rows := rows[id := Dept(parent, name, code, PathUnder(ParentPath(rows, parent), id), head, false, 1)];
    }

    /** Every check comes before anything is written. */
    method UpdateDepartment(members: Members, id: Id, input: Update, expected: nat)
      returns (refused: Option<Error>, moved: nat)
      modifies this
      ensures refused == UpdateProblem(old(rows), members, id, input, expected)
      ensures refused.Some? ==> rows == old(rows)
      ensures refused == None ==> id in old(rows) && (rows, moved) == Updated(old(rows), id, input)
      ensures refused == None ==> id in rows && AsAsked(old(rows)[id], rows[id], input)
    {
      moved := 0;
      if id !in rows {
        return Some(NotFound), 0;
      }
      var before := rows[id];
      if expected != before.version {
        return Some(StaleVersion), 0;
      }
      if before.archived {
        return Some(ArchivedImmutable), 0;
      }
      var reparenting := input.parent.Set? && input.parent.to != before.parent;
      if reparenting {
        refused := ParentProblem(rows, input.parent.to);
        if refused.Some? {
          return;
        }
        if input.parent.to.Some? && IsWithinSubtree(rows[input.parent.to.value].path, before.path) {
          return Some(Cyclic), 0;
        }
      }
      var nextParent := if reparenting then input.parent.to else before.parent;
      if input.name.Set? && input.name.to != before.name {
        if !NameFree(rows, input.name.to, nextParent, Some(id)) {
          return Some(NameTaken), 0;
        }
      } else if reparenting {
        if !NameFree(rows, before.name, nextParent, Some(id)) {
          return Some(NameTaken), 0;
        }
      }
      if input.code.Set? && input.code.to != before.code && !CodeFree(rows, input.code.to, Some(id)) {
        return Some(CodeTaken), 0;
      }
      if input.head.Set? {
        refused := HeadProblem(members, input.head.to);
        if refused.Some? {
          return;
        }
      }
      var after := NewRow(rows, id, input);
      rows := rows[id := after];
      if reparenting {
        moved := RewriteSubtree(before.path, after.path);
      }
      refused := None;
    }

    /** The rows are visited in no particular order. A row whose path is still `oldPath` would be found and
        passed over; after a move there is none, since the moved row carries its new path by then. */
    method RewriteSubtree(oldPath: string, newPath: string) returns (rewritten: nat)
      modifies this
      ensures rows == Rewritten(old(rows), oldPath, newPath)
      ensures rewritten == |Descendants(old(rows), oldPath)|
    {
      ghost var start := rows;
      var found := map d | d in rows && oldPath <= rows[d].path :: rows[d].path;
      var todo := found.Keys;
      ghost var moved: set<Id> := {};
      rewritten := 0;
      while todo != {}
        invariant todo <= found.Keys && rows.Keys == start.Keys
        invariant forall d :: d in start && (d !in found || d in todo) ==> rows[d] == start[d]
        invariant forall d :: d in found && d !in todo ==> rows[d] == start[d].(path := Repath(start[d].path, oldPath, newPath))
        invariant forall d :: d in moved <==> d in found && d !in todo && start[d].path != oldPath
        invariant rewritten == |moved|
        decreases |todo|
      {
        var d :| d in todo;
        todo := todo - {d};
        if found[d] == oldPath {
          continue;
        }
        rows := rows[d := rows[d].(path := newPath + found[d][|oldPath|..])];
        moved := moved + {d};
        rewritten := rewritten + 1;
      }
      assert moved == Descendants(start, oldPath);
      AllRewritten(start, rows, oldPath, newPath);
    }

    /** Archive, or restore. `staffed` are the departments with active members. */
    method SetArchived(staffed: set<Id>, id: Id, archived: bool, expected: nat) returns (refused: Option<Error>)
      modifies this
      ensures refused == ArchiveProblem(old(rows), staffed, id, archived, expected)
      ensures refused.Some? ==> rows == old(rows)
      ensures refused == None ==> id in old(rows) && rows == Archived(old(rows), id, archived)
    {
      if id !in rows {
        return Some(NotFound);
      }
      var before := rows[id];
      if expected != before.version {
        return Some(StaleVersion);
      }
      if before.archived == archived {
        return Some(InvalidTransition);
      }
      if archived {
        var children := set c | c in rows && rows[c].parent == Some(id);
        if exists c :: c in children && !rows[c].archived {
          return Some(HasChildren);
        }
        if id in staffed {
          return Some(HasMembers);
        }
      }
      var head := if archived then None else before.head;
      rows := rows[id := before.(archived := archived, head := head, version := before.version + 1)];
      return None;
    }
  }

  // ---- What every operation keeps -----------------------------------------------------------------

  ghost predicate NamesUnique(t: Table) {
    forall d, e :: d in t && e in t && d != e && t[d].parent == t[e].parent ==> t[d].name != t[e].name
  }

  ghost predicate CodesUnique(t: Table) {
    forall d, e :: d in t && e in t && d != e && t[d].code.Some? ==> t[d].code != t[e].code
  }

  ghost predicate IndexOk(t: Table) {
    TreeOk(t) && NamesUnique(t) && CodesUnique(t)
  }

  /** Rows that keep their parents and paths keep the tree. */
  lemma SameShape(t: Table, t': Table)
    requires TreeOk(t) && t.Keys == t'.Keys
    requires forall d :: d in t ==> t'[d].parent == t[d].parent && t'[d].path == t[d].path
    ensures TreeOk(t')
  {
    forall d | d in t' ensures RowOk(t', d) { assert RowOk(t, d); }
  }

  lemma CreateKeeps(t: Table, members: Members, id: Id, parent: Option<Id>, name: string, code: Option<string>, head: Option<Id>)
    requires IndexOk(t) && ValidId(id) && id !in t
    ensures var r := Created(t, members, id, parent, name, code, head);
            r.Ok? ==> IndexOk(r.value) && r.value.Keys == t.Keys + {id} && forall d :: d in t ==> r.value[d] == t[d]
  {
    var r := Created(t, members, id, parent, name, code, head);
    if r.Ok? { LeafKeepsTree(t, id, r.value[id], parent); }
  }

  lemma LeafKeepsTree(t: Table, id: Id, row: Dept, parent: Option<Id>)
    requires TreeOk(t) && ValidId(id) && id !in t && row.parent == parent && (parent.Some? ==> parent.value in t)
    requires row.path == PathUnder(ParentPath(t, parent), id)
    ensures TreeOk(t[id := row])
  {
    var r := t[id := row];
    forall d | d in r ensures RowOk(r, d) { if d != id { assert RowOk(t, d); } }
  }

  lemma ArchiveKeeps(t: Table, id: Id, archived: bool)
    requires IndexOk(t) && id in t
    ensures IndexOk(Archived(t, id, archived))
  {
    SameShape(t, Archived(t, id, archived));
  }

  lemma ParentIsInside(t: Table, d: Id, a: Id)
    requires TreeOk(t) && d in t && a in t && d != a && t[a].path <= t[d].path
    ensures t[d].path != t[a].path && t[d].parent.Some? && t[d].parent.value in t
    ensures t[a].path <= t[t[d].parent.value].path
  {
    var (c, ca) := (Chain(t, d), Chain(t, a));
    PathEncodesChain(t, d);
    PathEncodesChain(t, a);
    EncodePrefix(ca, c);
    assert c[|c| - 1] == d && ca[|ca| - 1] == a;
    assert |ca| < |c|;
    EncodePrefix(c, ca);
    ChainStep(t, d);
    var p := t[d].parent.value;
    PathEncodesChain(t, p);
    EncodePrefix(ca, Chain(t, p));
  }

  lemma PrefixOfAppend(c: seq<Id>, base: seq<Id>, x: Id)
    requires !(c <= base) && c != base + [x]
    ensures !(c <= base + [x])
  {
    if |c| <= |base| { assert (base + [x])[..|c|] == base[..|c|]; }
  }

  /** The new path does not extend the old one, so the rewrite never meets the moved row itself. */
  lemma MovedRowLeavesItsSubtree(t: Table, id: Id, to: Option<Id>)
    requires TreeOk(t) && id in t && to != t[id].parent
    requires to.Some? ==> to.value in t && !IsWithinSubtree(t[to.value].path, t[id].path)
    ensures !(t[id].path <= PathUnder(ParentPath(t, to), id))
  {
    PathEncodesChain(t, id);
    var c := Chain(t, id);
    var base := if to.Some? then Chain(t, to.value) else [];
    if to.Some? { PathEncodesChain(t, to.value); EncodePrefix(c, base); }
    ChainStep(t, id);
    assert (base + [id])[..|base|] == base;
    PrefixOfAppend(c, base, id);
    EncodeOfAppend(base, id);
    EncodePrefix(c, base + [id]);
  }

  lemma AllRewritten(t: Table, u: Table, oldPath: string, newPath: string)
    requires t.Keys == u.Keys
    requires forall d :: d in t && oldPath <= t[d].path ==> u[d] == t[d].(path := Repath(t[d].path, oldPath, newPath))
    requires forall d :: d in t && !(oldPath <= t[d].path) ==> u[d] == t[d]
    ensures u == Rewritten(t, oldPath, newPath)
  {
    forall d | d in t ensures u[d] == Rewritten(t, oldPath, newPath)[d] {}
  }

  /** The table once `row` has replaced `id` and its old subtree has been re-pathed under it. */
  function Moved(t: Table, id: Id, row: Dept): Table
    requires id in t
  {
    Rewritten(t[id := row], t[id].path, row.path)
  }

  /** The heart of a move: re-pathing the subtree makes every path right again. */
  lemma MoveKeepsTree(t: Table, id: Id, row: Dept)
    requires TreeOk(t) && id in t && row.parent != t[id].parent && row.path == PathUnder(ParentPath(t, row.parent), id)
    requires row.parent.Some? ==> row.parent.value in t && !IsWithinSubtree(t[row.parent.value].path, t[id].path)
    ensures TreeOk(Moved(t, id, row))
    ensures forall d :: d in t && d != id ==>
      Moved(t, id, row)[d] == t[d].(path := Repath(t[d].path, t[id].path, row.path))
    ensures Moved(t, id, row)[id] == row
  {
    MovedRowLeavesItsSubtree(t, id, row.parent);
    var t' := Moved(t, id, row);
    assert t'[id] == row;
    forall d | d in t' ensures RowOk(t', d) {
      assert RowOk(t, d);
      if d != id { DescendantRowOk(t, id, row, t', d); }
    }
  }

  lemma DescendantRowOk(t: Table, id: Id, row: Dept, t': Table, d: Id)
    requires TreeOk(t) && id in t && d in t && d != id && t'.Keys == t.Keys && t'[id] == row
    requires forall e :: e in t && e != id ==> t'[e] == t[e].(path := Repath(t[e].path, t[id].path, row.path))
    ensures RowOk(t', d)
  {
    assert RowOk(t, d);
    var oldPath := t[id].path;
    if oldPath <= t[d].path {
      ParentIsInside(t, d, id);
      var p := t[d].parent.value;
      assert oldPath <= t[p].path;
      if p != id { ParentIsInside(t, p, id); }
      assert t'[p].path == row.path + t[p].path[|oldPath|..];
      assert t[d].path[|oldPath|..] == t[p].path[|oldPath|..] + d + "/";
    } else if t[d].parent.Some? {
      var p := t[d].parent.value;
      assert t[d].path[..|t[p].path|] == t[p].path;
    }
  }

  /** After any accepted update every path is again the encoding of its parent chain, and names and
      codes stay unique. */
  lemma UpdateKeeps(t: Table, members: Members, id: Id, input: Update, expected: nat)
    requires IndexOk(t) && UpdateProblem(t, members, id, input, expected) == None
    ensures id in t && IndexOk(Updated(t, id, input).0)
  {
    var row := NewRow(t, id, input);
    var t' := Updated(t, id, input).0;
    assert RowOk(t, id);
    if Reparents(t[id], input) { MoveKeepsTree(t, id, row); } else { SameShape(t, t'); }
    assert t'[id] == row;
    var sameName := row.name == t[id].name && row.parent == t[id].parent;
    assert sameName || NameFree(t, row.name, row.parent, Some(id));
    StillUnique(t, id, row, t');
  }

  lemma StillUnique(t: Table, id: Id, row: Dept, t': Table)
    requires NamesUnique(t) && CodesUnique(t) && id in t && t'.Keys == t.Keys && t'[id] == row
    requires forall d :: d in t && d != id ==> t'[d] == t[d].(path := t'[d].path)
    requires NameFree(t, row.name, row.parent, Some(id)) || (row.name == t[id].name && row.parent == t[id].parent)
    requires CodeFree(t, row.code, Some(id)) || row.code == t[id].code
    ensures NamesUnique(t') && CodesUnique(t')
  {}

  // ---- What each call does, and why it is refused -------------------------------------------------

  predicate Missing(t: Table, parent: Option<Id>) {
    parent.Some? && parent.value !in t
  }

  predicate UnderArchived(t: Table, parent: Option<Id>) {
    parent.Some? && parent.value in t && t[parent.value].archived
  }

  /** Another department under this parent has the name. */
  predicate SiblingNamed(t: Table, id: Id, parent: Option<Id>, name: string) {
    exists d :: d in t && d != id && t[d].parent == parent && t[d].name == name
  }

  predicate CodeUsed(t: Table, id: Id, code: Option<string>) {
    code.Some? && exists d :: d in t && d != id && t[d].code == code
  }

  predicate Unknown(members: Members, head: Option<Id>) {
    head.Some? && head.value !in members
  }

  predicate Inactive(members: Members, head: Option<Id>) {
    head.Some? && head.value in members && !members[head.value]
  }

  /** What is created, and each refusal exactly. */
  lemma CreatesExactly(t: Table, members: Members, id: Id, parent: Option<Id>, name: string, code: Option<string>, head: Option<Id>)
    requires id !in t
    ensures var r := Created(t, members, id, parent, name, code, head);
            var parentFine := !Missing(t, parent) && !UnderArchived(t, parent);
            var named := parentFine && !SiblingNamed(t, id, parent, name);
            && (r == Err(ParentNotFound) <==> Missing(t, parent))
            && (r == Err(ParentArchived) <==> UnderArchived(t, parent))
            && (r == Err(NameTaken) <==> parentFine && SiblingNamed(t, id, parent, name))
            && (r == Err(CodeTaken) <==> named && CodeUsed(t, id, code))
            && (r == Err(HeadNotFound) <==> named && !CodeUsed(t, id, code) && Unknown(members, head))
            && (r == Err(HeadInactive) <==> named && !CodeUsed(t, id, code) && Inactive(members, head))
            && (r.Ok? <==> named && !CodeUsed(t, id, code) && !Unknown(members, head) && !Inactive(members, head))
            && (r.Ok? ==> r.value.Keys == t.Keys + {id} && (forall d :: d in t ==> r.value[d] == t[d])
                          && r.value[id] == Dept(parent, name, code, r.value[id].path, head, false, 1))
  {}

  /** After an accepted update the row says what was asked, wherever the department has moved. */
  lemma UpdateDoesAsAsked(t: Table, members: Members, id: Id, input: Update, expected: nat)
    requires TreeOk(t) && UpdateProblem(t, members, id, input, expected) == None
    ensures id in t && AsAsked(t[id], Updated(t, id, input).0[id], input)
  {
    assert RowOk(t, id);
    if Reparents(t[id], input) { MoveKeepsTree(t, id, NewRow(t, id, input)); }
  }

  /** Each refusal of an update exactly: `parent` and `name` are those the department would have. */
  lemma UpdateRefusedExactly(t: Table, members: Members, id: Id, input: Update, expected: nat)
    requires TreeOk(t) && id in t && expected == t[id].version && !t[id].archived
    ensures var (p, row) := (UpdateProblem(t, members, id, input, expected), t[id]);
            var parent := if input.parent.Set? then input.parent.to else row.parent;
            var name := if input.name.Set? then input.name.to else row.name;
            var code := if input.code.Set? then input.code.to else row.code;
            var moves := parent != row.parent;
            var cyclic := moves && parent.Some? && parent.value in t && Reaches(t, parent.value, id);
            var placed := !(moves && (Missing(t, parent) || UnderArchived(t, parent))) && !cyclic;
            var named := placed && !((moves || name != row.name) && SiblingNamed(t, id, parent, name));
            var coded := named && !(code != row.code && CodeUsed(t, id, code));
            && (p == Some(ParentNotFound) <==> moves && Missing(t, parent))
            && (p == Some(ParentArchived) <==> moves && UnderArchived(t, parent))
            && (p == Some(Cyclic) <==> cyclic && !UnderArchived(t, parent))
            && (p == Some(NameTaken) <==> placed && !named)
            && (p == Some(CodeTaken) <==> named && !coded)
            && (p == Some(HeadNotFound) <==> coded && input.head.Set? && Unknown(members, input.head.to))
            && (p == Some(HeadInactive) <==> coded && input.head.Set? && Inactive(members, input.head.to))
            && (p == None <==> coded && (input.head.Set? ==> !Unknown(members, input.head.to) && !Inactive(members, input.head.to)))
  {
    if Reparents(t[id], input) && input.parent.to.Some? && input.parent.to.value in t {
      WithinSubtreeIsAncestry(t, input.parent.to.value, id);
    }
  }

  /** The refusals that come before those, of an update and of archiving alike. */
  lemma StaleRefusedExactly(t: Table, members: Members, staffed: set<Id>, id: Id, input: Update, archived: bool, expected: nat)
    ensures var p := UpdateProblem(t, members, id, input, expected);
            && (p == Some(NotFound) <==> id !in t)
            && (p == Some(StaleVersion) <==> id in t && expected != t[id].version)
            && (p == Some(ArchivedImmutable) <==> id in t && expected == t[id].version && t[id].archived)
    ensures var p := ArchiveProblem(t, staffed, id, archived, expected);
            && (p == Some(NotFound) <==> id !in t)
            && (p == Some(StaleVersion) <==> id in t && expected != t[id].version)
  {}

  /** Archiving and restoring: what changes, and each refusal exactly. */
  lemma ArchivesExactly(t: Table, staffed: set<Id>, id: Id, archived: bool, expected: nat)
    requires id in t && expected == t[id].version
    ensures var p := ArchiveProblem(t, staffed, id, archived, expected);
            var parents := exists c :: c in t && t[c].parent == Some(id) && !t[c].archived;
            && (p == Some(InvalidTransition) <==> t[id].archived == archived)
            && (p == Some(HasChildren) <==> archived && !t[id].archived && parents)
            && (p == Some(HasMembers) <==> archived && !t[id].archived && !parents && id in staffed)
            && (p == None <==> t[id].archived != archived && (archived ==> !parents && id !in staffed))
    ensures var (u, row) := (Archived(t, id, archived), t[id]);
            && u.Keys == t.Keys && (forall d :: d in t && d != id ==> u[d] == t[d])
            && u[id] == Dept(row.parent, row.name, row.code, row.path, if archived then None else row.head, archived, row.version + 1)
  {}

  /** Parent pointers alone, with one of them moved. */
  function Repointed(t: Table, id: Id, to: Option<Id>): Table
    requires id in t
  {
    t[id := t[id].(parent := to)]
  }

  lemma {:induction false} UpUnaffected(t: Table, id: Id, to: Option<Id>, d: Id, n: nat)
    requires id in t && forall k :: 0 <= k < n ==> Up(t, d, k) != Some(id)
    ensures Up(Repointed(t, id, to), d, n) == Up(t, d, n)
  {
    if n > 0 { UpUnaffected(t, id, to, d, n - 1); }
  }

  lemma {:induction false} UpSplit(t: Table, d: Id, p: Id, n: nat)
    requires Up(t, d, 1) == Some(p)
    ensures Up(t, d, n + 1) == Up(t, p, n)
  {
    if n > 0 { UpSplit(t, d, p, n - 1); }
  }

  /** A move is refused as cyclic exactly when pointing the row at its new parent would put it above
      itself. */
  lemma RefusedExactlyWhenCyclic(t: Table, members: Members, id: Id, input: Update, expected: nat, p: Id)
    requires TreeOk(t) && id in t && expected == t[id].version && !t[id].archived
    requires Reparents(t[id], input) && input.parent.to == Some(p) && p in t && !t[p].archived
    ensures UpdateProblem(t, members, id, input, expected) == Some(Cyclic)
       <==> exists n: nat :: n > 0 && Up(Repointed(t, id, Some(p)), id, n) == Some(id)
  {
    var t' := Repointed(t, id, Some(p));
    WithinSubtreeIsAncestry(t, p, id);
    assert Up(t', id, 0) == Some(id);
    assert Up(t', id, 1) == Some(p);
    if Reaches(t, p, id) {
      var n := FirstStep(t, p, id);
      UpUnaffected(t, id, Some(p), p, n);
      UpSplit(t', id, p, n);
      assert Up(t', id, n + 1) == Some(id);
    }
    if n: nat :| n > 0 && Up(t', id, n) == Some(id) {
      UpSplit(t', id, p, n - 1);
      ReachedBefore(t, id, Some(p), p, n - 1);
    }
  }

  lemma ReachedBefore(t: Table, id: Id, to: Option<Id>, d: Id, n: nat)
    requires id in t && Up(Repointed(t, id, to), d, n) == Some(id)
    ensures Reaches(t, d, id)
  {
    if k: nat :| k < n && Up(t, d, k) == Some(id) {
      assert Reaches(t, d, id);
    } else {
      UpUnaffected(t, id, to, d, n);
    }
  }

  lemma FirstStep(t: Table, d: Id, a: Id) returns (n: nat)
    requires Reaches(t, d, a)
    ensures Up(t, d, n) == Some(a) && forall k :: 0 <= k < n ==> Up(t, d, k) != Some(a)
  {
    var m: nat :| Up(t, d, m) == Some(a);
    n := 0;
    while Up(t, d, n) != Some(a)
      invariant n <= m && forall k :: 0 <= k < n ==> Up(t, d, k) != Some(a)
      decreases m - n
    {
      n := n + 1;
    }
  }

  /** A move touches the moved row, and of the others only the paths of its proper descendants, whose
      number it returns. */
  lemma MoveTouchesOnlyItsSubtree(t: Table, members: Members, id: Id, input: Update, expected: nat)
    requires TreeOk(t) && UpdateProblem(t, members, id, input, expected) == None
    ensures id in t
    ensures var (t', moved) := Updated(t, id, input);
            && t'.Keys == t.Keys
            && (forall d :: d in t && d != id && !(Reparents(t[id], input) && Reaches(t, d, id)) ==> t'[d] == t[d])
            && (forall d :: d in t && d != id && Reparents(t[id], input) && Reaches(t, d, id) ==>
                  t'[d] == t[d].(path := t'[d].path) && t'[d].path != t[d].path)
            && (Reparents(t[id], input) ==> exists below: set<Id> ::
                  moved == |below| && forall d :: d in below <==> d in t && d != id && Reaches(t, d, id))
  {
    if Reparents(t[id], input) {
      var row := NewRow(t, id, input);
      assert RowOk(t, id);
      MoveKeepsTree(t, id, row);
      MovedRowLeavesItsSubtree(t, id, input.parent.to);
      var below := Descendants(t[id := row], t[id].path);
      forall d | d in t && d != id
        ensures d in below <==> Reaches(t, d, id)
        ensures Reaches(t, d, id) ==> Repath(t[d].path, t[id].path, row.path) != t[d].path
        ensures !Reaches(t, d, id) ==> Repath(t[d].path, t[id].path, row.path) == t[d].path
      {
        WithinSubtreeIsAncestry(t, d, id);
        if Reaches(t, d, id) {
          ParentIsInside(t, d, id);
          SuffixChange(t[d].path, t[id].path, row.path);
        }
      }
      assert id !in below;
      assert forall d :: d in below <==> d in t && d != id && Reaches(t, d, id);
    }
  }

  lemma SuffixChange(path: string, oldPath: string, newPath: string)
    requires oldPath <= path && !(oldPath <= newPath) && path != oldPath
    ensures Repath(path, oldPath, newPath) != path
  {
    var r := newPath + path[|oldPath|..];
    assert r[..|newPath|] == newPath && path[..|oldPath|] == oldPath;
  }

  // ---- Whole runs ---------------------------------------------------------------------------------

  /** A call, with the memberships and the staffed departments as they are when it is made. */
  datatype Op =
    | Create(members: Members, id: Id, parent: Option<Id>, name: string, code: Option<string>, head: Option<Id>)
    | Change(members: Members, id: Id, input: Update, expected: nat)
    | Archive(staffed: set<Id>, id: Id, archived: bool, expected: nat)

  function Apply(t: Table, op: Op): Table {
    match op
    case Create(members, id, parent, name, code, head) =>
      var r := Created(t, members, id, parent, name, code, head);
      if r.Ok? then r.value else t
    case Change(members, id, input, expected) =>
      if UpdateProblem(t, members, id, input, expected) == None then Updated(t, id, input).0 else t
    case Archive(staffed, id, archived, expected) =>
      if ArchiveProblem(t, staffed, id, archived, expected) == None then Archived(t, id, archived) else t
  }

  function Run(ops: seq<Op>): Table {
    if ops == [] then map[] else Apply(Run(ops[..|ops| - 1]), ops[|ops| - 1])
  }

  /** Generated identifiers are well formed and never reused. */
  ghost predicate FreshIds(ops: seq<Op>) {
    && (forall i :: 0 <= i < |ops| && ops[i].Create? ==> ValidId(ops[i].id))
    && (forall i, j :: 0 <= i < j < |ops| && ops[i].Create? && ops[j].Create? ==> ops[i].id != ops[j].id)
  }

  /** Any sequence of create, update and archive calls, refused ones included, leaves the whole index
      right: paths, sibling names and codes. */
  lemma {:induction false} RunKeepsTheIndex(ops: seq<Op>)
    requires FreshIds(ops)
    ensures IndexOk(Run(ops))
    ensures forall d :: d in Run(ops) ==> exists i :: 0 <= i < |ops| && ops[i].Create? && ops[i].id == d
  {
    if ops != [] {
      var (before, op) := (ops[..|ops| - 1], ops[|ops| - 1]);
      RunKeepsTheIndex(before);
      var t := Run(before);
      match op {
        case Create(members, id, parent, name, code, head) => CreateKeeps(t, members, id, parent, name, code, head);
        case Change(members, id, input, expected) =>
          if UpdateProblem(t, members, id, input, expected) == None {
            UpdateKeeps(t, members, id, input, expected);
            MoveTouchesOnlyItsSubtree(t, members, id, input, expected);
          }
        case Archive(staffed, id, archived, expected) =>
          if ArchiveProblem(t, staffed, id, archived, expected) == None { ArchiveKeeps(t, id, archived); }
      }
      forall d | d in Run(ops)
        ensures exists i :: 0 <= i < |ops| && ops[i].Create? && ops[i].id == d
      {
        if d in t {
          var i :| 0 <= i < |before| && before[i].Create? && before[i].id == d;
          assert ops[i] == before[i];
        } else {
          assert ops[|ops| - 1].Create?;
        }
      }
    }
  }
}
