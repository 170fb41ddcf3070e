/** Delegated approval authority, and why no chain of it can form. */
module Delegations {
  import opened Wrappers

  type Member = nat

  datatype Row = Row(from: Member, to: Member, startsAt: int, endsAt: int, revoked: bool, version: nat)

  /** The delegation table; a row's index is its id. */
  type Table = seq<Row>

  /** Active memberships, and whether the role of each holds `approval:act`. */
  type Members = map<Member, bool>

  datatype Request = Request(actor: Option<Member>, from: Option<Member>, to: Member, startsAt: int, endsAt: int,
                             canDelegateOthers: bool)

  datatype Error =
    | EmptyWindow | Forbidden | ToYourself | NotFound | CannotAct | StaleVersion | AlreadyRevoked
    | AlreadyLent | WouldChainIn | WouldChainOut

  predicate Overlaps(a: Row, startsAt: int, endsAt: int) {
    !a.revoked && a.startsAt < endsAt && a.endsAt > startsAt
  }

  function Lender(r: Request): Member
    requires r.actor.Some?
  {
    if r.from.Some? then r.from.value else r.actor.value
  }

  /** The three refusals of `assertNoChain`, in its order. */
  function ChainProblem(t: Table, from: Member, to: Member, startsAt: int, endsAt: int): Option<Error> {
    if exists i :: 0 <= i < |t| && Overlaps(t[i], startsAt, endsAt) && t[i].from == from then Some(AlreadyLent)
    else if exists i :: 0 <= i < |t| && Overlaps(t[i], startsAt, endsAt) && t[i].to == from then Some(WouldChainIn)
    else if exists i :: 0 <= i < |t| && Overlaps(t[i], startsAt, endsAt) && t[i].from == to then Some(WouldChainOut)
    else None
  }

  function CreateProblem(t: Table, members: Members, r: Request): Option<Error> {
    if r.startsAt >= r.endsAt then Some(EmptyWindow)
    else if r.actor.None? then Some(Forbidden)
    else if Lender(r) != r.actor.value && !r.canDelegateOthers then Some(Forbidden)
    else if Lender(r) == r.to then Some(ToYourself)
    else if Lender(r) !in members || r.to !in members then Some(NotFound)
    else if !members[r.to] then Some(CannotAct)
    else ChainProblem(t, Lender(r), r.to, r.startsAt, r.endsAt)
  }

  function Created(t: Table, members: Members, r: Request): Table {
    if CreateProblem(t, members, r).Some? then t
    else t + [Row(Lender(r), r.to, r.startsAt, r.endsAt, false, 1)]
  }

  function RevokeProblem(t: Table, id: nat, expected: nat, actor: Option<Member>, canDelegateOthers: bool): Option<Error> {
    if id >= |t| then Some(NotFound)
    else if expected != t[id].version then Some(StaleVersion)
    else if actor != Some(t[id].from) && !canDelegateOthers then Some(Forbidden)
    else if t[id].revoked then Some(AlreadyRevoked)
    else None
  }

  function Revoked(t: Table, id: nat, expected: nat, actor: Option<Member>, canDelegateOthers: bool): Table {
    if RevokeProblem(t, id, expected, actor, canDelegateOthers).Some? then t
    else t[id := t[id].(revoked := true, version := t[id].version + 1)]
  }

  class DelegationService {
    var rows: Table

    constructor ()
      ensures rows == []
    {
      rows := [];
    }

    method Create(members: Members, r: Request) returns (refused: Option<Error>)
      modifies this
      ensures refused == CreateProblem(old(rows), members, r)
      ensures rows == Created(old(rows), members, r)
    {
      if r.startsAt >= r.endsAt {
        return Some(EmptyWindow);
      }
      if r.actor.None? {
        return Some(Forbidden);
      }
      var from := if r.from.Some? then r.from.value else r.actor.value;
      if from != r.actor.value && !r.canDelegateOthers {
        return Some(Forbidden);
      }
      if from == r.to {
        return Some(ToYourself);
      }
      if from !in members || r.to !in members {
        return Some(NotFound);
      }
      if !members[r.to] {
        return Some(CannotAct);
      }
      refused := AssertNoChain(from, r.to, r.startsAt, r.endsAt);
      if refused.Some? {
        return;
      }
      rows := rows + [Row(from, r.to, r.startsAt, r.endsAt, false, 1)];
    }

    /** Filter the overlapping rows, then look for each of the three conflicts among them. */
    method AssertNoChain(from: Member, to: Member, startsAt: int, endsAt: int) returns (refused: Option<Error>)
      ensures refused == ChainProblem(rows, from, to, startsAt, endsAt)
    {
      var overlapping: seq<Row> := [];
      var i := 0;
      while i < |rows|
        invariant 0 <= i <= |rows|
        invariant forall row :: row in overlapping <==> exists j :: 0 <= j < i && rows[j] == row && Overlaps(rows[j], startsAt, endsAt)
      {
        if Overlaps(rows[i], startsAt, endsAt) {
          overlapping := overlapping + [rows[i]];
        }
        i := i + 1;
      }
      assert forall j :: 0 <= j < |rows| && Overlaps(rows[j], startsAt, endsAt) ==> rows[j] in overlapping;
      if exists row :: row in overlapping && row.from == from {
        return Some(AlreadyLent);
      }
      if exists row :: row in overlapping && row.to == from {
        return Some(WouldChainIn);
      }
      if exists row :: row in overlapping && row.from == to {
        return Some(WouldChainOut);
      }
      return None;
    }

    method Revoke(id: nat, expected: nat, actor: Option<Member>, canDelegateOthers: bool) returns (refused: Option<Error>)
      modifies this
      ensures refused == RevokeProblem(old(rows), id, expected, actor, canDelegateOthers)
      ensures rows == Revoked(old(rows), id, expected, actor, canDelegateOthers)
    {
      if id >= |rows| {
        return Some(NotFound);
      }
      var before := rows[id];
      if expected != before.version {
        return Some(StaleVersion);
      }
      if actor != Some(before.from) && !canDelegateOthers {
        return Some(Forbidden);
      }
      if before.revoked {
        return Some(AlreadyRevoked);
      }
      rows := rows[id := before.(revoked := true, version := before.version + 1)];
      return None;
    }
  }

  // ---- What the table keeps -----------------------------------------------------------------------

  /** Counted from its first instant up to but not its last, while nobody has revoked it. */
  predicate InForce(row: Row, now: int) {
    !row.revoked && row.startsAt <= now < row.endsAt
  }

  ghost predicate Coexist(a: Row, b: Row) {
    exists now :: InForce(a, now) && InForce(b, now)
  }

  ghost predicate Conflict(a: Row, b: Row) {
    Coexist(a, b) && (a.from == b.from || a.to == b.from || a.from == b.to)
  }

  /** Two windows overlap when there is an instant in both. */
  lemma OverlapIsCoexistence(a: Row, b: Row)
    requires a.startsAt < a.endsAt && b.startsAt < b.endsAt
    ensures Coexist(a, b) <==> Overlaps(a, b.startsAt, b.endsAt) && !b.revoked
  {
    var later := if a.startsAt < b.startsAt then b.startsAt else a.startsAt;
    if Overlaps(a, b.startsAt, b.endsAt) && !b.revoked { assert InForce(a, later) && InForce(b, later); }
  }

  /** Rows are proper delegations and no two that coexist share a lender or meet end to start. */
  ghost predicate NoChains(t: Table) {
    && (forall i :: 0 <= i < |t| ==> t[i].from != t[i].to && t[i].startsAt < t[i].endsAt)
    && (forall i, j :: 0 <= i < j < |t| ==> !Conflict(t[i], t[j]))
  }

  /** Among well-formed requests, `create` refuses exactly those that would break the rule. */
  lemma RefusedExactlyWhenChaining(t: Table, from: Member, to: Member, startsAt: int, endsAt: int)
    requires NoChains(t) && from != to && startsAt < endsAt
    ensures ChainProblem(t, from, to, startsAt, endsAt) == None <==> NoChains(t + [Row(from, to, startsAt, endsAt, false, 1)])
  {
    var row := Row(from, to, startsAt, endsAt, false, 1);
    var t' := t + [row];
    forall i | 0 <= i < |t|
      ensures Conflict(t[i], row)
         <==> Overlaps(t[i], startsAt, endsAt) && (t[i].from == from || t[i].to == from || t[i].from == to)
    {
      OverlapIsCoexistence(t[i], row);
    }
    forall i | 0 <= i < |t| ensures !Conflict(t[i], row) <==> !Conflict(t'[i], t'[|t|]) {}
    assert ChainProblem(t, from, to, startsAt, endsAt) == None <==> forall i :: 0 <= i < |t| ==> !Conflict(t[i], row);
    assert forall i, j :: 0 <= i < j < |t| ==> t'[i] == t[i] && t'[j] == t[j];
  }

  datatype Op =
    | Create(members: Members, request: Request)
    | Revoke(id: nat, expected: nat, actor: Option<Member>, canDelegateOthers: bool)

  function Apply(t: Table, op: Op): Table {
    match op
    case Create(members, r) => Created(t, members, r)
    case Revoke(id, expected, actor, any) => Revoked(t, id, expected, actor, any)
  }

  function Run(ops: seq<Op>): Table {
    if ops == [] then [] else Apply(Run(ops[..|ops| - 1]), ops[|ops| - 1])
  }

  lemma {:induction false} RunHasNoChains(ops: seq<Op>)
    ensures NoChains(Run(ops))
  {
    if ops != [] {
      var (t, op) := (Run(ops[..|ops| - 1]), ops[|ops| - 1]);
      RunHasNoChains(ops[..|ops| - 1]);
      if op.Create? && CreateProblem(t, op.members, op.request) == None {
        var r := op.request;
        RefusedExactlyWhenChaining(t, Lender(r), r.to, r.startsAt, r.endsAt);
      }
    }
  }

  // ---- Who may lend, and why a request is refused --------------------------------------------------

  /** The delegation a request asks for: the actor's own authority unless it names somebody else's. */
  predicate AsksFor(r: Request, row: Row) {
    && (r.from == Some(row.from) || (r.from == None && r.actor == Some(row.from)))
    && row.to == r.to && row.startsAt == r.startsAt && row.endsAt == r.endsAt
  }

  /** The actor lends what is theirs, or may lend for others, to another member who may act on approvals. */
  predicate MayLend(members: Members, r: Request, row: Row) {
    && r.actor.Some? && (r.actor == Some(row.from) || r.canDelegateOthers) && row.from != row.to
    && row.from in members && row.to in members && members[row.to] && row.startsAt < row.endsAt
  }

  ghost predicate RequestedBy(op: Op, row: Row) {
    op.Create? && AsksFor(op.request, row) && MayLend(op.members, op.request, row)
  }

  ghost predicate RevokedBy(op: Op, id: nat, row: Row) {
    op.Revoke? && op.id == id && (op.actor == Some(row.from) || op.canDelegateOthers)
  }

  ghost predicate Accounted(ops: seq<Op>, id: nat, row: Row) {
    && (exists k :: 0 <= k < |ops| && RequestedBy(ops[k], row))
    && (row.revoked ==> exists k :: 0 <= k < |ops| && RevokedBy(ops[k], id, row))
  }

  /** Every delegation in the table was asked for by its lender or by somebody who may delegate for others,
      as it stands there, and one that is revoked was revoked by either. */
  lemma {:induction false} EveryDelegationWasAskedFor(ops: seq<Op>, id: nat)
    requires id < |Run(ops)|
    ensures Accounted(ops, id, Run(ops)[id])
  {
    var (before, op) := (ops[..|ops| - 1], ops[|ops| - 1]);
    var (t, u) := (Run(before), Run(ops));
    if id < |t| {
      EveryDelegationWasAskedFor(before, id);
      var k :| 0 <= k < |before| && RequestedBy(before[k], t[id]);
      assert RequestedBy(ops[k], u[id]);
      if t[id].revoked {
        var j :| 0 <= j < |before| && RevokedBy(before[j], id, t[id]);
        assert RevokedBy(ops[j], id, u[id]);
      } else if u[id].revoked {
        assert RevokedBy(ops[|ops| - 1], id, u[id]);
      }
    } else {
      assert RequestedBy(ops[|ops| - 1], u[id]);
    }
  }

  /** There is a row in force at some instant of the window, of this lender or to this borrower. */
  ghost predicate Lent(t: Table, from: Member, r: Request) {
    exists i :: 0 <= i < |t| && t[i].from == from && Meets(t[i], r)
  }

  ghost predicate Borrowed(t: Table, to: Member, r: Request) {
    exists i :: 0 <= i < |t| && t[i].to == to && Meets(t[i], r)
  }

  ghost predicate Meets(row: Row, r: Request) {
    exists now :: InForce(row, now) && r.startsAt <= now < r.endsAt
  }

  lemma MeetingIsOverlap(row: Row, r: Request)
    requires row.startsAt < row.endsAt && r.startsAt < r.endsAt
    ensures Meets(row, r) <==> Overlaps(row, r.startsAt, r.endsAt)
  {
    var later := if row.startsAt < r.startsAt then r.startsAt else row.startsAt;
    if Overlaps(row, r.startsAt, r.endsAt) { assert InForce(row, later) && r.startsAt <= later < r.endsAt; }
  }

  /** Each refusal of a request exactly, in a table of proper delegations. */
  lemma RequestRefusedExactly(t: Table, members: Members, r: Request)
    requires forall i :: 0 <= i < |t| ==> t[i].startsAt < t[i].endsAt
    ensures var p := CreateProblem(t, members, r);
            var lender := if r.from.Some? then r.from.value else if r.actor.Some? then r.actor.value else r.to;
            var proper := r.startsAt < r.endsAt;
            var allowed := proper && r.actor.Some? && (r.actor == Some(lender) || r.canDelegateOthers);
            var known := allowed && lender != r.to && lender in members && r.to in members;
            var free := known && members[r.to] && !Lent(t, lender, r);
            && (p == Some(EmptyWindow) <==> !proper)
            && (p == Some(Forbidden) <==> proper && !allowed)
            && (p == Some(ToYourself) <==> allowed && lender == r.to)
            && (p == Some(NotFound) <==> allowed && lender != r.to && !known)
            && (p == Some(CannotAct) <==> known && !members[r.to])
            && (p == Some(AlreadyLent) <==> known && members[r.to] && Lent(t, lender, r))
            && (p == Some(WouldChainIn) <==> free && Borrowed(t, lender, r))
            && (p == Some(WouldChainOut) <==> free && !Borrowed(t, lender, r) && Lent(t, r.to, r))
            && (p == None <==> free && !Borrowed(t, lender, r) && !Lent(t, r.to, r))
  {
    if r.startsAt < r.endsAt {
      forall i | 0 <= i < |t| ensures Meets(t[i], r) <==> Overlaps(t[i], r.startsAt, r.endsAt) { MeetingIsOverlap(t[i], r); }
    }
  }

  /** Each refusal of a revocation exactly. */
  lemma RevocationRefusedExactly(t: Table, id: nat, expected: nat, actor: Option<Member>, any: bool)
    ensures var p := RevokeProblem(t, id, expected, actor, any);
            var current := id < |t| && expected == t[id].version;
            var allowed := current && (actor == Some(t[id].from) || any);
            && (p == Some(NotFound) <==> id >= |t|)
            && (p == Some(StaleVersion) <==> id < |t| && !current)
            && (p == Some(Forbidden) <==> current && !allowed)
            && (p == Some(AlreadyRevoked) <==> allowed && t[id].revoked)
            && (p == None <==> allowed && !t[id].revoked)
    ensures var u := Revoked(t, id, expected, actor, any);
            && |u| == |t| && (forall i :: 0 <= i < |t| && i != id ==> u[i] == t[i])
            && (RevokeProblem(t, id, expected, actor, any) == None ==> u[id] == t[id].(revoked := true, version := t[id].version + 1))
  {}

  // ---- What the resolver reads --------------------------------------------------------------------

  predicate Live(row: Row, now: int) {
    row.startsAt <= now && row.endsAt > now && !row.revoked
  }

  /** The resolver's map, built row by row: a later row for the same lender would win. */
  function DelegatedTo(t: Table, now: int): map<Member, Member> {
    if t == [] then map[]
    else
      var row := t[|t| - 1];
      var earlier := DelegatedTo(t[..|t| - 1], now);
      if Live(row, now) then earlier[row.from := row.to] else earlier
  }

  function Hop(m: map<Member, Member>, x: Member): Member {
    if x in m then m[x] else x
  }

  /** Following delegations `n` times. */
  function Follow(m: map<Member, Member>, x: Member, n: nat): Member {
    if n == 0 then x else Hop(m, Follow(m, x, n - 1))
  }

  predicate LiveAs(row: Row, now: int, from: Member, to: Member) {
    InForce(row, now) && row.from == from && row.to == to
  }

  /** Some live row lends `from`'s authority to `to`. */
  ghost predicate Lends(t: Table, now: int, from: Member, to: Member) {
    exists i :: 0 <= i < |t| && LiveAs(t[i], now, from, to)
  }

  /** The map is exactly the relation of the live rows. */
  ghost predicate MapOf(m: map<Member, Member>, t: Table, now: int) {
    forall from, to :: Lends(t, now, from, to) <==> from in m && m[from] == to
  }

  /** Whatever the rows, every entry of the map comes from one and every lender has an entry. */
  lemma {:induction false} EntriesAreRows(t: Table, now: int)
    ensures forall from :: from in DelegatedTo(t, now) ==> Lends(t, now, from, DelegatedTo(t, now)[from])
    ensures forall from, to :: Lends(t, now, from, to) ==> from in DelegatedTo(t, now)
  {
    if t != [] {
      var (before, row) := (t[..|t| - 1], t[|t| - 1]);
      EntriesAreRows(before, now);
      forall from, to ensures Lends(t, now, from, to) <==> Lends(before, now, from, to) || LiveAs(row, now, from, to) {
        if Lends(before, now, from, to) {
          var i :| 0 <= i < |before| && LiveAs(before[i], now, from, to);
          assert t[i] == before[i];
        }
      }
    }
  }

  lemma LenderLendsOnce(t: Table, now: int, from: Member, a: Member, b: Member)
    requires NoChains(t) && Lends(t, now, from, a) && Lends(t, now, from, b)
    ensures a == b
  {
    var i :| 0 <= i < |t| && LiveAs(t[i], now, from, a);
    var j :| 0 <= j < |t| && LiveAs(t[j], now, from, b);
    forall k | 0 <= k < |t| && k != i ensures !(InForce(t[k], now) && t[k].from == from) {
      assert k < i ==> !Conflict(t[k], t[i]);
      assert i < k ==> !Conflict(t[i], t[k]);
    }
  }

  lemma BorrowerLendsNothing(t: Table, now: int, from: Member, to: Member, further: Member)
    requires NoChains(t) && Lends(t, now, from, to)
    ensures from != to && !Lends(t, now, to, further)
  {
    var i :| 0 <= i < |t| && LiveAs(t[i], now, from, to);
    forall k | 0 <= k < |t| ensures !LiveAs(t[k], now, to, further) {
      assert k < i ==> !Conflict(t[k], t[i]);
      assert i < k ==> !Conflict(t[i], t[k]);
    }
  }

  lemma DelegatedToIsMapOf(t: Table, now: int)
    requires NoChains(t)
    ensures MapOf(DelegatedTo(t, now), t, now)
  {
    EntriesAreRows(t, now);
    var m := DelegatedTo(t, now);
    forall from, to | Lends(t, now, from, to) ensures from in m && m[from] == to {
      LenderLendsOnce(t, now, from, to, m[from]);
    }
  }

  /** At every instant of every run the live delegations are a function whose targets are never
      sources, so the resolver's single hop is as far as following them can ever lead. */
  lemma DelegationsNeverChain(ops: seq<Op>, now: int, x: Member, n: nat)
    requires n >= 1
    ensures var m := DelegatedTo(Run(ops), now);
            && MapOf(m, Run(ops), now)
            && (forall from :: from in m ==> m[from] != from && m[from] !in m)
            && Follow(m, x, n) == Hop(m, x)
  {
    RunHasNoChains(ops);
    var t := Run(ops);
    var m := DelegatedTo(t, now);
    DelegatedToIsMapOf(t, now);
    forall from | from in m ensures m[from] != from && m[from] !in m {
      assert Lends(t, now, from, m[from]);
      forall further { BorrowerLendsNothing(t, now, from, m[from], further); }
      EntriesAreRows(t, now);
    }
    FollowStops(m, x, n);
  }

  lemma {:induction false} FollowStops(m: map<Member, Member>, x: Member, n: nat)
    requires n >= 1 && forall from :: from in m ==> m[from] !in m
    ensures Follow(m, x, n) == Hop(m, x)
  {
    if n > 1 { FollowStops(m, x, n - 1); } else { assert Follow(m, x, 0) == x; }
  }

  /** Reading the rows in another order builds the same map. */
  lemma RowOrderDoesNotMatter(ops: seq<Op>, rows: Table, now: int)
    requires multiset(rows) == multiset(Run(ops))
    ensures DelegatedTo(rows, now) == DelegatedTo(Run(ops), now)
  {
    var t := Run(ops);
    RunHasNoChains(ops);
    var (m, m') := (DelegatedTo(t, now), DelegatedTo(rows, now));
    forall from | from in m ensures from in m' {
      EntriesAreRows(t, now);
      SameRows(t, rows, now, from, m[from]);
      EntriesAreRows(rows, now);
    }
    forall from | from in m' ensures from in m && m[from] == m'[from] {
      EntriesAreRows(rows, now);
      SameRows(rows, t, now, from, m'[from]);
      EntriesAreRows(t, now);
      LenderLendsOnce(t, now, from, m[from], m'[from]);
    }
  }

  lemma SameRows(t: Table, rows: Table, now: int, from: Member, to: Member)
    requires multiset(t) == multiset(rows)
    ensures Lends(t, now, from, to) ==> Lends(rows, now, from, to)
  {
    if Lends(t, now, from, to) {
      var i :| 0 <= i < |t| && LiveAs(t[i], now, from, to);
      assert t[i] in multiset(rows);
      var j :| 0 <= j < |rows| && rows[j] == t[i];
    }
  }

  // ---- Creations that overlap ---------------------------------------------------------------------

  /** A committed transaction, and how many commits it had seen when it read the table. Revoking is
      guarded by the row's version, so it acts on the table as it is. */
  datatype Tx = Tx(op: Op, seen: nat)

  /** What transaction `i` had read: the table after the commits it had seen. */
  function SeenBy(txs: seq<Tx>, i: nat): (n: nat)
    requires i < |txs|
    ensures n <= i
  {
    if txs[i].seen < i then txs[i].seen else i
  }

  /** The table after these commits: a creation checks the rows it had read, and nothing stops it from
      being written beside rows it had not. */
  function Overlapped(txs: seq<Tx>): Table
    decreases |txs|
  {
    if txs == [] then []
    else
      var last := |txs| - 1;
      var (t, op) := (Overlapped(txs[..last]), txs[last].op);
      if op.Revoke? then Apply(t, op)
      else if CreateProblem(Overlapped(txs[..SeenBy(txs, last)]), op.members, op.request).Some? then t
      else t + [RowOf(op.request)]
  }

  function RowOf(r: Request): Row
    requires r.actor.Some?
  {
    Row(Lender(r), r.to, r.startsAt, r.endsAt, false, 1)
  }

  /** The transaction is a creation that was accepted. */
  predicate Accepted(txs: seq<Tx>, i: nat)
    requires i < |txs|
  {
    var op := txs[i].op;
    op.Create? && CreateProblem(Overlapped(txs[..SeenBy(txs, i)]), op.members, op.request) == None
  }

  /** The transaction is a revocation of that row that was accepted. */
  predicate Revokes(txs: seq<Tx>, k: nat, id: nat)
    requires k < |txs|
  {
    var op := txs[k].op;
    op.Revoke? && op.id == id && RevokeProblem(Overlapped(txs[..k]), id, op.expected, op.actor, op.canDelegateOthers) == None
  }

  /** An accepted creation that nobody has revoked since. */
  ghost predicate Stands(txs: seq<Tx>, i: nat)
    requires i < |txs|
  {
    Accepted(txs, i) && forall k :: i < k < |txs| ==> !Revokes(txs, k, |Overlapped(txs[..i])|)
  }

  /** Two requests whose windows overlap and that share a lender or meet end to start. */
  predicate Clash(a: Request, b: Request)
    requires a.actor.Some? && b.actor.Some?
  {
    a.startsAt < b.endsAt && a.endsAt > b.startsAt && (Lender(a) == Lender(b) || a.to == Lender(b) || Lender(a) == b.to)
  }

  /** Accepted, standing, and at odds, and the later was decided without having seen the earlier. */
  ghost predicate ClashUnseen(txs: seq<Tx>, i: nat, j: nat)
    requires i < j < |txs|
  {
    Stands(txs, i) && Stands(txs, j) && SeenBy(txs, j) <= i && Clash(txs[i].op.request, txs[j].op.request)
  }

  /** What is so of the first `n` commits among themselves. */
  lemma InPrefix(txs: seq<Tx>, n: nat, i: nat)
    requires i < n <= |txs|
    ensures txs[..n][..i] == txs[..i] && Accepted(txs[..n], i) == Accepted(txs, i)
    ensures forall id :: Revokes(txs[..n], i, id) == Revokes(txs, i, id)
  {
    assert txs[..n][..i] == txs[..i] && txs[..n][..SeenBy(txs, i)] == txs[..SeenBy(txs, i)];
  }

  lemma StandsInPrefix(txs: seq<Tx>, n: nat, i: nat)
    requires i < n <= |txs| && Stands(txs, i)
    ensures Stands(txs[..n], i)
  {
    InPrefix(txs, n, i);
    forall k | i < k < n ensures !Revokes(txs[..n], k, |Overlapped(txs[..i])|) { InPrefix(txs, n, k); }
  }

  lemma {:induction false} TablesGrow(txs: seq<Tx>, n: nat)
    requires n <= |txs|
    ensures |Overlapped(txs[..n])| <= |Overlapped(txs)|
    decreases |txs|
  {
    if n == |txs| {
      assert txs[..n] == txs;
    } else {
      TablesGrow(txs[..|txs| - 1], n);
      assert txs[..|txs| - 1][..n] == txs[..n];
    }
  }

  /** An accepted creation's row, revoked if and only if somebody revoked it. */
  ghost predicate RowIsThere(txs: seq<Tx>, i: nat)
    requires i < |txs| && Accepted(txs, i)
  {
    var (id, r) := (|Overlapped(txs[..i])|, txs[i].op.request);
    && id < |Overlapped(txs)|
    && Overlapped(txs)[id].(revoked := false, version := 1) == RowOf(r)
    && (Overlapped(txs)[id].revoked <==> !Stands(txs, i))
  }

  lemma {:induction false} RowOfTx(txs: seq<Tx>, i: nat)
    requires i < |txs| && Accepted(txs, i)
    ensures RowIsThere(txs, i)
    decreases |txs|
  {
    var last := |txs| - 1;
    if i < last {
      InPrefix(txs, last, i);
      RowOfTx(txs[..last], i);
      StillStands(txs, i);
    }
  }

  lemma StillStands(txs: seq<Tx>, i: nat)
    requires i < |txs| - 1 && Accepted(txs, i) && Accepted(txs[..|txs| - 1], i)
    ensures Stands(txs, i) <==> Stands(txs[..|txs| - 1], i) && !Revokes(txs, |txs| - 1, |Overlapped(txs[..i])|)
  {
    var last := |txs| - 1;
    InPrefix(txs, last, i);
    if Stands(txs, i) { StandsInPrefix(txs, last, i); }
    if Stands(txs[..last], i) && !Revokes(txs, last, |Overlapped(txs[..i])|) {
      forall k | i < k < |txs| ensures !Revokes(txs, k, |Overlapped(txs[..i])|) { if k < last { InPrefix(txs, last, k); } }
    }
  }

  lemma {:induction false} TxOfRow(txs: seq<Tx>, id: nat) returns (i: nat)
    requires id < |Overlapped(txs)|
    ensures i < |txs| && Accepted(txs, i) && |Overlapped(txs[..i])| == id
    decreases |txs|
  {
    var last := |txs| - 1;
    if id < |Overlapped(txs[..last])| {
      i := TxOfRow(txs[..last], id);
      InPrefix(txs, last, i);
    } else {
      i := last;
    }
  }

  /** Earlier transaction, earlier row. */
  lemma RowsInOrder(txs: seq<Tx>, i: nat, j: nat)
    requires i < j < |txs| && Accepted(txs, i)
    ensures |Overlapped(txs[..i])| < |Overlapped(txs[..j])|
  {
    OneRowMore(txs, i);
    assert txs[..j][..i + 1] == txs[..i + 1];
    TablesGrow(txs[..j], i + 1);
  }

  lemma OneRowMore(txs: seq<Tx>, i: nat)
    requires i < |txs| && Accepted(txs, i)
    ensures |Overlapped(txs[..i + 1])| == |Overlapped(txs[..i])| + 1
  {
    InPrefix(txs, i + 1, i);
    assert txs[..i + 1][i] == txs[i];
  }

  /** A creation that had seen a standing one does not clash with it. */
  lemma SeenDoesNotClash(txs: seq<Tx>, i: nat, j: nat)
    requires i < j < |txs| && Stands(txs, i) && Accepted(txs, j) && i < SeenBy(txs, j)
    ensures !Clash(txs[i].op.request, txs[j].op.request)
  {
    var n := SeenBy(txs, j);
    StandsInPrefix(txs, n, i);
    RowOfTx(txs[..n], i);
    var row := Overlapped(txs[..n])[|Overlapped(txs[..n][..i])|];
    var r := txs[j].op.request;
    assert ChainProblem(Overlapped(txs[..n]), Lender(r), r.to, r.startsAt, r.endsAt) == None;
    assert Overlaps(row, r.startsAt, r.endsAt) ==> row.from != Lender(r) && row.to != Lender(r) && row.from != r.to;
  }

  /** Whatever overlaps, delegations chain exactly when two accepted requests that still stand clash, the
      later decided without having seen the earlier. */
  lemma ChainsExactlyWhenUnseen(txs: seq<Tx>)
    ensures NoChains(Overlapped(txs)) <==> forall i, j :: 0 <= i < j < |txs| ==> !ClashUnseen(txs, i, j)
  {
    if NoChains(Overlapped(txs)) {
      forall i, j | 0 <= i < j < |txs| ensures !ClashUnseen(txs, i, j) {
        if Stands(txs, i) && Stands(txs, j) { RowsTellRequests(txs, i, j); }
      }
    }
    if forall i, j :: 0 <= i < j < |txs| ==> !ClashUnseen(txs, i, j) {
      var t := Overlapped(txs);
      forall a | 0 <= a < |t| ensures t[a].from != t[a].to && t[a].startsAt < t[a].endsAt {
        var i := TxOfRow(txs, a);
        RowOfTx(txs, i);
      }
      forall a, b | 0 <= a < b < |t| ensures !Conflict(t[a], t[b]) { RowsDoNotConflict(txs, a, b); }
    }
  }

  lemma RowsTellRequests(txs: seq<Tx>, i: nat, j: nat)
    requires i < j < |txs| && Stands(txs, i) && Stands(txs, j)
    ensures var (a, b) := (|Overlapped(txs[..i])|, |Overlapped(txs[..j])|);
            a < b < |Overlapped(txs)|
            && (Conflict(Overlapped(txs)[a], Overlapped(txs)[b]) <==> Clash(txs[i].op.request, txs[j].op.request))
  {
    RowOfTx(txs, i);
    RowOfTx(txs, j);
    RowsInOrder(txs, i, j);
    var t := Overlapped(txs);
    ConflictIsClash(t[|Overlapped(txs[..i])|], t[|Overlapped(txs[..j])|], txs[i].op.request, txs[j].op.request);
  }

  lemma ConflictIsClash(a: Row, b: Row, r: Request, q: Request)
    requires r.actor.Some? && q.actor.Some? && !a.revoked && !b.revoked
    requires a.(version := 1) == RowOf(r) && b.(version := 1) == RowOf(q) && r.startsAt < r.endsAt && q.startsAt < q.endsAt
    ensures Conflict(a, b) <==> Clash(r, q)
  {
    OverlapIsCoexistence(a, b);
  }

  lemma RowsDoNotConflict(txs: seq<Tx>, a: nat, b: nat)
    requires a < b < |Overlapped(txs)| && forall i, j :: 0 <= i < j < |txs| ==> !ClashUnseen(txs, i, j)
    ensures !Conflict(Overlapped(txs)[a], Overlapped(txs)[b])
  {
    var i := TxOfRow(txs, a);
    var j := TxOfRow(txs, b);
    RowOfTx(txs, i);
    RowOfTx(txs, j);
    if j < i { RowsInOrder(txs, j, i); }
    if Stands(txs, i) && Stands(txs, j) {
      RowsTellRequests(txs, i, j);
      if i < SeenBy(txs, j) { SeenDoesNotClash(txs, i, j); } else { assert !ClashUnseen(txs, i, j); }
    }
  }

  /** A member lends their own authority for the first ten instants. */
  function OwnRequest(from: Member, to: Member): Request {
    Request(Some(from), None, to, 0, 10, false)
  }

  /** Two creations whose transactions overlap: neither has seen the other. */
  function AtOnce(members: Members, a: Request, b: Request): seq<Tx> {
    [Tx(Create(members, a), 0), Tx(Create(members, b), 0)]
  }

  lemma BothAccepted(members: Members, a: Request, b: Request)
    requires CreateProblem([], members, a) == None && CreateProblem([], members, b) == None
    ensures Overlapped(AtOnce(members, a, b)) == [RowOf(a), RowOf(b)]
  {
    var txs := AtOnce(members, a, b);
    assert txs[..1] == [txs[0]] && txs[..1][..0] == [] && txs[..0] == [];
    assert Overlapped(txs[..0]) == [] && Overlapped(txs[..1]) == [RowOf(a)];
  }

  lemma TwoHops(now: int)
    requires 0 <= now < 10
    ensures var m := DelegatedTo([RowOf(OwnRequest(1, 2)), RowOf(OwnRequest(2, 3))], now);
            Hop(m, 1) == 2 && Follow(m, 1, 2) == 3
  {
    var t := [RowOf(OwnRequest(1, 2)), RowOf(OwnRequest(2, 3))];
    assert t[..1] == [t[0]] && t[..1][..0] == [];
    assert DelegatedTo(t[..1], now) == map[1 := 2];
    assert DelegatedTo(t, now) == map[1 := 2, 2 := 3];
    assert Follow(DelegatedTo(t, now), 1, 1) == 2;
  }

  /** The smallest instance: 1 lends to 2 and 2 lends to 3 at once. Both are accepted, and one hop from
      1 is no longer the end of the way. */
  lemma TwoAtOnceChain()
    ensures var t := Overlapped(AtOnce(map[1 := true, 2 := true, 3 := true], OwnRequest(1, 2), OwnRequest(2, 3)));
            t == [Row(1, 2, 0, 10, false, 1), Row(2, 3, 0, 10, false, 1)] && !NoChains(t)
            && Hop(DelegatedTo(t, 5), 1) == 2 && Follow(DelegatedTo(t, 5), 1, 2) == 3
  {
    BothAccepted(map[1 := true, 2 := true, 3 := true], OwnRequest(1, 2), OwnRequest(2, 3));
    TwoHops(5);
    assert InForce(RowOf(OwnRequest(1, 2)), 5) && InForce(RowOf(OwnRequest(2, 3)), 5);
  }
}
