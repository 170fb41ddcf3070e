/** When the balances agree with the ledger once everyone has finished. */
module LedgerQuiescence {
  import opened Ledger
  import opened LedgerProtocol

  /** Every append of a program is followed by a `materialize` of the same line, as in the
      service's write path. */
  ghost predicate Follows(todo: seq<Op>) {
    forall i :: 0 <= i < |todo| ==>
      (todo[i].Append? ==> Materialize(todo[i].m.line) in todo[i + 1..]) &&
      (todo[i].ReleaseReserved? ==> Materialize(todo[i].line) in todo[i + 1..])
  }

  ghost predicate WellFormed(s: State) {
    forall c :: c in s.callers ==> Follows(c.todo)
  }

  /** Nobody still has this line to materialize. A crashed or failed caller keeps its work. */
  ghost predicate Settled(s: State, l: LineId) {
    forall c :: c in s.callers ==> Materialize(l) !in c.todo
  }

  ghost predicate Agrees(t: Tables, l: LineId) {
    l in t.lines && Caches(t.lines[l], l, t.ledger)
  }

  /** The caller has yet to derive this line from a ledger that includes movement `i`. */
  ghost predicate Owes(c: Caller, l: LineId, i: nat) {
    exists k :: OwesAt(c, l, i, k)
  }

  ghost predicate OwesAt(c: Caller, l: LineId, i: nat, k: int) {
    && 0 <= k < |c.todo| && c.todo[k] == Materialize(l)
    && (k == 0 && c.phase.HoldsLedger? ==> i < |c.phase.seen|)
  }

  ghost predicate Covered(s: State, h: History, l: LineId, i: nat)
    requires l in h
  {
    i < h[l] || exists p :: 0 <= p < |s.callers| && Owes(s.callers[p], l, i)
  }

  /** Movement `i` parts the balances of the line: none of those before it comes back after it. */
  ghost predicate Parts(ms: seq<Movement>, l: LineId, i: nat)
    requires i < |ms|
  {
    Moves(ms[i], l) && forall a, b :: 0 <= a <= i < b <= |ms| ==> !SameTotals(ms[..a], ms[..b], l)
  }

  /** Every movement so far that parts the history as it will be is on the line or owed to it. */
  ghost predicate AllCovered(s: State, h: History, l: LineId, ms: seq<Movement>)
    requires l in h
  {
    forall i :: 0 <= i < |s.tables.ledger| && i < |ms| && Parts(ms, l, i) ==> Covered(s, h, l, i)
  }

  lemma FollowsRest(op: Op, rest: seq<Op>)
    requires Follows([op] + rest)
    ensures Follows(rest)
  {
    var todo := [op] + rest;
    forall i | 0 <= i < |rest|
      ensures rest[i].Append? ==> Materialize(rest[i].m.line) in rest[i + 1..]
      ensures rest[i].ReleaseReserved? ==> Materialize(rest[i].line) in rest[i + 1..]
    {
      assert todo[i + 1] == rest[i] && todo[i + 1 + 1..] == rest[i + 1..];
    }
  }

  lemma FollowsReplace(op: Op, rest: seq<Op>, op': Op)
    requires Follows([op] + rest) && op.ReleaseReserved? && op'.Append? && op'.m.line == op.line
    ensures Follows([op'] + rest)
  {
    FollowsRest(op, rest);
    var todo := [op'] + rest;
    assert ([op] + rest)[0] == op && ([op] + rest)[0 + 1..] == rest == todo[0 + 1..];
    forall i | 0 <= i < |todo|
      ensures todo[i].Append? ==> Materialize(todo[i].m.line) in todo[i + 1..]
      ensures todo[i].ReleaseReserved? ==> Materialize(todo[i].line) in todo[i + 1..]
    {
      if i > 0 { assert todo[i] == rest[i - 1] && todo[i + 1..] == rest[i - 1 + 1..]; }
    }
  }

  lemma OperateFollows(t: Tables, me: Caller)
    requires me.todo != [] && Follows(me.todo)
    ensures Follows(Operate(t, me).1.todo)
  {
    var op := me.todo[0];
    assert me.todo == [op] + me.todo[1..];
    FollowsRest(op, me.todo[1..]);
    if op.ReleaseReserved? && Reserved(t.ledger, op.line, op.source) != [] {
      ReservedIsThere(t.ledger, op.line, op.source);
      FollowsReplace(op, me.todo[1..], Append(ReleaseOf(Reserved(t.ledger, op.line, op.source)[0])));
    }
  }

  lemma {:induction false} ReservedIsThere(ms: seq<Movement>, l: LineId, source: Source)
    ensures Reserved(ms, l, source) == [] ==>
      forall m :: m in ms && m.line == l && m.source == source ==> m.kind != Commitment
    ensures Reserved(ms, l, source) != [] ==>
      var m := Reserved(ms, l, source)[0];
      m in ms && m.line == l && m.source == source && m.kind == Commitment
  {
    if ms != [] { ReservedIsThere(ms[1..], l, source); }
  }

  /** The unguarded early return: the totals derived are the ones the line showed when it was read, so a
      movement that parts the balances was on the line already. */
  lemma SkipDelivers(t: Tables, h: History, l: LineId, row: Line, seen: seq<Movement>, a: nat, i: nat, ms: seq<Movement>)
    requires l in h && seen <= t.ledger <= ms && a <= |seen| && CachedAt(t, h, l, row, a)
    requires Caches(row, l, seen) && i < |seen| && Parts(ms, l, i)
    ensures i < h[l]
  {
    assert seen == ms[..|seen|] && t.ledger[..a] == ms[..a];
    assert SameTotals(ms[..a], ms[..|seen|], l);
  }

  /** What the stepping caller owed before the operation it either still owes or has delivered. */
  lemma OwingKept(t: Tables, h: History, me: Caller, l: LineId, i: nat, ms: seq<Movement>)
    requires me.todo != [] && LinesOk(t, h) && CallerOk(t, h, me) && t.ledger <= ms
    requires l in h && i < |t.ledger| && Parts(ms, l, i)
    requires Owes(me, l, i)
    ensures i < Wrote(t, h, me)[l] || Owes(Operate(t, me).1, l, i)
  {
    var me' := Operate(t, me).1;
    var k :| OwesAt(me, l, i, k);
    if k > 0 {
      LaterWorkKept(t, me, l, i, k);
    } else if me.phase.HoldsLedger? {
      if me'.todo == me.todo {
        assert OwesAt(me', l, i, 0);
      } else if Caches(me.phase.row, l, me.phase.seen) {
        var a: nat :| a <= |me.phase.seen| && CachedAt(t, h, l, me.phase.row, a);
        SkipDelivers(t, h, l, me.phase.row, me.phase.seen, a, i, ms);
      }
    } else {
      if me'.todo == me.todo { assert OwesAt(me', l, i, 0); }
    }
  }

  lemma LaterWorkKept(t: Tables, me: Caller, l: LineId, i: nat, k: nat)
    requires me.todo != [] && OwesAt(me, l, i, k) && k > 0
    ensures Owes(Operate(t, me).1, l, i)
  {
    var me' := Operate(t, me).1;
    if me' == Finished(me) { assert OwesAt(me', l, i, k - 1); } else { assert OwesAt(me', l, i, k); }
  }

  lemma AdvanceCovers(s: State, h: History, e: Event, l: LineId, ms: seq<Movement>)
    requires Inv(s, h) && WellFormed(s) && l in h && AllCovered(s, h, l, ms) && Advance(s, e).tables.ledger <= ms
    ensures WellFormed(Advance(s, e))
    ensures l in Recorded(s, h, e) && AllCovered(Advance(s, e), Recorded(s, h, e), l, ms)
  {
    AdvanceKeeps(s, h, e);
    var s' := Advance(s, e);
    var h' := Recorded(s, h, e);
    var p := e.caller;
    if p < |s.callers| && s.callers[p].status == Live && e.Run? && s.callers[p].todo != [] {
      OperateFollows(s.tables, s.callers[p]);
      forall i | 0 <= i < |s'.tables.ledger| && Parts(ms, l, i) ensures Covered(s', h', l, i) {
        if i < |s.tables.ledger| {
          OldStaysCovered(s, h, e, l, i, ms);
        } else {
          NewIsCovered(s.tables, s.callers[p], l, i);
          assert Owes(s'.callers[p], l, i);
        }
      }
    } else {
      IdleStepCovers(s, h, e, l, ms);
    }
  }

  /** A crash, a conflict, or an event that does nothing, leaves everybody owing what they owed. */
  lemma IdleStepCovers(s: State, h: History, e: Event, l: LineId, ms: seq<Movement>)
    requires l in h && AllCovered(s, h, l, ms) && WellFormed(s) && s.tables.ledger <= ms
    requires !e.Run? || e.caller >= |s.callers| || s.callers[e.caller].status != Live || s.callers[e.caller].todo == []
    ensures AllCovered(Advance(s, e), h, l, ms) && WellFormed(Advance(s, e))
  {
    var s' := Advance(s, e);
    forall i | 0 <= i < |s'.tables.ledger| && Parts(ms, l, i) ensures Covered(s', h, l, i) {
      if i >= h[l] {
        var q :| 0 <= q < |s.callers| && Owes(s.callers[q], l, i);
        var k :| OwesAt(s.callers[q], l, i, k);
        assert OwesAt(s'.callers[q], l, i, k);
        assert Owes(s'.callers[q], l, i);
      }
    }
  }

  lemma NewIsCovered(t: Tables, me: Caller, l: LineId, i: nat)
    requires me.todo != [] && Follows(me.todo)
    requires |t.ledger| <= i < |Operate(t, me).0.ledger| && Moves(Operate(t, me).0.ledger[i], l)
    ensures Owes(Operate(t, me).1, l, i)
  {
    assert me.todo[0].Append?;
    var k :| 0 <= k < |me.todo[1..]| && me.todo[1..][k] == Materialize(l);
    assert OwesAt(Operate(t, me).1, l, i, k);
  }

  lemma OldStaysCovered(s: State, h: History, e: Event, l: LineId, i: nat, ms: seq<Movement>)
    requires Inv(s, h) && l in h && s.tables.ledger <= ms
    requires i < |s.tables.ledger| && Parts(ms, l, i) && Covered(s, h, l, i)
    requires e.Run? && e.caller < |s.callers| && s.callers[e.caller].status == Live && s.callers[e.caller].todo != []
    ensures l in Recorded(s, h, e) && Covered(Advance(s, e), Recorded(s, h, e), l, i)
  {
    AdvanceKeeps(s, h, e);
    if i >= h[l] {
      var p := e.caller;
      var q :| 0 <= q < |s.callers| && Owes(s.callers[q], l, i);
      if q == p {
        OwingKept(s.tables, h, s.callers[p], l, i, ms);
        if i >= Recorded(s, h, e)[l] { assert Owes(Advance(s, e).callers[p], l, i); }
      } else {
        assert Owes(Advance(s, e).callers[q], l, i);
      }
    }
  }

  lemma {:induction false} ExecCovers(s: State, es: seq<Event>, l: LineId, ms: seq<Movement>)
    requires Initial(s) && WellFormed(s) && l in s.tables.lines && Exec(s, es).tables.ledger <= ms
    ensures Inv(Exec(s, es), HistoryOf(s, es)) && l in HistoryOf(s, es) && WellFormed(Exec(s, es))
    ensures AllCovered(Exec(s, es), HistoryOf(s, es), l, ms)
  {
    ExecKeeps(s, es);
    if es != [] {
      var before := es[..|es| - 1];
      ExecKeeps(s, before);
      AdvanceKeeps(Exec(s, before), HistoryOf(s, before), es[|es| - 1]);
      ExecCovers(s, before, l, ms);
      AdvanceCovers(Exec(s, before), HistoryOf(s, before), es[|es| - 1], l, ms);
    }
  }

  /** How much of the history there is up to and with the line's last movement. */
  function UpToLast(ms: seq<Movement>, l: LineId): (n: nat)
    ensures n <= |ms| && (n > 0 ==> Moves(ms[n - 1], l)) && forall i :: n <= i < |ms| ==> !Moves(ms[i], l)
  {
    if ms == [] then 0 else if Moves(ms[|ms| - 1], l) then |ms| else UpToLast(ms[..|ms| - 1], l)
  }

  /** Where the history ends on a new balance its last movement parts it. */
  lemma LastParts(ms: seq<Movement>, l: LineId)
    requires EndsAnew(ms, l) && UpToLast(ms, l) > 0
    ensures Parts(ms, l, UpToLast(ms, l) - 1)
  {
    var i := UpToLast(ms, l) - 1;
    forall a, b | 0 <= a <= i < b <= |ms| ensures !SameTotals(ms[..a], ms[..b], l) {
      TotalsUnmoved(ms, b, |ms|, l);
      assert ms[..|ms|] == ms;
    }
  }

  /** Quiescent agreement: whatever the callers and the schedule, once nobody has the line left to
      materialize it shows the whole ledger, provided its balance is then one it had not shown before. */
  lemma SettledAgrees(s: State, es: seq<Event>, l: LineId)
    requires Initial(s) && WellFormed(s) && l in s.tables.lines
    requires Settled(Exec(s, es), l) && EndsAnew(Exec(s, es).tables.ledger, l)
    ensures Agrees(Exec(s, es).tables, l)
  {
    var (f, h) := (Exec(s, es), HistoryOf(s, es));
    var ms := f.tables.ledger;
    ExecCovers(s, es, l, ms);
    forall p, i: nat | 0 <= p < |f.callers| ensures !Owes(f.callers[p], l, i) {
      assert Materialize(l) !in f.callers[p].todo;
    }
    if UpToLast(ms, l) > 0 { LastParts(ms, l); }
    TotalsUnmoved(ms, h[l], |ms|, l);
    assert ms[..|ms|] == ms;
  }

  /** In particular with positive amounts and no RELEASE on the line. */
  lemma SettledAgreesWithoutReleases(s: State, es: seq<Event>, l: LineId)
    requires Initial(s) && WellFormed(s) && l in s.tables.lines
    requires Settled(Exec(s, es), l) && OnlyRaises(Exec(s, es).tables.ledger, l)
    ensures Agrees(Exec(s, es).tables, l)
  {
    RaisingEndsAnew(Exec(s, es).tables.ledger, l);
    SettledAgrees(s, es, l);
  }

  /** One `materialize` that no other caller interleaves with restores agreement from any state of
      the tables, RELEASEs included, in three operations and without losing a guarded write. */
  lemma AloneRestoresAgreement(s: State, p: nat, l: LineId)
    requires p < |s.callers| && s.callers[p].status == Live && s.callers[p].phase == Ready
    requires s.callers[p].todo != [] && s.callers[p].todo[0] == Materialize(l) && l in s.tables.lines
    ensures var f := Exec(s, [Run(p), Run(p), Run(p)]);
            && Agrees(f.tables, l) && f.tables.ledger == s.tables.ledger
            && f.callers[p] == Finished(s.callers[p])
            && f.tables.lines.Keys == s.tables.lines.Keys
            && (forall k :: k in s.tables.lines && k != l ==> f.tables.lines[k] == s.tables.lines[k])
            && f.tables.lines[l].allocation == s.tables.lines[l].allocation
            && (Agrees(s.tables, l) ==> f.tables == s.tables)
  {
    var es := [Run(p), Run(p), Run(p)];
    assert es[..2] == [Run(p), Run(p)] && es[..2][..1] == [Run(p)] && es[..2][..1][..0] == [];
    var s1 := Advance(s, Run(p));
    var s2 := Advance(s1, Run(p));
    assert Exec(s, []) == s;
    assert Exec(s, es[..2][..1]) == s1;
    assert Exec(s, es[..2]) == s2;
    assert s2.callers[p].phase == HoldsLedger(s.tables.lines[l], s.tables.ledger);
  }
}
