/** How often `materialize` can lose its guarded write. */
module LedgerRetries {
  import opened Ledger
  import opened LedgerProtocol
  import opened LedgerConservation
  import opened LedgerStaleRun

  predicate WritesLine(op: Op, l: LineId) {
    op == Materialize(l) || (op.Allocate? && op.line == l)
  }

  /** Calls of `materialize` and `allocate` on a line a program still has to make. */
  function CallsIn(todo: seq<Op>, l: LineId): nat {
    if todo == [] then 0 else (if WritesLine(todo[0], l) then 1 else 0) + CallsIn(todo[1..], l)
  }

  function Calls(callers: seq<Caller>, l: LineId): nat {
    if callers == [] then 0 else CallsIn(callers[0].todo, l) + Calls(callers[1..], l)
  }

  lemma {:induction false} CallsUpdate(callers: seq<Caller>, p: nat, me: Caller, l: LineId)
    requires p < |callers|
    ensures Calls(callers[p := me], l) == Calls(callers, l) - CallsIn(callers[p].todo, l) + CallsIn(me.todo, l)
    ensures CallsIn(callers[p].todo, l) <= Calls(callers, l)
  {
    if p == 0 {
      assert callers[p := me][1..] == callers[1..];
    } else {
      CallsUpdate(callers[1..], p - 1, me, l);
      assert callers[p := me][1..] == callers[1..][p - 1 := me];
    }
  }

  /** Each lost attempt is paid for by a version somebody else raised, or by a conflict. `base` is the first
      version less the conflicts so far. */
  ghost predicate Charged(c: Caller, l: LineId, row: Line, base: int) {
    c.todo != [] && c.todo[0] == Materialize(l) ==>
      && c.status != Exhausted
      && base + c.attempts <= row.version
      && (c.phase != Ready ==> base + c.attempts <= c.phase.row.version <= row.version)
  }

  /** From version `first`, with `met` conflicts met by caller `p` deriving the line. */
  ghost predicate Bounded(s: State, l: LineId, p: nat, first: nat, met: nat, calls: nat) {
    && l in s.tables.lines && p < |s.callers| && first <= s.tables.lines[l].version
    && s.tables.lines[l].version - first + Calls(s.callers, l) <= calls
    && Charged(s.callers[p], l, s.tables.lines[l], first - met)
  }

  /** Whoever operates, a version is raised only by a call that is then over. */
  lemma OperateCounts(t: Tables, me: Caller, l: LineId)
    requires me.todo != [] && l in t.lines && (me.phase == Ready || !me.todo[0].Append?)
    ensures var (t', me') := Operate(t, me);
            && l in t'.lines && t.lines[l].version <= t'.lines[l].version
            && t'.lines[l].version + CallsIn(me'.todo, l) <= t.lines[l].version + CallsIn(me.todo, l)
  {
    var (t', me') := Operate(t, me);
    if me.todo[0].ReleaseReserved? && me'.todo != me.todo[1..] {
      assert me'.todo[1..] == me.todo[1..];
    }
  }

  lemma OperateCharges(t: Tables, me: Caller, l: LineId, base: int)
    requires me.todo != [] && l in t.lines && Charged(me, l, t.lines[l], base) && me.status == Live
    requires base <= t.lines[l].version && t.lines[l].version - base + CallsIn(me.todo, l) <= MAX_ATTEMPTS
    ensures var (t', me') := Operate(t, me);
            l in t'.lines && Charged(me', l, t'.lines[l], base)
  {}

  /** The conflicts caller `p` has met deriving the line. */
  function Met(s: State, es: seq<Event>, p: nat, l: LineId): nat {
    if es == [] then 0
    else
      var (before, e) := (es[..|es| - 1], es[|es| - 1]);
      Met(s, before, p, l) + if Conflicts(Exec(s, before), e, p, l) then 1 else 0
  }

  predicate Conflicts(s: State, e: Event, p: nat, l: LineId) {
    && e == Conflict(p) && p < |s.callers| && s.callers[p].status == Live
    && s.callers[p].todo != [] && s.callers[p].todo[0] == Materialize(l)
  }

  lemma RunBounded(s: State, q: nat, l: LineId, p: nat, first: nat, met: nat, calls: nat)
    requires Bounded(s, l, p, first, met, calls) && met + calls <= MAX_ATTEMPTS
    requires q < |s.callers| && s.callers[q].status == Live && s.callers[q].todo != []
    requires s.callers[q].phase == Ready || !s.callers[q].todo[0].Append?
    ensures Bounded(Advance(s, Run(q)), l, p, first, met, calls)
  {
    var me := s.callers[q];
    CallsUpdate(s.callers, q, Operate(s.tables, me).1, l);
    OperateCounts(s.tables, me, l);
    if q == p { OperateCharges(s.tables, me, l, first - met); }
  }

  lemma StoppedBounded(s: State, e: Event, l: LineId, p: nat, first: nat, met: nat, calls: nat)
    requires Bounded(s, l, p, first, met, calls) && !e.Run?
    requires Conflicts(s, e, p, l) ==> met + 1 + calls <= MAX_ATTEMPTS
    ensures Bounded(Advance(s, e), l, p, first, met + if Conflicts(s, e, p, l) then 1 else 0, calls)
  {
    var q := e.caller;
    if q < |s.callers| { CallsUpdate(s.callers, q, Advance(s, e).callers[q], l); }
  }

  lemma {:induction false} ExecBounded(s: State, es: seq<Event>, l: LineId, p: nat)
    requires Initial(s) && l in s.tables.lines && p < |s.callers|
    requires Calls(s.callers, l) + Met(s, es, p, l) <= MAX_ATTEMPTS
    ensures Bounded(Exec(s, es), l, p, s.tables.lines[l].version, Met(s, es, p, l), Calls(s.callers, l))
  {
    if es != [] {
      var (before, e) := (es[..|es| - 1], es[|es| - 1]);
      ExecBounded(s, before, l, p);
      ExecKeeps(s, before);
      var (t, first, met, calls) := (Exec(s, before), s.tables.lines[l].version, Met(s, before, p, l), Calls(s.callers, l));
      if !e.Run? {
        StoppedBounded(t, e, l, p, first, met, calls);
      } else if e.caller < |t.callers| && t.callers[e.caller].status == Live && t.callers[e.caller].todo != [] {
        RunBounded(t, e.caller, l, p, first, met, calls);
      }
    }
  }

  /** With at most forty calls on a line, `allocate` included, and the conflicts a caller meets deriving the
      line counted with them, no `materialize` of it ever runs that caller out of attempts, and the caller
      has lost no more of them than the version has risen and those conflicts have come. */
  lemma FortyCallsNeverExhaust(s: State, es: seq<Event>, l: LineId, p: nat)
    requires Initial(s) && l in s.tables.lines && p < |s.callers|
    requires Calls(s.callers, l) + Met(s, es, p, l) <= 40
    requires Exec(s, es).callers[p].todo != [] && Exec(s, es).callers[p].todo[0] == Materialize(l)
    ensures Exec(s, es).callers[p].status != Exhausted
    ensures l in Exec(s, es).tables.lines
    ensures s.tables.lines[l].version + Exec(s, es).callers[p].attempts
         <= Exec(s, es).tables.lines[l].version + Met(s, es, p, l)
  {
    ExecBounded(s, es, l, p);
  }

  // ---- The bound is tight -----------------------------------------------------------------------

  ghost predicate LineHistory(ms: seq<Movement>, l: LineId) {
    UniqueKeys(ms) && OnlyRaises(ms, l) && forall i :: 0 <= i < |ms| ==> Moves(ms[i], l)
  }

  /** One writer for each movement, on a line as `create` leaves it. */
  function Writers(ms: seq<Movement>, l: LineId): State {
    State(Tables([], map[l := Line(0, 0, 0, 1)]), seq(|ms|, i requires 0 <= i < |ms| => Worker(ms[i], false)))
  }

  lemma Then(s: State, es: seq<Event>, e: Event)
    ensures Exec(s, es + [e]) == Advance(Exec(s, es), e)
  {
    assert (es + [e])[..|es|] == es;
  }

  /** After `n` lost writes of caller 0, each to a rival that came and went. */
  ghost predicate Lost(s: State, ms: seq<Movement>, l: LineId, n: nat)
    requires n < |ms|
  {
    && |s.callers| == |ms| && s.tables.ledger == ms[..n + 1] && s.tables.lines.Keys == {l}
    && Caches(s.tables.lines[l], l, if n == 0 then [] else ms[..n + 1])
    && s.callers[0] == Repairer(l).(attempts := n, status := if n < MAX_ATTEMPTS then Live else Exhausted)
    && (forall k :: 1 <= k < |ms| ==> s.callers[k] == if k <= n then IDLE else Worker(ms[k], false))
  }

  lemma {:induction false} LoseWrites(ms: seq<Movement>, l: LineId, n: nat) returns (es: seq<Event>)
    requires LineHistory(ms, l) && n < |ms| && n <= MAX_ATTEMPTS
    ensures Lost(Exec(Writers(ms, l), es), ms, l, n) && forall e :: e in es ==> e.Run?
  {
    var s := Writers(ms, l);
    NextKey(ms, n);
    if n == 0 {
      es := [] + [Run(0)];
      Then(s, [], Run(0));
      assert Exec(s, []) == s;
    } else {
      var before := LoseWrites(ms, l, n - 1);
      es := before + Round(n);
      ExecRound(s, before, n);
      RivalWins(Exec(s, before), ms, l, n);
      WriteLost(RivalRound(Exec(s, before), n), ms, l, n, Exec(s, before).tables.lines[l]);
    }
  }

  function Round(n: nat): seq<Event> {
    [Run(0), Run(n), Run(n), Run(n), Run(n), Run(0), Run(0)]
  }

  lemma ExecRound(s: State, before: seq<Event>, n: nat)
    ensures Exec(s, before + Round(n)) == Advance(Advance(RivalRound(Exec(s, before), n), Run(0)), Run(0))
  {
    var e1 := before + [Run(0)];
    var e2, e3, e4, e5 := e1 + [Run(n)], e1 + [Run(n), Run(n)], e1 + [Run(n), Run(n), Run(n)],
                          e1 + [Run(n), Run(n), Run(n), Run(n)];
    assert e2 + [Run(n)] == e3 && e3 + [Run(n)] == e4 && e4 + [Run(n)] == e5;
    assert e5 + [Run(0)] + [Run(0)] == before + Round(n);
    Then(s, before, Run(0));
    Then(s, e1, Run(n));
    Then(s, e2, Run(n));
    Then(s, e3, Run(n));
    Then(s, e4, Run(n));
    Then(s, e5, Run(0));
    Then(s, e5 + [Run(0)], Run(0));
  }

  /** Caller 0 derives from the longer ledger and finds the version gone. */
  lemma WriteLost(r: State, ms: seq<Movement>, l: LineId, n: nat, row: Line)
    requires 0 < n < |ms| && n <= MAX_ATTEMPTS && ms[0].line == l
    requires |r.callers| == |ms| && r.tables.ledger == ms[..n + 1] && r.tables.lines.Keys == {l}
    requires Caches(r.tables.lines[l], l, ms[..n + 1]) && r.tables.lines[l].version == row.version + 1
    requires r.callers[0] == Repairer(l).(attempts := n - 1, phase := HoldsLine(row))
    requires !Caches(row, l, ms[..n + 1])
    requires forall k :: 1 <= k < |ms| ==> r.callers[k] == if k <= n then IDLE else Worker(ms[k], false)
    ensures Lost(Advance(Advance(r, Run(0)), Run(0)), ms, l, n)
  {
    var r1 := Advance(r, Run(0));
    assert r1.callers[0].phase == HoldsLedger(row, ms[..n + 1]);
  }

  function RivalRound(s: State, n: nat): State {
    Advance(Advance(Advance(Advance(Advance(s, Run(0)), Run(n)), Run(n)), Run(n)), Run(n))
  }

  /** Caller 0 reads the line, then rival `n` appends, derives and writes. */
  lemma RivalWins(s: State, ms: seq<Movement>, l: LineId, n: nat)
    requires LineHistory(ms, l) && 0 < n < |ms| && n <= MAX_ATTEMPTS
    requires Lost(s, ms, l, n - 1)
    ensures var r := RivalRound(s, n);
            && |r.callers| == |ms| && r.tables.ledger == ms[..n + 1] && r.tables.lines.Keys == {l}
            && Caches(r.tables.lines[l], l, ms[..n + 1])
            && r.tables.lines[l].version == s.tables.lines[l].version + 1
            && r.callers[0] == Repairer(l).(attempts := n - 1, phase := HoldsLine(s.tables.lines[l]))
            && !Caches(s.tables.lines[l], l, ms[..n + 1])
            && (forall k :: 1 <= k < |ms| ==> r.callers[k] == if k <= n then IDLE else Worker(ms[k], false))
  {
    NextKey(ms, n);
    RivalShows(ms, l, n);
  }

  /** Whatever of the history the line stood for before, the rival's movement makes a difference. */
  lemma RivalShows(ms: seq<Movement>, l: LineId, n: nat)
    requires LineHistory(ms, l) && n < |ms|
    ensures !SameTotals([], ms[..n + 1], l) && !SameTotals(ms[..n], ms[..n + 1], l)
  {
    RaisingTotals(ms, 0, n + 1, l);
    RaisingTotals(ms, n, n + 1, l);
    assert Moves(ms[0], l) && Moves(ms[n], l) && ms[..0] == [];
  }

  function Rivals(n: nat): seq<Movement> {
    seq(n, i requires 0 <= i < n => Movement(1, Commitment, true, 1, Source("EXPENSE", seq(i, _ => 'x'))))
  }

  /** Forty-one calls are one too many: a schedule in which caller 0 throws, without any conflict. */
  lemma FortyOneCallsCanExhaust() returns (s: State, es: seq<Event>)
    ensures Initial(s) && Calls(s.callers, 1) == 41 && 1 in s.tables.lines
    ensures |s.callers| > 0 && Exec(s, es).callers[0].status == Exhausted
    ensures forall e :: e in es ==> !e.Conflict?
  {
    var ms := Rivals(MAX_ATTEMPTS + 1);
    forall i, j | 0 <= i < j < |ms| ensures !SameKey(ms[i], ms[j]) {
      assert |ms[i].source.sourceId| == i && |ms[j].source.sourceId| == j;
    }
    s := Writers(ms, 1);
    es := LoseWrites(ms, 1, MAX_ATTEMPTS);
    WritersMakeOneCallEach(s.callers, 1);
  }

  lemma {:induction false} WritersMakeOneCallEach(callers: seq<Caller>, l: LineId)
    requires forall c :: c in callers ==> |c.todo| == 2 && c.todo[0].Append? && c.todo[1] == Materialize(l)
    ensures Calls(callers, l) == |callers|
  {
    if callers != [] {
      assert callers[0].todo[1..] == [Materialize(l)];
      assert CallsIn([Materialize(l)], l) == 1;
      WritersMakeOneCallEach(callers[1..], l);
    }
  }
}
