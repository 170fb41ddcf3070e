/** The service's own calls as callers of the protocol: they meet what the whole-run results ask of
    callers, and they alone can produce the runs those results warn of. */
module LedgerCalls {
  import opened Ledger
  import opened LedgerProtocol
  import opened LedgerQuiescence
  import opened LedgerConservation
  import opened LedgerReleases
  import opened LedgerStaleRun
  import opened LedgerService

  /** `commit`, `actualize` or `release` by its kind of movement, a repair of one line, or `allocate`. */
  datatype Call =
    | Applies(matches: seq<LineId>, kind: Kind, amount: int, source: Source)
    | Repairs(line: LineId)
    | Allocates(line: LineId, expected: nat, target: int, source: Source)

  predicate Valid(call: Call) {
    call.Applies? ==> call.kind != Adjustment && call.amount > 0
  }

  function OpsOf(call: Call): seq<Op> {
    match call
    case Applies(matches, kind, amount, source) => Program(matches, kind, amount, source)
    case Repairs(l) => [Materialize(l)]
    case Allocates(l, expected, target, source) => [Allocate(l, expected, target, source)]
  }

  /** A worker's calls, one after another. */
  function Script(calls: seq<Call>): seq<Op> {
    if calls == [] then [] else Script(calls[..|calls| - 1]) + OpsOf(calls[|calls| - 1])
  }

  ghost predicate Serves(c: Caller, calls: seq<Call>) {
    c.todo == Script(calls) && forall call :: call in calls ==> Valid(call)
  }

  /** Every caller is a worker of the service. */
  ghost predicate ServiceOnly(s: State) {
    forall c :: c in s.callers ==> exists calls :: Serves(c, calls)
  }

  /** ... and none of them releases. */
  ghost predicate NeverGivesBack(calls: seq<Call>) {
    forall call :: call in calls && call.Applies? ==> call.kind != Release
  }

  lemma FollowsConcat(a: seq<Op>, b: seq<Op>)
    requires Follows(a) && Follows(b)
    ensures Follows(a + b)
  {
    var todo := a + b;
    forall i | 0 <= i < |todo|
      ensures todo[i].Append? ==> Materialize(todo[i].m.line) in todo[i + 1..]
      ensures todo[i].ReleaseReserved? ==> Materialize(todo[i].line) in todo[i + 1..]
    {
      if i < |a| {
        assert todo[i] == a[i] && todo[i + 1..] == a[i + 1..] + b;
      } else {
        assert todo[i] == b[i - |a|] && todo[i + 1..] == b[i - |a| + 1..];
      }
    }
  }

  lemma LineFollows(l: LineId, kind: Kind, amount: int, source: Source)
    ensures Follows(LineProgram(l, kind, amount, source))
  {
    var p := LineProgram(l, kind, amount, source);
    if kind == Actual {
      assert p[0 + 1..] == [ReleaseReserved(l, source), Materialize(l)] && p[1 + 1..] == [Materialize(l)];
    } else {
      assert p[0 + 1..] == [Materialize(l)];
    }
  }

  /** Every movement one call of the service appends is followed by a derivation of its line. */
  lemma {:induction false} ProgramFollows(matches: seq<LineId>, kind: Kind, amount: int, source: Source)
    ensures Follows(Program(matches, kind, amount, source))
  {
    if matches != [] {
      ProgramFollows(matches[..|matches| - 1], kind, amount, source);
      LineFollows(matches[|matches| - 1], kind, amount, source);
      FollowsConcat(Program(matches[..|matches| - 1], kind, amount, source),
                    LineProgram(matches[|matches| - 1], kind, amount, source));
    }
  }

  /** What it appends outright is its own movement; releases of reservations come from the ledger. */
  lemma {:induction false} ProgramAppends(matches: seq<LineId>, kind: Kind, amount: int, source: Source, op: Op)
    requires op in Program(matches, kind, amount, source) && op.Append?
    ensures op.m.kind == kind && op.m.amount == amount && op.m.increase == (kind != Release)
  {
    if op !in LineProgram(matches[|matches| - 1], kind, amount, source) {
      ProgramAppends(matches[..|matches| - 1], kind, amount, source, op);
    }
  }

  lemma {:induction false} ScriptFollows(calls: seq<Call>)
    ensures Follows(Script(calls))
  {
    if calls != [] {
      ScriptFollows(calls[..|calls| - 1]);
      var call := calls[|calls| - 1];
      if call.Applies? { ProgramFollows(call.matches, call.kind, call.amount, call.source); }
      FollowsConcat(Script(calls[..|calls| - 1]), OpsOf(call));
    }
  }

  lemma {:induction false} ScriptAppends(calls: seq<Call>, op: Op)
    requires op in Script(calls) && op.Append? && forall call :: call in calls ==> Valid(call)
    ensures Proper(op.m) && op.m.kind != Adjustment
    ensures NeverGivesBack(calls) ==> op.m.kind != Release
  {
    var call := calls[|calls| - 1];
    assert call in calls;
    if op in OpsOf(call) {
      ProgramAppends(call.matches, call.kind, call.amount, call.source, op);
    } else {
      ScriptAppends(calls[..|calls| - 1], op);
    }
  }

  /** So workers meet what quiescent agreement, conservation and the allocation result ask of callers. */
  lemma ServiceMeetsTheHypotheses(s: State)
    requires ServiceOnly(s)
    ensures WellFormed(s) && ProperWork(s) && NoRawAdjustment(s)
  {
    forall c | c in s.callers ensures Follows(c.todo) {
      var calls :| Serves(c, calls);
      ScriptFollows(calls);
    }
    forall c, op | c in s.callers && op in c.todo && op.Append? ensures Proper(op.m) && op.m.kind != Adjustment {
      var calls :| Serves(c, calls);
      ScriptAppends(calls, op);
    }
  }

  lemma ServiceIsDisciplined(s: State)
    requires forall c :: c in s.callers ==> exists calls :: Serves(c, calls) && NeverGivesBack(calls)
    ensures AllDisciplined(s)
  {
    forall c, op | c in s.callers && op in c.todo ensures Disciplined(s.tables.ledger, op) {
      var calls :| Serves(c, calls) && NeverGivesBack(calls);
      if op.Append? { ScriptAppends(calls, op); }
    }
  }

  /** Workers of the service, however interleaved, crashed and replayed: settled lines agree unless a
      ledger ends on an old balance, and it conserves throughout exactly when every release was backed. */
  lemma ServiceRuns(s: State, es: seq<Event>, l: LineId)
    requires Initial(s) && ServiceOnly(s) && l in s.tables.lines
    ensures Settled(Exec(s, es), l) && EndsAnew(Exec(s, es).tables.ledger, l) ==> Agrees(Exec(s, es).tables, l)
    ensures ConservedThroughout(Exec(s, es).tables.ledger) <==> EveryReleaseBacked(Exec(s, es).tables.ledger)
  {
    ServiceMeetsTheHypotheses(s);
    if Settled(Exec(s, es), l) && EndsAnew(Exec(s, es).tables.ledger, l) { SettledAgrees(s, es, l); }
    RunConservesExactlyWhen(s, es);
  }

  /** On every line that matches there is a movement to append. */
  lemma {:induction false} EveryMatchIsAppended(matches: seq<LineId>, kind: Kind, amount: int, source: Source, k: LineId)
    requires k in matches
    ensures Append(Movement(k, kind, kind != Release, amount, source)) in Program(matches, kind, amount, source)
  {
    var (before, l) := (matches[..|matches| - 1], matches[|matches| - 1]);
    if k == l {
      assert LineProgram(l, kind, amount, source)[0] == Append(Movement(l, kind, kind != Release, amount, source));
    } else {
      EveryMatchIsAppended(before, kind, amount, source, k);
    }
  }

  lemma {:induction false} ScriptHolds(calls: seq<Call>, call: Call, op: Op)
    requires call in calls && op in OpsOf(call)
    ensures op in Script(calls)
  {
    if call != calls[|calls| - 1] { ScriptHolds(calls[..|calls| - 1], call, op); }
  }

  /** An operation leaves what stands behind it to be done. */
  lemma OperateLeaves(t: Tables, me: Caller, op: Op)
    requires me.todo != [] && op in me.todo[1..]
    ensures op in Operate(t, me).1.todo
  {
    var (todo, rest) := (Operate(t, me).1.todo, me.todo[1..]);
    assert me.todo == [me.todo[0]] + rest;
    if me.todo[0].ReleaseReserved? && todo != rest { assert todo[1..] == rest; }
  }

  lemma OperateAppendsIt(t: Tables, me: Caller, m: Movement)
    requires me.todo != [] && Append(m) in me.todo
    ensures Append(m) in Operate(t, me).1.todo || HasKey(Operate(t, me).0.ledger, m)
  {
    if me.todo[0] == Append(m) { Inserted(t.ledger, m); } else { OperateLeaves(t, me, Append(m)); }
  }

  lemma {:induction false} AppendedOrAhead(s: State, es: seq<Event>, p: nat, m: Movement)
    requires p < |s.callers| && Append(m) in s.callers[p].todo
    ensures Append(m) in Exec(s, es).callers[p].todo || HasKey(Exec(s, es).tables.ledger, m)
  {
    if es != [] {
      var (f, e) := (Exec(s, es[..|es| - 1]), es[|es| - 1]);
      AppendedOrAhead(s, es[..|es| - 1], p, m);
      LedgerGrows(f, e);
      KeyStays(f.tables.ledger, Advance(f, e).tables.ledger, m);
      if Append(m) in f.callers[p].todo && e == Run(p) && f.callers[p].status == Live { OperateAppendsIt(f.tables, f.callers[p], m); }
    }
  }

  lemma OperateAppends(t: Tables, me: Caller)
    requires me.todo != []
    ensures t.ledger <= Operate(t, me).0.ledger
    ensures forall i :: |t.ledger| <= i < |Operate(t, me).0.ledger| && Operate(t, me).0.ledger[i].kind == Actual ==>
              me.todo[0] == Append(Operate(t, me).0.ledger[i])
  {}

  lemma LedgerGrows(s: State, e: Event)
    ensures s.tables.ledger <= Advance(s, e).tables.ledger
  {
    if e.caller < |s.callers| && s.callers[e.caller].todo != [] { OperateAppends(s.tables, s.callers[e.caller]); }
  }

  /** However it was interleaved, a worker that has returned has recorded each of its calls on every line
      that the call matched. */
  lemma ReturnedCallIsRecorded(s: State, es: seq<Event>, p: nat, calls: seq<Call>, call: Call, k: LineId)
    requires p < |s.callers| && Serves(s.callers[p], calls) && call in calls && call.Applies? && k in call.matches
    requires Exec(s, es).callers[p].todo == []
    ensures HasKey(Exec(s, es).tables.ledger, Movement(k, call.kind, call.kind != Release, call.amount, call.source))
  {
    var m := Movement(k, call.kind, call.kind != Release, call.amount, call.source);
    EveryMatchIsAppended(call.matches, call.kind, call.amount, call.source, k);
    ScriptHolds(calls, call, Append(m));
    AppendedOrAhead(s, es, p, m);
  }

  /** A worker that asks for one allocation: alone, on the version it expects, it leaves the target. */
  lemma AllocationServed(s: State, p: nat, l: LineId, expected: nat, target: int, source: Source)
    requires p < |s.callers| && l in s.tables.lines && s.tables.lines[l].version == expected
    requires s.callers[p].phase == Ready && s.callers[p].attempts == 0 && s.callers[p].status == Live
    requires Serves(s.callers[p], [Allocates(l, expected, target, source)])
    requires forall i :: 0 <= i < |s.tables.ledger| ==> s.tables.ledger[i].source != source
    ensures var t := Exec(s, [Run(p), Run(p)]).tables;
            l in t.lines && t.lines[l].allocation == target && t.lines[l].version == expected + 1
  {
    var calls := [Allocates(l, expected, target, source)];
    assert calls[..0] == [] && Script([]) == [];
    assert s.callers[p] == Caller([Allocate(l, expected, target, source)], Ready, 0, Live);
    AllocateAlone(s, p, l, expected, target, source);
  }

  // ---- Which ledgers finished calls leave, and which leave a line stale ------------------------------

  /** Every ACTUAL still to be appended has its release behind it. */
  ghost predicate Settling(todo: seq<Op>) {
    forall i :: 0 <= i < |todo| && todo[i].Append? && todo[i].m.kind == Actual ==>
      ReleaseReserved(todo[i].m.line, todo[i].m.source) in todo[i + 1..]
  }

  lemma SettlingConcat(a: seq<Op>, b: seq<Op>)
    requires Settling(a) && Settling(b)
    ensures Settling(a + b)
  {
    var todo := a + b;
    forall i | 0 <= i < |todo| && todo[i].Append? && todo[i].m.kind == Actual
      ensures ReleaseReserved(todo[i].m.line, todo[i].m.source) in todo[i + 1..]
    {
      if i < |a| {
        assert todo[i] == a[i] && todo[i + 1..] == a[i + 1..] + b;
      } else {
        assert todo[i] == b[i - |a|] && todo[i + 1..] == b[i - |a| + 1..];
      }
    }
  }

  lemma {:induction false} ProgramSettles(matches: seq<LineId>, kind: Kind, amount: int, source: Source)
    ensures Settling(Program(matches, kind, amount, source))
  {
    if matches != [] {
      var l := matches[|matches| - 1];
      ProgramSettles(matches[..|matches| - 1], kind, amount, source);
      assert kind == Actual ==> LineProgram(l, kind, amount, source)[0 + 1] == ReleaseReserved(l, source);
      SettlingConcat(Program(matches[..|matches| - 1], kind, amount, source), LineProgram(l, kind, amount, source));
    }
  }

  lemma {:induction false} ScriptSettles(calls: seq<Call>)
    ensures Settling(Script(calls))
  {
    if calls != [] {
      ScriptSettles(calls[..|calls| - 1]);
      var call := calls[|calls| - 1];
      if call.Applies? { ProgramSettles(call.matches, call.kind, call.amount, call.source); }
      SettlingConcat(Script(calls[..|calls| - 1]), OpsOf(call));
    }
  }

  lemma SettlingRest(todo: seq<Op>)
    requires todo != [] && Settling(todo)
    ensures Settling(todo[1..])
  {
    var rest := todo[1..];
    forall i | 0 <= i < |rest| && rest[i].Append? && rest[i].m.kind == Actual
      ensures ReleaseReserved(rest[i].m.line, rest[i].m.source) in rest[i + 1..]
    {
      assert todo[i + 1] == rest[i] && todo[i + 1 + 1..] == rest[i + 1..];
    }
  }

  lemma OperateSettles(t: Tables, me: Caller)
    requires me.todo != [] && Settling(me.todo)
    ensures Settling(Operate(t, me).1.todo)
  {
    var op := me.todo[0];
    SettlingRest(me.todo);
    if op.ReleaseReserved? && Reserved(t.ledger, op.line, op.source) != [] {
      SettlingConcat([Append(ReleaseOf(Reserved(t.ledger, op.line, op.source)[0]))], me.todo[1..]);
    } else {
      assert Operate(t, me).1.todo in {me.todo, me.todo[1..]};
    }
  }

  /** A release this history owes has been made or some caller still has it ahead. */
  ghost predicate PaidOrAhead(s: State, i: nat)
    requires i < |s.tables.ledger|
  {
    var m := s.tables.ledger[i];
    OwesRelease(s.tables.ledger, i) ==>
      Released(s.tables.ledger, m.line, m.source)
      || exists p :: 0 <= p < |s.callers| && StillReleasing(s.callers[p], m.line, m.source)
  }

  ghost predicate Paying(s: State) {
    && (forall c :: c in s.callers ==> Settling(c.todo))
    && forall i :: 0 <= i < |s.tables.ledger| ==> PaidOrAhead(s, i)
  }

  lemma OldStaysPaid(s: State, e: Event, i: nat)
    requires Paying(s) && i < |s.tables.ledger| && s.tables.ledger <= Advance(s, e).tables.ledger
    ensures PaidOrAhead(Advance(s, e), i)
  {
    var (s', m, p) := (Advance(s, e), s.tables.ledger[i], e.caller);
    assert PaidOrAhead(s, i) && s'.tables.ledger[..i] == s.tables.ledger[..i];
    StaysThere(s.tables.ledger, s'.tables.ledger, m.line, m.source);
    StaysThere(s.tables.ledger[..i], s.tables.ledger, m.line, m.source);
    if OwesRelease(s.tables.ledger, i) && !Released(s'.tables.ledger, m.line, m.source) {
      var q :| 0 <= q < |s.callers| && StillReleasing(s.callers[q], m.line, m.source);
      if q == p && e.Run? && s.callers[p].status == Live && s.callers[p].todo != [] {
        OperateReleases(s.tables, s.callers[p], m.line, m.source);
      }
      assert StillReleasing(s'.callers[q], m.line, m.source);
    }
  }

  lemma AdvancePays(s: State, e: Event)
    requires Paying(s)
    ensures Paying(Advance(s, e))
  {
    var (s', p) := (Advance(s, e), e.caller);
    if p < |s.callers| && s.callers[p].todo != [] {
      OperateSettles(s.tables, s.callers[p]);
      OperateAppends(s.tables, s.callers[p]);
    }
    forall i | 0 <= i < |s'.tables.ledger| ensures PaidOrAhead(s', i) {
      if i < |s.tables.ledger| {
        OldStaysPaid(s, e, i);
      } else if s'.tables.ledger[i].kind == Actual {
        assert s.callers[p].todo[0] == Append(s'.tables.ledger[i]);
        assert StillReleasing(s'.callers[p], s'.tables.ledger[i].line, s'.tables.ledger[i].source);
      }
    }
  }

  lemma {:induction false} ExecPays(s: State, es: seq<Event>)
    requires Initial(s) && forall c :: c in s.callers ==> Settling(c.todo)
    ensures Paying(Exec(s, es))
  {
    if es != [] {
      ExecPays(s, es[..|es| - 1]);
      AdvancePays(Exec(s, es[..|es| - 1]), es[|es| - 1]);
    }
  }

  /** A run of calls of the service, each of which has returned. */
  ghost predicate ServiceRun(s: State, es: seq<Event>, ms: seq<Movement>) {
    && Initial(s) && ServiceOnly(s) && Exec(s, es).tables.ledger == ms
    && forall c :: c in Exec(s, es).callers ==> c.todo == []
  }

  ghost predicate NoAllocation(ms: seq<Movement>) {
    forall i :: 0 <= i < |ms| ==> ms[i].kind != Adjustment
  }

  lemma ReturnedIsFinishable(s: State, es: seq<Event>, ms: seq<Movement>)
    requires ServiceRun(s, es, ms) && NoAllocation(ms)
    ensures Finishable(ms)
  {
    ServiceMeetsTheHypotheses(s);
    ExecKeepsProper(s, es);
    forall c | c in s.callers ensures Settling(c.todo) {
      var calls :| Serves(c, calls);
      ScriptSettles(calls);
    }
    ExecPays(s, es);
    var f := Exec(s, es);
    forall i | 0 <= i < |ms| && OwesRelease(ms, i) ensures Released(ms, ms[i].line, ms[i].source) {
      assert PaidOrAhead(f, i);
      forall p | 0 <= p < |f.callers| ensures !StillReleasing(f.callers[p], ms[i].line, ms[i].source) {
        assert f.callers[p] in f.callers;
      }
    }
  }

  lemma WorkersServe(ms: seq<Movement>, l: LineId)
    requires Finishable(ms)
    ensures Initial(Workers(ms, l, true)) && ServiceOnly(Workers(ms, l, true))
  {
    var s := Workers(ms, l, true);
    WorkersStart(ms, l, true);
    forall c | c in s.callers ensures exists calls :: Serves(c, calls) {
      var p :| 0 <= p < |s.callers| && s.callers[p] == c;
      if p < |ms| { WorkerServes(ms[p]); } else { RepairerServes(l); }
    }
  }

  lemma WorkerServes(m: Movement)
    requires m.kind != Adjustment && m.amount > 0
    ensures exists calls :: Serves(Worker(m, true), calls)
  {
    var call := Applies([m.line], m.kind, m.amount, m.source);
    assert [m.line][..0] == [] && [call][..0] == [];
    assert Program([m.line], m.kind, m.amount, m.source) == LineProgram(m.line, m.kind, m.amount, m.source);
    assert Script([call]) == OpsOf(call);
    assert Serves(Worker(m, true), [call]);
  }

  lemma RepairerServes(l: LineId)
    ensures exists calls :: Serves(Repairer(l), calls)
  {
    assert [Repairs(l)][..0] == [];
    assert Script([Repairs(l)]) == OpsOf(Repairs(l));
    assert Serves(Repairer(l), [Repairs(l)]);
  }

  /** The ledgers without allocations that calls of the service leave behind once all have returned,
      exactly: positive movements, unique by key, with every release an ACTUAL owes. */
  lemma ReturnedCallsLeaveExactly(ms: seq<Movement>)
    requires NoAllocation(ms)
    ensures (exists s, es :: ServiceRun(s, es, ms)) <==> Finishable(ms)
  {
    if s, es :| ServiceRun(s, es, ms) { ReturnedIsFinishable(s, es, ms); }
    if Finishable(ms) {
      var es := AllReturn(ms, 0, true);
      WorkersServe(ms, 0);
      assert ServiceRun(Workers(ms, 0, true), es, ms);
    }
  }

  ghost predicate EndsStale(s: State, es: seq<Event>, ms: seq<Movement>, l: LineId) {
    ServiceRun(s, es, ms) && l in s.tables.lines && !Agrees(Exec(s, es).tables, l)
  }

  /** ... and those of them with which a line can be left stale, after every call has returned: exactly the
      ones that end on a balance the line showed before. */
  lemma ServiceCallsGoStaleExactlyWhen(ms: seq<Movement>, l: LineId)
    requires NoAllocation(ms)
    ensures (exists s, es :: EndsStale(s, es, ms, l)) <==> Finishable(ms) && !EndsAnew(ms, l)
  {
    if s, es :| EndsStale(s, es, ms, l) {
      ReturnedIsFinishable(s, es, ms);
      ServiceMeetsTheHypotheses(s);
      if EndsAnew(ms, l) { SettledAgrees(s, es, l); }
    }
    if Finishable(ms) && !EndsAnew(ms, l) {
      var a := BeforeAMovement(ms, l);
      var es := ReturningBalanceGoesStale(ms, l, a, true);
      WorkersServe(ms, l);
      assert EndsStale(Workers(ms, l, true), es, ms, l);
    }
  }

  // ---- Two smallest instances ---------------------------------------------------------------------

  const BILL := Source("BILL", "x")
  const TEN_COMMITTED := Movement(7, Commitment, true, 10, BILL)
  const TEN_RELEASED := Movement(7, Release, false, 10, BILL)

  /** Two workers, one to `commit` ten on line 7 and one to `release` them. */
  const COMMIT_AND_RELEASE := State(Tables([], map[7 := Line(0, 0, 0, 1)]),
                                    [Worker(TEN_COMMITTED, true), Worker(TEN_RELEASED, true)])

  lemma BothServe()
    ensures Initial(COMMIT_AND_RELEASE) && ServiceOnly(COMMIT_AND_RELEASE)
  {
    WorkerServes(TEN_COMMITTED);
    WorkerServes(TEN_RELEASED);
  }

  /** One of them appends and reads the line and its ledger. */
  lemma AppendsAndReads(s: State, p: nat, m: Movement)
    requires p < |s.callers| && s.callers[p] == Worker(m, true) && Proper(m) && m.kind in COMMITTING
    requires m.line in s.tables.lines
    ensures var ledger := Insert(s.tables.ledger, m);
            Exec(s, Thrice(p))
            == State(s.tables.(ledger := ledger), s.callers[p := HoldingAt(m.line, s.tables.lines[m.line], ledger)])
  {
    ExecThrice(s, p);
    AppendsFirst(s, p, m);
    Reads(Advance(s, Run(p)), p, m.line);
  }

  lemma TenAndBack()
    ensures Total([TEN_COMMITTED], 7, COMMITTING) == 10 && Total([TEN_COMMITTED, TEN_RELEASED], 7, COMMITTING) == 0
    ensures Total([TEN_COMMITTED], 7, SPENDING) == 0 && Total([TEN_COMMITTED, TEN_RELEASED], 7, SPENDING) == 0
  {
    assert [TEN_COMMITTED, TEN_RELEASED][..1] == [TEN_COMMITTED] && [TEN_COMMITTED][..0] == [];
  }

  /** The release skips and the commit writes. */
  lemma RaceEnds(t: State)
    requires t.tables == Tables([TEN_COMMITTED, TEN_RELEASED], map[7 := Line(0, 0, 0, 1)])
    requires t.callers == [HoldingAt(7, Line(0, 0, 0, 1), [TEN_COMMITTED]), HoldingAt(7, Line(0, 0, 0, 1), t.tables.ledger)]
    ensures Exec(t, [Run(1), Run(0)]) == State(t.tables.(lines := map[7 := Line(0, 10, 0, 2)]), [IDLE, IDLE])
  {
    ExecTwo(t, Run(1), Run(0));
    TenAndBack();
    Skips(t, 1, 7, Line(0, 0, 0, 1), t.tables.ledger);
    Writes(Advance(t, Run(1)), 0, 7, Line(0, 0, 0, 1), [TEN_COMMITTED]);
  }

  /** The commit reads the ledger before the release comes and writes after it has gone: with both calls
      returned the line reads 10 and its ledger sums to nothing. */
  lemma CommitRacingItsRelease()
    ensures ServiceRun(COMMIT_AND_RELEASE, Thrice(0) + Thrice(1) + [Run(1), Run(0)], [TEN_COMMITTED, TEN_RELEASED])
    ensures var t := Exec(COMMIT_AND_RELEASE, Thrice(0) + Thrice(1) + [Run(1), Run(0)]).tables;
            t.lines == map[7 := Line(0, 10, 0, 2)] && Total(t.ledger, 7, COMMITTING) == 0
  {
    var s := COMMIT_AND_RELEASE;
    BothServe();
    var holding := HoldingAt(7, Line(0, 0, 0, 1), [TEN_COMMITTED]);
    assert Insert([], TEN_COMMITTED) == [TEN_COMMITTED]
      && Insert([TEN_COMMITTED], TEN_RELEASED) == [TEN_COMMITTED, TEN_RELEASED];
    AppendsAndReads(s, 0, TEN_COMMITTED);
    var t := Exec(s, Thrice(0));
    assert t == State(s.tables.(ledger := [TEN_COMMITTED]), [holding, Worker(TEN_RELEASED, true)]);
    ExecThen(s, Thrice(0), Thrice(1));
    AppendsAndReads(t, 1, TEN_RELEASED);
    ExecThen(s, Thrice(0) + Thrice(1), [Run(1), Run(0)]);
    RaceEnds(Exec(s, Thrice(0) + Thrice(1)));
    TenAndBack();
  }

  function WholeCall(p: nat): seq<Event> {
    [Run(p)] + Thrice(p)
  }

  /** The release comes first: both calls return one after the other, and between them the line and its
      ledger show ten less than nothing committed. */
  lemma ReleaseOvertakesItsCommitment()
    ensures var f := Exec(COMMIT_AND_RELEASE, WholeCall(1));
            f.callers[1] == IDLE && f.tables.ledger == [TEN_RELEASED] && 7 in f.tables.lines
              && f.tables.lines[7].committed == -10
    ensures ServiceRun(COMMIT_AND_RELEASE, WholeCall(1) + WholeCall(0), [TEN_RELEASED, TEN_COMMITTED])
    ensures !EveryReleaseBacked([TEN_RELEASED, TEN_COMMITTED])
  {
    var s := COMMIT_AND_RELEASE;
    BothServe();
    CallAlone(s, 1, TEN_RELEASED);
    TotalOfAppend([], TEN_RELEASED, 7, COMMITTING);
    assert [] + [TEN_RELEASED] == [TEN_RELEASED];
    ExecThen(s, WholeCall(1), WholeCall(0));
    CallAlone(Exec(s, WholeCall(1)), 0, TEN_COMMITTED);
    assert !ReleaseBacked([TEN_RELEASED, TEN_COMMITTED], 0);
  }

  /** A whole `commit` or `release` with nobody else about. */
  lemma CallAlone(s: State, p: nat, m: Movement)
    requires p < |s.callers| && s.callers[p] == Worker(m, true) && Proper(m) && m.kind in COMMITTING
    requires m.line in s.tables.lines
    ensures var f := Exec(s, WholeCall(p));
            && f.callers == s.callers[p := IDLE] && f.tables.ledger == Insert(s.tables.ledger, m)
                  && Agrees(f.tables, m.line)
            && f.tables.lines.Keys == s.tables.lines.Keys
  {
    ExecThen(s, [Run(p)], Thrice(p));
    AppendsFirst(s, p, m);
    ExecOne(s, Run(p));
    DerivedAlone(Advance(s, Run(p)), p, m.line);
  }

  lemma AppendsFirst(s: State, p: nat, m: Movement)
    requires p < |s.callers| && s.callers[p] == Worker(m, true) && Proper(m) && m.kind in COMMITTING
    ensures Advance(s, Run(p)) == State(s.tables.(ledger := Insert(s.tables.ledger, m)), s.callers[p := Repairer(m.line)])
  {
    assert ProgramOf(m, true)[1..] == [Materialize(m.line)];
  }
}
