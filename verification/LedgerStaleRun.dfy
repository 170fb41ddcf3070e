/** The converse of quiescent agreement: a history that ends on a balance the line showed before has a
    schedule that leaves the line stale for good. Together with `SettledAgrees` this is exactly when the
    early return of `materialize`, which checks no version, is harmless. */
module LedgerStaleRun {
  import opened Ledger
  import opened LedgerProtocol
  import opened LedgerQuiescence
  import opened LedgerConservation
  import opened LedgerReleases
  import opened LedgerService

  /** What the movements of a ledger without allocations can be: positive, and unique by key. */
  ghost predicate Spends(ms: seq<Movement>) {
    UniqueKeys(ms) && forall i :: 0 <= i < |ms| ==> ms[i].kind != Adjustment && ms[i].amount > 0
  }

  /** An ACTUAL that came after its source's commitment, and so has a release to make. */
  predicate OwesRelease(ms: seq<Movement>, i: nat)
    requires i < |ms|
  {
    ms[i].kind == Actual && Committed(ms[..i], ms[i].line, ms[i].source)
  }

  /** A history that whole calls can have finished: the releases it owes are in it. */
  ghost predicate Finishable(ms: seq<Movement>) {
    && Spends(ms) && AllProper(ms)
    && forall i {:trigger OwesRelease(ms, i)} :: 0 <= i < |ms| && OwesRelease(ms, i) ==>
         Released(ms, ms[i].line, ms[i].source)
  }

  // ---- Running callers ----------------------------------------------------------------------------

  const IDLE := Caller([], Ready, 0, Live)

  lemma {:induction false} ExecThen(s: State, a: seq<Event>, b: seq<Event>)
    ensures Exec(s, a + b) == Exec(Exec(s, a), b)
  {
    if b == [] {
      assert a + b == a;
    } else {
      ExecThen(s, a, b[..|b| - 1]);
      assert (a + b)[..|a + b| - 1] == a + b[..|b| - 1];
    }
  }

  lemma ExecOne(s: State, e: Event)
    ensures Exec(s, [e]) == Advance(s, e)
  {
    assert [e][..0] == [];
  }

  lemma ExecTwo(s: State, e: Event, e': Event)
    ensures Exec(s, [e, e']) == Advance(Advance(s, e), e')
  {
    ExecThen(s, [e], [e']);
    assert [e] + [e'] == [e, e'];
    ExecOne(s, e);
    ExecOne(Advance(s, e), e');
  }

  function Thrice(p: nat): seq<Event> {
    [Run(p), Run(p), Run(p)]
  }

  function Three(s: State, p: nat): State {
    Advance(Advance(Advance(s, Run(p)), Run(p)), Run(p))
  }

  lemma ExecThrice(s: State, p: nat)
    ensures Exec(s, Thrice(p)) == Three(s, p)
  {
    ExecTwo(s, Run(p), Run(p));
    ExecThen(s, [Run(p), Run(p)], [Run(p)]);
    assert [Run(p), Run(p)] + [Run(p)] == Thrice(p);
    ExecOne(Exec(s, [Run(p), Run(p)]), Run(p));
  }

  function Repairer(l: LineId): Caller {
    Caller([Materialize(l)], Ready, 0, Live)
  }

  function HoldingAt(l: LineId, row: Line, seen: seq<Movement>): Caller {
    Repairer(l).(phase := HoldsLedger(row, seen))
  }

  lemma Reads(s: State, p: nat, l: LineId)
    requires p < |s.callers| && s.callers[p] == Repairer(l) && l in s.tables.lines
    ensures Advance(Advance(s, Run(p)), Run(p))
         == s.(callers := s.callers[p := HoldingAt(l, s.tables.lines[l], s.tables.ledger)])
  {
    assert Advance(s, Run(p)) == s.(callers := s.callers[p := Repairer(l).(phase := HoldsLine(s.tables.lines[l]))]);
  }

  lemma Skips(s: State, p: nat, l: LineId, row: Line, seen: seq<Movement>)
    requires p < |s.callers| && s.callers[p] == HoldingAt(l, row, seen) && Caches(row, l, seen)
    ensures Advance(s, Run(p)) == s.(callers := s.callers[p := IDLE])
  {
    assert [Materialize(l)][1..] == [];
  }

  lemma Writes(s: State, p: nat, l: LineId, row: Line, seen: seq<Movement>)
    requires p < |s.callers| && s.callers[p] == HoldingAt(l, row, seen) && !Caches(row, l, seen)
    requires l in s.tables.lines && s.tables.lines[l].version == row.version
    ensures Advance(s, Run(p)) == State(Rewritten(s.tables, l, seen), s.callers[p := IDLE])
  {
    assert [Materialize(l)][1..] == [];
  }

  /** A derivation with nobody else about. */
  lemma DerivedAlone(s: State, p: nat, l: LineId)
    requires p < |s.callers| && s.callers[p] == Repairer(l) && l in s.tables.lines
    ensures var f := Exec(s, Thrice(p));
            && Agrees(f.tables, l) && f.tables.ledger == s.tables.ledger && f.tables.lines.Keys == s.tables.lines.Keys
            && f.callers == s.callers[p := IDLE]
            && (forall k :: k in s.tables.lines && k != l ==> f.tables.lines[k] == s.tables.lines[k])
            && (Agrees(s.tables, l) ==> f.tables == s.tables)
  {
    ExecThrice(s, p);
    Reads(s, p, l);
    var (t, row) := (Advance(Advance(s, Run(p)), Run(p)), s.tables.lines[l]);
    if Caches(row, l, s.tables.ledger) {
      Skips(t, p, l, row, s.tables.ledger);
    } else {
      Writes(t, p, l, row, s.tables.ledger);
    }
  }

  // ---- The workers --------------------------------------------------------------------------------

  /** What appends a movement: `commit`, `actualize` or `release` on its line, or an append and a derivation
      without the rest of the call. */
  function ProgramOf(m: Movement, whole: bool): seq<Op> {
    if whole then LineProgram(m.line, m.kind, m.amount, m.source) else [Append(m), Materialize(m.line)]
  }

  function Worker(m: Movement, whole: bool): Caller {
    Caller(ProgramOf(m, whole), Ready, 0, Live)
  }

  /** A worker for each movement and two repairs of one line, on lines as `create` leaves them. */
  function Workers(ms: seq<Movement>, l: LineId, whole: bool): State {
    State(Tables([], map k | k in LinesOf(ms) + {l} :: Line(0, 0, 0, 1)),
          seq(|ms|, i requires 0 <= i < |ms| => Worker(ms[i], whole)) + [Repairer(l), Repairer(l)])
  }

  function LinesOf(ms: seq<Movement>): set<LineId> {
    set i | 0 <= i < |ms| :: ms[i].line
  }

  ghost predicate Workable(ms: seq<Movement>, whole: bool) {
    Spends(ms) && (whole ==> Finishable(ms))
  }

  lemma WorkersStart(ms: seq<Movement>, l: LineId, whole: bool)
    ensures Initial(Workers(ms, l, whole)) && WellFormed(Workers(ms, l, whole))
  {
    var s := Workers(ms, l, whole);
    forall c | c in s.callers ensures Follows(c.todo) {
      var p :| 0 <= p < |s.callers| && s.callers[p] == c;
      if p < |ms| { ProgramFollowsUp(ms[p], whole); }
    }
  }

  lemma ProgramFollowsUp(m: Movement, whole: bool)
    ensures Follows(ProgramOf(m, whole))
  {
    var p := ProgramOf(m, whole);
    if |p| == 3 {
      assert p[0 + 1..] == [ReleaseReserved(m.line, m.source), Materialize(m.line)]
        && p[1 + 1..] == [Materialize(m.line)];
    } else {
      assert p[0 + 1..] == [Materialize(m.line)];
    }
  }

  /** Once it has appended: a release the movement owes waits to be made, and the line is behind. */
  function Appended(ms: seq<Movement>, i: nat, whole: bool): Caller
    requires i < |ms|
  {
    var release := if whole && OwesRelease(ms, i) then [ReleaseReserved(ms[i].line, ms[i].source)] else [];
    Caller(release + [Materialize(ms[i].line)], Ready, 0, Live)
  }

  /** The first `n` have appended and of those the first `done` are through; the line shows `row`. */
  ghost predicate Spread(s: State, ms: seq<Movement>, l: LineId, row: Line, n: nat, done: nat, whole: bool,
                         first: Caller, second: Caller)
    requires n <= |ms|
  {
    && |s.callers| == |ms| + 2 && s.tables.ledger == ms[..n]
    && LinesOf(ms) <= s.tables.lines.Keys && l in s.tables.lines && s.tables.lines[l] == row
    && (forall k :: 0 <= k < |ms| ==>
          s.callers[k] == if k < done then IDLE else if k < n then Appended(ms, k, whole) else Worker(ms[k], whole))
    && s.callers[|ms|] == first && s.callers[|ms| + 1] == second
  }

  lemma NextKey(ms: seq<Movement>, n: nat)
    requires UniqueKeys(ms) && n < |ms|
    ensures Insert(ms[..n], ms[n]) == ms[..n + 1]
  {}

  lemma ReservedIffCommitted(ms: seq<Movement>, l: LineId, source: Source)
    ensures Reserved(ms, l, source) != [] <==> Committed(ms, l, source)
  {
    ReservedIsThere(ms, l, source);
    if Committed(ms, l, source) {
      var i :| 0 <= i < |ms| && ms[i].kind == Commitment && ms[i].line == l && ms[i].source == source;
      assert ms[i] in ms;
    }
  }

  /** An ACTUAL that finds something reserved right after it owes the release. */
  lemma ReservedIsOwed(ms: seq<Movement>, n: nat)
    requires n < |ms| && ms[n].kind == Actual && Reserved(ms[..n + 1], ms[n].line, ms[n].source) != []
    ensures OwesRelease(ms, n)
  {
    ReservedIffCommitted(ms[..n + 1], ms[n].line, ms[n].source);
    var i :| 0 <= i < n + 1 && ms[i].kind == Commitment && ms[i].line == ms[n].line && ms[i].source == ms[n].source;
    assert ms[..n][i] == ms[i];
  }

  lemma AppendOne(s: State, ms: seq<Movement>, l: LineId, row: Line, n: nat, whole: bool, first: Caller, second: Caller)
    returns (es: seq<Event>)
    requires Workable(ms, whole) && n < |ms| && Spread(s, ms, l, row, n, 0, whole, first, second)
    ensures Spread(Exec(s, es), ms, l, row, n + 1, 0, whole, first, second)
  {
    var m := ms[n];
    NextKey(ms, n);
    assert whole ==> Proper(m) && m == Movement(m.line, m.kind, m.kind != Release, m.amount, m.source);
    ExecOne(s, Run(n));
    es := [Run(n)];
    var settles := whole && m.kind == Actual;
    assert ProgramOf(m, whole)[1..] == (if settles then [ReleaseReserved(m.line, m.source)] else []) + [Materialize(m.line)];
    if settles && !OwesRelease(ms, n) {
      if Reserved(ms[..n + 1], m.line, m.source) != [] { ReservedIsOwed(ms, n); }
      es := [Run(n), Run(n)];
      ExecTwo(s, Run(n), Run(n));
    }
  }

  lemma {:induction false} AppendAll(s: State, ms: seq<Movement>, l: LineId, row: Line, n: nat, upTo: nat, whole: bool,
                                     first: Caller, second: Caller)
    returns (es: seq<Event>)
    requires Workable(ms, whole) && n <= upTo <= |ms| && Spread(s, ms, l, row, n, 0, whole, first, second)
    ensures Spread(Exec(s, es), ms, l, row, upTo, 0, whole, first, second)
    decreases upTo - n
  {
    if n == upTo {
      es := [];
    } else {
      var one := AppendOne(s, ms, l, row, n, whole, first, second);
      var rest := AppendAll(Exec(s, one), ms, l, row, n + 1, upTo, whole, first, second);
      es := one + rest;
      ExecThen(s, one, rest);
    }
  }

  /** With everything in the ledger, the release a worker still owes is there already. */
  lemma OwedReleaseIsThere(ms: seq<Movement>, k: nat)
    requires Finishable(ms) && k < |ms| && OwesRelease(ms, k)
    ensures var reserved := Reserved(ms, ms[k].line, ms[k].source);
            reserved != [] && HasKey(ms, ReleaseOf(reserved[0])) && reserved[0].line == ms[k].line
  {
    var (l, source) := (ms[k].line, ms[k].source);
    StaysThere(ms[..k], ms, l, source);
    ReservedIffCommitted(ms, l, source);
    ReservedIsThere(ms, l, source);
    var i :| 0 <= i < |ms| && ms[i].kind == Release && ms[i].line == l && ms[i].source == source;
    assert SameKey(ms[i], ReleaseOf(Reserved(ms, l, source)[0]));
  }

  lemma ReleaseOnce(s: State, ms: seq<Movement>, k: nat)
    requires Finishable(ms) && k < |ms| && OwesRelease(ms, k) && s.tables.ledger == ms
    requires k < |s.callers| && s.callers[k] == Appended(ms, k, true)
    ensures Exec(s, [Run(k), Run(k)]) == s.(callers := s.callers[k := Repairer(ms[k].line)])
  {
    ExecTwo(s, Run(k), Run(k));
    OwedReleaseIsThere(ms, k);
    var release := ReleaseOf(Reserved(ms, ms[k].line, ms[k].source)[0]);
    var me := s.callers[k];
    assert me.todo == [ReleaseReserved(ms[k].line, ms[k].source), Materialize(ms[k].line)];
    assert me.todo[1..] == [Materialize(ms[k].line)];
    var me' := me.(todo := [Append(release)] + me.todo[1..]);
    assert Operate(s.tables, me) == (s.tables, me');
    assert me'.todo[1..] == [Materialize(ms[k].line)];
    assert Operate(s.tables, me') == (s.tables, Repairer(ms[k].line));
  }

  /** A worker that has appended finishes: its derivation finds `row` as it should be, or is of another line. */
  lemma FinishOne(s: State, ms: seq<Movement>, l: LineId, row: Line, k: nat, whole: bool, first: Caller, second: Caller)
    returns (es: seq<Event>)
    requires Workable(ms, whole) && k < |ms| && Spread(s, ms, l, row, |ms|, k, whole, first, second) && Caches(row, l, ms)
    ensures Spread(Exec(s, es), ms, l, row, |ms|, k + 1, whole, first, second)
  {
    assert ms[..|ms|] == ms;
    var before := OwedIsMade(s, ms, k, whole);
    var t := Exec(s, before);
    DerivedAlone(t, k, ms[k].line);
    ExecThen(s, before, Thrice(k));
    es := before + Thrice(k);
  }

  /** What the worker has left is to derive its line. */
  lemma OwedIsMade(s: State, ms: seq<Movement>, k: nat, whole: bool) returns (es: seq<Event>)
    requires Workable(ms, whole) && k < |ms| && s.tables.ledger == ms
    requires k < |s.callers| && s.callers[k] == Appended(ms, k, whole)
    ensures Exec(s, es) == s.(callers := s.callers[k := Repairer(ms[k].line)])
  {
    if whole && OwesRelease(ms, k) {
      es := [Run(k), Run(k)];
      ReleaseOnce(s, ms, k);
    } else {
      es := [];
      assert s.callers[k] == Repairer(ms[k].line);
    }
  }

  lemma {:induction false} FinishAll(s: State, ms: seq<Movement>, l: LineId, row: Line, k: nat, whole: bool,
                                     first: Caller, second: Caller)
    returns (es: seq<Event>)
    requires Workable(ms, whole) && k <= |ms| && Spread(s, ms, l, row, |ms|, k, whole, first, second)
    requires Caches(row, l, ms)
    ensures Spread(Exec(s, es), ms, l, row, |ms|, |ms|, whole, first, second)
    decreases |ms| - k
  {
    if k == |ms| {
      es := [];
    } else {
      var one := FinishOne(s, ms, l, row, k, whole, first, second);
      var rest := FinishAll(Exec(s, one), ms, l, row, k + 1, whole, first, second);
      es := one + rest;
      ExecThen(s, one, rest);
    }
  }

  /** The first `n` append and the first repair runs undisturbed: the line shows the ledger as it is. */
  lemma AppendThenRepair(ms: seq<Movement>, l: LineId, n: nat, whole: bool) returns (es: seq<Event>, shown: Line)
    requires Workable(ms, whole) && n <= |ms|
    ensures Spread(Exec(Workers(ms, l, whole), es), ms, l, shown, n, 0, whole, IDLE, Repairer(l))
    ensures Caches(shown, l, ms[..n])
  {
    var s := Workers(ms, l, whole);
    var row := Line(0, 0, 0, 1);
    assert Spread(s, ms, l, row, 0, 0, whole, Repairer(l), Repairer(l));
    var before := AppendAll(s, ms, l, row, 0, n, whole, Repairer(l), Repairer(l));
    var t := Exec(s, before);
    DerivedAlone(t, |ms|, l);
    ExecThen(s, before, Thrice(|ms|));
    es := before + Thrice(|ms|);
    shown := Exec(t, Thrice(|ms|)).tables.lines[l];
  }

  // ---- A run that ends as it should ---------------------------------------------------------------

  /** Every history can come about: a schedule after which all have returned and it is the ledger. */
  lemma AllReturn(ms: seq<Movement>, l: LineId, whole: bool) returns (es: seq<Event>)
    requires Workable(ms, whole)
    ensures var f := Exec(Workers(ms, l, whole), es);
            f.tables.ledger == ms && forall c :: c in f.callers ==> c == IDLE
  {
    var s := Workers(ms, l, whole);
    var e1, row := AppendThenRepair(ms, l, |ms|, whole);
    assert ms[..|ms|] == ms;
    var e2 := FinishAll(Exec(s, e1), ms, l, row, 0, whole, IDLE, Repairer(l));
    ExecThen(s, e1, e2);
    SecondRepairReturns(Exec(s, e1 + e2), ms, l, row, whole);
    ExecThen(s, e1 + e2, Thrice(|ms| + 1));
    es := e1 + e2 + Thrice(|ms| + 1);
  }

  lemma SecondRepairReturns(s: State, ms: seq<Movement>, l: LineId, row: Line, whole: bool)
    requires Spread(s, ms, l, row, |ms|, |ms|, whole, IDLE, Repairer(l))
    ensures var f := Exec(s, Thrice(|ms| + 1));
            f.tables.ledger == ms && forall c :: c in f.callers ==> c == IDLE
  {
    assert ms[..|ms|] == ms;
    DerivedAlone(s, |ms| + 1, l);
  }

  // ---- A run that leaves the line stale -----------------------------------------------------------

  /** The second repair reads the line before movement `a` and the ledger just after it. */
  lemma SecondRepairReads(s: State, ms: seq<Movement>, l: LineId, row: Line, a: nat, whole: bool) returns (es: seq<Event>)
    requires Workable(ms, whole) && a < |ms| && Spread(s, ms, l, row, a, 0, whole, IDLE, Repairer(l))
    ensures Spread(Exec(s, es), ms, l, row, a + 1, 0, whole, IDLE, HoldingAt(l, row, ms[..a + 1]))
  {
    var q := |ms| + 1;
    ExecOne(s, Run(q));
    var reading := Repairer(l).(phase := HoldsLine(row));
    assert Spread(Exec(s, [Run(q)]), ms, l, row, a, 0, whole, IDLE, reading);
    var one := AppendOne(Exec(s, [Run(q)]), ms, l, row, a, whole, IDLE, reading);
    var t := Exec(Exec(s, [Run(q)]), one);
    ExecOne(t, Run(q));
    ExecThen(s, [Run(q)], one);
    ExecThen(s, [Run(q)] + one, [Run(q)]);
    es := [Run(q)] + one + [Run(q)];
  }

  /** The totals before and after a movement of the line differ. */
  lemma MovementShows(ms: seq<Movement>, a: nat, l: LineId)
    requires a < |ms| && Moves(ms[a], l) && ms[a].amount > 0
    ensures !SameTotals(ms[..a], ms[..a + 1], l)
  {
    assert ms[..a + 1] == ms[..a] + [ms[a]];
    TotalOfAppend(ms[..a], ms[a], l, COMMITTING);
    TotalOfAppend(ms[..a], ms[a], l, SPENDING);
  }

  /** Its write overtakes nobody's version and undoes everybody's append. */
  lemma LastWriteIsStale(s: State, ms: seq<Movement>, l: LineId, row: Line, a: nat, whole: bool)
    requires Spends(ms) && a < |ms| && Moves(ms[a], l) && SameTotals(ms[..a], ms, l) && Caches(row, l, ms[..a])
    requires Spread(s, ms, l, row, |ms|, |ms|, whole, IDLE, HoldingAt(l, row, ms[..a + 1]))
    ensures var f := Exec(s, [Run(|ms| + 1)]);
            && f.tables.ledger == ms && (forall c :: c in f.callers ==> c == IDLE)
            && l in f.tables.lines && !Agrees(f.tables, l)
  {
    MovementShows(ms, a, l);
    Writes(s, |ms| + 1, l, row, ms[..a + 1]);
    ExecOne(s, Run(|ms| + 1));
    assert ms[..|ms|] == ms;
  }

  /** A history that ends on the balance it had before movement `a` of the line has a schedule of these
      workers after which everybody has returned and the line is stale. */
  lemma ReturningBalanceGoesStale(ms: seq<Movement>, l: LineId, a: nat, whole: bool) returns (es: seq<Event>)
    requires Workable(ms, whole) && a < |ms| && Moves(ms[a], l) && SameTotals(ms[..a], ms, l)
    ensures var f := Exec(Workers(ms, l, whole), es);
            && f.tables.ledger == ms && (forall c :: c in f.callers ==> c == IDLE)
            && l in f.tables.lines && !Agrees(f.tables, l)
  {
    var s := Workers(ms, l, whole);
    var e1, row := AppendThenRepair(ms, l, a, whole);
    var e2 := SecondRepairReads(Exec(s, e1), ms, l, row, a, whole);
    ExecThen(s, e1, e2);
    var holding := HoldingAt(l, row, ms[..a + 1]);
    var e3 := AppendAll(Exec(s, e1 + e2), ms, l, row, a + 1, |ms|, whole, IDLE, holding);
    ExecThen(s, e1 + e2, e3);
    var e4 := FinishAll(Exec(s, e1 + e2 + e3), ms, l, row, 0, whole, IDLE, holding);
    ExecThen(s, e1 + e2 + e3, e4);
    LastWriteIsStale(Exec(s, e1 + e2 + e3 + e4), ms, l, row, a, whole);
    ExecThen(s, e1 + e2 + e3 + e4, [Run(|ms| + 1)]);
    es := e1 + e2 + e3 + e4 + [Run(|ms| + 1)];
  }

  /** Where a history ends on an old balance, it is one from just before some movement of the line. */
  lemma BeforeAMovement(ms: seq<Movement>, l: LineId) returns (a: nat)
    requires !EndsAnew(ms, l)
    ensures a < |ms| && Moves(ms[a], l) && SameTotals(ms[..a], ms, l)
  {
    var b, i :| 0 <= b <= i < |ms| && Moves(ms[i], l) && SameTotals(ms[..b], ms, l);
    a := b;
    while !Moves(ms[a], l)
      invariant b <= a <= i && SameTotals(ms[..a], ms, l)
      decreases i - a
    {
      TotalsUnmoved(ms, a, a + 1, l);
      a := a + 1;
    }
  }

  /** Every settled state of every run that ends with this ledger agrees with it. */
  ghost predicate AlwaysAgrees(ms: seq<Movement>, l: LineId) {
    forall s, es ::
      Initial(s) && WellFormed(s) && l in s.tables.lines && Exec(s, es).tables.ledger == ms && Settled(Exec(s, es), l)
      ==> Agrees(Exec(s, es).tables, l)
  }

  /** Quiescent agreement exactly: it holds of every set of callers and every schedule that leaves this
      ledger, if and only if the line's balance at its end is one it had not shown before. */
  lemma AgreementIffEndsAnew(ms: seq<Movement>, l: LineId)
    requires Spends(ms)
    ensures AlwaysAgrees(ms, l) <==> EndsAnew(ms, l)
  {
    if EndsAnew(ms, l) {
      forall s, es | Initial(s) && WellFormed(s) && l in s.tables.lines && Exec(s, es).tables.ledger == ms
                     && Settled(Exec(s, es), l)
        ensures Agrees(Exec(s, es).tables, l)
      {
        SettledAgrees(s, es, l);
      }
    } else {
      var a := BeforeAMovement(ms, l);
      var es := ReturningBalanceGoesStale(ms, l, a, false);
      WorkersStart(ms, l, false);
      assert l in Workers(ms, l, false).tables.lines && Settled(Exec(Workers(ms, l, false), es), l);
    }
  }
}
