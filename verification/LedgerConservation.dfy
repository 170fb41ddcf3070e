/** What `commit` and `actualize` keep true of the ledger itself, whoever else is running. */
module LedgerConservation {
  import opened Ledger
  import opened LedgerProtocol
  import opened LedgerQuiescence

  ghost predicate UniqueKeys(ms: seq<Movement>) {
    forall i, j :: 0 <= i < j < |ms| ==> !SameKey(ms[i], ms[j])
  }

  predicate Reserves(c: Movement, r: Movement) {
    c.kind == Commitment && c.line == r.line && c.source == r.source && c.amount == r.amount
  }

  /** A RELEASE gives back exactly what the same source reserved earlier on the line. */
  ghost predicate Backed(ms: seq<Movement>) {
    forall r :: 0 <= r < |ms| ==>
      && (ms[r].kind == Release ==> !ms[r].increase && exists c :: 0 <= c < r && Reserves(ms[c], ms[r]))
      && (ms[r].kind == Commitment ==> ms[r].increase && ms[r].amount > 0)
  }

  predicate Released(ms: seq<Movement>, l: LineId, source: Source) {
    exists i :: 0 <= i < |ms| && ms[i].kind == Release && ms[i].line == l && ms[i].source == source
  }

  predicate Committed(ms: seq<Movement>, l: LineId, source: Source) {
    exists i :: 0 <= i < |ms| && ms[i].kind == Commitment && ms[i].line == l && ms[i].source == source
  }

  /** The commitments among `xs` on the line that `ms` has not released. */
  function Outstanding(xs: seq<Movement>, ms: seq<Movement>, l: LineId): int {
    if xs == [] then 0
    else
      var m := xs[|xs| - 1];
      Outstanding(xs[..|xs| - 1], ms, l)
      + if m.kind == Commitment && m.line == l && !Released(ms, l, m.source) then m.amount else 0
  }

  /** One source's signed commitments and releases on a line. */
  function Net(ms: seq<Movement>, l: LineId, source: Source): int {
    if ms == [] then 0
    else
      var m := ms[|ms| - 1];
      Net(ms[..|ms| - 1], l, source) + if m.line == l && m.source == source && m.kind in COMMITTING then Signed(m) else 0
  }

  lemma ReleasedOfAppend(ms: seq<Movement>, m: Movement, l: LineId, source: Source)
    ensures Released(ms + [m], l, source)
        <==> Released(ms, l, source) || (m.kind == Release && m.line == l && m.source == source)
  {
    if Released(ms, l, source) {
      var i :| 0 <= i < |ms| && ms[i].kind == Release && ms[i].line == l && ms[i].source == source;
      assert (ms + [m])[i] == ms[i];
    }
    assert (ms + [m])[|ms|] == m;
  }

  lemma {:induction false} OutstandingUntouched(xs: seq<Movement>, ms: seq<Movement>, m: Movement, l: LineId)
    requires m.kind != Release || m.line != l
    ensures Outstanding(xs, ms + [m], l) == Outstanding(xs, ms, l)
  {
    if xs != [] {
      OutstandingUntouched(xs[..|xs| - 1], ms, m, l);
      ReleasedOfAppend(ms, m, l, xs[|xs| - 1].source);
    }
  }

  predicate Closes(c: Movement, r: Movement) {
    c.kind == Commitment && c.line == r.line && c.source == r.source
  }

  /** A release closes its source's commitment, which is at `c`, whatever the release's own amount. */
  lemma {:induction false} OutstandingReleased(ms: seq<Movement>, n: nat, m: Movement, c: nat)
    requires n <= |ms| && UniqueKeys(ms) && m.kind == Release && !Released(ms, m.line, m.source)
    requires c < |ms| && Closes(ms[c], m)
    ensures Outstanding(ms[..n], ms + [m], m.line)
         == Outstanding(ms[..n], ms, m.line) - if c < n then ms[c].amount else 0
  {
    if n > 0 {
      OutstandingReleased(ms, n - 1, m, c);
      assert ms[..n][..n - 1] == ms[..n - 1] && ms[..n][n - 1] == ms[n - 1];
      ReleasedOfAppend(ms, m, m.line, ms[n - 1].source);
      if n - 1 < c { assert !SameKey(ms[n - 1], ms[c]); } else if c < n - 1 { assert !SameKey(ms[c], ms[n - 1]); }
    }
  }

  /** Conservation: the committed balance is the sum of the commitments not yet released, and so is
      never negative. */
  lemma {:induction false} CommittedIsOutstanding(ms: seq<Movement>, l: LineId)
    requires UniqueKeys(ms) && Backed(ms)
    ensures Total(ms, l, COMMITTING) == Outstanding(ms, ms, l)
    ensures Outstanding(ms, ms, l) >= 0
  {
    if ms != [] {
      var n := |ms| - 1;
      var (before, m) := (ms[..n], ms[n]);
      assert ms == before + [m];
      PrefixKept(ms, n);
      CommittedIsOutstanding(before, l);
      if m.kind == Release && m.line == l {
        var c :| 0 <= c < n && Reserves(ms[c], m);
        NotYetReleased(before, m);
        assert before[..n] == before;
        OutstandingReleased(before, n, m, c);
      } else {
        OutstandingUntouched(before, before, m, l);
        if m.kind == Commitment && m.line == l { NoEarlyRelease(before, m); ReleasedOfAppend(before, m, l, m.source); }
      }
    }
    OutstandingNonNegative(ms, ms, l);
  }

  lemma {:induction false} OutstandingNonNegative(xs: seq<Movement>, ms: seq<Movement>, l: LineId)
    requires forall i :: 0 <= i < |xs| && xs[i].kind == Commitment ==> xs[i].amount > 0
    ensures Outstanding(xs, ms, l) >= 0
  {
    if xs != [] { OutstandingNonNegative(xs[..|xs| - 1], ms, l); }
  }

  lemma PrefixKept(ms: seq<Movement>, n: nat)
    requires UniqueKeys(ms) && Backed(ms) && n <= |ms|
    ensures UniqueKeys(ms[..n]) && Backed(ms[..n])
  {
    forall r | 0 <= r < n && ms[..n][r].kind == Release
      ensures exists c :: 0 <= c < r && Reserves(ms[..n][c], ms[..n][r])
    {
      var c :| 0 <= c < r && Reserves(ms[c], ms[r]);
      assert Reserves(ms[..n][c], ms[..n][r]);
    }
  }

  lemma LastKeyIsNew(before: seq<Movement>, m: Movement)
    requires UniqueKeys(before + [m])
    ensures forall i :: 0 <= i < |before| ==> !SameKey(before[i], m)
  {
    forall i | 0 <= i < |before| ensures !SameKey(before[i], m) {
      assert !SameKey((before + [m])[i], (before + [m])[|before|]);
    }
  }

  lemma NotYetReleased(before: seq<Movement>, m: Movement)
    requires UniqueKeys(before + [m]) && m.kind == Release
    ensures !Released(before, m.line, m.source)
  {
    LastKeyIsNew(before, m);
  }

  lemma NoEarlyRelease(before: seq<Movement>, m: Movement)
    requires UniqueKeys(before + [m]) && Backed(before) && m.kind == Commitment
    ensures !Released(before, m.line, m.source)
  {
    LastKeyIsNew(before, m);
  }

  predicate Mine(m: Movement, l: LineId, source: Source) {
    m.line == l && m.source == source
  }

  lemma {:induction false} ReservedOfAppend(ms: seq<Movement>, m: Movement, l: LineId, source: Source)
    ensures Reserved(ms + [m], l, source)
         == if Reserved(ms, l, source) != [] then Reserved(ms, l, source)
            else if Mine(m, l, source) && m.kind == Commitment then [m] else []
  {
    if ms != [] {
      ReservedOfAppend(ms[1..], m, l, source);
      assert (ms + [m])[1..] == ms[1..] + [m];
    } else {
      assert ([] + [m])[1..] == [];
    }
  }

  /** What a source holds on a line: its whole commitment until released. */
  function Held(ms: seq<Movement>, l: LineId, source: Source): int {
    if Released(ms, l, source) || Reserved(ms, l, source) == [] then 0 else Reserved(ms, l, source)[0].amount
  }

  lemma HeldAfterRelease(before: seq<Movement>, m: Movement)
    requires UniqueKeys(before + [m]) && UniqueKeys(before) && Backed(before + [m]) && m.kind == Release
    ensures Held(before + [m], m.line, m.source) == 0 && Held(before, m.line, m.source) == m.amount && !m.increase
  {
    var ms := before + [m];
    assert ms[|before|] == m;
    NotYetReleased(before, m);
    ReleasedOfAppend(before, m, m.line, m.source);
    var c :| 0 <= c < |before| && Reserves(ms[c], m);
    assert ms[c] == before[c];
    ReleaseCloses(before, m, c);
  }

  lemma HeldAfterCommitment(before: seq<Movement>, m: Movement)
    requires UniqueKeys(before + [m]) && Backed(before) && m.kind == Commitment
    ensures Held(before + [m], m.line, m.source) == m.amount && Held(before, m.line, m.source) == 0
  {
    NoEarlyRelease(before, m);
    NoEarlierCommitment(before, m);
    ReleasedOfAppend(before, m, m.line, m.source);
    ReservedOfAppend(before, m, m.line, m.source);
  }

  /** One source's books: nothing, then its whole commitment, then nothing again once released. */
  lemma {:induction false} NetOfSource(ms: seq<Movement>, l: LineId, source: Source)
    requires UniqueKeys(ms) && Backed(ms)
    ensures Net(ms, l, source) == Held(ms, l, source)
  {
    if ms != [] {
      var (before, m) := (ms[..|ms| - 1], ms[|ms| - 1]);
      assert ms == before + [m];
      PrefixKept(ms, |ms| - 1);
      NetOfSource(before, l, source);
      HeldMoves(before, m, l, source);
    }
  }

  lemma HeldMoves(before: seq<Movement>, m: Movement, l: LineId, source: Source)
    requires UniqueKeys(before) && UniqueKeys(before + [m]) && Backed(before) && Backed(before + [m])
    ensures Held(before + [m], l, source)
         == Held(before, l, source) + if Mine(m, l, source) && m.kind in COMMITTING then Signed(m) else 0
  {
    if Mine(m, l, source) && m.kind == Release {
      HeldAfterRelease(before, m);
    } else if Mine(m, l, source) && m.kind == Commitment {
      HeldAfterCommitment(before, m);
      assert (before + [m])[|before|] == m;
    } else {
      HeldOtherwise(before, m, l, source);
    }
  }

  lemma HeldOtherwise(before: seq<Movement>, m: Movement, l: LineId, source: Source)
    requires !Mine(m, l, source) || m.kind !in COMMITTING
    ensures Held(before + [m], l, source) == Held(before, l, source)
  {
    ReleasedOfAppend(before, m, l, source);
    ReservedOfAppend(before, m, l, source);
  }

  lemma NoEarlierCommitment(before: seq<Movement>, m: Movement)
    requires UniqueKeys(before + [m]) && m.kind == Commitment
    ensures Reserved(before, m.line, m.source) == []
  {
    ReservedIsThere(before, m.line, m.source);
    NothingWithItsKey(before, m);
  }

  lemma NothingWithItsKey(before: seq<Movement>, m: Movement)
    requires UniqueKeys(before + [m])
    ensures forall x :: x in before ==> !SameKey(x, m)
  {
    forall x | x in before ensures !SameKey(x, m) {
      var i :| 0 <= i < |before| && before[i] == x;
      assert (before + [m])[i] == x && (before + [m])[|before|] == m;
    }
  }

  /** The commitment a release gives back is the one the source holds. */
  lemma ReleaseCloses(before: seq<Movement>, m: Movement, c: nat)
    requires UniqueKeys(before) && c < |before| && Reserves(before[c], m)
    ensures Reserved(before, m.line, m.source) == [before[c]]
  {
    ReservedIsThere(before, m.line, m.source);
    assert before[c] in before;
    ReservedAtMostOne(before, m.line, m.source);
    forall i | 0 <= i < |before| && i != c ensures !SameKey(before[i], before[c]) {}
  }

  lemma {:induction false} ReservedAtMostOne(ms: seq<Movement>, l: LineId, source: Source)
    ensures |Reserved(ms, l, source)| <= 1
  {
    if ms != [] { ReservedAtMostOne(ms[1..], l, source); }
  }

  // ---- Over runs --------------------------------------------------------------------------------

  /** What `commit` and `actualize` may have left to do: spend positive amounts, and release only
      what the ledger already shows as reserved. */
  ghost predicate Disciplined(ms: seq<Movement>, op: Op) {
    op.Append? ==>
      || (op.m.kind in {Commitment, Actual} && op.m.increase && op.m.amount > 0)
      || (op.m.kind == Release && !op.m.increase && exists c :: 0 <= c < |ms| && Reserves(ms[c], op.m))
  }

  ghost predicate AllDisciplined(s: State) {
    forall c, op :: c in s.callers && op in c.todo ==> Disciplined(s.tables.ledger, op)
  }

  ghost predicate Conserved(s: State) {
    UniqueKeys(s.tables.ledger) && Backed(s.tables.ledger) && AllDisciplined(s)
  }

  lemma DisciplineGrows(ms: seq<Movement>, longer: seq<Movement>, op: Op)
    requires Disciplined(ms, op) && ms <= longer
    ensures Disciplined(longer, op)
  {
    if op.Append? && op.m.kind == Release {
      var c :| 0 <= c < |ms| && Reserves(ms[c], op.m);
      assert longer[c] == ms[c];
    }
  }

  lemma AppendConserves(ms: seq<Movement>, m: Movement)
    requires UniqueKeys(ms) && Backed(ms) && !HasKey(ms, m)
    requires m.kind == Release ==> !m.increase && exists c :: 0 <= c < |ms| && Reserves(ms[c], m)
    requires m.kind == Commitment ==> m.increase && m.amount > 0
    ensures UniqueKeys(ms + [m]) && Backed(ms + [m])
  {
    var after := ms + [m];
    forall i, j | 0 <= i < j < |after| ensures !SameKey(after[i], after[j]) {}
    forall r | 0 <= r < |after| && after[r].kind == Release
      ensures exists c :: 0 <= c < r && Reserves(after[c], after[r])
    {
      var c :| 0 <= c < |ms| && (r < |ms| ==> c < r) && Reserves(ms[c], after[r]);
      assert after[c] == ms[c];
    }
  }

  lemma OperateConserves(t: Tables, me: Caller)
    requires me.todo != [] && UniqueKeys(t.ledger) && Backed(t.ledger)
    requires forall op :: op in me.todo ==> Disciplined(t.ledger, op)
    ensures var (t', me') := Operate(t, me);
            && UniqueKeys(t'.ledger) && Backed(t'.ledger) && t.ledger <= t'.ledger
            && (forall op :: op in me'.todo ==> Disciplined(t'.ledger, op))
  {
    var (t', me') := Operate(t, me);
    var op := me.todo[0];
    assert op in me.todo && Disciplined(t.ledger, op);
    if t'.ledger != t.ledger {
      AppendConserves(t.ledger, t'.ledger[|t.ledger|]);
      assert t'.ledger == t.ledger + [t'.ledger[|t.ledger|]];
    }
    if op.ReleaseReserved? && me'.todo != me.todo[1..] {
      ReservedIsThere(t.ledger, op.line, op.source);
    }
    forall o | o in me'.todo ensures Disciplined(t'.ledger, o) {
      if o in me.todo { DisciplineGrows(t.ledger, t'.ledger, o); }
    }
  }

  lemma AdvanceConserves(s: State, e: Event)
    requires Conserved(s)
    ensures Conserved(Advance(s, e)) && s.tables.ledger <= Advance(s, e).tables.ledger
  {
    var p := e.caller;
    var s' := Advance(s, e);
    if p < |s.callers| && s.callers[p].status == Live {
      if e.Run? && s.callers[p].todo != [] { OperateConserves(s.tables, s.callers[p]); }
      forall c, op | c in s'.callers && op in c.todo ensures Disciplined(s'.tables.ledger, op) {
        if c in s.callers { DisciplineGrows(s.tables.ledger, s'.tables.ledger, op); }
      }
    }
  }

  lemma {:induction false} ExecConserves(s: State, es: seq<Event>)
    requires Initial(s) && AllDisciplined(s)
    ensures Conserved(Exec(s, es))
  {
    if es != [] {
      ExecConserves(s, es[..|es| - 1]);
      AdvanceConserves(Exec(s, es[..|es| - 1]), es[|es| - 1]);
    }
  }

  /** In every run of `commit`, `actualize` and `allocate` with positive amounts, interleaved,
      crashed and replayed at will, every prefix of the ledger has a committed balance equal to the
      commitments not yet released, hence never negative. */
  lemma EveryPrefixIsConserved(s: State, es: seq<Event>, n: nat, l: LineId)
    requires Initial(s) && AllDisciplined(s) && n <= |Exec(s, es).tables.ledger|
    ensures var ms := Exec(s, es).tables.ledger[..n];
            Total(ms, l, COMMITTING) == Outstanding(ms, ms, l) >= 0
  {
    ExecConserves(s, es);
    PrefixKept(Exec(s, es).tables.ledger, n);
    CommittedIsOutstanding(Exec(s, es).tables.ledger[..n], l);
  }

  /** The release half of `actualize` that a caller still has to do for a source. */
  ghost predicate StillReleasing(c: Caller, l: LineId, source: Source) {
    || ReleaseReserved(l, source) in c.todo
    || exists m: Movement :: m.kind == Release && m.line == l && m.source == source && Append(m) in c.todo
  }

  lemma OperateReleases(t: Tables, me: Caller, l: LineId, source: Source)
    requires me.todo != [] && StillReleasing(me, l, source) && Committed(t.ledger, l, source)
    ensures StillReleasing(Operate(t, me).1, l, source) || Released(Operate(t, me).0.ledger, l, source)
  {
    var (t', me') := Operate(t, me);
    var op := me.todo[0];
    if op == ReleaseReserved(l, source) {
      ReservedIsThere(t.ledger, l, source);
      var i :| 0 <= i < |t.ledger| && t.ledger[i].kind == Commitment && t.ledger[i].line == l && t.ledger[i].source == source;
      assert t.ledger[i] in t.ledger;
      assert me'.todo[0] == Append(ReleaseOf(Reserved(t.ledger, l, source)[0]));
    } else if op.Append? && op.m.kind == Release && op.m.line == l && op.m.source == source {
      if HasKey(t.ledger, op.m) {
        var i :| 0 <= i < |t.ledger| && SameKey(t.ledger[i], op.m);
        assert t.ledger[i].kind == Release;
      } else {
        assert t'.ledger[|t.ledger|] == op.m;
      }
    } else if ReleaseReserved(l, source) in me.todo {
      assert ReleaseReserved(l, source) in me.todo[1..];
      assert me'.todo == me.todo || me'.todo[|me'.todo| - |me.todo[1..]|..] == me.todo[1..];
    } else {
      var m: Movement :| m.kind == Release && m.line == l && m.source == source && Append(m) in me.todo;
      assert Append(m) in me.todo[1..];
      assert me'.todo == me.todo || me'.todo[|me'.todo| - |me.todo[1..]|..] == me.todo[1..];
    }
  }

  lemma StaysThere(ms: seq<Movement>, longer: seq<Movement>, l: LineId, source: Source)
    requires ms <= longer
    ensures Released(ms, l, source) ==> Released(longer, l, source)
    ensures Committed(ms, l, source) ==> Committed(longer, l, source)
  {
    if Released(ms, l, source) {
      var i :| 0 <= i < |ms| && ms[i].kind == Release && ms[i].line == l && ms[i].source == source;
      assert longer[i] == ms[i];
    }
    if Committed(ms, l, source) {
      var i :| 0 <= i < |ms| && ms[i].kind == Commitment && ms[i].line == l && ms[i].source == source;
      assert longer[i] == ms[i];
    }
  }

  lemma {:induction false} ReleasingGoesOn(s: State, es: seq<Event>, n: nat, p: nat, l: LineId, source: Source)
    requires Initial(s) && AllDisciplined(s) && n <= |es| && p < |s.callers|
    requires Committed(Exec(s, es[..n]).tables.ledger, l, source) && StillReleasing(Exec(s, es[..n]).callers[p], l, source)
    ensures Committed(Exec(s, es).tables.ledger, l, source)
    ensures StillReleasing(Exec(s, es).callers[p], l, source) || Released(Exec(s, es).tables.ledger, l, source)
    decreases |es|
  {
    if n == |es| {
      assert es[..n] == es;
    } else {
      var before := es[..|es| - 1];
      assert before[..n] == es[..n];
      ReleasingGoesOn(s, before, n, p, l, source);
      ExecConserves(s, before);
      var (f, e) := (Exec(s, before), es[|es| - 1]);
      AdvanceConserves(f, e);
      StaysThere(f.tables.ledger, Advance(f, e).tables.ledger, l, source);
      if StillReleasing(f.callers[p], l, source) && e == Run(p) && f.callers[p].status == Live && f.callers[p].todo != [] {
        OperateReleases(f.tables, f.callers[p], l, source);
      }
    }
  }

  /** An `actualize` that had its release ahead of it when its source's commitment was on the line,
      and that ran to its end, leaves that source holding nothing, whatever amount it settled. */
  lemma CompletedActualizeHoldsNothing(s: State, es: seq<Event>, n: nat, p: nat, l: LineId, source: Source)
    requires Initial(s) && AllDisciplined(s) && n <= |es| && p < |s.callers|
    requires Committed(Exec(s, es[..n]).tables.ledger, l, source)
    requires ReleaseReserved(l, source) in Exec(s, es[..n]).callers[p].todo
    requires Exec(s, es).callers[p].todo == []
    ensures Net(Exec(s, es).tables.ledger, l, source) == 0
  {
    ReleasingGoesOn(s, es, n, p, l, source);
    ExecConserves(s, es);
    NetOfSource(Exec(s, es).tables.ledger, l, source);
  }

  // ---- The allocation ---------------------------------------------------------------------------

  /** Only `allocate` writes ADJUSTMENT movements. */
  ghost predicate NoRawAdjustment(s: State) {
    forall c, op :: c in s.callers && op in c.todo && op.Append? ==> op.m.kind != Adjustment
  }

  lemma OperateAllocates(t: Tables, h: History, me: Caller, l: LineId, start: int)
    requires me.todo != [] && LinesOk(t, h) && CallerOk(t, h, me) && l in t.lines
    requires me.todo[0].Append? ==> me.todo[0].m.kind != Adjustment
    requires t.lines[l].allocation == start + Total(t.ledger, l, ALLOCATING)
    ensures l in Operate(t, me).0.lines
    ensures Operate(t, me).0.lines[l].allocation == start + Total(Operate(t, me).0.ledger, l, ALLOCATING)
  {
    match me.todo[0] {
      case Append(m) => TotalOfAppend(t.ledger, m, l, ALLOCATING);
      case ReleaseReserved(_, _) =>
      case Materialize(_) =>
      case Allocate(_, _, _, _) => AllocateIsRecorded(t, h, me, l, start);
    }
  }

  /** The new allocation and its ADJUSTMENT are written together. */
  lemma AllocateIsRecorded(t: Tables, h: History, me: Caller, l: LineId, start: int)
    requires me.todo != [] && me.todo[0].Allocate? && CallerOk(t, h, me) && l in t.lines
    requires t.lines[l].allocation == start + Total(t.ledger, l, ALLOCATING)
    ensures l in Operate(t, me).0.lines
    ensures Operate(t, me).0.lines[l].allocation == start + Total(Operate(t, me).0.ledger, l, ALLOCATING)
  {
    if me.phase != Ready { TotalOfAppend(t.ledger, AdjustmentFor(me.todo[0], me.phase.row), l, ALLOCATING); }
  }

  lemma AdvanceNoRawAdjustment(s: State, e: Event)
    requires NoRawAdjustment(s)
    ensures NoRawAdjustment(Advance(s, e))
  {
    var p := e.caller;
    var s' := Advance(s, e);
    if p < |s.callers| && s.callers[p].status == Live {
      forall c, o | c in s'.callers && o in c.todo && o.Append? ensures o.m.kind != Adjustment {
        if c !in s.callers && o !in s.callers[p].todo { assert o == s'.callers[p].todo[0]; }
      }
    }
  }

  /** The ledger explains the allocation: in every run it is what the line started with plus the
      signed ADJUSTMENT movements recorded since. */
  lemma {:induction false} AllocationIsExplained(s: State, es: seq<Event>, l: LineId)
    requires Initial(s) && NoRawAdjustment(s) && l in s.tables.lines
    ensures NoRawAdjustment(Exec(s, es)) && l in Exec(s, es).tables.lines
    ensures Exec(s, es).tables.lines[l].allocation
         == s.tables.lines[l].allocation + Total(Exec(s, es).tables.ledger, l, ALLOCATING)
  {
    if es != [] {
      var before := es[..|es| - 1];
      AllocationIsExplained(s, before, l);
      ExecKeeps(s, before);
      AdvanceNoRawAdjustment(Exec(s, before), es[|es| - 1]);
      var f, p := Exec(s, before), es[|es| - 1].caller;
      if p < |f.callers| && f.callers[p].todo != [] {
        OperateAllocates(f.tables, HistoryOf(s, before), f.callers[p], l, s.tables.lines[l].allocation);
      }
    }
  }

  /** `allocate` with nobody else about: on the version it expects it sets the target, raises the version and
      records the difference, if any, up or down; on any other it is refused and nothing changes. */
  lemma AllocateAlone(s: State, p: nat, l: LineId, expected: nat, target: int, source: Source)
    requires p < |s.callers| && s.callers[p] == Caller([Allocate(l, expected, target, source)], Ready, 0, Live)
    requires l in s.tables.lines && forall i :: 0 <= i < |s.tables.ledger| ==> s.tables.ledger[i].source != source
    ensures var (t, u) := (s.tables, Exec(s, [Run(p), Run(p)]).tables);
            var (row, d) := (t.lines[l], target - t.lines[l].allocation);
            if row.version == expected
            then u.lines == t.lines[l := Line(target, row.committed, row.actual, row.version + 1)]
                 && u.ledger == t.ledger + (if d > 0 then [Movement(l, Adjustment, true, d, source)]
                                            else if d < 0 then [Movement(l, Adjustment, false, -d, source)] else [])
            else u == t && Exec(s, [Run(p), Run(p)]).callers[p].status == Refused
  {
    var (me, op) := (s.callers[p], Allocate(l, expected, target, source));
    TwoSteps(s, p);
    AllocateReads(s.tables, me, op);
    var reading := Operate(s.tables, me).1;
    var t := s.(callers := s.callers[p := reading]);
    assert Advance(s, Run(p)) == t;
    if s.tables.lines[l].version == expected {
      AllocateWrites(s.tables, reading, op, s.tables.lines[l]);
      assert Advance(t, Run(p)).tables == Operate(s.tables, reading).0;
    } else {
      assert Advance(t, Run(p)) == t;
    }
  }

  lemma TwoSteps(s: State, p: nat)
    ensures Exec(s, [Run(p), Run(p)]) == Advance(Advance(s, Run(p)), Run(p))
  {
    assert [Run(p), Run(p)][..1] == [Run(p)] && [Run(p)][..0] == [];
    assert Exec(s, [Run(p)]) == Advance(s, Run(p));
  }

  lemma AllocateReads(t: Tables, me: Caller, op: Op)
    requires op.Allocate? && me.todo == [op] && me.phase == Ready && op.line in t.lines
    ensures Operate(t, me) == (t, if t.lines[op.line].version == op.expected then me.(phase := HoldsLine(t.lines[op.line]))
                                  else me.(status := Refused))
  {}

  lemma AllocateWrites(t: Tables, me: Caller, op: Op, row: Line)
    requires op.Allocate? && me.todo == [op] && me.phase == HoldsLine(row) && op.line in t.lines && t.lines[op.line] == row
    requires forall i :: 0 <= i < |t.ledger| ==> t.ledger[i].source != op.source
    ensures var (u, d) := (Operate(t, me).0, op.target - row.allocation);
            && u.lines == t.lines[op.line := Line(op.target, row.committed, row.actual, row.version + 1)]
            && u.ledger == t.ledger + (if d > 0 then [Movement(op.line, Adjustment, true, d, op.source)]
                                       else if d < 0 then [Movement(op.line, Adjustment, false, -d, op.source)] else [])
  {
    assert !HasKey(t.ledger, AdjustmentFor(op, row));
  }
}
