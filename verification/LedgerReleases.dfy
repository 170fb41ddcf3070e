/** Runs in which `release` is called too. Nothing makes it wait for the commitment it gives back, so
    this says exactly which of them conserve. */
module LedgerReleases {
  import opened Ledger
  import opened LedgerProtocol
  import opened LedgerConservation

  /** As the write path makes them: positive, a RELEASE down, the others up. */
  predicate Proper(m: Movement) {
    m.kind != Adjustment ==> m.amount > 0 && (m.increase <==> m.kind != Release)
  }

  ghost predicate AllProper(ms: seq<Movement>) {
    forall i :: 0 <= i < |ms| ==> Proper(ms[i])
  }

  /** At every point of the history, on every line, committed is what has been committed and not yet
      released. */
  ghost predicate ConservedThroughout(ms: seq<Movement>) {
    forall n: nat, l: LineId {:trigger ConservedAt(ms, n, l)} :: n <= |ms| ==> ConservedAt(ms, n, l)
  }

  predicate ConservedAt(ms: seq<Movement>, n: nat, l: LineId)
    requires n <= |ms|
  {
    Total(ms[..n], l, COMMITTING) == Outstanding(ms[..n], ms[..n], l)
  }

  /** Every release found the commitment of its source already on the line, of just its amount. */
  ghost predicate EveryReleaseBacked(ms: seq<Movement>) {
    forall r {:trigger ReleaseBacked(ms, r)} :: 0 <= r < |ms| ==> ReleaseBacked(ms, r)
  }

  predicate ReleaseBacked(ms: seq<Movement>, r: nat)
    requires r < |ms|
  {
    ms[r].kind == Release ==> exists c :: 0 <= c < r && Reserves(ms[c], ms[r])
  }

  lemma {:induction false} NothingToClose(xs: seq<Movement>, ms: seq<Movement>, m: Movement)
    requires m.kind == Release && forall i :: 0 <= i < |xs| ==> !Closes(xs[i], m)
    ensures Outstanding(xs, ms + [m], m.line) == Outstanding(xs, ms, m.line)
  {
    if xs != [] {
      NothingToClose(xs[..|xs| - 1], ms, m);
      ReleasedOfAppend(ms, m, m.line, xs[|xs| - 1].source);
    }
  }

  /** If the balance was right before a release and is right after it, the release was backed. */
  lemma RightAfterIsBacked(before: seq<Movement>, m: Movement)
    requires UniqueKeys(before + [m]) && UniqueKeys(before) && Proper(m) && m.kind == Release
    requires Total(before, m.line, COMMITTING) == Outstanding(before, before, m.line)
    requires Total(before + [m], m.line, COMMITTING) == Outstanding(before + [m], before + [m], m.line)
    ensures exists c :: 0 <= c < |before| && Reserves(before[c], m)
  {
    TotalOfAppend(before, m, m.line, COMMITTING);
    assert (before + [m])[..|before|] == before;
    assert Outstanding(before, before + [m], m.line) == Outstanding(before, before, m.line) - m.amount;
    ClosedExactly(before, m);
  }

  /** What the release takes off the outstanding commitments is its source's commitment, if any. */
  lemma ClosedExactly(before: seq<Movement>, m: Movement)
    requires UniqueKeys(before + [m]) && UniqueKeys(before) && m.kind == Release && m.amount > 0
    requires Outstanding(before, before + [m], m.line) == Outstanding(before, before, m.line) - m.amount
    ensures exists c :: 0 <= c < |before| && Reserves(before[c], m)
  {
    if c :| 0 <= c < |before| && Closes(before[c], m) {
      NotYetReleased(before, m);
      assert before[..|before|] == before;
      OutstandingReleased(before, |before|, m, c);
      assert Reserves(before[c], m);
    } else {
      NothingToClose(before, before, m);
    }
  }

  lemma PrefixAt(ms: seq<Movement>, r: nat)
    requires UniqueKeys(ms) && AllProper(ms) && r < |ms| && ConservedThroughout(ms)
    ensures ReleaseBacked(ms, r)
  {
    if ms[r].kind == Release {
      var (before, m) := (ms[..r], ms[r]);
      assert ms[..r + 1] == before + [m];
      assert forall i, j :: 0 <= i < j < r + 1 ==> !SameKey(ms[i], ms[j]);
      assert ConservedAt(ms, r, m.line) && ConservedAt(ms, r + 1, m.line);
      RightAfterIsBacked(before, m);
      var c :| 0 <= c < |before| && Reserves(before[c], m);
      assert Reserves(ms[c], m);
    }
  }

  /** A history conserves throughout exactly when every release in it was backed. */
  lemma ConservedExactlyWhenBacked(ms: seq<Movement>)
    requires UniqueKeys(ms) && AllProper(ms)
    ensures ConservedThroughout(ms) <==> EveryReleaseBacked(ms)
  {
    if ConservedThroughout(ms) {
      forall r | 0 <= r < |ms| ensures ReleaseBacked(ms, r) { PrefixAt(ms, r); }
    }
    if EveryReleaseBacked(ms) {
      assert Backed(ms) by {
        forall r | 0 <= r < |ms| ensures ms[r].kind == Release ==> exists c :: 0 <= c < r && Reserves(ms[c], ms[r]) {
          assert ReleaseBacked(ms, r);
        }
      }
      forall n: nat, l: LineId | n <= |ms| ensures ConservedAt(ms, n, l) {
        PrefixKept(ms, n);
        CommittedIsOutstanding(ms[..n], l);
      }
    }
  }

  // ---- Runs ---------------------------------------------------------------------------------------

  ghost predicate ProperWork(s: State) {
    forall c, op :: c in s.callers && op in c.todo && op.Append? ==> Proper(op.m) && op.m.kind != Adjustment
  }

  ghost predicate Kept(s: State) {
    UniqueKeys(s.tables.ledger) && AllProper(s.tables.ledger) && ProperWork(s)
  }

  lemma AppendedStaysUnique(ms: seq<Movement>, m: Movement)
    requires UniqueKeys(ms) && !HasKey(ms, m)
    ensures UniqueKeys(ms + [m])
  {
    forall i, j | 0 <= i < j < |ms + [m]| ensures !SameKey((ms + [m])[i], (ms + [m])[j]) {}
  }

  lemma OperateKeeps(t: Tables, me: Caller)
    requires me.todo != [] && UniqueKeys(t.ledger) && AllProper(t.ledger)
    requires forall op :: op in me.todo && op.Append? ==> Proper(op.m) && op.m.kind != Adjustment
    ensures var (t', me') := Operate(t, me);
            && UniqueKeys(t'.ledger) && AllProper(t'.ledger)
            && forall op :: op in me'.todo && op.Append? ==> Proper(op.m) && op.m.kind != Adjustment
  {
    var (t', me') := Operate(t, me);
    var op := me.todo[0];
    assert op in me.todo;
    if t'.ledger != t.ledger {
      AppendedStaysUnique(t.ledger, t'.ledger[|t.ledger|]);
      assert t'.ledger == t.ledger + [t'.ledger[|t.ledger|]];
    }
    if op.ReleaseReserved? && me'.todo != me.todo[1..] { ReservedIsProper(t.ledger, op.line, op.source); }
  }

  lemma {:induction false} ReservedIsProper(ms: seq<Movement>, l: LineId, source: Source)
    requires AllProper(ms) && Reserved(ms, l, source) != []
    ensures Reserved(ms, l, source)[0].amount > 0
  {
    if !(ms[0].line == l && ms[0].source == source && ms[0].kind == Commitment) {
      ReservedIsProper(ms[1..], l, source);
    } else {
      assert Proper(ms[0]);
    }
  }

  lemma AdvanceKeeps(s: State, e: Event)
    requires Kept(s)
    ensures Kept(Advance(s, e))
  {
    var p := e.caller;
    if p < |s.callers| && s.callers[p].status == Live && e.Run? && s.callers[p].todo != [] {
      OperateKeeps(s.tables, s.callers[p]);
    }
  }

  lemma {:induction false} ExecKeepsProper(s: State, es: seq<Event>)
    requires Initial(s) && ProperWork(s)
    ensures Kept(Exec(s, es))
  {
    if es != [] {
      ExecKeepsProper(s, es[..|es| - 1]);
      AdvanceKeeps(Exec(s, es[..|es| - 1]), es[|es| - 1]);
    }
  }

  /** Every run of `commit`, `actualize`, `release` and `allocate`, interleaved, crashed and replayed at
      will, conserves throughout exactly when each of its releases that reached the ledger found the
      commitment of its source on the line, of just that amount: a release job that overtakes its
      commitment, or gives back another amount, is what breaks it. */
  lemma RunConservesExactlyWhen(s: State, es: seq<Event>)
    requires Initial(s) && ProperWork(s)
    ensures ConservedThroughout(Exec(s, es).tables.ledger) <==> EveryReleaseBacked(Exec(s, es).tables.ledger)
  {
    ExecKeepsProper(s, es);
    ConservedExactlyWhenBacked(Exec(s, es).tables.ledger);
  }
}
