/** Any number of callers sharing the ledger tables, one database operation at a time.

    A caller is a program of service operations. `materialize` is three operations that other
    callers may interleave with: read the line, read its movements, then skip or write guarded by
    the version it read. `allocate` is two: read the line, then one transaction. */
module LedgerProtocol {
  import opened Ledger

  const MAX_ATTEMPTS: nat := 40

  datatype Op =
    | Append(m: Movement)
    | ReleaseReserved(line: LineId, source: Source)
    | Materialize(line: LineId)
    | Allocate(line: LineId, expected: nat, target: int, source: Source)

  datatype Phase = Ready | HoldsLine(row: Line) | HoldsLedger(row: Line, seen: seq<Movement>)

  datatype Status = Live | Crashed | Exhausted | Refused

  datatype Caller = Caller(todo: seq<Op>, phase: Phase, attempts: nat, status: Status)

  datatype State = State(tables: Tables, callers: seq<Caller>)

  /** A caller's next operation, its death, or a write conflict the database reports to a `materialize`,
      which counts as a lost attempt like a line that moved. */
  datatype Event = Run(caller: nat) | Crash(caller: nat) | Conflict(caller: nat)

  function Finished(me: Caller): Caller
    requires me.todo != []
  {
    Caller(me.todo[1..], Ready, 0, me.status)
  }

  /** The attempt is lost: start again, unless it was the last. */
  function Retried(me: Caller): Caller {
    var tries := me.attempts + 1;
    me.(phase := Ready, attempts := tries, status := if tries < MAX_ATTEMPTS then me.status else Exhausted)
  }

  /** The commitment a source holds on a line, if it has one. */
  function Reserved(ms: seq<Movement>, line: LineId, source: Source): seq<Movement> {
    if ms == [] then []
    else if ms[0].line == line && ms[0].source == source && ms[0].kind == Commitment then [ms[0]]
    else Reserved(ms[1..], line, source)
  }

  function ReleaseOf(reserved: Movement): Movement {
    Movement(reserved.line, Release, false, reserved.amount, reserved.source)
  }

  /** The ADJUSTMENT an allocation records; none when nothing changed. */
  function AdjustmentFor(op: Op, row: Line): Movement
    requires op.Allocate?
  {
    var delta := op.target - row.allocation;
    Movement(op.line, Adjustment, delta >= 0, if delta < 0 then -delta else delta, op.source)
  }

  /** One database operation of a caller with work left; the result is the tables and the caller. */
  function Operate(t: Tables, me: Caller): (Tables, Caller)
    requires me.todo != []
  {
    match me.todo[0]
    case Append(m) => (t.(ledger := Insert(t.ledger, m)), Finished(me))
    case ReleaseReserved(l, source) =>
      var reserved := Reserved(t.ledger, l, source);
      if reserved == [] then (t, Finished(me))
      else (t, me.(todo := [Append(ReleaseOf(reserved[0]))] + me.todo[1..]))
    case Materialize(l) =>
      (match me.phase
       case Ready =>
         if l !in t.lines then (t, Finished(me)) else (t, me.(phase := HoldsLine(t.lines[l])))
       case HoldsLine(row) => (t, me.(phase := HoldsLedger(row, t.ledger)))
       case HoldsLedger(row, seen) =>
         var committed := Total(seen, l, COMMITTING);
         var actual := Total(seen, l, SPENDING);
         if committed == row.committed && actual == row.actual then (t, Finished(me))
         else if l in t.lines && t.lines[l].version == row.version then
           var written := t.lines[l].(committed := committed, actual := actual, version := row.version + 1);
           (t.(lines := t.lines[l := written]), Finished(me))
         else (t, Retried(me)))
    case Allocate(l, expected, target, source) =>
      if me.phase == Ready then
        if l !in t.lines || t.lines[l].version != expected then (t, me.(status := Refused))
        else (t, me.(phase := HoldsLine(t.lines[l])))
      else
        var row := me.phase.row;
        var adjustment := AdjustmentFor(me.todo[0], row);
        if l !in t.lines || t.lines[l].version != row.version then (t, me.(status := Refused))
        else if target != row.allocation && HasKey(t.ledger, adjustment) then (t, me.(status := Refused))
        else
          var written := t.lines[l].(allocation := target, version := row.version + 1);
          var ledger := if target == row.allocation then t.ledger else t.ledger + [adjustment];
          (Tables(ledger, t.lines[l := written]), Finished(me))
  }

  function Advance(s: State, e: Event): (r: State)
    ensures |r.callers| == |s.callers|
  {
    var p := e.caller;
    if p >= |s.callers| || s.callers[p].status != Live then s
    else if e.Crash? then s.(callers := s.callers[p := s.callers[p].(status := Crashed)])
    else if s.callers[p].todo == [] then s
    else if e.Conflict? then
      if s.callers[p].todo[0].Materialize? then s.(callers := s.callers[p := Retried(s.callers[p])]) else s
    else
      var (t, me) := Operate(s.tables, s.callers[p]);
      State(t, s.callers[p := me])
  }

  /** A run: the scheduler's choices, oldest first. */
  function Exec(s: State, es: seq<Event>): (r: State)
    ensures |r.callers| == |s.callers|
  {
    if es == [] then s else Advance(Exec(s, es[..|es| - 1]), es[|es| - 1])
  }

  /** No caller has started, and every line starts at zero as `create` writes it. */
  predicate Initial(s: State) {
    && s.tables.ledger == []
    && (forall l :: l in s.tables.lines ==> s.tables.lines[l].committed == 0 && s.tables.lines[l].actual == 0)
    && (forall c :: c in s.callers ==> c.phase == Ready && c.attempts == 0 && c.status == Live)
  }

  // ---- The prefix invariant -------------------------------------------------------------------

  /** For each line, the length of the ledger its cached totals stand for. */
  type History = map<LineId, nat>

  ghost predicate LinesOk(t: Tables, h: History) {
    && h.Keys == t.lines.Keys
    && (forall l :: l in h ==> h[l] <= |t.ledger| && Caches(t.lines[l], l, t.ledger[..h[l]]))
  }

  /** A row read earlier: current while its version is, and in any case once true of the line. */
  ghost predicate RowOk(t: Tables, h: History, l: LineId, row: Line) {
    && l in t.lines && l in h
    && row.version <= t.lines[l].version
    && (row.version == t.lines[l].version ==> row == t.lines[l])
  }

  ghost predicate CachedAt(t: Tables, h: History, l: LineId, row: Line, a: nat)
    requires l in h
  {
    a <= h[l] && a <= |t.ledger| && Caches(row, l, t.ledger[..a])
  }

  ghost predicate CallerOk(t: Tables, h: History, c: Caller) {
    c.todo != [] && c.phase != Ready ==>
      && (c.todo[0].Materialize? || c.todo[0].Allocate?)
      && var l := c.todo[0].line;
      && RowOk(t, h, l, c.phase.row)
      && (c.phase.HoldsLine? ==> exists a: nat :: CachedAt(t, h, l, c.phase.row, a))
      && (c.phase.HoldsLedger? ==>
            && c.todo[0].Materialize?
            && c.phase.seen <= t.ledger
            && (c.phase.row.version == t.lines[l].version ==> h[l] <= |c.phase.seen|)
            && (exists a: nat :: a <= |c.phase.seen| && CachedAt(t, h, l, c.phase.row, a)))
  }

  ghost predicate Inv(s: State, h: History) {
    && LinesOk(s.tables, h)
    && (forall p :: 0 <= p < |s.callers| ==> CallerOk(s.tables, h, s.callers[p]))
  }

  /** What one operation may do to the tables: append, and raise a version when a line changes. */
  ghost predicate Grows(t: Tables, h: History, t': Tables, h': History) {
    && h.Keys == h'.Keys == t.lines.Keys == t'.lines.Keys
    && t.ledger <= t'.ledger
    && (forall l :: l in h ==>
          && h[l] <= h'[l]
          && t.lines[l].version <= t'.lines[l].version
          && (t.lines[l].version == t'.lines[l].version ==> t.lines[l] == t'.lines[l] && h[l] == h'[l]))
  }

  lemma CallerStable(t: Tables, h: History, t': Tables, h': History, c: Caller)
    requires CallerOk(t, h, c) && Grows(t, h, t', h')
    ensures CallerOk(t', h', c)
  {
    if c.todo != [] && c.phase != Ready {
      var l := c.todo[0].line;
      if c.phase.HoldsLine? {
        var a: nat :| CachedAt(t, h, l, c.phase.row, a);
        assert t'.ledger[..a] == t.ledger[..a];
        assert CachedAt(t', h', l, c.phase.row, a);
      } else {
        var a: nat :| a <= |c.phase.seen| && CachedAt(t, h, l, c.phase.row, a);
        assert t'.ledger[..a] == t.ledger[..a];
        assert CachedAt(t', h', l, c.phase.row, a);
      }
    }
  }

  /** The history after one operation: a written line stands for the ledger its writer read. */
  ghost function Wrote(t: Tables, h: History, me: Caller): History
    requires me.todo != []
  {
    if me.todo[0].Materialize? && me.phase.HoldsLedger? && Operate(t, me).0 != t
    then h[me.todo[0].line := |me.phase.seen|] else h
  }

  lemma AppendedOk(t: Tables, h: History, t': Tables)
    requires LinesOk(t, h) && t.ledger <= t'.ledger && t'.lines == t.lines
    ensures LinesOk(t', h) && Grows(t, h, t', h)
  {
    forall l | l in h ensures t'.ledger[..h[l]] == t.ledger[..h[l]] {}
  }

  lemma WrittenOk(t: Tables, h: History, l: LineId, row: Line, n: nat)
    requires LinesOk(t, h) && l in h && h[l] <= n <= |t.ledger|
    requires row.version > t.lines[l].version && Caches(row, l, t.ledger[..n])
    ensures var t' := t.(lines := t.lines[l := row]);
            LinesOk(t', h[l := n]) && Grows(t, h, t', h[l := n])
  {}

  lemma MaterializeKeeps(t: Tables, h: History, me: Caller)
    requires me.todo != [] && me.todo[0].Materialize? && LinesOk(t, h) && CallerOk(t, h, me)
    ensures var (t', me') := Operate(t, me);
            && Grows(t, h, t', Wrote(t, h, me))
            && LinesOk(t', Wrote(t, h, me))
            && CallerOk(t', Wrote(t, h, me), me')
  {
    var l := me.todo[0].line;
    if me.phase == Ready {
      if l in t.lines { assert CachedAt(t, h, l, t.lines[l], h[l]); }
    } else if me.phase.HoldsLine? {
      var a: nat :| CachedAt(t, h, l, me.phase.row, a);
      assert a <= |t.ledger| && CachedAt(t, h, l, me.phase.row, a);
    } else {
      var seen := me.phase.seen;
      assert t.ledger[..|seen|] == seen;
      if Operate(t, me).0 != t {
        var written := t.lines[l].(committed := Total(seen, l, COMMITTING), actual := Total(seen, l, SPENDING),
                                   version := me.phase.row.version + 1);
        WrittenOk(t, h, l, written, |seen|);
      }
    }
  }

  lemma AllocateKeeps(t: Tables, h: History, me: Caller)
    requires me.todo != [] && me.todo[0].Allocate? && LinesOk(t, h) && CallerOk(t, h, me)
    ensures var (t', me') := Operate(t, me);
            && Grows(t, h, t', h)
            && LinesOk(t', h)
            && CallerOk(t', h, me')
  {
    var l := me.todo[0].line;
    var t' := Operate(t, me).0;
    if me.phase == Ready {
      if l in t.lines { assert CachedAt(t, h, l, t.lines[l], h[l]); }
    } else if t' != t {
      var t1 := t.(lines := t'.lines);
      assert h[l := h[l]] == h;
      WrittenOk(t, h, l, t'.lines[l], h[l]);
      AppendedOk(t1, h, t');
    }
  }

  lemma OperateKeeps(t: Tables, h: History, me: Caller)
    requires me.todo != [] && LinesOk(t, h) && CallerOk(t, h, me)
    ensures var (t', me') := Operate(t, me);
            && Grows(t, h, t', Wrote(t, h, me))
            && LinesOk(t', Wrote(t, h, me))
            && CallerOk(t', Wrote(t, h, me), me')
  {
    match me.todo[0] {
      case Append(m) => AppendedOk(t, h, Operate(t, me).0);
      case ReleaseReserved(l, source) =>
      case Materialize(l) => MaterializeKeeps(t, h, me);
      case Allocate(l, expected, target, source) => AllocateKeeps(t, h, me);
    }
  }

  ghost function Recorded(s: State, h: History, e: Event): History {
    var p := e.caller;
    if p < |s.callers| && s.callers[p].status == Live && e.Run? && s.callers[p].todo != []
    then Wrote(s.tables, h, s.callers[p]) else h
  }

  lemma AdvanceKeeps(s: State, h: History, e: Event)
    requires Inv(s, h)
    ensures Inv(Advance(s, e), Recorded(s, h, e))
    ensures Grows(s.tables, h, Advance(s, e).tables, Recorded(s, h, e))
  {
    var p := e.caller;
    if p < |s.callers| && s.callers[p].status == Live && e.Run? && s.callers[p].todo != [] {
      var s' := Advance(s, e);
      var h' := Recorded(s, h, e);
      OperateKeeps(s.tables, h, s.callers[p]);
      forall q | 0 <= q < |s'.callers| ensures CallerOk(s'.tables, h', s'.callers[q]) {
        if q != p { CallerStable(s.tables, h, s'.tables, h', s.callers[q]); }
      }
    }
  }

  /** The history of a run. */
  ghost function HistoryOf(s: State, es: seq<Event>): History {
    if es == [] then map l | l in s.tables.lines :: 0
    else Recorded(Exec(s, es[..|es| - 1]), HistoryOf(s, es[..|es| - 1]), es[|es| - 1])
  }

  lemma {:induction false} ExecKeeps(s: State, es: seq<Event>)
    requires Initial(s)
    ensures Inv(Exec(s, es), HistoryOf(s, es))
  {
    if es == [] {
      assert s.tables.ledger[..0] == [];
    } else {
      ExecKeeps(s, es[..|es| - 1]);
      AdvanceKeeps(Exec(s, es[..|es| - 1]), HistoryOf(s, es[..|es| - 1]), es[|es| - 1]);
    }
  }

  lemma {:induction false} ExecGrows(s: State, es: seq<Event>, n: nat)
    requires Initial(s) && n <= |es|
    ensures Grows(Exec(s, es[..n]).tables, HistoryOf(s, es[..n]), Exec(s, es).tables, HistoryOf(s, es))
    decreases |es|
  {
    ExecKeeps(s, es);
    if n == |es| {
      assert es[..n] == es;
    } else {
      var before := es[..|es| - 1];
      assert before[..n] == es[..n];
      ExecGrows(s, before, n);
      ExecKeeps(s, before);
      AdvanceKeeps(Exec(s, before), HistoryOf(s, before), es[|es| - 1]);
    }
  }

  /** Safety over whole runs. At every point of every interleaving, crashes included, each line
      shows the totals of some prefix of the ledger; between two points of a run that prefix never
      shrinks, nor does the version, and while the version stands still so does the line. */
  lemma LineShowsAPrefixThatNeverShrinks(s: State, es: seq<Event>, n: nat, l: LineId)
    returns (a: nat, b: nat)
    requires Initial(s) && n <= |es| && l in s.tables.lines
    ensures var earlier := Exec(s, es[..n]).tables; var later := Exec(s, es).tables;
            && l in earlier.lines && l in later.lines
            && a <= b && a <= |earlier.ledger| && b <= |later.ledger|
            && earlier.ledger <= later.ledger
            && Caches(earlier.lines[l], l, earlier.ledger[..a])
            && Caches(later.lines[l], l, later.ledger[..b])
            && earlier.lines[l].version <= later.lines[l].version
            && (earlier.lines[l].version == later.lines[l].version ==> earlier.lines[l] == later.lines[l])
  {
    ExecGrows(s, es, n);
    ExecGrows(s, es[..n], 0);
    assert es[..n][..0] == [] == es[..0];
    ExecKeeps(s, es[..n]);
    ExecKeeps(s, es);
    assert HistoryOf(s, []).Keys == s.tables.lines.Keys;
    a := HistoryOf(s, es[..n])[l];
    b := HistoryOf(s, es)[l];
  }

  // ---- Callers that stop ------------------------------------------------------------------------

  /** A caller that died, threw or was refused does nothing more. */
  lemma {:induction false} StoppedForGood(s: State, es: seq<Event>, p: nat, n: nat)
    requires n <= |es| && p < |s.callers| && Exec(s, es[..n]).callers[p].status != Live
    ensures Exec(s, es).callers[p] == Exec(s, es[..n]).callers[p]
    decreases |es|
  {
    if n == |es| {
      assert es[..n] == es;
    } else {
      var before := es[..|es| - 1];
      assert before[..n] == es[..n];
      StoppedForGood(s, before, p, n);
    }
  }

  /** A crash is the end: whatever the scheduler does after it, the caller's program stays as it was then. */
  lemma CrashIsFinal(s: State, es: seq<Event>, p: nat, n: nat)
    requires n < |es| && p < |s.callers| && es[n] == Crash(p)
    ensures var (before, end) := (Exec(s, es[..n]).callers[p], Exec(s, es).callers[p]);
            end.todo == before.todo && end.phase == before.phase && end.status != Live
  {
    assert es[..n + 1][..n] == es[..n];
    StoppedForGood(s, es, p, n + 1);
  }

  /** A conflict is a lost attempt: forty of them end a caller deriving a line, and fewer leave it to start over. */
  lemma {:induction false} ConflictsEndACaller(s: State, p: nat, n: nat)
    requires p < |s.callers| && s.callers[p].todo != [] && s.callers[p].todo[0].Materialize?
    requires s.callers[p].attempts == 0 && s.callers[p].status == Live && 0 < n <= 40
    ensures var (me, t) := (s.callers[p], Exec(s, seq(n, _ => Conflict(p))));
            t.tables == s.tables && t.callers[p] == Caller(me.todo, Ready, n, if n == 40 then Exhausted else Live)
  {
    var es := seq(n, _ => Conflict(p));
    assert es[..n - 1] == seq(n - 1, _ => Conflict(p));
    if n > 1 { ConflictsEndACaller(s, p, n - 1); }
  }
}
