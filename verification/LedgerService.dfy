/** The service itself: its methods over the two tables, and what one whole call comes to. */
module LedgerService {
  import opened Ledger
  import opened LedgerProtocol
  import opened LedgerQuiescence
  import opened LedgerConservation

  datatype Outcome = Applied | AlreadyApplied

  datatype Verdict = Returned | Threw

  /** What the rest of the system does to the tables while a call awaits the database. */
  type Others = (nat, Tables) -> Tables

  const NOBODY: Others := (k: nat, t: Tables) => t

  /** `materialize` from its given attempt on. */
  function MaterializeFrom(t: Tables, l: LineId, attempt: nat, others: Others): (Tables, Verdict)
    decreases MAX_ATTEMPTS - attempt
  {
    if attempt >= MAX_ATTEMPTS then (t, Threw)
    else if l !in t.lines then (t, Returned)
    else
      var row := t.lines[l];
      var t1 := others(2 * attempt, t);
      var seen := t1.ledger;
      var t2 := others(2 * attempt + 1, t1);
      if Caches(row, l, seen) then (t2, Returned)
      else if l in t2.lines && t2.lines[l].version == row.version then (Rewritten(t2, l, seen), Returned)
      else MaterializeFrom(t2, l, attempt + 1, others)
  }

  function Rewritten(t: Tables, l: LineId, seen: seq<Movement>): Tables
    requires l in t.lines
  {
    t.(lines := t.lines[l := t.lines[l].(committed := Total(seen, l, COMMITTING), actual := Total(seen, l, SPENDING),
                                         version := t.lines[l].version + 1)])
  }

  /** A caller of the protocol scheduled so that the others run between its operations. */
  function Drive(t: Tables, me: Caller, others: Others, fuel: nat): (Tables, Caller)
    decreases fuel
  {
    if fuel == 0 || me.todo == [] || me.status != Live then (t, me)
    else
      var (t', me') := Operate(t, me);
      Drive(if me'.phase == Ready then t' else others(2 * me.attempts + if me'.phase.HoldsLine? then 0 else 1, t'),
            me', others, fuel - 1)
  }

  /** One attempt of the caller: the two reads and then the skip or the guarded write. */
  lemma OneAttempt(t: Tables, l: LineId, attempt: nat, others: Others, fuel: nat)
    requires attempt < MAX_ATTEMPTS && l in t.lines && fuel >= 3
    ensures var me := Caller([Materialize(l)], Ready, attempt, Live);
            var (row, t1) := (t.lines[l], others(2 * attempt, t));
            var t2 := others(2 * attempt + 1, t1);
            var (t3, me3) := Operate(t2, me.(phase := HoldsLedger(row, t1.ledger)));
            Drive(t, me, others, fuel) == Drive(t3, me3, others, fuel - 3)
  {
    var me := Caller([Materialize(l)], Ready, attempt, Live);
    var me1 := me.(phase := HoldsLine(t.lines[l]));
    var t1 := others(2 * attempt, t);
    assert Operate(t, me) == (t, me1);
    assert Drive(t, me, others, fuel) == Drive(t1, me1, others, fuel - 1);
    var me2 := me.(phase := HoldsLedger(t.lines[l], t1.ledger));
    assert Operate(t1, me1) == (t1, me2);
    assert Drive(t1, me1, others, fuel - 1) == Drive(others(2 * attempt + 1, t1), me2, others, fuel - 2);
  }

  /** How the attempt ends: skipped, written, or lost. */
  lemma AttemptEnds(t: Tables, l: LineId, attempt: nat, row: Line, seen: seq<Movement>)
    ensures var (t', me) := Operate(t, Caller([Materialize(l)], HoldsLedger(row, seen), attempt, Live));
            if Caches(row, l, seen) then t' == t && me == Caller([], Ready, 0, Live)
            else if l in t.lines && t.lines[l].version == row.version then t' == Rewritten(t, l, seen) && me == Caller([], Ready, 0, Live)
            else t' == t && me == Caller([Materialize(l)], Ready, attempt + 1, if attempt + 1 < MAX_ATTEMPTS then Live else Exhausted)
  {
    assert [Materialize(l)][1..] == [];
  }

  /** The retry loop is the protocol's caller: same reads, same guard, same giving up, whatever the
      others do in between. */
  lemma {:induction false} LoopIsTheProtocol(t: Tables, l: LineId, attempt: nat, others: Others)
    requires attempt < MAX_ATTEMPTS
    ensures var (t', verdict) := MaterializeFrom(t, l, attempt, others);
            var (t'', me) := Drive(t, Caller([Materialize(l)], Ready, attempt, Live), others, 3 * (MAX_ATTEMPTS - attempt));
            t'' == t' && me.status == (if verdict == Threw then Exhausted else Live) && (verdict == Returned <==> me.todo == [])
    decreases MAX_ATTEMPTS - attempt
  {
    var fuel := 3 * (MAX_ATTEMPTS - attempt);
    var me := Caller([Materialize(l)], Ready, attempt, Live);
    if l in t.lines {
      OneAttempt(t, l, attempt, others, fuel);
      var t1 := others(2 * attempt, t);
      var t2 := others(2 * attempt + 1, t1);
      AttemptEnds(t2, l, attempt, t.lines[l], t1.ledger);
      if attempt + 1 < MAX_ATTEMPTS { LoopIsTheProtocol(t2, l, attempt + 1, others); }
    } else {
      assert Drive(t, me, others, fuel) == Drive(t, Finished(me), others, fuel - 1);
    }
  }

  /** Undisturbed, it returns on the first attempt with the line restored and the ledger untouched. */
  function MaterializedAlone(t: Tables, l: LineId): (r: Tables)
    ensures r.ledger == t.ledger && r.lines.Keys == t.lines.Keys
    ensures l in t.lines ==> Agrees(r, l) && r.lines[l].allocation == t.lines[l].allocation
    ensures forall k :: k in t.lines && k != l ==> r.lines[k] == t.lines[k]
    ensures (l in t.lines ==> Agrees(t, l)) ==> r == t
  {
    MaterializeFrom(t, l, 0, NOBODY).0
  }

  // ---- Whole calls ------------------------------------------------------------------------------

  /** One operation of the write path, carried out with nobody else about. */
  function Effect(t: Tables, op: Op): Tables {
    match op
    case Append(m) => t.(ledger := Insert(t.ledger, m))
    case ReleaseReserved(l, source) =>
      var reserved := Reserved(t.ledger, l, source);
      if reserved == [] then t else t.(ledger := Insert(t.ledger, ReleaseOf(reserved[0])))
    case Materialize(l) => MaterializedAlone(t, l)
    case Allocate(_, _, _, _) => t
  }

  function Effects(t: Tables, ops: seq<Op>): Tables {
    if ops == [] then t else Effect(Effects(t, ops[..|ops| - 1]), ops[|ops| - 1])
  }

  /** What the write path does about one matching line. */
  function LineProgram(l: LineId, kind: Kind, amount: int, source: Source): seq<Op> {
    [Append(Movement(l, kind, kind != Release, amount, source))]
    + (if kind == Actual then [ReleaseReserved(l, source)] else [])
    + [Materialize(l)]
  }

  /** ... and about all of them, in turn. */
  function Program(matches: seq<LineId>, kind: Kind, amount: int, source: Source): seq<Op> {
    if matches == [] then []
    else Program(matches[..|matches| - 1], kind, amount, source)
         + LineProgram(matches[|matches| - 1], kind, amount, source)
  }

  /** The tables after one matching line has been dealt with. */
  function LineEffect(t: Tables, l: LineId, kind: Kind, amount: int, source: Source): Tables {
    var t1 := Effect(t, Append(Movement(l, kind, kind != Release, amount, source)));
    Effect(if kind == Actual then Effect(t1, ReleaseReserved(l, source)) else t1, Materialize(l))
  }

  /** On a matching line the movement is in the ledger: itself, unless its key was taken. Settling what
      the source had committed on the line has released it too. */
  ghost predicate RecordedOn(before: seq<Movement>, after: seq<Movement>, k: LineId, kind: Kind, amount: int, source: Source) {
    var m := Movement(k, kind, kind != Release, amount, source);
    && HasKey(after, m) && (!HasKey(before, m) ==> m in after)
    && (kind == Actual && Committed(before, k, source) ==> Released(after, k, source))
  }

  /** A movement this call may add: its own on a matching line, or, when it settles, the release there of
      just what the source had committed. */
  ghost predicate OfTheCall(before: seq<Movement>, m: Movement, matches: seq<LineId>, kind: Kind, amount: int, source: Source) {
    m.line in matches
    && (|| m == Movement(m.line, kind, kind != Release, amount, source)
        || (kind == Actual && ReleasesItsCommitment(before, m, source)))
  }

  ghost predicate ReleasesItsCommitment(before: seq<Movement>, m: Movement, source: Source) {
    exists c :: c in before && c.kind == Commitment && c.line == m.line && c.source == source
                && m == Movement(m.line, Release, false, c.amount, source)
  }

  /** What a call has done to the ledger: nothing is lost, every match is recorded, and nothing else is added. */
  ghost predicate CallRecorded(before: seq<Movement>, after: seq<Movement>, matches: seq<LineId>, kind: Kind, amount: int,
                               source: Source) {
    && before <= after
    && (forall k :: k in matches ==> RecordedOn(before, after, k, kind, amount, source))
    && (forall i {:trigger after[i]} :: |before| <= i < |after| ==> OfTheCall(before, after[i], matches, kind, amount, source))
  }

  /** ... and to the lines: those that match agree with the ledger, the others are as they were. */
  ghost predicate LinesDerived(before: Tables, after: Tables, matches: seq<LineId>) {
    && after.lines.Keys == before.lines.Keys
    && (forall k :: k in before.lines && k in matches ==> Agrees(after, k) && after.lines[k].allocation == before.lines[k].allocation)
    && (forall k :: k in before.lines && k !in matches ==> after.lines[k] == before.lines[k])
  }

  class BudgetLedgerService {
    var tables: Tables

    constructor (lines: map<LineId, Line>)
      ensures tables == Tables([], lines)
    {
      tables := Tables([], lines);
    }

    /** An insert under the unique key; a replay of it changes nothing and is told so. */
    method Append(m: Movement) returns (outcome: Outcome)
      modifies this
      ensures tables == old(tables).(ledger := Insert(old(tables).ledger, m))
      ensures outcome == Applied <==> tables.ledger == old(tables).ledger + [m]
      ensures outcome == AlreadyApplied <==> HasKey(old(tables).ledger, m)
    {
      if HasKey(tables.ledger, m) {
        return AlreadyApplied;
      }
      tables := tables.(ledger := tables.ledger + [m]);
      return Applied;
    }

    /** The retry loop; `others` is what every other caller does to the tables at each of its awaits. */
    method Materialize(l: LineId, others: Others) returns (verdict: Verdict)
      modifies this
      ensures (tables, verdict) == MaterializeFrom(old(tables), l, 0, others)
    {
      var attempt := 0;
      while attempt < MAX_ATTEMPTS
        invariant attempt <= MAX_ATTEMPTS
        invariant MaterializeFrom(old(tables), l, 0, others) == MaterializeFrom(tables, l, attempt, others)
      {
        if l !in tables.lines {
          return Returned;
        }
        var row := tables.lines[l];
        tables := others(2 * attempt, tables);
        var movements := tables.ledger;
        tables := others(2 * attempt + 1, tables);
        var committed := Total(movements, l, COMMITTING);
        var actual := Total(movements, l, SPENDING);
        if committed == row.committed && actual == row.actual {
          return Returned;
        }
        if l in tables.lines && tables.lines[l].version == row.version {
          var written := tables.lines[l].(committed := committed, actual := actual, version := row.version + 1);
          tables := tables.(lines := tables.lines[l := written]);
          return Returned;
        }
        attempt := attempt + 1;
      }
      return Threw;
    }

    /** One line after the other, each carried to its end before the next is touched. */
    method ApplyAcrossMatches(matches: seq<LineId>, kind: Kind, amount: int, source: Source)
      requires kind != Adjustment
      modifies this
      ensures tables == Effects(old(tables), Program(matches, kind, amount, source))
      ensures CallRecorded(old(tables).ledger, tables.ledger, matches, kind, amount, source)
      ensures LinesDerived(old(tables), tables, matches)
    {
      var i := 0;
      while i < |matches|
        invariant 0 <= i <= |matches|
        invariant tables == Effects(old(tables), Program(matches[..i], kind, amount, source))
      {
        ApplyToLine(matches[i], kind, amount, source);
        LineEffects(old(tables), Program(matches[..i], kind, amount, source), matches[i], kind, amount, source);
        assert matches[..i + 1][..i] == matches[..i];
        i := i + 1;
      }
      assert matches[..i] == matches;
      CallRecords(old(tables), matches, kind, amount, source);
      CallDerives(old(tables), matches, kind, amount, source);
    }

    /** The movement itself, then for an ACTUAL the release of the reserved amount, then the balances. */
    method ApplyToLine(l: LineId, kind: Kind, amount: int, source: Source)
      modifies this
      ensures tables == LineEffect(old(tables), l, kind, amount, source)
    {
      var _ := Append(Movement(l, kind, kind != Release, amount, source));
      if kind == Actual {
        var reserved := Reserved(tables.ledger, l, source);
        if reserved != [] {
          var _ := Append(ReleaseOf(reserved[0]));
        }
      }
      var _ := Materialize(l, NOBODY);
    }

    /** One COMMITMENT on each matching line. */
    method Commit(matches: seq<LineId>, amount: int, source: Source)
      modifies this
      ensures tables == Effects(old(tables), Program(matches, Commitment, amount, source))
      ensures CallRecorded(old(tables).ledger, tables.ledger, matches, Commitment, amount, source)
      ensures LinesDerived(old(tables), tables, matches)
    {
      ApplyAcrossMatches(matches, Commitment, amount, source);
    }

    /** One ACTUAL on each matching line, and a RELEASE where this source holds a commitment. */
    method Actualize(matches: seq<LineId>, amount: int, source: Source)
      modifies this
      ensures tables == Effects(old(tables), Program(matches, Actual, amount, source))
      ensures CallRecorded(old(tables).ledger, tables.ledger, matches, Actual, amount, source)
      ensures LinesDerived(old(tables), tables, matches)
    {
      ApplyAcrossMatches(matches, Actual, amount, source);
    }

    /** One RELEASE on each matching line, whether or not there is a commitment to match it. */
    method GiveBack(matches: seq<LineId>, amount: int, source: Source)
      modifies this
      ensures tables == Effects(old(tables), Program(matches, Release, amount, source))
      ensures CallRecorded(old(tables).ledger, tables.ledger, matches, Release, amount, source)
      ensures LinesDerived(old(tables), tables, matches)
    {
      ApplyAcrossMatches(matches, Release, amount, source);
    }
  }

  lemma {:induction false} EffectsSplit(t: Tables, a: seq<Op>, b: seq<Op>)
    ensures Effects(t, a + b) == Effects(Effects(t, a), b)
  {
    if b == [] {
      assert a + b == a;
    } else {
      EffectsSplit(t, a, b[..|b| - 1]);
      assert (a + b)[..|a + b| - 1] == a + b[..|b| - 1];
    }
  }

  lemma LineEffects(t: Tables, before: seq<Op>, l: LineId, kind: Kind, amount: int, source: Source)
    ensures Effects(t, before + LineProgram(l, kind, amount, source))
         == LineEffect(Effects(t, before), l, kind, amount, source)
  {
    var append := Append(Movement(l, kind, kind != Release, amount, source));
    var p := LineProgram(l, kind, amount, source);
    EffectsSplit(t, before, p);
    var t0 := Effects(t, before);
    assert Effects(t0, []) == t0;
    assert [append][..0] == [];
    assert Effects(t0, [append]) == Effect(t0, append);
    if kind == Actual {
      assert [append, ReleaseReserved(l, source)][..1] == [append];
      assert p[..2] == [append, ReleaseReserved(l, source)];
    } else {
      assert p[..1] == [append];
    }
  }

  /** The operation has nothing left to do to the ledger. */
  predicate Absorbed(ms: seq<Movement>, op: Op) {
    match op
    case Append(m) => HasKey(ms, m)
    case ReleaseReserved(l, source) =>
      var reserved := Reserved(ms, l, source);
      reserved == [] || HasKey(ms, ReleaseOf(reserved[0]))
    case _ => true
  }

  /** Appending anything but a commitment leaves absorbed work absorbed. */
  predicate KeepsReservations(op: Op) {
    (op.Append? ==> op.m.kind != Commitment) && !op.Allocate?
  }

  lemma HasKeyGrows(ms: seq<Movement>, m: Movement, x: Movement)
    ensures HasKey(ms, m) ==> HasKey(ms + [x], m)
    ensures HasKey(ms + [x], x)
  {
    if HasKey(ms, m) {
      var i :| 0 <= i < |ms| && SameKey(ms[i], m);
      assert (ms + [x])[i] == ms[i];
    }
    assert (ms + [x])[|ms|] == x;
  }

  lemma {:induction false} ReservedUnmoved(ms: seq<Movement>, x: Movement, l: LineId, source: Source)
    requires x.kind != Commitment
    ensures Reserved(ms + [x], l, source) == Reserved(ms, l, source)
  {
    if ms == [] {
      assert ([] + [x])[1..] == [];
    } else {
      ReservedUnmoved(ms[1..], x, l, source);
      assert (ms + [x])[1..] == ms[1..] + [x];
    }
  }

  lemma AbsorbedAfter(t: Tables, op: Op, other: Op)
    requires Absorbed(t.ledger, other) || other == op
    requires (KeepsReservations(op) || !other.ReleaseReserved?) && !op.Allocate?
    ensures Absorbed(Effect(t, op).ledger, other)
  {
    var after := Effect(t, op).ledger;
    if after != t.ledger {
      var x := after[|t.ledger|];
      assert after == t.ledger + [x];
      if other.Append? { HasKeyGrows(t.ledger, other.m, x); }
      if other.ReleaseReserved? {
        ReservedUnmoved(t.ledger, x, other.line, other.source);
        var reserved := Reserved(t.ledger, other.line, other.source);
        if reserved != [] { HasKeyGrows(t.ledger, ReleaseOf(reserved[0]), x); }
      }
    }
  }

  lemma {:induction false} AllAbsorbed(t: Tables, ops: seq<Op>, op: Op)
    requires op in ops && forall o :: o in ops ==> !o.Allocate?
    requires (forall o :: o in ops ==> KeepsReservations(o)) || (forall o :: o in ops ==> !o.ReleaseReserved?)
    ensures Absorbed(Effects(t, ops).ledger, op)
  {
    var before := ops[..|ops| - 1];
    var last := ops[|ops| - 1];
    assert ops == before + [last];
    if op != last { AllAbsorbed(t, before, op); }
    AbsorbedAfter(Effects(t, before), last, op);
  }

  lemma {:induction false} AbsorbedIsNothing(t: Tables, ops: seq<Op>)
    requires forall o :: o in ops ==> Absorbed(t.ledger, o)
    ensures Effects(t, ops).ledger == t.ledger
  {
    if ops != [] {
      AbsorbedIsNothing(t, ops[..|ops| - 1]);
      assert ops[|ops| - 1] in ops;
    }
  }

  lemma {:induction false} ProgramShape(matches: seq<LineId>, kind: Kind, amount: int, source: Source)
    requires kind == Commitment || kind == Actual || kind == Release
    ensures var ops := Program(matches, kind, amount, source);
            && (forall o :: o in ops ==> !o.Allocate?)
            && (kind == Actual ==> forall o :: o in ops ==> KeepsReservations(o))
            && (kind != Actual ==> forall o :: o in ops ==> !o.ReleaseReserved?)
  {
    if matches != [] { ProgramShape(matches[..|matches| - 1], kind, amount, source); }
  }

  /** The ledger an operation leaves does not depend on the cached lines. */
  lemma {:induction false} LedgerOnly(t: Tables, u: Tables, ops: seq<Op>)
    requires t.ledger == u.ledger
    ensures Effects(t, ops).ledger == Effects(u, ops).ledger
  {
    if ops != [] { LedgerOnly(t, u, ops[..|ops| - 1]); }
  }

  /** A call that died after any number of its operations and is then replayed leaves the ledger one
      undisturbed call would have left; dying after all of them makes this plain idempotence. */
  lemma CrashedThenReplayed(t: Tables, matches: seq<LineId>, kind: Kind, amount: int, source: Source, k: nat)
    requires kind == Commitment || kind == Actual || kind == Release
    requires k <= |Program(matches, kind, amount, source)|
    ensures var ops := Program(matches, kind, amount, source);
            Effects(Effects(t, ops[..k]), ops).ledger == Effects(t, ops).ledger
  {
    var ops := Program(matches, kind, amount, source);
    ProgramShape(matches, kind, amount, source);
    var crashed := Effects(t, ops[..k]);
    forall o | o in ops[..k] ensures Absorbed(crashed.ledger, o) { AllAbsorbed(t, ops[..k], o); }
    AbsorbedIsNothing(crashed, ops[..k]);
    assert ops == ops[..k] + ops[k..];
    EffectsSplit(crashed, ops[..k], ops[k..]);
    EffectsSplit(t, ops[..k], ops[k..]);
    LedgerOnly(Effects(crashed, ops[..k]), crashed, ops[k..]);
  }

  lemma OtherLinesAgree(t: Tables, l: LineId, kind: Kind, amount: int, source: Source, k: LineId)
    requires Agrees(t, k) || (k == l && k in t.lines)
    ensures Agrees(Effects(t, LineProgram(l, kind, amount, source)), k)
  {
    LineEffects(t, [], l, kind, amount, source);
    assert [] + LineProgram(l, kind, amount, source) == LineProgram(l, kind, amount, source);
    assert Effects(t, []) == t;
    var m := Movement(l, kind, kind != Release, amount, source);
    forall ms: seq<Movement>, kinds, x: Movement | x.line == l && k != l
      ensures Total(ms + [x], k, kinds) == Total(ms, k, kinds)
    {
      TotalOfAppend(ms, x, k, kinds);
    }
    ReservedIsThere(Insert(t.ledger, m), l, source);
  }

  /** After an undisturbed call every matching line shows its whole ledger, even one an earlier
      crashed attempt had left behind. */
  lemma {:induction false} CallLeavesLinesAgreeing(t: Tables, matches: seq<LineId>, kind: Kind, amount: int,
                                                   source: Source, k: LineId)
    requires k in t.lines && (k in matches || Agrees(t, k))
    ensures Agrees(Effects(t, Program(matches, kind, amount, source)), k)
    ensures k in Effects(t, Program(matches, kind, amount, source)).lines
  {
    if matches != [] {
      var (before, l) := (matches[..|matches| - 1], matches[|matches| - 1]);
      assert matches == before + [l];
      EffectsSplit(t, Program(before, kind, amount, source), LineProgram(l, kind, amount, source));
      LinesKept(t, Program(before, kind, amount, source));
      if k in before || Agrees(t, k) { CallLeavesLinesAgreeing(t, before, kind, amount, source, k); }
      OtherLinesAgree(Effects(t, Program(before, kind, amount, source)), l, kind, amount, source, k);
    }
  }

  lemma {:induction false} LinesKept(t: Tables, ops: seq<Op>)
    ensures Effects(t, ops).lines.Keys == t.lines.Keys
  {
    if ops != [] { LinesKept(t, ops[..|ops| - 1]); }
  }

  lemma KeyStays(ms: seq<Movement>, longer: seq<Movement>, m: Movement)
    requires ms <= longer
    ensures HasKey(ms, m) ==> HasKey(longer, m)
    ensures m in ms ==> m in longer
  {
    if HasKey(ms, m) {
      var i :| 0 <= i < |ms| && SameKey(ms[i], m);
      assert SameKey(longer[i], m);
    }
    if m in ms {
      var i :| 0 <= i < |ms| && ms[i] == m;
      assert longer[i] == m;
    }
  }

  lemma Inserted(ms: seq<Movement>, m: Movement)
    ensures ms <= Insert(ms, m) && HasKey(Insert(ms, m), m) && (!HasKey(ms, m) ==> m in Insert(ms, m))
  {
    HasKeyGrows(ms, m, m);
    if !HasKey(ms, m) { assert (ms + [m])[|ms|] == m; }
  }

  lemma ReleaseIsInserted(ms: seq<Movement>, c: Movement)
    ensures Released(Insert(ms, ReleaseOf(c)), c.line, c.source)
  {
    Inserted(ms, ReleaseOf(c));
    var after := Insert(ms, ReleaseOf(c));
    var i :| 0 <= i < |after| && SameKey(after[i], ReleaseOf(c));
  }

  lemma JustAppended(before: seq<Movement>, l: LineId, kind: Kind, amount: int, source: Source)
    requires kind == Actual ==> !Committed(before, l, source)
    ensures CallRecorded(before, Insert(before, Movement(l, kind, kind != Release, amount, source)), [l], kind, amount, source)
  {
    var m := Movement(l, kind, kind != Release, amount, source);
    Inserted(before, m);
    assert forall i :: |before| <= i < |Insert(before, m)| ==> Insert(before, m)[i] == m;
  }

  lemma AppendedAndReleased(before: seq<Movement>, l: LineId, amount: int, source: Source, c: Movement)
    requires c in before && c.kind == Commitment && c.line == l && c.source == source
    ensures var after := Insert(before, Movement(l, Actual, true, amount, source));
            CallRecorded(before, Insert(after, ReleaseOf(c)), [l], Actual, amount, source)
  {
    var m := Movement(l, Actual, true, amount, source);
    var after := Insert(before, m);
    var released := Insert(after, ReleaseOf(c));
    Inserted(before, m);
    Inserted(after, ReleaseOf(c));
    KeyStays(after, released, m);
    ReleaseIsInserted(after, c);
    forall i | |before| <= i < |released| ensures OfTheCall(before, released[i], [l], Actual, amount, source) {
      assert released[i] == m || released[i] == ReleaseOf(c);
    }
  }

  /** One matching line. */
  lemma LineRecords(t: Tables, l: LineId, kind: Kind, amount: int, source: Source)
    ensures CallRecorded(t.ledger, LineEffect(t, l, kind, amount, source).ledger, [l], kind, amount, source)
  {
    var after := Insert(t.ledger, Movement(l, kind, kind != Release, amount, source));
    ReservedIsThere(after, l, source);
    var reserved := Reserved(after, l, source);
    if kind == Actual && reserved != [] {
      AppendedAndReleased(t.ledger, l, amount, source, reserved[0]);
    } else {
      if kind == Actual { NothingCommitted(t.ledger, after, l, source); }
      JustAppended(t.ledger, l, kind, amount, source);
    }
  }

  lemma NothingCommitted(before: seq<Movement>, after: seq<Movement>, l: LineId, source: Source)
    requires before <= after && Reserved(after, l, source) == []
    ensures !Committed(before, l, source)
  {
    ReservedIsThere(after, l, source);
    forall i | 0 <= i < |before| ensures !(before[i].kind == Commitment && before[i].line == l && before[i].source == source) {
      assert after[i] in after;
    }
  }

  lemma OfTheCallGrows(before: seq<Movement>, now: seq<Movement>, m: Movement, matches: seq<LineId>, l: LineId, kind: Kind,
                       amount: int, source: Source)
    requires CallRecorded(before, now, matches, kind, amount, source) && OfTheCall(now, m, [l], kind, amount, source)
    ensures OfTheCall(before, m, matches + [l], kind, amount, source)
  {
    if m != Movement(m.line, kind, kind != Release, amount, source) {
      var c :| c in now && c.kind == Commitment && c.line == m.line && c.source == source
               && m == Movement(m.line, Release, false, c.amount, source);
      var i :| 0 <= i < |now| && now[i] == c;
      assert i < |before|;
      assert before[i] == c;
    }
  }

  /** Another matching line after those dealt with. */
  lemma RecordedThen(before: seq<Movement>, now: seq<Movement>, after: seq<Movement>, matches: seq<LineId>, l: LineId,
                     kind: Kind, amount: int, source: Source)
    requires CallRecorded(before, now, matches, kind, amount, source) && CallRecorded(now, after, [l], kind, amount, source)
    ensures CallRecorded(before, after, matches + [l], kind, amount, source)
  {
    forall k | k in matches + [l] ensures RecordedOn(before, after, k, kind, amount, source) {
      var m := Movement(k, kind, kind != Release, amount, source);
      KeyStays(now, after, m);
      StaysThere(now, after, k, source);
      StaysThere(before, now, k, source);
      if k in matches {
        assert RecordedOn(before, now, k, kind, amount, source);
      } else {
        assert RecordedOn(now, after, l, kind, amount, source);
        if !HasKey(before, m) { assert !HasKey(now, m); }
      }
    }
    forall i | |before| <= i < |after| ensures OfTheCall(before, after[i], matches + [l], kind, amount, source) {
      if i < |now| {
        assert OfTheCall(before, now[i], matches, kind, amount, source);
      } else {
        OfTheCallGrows(before, now, after[i], matches, l, kind, amount, source);
      }
    }
  }

  /** An undisturbed call records every line that matches and nothing else. */
  lemma {:induction false} CallRecords(t: Tables, matches: seq<LineId>, kind: Kind, amount: int, source: Source)
    ensures CallRecorded(t.ledger, Effects(t, Program(matches, kind, amount, source)).ledger, matches, kind, amount, source)
  {
    if matches != [] {
      var (before, l) := (matches[..|matches| - 1], matches[|matches| - 1]);
      CallRecords(t, before, kind, amount, source);
      LineEffects(t, Program(before, kind, amount, source), l, kind, amount, source);
      var now := Effects(t, Program(before, kind, amount, source));
      LineRecords(now, l, kind, amount, source);
      RecordedThen(t.ledger, now.ledger, LineEffect(now, l, kind, amount, source).ledger, before, l, kind, amount, source);
      assert matches == before + [l];
    }
  }

  lemma LineKeepsTheOthers(t: Tables, l: LineId, kind: Kind, amount: int, source: Source)
    ensures var after := LineEffect(t, l, kind, amount, source);
            && after.lines.Keys == t.lines.Keys
            && (forall k :: k in t.lines && k != l ==> after.lines[k] == t.lines[k])
            && (l in t.lines ==> after.lines[l].allocation == t.lines[l].allocation)
  {}

  /** An undisturbed call derives the lines that match and leaves the others and every allocation alone. */
  lemma {:induction false} CallDerives(t: Tables, matches: seq<LineId>, kind: Kind, amount: int, source: Source)
    ensures LinesDerived(t, Effects(t, Program(matches, kind, amount, source)), matches)
  {
    if matches != [] {
      var (before, l) := (matches[..|matches| - 1], matches[|matches| - 1]);
      CallDerives(t, before, kind, amount, source);
      LineEffects(t, Program(before, kind, amount, source), l, kind, amount, source);
      LineKeepsTheOthers(Effects(t, Program(before, kind, amount, source)), l, kind, amount, source);
      forall k | k in t.lines && k in matches ensures Agrees(Effects(t, Program(matches, kind, amount, source)), k) {
        CallLeavesLinesAgreeing(t, matches, kind, amount, source, k);
      }
      assert matches == before + [l];
    }
  }
}
