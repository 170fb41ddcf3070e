/** The append-only budget ledger: movements, their unique key, and the totals a line caches.
    Amounts are integer counts of ten-thousandths, the scale the rows are stored at. */
module Ledger {
  type LineId = nat

  datatype Kind = Commitment | Actual | Release | Adjustment

  datatype Source = Source(sourceType: string, sourceId: string)

  datatype Movement = Movement(line: LineId, kind: Kind, increase: bool, amount: int, source: Source)

  datatype Line = Line(allocation: int, committed: int, actual: int, version: nat)

  /** The two tables behind the service. */
  datatype Tables = Tables(ledger: seq<Movement>, lines: map<LineId, Line>)

  const COMMITTING: set<Kind> := {Commitment, Release}
  const SPENDING: set<Kind> := {Actual}
  const ALLOCATING: set<Kind> := {Adjustment}

  function Signed(m: Movement): int {
    if m.increase then m.amount else -m.amount
  }

  /** The signed sum of one line's movements of the given kinds. */
  function Total(ms: seq<Movement>, line: LineId, kinds: set<Kind>): int {
    if ms == [] then 0
    else
      var m := ms[|ms| - 1];
      Total(ms[..|ms| - 1], line, kinds) + if m.line == line && m.kind in kinds then Signed(m) else 0
  }

  /** The unique index (line, sourceType, sourceId, movementType). */
  predicate SameKey(a: Movement, b: Movement) {
    a.line == b.line && a.source == b.source && a.kind == b.kind
  }

  predicate HasKey(ms: seq<Movement>, m: Movement) {
    exists i :: 0 <= i < |ms| && SameKey(ms[i], m)
  }

  /** An insert that the unique index may turn into a no-op. */
  function Insert(ms: seq<Movement>, m: Movement): seq<Movement> {
    if HasKey(ms, m) then ms else ms + [m]
  }

  /** Whether a movement takes part in the balances `materialize` derives for a line. */
  predicate Moves(m: Movement, line: LineId) {
    m.line == line && m.kind != Adjustment
  }

  /** The line caches the totals of this ledger. */
  predicate Caches(row: Line, line: LineId, ms: seq<Movement>) {
    row.committed == Total(ms, line, COMMITTING) && row.actual == Total(ms, line, SPENDING)
  }

  predicate SameTotals(a: seq<Movement>, b: seq<Movement>, line: LineId) {
    Total(a, line, COMMITTING) == Total(b, line, COMMITTING) && Total(a, line, SPENDING) == Total(b, line, SPENDING)
  }

  /** The line's balance at the end of this history is one it never showed before its last movement. */
  ghost predicate EndsAnew(ms: seq<Movement>, line: LineId) {
    forall a, i :: 0 <= a <= i < |ms| && Moves(ms[i], line) ==> !SameTotals(ms[..a], ms, line)
  }

  lemma TotalOfAppend(ms: seq<Movement>, m: Movement, line: LineId, kinds: set<Kind>)
    ensures Total(ms + [m], line, kinds)
         == Total(ms, line, kinds) + if m.line == line && m.kind in kinds then Signed(m) else 0
  {
    assert (ms + [m])[..|ms|] == ms;
  }

  /** Movements that do not touch the line leave its totals alone. */
  lemma {:induction false} TotalsUnmoved(ms: seq<Movement>, a: nat, b: nat, line: LineId)
    requires a <= b <= |ms|
    requires forall i :: a <= i < b ==> !Moves(ms[i], line)
    ensures SameTotals(ms[..a], ms[..b], line)
  {
    if a < b {
      TotalsUnmoved(ms, a, b - 1, line);
      assert ms[..b][..b - 1] == ms[..b - 1];
    }
  }

  /** Every movement of the line raises a balance. */
  ghost predicate OnlyRaises(ms: seq<Movement>, line: LineId) {
    forall i :: 0 <= i < |ms| && Moves(ms[i], line) ==> ms[i].kind != Release && ms[i].increase && ms[i].amount > 0
  }

  lemma {:induction false} RaisingTotals(ms: seq<Movement>, a: nat, b: nat, line: LineId)
    requires a <= b <= |ms|
    requires OnlyRaises(ms, line)
    ensures Total(ms[..a], line, COMMITTING) <= Total(ms[..b], line, COMMITTING)
    ensures Total(ms[..a], line, SPENDING) <= Total(ms[..b], line, SPENDING)
    ensures (exists i :: a <= i < b && Moves(ms[i], line)) ==> !SameTotals(ms[..a], ms[..b], line)
  {
    if a < b {
      RaisingTotals(ms, a, b - 1, line);
      assert ms[..b][..b - 1] == ms[..b - 1];
    }
  }

  /** Positive amounts and no RELEASE are enough for a balance that is always new. */
  lemma RaisingEndsAnew(ms: seq<Movement>, line: LineId)
    requires OnlyRaises(ms, line)
    ensures EndsAnew(ms, line)
  {
    forall a, i | 0 <= a <= i < |ms| && Moves(ms[i], line) ensures !SameTotals(ms[..a], ms, line) {
      RaisingTotals(ms, a, |ms|, line);
      assert ms[..|ms|] == ms;
    }
  }
}
