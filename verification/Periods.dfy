/** Fiscal years and quarters, and how a budget's range is cut into lines. Days and months are counted from
    the first of year 0, instants are milliseconds. Everything holds for any calendar whose months follow one
    another; `Gregorian` is the one in use. */
module Periods {
  type Month = nat

  const MS_PER_DAY: int := 86_400_000

  /** The first day of each month; months past December run on into later years. */
  type Calendar = F: Month -> nat | Follows(F) witness EVERY_MONTH_A_DAY

  const EVERY_MONTH_A_DAY: Month -> nat := (m: Month) => m

  ghost predicate Follows(F: Month -> nat) {
    F(0) == 0 && forall m: Month {:trigger Later(F, m)} :: Later(F, m)
  }

  ghost predicate Later(F: Month -> nat, m: Month) {
    F(m) < F(m + 1)
  }

  function Min(a: int, b: int): int {
    if a < b then a else b
  }

  lemma {:induction false} Ascends(F: Calendar, m: Month, n: Month)
    requires m <= n
    ensures F(m) <= F(n) && (m < n ==> F(m) < F(n))
    decreases n - m
  {
    if m < n {
      assert Later(F, m);
      Ascends(F, m + 1, n);
    }
  }

  predicate InMonth(F: Calendar, day: nat, m: Month) {
    F(m) <= day < F(m + 1)
  }

  function MonthFrom(F: Calendar, day: nat, m: Month): (r: Month)
    requires F(m) <= day
    ensures InMonth(F, day, r)
    decreases day - F(m)
  {
    assert Later(F, m);
    if day < F(m + 1) then m else MonthFrom(F, day, m + 1)
  }

  /** The month a day falls in. */
  function MonthOf(F: Calendar, day: nat): (r: Month)
    ensures InMonth(F, day, r)
  {
    MonthFrom(F, day, 0)
  }

  /** Days and months compare alike. */
  lemma DaysAndMonths(F: Calendar, day: nat, m: Month)
    ensures F(m) <= day <==> m <= MonthOf(F, day)
  {
    var k := MonthOf(F, day);
    if m <= k { Ascends(F, m, k); } else { Ascends(F, k + 1, m); }
  }

  lemma MonthOfFirstDay(F: Calendar, m: Month)
    ensures MonthOf(F, F(m)) == m
  {
    DaysAndMonths(F, F(m), m);
    DaysAndMonths(F, F(m), m + 1);
    assert Later(F, m);
  }

  // ---- The Gregorian calendar ---------------------------------------------------------------------

  predicate IsLeap(year: nat) {
    (year % 4 == 0 && year % 100 != 0) || year % 400 == 0
  }

  function MonthLength(m: Month): (days: nat)
    ensures 28 <= days <= 31
  {
    var month := m % 12;
    if month == 1 then (if IsLeap(m / 12) then 29 else 28)
    else if month == 3 || month == 5 || month == 8 || month == 10 then 30
    else 31
  }

  function GregorianDay(m: Month): nat {
    if m == 0 then 0 else GregorianDay(m - 1) + MonthLength(m - 1)
  }

  function Gregorian(): Calendar {
    var F := (m: Month) => GregorianDay(m);
    F
  }

  /** The days of a year before each of its months, and of the whole year. */
  const DAYS_UP_TO: seq<nat> := [0, 31, 59, 90, 120, 151, 181, 212, 243, 273, 304, 334, 365]

  lemma InYear(year: nat, k: nat)
    requires k < 12
    ensures (12 * year + k) % 12 == k && (12 * year + k) / 12 == year
  {}

  lemma LengthInYear(year: nat, k: nat)
    requires k < 12
    ensures MonthLength(12 * year + k) == DAYS_UP_TO[k + 1] - DAYS_UP_TO[k] + if IsLeap(year) && k == 1 then 1 else 0
  {
    InYear(year, k);
  }

  lemma {:induction false} DaysIntoYear(year: nat, k: nat)
    requires k <= 12
    ensures GregorianDay(12 * year + k) == GregorianDay(12 * year) + DAYS_UP_TO[k] + if IsLeap(year) && k >= 2 then 1 else 0
  {
    if k > 0 {
      DaysIntoYear(year, k - 1);
      LengthInYear(year, k - 1);
      OneMonthOn(12 * year + k);
    }
  }

  lemma OneMonthOn(m: Month)
    requires m > 0
    ensures GregorianDay(m) == GregorianDay(m - 1) + MonthLength(m - 1)
  {}

  /** The leap years before a year. */
  function LeapYears(year: nat): nat {
    if year == 0 then 0 else LeapYears(year - 1) + if IsLeap(year - 1) then 1 else 0
  }

  /** The Gregorian calendar adds up: 365 days a year, and one for each leap year gone by. */
  lemma {:induction false} DaysBeforeYear(year: nat)
    ensures GregorianDay(12 * year) == 365 * year + LeapYears(year)
    ensures IsLeap(1996) && !IsLeap(1900) && IsLeap(2000) && !IsLeap(2023) && IsLeap(2024) && !IsLeap(2100)
  {
    if year > 0 {
      DaysBeforeYear(year - 1);
      DaysIntoYear(year - 1, 12);
    }
  }

  // ---- Fiscal years and quarters ------------------------------------------------------------------

  /** Half-open: `start <= day < end`. */
  datatype Period = Period(start: nat, end: nat, fiscalYear: nat, index: nat)

  predicate Contains(p: Period, day: nat) {
    p.start <= day < p.end
  }

  /** `isWithinPeriod` on an instant. */
  predicate IsWithinPeriod(instant: int, p: Period) {
    p.start * MS_PER_DAY <= instant < p.end * MS_PER_DAY
  }

  /** An instant is within a period exactly when its day is. */
  lemma InstantsFollowDays(instant: nat, p: Period)
    ensures IsWithinPeriod(instant, p) <==> Contains(p, instant / (24 * 60 * 60 * 1000))
  {}

  predicate IsStartMonth(f: int) {
    1 <= f <= 12
  }

  /** `Date.UTC` remaps years 0 to 99; everything here stays clear of them. */
  const FIRST_SUPPORTED_YEAR: nat := 101

  predicate Supported(F: Calendar, day: nat) {
    MonthOf(F, day) >= FIRST_SUPPORTED_YEAR * 12
  }

  /** A fiscal year is named after the calendar year of its last month. */
  function FiscalYearOf(F: Calendar, day: nat, f: int): nat
    requires IsStartMonth(f)
  {
    var (year, month) := (MonthOf(F, day) / 12, MonthOf(F, day) % 12 + 1);
    if f == 1 then year else if month >= f then year + 1 else year
  }

  /** The first month of a fiscal year. */
  function StartMonth(fiscalYear: nat, f: int): Month
    requires IsStartMonth(f) && fiscalYear > 0
  {
    (if f == 1 then fiscalYear else fiscalYear - 1) * 12 + (f - 1)
  }

  function FiscalYearPeriod(F: Calendar, fiscalYear: nat, f: int): Period
    requires IsStartMonth(f) && fiscalYear > 0
  {
    Period(F(StartMonth(fiscalYear, f)), F(StartMonth(fiscalYear, f) + 12), fiscalYear, 0)
  }

  function MonthPeriod(F: Calendar, day: nat): Period {
    Period(F(MonthOf(F, day)), F(MonthOf(F, day) + 1), MonthOf(F, day) / 12, MonthOf(F, day) % 12)
  }

  /** The fiscal quarter containing the day: whole quarters elapsed since the year's first month. */
  function QuarterPeriod(F: Calendar, day: nat, f: int): Period
    requires IsStartMonth(f) && Supported(F, day)
  {
    var fiscalYear := FiscalYearOf(F, day, f);
    var yearStart := MonthOf(F, FiscalYearPeriod(F, fiscalYear, f).start);
    MonthOfFirstDay(F, StartMonth(fiscalYear, f));
    MonthsElapsed(MonthOf(F, day), StartMonth(fiscalYear, f));
    var elapsed := (MonthOf(F, day) / 12 - yearStart / 12) * 12 + (MonthOf(F, day) % 12 - yearStart % 12);
    var quarter := elapsed / 3;
    Period(F(yearStart + quarter * 3), F(yearStart + (quarter + 1) * 3), fiscalYear, quarter)
  }

  lemma MonthsElapsed(m: Month, s: Month)
    ensures (m / 12 - s / 12) * 12 + (m % 12 - s % 12) == m - s
  {}

  lemma FiscalYearStart(F: Calendar, day: nat, f: int)
    requires IsStartMonth(f) && Supported(F, day)
    ensures FiscalYearOf(F, day, f) > 0
    ensures StartMonth(FiscalYearOf(F, day, f), f) <= MonthOf(F, day) < StartMonth(FiscalYearOf(F, day, f), f) + 12
  {}

  /** A fiscal year starts on the first of its start month, ends twelve months on, and bears the calendar year
      that its last month is in. */
  lemma FiscalYearIsNamedForItsEnd(F: Calendar, fiscalYear: nat, f: int)
    requires IsStartMonth(f) && fiscalYear > 0
    ensures var (m, p) := (StartMonth(fiscalYear, f), FiscalYearPeriod(F, fiscalYear, f));
            && m % 12 == f - 1 && (m + 11) / 12 == fiscalYear
            && p.start == F(m) && p.end == F(m + 12) && p.fiscalYear == fiscalYear
  {}

  /** A day's month contains it and says which month of which calendar year it is. */
  lemma MonthContainsItsDay(F: Calendar, day: nat)
    ensures var p := MonthPeriod(F, day);
            Contains(p, day) && p.index < 12 && p.start == F(p.fiscalYear * 12 + p.index) && p.end == F(p.fiscalYear * 12 + p.index + 1)
  {}

  /** A day is in exactly one fiscal year: the one `fiscalYearOf` names. */
  lemma FiscalYearContainsItsDays(F: Calendar, day: nat, f: int, fiscalYear: nat)
    requires IsStartMonth(f) && Supported(F, day) && fiscalYear > 0
    ensures Contains(FiscalYearPeriod(F, fiscalYear, f), day) <==> fiscalYear == FiscalYearOf(F, day, f)
  {
    FiscalYearStart(F, day, f);
    var s := StartMonth(fiscalYear, f);
    DaysAndMonths(F, day, s);
    DaysAndMonths(F, day, s + 12);
  }

  /** The quarter of a day contains it, is one of the four of its fiscal year, and starts a whole
      number of quarters into that year. */
  lemma QuarterContainsItsDay(F: Calendar, day: nat, f: int)
    requires IsStartMonth(f) && Supported(F, day)
    ensures FiscalYearOf(F, day, f) > 0
    ensures var (q, s) := (QuarterPeriod(F, day, f), StartMonth(FiscalYearOf(F, day, f), f));
            && Contains(q, day) && q.index == (MonthOf(F, day) - s) / 3 < 4 && q.fiscalYear == FiscalYearOf(F, day, f)
            && q.start == F(s + q.index * 3) && q.end == F(s + q.index * 3 + 3)
  {
    FiscalYearStart(F, day, f);
    var s := StartMonth(FiscalYearOf(F, day, f), f);
    MonthOfFirstDay(F, s);
    MonthsElapsed(MonthOf(F, day), s);
    var q := (MonthOf(F, day) - s) / 3;
    DaysAndMonths(F, day, s + q * 3);
    DaysAndMonths(F, day, s + q * 3 + 3);
  }

  datatype Granularity = ByMonth | ByQuarter | ByYear

  function Step(g: Granularity): nat {
    match g
    case ByMonth => 1
    case ByQuarter => 3
    case ByYear => 12
  }

  /** `i` steps after a month. */
  function At(first: Month, step: nat, i: nat): Month {
    if i == 0 then first else At(first, step, i - 1) + step
  }

  lemma {:induction false} AtIs(first: Month, step: nat, i: nat)
    ensures At(first, step, i) == first + i * step
  {
    if i > 0 {
      AtIs(first, step, i - 1);
      assert i * step == (i - 1) * step + step;
    }
  }

  lemma {:induction false} AtAscends(first: Month, step: nat, i: nat, j: nat)
    requires i < j
    ensures At(first, step, i) + step <= At(first, step, j)
  {
    if i < j - 1 { AtAscends(first, step, i, j - 1); }
  }

  /** Period `i` runs from `i` steps past the first month to `i + 1`. */
  ghost predicate Tiles(F: Calendar, periods: seq<Period>, first: Month, step: nat, count: nat) {
    |periods| == count && forall i :: 0 <= i < count ==> TileAt(F, periods[i], first, step, i)
  }

  ghost predicate TileAt(F: Calendar, p: Period, first: Month, step: nat, i: nat) {
    p.start == F(At(first, step, i)) && p.end == F(At(first, step, i) + step)
  }

  /** The months, the quarters or the one year, in order. */
  method PeriodsInFiscalYear(F: Calendar, fiscalYear: nat, f: int, g: Granularity) returns (periods: seq<Period>)
    requires IsStartMonth(f) && fiscalYear > FIRST_SUPPORTED_YEAR
    ensures Tiles(F, periods, StartMonth(fiscalYear, f), Step(g), 12 / Step(g))
    ensures g != ByMonth ==> forall i :: 0 <= i < |periods| ==> periods[i].fiscalYear == fiscalYear && periods[i].index == i
    ensures g == ByMonth ==> forall i :: 0 <= i < |periods| ==>
              periods[i].fiscalYear == (StartMonth(fiscalYear, f) + i) / 12 && periods[i].index == (StartMonth(fiscalYear, f) + i) % 12
  {
    var year := FiscalYearPeriod(F, fiscalYear, f);
    if g == ByYear {
      return [year];
    }
    var count := if g == ByMonth then 12 else 4;
    var step := if g == ByMonth then 1 else 3;
    ghost var first := StartMonth(fiscalYear, f);
    MonthOfFirstDay(F, first);
    periods := [];
    var i := 0;
    while i < count
      invariant 0 <= i <= count && Tiles(F, periods, first, step, i)
      invariant g == ByQuarter ==> forall k :: 0 <= k < i ==> periods[k].fiscalYear == fiscalYear && periods[k].index == k
      invariant g == ByMonth ==> forall k :: 0 <= k < i ==>
                  periods[k].fiscalYear == (first + k) / 12 && periods[k].index == (first + k) % 12
    {
      var m := At(MonthOf(F, year.start), step, i);
      MonthInYear(first, step, i);
      OpeningOf(F, fiscalYear, f, m, i);
      var period := if g == ByMonth then MonthPeriod(F, F(m)) else QuarterPeriod(F, F(m), f);
      TileAdded(F, periods, period, first, step, i);
      periods := periods + [period];
      i := i + 1;
    }
  }

  lemma TileAdded(F: Calendar, periods: seq<Period>, p: Period, first: Month, step: nat, count: nat)
    requires Tiles(F, periods, first, step, count) && TileAt(F, p, first, step, count)
    ensures Tiles(F, periods + [p], first, step, count + 1)
  {}

  lemma MonthInYear(first: Month, step: nat, i: nat)
    requires (step == 1 && i < 12) || (step == 3 && i < 4)
    ensures first <= At(first, step, i) < first + 12
    ensures step == 3 ==> At(first, step, i) == first + 3 * i
    ensures step == 1 ==> At(first, step, i) == first + i
  {
    AtIs(first, step, i);
  }

  /** The first day of month `m` of a fiscal year, and the month or quarter it opens. */
  lemma OpeningOf(F: Calendar, fiscalYear: nat, f: int, m: Month, quarter: nat)
    requires IsStartMonth(f) && fiscalYear > FIRST_SUPPORTED_YEAR
    requires StartMonth(fiscalYear, f) <= m < StartMonth(fiscalYear, f) + 12
    ensures MonthOf(F, F(m)) == m && Supported(F, F(m))
    ensures m == StartMonth(fiscalYear, f) + 3 * quarter ==>
      QuarterPeriod(F, F(m), f) == Period(F(m), F(m + 3), fiscalYear, quarter)
  {
    MonthOfFirstDay(F, m);
    LabelOfMonth(fiscalYear, f, m - StartMonth(fiscalYear, f));
    QuarterContainsItsDay(F, F(m), f);
  }

  lemma LabelOfMonth(fiscalYear: nat, f: int, offset: nat)
    requires IsStartMonth(f) && fiscalYear > 1 && offset < 12
    ensures var m := StartMonth(fiscalYear, f) + offset;
            fiscalYear == if f == 1 then m / 12 else if m % 12 + 1 >= f then m / 12 + 1 else m / 12
  {}

  /** The tile a day between the first and the last falls in. */
  lemma {:induction false} SlotOf(F: Calendar, first: Month, step: nat, count: nat, day: nat) returns (i: nat)
    requires F(first) <= day < F(At(first, step, count))
    ensures i < count && F(At(first, step, i)) <= day < F(At(first, step, i) + step)
    decreases count
  {
    if count > 0 {
      if day < F(At(first, step, count - 1)) {
        i := SlotOf(F, first, step, count - 1, day);
      } else {
        i := count - 1;
      }
    } else {
      assert false;
    }
  }

  /** Tiles of a year are adjacent, start and end with it, and hold every day of it exactly once. */
  lemma TilesCoverExactly(F: Calendar, periods: seq<Period>, first: Month, step: nat, count: nat, day: nat)
    requires Tiles(F, periods, first, step, count) && count > 0
    ensures periods[0].start == F(first) && periods[count - 1].end == F(At(first, step, count))
    ensures forall i :: 0 <= i < count - 1 ==> periods[i].end == periods[i + 1].start
    ensures F(first) <= day < F(At(first, step, count)) <==> exists i :: 0 <= i < count && Contains(periods[i], day)
    ensures forall i, j :: 0 <= i < j < count ==> !(Contains(periods[i], day) && Contains(periods[j], day))
  {
    TilesAdjoin(F, periods, first, step, count);
    TilesHoldTheYear(F, periods, first, step, count, day);
    forall i, j | 0 <= i < j < count ensures !(Contains(periods[i], day) && Contains(periods[j], day)) {
      assert TileAt(F, periods[i], first, step, i) && TileAt(F, periods[j], first, step, j);
      TilesAreDisjoint(F, periods[i], periods[j], first, step, i, j, day);
    }
  }

  lemma TilesHoldTheYear(F: Calendar, periods: seq<Period>, first: Month, step: nat, count: nat, day: nat)
    requires Tiles(F, periods, first, step, count) && count > 0
    ensures F(first) <= day < F(At(first, step, count)) <==> exists i :: 0 <= i < count && Contains(periods[i], day)
  {
    if F(first) <= day < F(At(first, step, count)) {
      var i := SlotOf(F, first, step, count, day);
      assert TileAt(F, periods[i], first, step, i);
      assert Contains(periods[i], day);
    }
    forall i | 0 <= i < count && Contains(periods[i], day) ensures F(first) <= day < F(At(first, step, count)) {
      assert TileAt(F, periods[i], first, step, i);
      TileIsWithin(F, periods[i], first, step, i, count, day);
    }
  }

  lemma TilesAdjoin(F: Calendar, periods: seq<Period>, first: Month, step: nat, count: nat)
    requires Tiles(F, periods, first, step, count) && count > 0
    ensures periods[0].start == F(first) && periods[count - 1].end == F(At(first, step, count))
    ensures forall i :: 0 <= i < count - 1 ==> periods[i].end == periods[i + 1].start
  {
    assert TileAt(F, periods[0], first, step, 0);
    assert TileAt(F, periods[count - 1], first, step, count - 1);
    forall i | 0 <= i < count - 1 ensures periods[i].end == periods[i + 1].start {
      assert TileAt(F, periods[i], first, step, i) && TileAt(F, periods[i + 1], first, step, i + 1);
    }
  }

  lemma TilesAreDisjoint(F: Calendar, p: Period, q: Period, first: Month, step: nat, i: nat, j: nat, day: nat)
    requires i < j && TileAt(F, p, first, step, i) && TileAt(F, q, first, step, j)
    ensures !(Contains(p, day) && Contains(q, day))
  {
    AtAscends(first, step, i, j);
    Ascends(F, At(first, step, i) + step, At(first, step, j));
  }

  lemma TileIsWithin(F: Calendar, p: Period, first: Month, step: nat, i: nat, count: nat, day: nat)
    requires i < count && TileAt(F, p, first, step, i) && Contains(p, day)
    ensures F(first) <= day < F(At(first, step, count))
  {
    if i > 0 { AtAscends(first, step, 0, i); }
    Ascends(F, first, At(first, step, i));
    AtAscends(first, step, i, count);
    Ascends(F, At(first, step, i) + step, At(first, step, count));
  }

  /** So the months, the quarters or the year itself fill the fiscal year: same first and last day, each
      of its days in exactly one period, and no other day in any. */
  lemma FiscalYearIsTiled(F: Calendar, fiscalYear: nat, f: int, g: Granularity, periods: seq<Period>, day: nat)
    requires IsStartMonth(f) && fiscalYear > 0 && Tiles(F, periods, StartMonth(fiscalYear, f), Step(g), 12 / Step(g))
    ensures |periods| > 0 && var year := FiscalYearPeriod(F, fiscalYear, f);
            && periods[0].start == year.start && periods[|periods| - 1].end == year.end
            && (Contains(year, day) <==> exists i :: 0 <= i < |periods| && Contains(periods[i], day))
            && forall i, j :: 0 <= i < j < |periods| ==> !(Contains(periods[i], day) && Contains(periods[j], day))
  {
    TilesCoverExactly(F, periods, StartMonth(fiscalYear, f), Step(g), 12 / Step(g), day);
    AtIs(StartMonth(fiscalYear, f), Step(g), 12 / Step(g));
  }

  // ---- Budget periods -----------------------------------------------------------------------------

  /** A budget period as stored: both ends are midnights, the last day included. */
  datatype Span = Span(start: int, end: int)

  const MAX_PERIODS: nat := 240

  /** How many periods the loop cuts. */
  function Cuts(F: Calendar, cursor: Month, end: int, step: nat, left: nat): (n: nat)
    ensures n <= left
    decreases left
  {
    if left == 0 || F(cursor) > end then 0 else 1 + Cuts(F, cursor + step, end, step, left - 1)
  }

  function Cut(F: Calendar, start: nat, end: int, step: nat, i: nat): Span {
    var from := At(MonthOf(F, start), step, i);
    Span(if i == 0 then start else F(from), Min(F(from + step) - 1, end))
  }

  function CutPeriods(F: Calendar, start: nat, end: int, step: nat, limit: nat): seq<Span> {
    var n := Cuts(F, MonthOf(F, start), end, step, limit);
    if n == 0 then [Span(start, end)]
    else seq(n, i requires 0 <= i < n => Cut(F, start, end, step, i))
  }

  function Split(F: Calendar, start: nat, end: int, g: Granularity): seq<Span> {
    if g == ByYear then [Span(start, end)] else CutPeriods(F, start, end, Step(g), MAX_PERIODS)
  }

  method SplitIntoPeriods(F: Calendar, start: nat, end: int, g: Granularity) returns (periods: seq<Span>)
    ensures periods == Split(F, start, end, g)
  {
    if g == ByYear {
      return [Span(start, end)];
    }
    var step := if g == ByMonth then 1 else 3;
    periods := CutLoop(F, start, end, step, MAX_PERIODS);
    if |periods| == 0 {
      return [Span(start, end)];
    }
  }

  method CutLoop(F: Calendar, start: nat, end: int, step: nat, limit: nat) returns (periods: seq<Span>)
    ensures |periods| == Cuts(F, MonthOf(F, start), end, step, limit)
    ensures forall i :: 0 <= i < |periods| ==> periods[i] == Cut(F, start, end, step, i)
  {
    periods := [];
    var cursor := MonthOf(F, start);
    var index := 0;
    while index < limit
      invariant 0 <= index <= limit && |periods| == index && cursor == At(MonthOf(F, start), step, index)
      invariant forall i :: 0 <= i < index ==> periods[i] == Cut(F, start, end, step, i)
      invariant Cuts(F, MonthOf(F, start), end, step, limit) == index + Cuts(F, cursor, end, step, limit - index)
    {
      if F(cursor) > end {
        break;
      }
      var next := cursor + step;
      var periodStart := if index == 0 then start else F(cursor);
      var periodEnd := Min(F(next) - 1, end);
      periods := periods + [Span(periodStart, periodEnd)];
      cursor := next;
      index := index + 1;
    }
  }

  predicate Covers(s: Span, day: int) {
    s.start <= day <= s.end
  }

  /** The first day past what that many cuts can reach. */
  function Reach(F: Calendar, start: nat, step: nat, limit: nat): nat {
    F(At(MonthOf(F, start), step, limit))
  }

  lemma {:induction false} CutsCount(F: Calendar, first: Month, end: int, step: nat, i: nat, left: nat)
    ensures var n := Cuts(F, At(first, step, i), end, step, left);
            && (n < left ==> F(At(first, step, i + n)) > end)
            && (n > 0 ==> F(At(first, step, i + n - 1)) <= end)
    decreases left
  {
    if left > 0 && F(At(first, step, i)) <= end {
      CutsCount(F, first, end, step, i + 1, left - 1);
    }
  }

  lemma CutCovers(F: Calendar, start: nat, end: int, step: nat, i: nat, day: nat)
    requires start <= day <= end
    ensures Covers(Cut(F, start, end, step, i), day)
       <==> F(At(MonthOf(F, start), step, i)) <= day < F(At(MonthOf(F, start), step, i) + step)
  {}

  ghost predicate CoveredOnce(periods: seq<Span>, day: int) {
    exists i :: 0 <= i < |periods| && OnlyCover(periods, day, i)
  }

  ghost predicate OnlyCover(periods: seq<Span>, day: int, i: nat)
    requires i < |periods|
  {
    Covers(periods[i], day) && forall j :: 0 <= j < |periods| && Covers(periods[j], day) ==> j == i
  }

  lemma ReachedDayIsCoveredOnce(F: Calendar, start: nat, end: int, step: nat, limit: nat, day: nat)
    requires start <= day <= end && day < Reach(F, start, step, limit)
    ensures CoveredOnce(CutPeriods(F, start, end, step, limit), day)
  {
    var first := MonthOf(F, start);
    var n := Cuts(F, first, end, step, limit);
    CutsCount(F, first, end, step, 0, limit);
    var i := SlotOf(F, first, step, n, day);
    var periods := CutPeriods(F, start, end, step, limit);
    CutCovers(F, start, end, step, i, day);
    forall j | 0 <= j < |periods| && j != i ensures !Covers(periods[j], day) {
      OtherCutMisses(F, start, end, step, i, j, day);
    }
    assert OnlyCover(periods, day, i);
  }

  lemma OtherCutMisses(F: Calendar, start: nat, end: int, step: nat, i: nat, j: nat, day: nat)
    requires start <= day <= end && i != j && Covers(Cut(F, start, end, step, i), day)
    ensures !Covers(Cut(F, start, end, step, j), day)
  {
    var first := MonthOf(F, start);
    CutCovers(F, start, end, step, i, day);
    CutCovers(F, start, end, step, j, day);
    var (a, b) := if i < j then (i, j) else (j, i);
    AtAscends(first, step, a, b);
    Ascends(F, At(first, step, a) + step, At(first, step, b));
  }

  lemma UnreachedDayIsNotCovered(F: Calendar, start: nat, end: int, step: nat, limit: nat, day: nat)
    requires limit > 0 && start <= day <= end && day >= Reach(F, start, step, limit)
    ensures var periods := CutPeriods(F, start, end, step, limit);
            forall i :: 0 <= i < |periods| ==> !Covers(periods[i], day)
  {
    var first := MonthOf(F, start);
    CutsCount(F, first, end, step, 0, limit);
    var periods := CutPeriods(F, start, end, step, limit);
    forall i | 0 <= i < |periods| ensures !Covers(periods[i], day) {
      CutCovers(F, start, end, step, i, day);
      AtAscends(first, step, i, limit);
      Ascends(F, At(first, step, i) + step, At(first, step, limit));
    }
  }

  /** A range is tiled, each of its days in exactly one period, exactly when 240 periods reach past
      its end; a longer monthly or quarterly range leaves the days beyond in no period at all. */
  lemma RangeIsTiledExactlyWhen(F: Calendar, start: nat, end: nat, g: Granularity)
    requires start <= end
    ensures (forall day: nat :: start <= day <= end ==> CoveredOnce(Split(F, start, end, g), day))
       <==> g == ByYear || end < Reach(F, start, Step(g), MAX_PERIODS)
  {
    if g == ByYear {
      forall day: nat | start <= day <= end ensures CoveredOnce(Split(F, start, end, g), day) {
        assert OnlyCover(Split(F, start, end, g), day, 0);
      }
    } else if end < Reach(F, start, Step(g), MAX_PERIODS) {
      forall day: nat | start <= day <= end ensures CoveredOnce(Split(F, start, end, g), day) {
        ReachedDayIsCoveredOnce(F, start, end, Step(g), MAX_PERIODS, day);
      }
    } else {
      UnreachedDayIsNotCovered(F, start, end, Step(g), MAX_PERIODS, end);
      assert !CoveredOnce(Split(F, start, end, g), end);
    }
  }

  /** A line matches a spend by instant: `periodStart <= occurredAt <= periodEnd`, ends at midnight. */
  predicate Matches(s: Span, instant: int) {
    s.start * MS_PER_DAY <= instant <= s.end * MS_PER_DAY
  }

  ghost predicate MatchesOnce(periods: seq<Span>, instant: int) {
    exists i :: 0 <= i < |periods| && OnlyMatch(periods, instant, i)
  }

  ghost predicate OnlyMatch(periods: seq<Span>, instant: int, i: nat)
    requires i < |periods|
  {
    Matches(periods[i], instant) && forall j :: 0 <= j < |periods| && Matches(periods[j], instant) ==> j == i
  }

  predicate MatchesNone(periods: seq<Span>, instant: int) {
    forall i :: 0 <= i < |periods| ==> !Matches(periods[i], instant)
  }

  /** The day is the last of a period that covers it. */
  predicate ClosesAPeriod(periods: seq<Span>, day: int) {
    exists i :: 0 <= i < |periods| && Covers(periods[i], day) && periods[i].end == day
  }

  /** One line and one instant: the line covers the day, and it is not its last or it is midnight, since a
      line ends at the midnight that opens its last day. */
  lemma MatchesByDay(s: Span, instant: nat)
    ensures Matches(s, instant) <==>
            Covers(s, instant / MS_PER_DAY) && (instant % MS_PER_DAY == 0 || instant / MS_PER_DAY != s.end)
  {
    var (d, t) := (instant / MS_PER_DAY, instant % MS_PER_DAY);
    assert instant == d * MS_PER_DAY + t && 0 <= t < MS_PER_DAY;
  }

  lemma CoveredDayMatches(periods: seq<Span>, instant: nat)
    requires CoveredOnce(periods, instant / MS_PER_DAY)
    ensures MatchesOnce(periods, instant)
       <==> instant % MS_PER_DAY == 0 || !ClosesAPeriod(periods, instant / MS_PER_DAY)
    ensures !MatchesOnce(periods, instant) ==> MatchesNone(periods, instant)
  {
    var day := instant / MS_PER_DAY;
    var i :| 0 <= i < |periods| && OnlyCover(periods, day, i);
    forall j | 0 <= j < |periods|
      ensures Matches(periods[j], instant) <==> j == i && (instant % MS_PER_DAY == 0 || day != periods[i].end)
    {
      MatchesByDay(periods[j], instant);
    }
    if Matches(periods[i], instant) { assert OnlyMatch(periods, instant, i); }
    if day == periods[i].end { assert ClosesAPeriod(periods, day); }
  }

  /** The last day of the range, or of a month or quarter that the cutting gets to. */
  predicate IsALastDay(F: Calendar, start: nat, end: nat, g: Granularity, day: nat) {
    day == end || (g != ByYear && EndsItsMonths(F, start, Step(g), MAX_PERIODS, day))
  }

  predicate EndsItsMonths(F: Calendar, start: nat, step: nat, limit: nat, day: nat) {
    exists i: nat :: i < limit && day + 1 == F(At(MonthOf(F, start), step, i) + step)
  }

  /** The loop cuts every period within its limit that starts before the range ends. */
  lemma CutIsMade(F: Calendar, first: Month, end: int, step: nat, limit: nat, i: nat)
    requires i < limit && F(At(first, step, i)) <= end
    ensures i < Cuts(F, first, end, step, limit)
  {
    var n := Cuts(F, first, end, step, limit);
    CutsCount(F, first, end, step, 0, limit);
    if n < i {
      AtAscends(first, step, n, i);
      Ascends(F, At(first, step, n), At(first, step, i));
    }
  }

  lemma LastDayClosesAPeriod(F: Calendar, start: nat, end: nat, step: nat, limit: nat, day: nat)
    requires step > 0 && start <= day <= end && EndsItsMonths(F, start, step, limit, day)
    ensures ClosesAPeriod(CutPeriods(F, start, end, step, limit), day)
  {
    var first := MonthOf(F, start);
    var i: nat :| i < limit && day + 1 == F(At(first, step, i) + step);
    Ascends(F, At(first, step, i), At(first, step, i) + step);
    CutIsMade(F, first, end, step, limit, i);
    var cut := Cut(F, start, end, step, i);
    CutCovers(F, start, end, step, i, day);
    assert CutPeriods(F, start, end, step, limit)[i] == cut && Covers(cut, day) && cut.end == day;
  }

  /** A cut that ends on a day ends there because the range does or because its months do. */
  lemma ClosedByItsMonths(F: Calendar, start: nat, end: nat, step: nat, limit: nat, day: nat)
    requires start <= day < end && ClosesAPeriod(CutPeriods(F, start, end, step, limit), day)
    ensures EndsItsMonths(F, start, step, limit, day)
  {
    var periods := CutPeriods(F, start, end, step, limit);
    var i :| 0 <= i < |periods| && Covers(periods[i], day) && periods[i].end == day;
    assert periods[i] == Cut(F, start, end, step, i);
  }

  /** Whether a day that is reached closes a period can be told from the range alone. */
  lemma CutClosesExactlyWhen(F: Calendar, start: nat, end: nat, step: nat, limit: nat, day: nat)
    requires step > 0 && start <= day <= end && CoveredOnce(CutPeriods(F, start, end, step, limit), day)
    ensures ClosesAPeriod(CutPeriods(F, start, end, step, limit), day)
      <==> day == end || EndsItsMonths(F, start, step, limit, day)
  {
    var periods := CutPeriods(F, start, end, step, limit);
    if day == end {
      LastDayOfRangeCloses(F, start, end, step, limit);
    } else {
      if EndsItsMonths(F, start, step, limit, day) { LastDayClosesAPeriod(F, start, end, step, limit, day); }
      if ClosesAPeriod(periods, day) { ClosedByItsMonths(F, start, end, step, limit, day); }
    }
  }

  lemma LastDayOfRangeCloses(F: Calendar, start: nat, end: nat, step: nat, limit: nat)
    requires start <= end && CoveredOnce(CutPeriods(F, start, end, step, limit), end)
    ensures ClosesAPeriod(CutPeriods(F, start, end, step, limit), end)
  {
    var periods := CutPeriods(F, start, end, step, limit);
    var i :| 0 <= i < |periods| && OnlyCover(periods, end, i);
    assert Covers(periods[i], end) && periods[i].end == end;
  }

  lemma ClosesExactlyWhen(F: Calendar, start: nat, end: nat, g: Granularity, day: nat)
    requires start <= day <= end && CoveredOnce(Split(F, start, end, g), day)
    ensures ClosesAPeriod(Split(F, start, end, g), day) <==> IsALastDay(F, start, end, g, day)
  {
    if g == ByYear {
      assert Covers(Split(F, start, end, g)[0], day);
    } else {
      CutClosesExactlyWhen(F, start, end, Step(g), MAX_PERIODS, day);
    }
  }

  /** A spend inside a budget's range meets exactly one of its lines exactly when the periods reach its
      day and it is at midnight or not on a last day, of the range or of a month or quarter it is cut
      into; otherwise it meets none at all. */
  lemma SpendMeetsOneLineExactlyWhen(F: Calendar, start: nat, end: nat, g: Granularity, instant: nat)
    requires start <= instant / MS_PER_DAY <= end
    ensures MatchesOnce(Split(F, start, end, g), instant)
       <==> (g == ByYear || instant / MS_PER_DAY < Reach(F, start, Step(g), MAX_PERIODS))
            && (instant % MS_PER_DAY == 0 || !IsALastDay(F, start, end, g, instant / MS_PER_DAY))
    ensures !MatchesOnce(Split(F, start, end, g), instant) ==> MatchesNone(Split(F, start, end, g), instant)
  {
    var (periods, day) := (Split(F, start, end, g), instant / MS_PER_DAY);
    if g == ByYear || day < Reach(F, start, Step(g), MAX_PERIODS) {
      if g == ByYear {
        assert OnlyCover(periods, day, 0);
      } else {
        ReachedDayIsCoveredOnce(F, start, end, Step(g), MAX_PERIODS, day);
      }
      CoveredDayMatches(periods, instant);
      ClosesExactlyWhen(F, start, end, g, day);
    } else {
      UnreachedDayIsNotCovered(F, start, end, Step(g), MAX_PERIODS, day);
      forall i | 0 <= i < |periods| ensures !Matches(periods[i], instant) { MatchesByDay(periods[i], instant); }
    }
  }

  /** Spends recorded by date alone each meet exactly one line, exactly in the ranges that are tiled. */
  lemma DatedSpendsMeetOneLineExactlyWhen(F: Calendar, start: nat, end: nat, g: Granularity)
    requires start <= end
    ensures (forall day: nat {:trigger Midnight(day)} :: start <= day <= end ==> MatchesOnce(Split(F, start, end, g), Midnight(day)))
       <==> g == ByYear || end < Reach(F, start, Step(g), MAX_PERIODS)
  {
    forall day: nat | start <= day <= end
      ensures MatchesOnce(Split(F, start, end, g), Midnight(day))
         <==> g == ByYear || day < Reach(F, start, Step(g), MAX_PERIODS)
    {
      assert Midnight(day) / MS_PER_DAY == day && Midnight(day) % MS_PER_DAY == 0;
      SpendMeetsOneLineExactlyWhen(F, start, end, g, Midnight(day));
    }
    assert Midnight(end) >= 0;
  }

  function Midnight(day: nat): nat {
    day * MS_PER_DAY
  }

  /** Any instant after midnight on the last day of any range: no line. */
  lemma RangeEndsAtMidnight(F: Calendar, start: nat, end: nat, g: Granularity, instant: nat)
    requires start <= end == instant / MS_PER_DAY && instant % MS_PER_DAY != 0
    ensures MatchesNone(Split(F, start, end, g), instant)
  {
    var periods := Split(F, start, end, g);
    forall i | 0 <= i < |periods| ensures !Matches(periods[i], instant) {
      assert periods[i].end <= end;
      MatchesByDay(periods[i], instant);
    }
  }

  /** Noon on the last day of a yearly budget, and the first day after 240 months of a monthly one. */
  lemma DaysWithoutALine(F: Calendar, m: Month)
    ensures MatchesNone(Split(F, 739_000, 739_364, ByYear), 739_364 * MS_PER_DAY + 43_200_000)
    ensures MatchesNone(Split(F, F(m), F(m + 240), ByMonth), Midnight(F(m + 240)))
  {
    var noon := 739_364 * MS_PER_DAY + 43_200_000;
    assert noon / MS_PER_DAY == 739_364 && noon % MS_PER_DAY == 43_200_000;
    RangeEndsAtMidnight(F, 739_000, 739_364, ByYear, noon);
    MonthOfFirstDay(F, m);
    AtIs(m, 1, 240);
    Ascends(F, m, m + 240);
    assert Midnight(F(m + 240)) / MS_PER_DAY == F(m + 240);
    SpendMeetsOneLineExactlyWhen(F, F(m), F(m + 240), ByMonth, Midnight(F(m + 240)));
  }
}
