/** Splitting an amount by weights in whole minor units.
    Amounts are integer counts of ten-thousandths, the internal scale of four decimals. */
module Money {
  import opened Wrappers
  import opened Powers

  datatype Error = NoWeights | NegativeWeight | ZeroWeights

  function Abs(x: int): nat {
    if x < 0 then -x else x
  }

  /** Ten-thousandths in one minor unit of a currency: exponents 0, 2 and 3. */
  function UnitOf(exponent: nat): nat
    requires exponent == 0 || exponent == 2 || exponent == 3
  {
    if exponent == 0 then 10_000 else if exponent == 2 then 100 else 10
  }

  /** A minor unit is the currency's exponent of decimal places below a whole one. */
  lemma UnitOfExponent(exponent: nat)
    requires exponent == 0 || exponent == 2 || exponent == 3
    ensures UnitOf(exponent) * Power10(exponent) == 10_000
  {
    assert Power10(1) == 10 && Power10(2) == 100 && Power10(3) == 1000;
  }

  /** Banker's rounding of `n / d`. */
  function RoundHalfEven(n: int, d: nat): int
    requires d > 0
  {
    var (q, r) := (n / d, n % d);
    if 2 * r < d then q else if 2 * r > d then q + 1 else if q % 2 == 0 then q else q + 1
  }

  /** The nearest integer, and at a tie the even one: this determines the result. */
  lemma RoundHalfEvenIsNearest(n: int, d: nat, x: int)
    requires d > 0
    ensures x == RoundHalfEven(n, d) <==> 2 * Abs(n - x * d) < d || (2 * Abs(n - x * d) == d && x % 2 == 0)
  {
    var (q, r) := (n / d, n % d);
    var k := q - x;
    assert n - x * d == k * d + r by { DivMod(n, d); Distribute(q, x, d); }
    MulCases(k, d);
    NearestByOffset(k, k * d, r, d, q);
  }

  lemma NearestByOffset(k: int, kd: int, r: int, d: int, q: int)
    requires 0 <= r < d
    requires (k >= 1 ==> kd >= d) && (k <= -2 ==> kd <= -2 * d) && (k == 0 ==> kd == 0) && (k == -1 ==> kd == -d)
    ensures var rounded := if 2 * r < d then q else if 2 * r > d then q + 1 else if q % 2 == 0 then q else q + 1;
            q - k == rounded <==> 2 * Abs(kd + r) < d || (2 * Abs(kd + r) == d && (q - k) % 2 == 0)
  {}

  lemma MulCases(k: int, d: int)
    requires d > 0
    ensures (k >= 1 ==> k * d >= d) && (k <= -2 ==> k * d <= -2 * d) && (k == 0 ==> k * d == 0) && (k == -1 ==> k * d == -d)
  {
    if k >= 1 { assert (k - 1) * d >= 0; }
    if k <= -2 { assert (-2 - k) * d >= 0; }
  }

  lemma FactorSign(d: int, z: int)
    requires d > 0
    ensures d * z < 0 <==> z < 0
  {
    if z < 0 { assert d * (-z) > 0; } else { assert d * z >= 0; }
  }

  lemma Distribute(a: int, b: int, d: int)
    ensures (a - b) * d == a * d - b * d
  {}

  lemma DivMod(n: int, d: nat)
    requires d > 0
    ensures n == d * (n / d) + n % d && 0 <= n % d < d
  {}

  function RoundToCurrency(amount: int, exponent: nat): int
    requires exponent == 0 || exponent == 2 || exponent == 3
  {
    RoundHalfEven(amount, UnitOf(exponent)) * UnitOf(exponent)
  }

  function ToMinorUnits(amount: int, exponent: nat): int
    requires exponent == 0 || exponent == 2 || exponent == 3
  {
    RoundHalfEven(amount, UnitOf(exponent))
  }

  function FromMinorUnits(minor: int, exponent: nat): int
    requires exponent == 0 || exponent == 2 || exponent == 3
  {
    minor * UnitOf(exponent)
  }

  /** Minor units survive the trip through an amount, and an amount comes back rounded. */
  lemma MinorUnitsRoundTrip(minor: int, amount: int, exponent: nat)
    requires exponent == 0 || exponent == 2 || exponent == 3
    ensures ToMinorUnits(FromMinorUnits(minor, exponent), exponent) == minor
    ensures FromMinorUnits(ToMinorUnits(amount, exponent), exponent) == RoundToCurrency(amount, exponent)
    ensures RoundToCurrency(RoundToCurrency(amount, exponent), exponent) == RoundToCurrency(amount, exponent)
  {
    RoundHalfEvenIsNearest(minor * UnitOf(exponent), UnitOf(exponent), minor);
    var rounded := RoundHalfEven(amount, UnitOf(exponent));
    RoundHalfEvenIsNearest(rounded * UnitOf(exponent), UnitOf(exponent), rounded);
  }

  // ---- Allocation ---------------------------------------------------------------------------------

  function Sum(s: seq<int>): int {
    if s == [] then 0 else Sum(s[..|s| - 1]) + s[|s| - 1]
  }

  predicate Weights(w: seq<int>) {
    forall i :: 0 <= i < |w| ==> w[i] >= 0
  }

  function Positives(w: seq<int>): nat {
    if w == [] then 0 else Positives(w[..|w| - 1]) + if w[|w| - 1] > 0 then 1 else 0
  }

  function TruncatedDivision(n: int, d: nat): int
    requires d > 0
  {
    if n >= 0 then n / d else -((-n) / d)
  }

  /** Each share truncated toward zero. */
  function Truncated(total: int, w: seq<int>, weightSum: nat): (r: seq<int>)
    requires weightSum > 0
    ensures |r| == |w|
  {
    if w == [] then []
    else Truncated(total, w[..|w| - 1], weightSum) + [TruncatedDivision(total * w[|w| - 1], weightSum)]
  }

  lemma {:induction false} TruncatedAt(total: int, w: seq<int>, weightSum: nat, i: nat)
    requires weightSum > 0 && i < |w|
    ensures Truncated(total, w, weightSum)[i] == TruncatedDivision(total * w[i], weightSum)
  {
    if i < |w| - 1 { TruncatedAt(total, w[..|w| - 1], weightSum, i); }
  }

  /** Where index `i` goes in an order by descending weight: after everything at least as heavy. */
  function Position(order: seq<nat>, w: seq<int>, i: nat): (p: nat)
    requires i < |w| && forall c :: 0 <= c < |order| ==> order[c] < |w|
    ensures p <= |order| && (p < |order| ==> w[order[p]] < w[i])
    ensures forall c :: 0 <= c < p ==> w[order[c]] >= w[i]
  {
    if order == [] || w[order[0]] < w[i] then 0 else 1 + Position(order[1..], w, i)
  }

  /** Heavier first, and by index among equals. */
  predicate Before(w: seq<int>, i: nat, j: nat)
    requires i < |w| && j < |w|
  {
    w[i] > w[j] || (w[i] == w[j] && i < j)
  }

  ghost predicate OrderOf(order: seq<nat>, w: seq<int>, n: nat)
    requires n <= |w|
  {
    && |order| == n
    && (forall c :: 0 <= c < n ==> order[c] < n)
    && (forall i :: 0 <= i < n ==> i in order)
    && (forall c, d :: 0 <= c < d < n ==> Before(w, order[c], order[d]))
    && Positives(w[..n]) <= n
    && (forall c :: 0 <= c < n ==> (w[order[c]] > 0 <==> c < Positives(w[..n])))
  }

  ghost predicate InsertedAt(order: seq<nat>, p: nat, x: nat, r: seq<nat>)
    requires p <= |order|
  {
    && |r| == |order| + 1
    && (forall c :: 0 <= c < p ==> r[c] == order[c])
    && r[p] == x
    && (forall c :: p < c < |r| ==> r[c] == order[c - 1])
  }

  function Inserted(order: seq<nat>, p: nat, x: nat): (r: seq<nat>)
    requires p <= |order|
    ensures InsertedAt(order, p, x, r)
  {
    order[..p] + [x] + order[p..]
  }

  /** The first `n` indices in the order the remainder is handed out. */
  function Order(w: seq<int>, n: nat): (order: seq<nat>)
    requires n <= |w|
    ensures |order| == n && forall c :: 0 <= c < n ==> order[c] < n
  {
    if n == 0 then []
    else
      var order := Order(w, n - 1);
      Inserted(order, Position(order, w, n - 1), n - 1)
  }

  lemma {:induction false} OrderIsByWeight(w: seq<int>, n: nat)
    requires n <= |w| && Weights(w)
    ensures OrderOf(Order(w, n), w, n)
  {
    if n == 0 {
      assert w[..0] == [];
    } else {
      OrderIsByWeight(w, n - 1);
      var order := Order(w, n - 1);
      var p := Position(order, w, n - 1);
      var r := Inserted(order, p, n - 1);
      assert Order(w, n) == r;
      InsertedOrder(order, w, n, p, r);
    }
  }

  lemma InsertedOrder(order: seq<nat>, w: seq<int>, n: nat, p: nat, r: seq<nat>)
    requires 0 < n <= |w| && Weights(w) && OrderOf(order, w, n - 1)
    requires p == Position(order, w, n - 1) && InsertedAt(order, p, n - 1, r)
    ensures OrderOf(r, w, n)
  {
    InsertedSorted(order, w, n, p, r);
    InsertedMembers(order, n, p, r);
    OneMorePositive(w, n);
    InsertedPositives(order, w, n, p, r, Positives(w[..n - 1]));
  }

  lemma OneMorePositive(w: seq<int>, n: nat)
    requires 0 < n <= |w|
    ensures Positives(w[..n]) == Positives(w[..n - 1]) + if w[n - 1] > 0 then 1 else 0
  {
    assert w[..n][..n - 1] == w[..n - 1];
  }

  lemma InsertedMembers(order: seq<nat>, n: nat, p: nat, r: seq<nat>)
    requires 0 < n && |order| == n - 1 && p <= |order| && InsertedAt(order, p, n - 1, r)
    requires (forall c :: 0 <= c < |order| ==> order[c] < n - 1) && forall i :: 0 <= i < n - 1 ==> i in order
    ensures (forall c :: 0 <= c < n ==> r[c] < n) && forall i :: 0 <= i < n ==> i in r
  {
    forall i | 0 <= i < n ensures i in r {
      if i < n - 1 {
        assert i in order;
        var c :| 0 <= c < |order| && order[c] == i;
        assert r[if c < p then c else c + 1] == i;
      } else {
        assert r[p] == i;
      }
    }
  }

  lemma InsertedSorted(order: seq<nat>, w: seq<int>, n: nat, p: nat, r: seq<nat>)
    requires 0 < n <= |w| && |order| == n - 1 && p <= |order| && InsertedAt(order, p, n - 1, r)
    requires forall c :: 0 <= c < |order| ==> order[c] < n - 1
    requires forall c, d :: 0 <= c < d < |order| ==> Before(w, order[c], order[d])
    requires (p < |order| ==> w[order[p]] < w[n - 1]) && forall c :: 0 <= c < p ==> w[order[c]] >= w[n - 1]
    ensures forall c, d :: 0 <= c < d < n ==> Before(w, r[c], r[d])
  {
    forall c, d | 0 <= c < d < n ensures Before(w, r[c], r[d]) {
      if c == p && p + 1 < d { assert Before(w, order[p], order[d - 1]); }
    }
  }

  lemma InsertedPositives(order: seq<nat>, w: seq<int>, n: nat, p: nat, r: seq<nat>, q: nat)
    requires 0 < n <= |w| && |order| == n - 1 && p <= |order| && InsertedAt(order, p, n - 1, r)
    requires forall c :: 0 <= c < |order| ==> order[c] < n - 1
    requires (p < |order| ==> w[order[p]] < w[n - 1]) && forall c :: 0 <= c < p ==> w[order[c]] >= w[n - 1]
    requires Weights(w) && q <= n - 1 && forall c :: 0 <= c < |order| ==> (w[order[c]] > 0 <==> c < q)
    ensures forall c :: 0 <= c < n ==> (w[r[c]] > 0 <==> c < q + if w[n - 1] > 0 then 1 else 0)
  {
    assert w[n - 1] >= 0;
    assert forall c :: 0 <= c < |order| ==> w[order[c]] >= 0;
    if p > 0 { assert w[order[p - 1]] >= w[n - 1]; }
  }

  /** `base` with one more `step` on the first `k` of the order. */
  function Bumped(base: seq<int>, order: seq<nat>, k: nat, step: int): (r: seq<int>)
    requires k <= |order|
    ensures |r| == |base|
    ensures forall i :: 0 <= i < |base| ==> r[i] == base[i] + if i in order[..k] then step else 0
  {
    seq(|base|, i requires 0 <= i < |base| => base[i] + if i in order[..k] then step else 0)
  }

  lemma SmallLeft(W: nat, left: int, kept: int, p: nat)
    requires W > 0 && p > 0 && W * left == kept && 0 <= kept <= (W - 1) * p
    ensures 0 <= left < p
  {
    assert (W - 1) * p == W * p - p;
    assert W * (left - p) == W * left - W * p;
    FactorSign(W, left - p);
    FactorSign(W, left);
  }

  lemma WholeRemainder(total: nat, w: seq<int>, W: nat)
    requires Weights(w) && W == Sum(w) && W > 0
    ensures 0 <= total - Sum(Truncated(total, w, W)) < Positives(w)
  {
    var shares := Sum(Truncated(total, w, W));
    PartialRemainder(total, w, W);
    PositiveWeightExists(w);
    Product(W, total, shares);
    SmallLeft(W, total - shares, total * W - W * shares, Positives(w));
  }

  lemma Product(W: int, a: int, b: int)
    ensures W * (a - b) == a * W - W * b
  {}

  /** What truncation leaves over. */
  function Leftover(total: int, w: seq<int>): int
    requires Weights(w) && Sum(w) > 0
  {
    total - Sum(Truncated(total, w, Sum(w)))
  }

  /** It is less than one unit for each positive weight. */
  lemma RemainderIsSmall(total: int, w: seq<int>)
    requires Weights(w) && Sum(w) > 0
    ensures Abs(Leftover(total, w)) < Positives(w)
    ensures (total >= 0 ==> Leftover(total, w) >= 0) && (total <= 0 ==> Leftover(total, w) <= 0)
  {
    WholeRemainder(Abs(total), w, Sum(w));
    if total <= 0 {
      NegatedShares(total, w, Sum(w));
    }
  }

  lemma {:induction false} PartialRemainder(total: nat, w: seq<int>, W: nat)
    requires Weights(w) && W > 0
    ensures 0 <= total * Sum(w) - W * Sum(Truncated(total, w, W)) <= (W - 1) * Positives(w)
  {
    if w != [] {
      var (front, last) := (w[..|w| - 1], w[|w| - 1]);
      PartialRemainder(total, front, W);
      SumAppend(Truncated(total, front, W), TruncatedDivision(total * last, W));
      AddShare(total, W, Sum(front), Sum(Truncated(total, front, W)), last, Positives(front));
    }
  }

  lemma SumAppend(s: seq<int>, x: int)
    ensures Sum(s + [x]) == Sum(s) + x
  {
    assert (s + [x])[..|s|] == s;
  }

  lemma AddShare(total: nat, W: nat, weights: int, shares: int, w: nat, p: nat)
    requires W > 0 && 0 <= total * weights - W * shares <= (W - 1) * p
    ensures var share := TruncatedDivision(total * w, W);
            0 <= total * (weights + w) - W * (shares + share) <= (W - 1) * (if w > 0 then p + 1 else p)
  {
    var x := total * w;
    DivMod(x, W);
    assert total * (weights + w) == total * weights + x;
    assert W * (shares + x / W) == W * shares + W * (x / W);
    assert (W - 1) * (p + 1) == (W - 1) * p + (W - 1);
    assert w == 0 ==> x == 0;
  }

  lemma {:induction false} PositiveWeightExists(w: seq<int>)
    requires Weights(w) && Sum(w) > 0
    ensures Positives(w) > 0
  {
    if w[|w| - 1] == 0 { PositiveWeightExists(w[..|w| - 1]); }
  }

  lemma {:induction false} NegatedShares(total: int, w: seq<int>, W: nat)
    requires total <= 0 && W > 0 && Weights(w)
    ensures Sum(Truncated(total, w, W)) == -Sum(Truncated(-total, w, W))
  {
    if w != [] {
      var (front, last) := (w[..|w| - 1], w[|w| - 1]);
      NegatedShares(total, front, W);
      NegatedShare(total, last, W);
      SumAppend(Truncated(total, front, W), TruncatedDivision(total * last, W));
      SumAppend(Truncated(-total, front, W), TruncatedDivision(-total * last, W));
    }
  }

  lemma NegatedShare(total: int, weight: nat, W: nat)
    requires total <= 0 && W > 0
    ensures TruncatedDivision(total * weight, W) == -TruncatedDivision(-total * weight, W)
  {
    SignOfProduct(-total, weight);
    NegatedProduct(total, weight);
    NegatedDivision(-total * weight, W);
  }

  lemma NegatedProduct(a: int, b: int)
    ensures -a * b == -(a * b)
  {}

  lemma NegatedDivision(x: nat, d: nat)
    requires d > 0
    ensures TruncatedDivision(0 - x, d) == -TruncatedDivision(x, d)
  {
    if x == 0 { ZeroDivided(d); }
  }

  /** The minor units each share gets. */
  function Shares(total: int, w: seq<int>): (r: seq<int>)
    requires Weights(w) && Sum(w) > 0
    ensures |r| == |w|
  {
    RemainderIsSmall(total, w);
    PositivesBounded(w);
    var left := Leftover(total, w);
    Bumped(Truncated(total, w, Sum(w)), Order(w, |w|), Abs(left), if left < 0 then -1 else 1)
  }

  lemma {:induction false} SumUpdate(s: seq<int>, i: nat, x: int)
    requires i < |s|
    ensures Sum(s[i := x]) == Sum(s) - s[i] + x
  {
    if i == |s| - 1 {
      assert s[i := x][..i] == s[..i];
    } else {
      SumUpdate(s[..|s| - 1], i, x);
      assert s[i := x][..|s| - 1] == s[..|s| - 1][i := x];
    }
  }

  predicate NoRepeats(order: seq<nat>, n: nat) {
    (forall c :: 0 <= c < |order| ==> order[c] < n) && forall c, d :: 0 <= c < d < |order| ==> order[c] != order[d]
  }

  lemma OrderHasNoRepeats(w: seq<int>)
    requires Weights(w)
    ensures NoRepeats(Order(w, |w|), |w|) && |Order(w, |w|)| == |w|
  {
    var order := Order(w, |w|);
    OrderIsByWeight(w, |w|);
    forall c, d | 0 <= c < d < |order| ensures order[c] != order[d] { assert Before(w, order[c], order[d]); }
  }

  lemma BumpOne(base: seq<int>, order: seq<nat>, k: nat, step: int)
    requires NoRepeats(order, |base|) && k < |order|
    ensures var before := Bumped(base, order, k, step);
            Bumped(base, order, k + 1, step) == before[order[k] := before[order[k]] + step]
  {
    assert order[..k + 1] == order[..k] + [order[k]];
    assert order[k] !in order[..k];
  }

  lemma {:induction false} SumBumped(base: seq<int>, order: seq<nat>, k: nat, step: int)
    requires NoRepeats(order, |base|) && k <= |order| && (step == 1 || step == -1)
    ensures Sum(Bumped(base, order, k, step)) == if step == 1 then Sum(base) + k else Sum(base) - k
  {
    if k == 0 {
      assert Bumped(base, order, 0, step) == base;
    } else {
      SumBumped(base, order, k - 1, step);
      BumpOne(base, order, k - 1, step);
      var before := Bumped(base, order, k - 1, step);
      SumUpdate(before, order[k - 1], before[order[k - 1]] + step);
    }
  }

  /** Nothing is lost or invented: the shares add up to the total. */
  lemma SharesAddUp(total: int, w: seq<int>)
    requires Weights(w) && Sum(w) > 0
    ensures Sum(Shares(total, w)) == total
  {
    RemainderIsSmall(total, w);
    var base := Truncated(total, w, Sum(w));
    var left := total - Sum(base);
    OrderHasNoRepeats(w);
    PositivesBounded(w);
    SumBumped(base, Order(w, |w|), Abs(left), if left < 0 then -1 else 1);
  }

  /** The order's first entries, as far as the remainder reaches, all have a positive weight. */
  lemma OnlyPositiveBumped(w: seq<int>, k: nat, i: nat)
    requires Weights(w) && k <= Positives(w) && k <= |w| && i < |w| && i in Order(w, |w|)[..k]
    ensures w[i] > 0
  {
    assert w[..|w|] == w;
    OrderIsByWeight(w, |w|);
    EarlyIsPositive(Order(w, |w|), w, Positives(w), k, i);
  }

  lemma EarlyIsPositive(order: seq<nat>, w: seq<int>, q: nat, k: nat, i: nat)
    requires k <= |order| && k <= q && i in order[..k]
    requires forall c :: 0 <= c < |order| ==> order[c] < |w| && (w[order[c]] > 0 <==> c < q)
    ensures i < |w| && w[i] > 0
  {}

  /** From the truncated share `t` to the share: the same, or one unit further from zero. */
  predicate Bump(t: int, share: int, total: int, weight: int) {
    || share == t
    || (weight > 0 && total > 0 && share == t + 1)
    || (weight > 0 && total < 0 && share == t - 1)
  }

  lemma ShareIsBumped(total: int, w: seq<int>, i: nat)
    requires Weights(w) && Sum(w) > 0 && i < |w|
    ensures Bump(Truncated(total, w, Sum(w))[i], Shares(total, w)[i], total, w[i])
  {
    RemainderIsSmall(total, w);
    PositivesBounded(w);
    var left := total - Sum(Truncated(total, w, Sum(w)));
    if i in Order(w, |w|)[..Abs(left)] { OnlyPositiveBumped(w, Abs(left), i); }
  }

  ghost predicate CloseToQuotas(total: int, w: seq<int>, shares: seq<int>) {
    |shares| == |w| && forall i :: 0 <= i < |w| ==> Abs(Sum(w) * shares[i] - total * w[i]) <= Sum(w)
  }

  ghost predicate BumpedQuotas(total: int, w: seq<int>, shares: seq<int>)
    requires Sum(w) > 0
  {
    && |shares| == |w|
    && forall i :: 0 <= i < |w| ==> Bump(Truncated(total, w, Sum(w))[i], shares[i], total, w[i])
  }

  /** Every share is within one minor unit of its exact quota. */
  lemma SharesAreClose(total: int, w: seq<int>)
    requires Weights(w) && Sum(w) > 0
    ensures CloseToQuotas(total, w, Shares(total, w))
  {
    SharesAreBumped(total, w);
    BumpedQuotasAreClose(total, w, Shares(total, w));
  }

  lemma SharesAreBumped(total: int, w: seq<int>)
    requires Weights(w) && Sum(w) > 0
    ensures BumpedQuotas(total, w, Shares(total, w))
  {
    forall i | 0 <= i < |w| ensures Bump(Truncated(total, w, Sum(w))[i], Shares(total, w)[i], total, w[i]) {
      ShareIsBumped(total, w, i);
    }
  }

  lemma BumpedQuotasAreClose(total: int, w: seq<int>, shares: seq<int>)
    requires Weights(w) && Sum(w) > 0 && BumpedQuotas(total, w, shares)
    ensures CloseToQuotas(total, w, shares)
  {
    forall i | 0 <= i < |w| ensures Abs(Sum(w) * shares[i] - total * w[i]) <= Sum(w) {
      BumpedQuotaIsClose(total, w, Sum(w), i, shares[i]);
    }
  }

  lemma BumpedQuotaIsClose(total: int, w: seq<int>, W: nat, i: nat, share: int)
    requires Weights(w) && W > 0 && i < |w| && Bump(Truncated(total, w, W)[i], share, total, w[i])
    ensures Abs(W * share - total * w[i]) <= W
  {
    TruncatedAt(total, w, W, i);
    SignOfProduct(total, w[i]);
    BumpIsClose(total * w[i], W, Truncated(total, w, W)[i], share);
  }

  /** A zero weight gets nothing. */
  lemma ZeroWeightGetsNothing(total: int, w: seq<int>, i: nat)
    requires Weights(w) && Sum(w) > 0 && i < |w| && w[i] == 0
    ensures Shares(total, w)[i] == 0
  {
    ShareIsBumped(total, w, i);
    TruncatedAt(total, w, Sum(w), i);
    ZeroDivided(Sum(w));
  }

  lemma BumpIsClose(n: int, W: nat, t: int, share: int)
    requires W > 0 && t == TruncatedDivision(n, W)
    requires share == t || (n >= 0 && share == t + 1) || (n <= 0 && share == t - 1)
    ensures Abs(W * share - n) <= W
  {
    TruncationError(n, W);
    NextMultiple(W, t);
  }

  lemma NextMultiple(W: int, t: int)
    ensures W * (t + 1) == W * t + W && W * (t - 1) == W * t - W
  {}

  lemma ZeroDivided(d: nat)
    requires d > 0
    ensures TruncatedDivision(0, d) == 0
  {
    DivMod(0, d);
    FactorSign(d, 0 / d);
    FactorSign(d, -(0 / d));
  }

  lemma {:induction false} PositivesBounded(w: seq<int>)
    ensures Positives(w) <= |w|
  {
    if w != [] { PositivesBounded(w[..|w| - 1]); }
  }

  lemma SignOfProduct(a: int, b: nat)
    ensures a >= 0 ==> a * b >= 0
    ensures a <= 0 ==> a * b <= 0
  {}

  lemma TruncationError(n: int, d: nat)
    requires d > 0
    ensures n >= 0 ==> 0 <= n - d * TruncatedDivision(n, d) < d
    ensures n <= 0 ==> 0 <= d * TruncatedDivision(n, d) - n < d
  {
    if n < 0 {
      var q := (-n) / d;
      assert -n == d * q + (-n) % d;
      assert d * (-q) == -(d * q);
    } else {
      assert n == d * (n / d) + n % d;
    }
  }

  /** Whoever is served from the order, everybody heavier is served too, and of equals the earlier. */
  lemma EarlierServedFirst(w: seq<int>, k: nat, i: nat, j: nat)
    requires Weights(w) && k <= |w| && i < |w| && j < |w| && j in Order(w, |w|)[..k]
    requires w[i] > w[j] || (w[i] == w[j] && i < j)
    ensures i in Order(w, |w|)[..k]
  {
    OrderIsByWeight(w, |w|);
    EarlierServed(Order(w, |w|), w, k, i, j);
  }

  lemma EarlierServed(order: seq<nat>, w: seq<int>, k: nat, i: nat, j: nat)
    requires k <= |order| && i < |w| && j < |w| && j in order[..k] && i in order
    requires w[i] > w[j] || (w[i] == w[j] && i < j)
    requires forall e :: 0 <= e < |order| ==> order[e] < |w|
    requires forall e, f :: 0 <= e < f < |order| ==> Before(w, order[e], order[f])
    ensures i in order[..k]
  {
    var d :| 0 <= d < k && order[..k][d] == j;
    var c :| 0 <= c < |order| && order[c] == i;
    PrecedesInOrder(order, w, c, d);
    assert order[..k][c] == i;
  }

  lemma PrecedesInOrder(order: seq<nat>, w: seq<int>, c: nat, d: nat)
    requires c < |order| && d < |order| && forall e :: 0 <= e < |order| ==> order[e] < |w|
    requires forall e, f :: 0 <= e < f < |order| ==> Before(w, order[e], order[f])
    requires w[order[c]] > w[order[d]] || (w[order[c]] == w[order[d]] && order[c] < order[d])
    ensures c < d
  {}

  /** More of the total, in size, than its weight's exact part. */
  predicate AboveQuota(total: int, w: seq<int>, i: nat)
    requires Weights(w) && Sum(w) > 0 && i < |w|
  {
    Sum(w) * Abs(Shares(total, w)[i]) > Abs(total) * w[i]
  }

  lemma LeftoverIsSmall(total: int, w: seq<int>)
    requires Weights(w) && Sum(w) > 0
    ensures Abs(Leftover(total, w)) <= |w|
    ensures (Leftover(total, w) > 0 ==> total > 0) && (Leftover(total, w) < 0 ==> total < 0)
  {
    RemainderIsSmall(total, w);
    PositivesBounded(w);
  }

  /** Whether index `i` is among those served. */
  predicate Served(total: int, w: seq<int>, i: nat)
    requires Weights(w) && Sum(w) > 0
  {
    LeftoverIsSmall(total, w);
    i in Order(w, |w|)[..Abs(Leftover(total, w))]
  }

  /** Whoever is served is above their exact part, and nobody else is. */
  lemma ServedExactly(total: int, w: seq<int>, i: nat)
    requires Weights(w) && Sum(w) > 0 && i < |w|
    ensures AboveQuota(total, w, i) <==> Served(total, w, i)
  {
    LeftoverIsSmall(total, w);
    ShareByService(total, w, i);
    if Served(total, w, i) {
      BeyondQuota(total, w[i], Sum(w), if Leftover(total, w) < 0 then -1 else 1);
    } else {
      WithinQuota(total, w[i], Sum(w));
    }
  }

  lemma ShareByService(total: int, w: seq<int>, i: nat)
    requires Weights(w) && Sum(w) > 0 && i < |w|
    ensures var step := if Leftover(total, w) < 0 then -1 else 1;
            Shares(total, w)[i] == TruncatedDivision(total * w[i], Sum(w)) + if Served(total, w, i) then step else 0
    ensures Served(total, w, i) ==> Leftover(total, w) != 0
  {
    TruncatedAt(total, w, Sum(w), i);
  }

  /** The leftover units go to the heaviest first, and of equals to the earlier: nobody is above their exact
      part unless everybody before them is. */
  lemma LeftoverGoesInOrder(total: int, w: seq<int>, i: nat, j: nat)
    requires Weights(w) && Sum(w) > 0 && i < |w| && j < |w| && AboveQuota(total, w, j)
    requires w[i] > w[j] || (w[i] == w[j] && i < j)
    ensures AboveQuota(total, w, i)
  {
    ServedExactly(total, w, i);
    ServedExactly(total, w, j);
    LeftoverIsSmall(total, w);
    EarlierServedFirst(w, Abs(Leftover(total, w)), i, j);
  }

  lemma WithinQuota(total: int, weight: nat, W: nat)
    requires W > 0
    ensures W * Abs(TruncatedDivision(total * weight, W)) <= Abs(total) * weight
  {
    SignOfProduct(total, weight);
    TruncationError(total * weight, W);
    TruncationSign(total * weight, W);
    AbsProduct(total, weight);
  }

  lemma BeyondQuota(total: int, weight: nat, W: nat, step: int)
    requires W > 0 && total != 0 && step == if total < 0 then -1 else 1
    ensures W * Abs(TruncatedDivision(total * weight, W) + step) > Abs(total) * weight
  {
    SignOfProduct(total, weight);
    TruncationError(total * weight, W);
    TruncationSign(total * weight, W);
    AbsProduct(total, weight);
    NextMultiple(W, TruncatedDivision(total * weight, W));
  }

  lemma TruncationSign(n: int, d: nat)
    requires d > 0
    ensures n >= 0 ==> TruncatedDivision(n, d) >= 0
    ensures n <= 0 ==> TruncatedDivision(n, d) <= 0
  {
    TruncationError(n, d);
    FactorSign(d, TruncatedDivision(n, d));
    FactorSign(d, -TruncatedDivision(n, d));
  }

  lemma AbsProduct(a: int, b: nat)
    ensures Abs(a * b) == Abs(a) * b
  {
    SignOfProduct(a, b);
  }

  /** A larger weight never gets less of a non-negative total, nor more of a non-positive one. */
  lemma LargerWeightGetsNoLess(total: int, w: seq<int>, i: nat, j: nat)
    requires Weights(w) && Sum(w) > 0 && i < |w| && j < |w| && w[i] > w[j]
    ensures total >= 0 ==> Shares(total, w)[i] >= Shares(total, w)[j]
    ensures total <= 0 ==> Shares(total, w)[i] <= Shares(total, w)[j]
  {
    LeftoverIsSmall(total, w);
    ShareByService(total, w, i);
    ShareByService(total, w, j);
    if Served(total, w, j) { EarlierServedFirst(w, Abs(Leftover(total, w)), i, j); }
    TruncationIsMonotone(total, w[i], w[j], Sum(w));
  }

  lemma TruncationIsMonotone(total: int, a: nat, b: nat, W: nat)
    requires W > 0 && a >= b
    ensures total >= 0 ==> TruncatedDivision(total * a, W) >= TruncatedDivision(total * b, W)
    ensures total <= 0 ==> TruncatedDivision(total * a, W) <= TruncatedDivision(total * b, W)
  {
    SignOfProduct(total, a);
    SignOfProduct(total, b);
    ProductIsMonotone(total, a, b);
    TruncatedIsMonotone(total * b, total * a, W);
    TruncatedIsMonotone(total * a, total * b, W);
  }

  lemma ProductIsMonotone(total: int, a: nat, b: nat)
    requires a >= b
    ensures total >= 0 ==> total * a >= total * b
    ensures total <= 0 ==> total * a <= total * b
  {
    SignOfProduct(total, a - b);
    assert total * a == total * b + total * (a - b);
  }

  lemma TruncatedIsMonotone(x: int, y: int, d: nat)
    requires d > 0
    ensures 0 <= x <= y ==> TruncatedDivision(x, d) <= TruncatedDivision(y, d)
    ensures x <= y <= 0 ==> TruncatedDivision(x, d) <= TruncatedDivision(y, d)
  {
    if 0 <= x <= y { DivisionIsMonotone(x, y, d); }
    if x <= y <= 0 {
      DivisionIsMonotone(-y, -x, d);
      NegatedDivision(-y, d);
      NegatedDivision(-x, d);
    }
  }

  lemma DivisionIsMonotone(a: nat, b: nat, d: nat)
    requires d > 0 && a <= b
    ensures a / d <= b / d
  {
    DivMod(a, d);
    DivMod(b, d);
    QuotientBound(a / d, b / d, d, b % d);
  }

  lemma QuotientBound(p: int, q: int, d: nat, r: nat)
    requires d > 0 && r < d && d * p <= d * q + r
    ensures p <= q
  {
    assert d * (p - q - 1) == d * p - d * q - d;
    FactorSign(d, p - q - 1);
  }

  method TruncateShares(totalMinor: int, weights: seq<int>, total: nat) returns (shares: seq<int>, distributed: int)
    requires total > 0
    ensures shares == Truncated(totalMinor, weights, total) && distributed == Sum(shares)
  {
    shares, distributed := [], 0;
    var i := 0;
    while i < |weights|
      invariant 0 <= i <= |weights|
      invariant shares == Truncated(totalMinor, weights[..i], total) && distributed == Sum(shares)
    {
      var share := TruncatedDivision(totalMinor * weights[i], total);
      SumAppend(shares, share);
      assert weights[..i + 1][..i] == weights[..i];
      shares := shares + [share];
      distributed := distributed + share;
      i := i + 1;
    }
    assert weights[..i] == weights;
  }

  /** The leftover units go round the order from its start, a unit each, toward the sign of the leftover. */
  method HandOut(base: seq<int>, left: int, order: seq<nat>) returns (shares: seq<int>)
    requires NoRepeats(order, |base|) && Abs(left) < |order|
    ensures shares == Bumped(base, order, Abs(left), if left < 0 then -1 else 1)
  {
    var remainder := left;
    var step := if remainder < 0 then -1 else 1;
    var cursor := 0;
    shares := base;
    assert Bumped(base, order, 0, step) == base;
    while remainder != 0
      invariant 0 <= cursor <= Abs(left) && remainder == if left < 0 then left + cursor else left - cursor
      invariant shares == Bumped(base, order, cursor, step)
      decreases Abs(remainder)
    {
      SmallModulus(cursor, |order|);
      var target := order[cursor % |order|];
      BumpOne(base, order, cursor, step);
      shares := shares[target := shares[target] + step];
      remainder := remainder - step;
      cursor := cursor + 1;
    }
  }

  lemma SmallModulus(a: nat, d: nat)
    requires a < d
    ensures a % d == a
  {}

  /** The split in whole minor units. */
  method AllocateMinor(totalMinor: int, weights: seq<int>, total: nat) returns (shares: seq<int>)
    requires Weights(weights) && total == Sum(weights) && total > 0
    ensures shares == Shares(totalMinor, weights)
  {
    var base, distributed := TruncateShares(totalMinor, weights, total);
    RemainderIsSmall(totalMinor, weights);
    PositivesBounded(weights);
    OrderHasNoRepeats(weights);
    shares := HandOut(base, totalMinor - distributed, Order(weights, |weights|));
  }

  function Scaled(shares: seq<int>, unit: nat): (r: seq<int>)
    ensures |r| == |shares| && forall i :: 0 <= i < |r| ==> r[i] == shares[i] * unit
  {
    seq(|shares|, i requires 0 <= i < |shares| => shares[i] * unit)
  }

  function WeightProblem(w: seq<int>): Option<Error> {
    if w == [] then Some(NoWeights)
    else if !Weights(w) then Some(NegativeWeight)
    else if Sum(w) == 0 then Some(ZeroWeights)
    else None
  }

  /** `allocate`: into minor units, split, and back to amounts that add up to the rounded whole. */
  method Allocate(amount: int, exponent: nat, weights: seq<int>) returns (refused: Option<Error>, parts: seq<int>)
    requires exponent == 0 || exponent == 2 || exponent == 3
    ensures refused == WeightProblem(weights)
    ensures refused == Some(NoWeights) <==> |weights| == 0
    ensures refused == Some(NegativeWeight) <==> exists i :: 0 <= i < |weights| && weights[i] < 0
    ensures refused == Some(ZeroWeights) <==> |weights| > 0 && forall i :: 0 <= i < |weights| ==> weights[i] == 0
    ensures refused == None ==> Weights(weights) && Sum(weights) > 0
    ensures refused == None ==> parts == Scaled(Shares(ToMinorUnits(amount, exponent), weights), UnitOf(exponent))
    ensures refused == None ==> |parts| == |weights| && Sum(parts) == RoundToCurrency(amount, exponent)
  {
    parts := [];
    if |weights| == 0 {
      return Some(NoWeights), [];
    }
    if exists i :: 0 <= i < |weights| && weights[i] < 0 {
      return Some(NegativeWeight), [];
    }
    SumOfWeights(weights);
    ZeroSum(weights);
    var total := Sum(weights);
    if total == 0 {
      return Some(ZeroWeights), [];
    }
    var totalMinor := ToMinorUnits(amount, exponent);
    var shares := AllocateMinor(totalMinor, weights, total);
    SharesAddUp(totalMinor, weights);
    parts := Scaled(shares, UnitOf(exponent));
    SumScaled(shares, parts, UnitOf(exponent));
    refused := None;
  }

  lemma {:induction false} SumOfWeights(w: seq<int>)
    requires Weights(w)
    ensures Sum(w) >= 0
  {
    if w != [] { SumOfWeights(w[..|w| - 1]); }
  }

  lemma {:induction false} ZeroSum(w: seq<int>)
    requires Weights(w)
    ensures Sum(w) == 0 <==> forall i :: 0 <= i < |w| ==> w[i] == 0
  {
    if w != [] {
      var (front, last) := (w[..|w| - 1], w[|w| - 1]);
      ZeroSum(front);
      SumOfWeights(front);
      if forall i :: 0 <= i < |w| ==> w[i] == 0 { assert forall i :: 0 <= i < |front| ==> front[i] == w[i]; }
      if Sum(w) == 0 { assert forall i :: 0 <= i < |w| ==> w[i] == if i < |front| then front[i] else last; }
    }
  }

  lemma {:induction false} SumScaled(s: seq<int>, t: seq<int>, unit: int)
    requires |s| == |t| && forall i :: 0 <= i < |s| ==> t[i] == s[i] * unit
    ensures Sum(t) == Sum(s) * unit
  {
    if s != [] { SumScaled(s[..|s| - 1], t[..|t| - 1], unit); }
  }
}
