/** Decimal amounts as strings: comparing them digit by digit, and writing them out. */
module DecimalStrings {
  import opened Lexicographic
  import opened Powers

  predicate IsDigit(c: char) {
    '0' <= c <= '9'
  }

  predicate AllDigits(s: string) {
    forall i :: 0 <= i < |s| ==> IsDigit(s[i])
  }

  predicate AllZeros(s: string) {
    forall i :: 0 <= i < |s| ==> s[i] == '0'
  }

  function DigitOf(c: char): nat
    requires IsDigit(c)
  {
    c as int - 48
  }

  function CharOf(d: nat): (c: char)
    requires d < 10
    ensures IsDigit(c) && DigitOf(c) == d
  {
    (d + 48) as char
  }

  function NatOf(s: string): nat
    requires AllDigits(s)
  {
    if s == "" then 0 else NatOf(s[..|s| - 1]) * 10 + DigitOf(s[|s| - 1])
  }

  // ---- Parsing ------------------------------------------------------------------------------------

  function UpToDot(s: string): (r: string)
    ensures |r| <= |s| && r == s[..|r|] && (|r| < |s| ==> s[|r|] == '.')
    ensures '.' !in r
  {
    if s == "" || s[0] == '.' then "" else [s[0]] + UpToDot(s[1..])
  }

  /** The second part of `split('.')`, or the empty default. */
  function AfterDot(s: string): string {
    var i := UpToDot(s);
    if |i| == |s| then "" else UpToDot(s[|i| + 1..])
  }

  /** `replace(/^0+(?=\d)/, '')`. */
  function StripZeros(s: string): (r: string)
    ensures AllDigits(s) ==> AllDigits(r)
    ensures s != "" ==> r != ""
  {
    if |s| > 1 && s[0] == '0' && IsDigit(s[1]) then StripZeros(s[1..]) else s
  }

  datatype Parsed = Parsed(negative: bool, integer: string, fraction: string)

  function Unsigned(s: string): string {
    if s != "" && (s[0] == '+' || s[0] == '-') then s[1..] else s
  }

  function Parse(s: string): Parsed {
    Parsed(s != "" && s[0] == '-', StripZeros(UpToDot(Unsigned(s))), AfterDot(Unsigned(s)))
  }

  predicate IsZero(p: Parsed) {
    AllZeros(p.integer) && AllZeros(p.fraction)
  }

  function PadEnd(s: string, width: nat): (r: string)
    ensures |r| == if |s| < width then width else |s|
    ensures AllDigits(s) ==> AllDigits(r)
  {
    if |s| < width then s + seq(width - |s|, _ => '0') else s
  }

  function CompareStrings(a: string, b: string): int {
    if a == b then 0 else if LexLess(a, b) then -1 else 1
  }

  function CompareMagnitudes(a: Parsed, b: Parsed): int {
    if |a.integer| != |b.integer| then (if |a.integer| < |b.integer| then -1 else 1)
    else if a.integer != b.integer then CompareStrings(a.integer, b.integer)
    else
      var width := if |a.fraction| > |b.fraction| then |a.fraction| else |b.fraction|;
      CompareStrings(PadEnd(a.fraction, width), PadEnd(b.fraction, width))
  }

  function CompareDecimalStrings(left: string, right: string): int {
    CompareParsed(Parse(left), Parse(right))
  }

  function CompareParsed(a: Parsed, b: Parsed): int {
    if IsZero(a) && IsZero(b) then 0
    else if a.negative != b.negative then (if a.negative then -1 else 1)
    else CompareMagnitudes(a, b) * if a.negative then -1 else 1
  }

  /** A leading plus makes no difference. */
  lemma PlusChangesNothing(body: string, other: string)
    requires body == "" || body[0] !in {'+', '-'}
    ensures CompareDecimalStrings("+" + body, other) == CompareDecimalStrings(body, other)
    ensures CompareDecimalStrings(other, "+" + body) == CompareDecimalStrings(other, body)
  {
    assert Unsigned("+" + body) == body;
  }

  // ---- What the strings mean ----------------------------------------------------------------------

  /** What the schema accepts: an optional minus, 1 to 16 digits, and 1 to 4 decimals after a dot. */
  predicate Accepted(s: string) {
    AcceptedBody(Body(s))
  }

  /** Without a leading minus. */
  function Body(s: string): string {
    if s != "" && s[0] == '-' then s[1..] else s
  }

  predicate AcceptedBody(body: string) {
    var integer := UpToDot(body);
    && 1 <= |integer| <= 16 && AllDigits(integer)
    && (|integer| < |body| ==>
          var fraction := body[|integer| + 1..];
          1 <= |fraction| <= 4 && AllDigits(fraction))
  }

  /** The digits after the dot, if there is one. */
  function Decimals(body: string): string {
    if |UpToDot(body)| < |body| then body[|UpToDot(body)| + 1..] else ""
  }

  /** The amount in ten-thousandths: a leading minus negates it, and what comes before the dot counts whole
      units and each of up to four places after it a tenth of the one before. */
  function Amount(s: string): int
    requires Accepted(s)
  {
    var (whole, places) := (UpToDot(Body(s)), Decimals(Body(s)));
    var size := NatOf(whole) * 10_000 + NatOf(places) * Power10(4 - |places|);
    if s[0] == '-' then -size else size
  }

  function Magnitude(integer: string, fraction: string): (r: nat)
    requires AllDigits(integer) && AllDigits(fraction) && |fraction| <= 4
  {
    NatOf(integer) * 10_000 + NatOf(PadEnd(fraction, 4))
  }

  lemma {:induction false} NoDotUpTo(s: string)
    requires '.' !in s
    ensures UpToDot(s) == s
  {
    if s != "" { NoDotUpTo(s[1..]); }
  }

  lemma PartsKnown(s: string)
    requires Accepted(s)
    ensures var body := Unsigned(s);
            && AcceptedBody(body) && AllDigits(AfterDot(body)) && |AfterDot(body)| <= 4
            && AllDigits(Parse(s).integer) && Parse(s).integer != ""
            && body == Body(s) && (AfterDot(body) == "" <==> UpToDot(body) == body)
            && body == (if AfterDot(body) == "" then UpToDot(body) else UpToDot(body) + "." + AfterDot(body))
  {
    var body := Body(s);
    HalvesOf(body);
    assert UpToDot(body)[0] == body[0];
    assert body == Unsigned(s);
  }

  lemma HalvesOf(body: string)
    requires AcceptedBody(body)
    ensures AfterDot(body) == Decimals(body)
    ensures AllDigits(AfterDot(body)) && |AfterDot(body)| <= 4
    ensures AfterDot(body) == "" <==> UpToDot(body) == body
    ensures body == if AfterDot(body) == "" then UpToDot(body) else UpToDot(body) + "." + AfterDot(body)
  {
    var i := UpToDot(body);
    if |i| < |body| {
      NoDotUpTo(body[|i| + 1..]);
      Rejoined(body, |i|);
    }
  }

  lemma Rejoined(body: string, n: nat)
    requires n < |body| && body[n] == '.'
    ensures body == body[..n] + "." + body[n + 1..]
  {}

  lemma {:induction false} NatOfConcat(a: string, b: string)
    requires AllDigits(a) && AllDigits(b)
    ensures AllDigits(a + b) && NatOf(a + b) == NatOf(a) * Power10(|b|) + NatOf(b)
  {
    if b == "" {
      assert a + b == a;
    } else {
      var c := b[..|b| - 1];
      NatOfConcat(a, c);
      assert (a + b)[..|a + b| - 1] == a + c;
      assert NatOf(a) * (10 * Power10(|c|)) == 10 * (NatOf(a) * Power10(|c|));
    }
  }

  lemma {:induction false} NatOfBound(s: string)
    requires AllDigits(s)
    ensures NatOf(s) < Power10(|s|)
  {
    if s != "" { NatOfBound(s[..|s| - 1]); }
  }

  lemma {:induction false} NatOfInjective(a: string, b: string)
    requires AllDigits(a) && AllDigits(b) && |a| == |b| && NatOf(a) == NatOf(b)
    ensures a == b
  {
    if a != "" {
      NatOfInjective(a[..|a| - 1], b[..|b| - 1]);
      assert a == a[..|a| - 1] + [a[|a| - 1]] && b == b[..|b| - 1] + [b[|b| - 1]];
    }
  }

  lemma {:induction false} SmallerDiffersFirst(a: string, b: string) returns (i: nat)
    requires AllDigits(a) && AllDigits(b) && |a| == |b| && NatOf(a) < NatOf(b)
    ensures i < |a| && a[..i] == b[..i] && a[i] < b[i]
  {
    var (pa, pb) := (a[..|a| - 1], b[..|b| - 1]);
    if NatOf(pa) < NatOf(pb) {
      i := SmallerDiffersFirst(pa, pb);
      assert a[..i] == pa[..i] && b[..i] == pb[..i];
    } else {
      NatOfInjective(pa, pb);
      i := |a| - 1;
    }
  }

  function Sign(n: int): int {
    if n < 0 then -1 else if n > 0 then 1 else 0
  }

  /** Digit strings of one length compare as the numbers they spell. */
  lemma CompareDigits(a: string, b: string)
    requires AllDigits(a) && AllDigits(b) && |a| == |b|
    ensures CompareStrings(a, b) == Sign(NatOf(a) - NatOf(b))
  {
    if NatOf(a) < NatOf(b) {
      var i := SmallerDiffersFirst(a, b);
      FirstDifference(a, b, i);
    } else if NatOf(b) < NatOf(a) {
      var i := SmallerDiffersFirst(b, a);
      FirstDifference(b, a, i);
      NotBoth(a, b);
    } else {
      NatOfInjective(a, b);
    }
  }

  lemma NotBoth(a: string, b: string)
    requires LexLess(b, a)
    ensures !LexLess(a, b)
  {
    if LexLeq(a, b) { LexAntisymmetric(a, b); }
  }

  lemma {:induction false} ZerosAreZero(s: string)
    requires AllDigits(s)
    ensures AllZeros(s) <==> NatOf(s) == 0
  {
    if s != "" {
      ZerosAreZero(s[..|s| - 1]);
      assert AllZeros(s) <==> AllZeros(s[..|s| - 1]) && s[|s| - 1] == '0';
    }
  }

  lemma {:induction false} StripKeepsValue(s: string)
    requires AllDigits(s) && s != ""
    ensures NatOf(StripZeros(s)) == NatOf(s)
    ensures |StripZeros(s)| > 1 ==> StripZeros(s)[0] != '0'
  {
    if |s| > 1 && s[0] == '0' {
      StripKeepsValue(s[1..]);
      NatOfConcat(s[..1], s[1..]);
      assert s[..1] + s[1..] == s;
      assert NatOf(s[..1]) == 0;
    }
  }

  /** Without leading zeros a longer integer is a larger one. */
  lemma LongerIsLarger(a: string, b: string)
    requires AllDigits(a) && AllDigits(b) && a != "" && |a| < |b| && b[0] != '0'
    ensures NatOf(a) < NatOf(b)
  {
    NatOfBound(a);
    NatOfConcat(b[..1], b[1..]);
    assert b[..1] + b[1..] == b;
    OneDigit(b[0]);
    assert b[..1] == [b[0]];
    AtLeast(NatOf(b[..1]), Power10(|b| - 1));
    PowerMonotone(|a|, |b| - 1);
  }

  lemma AtLeast(x: nat, k: nat)
    requires x >= 1
    ensures x * k >= k
  {
    assert (x - 1) * k >= 0;
  }

  lemma OneDigit(c: char)
    requires IsDigit(c)
    ensures NatOf([c]) == DigitOf(c)
  {
    assert [c][..0] == "";
  }

  lemma {:induction false} PowerMonotone(m: nat, n: nat)
    requires m <= n
    ensures Power10(m) <= Power10(n)
  {
    if m < n { PowerMonotone(m, n - 1); }
  }

  lemma NatOfPush(s: string, d: nat)
    requires AllDigits(s) && d < 10
    ensures NatOf(s + [CharOf(d)]) == NatOf(s) * 10 + d
  {
    assert (s + [CharOf(d)])[..|s|] == s;
  }

  lemma PadFurther(s: string, w: nat, v: nat) returns (zeros: string)
    requires |s| <= w <= v
    ensures zeros == seq(v - w, _ => '0') && PadEnd(s, v) == PadEnd(s, w) + zeros
  {
    zeros := seq(v - w, _ => '0');
  }

  /** Strings of one length compare alike when both are followed by the same. */
  lemma {:induction false} SuffixKeepsOrder(x: string, y: string, z: string)
    requires |x| == |y|
    ensures LexLeq(x + z, y + z) <==> LexLeq(x, y)
  {
    if x == "" {
      assert x + z == z && y + z == z;
      PrefixIsLower(z, z);
    } else {
      SuffixKeepsOrder(x[1..], y[1..], z);
      assert (x + z)[1..] == x[1..] + z && (y + z)[1..] == y[1..] + z;
    }
  }

  lemma CompareWithSuffix(x: string, y: string, z: string)
    requires |x| == |y|
    ensures CompareStrings(x + z, y + z) == CompareStrings(x, y)
  {
    SuffixKeepsOrder(x, y, z);
    assert (x + z)[..|x|] == x && (y + z)[..|y|] == y;
  }

  lemma PadKeepsZeros(s: string, width: nat)
    ensures AllZeros(PadEnd(s, width)) <==> AllZeros(s)
  {
    assert forall i :: 0 <= i < |s| ==> PadEnd(s, width)[i] == s[i];
  }

  /** The common width is as good as any larger one. */
  lemma WiderIsNoDifferent(a: string, b: string, w: nat, v: nat)
    requires |a| <= w <= v && |b| <= w
    ensures CompareStrings(PadEnd(a, w), PadEnd(b, w)) == CompareStrings(PadEnd(a, v), PadEnd(b, v))
  {
    var zeros := PadFurther(a, w, v);
    var same := PadFurther(b, w, v);
    assert zeros == same;
    CompareWithSuffix(PadEnd(a, w), PadEnd(b, w), zeros);
  }

  lemma ComparePadded(a: string, b: string, places: nat)
    requires AllDigits(a) && AllDigits(b) && |a| <= places && |b| <= places
    ensures CompareStrings(PadEnd(a, places), PadEnd(b, places)) == Sign(NatOf(PadEnd(a, places)) - NatOf(PadEnd(b, places)))
  {
    CompareDigits(PadEnd(a, places), PadEnd(b, places));
  }

  lemma CompareFractions(a: string, b: string, w: nat, places: nat)
    requires AllDigits(a) && AllDigits(b) && |a| <= w <= places && |b| <= w
    ensures CompareStrings(PadEnd(a, w), PadEnd(b, w)) == Sign(NatOf(PadEnd(a, places)) - NatOf(PadEnd(b, places)))
  {
    ComparePadded(a, b, places);
    WiderIsNoDifferent(a, b, w, places);
  }

  lemma FractionBound(f: string)
    requires AllDigits(f) && |f| <= 4
    ensures NatOf(PadEnd(f, 4)) < 10_000
  {
    NatOfBound(PadEnd(f, 4));
    assert Power10(4) == 10_000;
  }

  lemma MagnitudesCompare(a: Parsed, b: Parsed)
    requires AllDigits(a.integer) && AllDigits(b.integer) && AllDigits(a.fraction) && AllDigits(b.fraction)
    requires a.integer != "" && b.integer != "" && |a.fraction| <= 4 && |b.fraction| <= 4
    requires (|a.integer| > 1 ==> a.integer[0] != '0') && (|b.integer| > 1 ==> b.integer[0] != '0')
    ensures CompareMagnitudes(a, b) == Sign(Magnitude(a.integer, a.fraction) - Magnitude(b.integer, b.fraction))
  {
    FractionBound(a.fraction);
    FractionBound(b.fraction);
    if |a.integer| < |b.integer| {
      LongerIsLarger(a.integer, b.integer);
    } else if |b.integer| < |a.integer| {
      LongerIsLarger(b.integer, a.integer);
    } else {
      CompareDigits(a.integer, b.integer);
      CompareFractions(a.fraction, b.fraction, if |a.fraction| > |b.fraction| then |a.fraction| else |b.fraction|, 4);
      if a.integer != b.integer && NatOf(a.integer) == NatOf(b.integer) { NatOfInjective(a.integer, b.integer); }
    }
  }

  lemma ZeroMagnitude(p: Parsed)
    requires AllDigits(p.integer) && AllDigits(p.fraction) && |p.fraction| <= 4
    ensures IsZero(p) <==> Magnitude(p.integer, p.fraction) == 0
  {
    ZerosAreZero(p.integer);
    ZerosAreZero(PadEnd(p.fraction, 4));
    PadKeepsZeros(p.fraction, 4);
  }

  lemma ParsedAmount(s: string)
    requires Accepted(s)
    ensures var p := Parse(s);
            && AllDigits(p.integer) && AllDigits(p.fraction) && p.integer != "" && |p.fraction| <= 4
            && (|p.integer| > 1 ==> p.integer[0] != '0')
            && Amount(s) == (if p.negative then -1 else 1) * Magnitude(p.integer, p.fraction)
  {
    PartsKnown(s);
    AmountByMagnitude(s);
    StripKeepsValue(UpToDot(Unsigned(s)));
  }

  lemma AmountByMagnitude(s: string)
    requires Accepted(s)
    ensures AfterDot(Body(s)) == Decimals(Body(s)) && Unsigned(s) == Body(s)
    ensures Amount(s) == (if s[0] == '-' then -1 else 1) * Magnitude(UpToDot(Body(s)), Decimals(Body(s)))
  {
    PartsKnown(s);
    HalvesOf(Body(s));
    PaddedPlaces(Decimals(Body(s)));
  }

  lemma {:induction false} NatOfZeros(n: nat)
    ensures NatOf(seq(n, _ => '0')) == 0
  {
    if n > 0 {
      NatOfZeros(n - 1);
      assert seq(n, _ => '0')[..n - 1] == seq(n - 1, _ => '0');
    }
  }

  /** Padding places with zeros scales what they say. */
  lemma PaddedPlaces(f: string)
    requires AllDigits(f) && |f| <= 4
    ensures NatOf(PadEnd(f, 4)) == NatOf(f) * Power10(4 - |f|)
  {
    var zeros := seq(4 - |f|, _ => '0');
    NatOfConcat(f, zeros);
    NatOfZeros(4 - |f|);
    assert PadEnd(f, 4) == f + zeros;
  }

  /** A minus before an unsigned amount is its negative. */
  lemma MinusNegates(body: string)
    requires AcceptedBody(body)
    ensures Accepted(body) && Accepted("-" + body) && Amount(body) >= 0 && Amount("-" + body) == -Amount(body)
  {
    assert UpToDot(body)[0] == body[0];
    assert ("-" + body)[1..] == body;
    assert NatOf(Decimals(body)) * Power10(4 - |Decimals(body)|) >= 0;
  }

  lemma SignsCompare(minusX: bool, x: nat, minusY: bool, y: nat)
    ensures Sign((if minusX then -1 else 1) * x - (if minusY then -1 else 1) * y)
         == if x == 0 && y == 0 then 0
            else if minusX != minusY then (if minusX then -1 else 1)
            else Sign(x - y) * if minusX then -1 else 1
  {}

  lemma ParsedCompare(a: Parsed, b: Parsed)
    requires AllDigits(a.integer) && AllDigits(b.integer) && AllDigits(a.fraction) && AllDigits(b.fraction)
    requires a.integer != "" && b.integer != "" && |a.fraction| <= 4 && |b.fraction| <= 4
    requires (|a.integer| > 1 ==> a.integer[0] != '0') && (|b.integer| > 1 ==> b.integer[0] != '0')
    ensures CompareParsed(a, b) == Sign((if a.negative then -1 else 1) * Magnitude(a.integer, a.fraction)
                                        - (if b.negative then -1 else 1) * Magnitude(b.integer, b.fraction))
  {
    ZeroMagnitude(a);
    ZeroMagnitude(b);
    MagnitudesCompare(a, b);
    SignsCompare(a.negative, Magnitude(a.integer, a.fraction), b.negative, Magnitude(b.integer, b.fraction));
  }

  /** For every pair of strings the schema accepts the result is the sign of the exact difference:
      leading zeros, unequal fractions and negative zero included. */
  lemma CompareIsExact(left: string, right: string)
    requires Accepted(left) && Accepted(right)
    ensures CompareDecimalStrings(left, right) == Sign(Amount(left) - Amount(right))
  {
    ParsedAmount(left);
    ParsedAmount(right);
    ParsedCompare(Parse(left), Parse(right));
  }

  /** So it is a total preorder, and zero means the same amount. */
  lemma CompareIsTotalPreorder(a: string, b: string, c: string)
    requires Accepted(a) && Accepted(b) && Accepted(c)
    ensures CompareDecimalStrings(a, b) == -CompareDecimalStrings(b, a)
    ensures CompareDecimalStrings(a, b) <= 0 && CompareDecimalStrings(b, c) <= 0 ==> CompareDecimalStrings(a, c) <= 0
    ensures CompareDecimalStrings(a, b) == 0 <==> Amount(a) == Amount(b)
  {
    CompareIsExact(a, b);
    CompareIsExact(b, a);
    CompareIsExact(b, c);
    CompareIsExact(a, c);
  }

  // ---- Writing amounts ----------------------------------------------------------------------------

  function NatString(n: nat): (r: string)
    ensures r != "" && AllDigits(r)
  {
    if n < 10 then [CharOf(n)] else NatString(n / 10) + [CharOf(n % 10)]
  }

  function Size(amount: int): nat {
    if amount < 0 then -amount else amount
  }

  function Signed(negative: bool, body: string): string {
    if negative then "-" + body else body
  }

  /** `toFixed(4)` of an amount in ten-thousandths. */
  function ToFixed4(amount: int): string {
    var n := Size(amount);
    Signed(amount < 0, NatString(n / 10_000) + "." + FourDigits(n % 10_000))
  }

  function FourDigits(n: nat): (r: string)
    requires n < 10_000
    ensures |r| == 4 && AllDigits(r)
  {
    [CharOf(n / 1000), CharOf(n / 100 % 10), CharOf(n / 10 % 10), CharOf(n % 10)]
  }

  lemma {:induction false} NatOfNatString(n: nat)
    ensures NatOf(NatString(n)) == n
  {
    if n < 10 {
      OneDigit(CharOf(n));
    } else {
      NatOfNatString(n / 10);
      NatOfPush(NatString(n / 10), n % 10);
      assert NatString(n) == NatString(n / 10) + [CharOf(n % 10)];
    }
  }

  lemma {:induction false} DigitsNeeded(n: nat, k: nat)
    requires k > 0
    ensures n < Power10(k) ==> |NatString(n)| <= k
  {
    if k == 1 {
      assert Power10(1) == 10 * Power10(0);
    } else if n >= 10 {
      DigitsNeeded(n / 10, k - 1);
    }
  }

  lemma NatOfFourDigits(n: nat)
    requires n < 10_000
    ensures NatOf(FourDigits(n)) == n
  {
    var (a, b, c, d) := (n / 1000, n / 100 % 10, n / 10 % 10, n % 10);
    NatOfDigits(a, b, c, d);
    assert FourDigits(n) == [CharOf(a)] + [CharOf(b)] + [CharOf(c)] + [CharOf(d)];
    DigitsAddUp(n);
  }

  lemma NatOfDigits(a: nat, b: nat, c: nat, d: nat)
    requires a < 10 && b < 10 && c < 10 && d < 10
    ensures NatOf([CharOf(a)] + [CharOf(b)] + [CharOf(c)] + [CharOf(d)]) == ((a * 10 + b) * 10 + c) * 10 + d
  {
    OneDigit(CharOf(a));
    NatOfPush([CharOf(a)], b);
    NatOfPush([CharOf(a)] + [CharOf(b)], c);
    NatOfPush([CharOf(a)] + [CharOf(b)] + [CharOf(c)], d);
  }

  lemma DigitsAddUp(n: nat)
    requires n < 10_000
    ensures ((n / 1000 * 10 + n / 100 % 10) * 10 + n / 10 % 10) * 10 + n % 10 == n
  {
    assert n / 100 == n / 10 / 10 && n / 1000 == n / 100 / 10;
  }

  /** One past the largest amount of sixteen integer digits. */
  const AMOUNT_BOUND: int := 100_000_000_000_000_000_000

  /** A body of the written form splits into its two parts. */
  lemma WrittenParts(i: string, f: string)
    requires AllDigits(i) && AllDigits(f) && i != "" && |f| == 4
    ensures var body := i + "." + f;
            UpToDot(body) == i && AfterDot(body) == f && body[|i| + 1..] == f && Unsigned(body) == body
  {
    UpToDotOf(i, f);
    NoDotUpTo(f);
    assert (i + "." + f)[|i| + 1..] == f;
    assert (i + "." + f)[0] == i[0];
  }

  lemma WrittenForm(amount: int, i: string, f: string)
    requires AllDigits(i) && AllDigits(f) && 1 <= |i| <= 16 && |f| == 4
    ensures var s := Signed(amount < 0, i + "." + f);
            Accepted(s) && Amount(s) == (if amount < 0 then -1 else 1) * (NatOf(i) * 10_000 + NatOf(f))
  {
    var body := i + "." + f;
    WrittenParts(i, f);
    assert body[0] == i[0];
    SignedBody(amount < 0, body);
    AmountOfParts(Signed(amount < 0, body), i, f);
  }

  lemma AmountOfParts(s: string, i: string, f: string)
    requires AllDigits(i) && AllDigits(f) && 1 <= |i| <= 16 && |f| == 4
    requires UpToDot(Body(s)) == i && |i| < |Body(s)| && Body(s)[|i| + 1..] == f
    ensures Accepted(s) && Amount(s) == (if s[0] == '-' then -1 else 1) * (NatOf(i) * 10_000 + NatOf(f))
  {
    assert Power10(0) == 1;
  }

  lemma SignedBody(negative: bool, body: string)
    requires body != "" && IsDigit(body[0])
    ensures var s := Signed(negative, body);
            s != "" && (s[0] == '-' <==> negative) && Unsigned(s) == body && (if s[0] == '-' then s[1..] else s) == body
  {
    if negative { assert ("-" + body)[1..] == body; }
  }

  /** An amount with at most sixteen integer digits is written as a string the schema accepts, and
      reading that string gives the amount back. */
  lemma WrittenAmountsReadBack(amount: int)
    requires -AMOUNT_BOUND < amount < AMOUNT_BOUND
    ensures Accepted(ToFixed4(amount)) && Amount(ToFixed4(amount)) == amount
  {
    var n := Size(amount);
    NatOfNatString(n / 10_000);
    NatOfFourDigits(n % 10_000);
    SixteenDigits(n / 10_000);
    WrittenForm(amount, NatString(n / 10_000), FourDigits(n % 10_000));
  }

  lemma SixteenDigits(n: nat)
    requires n < 10_000_000_000_000_000
    ensures |NatString(n)| <= 16
  {
    assert Power10(4) == 10_000;
    assert Power10(8) == 100_000_000;
    assert Power10(12) == 1_000_000_000_000;
    assert Power10(16) == 10_000_000_000_000_000;
    DigitsNeeded(n, 16);
  }

  lemma {:induction false} UpToDotOf(i: string, f: string)
    requires '.' !in i
    ensures UpToDot(i + "." + f) == i
  {
    if i == "" {
      assert (i + "." + f)[0] == '.';
    } else {
      UpToDotOf(i[1..], f);
      assert (i + "." + f)[1..] == i[1..] + "." + f;
    }
  }

  /** Two stored amounts are equal strings exactly when they are equal amounts, however large, which is
      what the ledger's unchanged test relies on. */
  lemma EqualStringsAreEqualAmounts(a: int, b: int)
    ensures ToFixed4(a) == ToFixed4(b) <==> a == b
  {
    if ToFixed4(a) == ToFixed4(b) {
      SignAndParts(a);
      SignAndParts(b);
      PartsOfSize(Size(a));
      PartsOfSize(Size(b));
    }
  }

  lemma SignAndParts(amount: int)
    ensures var (s, n) := (ToFixed4(amount), Size(amount));
            && s != "" && (s[0] == '-' <==> amount < 0)
            && UpToDot(Unsigned(s)) == NatString(n / 10_000) && AfterDot(Unsigned(s)) == FourDigits(n % 10_000)
  {
    var n := Size(amount);
    var (i, f) := (NatString(n / 10_000), FourDigits(n % 10_000));
    WrittenParts(i, f);
    assert (i + "." + f)[0] == i[0];
    SignedBody(amount < 0, i + "." + f);
  }

  /** The digits before and after the dot determine the size. */
  lemma PartsOfSize(n: nat)
    ensures n == NatOf(NatString(n / 10_000)) * 10_000 + NatOf(FourDigits(n % 10_000))
  {
    NatOfNatString(n / 10_000);
    NatOfFourDigits(n % 10_000);
  }
}
