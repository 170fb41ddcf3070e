/** Time-ordered identifiers: UUID version 7, section 5.7 of RFC 9562, with the counter of section 6.2
    in the twelve bits after the version. */
module Ids {
  import opened Wrappers
  import opened Lexicographic

  type Byte = b: nat | b < 256

  const TWO_48: nat := 0x1_0000_0000_0000
  const TWO_32: nat := 0x1_0000_0000

  // ---- Bytes and digits ---------------------------------------------------------------------------

  function BigEndian(n: nat, k: nat): (r: seq<Byte>)
    ensures |r| == k
  {
    if k == 0 then [] else BigEndian(n / 256, k - 1) + [n % 256]
  }

  function Value(bytes: seq<Byte>): nat {
    if bytes == [] then 0 else Value(bytes[..|bytes| - 1]) * 256 + bytes[|bytes| - 1]
  }

  function Power256(k: nat): nat {
    if k == 0 then 1 else 256 * Power256(k - 1)
  }

  lemma {:induction false} ValueOfBigEndian(n: nat, k: nat)
    requires n < Power256(k)
    ensures Value(BigEndian(n, k)) == n
  {
    if k > 0 {
      ValueOfBigEndian(n / 256, k - 1);
      assert BigEndian(n, k)[..k - 1] == BigEndian(n / 256, k - 1);
    }
  }

  lemma {:induction false} ValueInjective(a: seq<Byte>, b: seq<Byte>)
    requires |a| == |b| && Value(a) == Value(b)
    ensures a == b
  {
    if a != [] {
      ValueInjective(a[..|a| - 1], b[..|b| - 1]);
      assert a == a[..|a| - 1] + [a[|a| - 1]] && b == b[..|b| - 1] + [b[|b| - 1]];
    }
  }

  /** A smaller number differs first in a smaller byte. */
  lemma {:induction false} FirstSmallerByte(a: seq<Byte>, b: seq<Byte>) returns (i: nat)
    requires |a| == |b| && Value(a) < Value(b)
    ensures i < |a| && a[..i] == b[..i] && a[i] < b[i]
  {
    var (pa, pb) := (a[..|a| - 1], b[..|b| - 1]);
    if Value(pa) < Value(pb) {
      i := FirstSmallerByte(pa, pb);
      assert a[..i] == pa[..i] && b[..i] == pb[..i];
    } else {
      ValueInjective(pa, pb);
      i := |a| - 1;
    }
  }

  /** `toString(16)` of one digit. */
  function Digit(x: nat): char
    requires x < 16
  {
    if x < 10 then (x + 48) as char else (x + 87) as char
  }

  /** The `j`th hexadecimal digit of the bytes. */
  function Nibble(bytes: seq<Byte>, j: nat): nat
    requires j < 2 * |bytes|
    ensures Nibble(bytes, j) < 16
  {
    if j % 2 == 0 then bytes[j / 2] / 16 else bytes[j / 2] % 16
  }

  function Hex(bytes: seq<Byte>): (r: string)
    ensures |r| == 2 * |bytes|
    ensures forall j :: 0 <= j < |r| ==> r[j] == Digit(Nibble(bytes, j))
  {
    seq(2 * |bytes|, j requires 0 <= j < 2 * |bytes| => Digit(Nibble(bytes, j)))
  }

  /** `8-4-4-4-12`. */
  function Dashed(h: string): (r: string)
    requires |h| == 32
    ensures |r| == 36
  {
    h[..8] + ("-" + (h[8..12] + ("-" + (h[12..16] + ("-" + (h[16..20] + ("-" + h[20..])))))))
  }

  function FormatUuid(bytes: seq<Byte>): (r: string)
    requires |bytes| == 16
    ensures |r| == 36
  {
    Dashed(Hex(bytes))
  }

  predicate IsDash(p: nat) {
    p == 8 || p == 13 || p == 18 || p == 23
  }

  /** Which digit stands at place `p`. */
  function DigitAt(p: nat): int {
    if p < 8 then p else if p < 13 then p - 1 else if p < 18 then p - 2 else if p < 23 then p - 3 else p - 4
  }

  lemma DigitsInPlace(h: string)
    requires |h| == 32
    ensures forall p :: 0 <= p < 36 ==> Dashed(h)[p] == if IsDash(p) then '-' else h[DigitAt(p)]
  {
    var t4 := "-" + h[20..];
    var t3 := "-" + (h[16..20] + t4);
    var t2 := "-" + (h[12..16] + t3);
    var t1 := "-" + (h[8..12] + t2);
    assert Dashed(h) == h[..8] + t1;
  }

  // ---- Generation ---------------------------------------------------------------------------------

  /** The sixteen bytes of an id: 48 bits of milliseconds, version and counter, variant and random. */
  function Layout(now: nat, sequence: nat, random: seq<Byte>): (r: seq<Byte>)
    requires |random| == 16 && sequence < 4096
    ensures |r| == 16
  {
    BigEndian(now, 6) + [0x70 + sequence / 256, sequence % 256, 0x80 + random[8] % 64] + random[9..]
  }

  /** What one call sees: the clock, the reading that ends a spin, and fresh random bytes. */
  datatype Call = Call(now: nat, later: nat, seed: nat, random: seq<Byte>)

  datatype Counter = Counter(lastTimestamp: nat, sequence: nat)

  function Tick(c: Counter, call: Call): (r: Counter)
    ensures c.sequence < 4096 ==> r.sequence < 4096
  {
    if call.now == c.lastTimestamp then
      var next := (c.sequence + 1) % 4096;
      if next == 0 then Counter(call.later, call.seed % 4096) else Counter(call.now, next)
    else Counter(call.now, call.seed % 4096)
  }

  class IdGenerator {
    var lastTimestamp: nat
    var sequence: nat

    constructor ()
      ensures lastTimestamp == 0 && sequence == 0
    {
      lastTimestamp := 0;
      sequence := 0;
    }

    method GenerateId(call: Call) returns (id: string)
      requires |call.random| == 16 && sequence < 4096 && call.now < TWO_48 && call.later < TWO_48
      requires call.now == lastTimestamp ==> call.later > lastTimestamp
      modifies this
      ensures Counter(lastTimestamp, sequence) == Tick(old(Counter(lastTimestamp, sequence)), call)
      ensures sequence < 4096
      ensures id == FormatUuid(Layout(lastTimestamp, sequence, call.random))
      decreases if call.now == lastTimestamp then 1 else 0
    {
      if call.now == lastTimestamp {
        sequence := (sequence + 1) % 4096;
        if sequence == 0 {
          id := GenerateId(call.(now := call.later));
          return;
        }
      } else {
        lastTimestamp := call.now;
        sequence := call.seed % 4096;
      }
      id := BuildId(lastTimestamp, sequence, call.random);
    }
  }

  /** Random bytes, then the timestamp, version, counter and variant written over them. */
  method BuildId(now: nat, sequence: nat, random: seq<Byte>) returns (id: string)
    requires |random| == 16 && sequence < 4096
    ensures id == FormatUuid(Layout(now, sequence, random))
  {
    var bytes := new Byte[16](i requires 0 <= i < 16 => random[i]);
    assert bytes[..] == random;
    WriteBigEndian(bytes, 0, 2, now / TWO_32);
    assert bytes[2..] == random[2..];
    WriteBigEndian(bytes, 2, 4, now % TWO_32);
    assert bytes[..6] == bytes[..2] + bytes[2..6] == BigEndian(now / TWO_32, 2) + BigEndian(now % TWO_32, 4);
    assert bytes[6..] == random[6..];
    ghost var head := bytes[..6];
    bytes[6] := 0x70 + sequence / 256;
    bytes[7] := sequence % 256;
    bytes[8] := 0x80 + bytes[8] % 64;
    assert bytes[..6] == head && bytes[9..] == random[9..];
    assert bytes[..] == bytes[..6] + [bytes[6], bytes[7], bytes[8]] + bytes[9..];
    assert bytes[..] == Layout(now, sequence, random) by { SplitWord(now); }
    id := FormatUuid(bytes[..]);
  }

  /** `setUint16` and `setUint32`: the low bytes of `n`, high one first. */
  method WriteBigEndian(bytes: array<Byte>, at: nat, k: nat, n: nat)
    requires at + k <= bytes.Length
    modifies bytes
    ensures bytes[at..at + k] == BigEndian(n, k)
    ensures bytes[..at] == old(bytes[..at]) && bytes[at + k..] == old(bytes[at + k..])
  {
    var i := k;
    var rest := n;
    while i > 0
      invariant 0 <= i <= k
      invariant BigEndian(n, k) == BigEndian(rest, i) + bytes[at + i..at + k]
      invariant bytes[..at + i] == old(bytes[..at + i]) && bytes[at + k..] == old(bytes[at + k..])
    {
      i := i - 1;
      bytes[at + i] := rest % 256;
      rest := rest / 256;
    }
  }

  lemma Pushed(q: nat, r: nat)
    requires r < 256
    ensures (256 * q + r) / 256 == q && (256 * q + r) % 256 == r
  {}

  lemma BigEndianPush(q: nat, r: nat, k: nat)
    requires r < 256
    ensures BigEndian(256 * q + r, k + 1) == BigEndian(q, k) + [r]
  {
    Pushed(q, r);
  }

  lemma TwoBytes(high: nat, b1: nat, b0: nat, k: nat)
    requires b1 < 256 && b0 < 256
    ensures BigEndian(256 * (256 * high + b1) + b0, k + 2) == BigEndian(high, k) + [b1, b0]
  {
    BigEndianPush(256 * high + b1, b0, k + 1);
    BigEndianPush(high, b1, k);
  }

  lemma FourBytes(high: nat, b3: nat, b2: nat, b1: nat, b0: nat, k: nat)
    requires b3 < 256 && b2 < 256 && b1 < 256 && b0 < 256
    ensures BigEndian(256 * (256 * (256 * (256 * high + b3) + b2) + b1) + b0, k + 4) == BigEndian(high, k) + [b3, b2, b1, b0]
  {
    TwoBytes(256 * (256 * high + b3) + b2, b1, b0, k + 2);
    TwoBytes(high, b3, b2, k);
  }

  lemma SplitWord(now: nat)
    ensures BigEndian(now / TWO_32, 2) + BigEndian(now % TWO_32, 4) == BigEndian(now, 6)
  {
    var (high, low) := (now / TWO_32, now % TWO_32);
    var b3, b2, b1, b0 := WordBytes(low);
    FourBytes(high, b3, b2, b1, b0, 2);
    FourBytes(0, b3, b2, b1, b0, 0);
    assert now == 256 * (256 * (256 * (256 * high + b3) + b2) + b1) + b0;
  }

  lemma WordBytes(low: nat) returns (b3: nat, b2: nat, b1: nat, b0: nat)
    requires low < TWO_32
    ensures b3 < 256 && b2 < 256 && b1 < 256 && b0 < 256 && low == 256 * (256 * (256 * b3 + b2) + b1) + b0
  {
    b0 := low % 256;
    var n1 := low / 256;
    b1 := n1 % 256;
    var n2 := n1 / 256;
    b2 := n2 % 256;
    b3 := n2 / 256;
  }

  // ---- Order --------------------------------------------------------------------------------------

  /** The number the first eight bytes spell. */
  function Key(now: nat, sequence: nat): nat {
    now * 65536 + 0x7000 + sequence
  }

  lemma FirstEightBytes(now: nat, sequence: nat, random: seq<Byte>)
    requires |random| == 16 && sequence < 4096 && now < TWO_48
    ensures Value(Layout(now, sequence, random)[..6]) == now
    ensures Value(Layout(now, sequence, random)[..8]) == Key(now, sequence)
  {
    var b := Layout(now, sequence, random);
    assert Power256(6) == TWO_48;
    ValueOfBigEndian(now, 6);
    assert b[..6] == BigEndian(now, 6);
    assert b[..8][..7] == b[..7] && b[..7][..6] == b[..6];
  }

  /** Strings compare as the numbers their first eight bytes spell. */
  lemma StringsFollowBytes(a: seq<Byte>, b: seq<Byte>)
    requires |a| == |b| == 16 && Value(a[..8]) < Value(b[..8])
    ensures LexLess(FormatUuid(a), FormatUuid(b))
  {
    var i := FirstSmallerByte(a[..8], b[..8]);
    assert a[..8][..i] == a[..i] && b[..8][..i] == b[..i];
    var j := if a[i] / 16 < b[i] / 16 then 2 * i else 2 * i + 1;
    SameDigitsBefore(a, b, i, j);
    DashesKeepOrder(Hex(a), Hex(b), j);
  }

  lemma DashesKeepOrder(g: string, h: string, j: nat)
    requires |g| == |h| == 32 && j < 16 && (forall q :: 0 <= q < j ==> g[q] == h[q]) && g[j] < h[j]
    ensures LexLess(Dashed(g), Dashed(h))
  {
    DigitsInPlace(g);
    DigitsInPlace(h);
    var p := if j < 8 then j else if j < 12 then j + 1 else j + 2;
    assert !IsDash(p) && DigitAt(p) == j;
    forall q | 0 <= q < p ensures Dashed(g)[q] == Dashed(h)[q] {
      assert !IsDash(q) ==> DigitAt(q) < j;
    }
    assert Dashed(g)[..p] == Dashed(h)[..p];
    FirstDifference(Dashed(g), Dashed(h), p);
  }

  lemma SameDigitsBefore(a: seq<Byte>, b: seq<Byte>, i: nat, j: nat)
    requires |a| == |b| == 16 && i < 16 && a[..i] == b[..i] && a[i] < b[i]
    requires j == if a[i] / 16 < b[i] / 16 then 2 * i else 2 * i + 1
    ensures forall q :: 0 <= q < j ==> Hex(a)[q] == Hex(b)[q]
    ensures Hex(a)[j] < Hex(b)[j]
  {
    forall q | 0 <= q < j ensures Nibble(a, q) == Nibble(b, q) {
      if q / 2 < i { assert a[q / 2] == a[..i][q / 2] == b[..i][q / 2]; }
    }
    assert Nibble(a, j) < Nibble(b, j);
    DigitsAscend(Nibble(a, j), Nibble(b, j));
  }

  lemma DigitsAscend(x: nat, y: nat)
    requires x < y < 16
    ensures Digit(x) < Digit(y)
  {}

  // ---- Runs ---------------------------------------------------------------------------------------

  function CounterAfter(calls: seq<Call>): (r: Counter)
    ensures r.sequence < 4096
  {
    if calls == [] then Counter(0, 0) else Tick(CounterAfter(calls[..|calls| - 1]), calls[|calls| - 1])
  }

  /** The clock never goes back: each call reads at least the last timestamp used, and the reading
      that ends a spin is past it. */
  ghost predicate Monotone(calls: seq<Call>) {
    forall n :: 0 <= n < |calls| ==> Follows(CounterAfter(calls[..n]), calls[n])
  }

  predicate Follows(c: Counter, call: Call) {
    c.lastTimestamp <= call.now < call.later < TWO_48 && |call.random| == 16
  }

  /** The id of the last call of a run. */
  function IdOf(calls: seq<Call>): string
    requires calls != [] && |calls[|calls| - 1].random| == 16
  {
    var c := CounterAfter(calls);
    FormatUuid(Layout(c.lastTimestamp, c.sequence, calls[|calls| - 1].random))
  }

  lemma TickAscends(c: Counter, call: Call)
    requires c.sequence < 4096 && Follows(c, call)
    ensures Key(c.lastTimestamp, c.sequence) < Key(Tick(c, call).lastTimestamp, Tick(c, call).sequence)
    ensures Tick(c, call).lastTimestamp < TWO_48
  {}

  lemma {:induction false} KeysAscend(calls: seq<Call>, m: nat, n: nat)
    requires Monotone(calls) && m < n <= |calls|
    ensures Key(CounterAfter(calls[..m]).lastTimestamp, CounterAfter(calls[..m]).sequence)
          < Key(CounterAfter(calls[..n]).lastTimestamp, CounterAfter(calls[..n]).sequence)
    ensures CounterAfter(calls[..n]).lastTimestamp < TWO_48
  {
    assert calls[..n][..n - 1] == calls[..n - 1];
    assert Follows(CounterAfter(calls[..n - 1]), calls[n - 1]);
    TickAscends(CounterAfter(calls[..n - 1]), calls[n - 1]);
    if m < n - 1 { KeysAscend(calls, m, n - 1); }
  }

  /** In every run the ids are strictly increasing strings, same millisecond, counter wrap and all. */
  lemma IdsStrictlyIncrease(calls: seq<Call>, m: nat, n: nat)
    requires Monotone(calls) && 0 < m < n <= |calls|
    ensures |calls[m - 1].random| == |calls[n - 1].random| == 16
    ensures calls[..m][|calls[..m]| - 1] == calls[m - 1] && calls[..n][|calls[..n]| - 1] == calls[n - 1]
    ensures LexLess(IdOf(calls[..m]), IdOf(calls[..n]))
  {
    IdOfCall(calls, m);
    IdOfCall(calls, n);
    KeysAscend(calls, m, n);
    StringsFollowKeys(CounterAfter(calls[..m]), calls[m - 1].random, CounterAfter(calls[..n]), calls[n - 1].random);
  }

  lemma IdOfCall(calls: seq<Call>, n: nat)
    requires Monotone(calls) && 0 < n <= |calls|
    ensures |calls[n - 1].random| == 16 && calls[..n][|calls[..n]| - 1] == calls[n - 1]
    ensures var c := CounterAfter(calls[..n]);
            c.lastTimestamp < TWO_48 && IdOf(calls[..n]) == FormatUuid(Layout(c.lastTimestamp, c.sequence, calls[n - 1].random))
  {
    assert Follows(CounterAfter(calls[..n - 1]), calls[n - 1]);
    KeysAscend(calls, 0, n);
  }

  lemma StringsFollowKeys(c: Counter, a: seq<Byte>, d: Counter, b: seq<Byte>)
    requires |a| == |b| == 16 && c.sequence < 4096 && d.sequence < 4096 && c.lastTimestamp < TWO_48 && d.lastTimestamp < TWO_48
    requires Key(c.lastTimestamp, c.sequence) < Key(d.lastTimestamp, d.sequence)
    ensures LexLess(FormatUuid(Layout(c.lastTimestamp, c.sequence, a)), FormatUuid(Layout(d.lastTimestamp, d.sequence, b)))
  {
    FirstEightBytes(c.lastTimestamp, c.sequence, a);
    FirstEightBytes(d.lastTimestamp, d.sequence, b);
    StringsFollowBytes(Layout(c.lastTimestamp, c.sequence, a), Layout(d.lastTimestamp, d.sequence, b));
  }

  // ---- Reading the timestamp back -----------------------------------------------------------------

  function DigitValue(c: char): Option<nat> {
    if '0' <= c <= '9' then Some(c as int - '0' as int)
    else if 'a' <= c <= 'f' then Some(c as int - 'a' as int + 10)
    else if 'A' <= c <= 'F' then Some(c as int - 'A' as int + 10)
    else None
  }

  predicate IsValidId(id: string) {
    |id| == 36 && forall p :: 0 <= p < 36 ==> if IsDash(p) then id[p] == '-' else DigitValue(id[p]).Some?
  }

  function RemoveDashes(s: string): string {
    if s == "" then "" else (if s[0] == '-' then "" else [s[0]]) + RemoveDashes(s[1..])
  }

  /** `Number.parseInt(s, 16)` over hexadecimal digits. */
  function ParseHex(s: string): nat {
    if s == "" then 0
    else
      var d := DigitValue(s[|s| - 1]);
      ParseHex(s[..|s| - 1]) * 16 + if d.Some? then d.value else 0
  }

  function IdTimestamp(id: string): Option<nat> {
    if !IsValidId(id) then None
    else
      var hex := RemoveDashes(id);
      if |hex| < 13 || hex[12] != '7' then None else Some(ParseHex(hex[..12]))
  }

  lemma {:induction false} DashComesOut(a: string, rest: string)
    requires '-' !in a
    ensures RemoveDashes(a + ("-" + rest)) == a + RemoveDashes(rest)
  {
    var s := a + ("-" + rest);
    if a == "" {
      assert s[1..] == rest;
    } else {
      DashComesOut(a[1..], rest);
      assert s[1..] == a[1..] + ("-" + rest);
      assert [s[0]] + (a[1..] + RemoveDashes(rest)) == a + RemoveDashes(rest);
    }
  }

  lemma {:induction false} NoDashes(s: string)
    requires '-' !in s
    ensures RemoveDashes(s) == s
  {
    if s != "" {
      NoDashes(s[1..]);
      assert s == [s[0]] + s[1..];
    }
  }

  lemma DashesComeOut(h: string)
    requires |h| == 32 && '-' !in h
    ensures RemoveDashes(Dashed(h)) == h
  {
    var t4 := h[20..];
    var t3 := h[16..20] + ("-" + t4);
    var t2 := h[12..16] + ("-" + t3);
    var t1 := h[8..12] + ("-" + t2);
    DashComesOut(h[..8], t1);
    DashComesOut(h[8..12], t2);
    DashComesOut(h[12..16], t3);
    DashComesOut(h[16..20], t4);
    NoDashes(t4);
    assert h[..8] + (h[8..12] + (h[12..16] + (h[16..20] + t4))) == h;
  }

  lemma DigitRoundTrip(x: nat)
    requires x < 16
    ensures DigitValue(Digit(x)) == Some(x) && Digit(x) != '-'
  {}

  lemma HexHasNoDashes(bytes: seq<Byte>)
    ensures '-' !in Hex(bytes)
  {
    forall j | 0 <= j < |Hex(bytes)| ensures Hex(bytes)[j] != '-' { DigitRoundTrip(Nibble(bytes, j)); }
  }

  lemma {:induction false} ParseHexOfHex(bytes: seq<Byte>, n: nat)
    requires n <= |bytes|
    ensures ParseHex(Hex(bytes)[..2 * n]) == Value(bytes[..n])
  {
    if n > 0 {
      ParseHexOfHex(bytes, n - 1);
      ParsePair(bytes, n - 1);
      ValueStep(bytes, n - 1);
    }
  }

  lemma ParsePair(bytes: seq<Byte>, k: nat)
    requires k < |bytes|
    ensures ParseHex(Hex(bytes)[..2 * (k + 1)]) == ParseHex(Hex(bytes)[..2 * k]) * 256 + bytes[k]
  {
    ParseStep(Hex(bytes), 2 * k, Nibble(bytes, 2 * k), Nibble(bytes, 2 * k + 1));
    TwoNibbles(bytes, k);
  }

  lemma ParseStep(h: string, k: nat, x: nat, y: nat)
    requires k + 2 <= |h| && x < 16 && y < 16 && h[k] == Digit(x) && h[k + 1] == Digit(y)
    ensures ParseHex(h[..k + 2]) == ParseHex(h[..k]) * 256 + x * 16 + y
  {
    DigitRoundTrip(x);
    DigitRoundTrip(y);
    assert h[..k + 2][..k + 1] == h[..k + 1] && h[..k + 1][..k] == h[..k];
  }

  lemma ValueStep(bytes: seq<Byte>, k: nat)
    requires k < |bytes|
    ensures Value(bytes[..k + 1]) == Value(bytes[..k]) * 256 + bytes[k]
  {
    assert bytes[..k + 1][..k] == bytes[..k];
  }

  lemma TwoNibbles(bytes: seq<Byte>, k: nat)
    requires k < |bytes|
    ensures Nibble(bytes, 2 * k) * 16 + Nibble(bytes, 2 * k + 1) == bytes[k]
  {}

  /** The id of a call yields exactly the millisecond it was generated in. */
  lemma TimestampComesBack(now: nat, sequence: nat, random: seq<Byte>)
    requires |random| == 16 && sequence < 4096 && now < TWO_48
    ensures IdTimestamp(FormatUuid(Layout(now, sequence, random))) == Some(now)
  {
    var b := Layout(now, sequence, random);
    FormattedIsValid(b);
    HexHasNoDashes(b);
    DashesComeOut(Hex(b));
    FirstEightBytes(now, sequence, random);
    VersionDigit(now, sequence, random);
    ParseHexOfHex(b, 6);
  }

  lemma VersionDigit(now: nat, sequence: nat, random: seq<Byte>)
    requires |random| == 16 && sequence < 4096
    ensures Hex(Layout(now, sequence, random))[12] == '7'
  {
    var b := Layout(now, sequence, random);
    assert b[6] == 0x70 + sequence / 256;
    assert Nibble(b, 12) == 7;
  }

  /** Version 7 of RFC 9562 to the letter: four dashes, lower-case digits, the version, the variant 10, and
      the random bits after it as they were drawn. */
  lemma IdIsVersion7(now: nat, sequence: nat, random: seq<Byte>)
    requires |random| == 16 && sequence < 4096 && now < TWO_48
    ensures var id := FormatUuid(Layout(now, sequence, random));
            && |id| == 36 && id[8] == id[13] == id[18] == id[23] == '-' && id[14] == '7' && id[19] in {'8', '9', 'a', 'b'}
            && forall p :: 0 <= p < 36 && p !in {8, 13, 18, 23} ==> '0' <= id[p] <= '9' || 'a' <= id[p] <= 'f'
    ensures var bytes := Layout(now, sequence, random);
            bytes[8] / 64 == 2 && bytes[8] % 64 == random[8] % 64 && bytes[9..] == random[9..]
    ensures Value(Layout(now, sequence, random)[6..8]) == 7 * 4096 + sequence
  {
    var b := Layout(now, sequence, random);
    DigitsInPlace(Hex(b));
    VersionDigit(now, sequence, random);
    assert b[8] == 0x80 + random[8] % 64;
    assert Nibble(b, 16) == b[8] / 16;
    assert b[6] == 0x70 + sequence / 256 && b[7] == sequence % 256 && b[6..8] == [b[6], b[7]];
    ValueOfTwo(b[6], b[7]);
  }

  lemma ValueOfTwo(x: Byte, y: Byte)
    ensures Value([x, y]) == x * 256 + y
  {
    assert [x, y][..1] == [x] && [x][..0] == [];
    assert Value([x]) == x;
  }

  /** The counter: it counts calls of one millisecond from where the first one's draw put it, and when its
      twelve bits are used up the next millisecond begins with a draw of its own. */
  lemma TickExactly(c: Counter, call: Call)
    requires c.sequence < 4096
    ensures var d := Tick(c, call);
            && (call.now != c.lastTimestamp ==> d.lastTimestamp == call.now && d.sequence == call.seed % 4096)
            && (call.now == c.lastTimestamp && c.sequence < 4095 ==> d.lastTimestamp == call.now && d.sequence == c.sequence + 1)
            && (call.now == c.lastTimestamp && c.sequence == 4095 ==> d.lastTimestamp == call.later && d.sequence == call.seed % 4096)
  {}

  lemma FormattedIsValid(bytes: seq<Byte>)
    requires |bytes| == 16
    ensures IsValidId(FormatUuid(bytes))
  {
    DigitsInPlace(Hex(bytes));
    forall j | 0 <= j < 32 ensures DigitValue(Hex(bytes)[j]).Some? { DigitRoundTrip(Nibble(bytes, j)); }
  }

  /** The 32 digits of a string in the form of an id. */
  function Undashed(id: string): (h: string)
    requires |id| == 36
    ensures |h| == 32
  {
    id[..8] + (id[9..13] + (id[14..18] + (id[19..23] + id[24..])))
  }

  lemma UndashedIsWhatIsLeft(id: string)
    requires IsValidId(id)
    ensures RemoveDashes(id) == Undashed(id)
  {
    var h := Undashed(id);
    DigitsInPlace(h);
    forall p | 0 <= p < 36 && !IsDash(p) ensures h[DigitAt(p)] == id[p] {}
    assert Dashed(h) == id;
    forall p | 0 <= p < 36 && !IsDash(p) ensures id[p] != '-' {}
    assert '-' !in h by {
      assert '-' !in id[..8] && '-' !in id[9..13] && '-' !in id[14..18] && '-' !in id[19..23] && '-' !in id[24..];
    }
    DashesComeOut(h);
  }

  predicate IsHexDigit(c: char) {
    '0' <= c <= '9' || 'a' <= c <= 'f' || 'A' <= c <= 'F'
  }

  /** A string has a timestamp exactly when it is four dashes and 32 hexadecimal digits of which the
      thirteenth is a 7. */
  lemma TimestampExactly(id: string)
    ensures IdTimestamp(id).Some? <==>
            && |id| == 36 && id[8] == id[13] == id[18] == id[23] == '-'
            && (forall p :: 0 <= p < 36 && p !in {8, 13, 18, 23} ==> IsHexDigit(id[p]))
            && id[14] == '7'
  {
    if IsValidId(id) {
      UndashedIsWhatIsLeft(id);
      assert Undashed(id)[12] == id[14];
    }
  }

  function Upper(c: char): char {
    if 'a' <= c <= 'f' then (c as int - 32) as char else c
  }

  function UpperCase(s: string): (r: string)
    ensures |r| == |s| && forall i :: 0 <= i < |s| ==> r[i] == Upper(s[i])
  {
    seq(|s|, i requires 0 <= i < |s| => Upper(s[i]))
  }

  lemma {:induction false} UpperWithoutDashes(s: string)
    ensures RemoveDashes(UpperCase(s)) == UpperCase(RemoveDashes(s))
  {
    if s != "" {
      UpperWithoutDashes(s[1..]);
      assert UpperCase(s)[1..] == UpperCase(s[1..]);
    }
  }

  lemma {:induction false} UpperReadsAlike(s: string)
    ensures ParseHex(UpperCase(s)) == ParseHex(s)
  {
    if s != "" {
      UpperReadsAlike(s[..|s| - 1]);
      assert UpperCase(s)[..|s| - 1] == UpperCase(s[..|s| - 1]);
    }
  }

  /** Upper-case digits are read as lower-case ones. */
  lemma CaseDoesNotMatter(id: string)
    ensures IdTimestamp(UpperCase(id)) == IdTimestamp(id)
  {
    UpperWithoutDashes(id);
    var hex := RemoveDashes(id);
    if |hex| >= 13 {
      UpperReadsAlike(hex[..12]);
      assert UpperCase(hex)[..12] == UpperCase(hex[..12]);
    }
  }
}
