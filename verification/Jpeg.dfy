/** Removing metadata segments from a JPEG by walking its markers, over the marker segments of
    ITU-T T.81 Annex B. Nothing is decoded or re-encoded. */
module Jpeg {
  type Byte = b: nat | b < 256

  /** A marker alone, or a marker with a two-byte length and that many bytes less two. */
  datatype Segment = Standalone(marker: Byte) | Sized(marker: Byte, payload: seq<Byte>)

  const SOI: seq<Byte> := [0xff, 0xd8]

  predicate NoLength(marker: Byte) {
    0xd0 <= marker <= 0xd9 || marker == 0x01
  }

  predicate IsMetadata(marker: Byte) {
    0xe1 <= marker <= 0xef || marker == 0xfe
  }

  predicate WellFormed(s: Segment) {
    match s
    case Standalone(m) => NoLength(m)
    case Sized(m, payload) => !NoLength(m) && m != 0xda && |payload| + 2 < 0x1_0000
  }

  predicate AllWellFormed(segments: seq<Segment>) {
    forall i :: 0 <= i < |segments| ==> WellFormed(segments[i])
  }

  /** The two length bytes, high one first. */
  function U16(high: int, low: int): int {
    high * 256 + low
  }

  function Print(s: Segment): seq<Byte>
    requires WellFormed(s)
  {
    match s
    case Standalone(m) => [0xff, m]
    case Sized(m, payload) => [0xff, m, (|payload| + 2) / 256, (|payload| + 2) % 256] + payload
  }

  function PrintAll(segments: seq<Segment>): seq<Byte>
    requires AllWellFormed(segments)
  {
    if segments == [] then [] else Print(segments[0]) + PrintAll(segments[1..])
  }

  predicate Kept(s: Segment) {
    s.Standalone? || !IsMetadata(s.marker)
  }

  /** The segments left once APP1 to APP15 and COM are gone. */
  function KeptOf(segments: seq<Segment>): (r: seq<Segment>)
    ensures AllWellFormed(segments) ==> AllWellFormed(r)
  {
    if segments == [] then []
    else
      var rest := KeptOf(segments[1..]);
      assert AllWellFormed(segments) ==> AllWellFormed(segments[1..]);
      if Kept(segments[0]) then [segments[0]] + rest else rest
  }

  datatype Walked = GivesUp | Output(bytes: seq<Byte>)

  function Prepend(bytes: seq<Byte>, w: Walked): Walked {
    if w.GivesUp? then GivesUp else Output(bytes + w.bytes)
  }

  /** What the walk from the start of `data` emits, or that it gives up. */
  function Walk(data: seq<Byte>): Walked {
    if |data| <= 3 then Output([])
    else if data[0] != 0xff then GivesUp
    else if data[1] == 0xda then Output(data)
    else if NoLength(data[1]) then Prepend(data[..2], Walk(data[2..]))
    else
      var length := U16(data[2], data[3]);
      if length < 2 || 2 + length > |data| then GivesUp
      else Prepend(if IsMetadata(data[1]) then [] else data[..2 + length], Walk(data[2 + length..]))
  }

  predicate LooksLikeJpeg(data: seq<Byte>) {
    |data| >= 4 && data[0] == 0xff && data[1] == 0xd8
  }

  function Strip(data: seq<Byte>): seq<Byte> {
    if !LooksLikeJpeg(data) then data
    else
      var w := Walk(data[2..]);
      if w.GivesUp? then data else SOI + w.bytes
  }

  method StripJpegMetadata(data: seq<Byte>) returns (r: seq<Byte>)
    ensures r == Strip(data)
  {
    if |data| < 4 || data[0] != 0xff || data[1] != 0xd8 {
      return data;
    }
    var output: seq<Byte> := [0xff, 0xd8];
    var index := 2;
    while index + 3 < |data|
      invariant 2 <= index <= |data| && Reached(data, index, output)
    {
      if data[index] != 0xff {
        WalkFails(data, index, output);
        return data;
      }
      var marker := data[index + 1];
      if marker == 0xda {
        WalkMeetsScan(data, index, output);
        return output + data[index..];
      }
      if NoLength(marker) {
        PastMarker(data, index, output);
        output := output + [0xff, marker];
        index := index + 2;
        continue;
      }
      var length := U16(data[index + 2], data[index + 3]);
      if length < 2 || index + 2 + length > |data| {
        WalkFails(data, index, output);
        return data;
      }
      PastSegment(data, index, output, length);
      if !IsMetadata(marker) {
        output := output + data[index..index + 2 + length];
      }
      index := index + 2 + length;
    }
    WalkEnds(data, index, output);
    return output;
  }

  /** The loop at `index` has emitted `output`: what is still to come is the walk from there. */
  ghost predicate Reached(data: seq<Byte>, index: nat, output: seq<Byte>)
    requires 2 <= index <= |data|
  {
    Prepend(SOI, Walk(data[2..])) == Prepend(output, Walk(data[index..]))
  }

  predicate LengthFails(data: seq<Byte>, index: nat)
    requires index + 3 < |data|
  {
    && data[index + 1] != 0xda && !NoLength(data[index + 1])
    && !(2 <= U16(data[index + 2], data[index + 3]) <= |data| - index - 2)
  }

  lemma WalkEnds(data: seq<Byte>, index: nat, output: seq<Byte>)
    requires LooksLikeJpeg(data) && 2 <= index <= |data| <= index + 3 && Reached(data, index, output)
    ensures Strip(data) == output
  {
    assert output + [] == output;
  }

  lemma WalkFails(data: seq<Byte>, index: nat, output: seq<Byte>)
    requires LooksLikeJpeg(data) && 2 <= index && index + 3 < |data| && Reached(data, index, output)
    requires data[index] != 0xff || LengthFails(data, index)
    ensures Strip(data) == data
  {
    var from := data[index..];
    assert |from| == |data| - index && from[0] == data[index] && from[1] == data[index + 1];
  }

  lemma WalkMeetsScan(data: seq<Byte>, index: nat, output: seq<Byte>)
    requires LooksLikeJpeg(data) && 2 <= index && index + 3 < |data| && Reached(data, index, output)
    requires data[index] == 0xff && data[index + 1] == 0xda
    ensures Strip(data) == output + data[index..]
  {
    var from := data[index..];
    assert |from| == |data| - index && from[0] == data[index] && from[1] == data[index + 1];
  }

  lemma PastMarker(data: seq<Byte>, index: nat, output: seq<Byte>)
    requires 2 <= index && index + 3 < |data| && data[index] == 0xff && NoLength(data[index + 1]) && Reached(data, index, output)
    ensures Reached(data, index + 2, output + [0xff, data[index + 1]])
  {
    WalkPastMarker(data, index);
    Associate(output, [0xff, data[index + 1]], Walk(data[index + 2..]));
  }

  lemma PastSegment(data: seq<Byte>, index: nat, output: seq<Byte>, length: nat)
    requires 2 <= index && index + 3 < |data| && data[index] == 0xff && Reached(data, index, output)
    requires !NoLength(data[index + 1]) && data[index + 1] != 0xda
    requires length == U16(data[index + 2], data[index + 3]) && 2 <= length <= |data| - index - 2
    ensures var next := index + 2 + length;
            Reached(data, next, if IsMetadata(data[index + 1]) then output else output + data[index..next])
  {
    var next := index + 2 + length;
    WalkPastSegment(data, index, length);
    var bytes := if IsMetadata(data[index + 1]) then [] else data[index..next];
    Emitted(Prepend(SOI, Walk(data[2..])), output, bytes, Walk(data[index..]), Walk(data[next..]));
    assert output + [] == output;
  }

  lemma Emitted(whole: Walked, output: seq<Byte>, bytes: seq<Byte>, here: Walked, next: Walked)
    requires whole == Prepend(output, here) && here == Prepend(bytes, next)
    ensures whole == Prepend(output + bytes, next)
  {
    Associate(output, bytes, next);
  }

  lemma WalkPastMarker(data: seq<Byte>, index: nat)
    requires index + 3 < |data| && data[index] == 0xff && NoLength(data[index + 1])
    ensures Walk(data[index..]) == Prepend([0xff, data[index + 1]], Walk(data[index + 2..]))
  {
    var from := data[index..];
    assert from[2..] == data[index + 2..] && from[..2] == [0xff, data[index + 1]];
  }

  lemma WalkPastSegment(data: seq<Byte>, index: nat, length: nat)
    requires index + 3 < |data| && data[index] == 0xff && !NoLength(data[index + 1]) && data[index + 1] != 0xda
    requires length == U16(data[index + 2], data[index + 3]) && 2 <= length <= |data| - index - 2
    ensures var next := index + 2 + length;
            Walk(data[index..]) == Prepend(if IsMetadata(data[index + 1]) then [] else data[index..next], Walk(data[next..]))
  {
    var from := data[index..];
    assert |from| > 3 && from[0] == 0xff && from[1] == data[index + 1] && U16(from[2], from[3]) == length;
    assert from[2 + length..] == data[index + 2 + length..];
    assert from[..2 + length] == data[index..index + 2 + length];
  }

  lemma Associate(a: seq<Byte>, b: seq<Byte>, w: Walked)
    ensures Prepend(a, Prepend(b, w)) == Prepend(a + b, w)
    ensures Prepend([], w) == w
  {
    if w.Output? { assert a + (b + w.bytes) == a + b + w.bytes && [] + w.bytes == w.bytes; }
  }

  // ---- The walk is a parser -----------------------------------------------------------------------

  /** One segment, if enough bytes follow for the walk to look at it. */
  lemma WalkOneSegment(s: Segment, after: seq<Byte>)
    requires WellFormed(s) && |Print(s) + after| >= 4
    ensures Walk(Print(s) + after) == Prepend(if Kept(s) then Print(s) else [], Walk(after))
  {
    var data := Print(s) + after;
    match s {
      case Standalone(m) => assert data[2..] == after && data[..2] == Print(s);
      case Sized(m, payload) =>
        var length := |payload| + 2;
        assert U16(data[2], data[3]) == length;
        assert data[2 + length..] == after && data[..2 + length] == Print(s);
    }
  }

  lemma {:induction false} WalkSegments(segments: seq<Segment>, after: seq<Byte>)
    requires AllWellFormed(segments)
    requires |after| >= 2 || segments == [] || segments[|segments| - 1].Sized?
    ensures Walk(PrintAll(segments) + after) == Prepend(PrintAll(KeptOf(segments)), Walk(after))
  {
    if segments == [] {
      assert [] + after == after;
      Associate([], [], Walk(after));
    } else {
      WalkSegments(segments[1..], after);
      if segments[0].Standalone? && |segments| > 1 { PrintIsLong(segments[1..]); }
      WalkFirstSegment(segments, after);
    }
  }

  lemma WalkFirstSegment(segments: seq<Segment>, after: seq<Byte>)
    requires AllWellFormed(segments) && segments != []
    requires segments[0].Standalone? ==> |PrintAll(segments[1..]) + after| >= 2
    requires Walk(PrintAll(segments[1..]) + after) == Prepend(PrintAll(KeptOf(segments[1..])), Walk(after))
    ensures Walk(PrintAll(segments) + after) == Prepend(PrintAll(KeptOf(segments)), Walk(after))
  {
    var (s, rest) := (segments[0], PrintAll(segments[1..]) + after);
    ConcatAssociates(Print(s), PrintAll(segments[1..]), after);
    WalkOneSegment(s, rest);
    PrintKept(segments);
    var others := PrintAll(KeptOf(segments[1..]));
    if Kept(s) {
      Associate(Print(s), others, Walk(after));
    } else {
      assert [] + others == others;
      Associate([], others, Walk(after));
    }
  }

  lemma PrintKept(segments: seq<Segment>)
    requires AllWellFormed(segments) && segments != []
    ensures PrintAll(KeptOf(segments))
         == (if Kept(segments[0]) then Print(segments[0]) else []) + PrintAll(KeptOf(segments[1..]))
  {
    var rest := KeptOf(segments[1..]);
    assert ([segments[0]] + rest)[1..] == rest;
  }

  lemma PrintIsLong(segments: seq<Segment>)
    requires AllWellFormed(segments) && segments != []
    ensures |PrintAll(segments)| >= 2
  {}

  /** A complete JPEG keeps exactly its other segments, in order, and everything from the start of
      the scan byte for byte. */
  lemma CompleteJpegIsStripped(segments: seq<Segment>, tail: seq<Byte>)
    requires AllWellFormed(segments) && |tail| >= 2
    ensures Strip(SOI + PrintAll(segments) + ([0xff, 0xda] + tail)) == SOI + PrintAll(KeptOf(segments)) + ([0xff, 0xda] + tail)
  {
    var scan := [0xff, 0xda] + tail;
    WalkSegments(segments, scan);
    AfterSoi(PrintAll(segments), scan);
    AfterSoi(PrintAll(KeptOf(segments)), scan);
    assert Walk(scan) == Output(scan);
  }

  /** The markers of T.81 Table B.1 that stand alone, TEM, RST0 to RST7, SOI and EOI, and those of segments
      that carry metadata, APP1 to APP15 and COM. */
  lemma MarkersOfTheTable(m: Byte)
    ensures NoLength(m) <==> m in {0x01, 0xd0, 0xd1, 0xd2, 0xd3, 0xd4, 0xd5, 0xd6, 0xd7, 0xd8, 0xd9}
    ensures IsMetadata(m) <==> m in {0xe1, 0xe2, 0xe3, 0xe4, 0xe5, 0xe6, 0xe7, 0xe8, 0xe9, 0xea, 0xeb, 0xec, 0xed, 0xee, 0xef, 0xfe}
  {}

  const EXIF_FILE: seq<Byte> := [0xff, 0xd8, 0xff, 0xe0, 0, 3, 10, 0xff, 0xe1, 0, 4, 11, 12, 0xff, 0xfe, 0, 3, 13, 0xff, 0xda, 0, 2, 15]
  const BARE_FILE: seq<Byte> := [0xff, 0xd8, 0xff, 0xe0, 0, 3, 10, 0xff, 0xda, 0, 2, 15]

  /** A whole file: APP0 stays, APP1 and a comment go, and the scan is untouched. */
  lemma OneFileStripped()
    ensures Strip(EXIF_FILE) == BARE_FILE
  {
    var segments := [Sized(0xe0, [10])] + ([Sized(0xe1, [11, 12])] + ([Sized(0xfe, [13])] + []));
    PrintOfCons(Sized(0xfe, [13]), []);
    PrintOfCons(Sized(0xe1, [11, 12]), [Sized(0xfe, [13])] + []);
    PrintOfCons(Sized(0xe0, [10]), [Sized(0xe1, [11, 12])] + ([Sized(0xfe, [13])] + []));
    KeptOfCons(Sized(0xfe, [13]), []);
    KeptOfCons(Sized(0xe1, [11, 12]), [Sized(0xfe, [13])] + []);
    KeptOfCons(Sized(0xe0, [10]), [Sized(0xe1, [11, 12])] + ([Sized(0xfe, [13])] + []));
    PrintOfCons(Sized(0xe0, [10]), []);
    CompleteJpegIsStripped(segments, [0, 2, 15]);
    FilesInBytes();
  }

  lemma FilesInBytes()
    ensures EXIF_FILE == SOI + (Print(Sized(0xe0, [10])) + (Print(Sized(0xe1, [11, 12])) + (Print(Sized(0xfe, [13])) + [])))
                         + ([0xff, 0xda] + [0, 2, 15])
    ensures BARE_FILE == SOI + (Print(Sized(0xe0, [10])) + []) + ([0xff, 0xda] + [0, 2, 15])
  {}

  lemma KeptOfCons(s: Segment, rest: seq<Segment>)
    ensures KeptOf([s] + rest) == (if Kept(s) then [s] else []) + KeptOf(rest)
  {
    assert ([s] + rest)[1..] == rest;
  }

  lemma PrintOfCons(s: Segment, rest: seq<Segment>)
    requires WellFormed(s) && AllWellFormed(rest)
    ensures AllWellFormed([s] + rest) && PrintAll([s] + rest) == Print(s) + PrintAll(rest)
  {
    assert ([s] + rest)[1..] == rest;
  }

  lemma AfterSoi(a: seq<Byte>, b: seq<Byte>)
    ensures (SOI + a + b)[2..] == a + b && SOI + a + b == SOI + (a + b)
    ensures |a + b| >= 2 ==> LooksLikeJpeg(SOI + a + b)
  {}

  /** How an input the walk accepts is made up: segments, then either a scan or at most three bytes. */
  ghost predicate MadeOf(data: seq<Byte>, segments: seq<Segment>, rest: seq<Byte>) {
    AllWellFormed(segments) && data == SOI + PrintAll(segments) + rest && Ends(segments, rest)
  }

  /** The scan starts, or too few bytes are left to look at. */
  predicate Ends(segments: seq<Segment>, rest: seq<Byte>) {
    (StartsScan(rest) || |rest| <= 3) && (EndsStandalone(segments) ==> |rest| >= 2)
  }

  predicate StartsScan(rest: seq<Byte>) {
    |rest| >= 4 && rest[0] == 0xff && rest[1] == 0xda
  }

  lemma {:induction false} WalkParses(data: seq<Byte>) returns (segments: seq<Segment>, rest: seq<Byte>)
    requires Walk(data).Output?
    ensures AllWellFormed(segments) && data == PrintAll(segments) + rest
    ensures StartsScan(rest) || |rest| <= 3
    ensures segments != [] && segments[|segments| - 1].Standalone? ==> |rest| >= 2
    decreases |data|
  {
    if |data| <= 3 || data[1] == 0xda {
      segments, rest := [], data;
    } else {
      var first, size := FirstSegment(data);
      var more;
      more, rest := WalkParses(data[size..]);
      segments := [first] + more;
      Rejoin(data, first, size, more, rest);
    }
  }

  lemma FirstSegment(data: seq<Byte>) returns (first: Segment, size: nat)
    requires Walk(data).Output? && |data| > 3 && data[1] != 0xda
    ensures WellFormed(first) && size <= |data| && Print(first) == data[..size] && Walk(data[size..]).Output?
    ensures first.Standalone? ==> |data[size..]| >= 2
  {
    size := if NoLength(data[1]) then 2 else 2 + U16(data[2], data[3]);
    first := if NoLength(data[1]) then Standalone(data[1]) else Sized(data[1], data[4..size]);
    LengthBytes(data[2], data[3]);
  }

  lemma Rejoin(data: seq<Byte>, first: Segment, size: nat, more: seq<Segment>, rest: seq<Byte>)
    requires WellFormed(first) && size <= |data| && Print(first) == data[..size]
    requires AllWellFormed(more) && data[size..] == PrintAll(more) + rest
    ensures AllWellFormed([first] + more) && data == PrintAll([first] + more) + rest
  {
    var segments := [first] + more;
    assert segments[1..] == more;
    assert data == data[..size] + data[size..];
    assert Print(first) + PrintAll(more) + rest == Print(first) + (PrintAll(more) + rest);
  }

  lemma LengthBytes(high: Byte, low: Byte)
    ensures U16(high, low) / 256 == high && U16(high, low) % 256 == low
  {}

  /** Every input is left alone or is segments and an end, of which the metadata segments go, and the
      end too when it is not a scan. */
  lemma EveryInputIsDescribed(data: seq<Byte>) returns (segments: seq<Segment>, rest: seq<Byte>)
    requires LooksLikeJpeg(data) && Walk(data[2..]).Output?
    ensures MadeOf(data, segments, rest)
    ensures Strip(data) == SOI + PrintAll(KeptOf(segments)) + if StartsScan(rest) then rest else []
  {
    segments, rest := WalkParses(data[2..]);
    assert data == SOI + data[2..];
    StrippedForm(data, segments, rest);
  }

  lemma StrippedForm(data: seq<Byte>, segments: seq<Segment>, rest: seq<Byte>)
    requires MadeOf(data, segments, rest) && LooksLikeJpeg(data)
    ensures Strip(data) == SOI + PrintAll(KeptOf(segments)) + if StartsScan(rest) then rest else []
  {
    WalkSegments(segments, rest);
    var end := if StartsScan(rest) then rest else [];
    assert Walk(rest) == Output(end);
    AfterSoi(PrintAll(segments), rest);
    AfterSoi(PrintAll(KeptOf(segments)), end);
  }

  // ---- Idempotence --------------------------------------------------------------------------------

  lemma {:induction false} KeptTwice(segments: seq<Segment>)
    ensures KeptOf(KeptOf(segments)) == KeptOf(segments)
  {
    if segments != [] {
      KeptTwice(segments[1..]);
      if Kept(segments[0]) { assert KeptOf(segments)[1..] == KeptOf(segments[1..]); }
    }
  }

  predicate EndsStandalone(segments: seq<Segment>) {
    segments != [] && segments[|segments| - 1].Standalone?
  }

  /** Stripping twice is stripping once exactly when the walk reached a scan or what it kept does not
      end in a marker without a length: with no scan, such a marker is among the last three bytes of
      the result and the second walk drops it. */
  lemma IdempotentExactlyWhen(data: seq<Byte>, segments: seq<Segment>, rest: seq<Byte>)
    requires MadeOf(data, segments, rest) && LooksLikeJpeg(data)
    ensures Strip(Strip(data)) == Strip(data) <==> StartsScan(rest) || !EndsStandalone(KeptOf(segments))
  {
    StrippedForm(data, segments, rest);
    var kept := KeptOf(segments);
    KeptTwice(segments);
    var once := Strip(data);
    if StartsScan(rest) {
      assert MadeOf(once, kept, rest);
      StrippedForm(once, kept, rest);
    } else if kept == [] {
      assert once == SOI;
    } else if !EndsStandalone(kept) {
      assert once == SOI + PrintAll(kept) + [];
      PrintIsLong(kept);
      StrippedForm(once, kept, []);
    } else {
      assert once == SOI + PrintAll(kept) + [] == SOI + PrintAll(kept);
      LastIsLost(kept);
    }
  }

  lemma {:induction false} PrintOfAppend(segments: seq<Segment>, s: Segment)
    requires AllWellFormed(segments) && WellFormed(s)
    ensures AllWellFormed(segments + [s]) && PrintAll(segments + [s]) == PrintAll(segments) + Print(s)
  {
    if segments == [] {
      assert ([] + [s])[1..] == [];
    } else {
      PrintOfAppend(segments[1..], s);
      assert (segments + [s])[1..] == segments[1..] + [s];
      ConcatAssociates(Print(segments[0]), PrintAll(segments[1..]), Print(s));
    }
  }

  lemma ConcatAssociates(a: seq<Byte>, b: seq<Byte>, c: seq<Byte>)
    ensures a + (b + c) == a + b + c
  {}

  lemma LastIsLost(kept: seq<Segment>)
    requires AllWellFormed(kept) && EndsStandalone(kept)
    ensures |Strip(SOI + PrintAll(kept))| < |SOI + PrintAll(kept)|
  {
    var (most, last) := (kept[..|kept| - 1], kept[|kept| - 1]);
    assert kept == most + [last];
    PrintOfAppend(most, last);
    var data := SOI + PrintAll(kept);
    assert data == SOI + PrintAll(most) + Print(last);
    assert MadeOf(data, most, Print(last));
    StrippedForm(data, most, Print(last));
    KeptIsShorter(most);
  }

  lemma {:induction false} KeptIsShorter(segments: seq<Segment>)
    requires AllWellFormed(segments)
    ensures |PrintAll(KeptOf(segments))| <= |PrintAll(segments)|
    ensures |PrintAll(KeptOf(segments))| == |PrintAll(segments)| ==> KeptOf(segments) == segments
  {
    if segments != [] { KeptIsShorter(segments[1..]); }
  }

  /** An input comes back unchanged exactly when there was no metadata and nothing after the last
      segment but a scan: a truncated file can lose up to three bytes. */
  lemma UnchangedExactlyWhen(data: seq<Byte>, segments: seq<Segment>, rest: seq<Byte>)
    requires MadeOf(data, segments, rest) && LooksLikeJpeg(data)
    ensures Strip(data) == data <==> KeptOf(segments) == segments && (StartsScan(rest) || rest == [])
  {
    StrippedForm(data, segments, rest);
    KeptIsShorter(segments);
  }

  /** The smallest loss: an EOI straight after SOI is among the last three bytes, and goes. */
  lemma EndOfImageIsLost()
    ensures Strip([0xff, 0xd8, 0xff, 0xd9]) == [0xff, 0xd8]
    ensures var once := Strip([0xff, 0xd8, 0xff, 0xd9, 0, 0]);
            once == [0xff, 0xd8, 0xff, 0xd9] && Strip(once) == [0xff, 0xd8]
  {
    var (short, long) := ([0xff, 0xd8, 0xff, 0xd9], [0xff, 0xd8, 0xff, 0xd9, 0, 0]);
    assert short[2..] == [0xff, 0xd9] && long[2..] == [0xff, 0xd9, 0, 0];
    assert long[2..][2..] == [0, 0] && long[2..][..2] == [0xff, 0xd9];
  }

  // ---- Fill bytes ---------------------------------------------------------------------------------

  /** Segments in a row, then a scan or too few bytes to look at. */
  ghost predicate ParsesAs(data: seq<Byte>, segments: seq<Segment>, rest: seq<Byte>) {
    AllWellFormed(segments) && data == PrintAll(segments) + rest && Ends(segments, rest)
  }

  ghost predicate Parses(data: seq<Byte>) {
    exists segments, rest :: ParsesAs(data, segments, rest)
  }

  /** The walk gives up on exactly what does not have that form. */
  lemma WalkAcceptsExactly(data: seq<Byte>)
    ensures Walk(data).Output? <==> Parses(data)
  {
    if Walk(data).Output? {
      var segments, rest := WalkParses(data);
      assert ParsesAs(data, segments, rest);
    }
    if Parses(data) {
      var segments, rest :| ParsesAs(data, segments, rest);
      WalkSegments(segments, rest);
    }
  }

  /** After segments with metadata among them, a file comes back as it was exactly when what follows them
      does not parse. */
  lemma UnchangedExactlyWhenUnparsed(segments: seq<Segment>, after: seq<Byte>)
    requires AllWellFormed(segments) && KeptOf(segments) != segments && |after| >= 2
    ensures var data := SOI + PrintAll(segments) + after;
            Strip(data) == data <==> !Parses(after)
  {
    WalkAcceptsExactly(after);
    WalkSegments(segments, after);
    AfterSoi(PrintAll(segments), after);
    KeptIsShorter(segments);
    if Walk(after).Output? { WalkShortens(after); }
  }

  lemma {:induction false} WalkShortens(data: seq<Byte>)
    requires Walk(data).Output?
    ensures |Walk(data).bytes| <= |data|
    decreases |data|
  {
    if |data| > 3 && data[1] != 0xda { WalkShortens(data[if NoLength(data[1]) then 2 else 2 + U16(data[2], data[3])..]); }
  }

  /** T.81 section B.1.1.2 lets any number of 0xff bytes stand before a marker. The walk takes the first of
      two for a marker with a length, made of the next two bytes: at least 48 kilobytes before a real one. */
  function FillSpan(after: seq<Byte>): (span: nat)
    requires |after| >= 4 && after[2] >= 0xc0
    ensures span >= 0xc002 && (after[2] >= 0xe1 ==> span >= 0xe102)
  {
    2 + U16(after[2], after[3])
  }

  /** So it gives up on nearly every file with one. */
  lemma FillByteGivesUp(marker: Byte, high: Byte, rest: seq<Byte>)
    ensures var data := [0xff, 0xff, marker, high] + rest;
            Walk(data).GivesUp? <==>
            || U16(marker, high) < 2 || U16(marker, high) > |rest| + 2
            || Walk(data[2 + U16(marker, high)..]).GivesUp?
  {}

  lemma WalkAtFill(after: seq<Byte>) returns (w: seq<Byte>)
    requires |after| >= 4 && after[0] == after[1] == 0xff && after[2] >= 0xc0
    ensures Walk(after).Output? ==> FillSpan(after) <= |after| && Walk(after).bytes == after[..FillSpan(after)] + w
  {
    w := if Walk(after).Output? then Walk(after[FillSpan(after)..]).bytes else [];
  }

  /** Whatever the file, a fill byte before a real marker shields what follows it: the file comes back as it
      was, or with everything in the next 48 kilobytes or more byte for byte, metadata included. */
  lemma FillByteShields(segments: seq<Segment>, after: seq<Byte>) returns (w: seq<Byte>)
    requires AllWellFormed(segments) && |after| >= 4 && after[0] == after[1] == 0xff && after[2] >= 0xc0
    ensures var (data, span) := (SOI + PrintAll(segments) + after, FillSpan(after));
            || Strip(data) == data
            || (span <= |after| && Strip(data) == SOI + PrintAll(KeptOf(segments)) + (after[..span] + w))
  {
    w := WalkAtFill(after);
    WalkSegments(segments, after);
    AfterSoi(PrintAll(segments), after);
    AfterSoi(PrintAll(KeptOf(segments)), after[..|after|]);
    if Walk(after).Output? { AfterSoi(PrintAll(KeptOf(segments)), Walk(after).bytes); }
  }

  function Fill(n: nat): (r: seq<Byte>)
    ensures |r| == n && forall i :: 0 <= i < n ==> r[i] == 0xff
  {
    seq(n, _ => 0xff)
  }

  /** The result has `head` where the file had it, behind the segments before it or those kept of them. */
  ghost predicate Survives(out: seq<Byte>, segments: seq<Segment>, head: seq<Byte>) {
    exists w: seq<Byte> :: SurvivesBefore(out, segments, head, w)
  }

  ghost predicate SurvivesBefore(out: seq<Byte>, segments: seq<Segment>, head: seq<Byte>, w: seq<Byte>) {
    AllWellFormed(segments) &&
    (out == SOI + PrintAll(segments) + (head + w) || out == SOI + PrintAll(KeptOf(segments)) + (head + w))
  }

  lemma FilledSurvives(segments: seq<Segment>, n: nat, m: Byte, payload: seq<Byte>, rest: seq<Byte>)
    requires AllWellFormed(segments) && WellFormed(Sized(m, payload)) && IsMetadata(m) && n > 0 && n + |payload| + 4 <= 0xe102
    ensures var head := Fill(n) + Print(Sized(m, payload));
            Survives(Strip(SOI + PrintAll(segments) + (head + rest)), segments, head)
  {
    var head := Fill(n) + Print(Sized(m, payload));
    FilledHead(n, m, payload, rest);
    HeadSurvives(segments, head, rest);
  }

  lemma FilledHead(n: nat, m: Byte, payload: seq<Byte>, rest: seq<Byte>)
    requires WellFormed(Sized(m, payload)) && IsMetadata(m) && n > 0 && n + |payload| + 4 <= 0xe102
    ensures var (head, after) := (Fill(n) + Print(Sized(m, payload)), Fill(n) + Print(Sized(m, payload)) + rest);
            4 <= |head| <= 0xe102 && after[0] == after[1] == 0xff && after[2] >= 0xe1
  {}

  lemma HeadSurvives(segments: seq<Segment>, head: seq<Byte>, rest: seq<Byte>)
    requires AllWellFormed(segments) && 4 <= |head| <= 0xe102
    requires var after := head + rest; after[0] == after[1] == 0xff && after[2] >= 0xe1
    ensures Survives(Strip(SOI + PrintAll(segments) + (head + rest)), segments, head)
  {
    var (after, out) := (head + rest, Strip(SOI + PrintAll(segments) + (head + rest)));
    var w := FillByteShields(segments, after);
    if out == SOI + PrintAll(segments) + after {
      assert SurvivesBefore(out, segments, head, rest);
    } else {
      Spliced(head, rest, FillSpan(after), w);
      assert SurvivesBefore(out, segments, head, rest[..FillSpan(after) - |head|] + w);
    }
  }

  lemma Spliced(a: seq<Byte>, b: seq<Byte>, n: nat, w: seq<Byte>)
    requires |a| <= n <= |a + b|
    ensures (a + b)[..n] + w == a + (b[..n - |a|] + w)
  {}

  predicate StartsPlain(bytes: seq<Byte>) {
    |bytes| < 2 || !IsMetadata(bytes[1])
  }

  lemma {:induction false} OutputStartsPlain(data: seq<Byte>)
    requires Walk(data).Output?
    ensures StartsPlain(Walk(data).bytes)
    decreases |data|
  {
    if |data| > 3 && !NoLength(data[1]) && IsMetadata(data[1]) { OutputStartsPlain(data[2 + U16(data[2], data[3])..]); }
  }

  lemma KeptStartsPlain(segments: seq<Segment>, bytes: seq<Byte>)
    requires AllWellFormed(segments) && StartsPlain(bytes)
    ensures StartsPlain(PrintAll(KeptOf(segments)) + bytes)
  {
    var kept := KeptOf(segments);
    if kept == [] { assert [] + bytes == bytes; } else { KeptAreKept(segments); }
  }

  lemma {:induction false} KeptAreKept(segments: seq<Segment>)
    ensures forall i :: 0 <= i < |KeptOf(segments)| ==> Kept(KeptOf(segments)[i])
  {
    if segments != [] { KeptAreKept(segments[1..]); }
  }

  /** What the walk emits has no metadata segment where a segment can start. */
  lemma {:induction false} OutputHasNoMetadata(segments: seq<Segment>, head: seq<Byte>, w: seq<Byte>, bytes: seq<Byte>)
    requires AllWellFormed(segments) && |head| >= 2 && IsMetadata(head[1]) && StartsPlain(bytes)
    ensures PrintAll(segments) + (head + w) != PrintAll(KeptOf(segments)) + bytes
    ensures head + w != bytes
  {
    if segments != [] {
      var (first, more) := (segments[0], segments[1..]);
      OutputHasNoMetadata(more, head, w, bytes);
      ConcatAssociates(Print(first), PrintAll(more), head + w);
      PrintKept(segments);
      if Kept(first) {
        ConcatAssociates(Print(first), PrintAll(KeptOf(more)), bytes);
        SameHead(Print(first), PrintAll(more) + (head + w), PrintAll(KeptOf(more)) + bytes);
      } else {
        KeptStartsPlain(segments, bytes);
        assert (PrintAll(segments) + (head + w))[1] == first.marker;
      }
    } else {
      assert [] + (head + w) == head + w && [] + bytes == bytes;
    }
  }

  lemma SameHead(a: seq<Byte>, x: seq<Byte>, y: seq<Byte>)
    ensures a + x == a + y <==> x == y
  {
    assert (a + x)[|a|..] == x && (a + y)[|a|..] == y;
  }

  lemma PlainGoes(segments: seq<Segment>, m: Byte, payload: seq<Byte>, rest: seq<Byte>)
    requires AllWellFormed(segments) && WellFormed(Sized(m, payload)) && IsMetadata(m) && Walk(rest).Output?
    ensures Strip(SOI + PrintAll(segments) + (Print(Sized(m, payload)) + rest))
         == SOI + PrintAll(KeptOf(segments)) + Walk(rest).bytes
  {
    var (head, w) := (Print(Sized(m, payload)), Walk(rest));
    WalkSegments(segments, head + rest);
    WalkOneSegment(Sized(m, payload), rest);
    Associate([], [], w);
    AfterSoi(PrintAll(segments), head + rest);
    AfterSoi(PrintAll(KeptOf(segments)), w.bytes);
  }

  lemma NothingSurvives(segments: seq<Segment>, head: seq<Byte>, bytes: seq<Byte>)
    requires AllWellFormed(segments) && |head| >= 2 && IsMetadata(head[1]) && StartsPlain(bytes)
    ensures !Survives(SOI + PrintAll(KeptOf(segments)) + bytes, segments, head)
  {
    var kept := PrintAll(KeptOf(segments));
    forall w ensures !SurvivesBefore(SOI + kept + bytes, segments, head, w) {
      OutputHasNoMetadata(segments, head, w, bytes);
      BehindSoi(PrintAll(segments), head + w, kept, bytes);
      BehindSoi(kept, head + w, kept, bytes);
      SameHead(kept, head + w, bytes);
    }
  }

  lemma BehindSoi(a: seq<Byte>, b: seq<Byte>, c: seq<Byte>, d: seq<Byte>)
    ensures SOI + a + b == SOI + c + d <==> a + b == c + d
  {
    AfterSoi(a, b);
    AfterSoi(c, d);
    SameHead(SOI, a + b, c + d);
  }

  /** The promise itself, with fill bytes: behind any segments, an APP1 to APP15 or COM segment is still in
      the result exactly when a fill byte stands before it or what follows it does not parse. */
  lemma MetadataSurvivesExactlyWhenFilled(segments: seq<Segment>, n: nat, m: Byte, payload: seq<Byte>, rest: seq<Byte>)
    requires AllWellFormed(segments) && WellFormed(Sized(m, payload)) && IsMetadata(m) && n + |payload| + 4 <= 0xe102
    ensures var head := Fill(n) + Print(Sized(m, payload));
            Survives(Strip(SOI + PrintAll(segments) + (head + rest)), segments, head) <==> n > 0 || !Parses(rest)
  {
    var s := Sized(m, payload);
    var head := Fill(n) + Print(s);
    WalkAcceptsExactly(rest);
    if n > 0 {
      FilledSurvives(segments, n, m, payload, rest);
    } else {
      assert head == Print(s);
      if Walk(rest).Output? {
        PlainGoes(segments, m, payload, rest);
        OutputStartsPlain(rest);
        NothingSurvives(segments, head, Walk(rest).bytes);
      } else {
        WalkSegments(segments, head + rest);
        WalkOneSegment(s, rest);
        AfterSoi(PrintAll(segments), head + rest);
        assert SurvivesBefore(Strip(SOI + PrintAll(segments) + (head + rest)), segments, head, rest);
      }
    }
  }

  /** With fewer than 48 kilobytes left the whole file comes back as it was. */
  lemma FillByteKeepsMetadata(segments: seq<Segment>, marker: Byte, high: Byte, rest: seq<Byte>)
    requires AllWellFormed(segments) && marker >= 0xc0 && |rest| + 2 < 0xc000
    ensures var data := SOI + PrintAll(segments) + ([0xff, 0xff, marker, high] + rest);
            Strip(data) == data
  {
    var after := [0xff, 0xff, marker, high] + rest;
    FillByteGivesUp(marker, high, rest);
    WalkSegments(segments, after);
    AfterSoi(PrintAll(segments), after);
  }

  /** An APP1 segment behind one fill byte. */
  lemma FilledApp1Survives()
    ensures var data := [0xff, 0xd8, 0xff, 0xff, 0xe1, 0x00, 0x04, 0x41, 0x42, 0xff, 0xda, 0, 0];
            Strip(data) == data
  {
    var data := [0xff, 0xd8, 0xff, 0xff, 0xe1, 0x00, 0x04, 0x41, 0x42, 0xff, 0xda, 0, 0];
    var rest := [0x04, 0x41, 0x42, 0xff, 0xda, 0, 0];
    FillByteKeepsMetadata([], 0xe1, 0x00, rest);
    assert data == SOI + PrintAll([]) + ([0xff, 0xff, 0xe1, 0x00] + rest);
  }

  // ---- Subsequence --------------------------------------------------------------------------------

  predicate Subsequence(a: seq<Byte>, b: seq<Byte>) {
    a == [] || (b != [] && ((a[0] == b[0] && Subsequence(a[1..], b[1..])) || Subsequence(a, b[1..])))
  }

  lemma {:induction false} SubsequenceConcat(a: seq<Byte>, b: seq<Byte>, c: seq<Byte>, d: seq<Byte>)
    requires Subsequence(a, b) && Subsequence(c, d)
    ensures Subsequence(a + c, b + d)
    decreases |b|
  {
    if b == [] {
      assert a + c == c && b + d == d;
    } else {
      assert (b + d)[1..] == b[1..] + d;
      if a != [] && a[0] == b[0] && Subsequence(a[1..], b[1..]) {
        SubsequenceConcat(a[1..], b[1..], c, d);
        assert (a + c)[1..] == a[1..] + c;
      } else {
        SubsequenceConcat(a, b[1..], c, d);
        SkipHead(a + c, b + d);
      }
    }
  }

  lemma SkipHead(a: seq<Byte>, b: seq<Byte>)
    requires b != [] && Subsequence(a, b[1..])
    ensures Subsequence(a, b)
  {}

  lemma {:induction false} SubsequenceReflexive(a: seq<Byte>)
    ensures Subsequence(a, a)
  {
    if a != [] { SubsequenceReflexive(a[1..]); }
  }

  lemma {:induction false} WalkEmitsSubsequence(data: seq<Byte>)
    requires Walk(data).Output?
    ensures Subsequence(Walk(data).bytes, data)
    decreases |data|
  {
    if |data| > 3 {
      if data[1] == 0xda {
        SubsequenceReflexive(data);
      } else {
        var size := if NoLength(data[1]) then 2 else 2 + U16(data[2], data[3]);
        WalkEmitsSubsequence(data[size..]);
        var head := if !NoLength(data[1]) && IsMetadata(data[1]) then [] else data[..size];
        SubsequenceReflexive(data[..size]);
        SubsequenceConcat(head, data[..size], Walk(data[size..]).bytes, data[size..]);
        assert data == data[..size] + data[size..];
      }
    }
  }

  /** On any input at all the result is the input or what is left after deleting some of its bytes. */
  lemma StripOnlyDeletes(data: seq<Byte>)
    ensures Subsequence(Strip(data), data)
  {
    if !LooksLikeJpeg(data) || Walk(data[2..]).GivesUp? {
      SubsequenceReflexive(data);
    } else {
      WalkEmitsSubsequence(data[2..]);
      SubsequenceReflexive(SOI);
      SubsequenceConcat(SOI, SOI, Walk(data[2..]).bytes, data[2..]);
      assert data == SOI + data[2..];
    }
  }
}
