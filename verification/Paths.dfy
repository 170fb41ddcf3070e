/** Materialised department paths: `/root/child/`, delimited at both ends. */
module Paths {
  import opened Wrappers

  type Id = string

  /** Generated identifiers are hexadecimal with dashes. */
  predicate ValidId(id: Id) {
    id != "" && '/' !in id
  }

  predicate ValidIds(ids: seq<Id>) {
    forall i :: 0 <= i < |ids| ==> ValidId(ids[i])
  }

  function PathUnder(parentPath: Option<string>, id: Id): string {
    (if parentPath.Some? then parentPath.value else "/") + id + "/"
  }

  predicate IsWithinSubtree(candidatePath: string, ancestorPath: string) {
    ancestorPath <= candidatePath
  }

  /** `String.prototype.split('/')`. */
  function Split(s: string): (r: seq<string>)
    ensures |r| > 0
  {
    if s == "" then [""]
    else
      var rest := Split(s[1..]);
      if s[0] == '/' then [""] + rest else [[s[0]] + rest[0]] + rest[1..]
  }

  function NonEmpty(parts: seq<string>): seq<string> {
    if parts == [] then [] else (if parts[0] == "" then [] else [parts[0]]) + NonEmpty(parts[1..])
  }

  function DepthOfPath(path: string): nat {
    var segments := NonEmpty(Split(path));
    if |segments| == 0 then 0 else |segments| - 1
  }

  // ---- The encoding of an ancestor chain ----------------------------------------------------------

  function Tail(ids: seq<Id>): string {
    if ids == [] then "" else ids[0] + "/" + Tail(ids[1..])
  }

  function Encode(ids: seq<Id>): string {
    "/" + Tail(ids)
  }

  lemma {:induction false} TailOfAppend(ids: seq<Id>, id: Id)
    ensures Tail(ids + [id]) == Tail(ids) + id + "/"
  {
    if ids == [] {
      assert ([] + [id])[1..] == [];
    } else {
      TailOfAppend(ids[1..], id);
      assert (ids + [id])[1..] == ids[1..] + [id];
    }
  }

  lemma EncodeOfAppend(ids: seq<Id>, id: Id)
    ensures Encode(ids + [id]) == Encode(ids) + id + "/"
  {
    TailOfAppend(ids, id);
  }

  lemma FirstSegment(a: Id, ta: string, b: Id, tb: string)
    requires ValidId(a) && ValidId(b) && a + "/" + ta <= b + "/" + tb
    ensures a == b && ta <= tb
  {
    var (x, y) := (a + "/" + ta, b + "/" + tb);
    NoSlashBefore(a, ta);
    NoSlashBefore(b, tb);
    assert x[|a|] == y[|a|];
    assert x[|b|] == y[|b|];
    assert a == x[..|a|] == y[..|a|] == b;
    assert ta == x[|a| + 1..] && tb == y[|a| + 1..];
  }

  lemma NoSlashBefore(a: Id, rest: string)
    requires ValidId(a)
    ensures forall k :: 0 <= k < |a| ==> (a + "/" + rest)[k] == a[k] != '/'
    ensures (a + "/" + rest)[|a|] == '/'
  {}

  lemma {:induction false} TailPrefix(a: seq<Id>, b: seq<Id>)
    requires ValidIds(a) && ValidIds(b)
    ensures Tail(a) <= Tail(b) <==> a <= b
  {
    if a != [] && b != [] {
      TailPrefix(a[1..], b[1..]);
      if Tail(a) <= Tail(b) {
        FirstSegment(a[0], Tail(a[1..]), b[0], Tail(b[1..]));
        assert a == [a[0]] + a[1..] && b == [b[0]] + b[1..];
      }
    }
  }

  /** One string comparison decides ancestry: no department's path is a prefix of another's unless
      its chain is. */
  lemma EncodePrefix(a: seq<Id>, b: seq<Id>)
    requires ValidIds(a) && ValidIds(b)
    ensures Encode(a) <= Encode(b) <==> a <= b
  {
    TailPrefix(a, b);
    assert Encode(a)[1..] == Tail(a) && Encode(b)[1..] == Tail(b);
    if Tail(a) <= Tail(b) { assert Encode(b)[..|Encode(a)|] == "/" + Tail(b)[..|Tail(a)|]; }
  }

  lemma EncodeInjective(a: seq<Id>, b: seq<Id>)
    requires ValidIds(a) && ValidIds(b) && Encode(a) == Encode(b)
    ensures a == b
  {
    EncodePrefix(a, b);
    EncodePrefix(b, a);
  }

  lemma {:induction false} SplitAfter(id: string, rest: string)
    requires '/' !in id
    ensures Split(id + "/" + rest) == [id] + Split(rest)
  {
    var s := id + "/" + rest;
    if id == "" {
      assert s[1..] == rest;
    } else {
      SplitAfter(id[1..], rest);
      assert s[1..] == id[1..] + "/" + rest;
      assert [s[0]] + id[1..] == id;
    }
  }

  lemma {:induction false} SegmentsOfTail(ids: seq<Id>)
    requires ValidIds(ids)
    ensures NonEmpty(Split(Tail(ids))) == ids
  {
    if ids == [] {
      assert NonEmpty([""]) == [];
    } else {
      SegmentsOfTail(ids[1..]);
      SplitAfter(ids[0], Tail(ids[1..]));
      var parts := [ids[0]] + Split(Tail(ids[1..]));
      assert parts[1..] == Split(Tail(ids[1..]));
    }
  }

  /** Splitting a path and dropping the empty ends gives the chain back. */
  lemma SegmentsOfPath(ids: seq<Id>)
    requires ValidIds(ids)
    ensures NonEmpty(Split(Encode(ids))) == ids
    ensures DepthOfPath(Encode(ids)) == if ids == [] then 0 else |ids| - 1
  {
    SegmentsOfTail(ids);
    assert Encode(ids)[1..] == Tail(ids);
    assert ([""] + Split(Tail(ids)))[1..] == Split(Tail(ids));
  }
}
