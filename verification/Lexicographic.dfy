/** The order of strings by code unit, as JavaScript and the database compare them. */
module Lexicographic {
  predicate LexLeq(a: string, b: string) {
    a == "" || (b != "" && (a[0] < b[0] || (a[0] == b[0] && LexLeq(a[1..], b[1..]))))
  }

  lemma {:induction false} PrefixIsLower(p: string, s: string)
    requires p <= s
    ensures LexLeq(p, s)
  {
    if p != "" { PrefixIsLower(p[1..], s[1..]); }
  }

  lemma {:induction false} LexAntisymmetric(a: string, b: string)
    requires LexLeq(a, b) && LexLeq(b, a)
    ensures a == b
  {
    if a != "" {
      LexAntisymmetric(a[1..], b[1..]);
      assert a == [a[0]] + a[1..] && b == [b[0]] + b[1..];
    }
  }

  /** The strings with a given prefix form an interval of the order. */
  lemma {:induction false} PrefixIsInterval(p: string, x: string, y: string, z: string)
    requires p <= x && p <= z && LexLeq(x, y) && LexLeq(y, z)
    ensures p <= y
  {
    if p != "" {
      PrefixIsInterval(p[1..], x[1..], y[1..], z[1..]);
      assert p == [p[0]] + p[1..] && y == [y[0]] + y[1..];
    }
  }

  predicate LexLess(a: string, b: string) {
    LexLeq(a, b) && a != b
  }

  /** The first place where two strings differ decides. */
  lemma {:induction false} FirstDifference(a: string, b: string, k: nat)
    requires k < |a| && k < |b| && a[..k] == b[..k] && a[k] < b[k]
    ensures LexLess(a, b)
    decreases k
  {
    if k > 0 {
      assert a[0] == a[..k][0] == b[..k][0] == b[0];
      assert a[1..][..k - 1] == a[..k][1..] && b[1..][..k - 1] == b[..k][1..];
      FirstDifference(a[1..], b[1..], k - 1);
    }
  }
}
