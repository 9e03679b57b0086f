/** Bytewise order on byte strings, and prefixes. */
module ByteOrder {
  import opened Tables

  predicate Less(a: Bytes, b: Bytes) {
    b != [] && (a == [] || a[0] < b[0] || (a[0] == b[0] && Less(a[1..], b[1..])))
  }

  /** a runs out, or has the smaller byte, at i, where it first differs from b. */
  ghost predicate ComesFirstAt(a: Bytes, b: Bytes, i: nat) {
    i <= |a| && i < |b| && (i == |a| || a[i] < b[i]) && forall j :: 0 <= j < i ==> a[j] == b[j]
  }

  /** The order of SQLite's BINARY collation and of Go's strings. */
  lemma {:induction false} LessIff(a: Bytes, b: Bytes)
    ensures Less(a, b) <==> exists i: nat :: ComesFirstAt(a, b, i)
  {
    if a == [] || b == [] || a[0] != b[0] {
      assert ComesFirstAt(a, b, 0) <==> Less(a, b);
    } else {
      LessIff(a[1..], b[1..]);
      if i: nat :| ComesFirstAt(a[1..], b[1..], i) {
        assert ComesFirstAt(a, b, i + 1) by {
          forall j | 0 <= j < i + 1 ensures a[j] == b[j] { if j > 0 { assert a[1..][j - 1] == b[1..][j - 1]; } }
        }
      }
      if i: nat :| ComesFirstAt(a, b, i) {
        assert i > 0 && ComesFirstAt(a[1..], b[1..], i - 1);
      }
    }
  }

  predicate StartsWith(s: Bytes, p: Bytes) { |p| <= |s| && s[..|p|] == p }

  lemma {:induction false} LessTransitive(a: Bytes, b: Bytes, c: Bytes)
    requires Less(a, b) && Less(b, c)
    ensures Less(a, c)
  {
    if a != [] && a[0] == b[0] == c[0] { LessTransitive(a[1..], b[1..], c[1..]); }
  }

  lemma {:induction false} LessIrreflexive(a: Bytes)
    ensures !Less(a, a)
  {
    if a != [] { LessIrreflexive(a[1..]); }
  }

  lemma LessTotal(a: Bytes, b: Bytes)
    ensures a == b || Less(a, b) || Less(b, a)
  {
    if a != [] && b != [] && a[0] == b[0] {
      LessTotal(a[1..], b[1..]);
      assert a == [a[0]] + a[1..] && b == [b[0]] + b[1..];
    }
  }

  lemma LessAsymmetric(a: Bytes, b: Bytes)
    requires Less(a, b)
    ensures a != b && !Less(b, a)
  {
    LessIrreflexive(a);
    if Less(b, a) { LessTransitive(a, b, a); }
  }

  /** What lies between two strings with a common prefix has that prefix. */
  lemma {:induction false} PrefixIsConvex(p: Bytes, a: Bytes, b: Bytes, c: Bytes)
    requires StartsWith(a, p) && StartsWith(c, p)
    requires Less(a, b) && Less(b, c)
    ensures StartsWith(b, p)
    decreases |p|
  {
    if p != [] {
      assert a[0] == p[0] && c[0] == p[0];
      assert StartsWith(a[1..], p[1..]) && StartsWith(c[1..], p[1..]);
      assert b[0] == p[0];
      PrefixIsConvex(p[1..], a[1..], b[1..], c[1..]);
      assert b[..|p|] == [b[0]] + b[1..][..|p| - 1] && p == [p[0]] + p[1..];
    }
  }

  /** Strictly ascending, hence without repeats. */
  ghost predicate Ascending(xs: seq<Bytes>) { forall i, j :: 0 <= i < j < |xs| ==> Less(xs[i], xs[j]) }
}
