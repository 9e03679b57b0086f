/** Display paths and deduplicated file names
    (server/internal/store/path_builder.go). */
module Naming {
  import opened Strings
  import opened Tables

  predicate HasPrefix(s: string, p: string) { |p| <= |s| && s[..|p|] == p }

  /** "" when the key is not below the store's root prefix. */
  function DisplayPathFromKey(key: string, rootPrefix: string): string {
    if rootPrefix == "" then TrimOuter(key, '/')
    else if key == rootPrefix then ""
    else if HasPrefix(key, rootPrefix + "/") then TrimOuter(key[|rootPrefix| + 1..], '/')
    else ""
  }

  /** Below a root prefix the display path is what follows it, without outer
      slashes; elsewhere there is none. */
  lemma DisplayPathIs(prefix: string, rest: string)
    requires prefix != ""
    ensures DisplayPathFromKey(prefix + "/" + rest, prefix) == TrimOuter(rest, '/')
    ensures forall key :: !HasPrefix(key, prefix + "/") ==> DisplayPathFromKey(key, prefix) == ""
    ensures DisplayPathFromKey(rest, "") == TrimOuter(rest, '/')
  {
    var key := prefix + "/" + rest;
    assert key[..|prefix| + 1] == prefix + "/" && key[|prefix| + 1..] == rest && |key| > |prefix|;
  }

  // ------------------------------------------------------------------- extensions

  /** filepath.Ext: from the last dot of the last path element. */
  function Ext(s: string): string {
    if s == "" || s[|s| - 1] == '/' then ""
    else if s[|s| - 1] == '.' then "."
    else
      var e := Ext(s[..|s| - 1]);
      if e == "" then "" else e + [s[|s| - 1]]
  }

  lemma ExtIsSuffix(s: string)
    ensures |Ext(s)| <= |s| && s[|s| - |Ext(s)|..] == Ext(s)
  {
    if s != "" && s[|s| - 1] != '/' && s[|s| - 1] != '.' && Ext(s[..|s| - 1]) != "" {
      ExtIsSuffix(s[..|s| - 1]);
    }
  }

  /** The last path element begins at i and holds no dot. */
  ghost predicate DotlessFrom(s: string, i: int) {
    0 <= i <= |s| && (i == 0 || s[i - 1] == '/') && forall j :: i <= j < |s| ==> s[j] != '/' && s[j] != '.'
  }

  /** e is what begins at the last dot of the last path element of s, if there is one. */
  ghost predicate IsExtension(s: string, e: string) {
    && |e| <= |s| && s[|s| - |e|..] == e
    && if e == "" then exists i :: DotlessFrom(s, i)
       else e[0] == '.' && forall j :: 0 < j < |e| ==> e[j] != '/' && e[j] != '.'
  }

  lemma {:induction false} ExtIs(s: string)
    ensures IsExtension(s, Ext(s))
    decreases |s|
  {
    if s != "" && s[|s| - 1] != '/' && s[|s| - 1] != '.' {
      var t := s[..|s| - 1];
      ExtIs(t);
      if Ext(t) == "" {
        var i :| DotlessFrom(t, i);
        assert DotlessFrom(s, i);
      } else {
        assert s == t + [s[|s| - 1]];
        assert s[|s| - |Ext(s)|..] == t[|t| - |Ext(t)|..] + [s[|s| - 1]];
      }
    } else {
      assert s[|s|..] == "";
      if s == "" || s[|s| - 1] == '/' { assert DotlessFrom(s, |s|); }
    }
  }

  lemma ExtensionIsUnique(s: string, e: string, f: string)
    requires IsExtension(s, e) && IsExtension(s, f)
    ensures e == f
  {
    NoLonger(s, e, f);
    NoLonger(s, f, e);
  }

  lemma NoLonger(s: string, e: string, f: string)
    requires IsExtension(s, e) && IsExtension(s, f)
    ensures |e| <= |f|
  {
    forall k | |s| - |e| <= k < |s| ensures s[k] == e[k - (|s| - |e|)] {
      assert s[|s| - |e|..][k - (|s| - |e|)] == s[k];
    }
    forall k | |s| - |f| <= k < |s| ensures s[k] == f[k - (|s| - |f|)] {
      assert s[|s| - |f|..][k - (|s| - |f|)] == s[k];
    }
  }

  function Stem(s: string): string
  {
    ExtIsSuffix(s);
    s[..|s| - |Ext(s)|]
  }

  function Digit(d: nat): char
    requires d < 10
  {
    "0123456789"[d]
  }

  function Itoa(n: nat): string { if n < 10 then [Digit(n)] else Itoa(n / 10) + [Digit(n % 10)] }

  lemma DigitInjective(a: nat, b: nat)
    requires a < 10 && b < 10 && Digit(a) == Digit(b)
    ensures a == b
  {
  }

  lemma {:induction false} ItoaInjective(a: nat, b: nat)
    requires Itoa(a) == Itoa(b)
    ensures a == b
    decreases a
  {
    ItoaLength(a);
    ItoaLength(b);
    if a < 10 {
      assert Itoa(a)[0] == Itoa(b)[0];
      DigitInjective(a, b);
    } else {
      var x, y := Itoa(a / 10) + [Digit(a % 10)], Itoa(b / 10) + [Digit(b % 10)];
      assert x == y && x[|x| - 1] == y[|y| - 1] && x[..|x| - 1] == Itoa(a / 10) && y[..|y| - 1] == Itoa(b / 10);
      DigitInjective(a % 10, b % 10);
      ItoaInjective(a / 10, b / 10);
    }
  }

  lemma ItoaLength(n: nat)
    ensures if n < 10 then |Itoa(n)| == 1 else |Itoa(n)| > 1
  {
    if n >= 10 { ItoaLength(n / 10); }
  }

  // -------------------------------------------------------------------- DedupName

  /** The i-th alternative for a taken name. */
  function Candidate(name: string, i: nat): string { Stem(name) + " (" + Itoa(i) + ")" + Ext(name) }

  /** The number goes in front of the extension: name.ext becomes name (1).ext. */
  lemma CandidateIs(stem: string, ext: string, i: nat)
    requires IsExtension(stem + ext, ext)
    ensures Candidate(stem + ext, i) == stem + " (" + Itoa(i) + ")" + ext
  {
    ExtIs(stem + ext);
    ExtensionIsUnique(stem + ext, ext, Ext(stem + ext));
    assert (stem + ext)[..|stem|] == stem;
  }

  lemma CandidateInjective(name: string, i: nat, j: nat)
    requires Candidate(name, i) == Candidate(name, j)
    ensures i == j
  {
    MiddlesAgree(Stem(name) + " (", Itoa(i), Itoa(j), ")", Ext(name));
    ItoaInjective(i, j);
  }

  lemma MiddlesAgree(before: string, x: string, y: string, mark: string, after: string)
    requires before + x + mark + after == before + y + mark + after
    ensures x == y
  {
    var s, n := before + x + mark + after, |before|;
    assert |s| == n + |x| + |mark| + |after| == n + |y| + |mark| + |after|;
    assert s[n..n + |x|] == x && s[n..n + |y|] == y;
  }

  /** r is the name itself if free, else the least-numbered free alternative. */
  ghost predicate Deduped(name: string, taken: set<string>, r: string) {
    if name !in taken then r == name
    else exists i: nat :: LeastFree(name, taken, i) && r == Candidate(name, i)
  }

  ghost predicate LeastFree(name: string, taken: set<string>, i: nat) {
    i > 0 && Candidate(name, i) !in taken && forall j :: 0 < j < i ==> Candidate(name, j) in taken
  }

  lemma DedupedIsUnique(name: string, taken: set<string>, r: string, q: string)
    requires Deduped(name, taken, r) && Deduped(name, taken, q)
    ensures r == q && r !in taken
  {
    if name in taken {
      var i: nat :| LeastFree(name, taken, i) && r == Candidate(name, i);
      var j: nat :| LeastFree(name, taken, j) && q == Candidate(name, j);
      assert (i < j ==> Candidate(name, i) in taken) && (j < i ==> Candidate(name, j) in taken);
    }
  }

  /** The `existing` map of names in use, updated in place. */
  class NameSet {
    var names: set<string>

    constructor (names: set<string>)
      ensures this.names == names
    {
      this.names := names;
    }

    /** Ends because only finitely many alternatives can be taken. */
    method DedupName(name: string) returns (r: string)
      modifies this
      ensures Deduped(name, old(names), r) && names == old(names) + {r}
    {
      if name !in names {
        names := names + {name};
        return name;
      }
      var i := 1;
      while true
        invariant i > 0 && names == old(names) && forall j :: 0 < j < i ==> Candidate(name, j) in names
        decreases |names| + 1 - i
      {
        var candidate := Candidate(name, i);
        if candidate !in names {
          names := names + {candidate};
          assert LeastFree(name, old(names), i);
          return candidate;
        }
        Pigeonhole(name, i + 1, names);
        i := i + 1;
      }
    }
  }

  /** No more alternatives are taken than there are names. */
  lemma Pigeonhole(name: string, i: nat, names: set<string>)
    requires i > 0 && forall j :: 0 < j < i ==> Candidate(name, j) in names
    ensures i - 1 <= |names|
  {
    TriedSize(name, i);
    SubsetSize(Tried(name, i), names);
  }

  function Tried(name: string, i: nat): set<string> { set j | 0 < j < i :: Candidate(name, j) }

  lemma TriedSize(name: string, i: nat)
    requires i > 0
    ensures |Tried(name, i)| == i - 1
  {
    if i > 1 {
      var last := Candidate(name, i - 1);
      TriedSize(name, i - 1);
      forall j | 0 < j < i - 1 ensures Candidate(name, j) != last {
        if Candidate(name, j) == last { CandidateInjective(name, j, i - 1); }
      }
      assert last !in Tried(name, i - 1);
      assert Tried(name, i) == Tried(name, i - 1) + {last};
    }
  }

  /** The results of deduplicating names one after the other. */
  ghost predicate DedupedAll(names: seq<string>, taken: set<string>, rs: seq<string>)
    requires |rs| == |names|
    decreases |names|
  {
    names == [] || (Deduped(names[0], taken, rs[0]) && DedupedAll(names[1..], taken + {rs[0]}, rs[1..]))
  }

  /** Any sequence of calls returns pairwise distinct names, none of them taken
      at the start. */
  lemma {:induction false} DedupedAllAreFresh(names: seq<string>, taken: set<string>, rs: seq<string>)
    requires |rs| == |names| && DedupedAll(names, taken, rs)
    ensures forall i :: 0 <= i < |rs| ==> rs[i] !in taken
    ensures forall i, j :: 0 <= i < j < |rs| ==> rs[i] != rs[j]
    decreases |names|
  {
    if names != [] {
      DedupedIsUnique(names[0], taken, rs[0], rs[0]);
      DedupedAllAreFresh(names[1..], taken + {rs[0]}, rs[1..]);
      forall i | 0 < i < |rs| ensures rs[i] !in taken && rs[i] != rs[0] { assert rs[i] == rs[1..][i - 1]; }
      forall i, j | 0 <= i < j < |rs| ensures rs[i] != rs[j] {
        if i > 0 { assert rs[i] == rs[1..][i - 1] && rs[j] == rs[1..][j - 1]; }
      }
    }
  }
}
