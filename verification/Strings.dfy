/** The few functions of Go's strings, strconv and path/filepath packages that
    several handlers rely on. */
module Strings {
  import opened Tables

  const MAX_INT64 := 0x7FFF_FFFF_FFFF_FFFF

  const SLASH: Byte := 47
  const SEMICOLON: Byte := 59

  function HexDigit(b: Byte): Option<Byte> {
    if 48 <= b <= 57 then Some(b - 48)
    else if 97 <= b <= 102 then Some(b - 87)
    else if 65 <= b <= 70 then Some(b - 55)
    else None
  }

  /** 0 to 9, a to f and A to F, in this order. */
  lemma HexDigitIs(b: Byte, n: Byte)
    ensures HexDigit(b) == Some(n) <==> (n < 10 && b == 48 + n) || (10 <= n < 16 && (b == 87 + n || b == 55 + n))
  {
  }

  /** strings.Trim with a cutset of one character. */
  function TrimOuter<T(==)>(s: seq<T>, c: T): seq<T>
    decreases |s|
  {
    if s != [] && s[0] == c then TrimOuter(s[1..], c)
    else if s != [] && s[|s| - 1] == c then TrimOuter(s[..|s| - 1], c)
    else s
  }

  /** The slice [i..j) between the outer runs of c. */
  ghost predicate TrimmedTo<T>(s: seq<T>, c: T, i: nat, j: nat) {
    && i <= j <= |s|
    && (forall k :: 0 <= k < i ==> s[k] == c) && (forall k :: j <= k < |s| ==> s[k] == c)
    && (i < j ==> s[i] != c && s[j - 1] != c)
  }

  /** Exactly the outer runs of c go. */
  lemma {:induction false} TrimOuterIs<T>(s: seq<T>, c: T) returns (i: nat, j: nat)
    ensures TrimmedTo(s, c, i, j) && TrimOuter(s, c) == s[i..j]
    decreases |s|
  {
    if s != [] && s[0] == c {
      i, j := TrimOuterIs(s[1..], c);
      i, j := i + 1, j + 1;
      forall k | 0 <= k < i ensures s[k] == c { if k > 0 { assert s[1..][k - 1] == c; } }
      forall k | j <= k < |s| ensures s[k] == c { assert s[1..][k - 1] == c; }
    } else if s != [] && s[|s| - 1] == c {
      i, j := TrimOuterIs(s[..|s| - 1], c);
      forall k | j <= k < |s| ensures s[k] == c { if k < |s| - 1 { assert s[..|s| - 1][k] == c; } }
    } else {
      i, j := 0, |s|;
    }
  }

  lemma {:induction false} TrimIsIdentityIff<T>(s: seq<T>, c: T)
    ensures |TrimOuter(s, c)| <= |s|
    ensures TrimOuter(s, c) == s <==> (s == [] || (s[0] != c && s[|s| - 1] != c))
    decreases |s|
  {
    if s != [] && s[0] == c {
      TrimIsIdentityIff(s[1..], c);
    } else if s != [] && s[|s| - 1] == c {
      TrimIsIdentityIff(s[..|s| - 1], c);
    }
  }

  /** What is left has none of it at its ends. */
  lemma {:induction false} TrimmedEnds<T>(s: seq<T>, c: T)
    ensures var t := TrimOuter(s, c); t != [] ==> t[0] != c && t[|t| - 1] != c
    decreases |s|
  {
    if s != [] && s[0] == c {
      TrimmedEnds(s[1..], c);
    } else if s != [] && s[|s| - 1] == c {
      TrimmedEnds(s[..|s| - 1], c);
    }
  }

  lemma {:induction false} TrimmedToNothing<T>(s: seq<T>, c: T)
    requires TrimOuter(s, c) == []
    ensures s == [] || s[0] == c
    decreases |s|
  {
    if s != [] && s[0] != c && s[|s| - 1] == c {
      TrimmedToNothing(s[..|s| - 1], c);
    }
  }

  predicate EndsInSlash(s: string) { s != "" && s[|s| - 1] == '/' }

  /** strings.TrimSuffix(s, "/"). */
  function TrimSuffix(s: string): string { if EndsInSlash(s) then s[..|s| - 1] else s }

  function StripTrailing(s: string): string
    decreases |s|
  {
    if EndsInSlash(s) then StripTrailing(s[..|s| - 1]) else s
  }

  function AfterLastSlash(s: string): string
    decreases |s|
  {
    if s == "" || EndsInSlash(s) then "" else AfterLastSlash(s[..|s| - 1]) + [s[|s| - 1]]
  }

  /** filepath.Base. */
  function Base(path: string): string {
    if path == "" then "."
    else
      var s := StripTrailing(path);
      if s == "" then "/" else AfterLastSlash(s)
  }
}
