/** ListObjectsV2: one page, and what following continuation tokens adds up to
    (server/internal/handler/s3gateway.go). */
module Listing {
  import opened Strings
  import opened Tables
  import opened ByteOrder

  // ------------------------------------------------------------ continuation tokens

  function HexChar(n: nat): Byte
    requires n < 16
  {
    if n < 10 then 48 + n else 87 + n
  }

  function HexEncode(s: Bytes): Bytes {
    if s == [] then [] else [HexChar(s[0] / 16), HexChar(s[0] % 16)] + HexEncode(s[1..])
  }

  function HexDecode(s: Bytes): Option<Bytes> {
    if s == [] then Some([])
    else if |s| == 1 then None
    else match (HexDigit(s[0]), HexDigit(s[1]), HexDecode(s[2..]))
      case (Some(hi), Some(lo), Some(rest)) => Some([hi * 16 + lo] + rest)
      case _ => None
  }

  lemma HexOfByte(b: Byte)
    ensures HexDigit(HexChar(b / 16)) == Some(b / 16) && HexDigit(HexChar(b % 16)) == Some(b % 16)
    ensures (b / 16) * 16 + b % 16 == b
  {
  }

  lemma {:induction false} HexRoundTrip(s: Bytes)
    ensures HexDecode(HexEncode(s)) == Some(s) && (s != [] ==> HexEncode(s) != [])
  {
    if s != [] {
      var e := HexEncode(s);
      HexOfByte(s[0]);
      HexRoundTrip(s[1..]);
      assert |e| >= 2 && e[2..] == HexEncode(s[1..]);
      assert [s[0]] + s[1..] == s;
    }
  }

  /** Two lower-case digits for every byte. */
  lemma {:induction false} HexEncodeIs(s: Bytes)
    ensures var e := HexEncode(s);
            |e| == 2 * |s| && forall i :: 0 <= i < |e| ==> 48 <= e[i] <= 57 || 97 <= e[i] <= 102
  {
    if s != [] { HexEncodeIs(s[1..]); }
  }

  ghost predicate IsHexDigit(b: Byte) { 48 <= b <= 57 || 97 <= b <= 102 || 65 <= b <= 70 }

  /** What hex.DecodeString refuses: an odd length, or a byte that is no digit. */
  ghost predicate Undecodable(s: Bytes) { |s| % 2 == 1 || exists i :: 0 <= i < |s| && !IsHexDigit(s[i]) }

  lemma {:induction false} UndecodableIff(s: Bytes)
    ensures HexDecode(s).None? <==> Undecodable(s)
    decreases |s|
  {
    if |s| >= 2 {
      UndecodableIff(s[2..]);
      assert forall b :: HexDigit(b).None? <==> !IsHexDigit(b);
      if i :| 0 <= i < |s| && !IsHexDigit(s[i]) { if i >= 2 { assert s[2..][i - 2] == s[i]; } }
      if i :| 0 <= i < |s[2..]| && !IsHexDigit(s[2..][i]) { assert !IsHexDigit(s[i + 2]); }
    }
  }

  // ---------------------------------------------------------------- grouping of keys

  predicate OccursAt(s: Bytes, d: Bytes, i: nat) { i + |d| <= |s| && s[i..i + |d|] == d }

  lemma OccursInRest(s: Bytes, d: Bytes)
    requires s != []
    ensures forall i: nat {:trigger OccursAt(s[1..], d, i)} :: OccursAt(s[1..], d, i) <==> OccursAt(s, d, i + 1)
    ensures forall i: nat {:trigger OccursAt(s, d, i)} :: i > 0 ==> (OccursAt(s, d, i) <==> OccursAt(s[1..], d, i - 1))
  {
    forall i: nat ensures OccursAt(s[1..], d, i) <==> OccursAt(s, d, i + 1) {
      if i + |d| < |s| { assert s[1..][i..i + |d|] == s[i + 1..i + 1 + |d|]; }
    }
    forall i: nat | i > 0 ensures OccursAt(s, d, i) <==> OccursAt(s[1..], d, i - 1) {
      var j := i - 1;
      assert OccursAt(s[1..], d, j) <==> OccursAt(s, d, j + 1);
    }
  }

  /** strings.Index: the first occurrence of d in s. */
  function Index(s: Bytes, d: Bytes): (r: Option<nat>)
    ensures r.Some? ==> OccursAt(s, d, r.value)
    ensures forall i: nat :: OccursAt(s, d, i) ==> r.Some? && r.value <= i
  {
    if |s| < |d| then None
    else if s[..|d|] == d then Some(0)
    else
      var rest := Index(s[1..], d);
      OccursInRest(s, d);
      if rest.Some? then Some(rest.value + 1) else None
  }

  /** The common prefix a key is folded into, if it is. */
  function Label(prefix: Bytes, delim: Bytes, key: Bytes): Option<Bytes> {
    if delim == [] then None
    else
      var rel := if StartsWith(key, prefix) then key[|prefix|..] else key;
      match Index(rel, delim)
      case None => None
      case Some(i) => Some(prefix + rel[..i + 1])
  }

  /** The keys reported themselves, in order. */
  function Contents(prefix: Bytes, delim: Bytes, fs: seq<Bytes>): seq<Bytes> {
    if fs == [] then []
    else
      var init, k := fs[..|fs| - 1], fs[|fs| - 1];
      Contents(prefix, delim, init) + if Label(prefix, delim, k).None? then [k] else []
  }

  /** The labels of the folded keys, one per key, in order. */
  function Labels(prefix: Bytes, delim: Bytes, fs: seq<Bytes>): seq<Bytes> {
    if fs == [] then []
    else
      var init, k := fs[..|fs| - 1], fs[|fs| - 1];
      Labels(prefix, delim, init) + if Label(prefix, delim, k).Some? then [Label(prefix, delim, k).value] else []
  }

  /** The distinct labels in order of first appearance. */
  function Groups(prefix: Bytes, delim: Bytes, fs: seq<Bytes>): seq<Bytes> {
    if fs == [] then []
    else
      var init, l := fs[..|fs| - 1], Label(prefix, delim, fs[|fs| - 1]);
      var gs := Groups(prefix, delim, init);
      if l.Some? && l.value !in gs then gs + [l.value] else gs
  }

  function Entries(prefix: Bytes, delim: Bytes, fs: seq<Bytes>): nat {
    |Contents(prefix, delim, fs)| + |Groups(prefix, delim, fs)|
  }

  // ----------------------------------------------------------------------- one page

  /** `next` is [] when NextContinuationToken is absent. */
  datatype Page = Page(contents: seq<Bytes>, prefixes: seq<Bytes>, truncated: bool, next: Bytes)

  /** maxKeys, prefix (as sent) and delimiter of a request. */
  datatype Query = Query(prefix: Bytes, delim: Bytes, maxKeys: Option<int>)

  function Limit(q: Query): (n: nat)
    ensures n > 0
  {
    if q.maxKeys.Some? && q.maxKeys.value > 0 then q.maxKeys.value else 1000
  }

  /** The SELECT: ready keys LIKE prefix% after `after`, in order. */
  function Matching(keys: seq<Bytes>, prefix: Bytes, after: Bytes): seq<Bytes> {
    if keys == [] then []
    else
      var k := keys[0];
      (if StartsWith(k, prefix) && (after == [] || Less(after, k)) then [k] else [])
          + Matching(keys[1..], prefix, after)
  }

  /** Where the loop stops: the first n from `n` on with a full page before it. */
  function Taken(prefix: Bytes, delim: Bytes, fs: seq<Bytes>, limit: nat, n: nat): (r: nat)
    requires n <= |fs|
    ensures n <= r <= |fs| && (r < |fs| ==> Entries(prefix, delim, fs[..r]) >= limit)
    ensures forall i :: n <= i < r ==> Entries(prefix, delim, fs[..i]) < limit
    decreases |fs| - n
  {
    if n == |fs| || Entries(prefix, delim, fs[..n]) >= limit then n else Taken(prefix, delim, fs, limit, n + 1)
  }

  /** The page for the files the SELECT returned. */
  function PageOf(prefix: Bytes, delim: Bytes, fs: seq<Bytes>, limit: nat): Page {
    var n := Taken(prefix, delim, fs, limit, 0);
    Page(Contents(prefix, delim, fs[..n]), Groups(prefix, delim, fs[..n]), n < |fs|,
         if 0 < n < |fs| then HexEncode(fs[n - 1]) else [])
  }

  /** The startAfter in force: a token that decodes overrides the parameter. */
  function StartAfter(startAfter: Bytes, token: Bytes): Bytes {
    if token != [] && HexDecode(token).Some? then HexDecode(token).value else startAfter
  }

  function List(keys: seq<Bytes>, q: Query, startAfter: Bytes, token: Bytes): Page {
    var prefix := TrimOuter(q.prefix, SLASH);
    PageOf(prefix, q.delim, Matching(keys, prefix, StartAfter(startAfter, token)), Limit(q))
  }

  /** The loop over the selected files. */
  method BuildPage(files: seq<Bytes>, prefix: Bytes, delim: Bytes, maxKeys: nat) returns (page: Page)
    requires [] !in files && maxKeys > 0
    ensures page == PageOf(prefix, delim, files, maxKeys)
  {
    var contents: seq<Bytes>, prefixes: seq<Bytes>, keyCount := [], [], 0;
    var seen: set<Bytes>, last: Bytes, truncated := {}, [], false;
    var i := 0;
    while i < |files|
      invariant 0 <= i <= |files|
      invariant contents == Contents(prefix, delim, files[..i]) && prefixes == Groups(prefix, delim, files[..i])
      invariant keyCount == |contents| + |prefixes| && (forall p :: p in seen <==> p in prefixes)
      invariant !truncated && Taken(prefix, delim, files, maxKeys, 0) == Taken(prefix, delim, files, maxKeys, i)
      invariant last == if i == 0 then [] else files[i - 1]
    {
      if keyCount >= maxKeys {
        truncated := true;
        break;
      }
      var objKey := files[i];
      assert files[..i + 1][..i] == files[..i] && files[..i + 1][i] == objKey;
      var group := Label(prefix, delim, objKey);
      if group.Some? {
        if group.value !in seen {
          seen := seen + {group.value};
          prefixes := prefixes + [group.value];
          keyCount := keyCount + 1;
        }
      } else {
        contents := contents + [objKey];
        keyCount := keyCount + 1;
      }
      last := objKey;
      i := i + 1;
    }
    assert files[..|files|] == files;
    page := Page(contents, prefixes, truncated, if truncated && last != [] then HexEncode(last) else []);
  }

  /** `keys` are the non-empty storage paths of the ready files in bytewise order. */
  method S3ListObjectsV2(keys: seq<Bytes>, q: Query, startAfter: Bytes, token: Bytes) returns (page: Page)
    requires [] !in keys
    ensures page == List(keys, q, startAfter, token)
    ensures var n := if q.maxKeys.Some? && q.maxKeys.value > 0 then q.maxKeys.value else 1000;
            && |page.contents| + |page.prefixes| <= n
            && (page.truncated ==> |page.contents| + |page.prefixes| == n && page.next != [])
            && (!page.truncated ==> page.next == [])
  {
    var prefix, maxKeys, after := TrimOuter(q.prefix, SLASH), 1000, startAfter;
    if q.maxKeys.Some? && q.maxKeys.value > 0 { maxKeys := q.maxKeys.value; }
    if token != [] {
      var raw := HexDecode(token);
      if raw.Some? { after := raw.value; }
    }
    MatchingAreKeys(keys, prefix, after);
    PageIsBounded(prefix, q.delim, Matching(keys, prefix, after), maxKeys);
    page := BuildPage(Matching(keys, prefix, after), prefix, q.delim, maxKeys);
  }

  lemma {:induction false} MatchingAreKeys(keys: seq<Bytes>, prefix: Bytes, after: Bytes)
    ensures forall k :: k in Matching(keys, prefix, after) <==>
            k in keys && StartsWith(k, prefix) && (after == [] || Less(after, k))
  {
    if keys != [] {
      MatchingAreKeys(keys[1..], prefix, after);
      assert keys == [keys[0]] + keys[1..];
    }
  }

  // ------------------------------------------------------------ one page in detail

  lemma TakenPositive(prefix: Bytes, delim: Bytes, fs: seq<Bytes>, limit: nat)
    requires fs != [] && limit > 0
    ensures Taken(prefix, delim, fs, limit, 0) > 0
  {
    assert fs[..0] == [];
  }

  lemma EntriesStep(prefix: Bytes, delim: Bytes, fs: seq<Bytes>, i: nat)
    requires i < |fs|
    ensures Entries(prefix, delim, fs[..i]) <= Entries(prefix, delim, fs[..i + 1])
    ensures Entries(prefix, delim, fs[..i + 1]) <= Entries(prefix, delim, fs[..i]) + 1
  {
    assert fs[..i + 1][..i] == fs[..i];
  }

  lemma {:induction false} EntriesAtMostFiles(prefix: Bytes, delim: Bytes, fs: seq<Bytes>)
    ensures Entries(prefix, delim, fs) <= |fs|
  {
    if fs != [] {
      EntriesAtMostFiles(prefix, delim, fs[..|fs| - 1]);
      EntriesStep(prefix, delim, fs, |fs| - 1);
      assert fs[..|fs|] == fs;
    }
  }

  /** A page has at most maxKeys entries, and exactly maxKeys when truncated. */
  lemma PageIsBounded(prefix: Bytes, delim: Bytes, fs: seq<Bytes>, limit: nat)
    requires limit > 0 && [] !in fs
    ensures var page := PageOf(prefix, delim, fs, limit);
            && |page.contents| + |page.prefixes| <= limit
            && (page.truncated ==> |page.contents| + |page.prefixes| == limit && page.next != [])
  {
    var n := Taken(prefix, delim, fs, limit, 0);
    assert fs[..0] == [];
    if n > 0 {
      assert Entries(prefix, delim, fs[..n - 1]) < limit;
      EntriesStep(prefix, delim, fs, n - 1);
      HexRoundTrip(fs[n - 1]);
    }
  }

  // --------------------------------------------------------- pages tile the key space

  /** The pages a client sees that starts after `after` and follows the tokens. */
  function Follow(keys: seq<Bytes>, q: Query, startAfter: Bytes, token: Bytes): seq<Page>
    requires Ascending(keys) && [] !in keys
    decreases |Matching(keys, TrimOuter(q.prefix, SLASH), StartAfter(startAfter, token))|
  {
    var page := List(keys, q, startAfter, token);
    Resume(keys, q, startAfter, token);
    if !page.truncated then [page] else [page] + Follow(keys, q, startAfter, page.next)
  }

  /** The files of the request that carries the token of this page's answer. */
  lemma Resume(keys: seq<Bytes>, q: Query, startAfter: Bytes, token: Bytes)
    requires Ascending(keys) && [] !in keys
    ensures var prefix := TrimOuter(q.prefix, SLASH);
            var fs := Matching(keys, prefix, StartAfter(startAfter, token));
            var n := Taken(prefix, q.delim, fs, Limit(q), 0);
            var page := List(keys, q, startAfter, token);
            && (fs != [] ==> n > 0)
            && (page.truncated ==> 0 < n < |fs| && Matching(keys, prefix, StartAfter(startAfter, page.next)) == fs[n..])
  {
    var prefix := TrimOuter(q.prefix, SLASH);
    var after := StartAfter(startAfter, token);
    var fs := Matching(keys, prefix, after);
    var n := Taken(prefix, q.delim, fs, Limit(q), 0);
    if fs != [] { TakenPositive(prefix, q.delim, fs, Limit(q)); }
    if n < |fs| {
      HexRoundTrip(fs[n - 1]);
      MatchingAreKeys(keys, prefix, after);
      assert fs[n - 1] in fs;
      MatchingAfter(keys, prefix, after, n);
    }
  }

  /** Selecting after the last key taken leaves exactly the rest. */
  lemma {:induction false} MatchingAfter(keys: seq<Bytes>, prefix: Bytes, after: Bytes, n: nat)
    requires Ascending(keys) && [] !in keys && 0 < n <= |Matching(keys, prefix, after)|
    ensures Matching(keys, prefix, Matching(keys, prefix, after)[n - 1]) == Matching(keys, prefix, after)[n..]
    decreases |keys|
  {
    var k, rest := keys[0], Matching(keys[1..], prefix, after);
    var taken := StartsWith(k, prefix) && (after == [] || Less(after, k));
    assert Matching(keys, prefix, after) == (if taken then [k] else []) + rest;
    if taken && n == 1 {
      LessIrreflexive(k);
      MatchingLater(keys[1..], prefix, after, k);
      assert Matching(keys, prefix, after)[1..] == rest;
    } else {
      var m := if taken then n - 1 else n;
      MatchedIsLater(keys, prefix, after, m - 1);
      MatchingAfter(keys[1..], prefix, after, m);
      assert Matching(keys, prefix, after)[n - 1] == rest[m - 1] && Matching(keys, prefix, after)[n..] == rest[m..];
    }
  }

  lemma MatchedIsLater(keys: seq<Bytes>, prefix: Bytes, after: Bytes, i: nat)
    requires keys != [] && Ascending(keys) && i < |Matching(keys[1..], prefix, after)|
    ensures var x := Matching(keys[1..], prefix, after)[i]; x in keys && !Less(x, keys[0])
  {
    var x := Matching(keys[1..], prefix, after)[i];
    MatchingAreKeys(keys[1..], prefix, after);
    assert x in Matching(keys[1..], prefix, after);
    var j :| 0 <= j < |keys[1..]| && keys[1..][j] == x;
    assert keys[j + 1] == x;
    LessAsymmetric(keys[0], x);
  }

  /** Beyond a key, the older bound no longer matters. */
  lemma MatchingLater(keys: seq<Bytes>, prefix: Bytes, after: Bytes, k: Bytes)
    requires forall x :: x in keys ==> Less(k, x)
    requires k != [] && (after == [] || Less(after, k))
    ensures Matching(keys, prefix, k) == Matching(keys, prefix, after)
  {
    if keys != [] {
      assert keys[0] in keys;
      if after != [] { LessTransitive(after, k, keys[0]); }
      MatchingLater(keys[1..], prefix, after, k);
    }
  }

  function AllContents(pages: seq<Page>): seq<Bytes> {
    if pages == [] then [] else pages[0].contents + AllContents(pages[1..])
  }

  function AllPrefixes(pages: seq<Page>): seq<Bytes> {
    if pages == [] then [] else pages[0].prefixes + AllPrefixes(pages[1..])
  }

  /** xs without adjacent repeats. */
  function Squash(xs: seq<Bytes>): seq<Bytes> {
    if |xs| < 2 then xs
    else if xs[0] == xs[1] then Squash(xs[1..])
    else [xs[0]] + Squash(xs[1..])
  }

  lemma {:induction false} SquashHead(xs: seq<Bytes>)
    ensures xs != [] ==> Squash(xs) != [] && Squash(xs)[0] == xs[0]
  {
    if |xs| > 1 { SquashHead(xs[1..]); }
  }

  lemma {:induction false} SquashRight(a: seq<Bytes>, b: seq<Bytes>)
    ensures Squash(a + Squash(b)) == Squash(a + b)
  {
    SquashHead(b);
    if a == [] {
      assert a + Squash(b) == Squash(b) && a + b == b;
      SquashTwice(b);
    } else {
      SquashRight(a[1..], b);
      assert (a + Squash(b))[1..] == a[1..] + Squash(b) && (a + b)[1..] == a[1..] + b;
    }
  }

  lemma {:induction false} SquashTwice(b: seq<Bytes>)
    ensures Squash(Squash(b)) == Squash(b)
  {
    if |b| >= 2 {
      SquashTwice(b[1..]);
      SquashHead(b[1..]);
      if b[0] != b[1] { assert Squash(b)[1..] == Squash(b[1..]); }
    }
  }

  lemma {:induction false} SquashLeft(a: seq<Bytes>, b: seq<Bytes>)
    ensures Squash(Squash(a) + b) == Squash(a + b)
  {
    if |a| >= 2 {
      SquashLeft(a[1..], b);
      SquashHead(a[1..]);
      assert (a + b)[1..] == a[1..] + b;
      if a[0] != a[1] {
        assert Squash(a) + b == [a[0]] + (Squash(a[1..]) + b);
        assert ([a[0]] + (Squash(a[1..]) + b))[1..] == Squash(a[1..]) + b;
      }
    }
  }

  lemma {:induction false} SquashAppend(a: seq<Bytes>, x: Bytes)
    ensures Squash(a + [x]) == if a != [] && a[|a| - 1] == x then Squash(a) else Squash(a) + [x]
  {
    if |a| == 1 {
      assert (a + [x])[1..] == [x];
    } else if |a| >= 2 {
      SquashAppend(a[1..], x);
      assert (a + [x])[1..] == a[1..] + [x];
    }
  }

  lemma {:induction false} ContentsConcat(prefix: Bytes, delim: Bytes, a: seq<Bytes>, b: seq<Bytes>)
    ensures Contents(prefix, delim, a + b) == Contents(prefix, delim, a) + Contents(prefix, delim, b)
    decreases |b|
  {
    if b == [] {
      assert a + b == a;
    } else {
      ContentsConcat(prefix, delim, a, b[..|b| - 1]);
      assert (a + b)[..|a + b| - 1] == a + b[..|b| - 1];
    }
  }

  lemma {:induction false} LabelsConcat(prefix: Bytes, delim: Bytes, a: seq<Bytes>, b: seq<Bytes>)
    ensures Labels(prefix, delim, a + b) == Labels(prefix, delim, a) + Labels(prefix, delim, b)
    decreases |b|
  {
    if b == [] {
      assert a + b == a;
    } else {
      LabelsConcat(prefix, delim, a, b[..|b| - 1]);
      assert (a + b)[..|a + b| - 1] == a + b[..|b| - 1];
    }
  }

  lemma OccursInBoth(x: Bytes, y: Bytes, d: Bytes, m: nat, i: nat)
    requires m <= |x| && m <= |y| && x[..m] == y[..m] && i + |d| <= m
    ensures OccursAt(x, d, i) <==> OccursAt(y, d, i)
  {
    assert x[i..i + |d|] == x[..m][i..i + |d|] && y[i..i + |d|] == y[..m][i..i + |d|];
  }

  /** The first occurrence is settled by any prefix that contains it. */
  lemma IndexAgrees(x: Bytes, y: Bytes, d: Bytes, m: nat)
    requires m <= |x| && m <= |y| && x[..m] == y[..m]
    requires Index(x, d).Some? && Index(x, d).value + |d| <= m
    ensures Index(y, d) == Index(x, d)
  {
    var i := Index(x, d).value;
    OccursInBoth(x, y, d, m, i);
    OccursInBoth(x, y, d, m, Index(y, d).value);
  }

  /** Two keys of one group agree up to the end of the delimiter. */
  lemma SameGroupAgrees(prefix: Bytes, delim: Bytes, a: Bytes, c: Bytes) returns (m: nat)
    requires delim != [] && StartsWith(a, prefix) && StartsWith(c, prefix)
    requires Label(prefix, delim, a).Some? && Label(prefix, delim, c) == Label(prefix, delim, a)
    ensures m == |prefix| + Index(a[|prefix|..], delim).value + |delim| <= |a| && m <= |c| && a[..m] == c[..m]
  {
    var ra, rc := a[|prefix|..], c[|prefix|..];
    var i, j := Index(ra, delim).value, Index(rc, delim).value;
    m := |prefix| + i + |delim|;
    assert |prefix + ra[..i + 1]| == |prefix| + i + 1 && |prefix + rc[..j + 1]| == |prefix| + j + 1;
    assert ra[..i] == (prefix + ra[..i + 1])[|prefix|..|prefix| + i];
    assert rc[..i] == (prefix + rc[..i + 1])[|prefix|..|prefix| + i];
    SplitAtOccurrence(prefix, delim, a, i);
    SplitAtOccurrence(prefix, delim, c, i);
  }

  lemma SplitAtOccurrence(prefix: Bytes, delim: Bytes, key: Bytes, i: nat)
    requires StartsWith(key, prefix) && OccursAt(key[|prefix|..], delim, i)
    ensures key[..|prefix| + i + |delim|] == prefix + key[|prefix|..][..i] + delim
  {
    var rel := key[|prefix|..];
    assert rel[..i + |delim|] == rel[..i] + rel[i..i + |delim|];
    assert key[..|prefix| + i + |delim|] == key[..|prefix|] + rel[..i + |delim|];
  }

  /** Keys that agree as far as the first delimiter have one label. */
  lemma LabelAgrees(prefix: Bytes, delim: Bytes, a: Bytes, b: Bytes, n: nat)
    requires StartsWith(a, prefix) && StartsWith(b, prefix) && delim != []
    requires n <= |a| - |prefix| && n <= |b| - |prefix| && a[|prefix|..][..n] == b[|prefix|..][..n]
    requires Index(a[|prefix|..], delim).Some? && Index(a[|prefix|..], delim).value + |delim| <= n
    ensures Label(prefix, delim, b) == Label(prefix, delim, a)
  {
    var ra, rb, i := a[|prefix|..], b[|prefix|..], Index(a[|prefix|..], delim).value;
    IndexAgrees(ra, rb, delim, n);
    assert ra[..i + 1] == ra[..n][..i + 1] == rb[..n][..i + 1] == rb[..i + 1];
    LabelIs(prefix, delim, a, i);
    LabelIs(prefix, delim, b, i);
  }

  lemma LabelIs(prefix: Bytes, delim: Bytes, key: Bytes, i: nat)
    requires StartsWith(key, prefix) && delim != [] && Index(key[|prefix|..], delim) == Some(i)
    ensures i + 1 <= |key| - |prefix| && Label(prefix, delim, key) == Some(prefix + key[|prefix|..][..i + 1])
  {
  }

  /** Keys folded into one group are contiguous in key order. */
  lemma {:induction false} GroupsAreContiguous(prefix: Bytes, delim: Bytes, a: Bytes, b: Bytes, c: Bytes)
    requires StartsWith(a, prefix) && StartsWith(b, prefix) && StartsWith(c, prefix) && Less(a, b) && Less(b, c)
    requires Label(prefix, delim, a).Some? && Label(prefix, delim, c) == Label(prefix, delim, a)
    ensures Label(prefix, delim, b) == Label(prefix, delim, a)
  {
    var m := SameGroupAgrees(prefix, delim, a, c);
    PrefixIsConvex(a[..m], a, b, c);
    var n := m - |prefix|;
    assert a[|prefix|..][..n] == a[..m][|prefix|..] == b[..m][|prefix|..] == b[|prefix|..][..n];
    LabelAgrees(prefix, delim, a, b, n);
  }

  ghost predicate AllUnder(prefix: Bytes, fs: seq<Bytes>) { forall i :: 0 <= i < |fs| ==> StartsWith(fs[i], prefix) }

  lemma {:induction false} GroupsHaveKeys(prefix: Bytes, delim: Bytes, fs: seq<Bytes>, g: Bytes) returns (i: nat)
    requires g in Groups(prefix, delim, fs)
    ensures i < |fs| && Label(prefix, delim, fs[i]) == Some(g)
  {
    if Label(prefix, delim, fs[|fs| - 1]) == Some(g) {
      i := |fs| - 1;
    } else {
      i := GroupsHaveKeys(prefix, delim, fs[..|fs| - 1], g);
    }
  }

  /** The page loop's distinct labels are the key order's runs of labels. */
  lemma {:induction false} GroupsAreRuns(prefix: Bytes, delim: Bytes, fs: seq<Bytes>)
    requires Ascending(fs) && AllUnder(prefix, fs)
    ensures Groups(prefix, delim, fs) == Squash(Labels(prefix, delim, fs))
    decreases |fs|
  {
    if fs != [] {
      var init, k := fs[..|fs| - 1], fs[|fs| - 1];
      assert fs == init + [k];
      GroupsAreRuns(prefix, delim, init);
      var l := Label(prefix, delim, k);
      var ls := Labels(prefix, delim, init);
      if l.Some? {
        SquashAppend(ls, l.value);
        SquashKeeps(ls, l.value);
        if l.value in ls { LastLabel(prefix, delim, init, k); }
      } else {
        assert Labels(prefix, delim, fs) == ls;
      }
    }
  }

  /** A key whose label was seen before carries the label of the key before it. */
  lemma LastLabel(prefix: Bytes, delim: Bytes, init: seq<Bytes>, k: Bytes)
    requires Ascending(init + [k]) && AllUnder(prefix, init + [k])
    requires Label(prefix, delim, k).Some? && Label(prefix, delim, k).value in Groups(prefix, delim, init)
    ensures var ls := Labels(prefix, delim, init); ls != [] && ls[|ls| - 1] == Label(prefix, delim, k).value
  {
    var i := GroupsHaveKeys(prefix, delim, init, Label(prefix, delim, k).value);
    var fs, n := init + [k], |init|;
    assert fs[i] == init[i] && fs[n - 1] == init[n - 1] && fs[n] == k;
    if i < n - 1 { GroupsAreContiguous(prefix, delim, fs[i], fs[n - 1], fs[n]); }
  }

  lemma {:induction false} SquashKeeps(xs: seq<Bytes>, x: Bytes)
    ensures x in Squash(xs) <==> x in xs
  {
    if |xs| > 1 { SquashKeeps(xs[1..], x); }
  }

  lemma {:induction false} GroupsAreDistinct(prefix: Bytes, delim: Bytes, fs: seq<Bytes>)
    ensures forall i, j :: 0 <= i < j < |Groups(prefix, delim, fs)| ==>
            Groups(prefix, delim, fs)[i] != Groups(prefix, delim, fs)[j]
  {
    if fs != [] { GroupsAreDistinct(prefix, delim, fs[..|fs| - 1]); }
  }

  /** What a client that follows every token has seen of the files `fs`. */
  ghost predicate Tiles(pages: seq<Page>, prefix: Bytes, delim: Bytes, fs: seq<Bytes>, limit: nat) {
    && pages != []
    && (forall i :: 0 <= i < |pages| ==> |pages[i].contents| + |pages[i].prefixes| <= limit)
    && (forall i :: 0 <= i < |pages| ==> (pages[i].truncated <==> i < |pages| - 1))
    && (|pages| - 1) * limit <= |fs|
    && AllContents(pages) == Contents(prefix, delim, fs)
    && Squash(AllPrefixes(pages)) == Squash(Labels(prefix, delim, fs))
  }

  lemma TilesStep(page: Page, rest: seq<Page>, prefix: Bytes, delim: Bytes, fs: seq<Bytes>, limit: nat, n: nat)
    requires n <= |fs| && Ascending(fs) && AllUnder(prefix, fs) && limit > 0 && [] !in fs
    requires page == PageOf(prefix, delim, fs, limit) && n == Taken(prefix, delim, fs, limit, 0) < |fs|
    requires Tiles(rest, prefix, delim, fs[n..], limit)
    ensures Tiles([page] + rest, prefix, delim, fs, limit)
  {
    PageIsBounded(prefix, delim, fs, limit);
    FullPageTakesLimit(prefix, delim, fs, limit, n);
    CountStep(|rest|, limit, |fs[n..]|, n, |fs|);
    PageThenRest(page, rest, prefix, delim, fs, limit, n);
    PagesFlow(page, rest, limit);
  }

  lemma FullPageTakesLimit(prefix: Bytes, delim: Bytes, fs: seq<Bytes>, limit: nat, n: nat)
    requires n <= |fs| && n == Taken(prefix, delim, fs, limit, 0) < |fs|
    ensures limit <= n
  {
    EntriesAtMostFiles(prefix, delim, fs[..n]);
  }

  lemma CountStep(pages: nat, limit: nat, left: nat, n: nat, all: nat)
    requires pages > 0 && (pages - 1) * limit <= left && limit <= n && n + left == all
    ensures pages * limit <= all
  {
    assert pages * limit == (pages - 1) * limit + limit;
  }

  lemma PagesFlow(page: Page, rest: seq<Page>, limit: nat)
    requires page.truncated && |page.contents| + |page.prefixes| <= limit && rest != []
    requires forall i :: 0 <= i < |rest| ==> |rest[i].contents| + |rest[i].prefixes| <= limit
    requires forall i :: 0 <= i < |rest| ==> (rest[i].truncated <==> i < |rest| - 1)
    ensures forall i :: 0 <= i < |[page] + rest| ==>
            |([page] + rest)[i].contents| + |([page] + rest)[i].prefixes| <= limit
    ensures forall i :: 0 <= i < |[page] + rest| ==> (([page] + rest)[i].truncated <==> i < |[page] + rest| - 1)
  {
  }

  lemma PageThenRest(page: Page, rest: seq<Page>, prefix: Bytes, delim: Bytes, fs: seq<Bytes>, limit: nat, n: nat)
    requires n <= |fs| && Ascending(fs) && AllUnder(prefix, fs)
    requires page.contents == Contents(prefix, delim, fs[..n]) && page.prefixes == Groups(prefix, delim, fs[..n])
    requires AllContents(rest) == Contents(prefix, delim, fs[n..])
    requires Squash(AllPrefixes(rest)) == Squash(Labels(prefix, delim, fs[n..]))
    ensures AllContents([page] + rest) == Contents(prefix, delim, fs)
    ensures Squash(AllPrefixes([page] + rest)) == Squash(Labels(prefix, delim, fs))
  {
    assert fs[..n] + fs[n..] == fs && ([page] + rest)[1..] == rest;
    ContentsConcat(prefix, delim, fs[..n], fs[n..]);
    LabelsConcat(prefix, delim, fs[..n], fs[n..]);
    GroupsAreRuns(prefix, delim, fs[..n]);
    SquashParts(Labels(prefix, delim, fs[..n]), Labels(prefix, delim, fs[n..]), AllPrefixes(rest));
  }

  lemma SquashParts(a: seq<Bytes>, b: seq<Bytes>, c: seq<Bytes>)
    requires Squash(c) == Squash(b)
    ensures Squash(Squash(a) + c) == Squash(a + b)
  {
    SquashLeft(a, c);
    SquashRight(a, c);
    SquashRight(a, b);
  }

  lemma LastPageTiles(prefix: Bytes, delim: Bytes, fs: seq<Bytes>, limit: nat)
    requires Ascending(fs) && AllUnder(prefix, fs) && limit > 0 && [] !in fs
    requires Taken(prefix, delim, fs, limit, 0) == |fs|
    ensures Tiles([PageOf(prefix, delim, fs, limit)], prefix, delim, fs, limit)
  {
    var page := PageOf(prefix, delim, fs, limit);
    PageIsBounded(prefix, delim, fs, limit);
    assert fs[..|fs|] == fs;
    assert AllContents([page]) == page.contents + [] == page.contents;
    assert AllPrefixes([page]) == page.prefixes + [] == page.prefixes;
    GroupsAreRuns(prefix, delim, fs);
    SquashTwice(Labels(prefix, delim, fs));
  }

  lemma {:induction false} MatchingAscends(keys: seq<Bytes>, prefix: Bytes, after: Bytes)
    requires Ascending(keys) && [] !in keys
    ensures var fs := Matching(keys, prefix, after); Ascending(fs) && AllUnder(prefix, fs) && [] !in fs
  {
    if keys != [] {
      var rest := Matching(keys[1..], prefix, after);
      MatchingAscends(keys[1..], prefix, after);
      MatchingAreKeys(keys[1..], prefix, after);
      forall i | 0 <= i < |rest| ensures Less(keys[0], rest[i]) {
        assert rest[i] in rest;
        var j :| 0 <= j < |keys[1..]| && keys[1..][j] == rest[i];
        assert keys[j + 1] == rest[i];
      }
    }
  }

  /** Following continuation tokens ends within |keys| / maxKeys + 1 pages. The
      concatenated Contents are the sorted unfolded keys under the prefix, once
      each; the common prefixes, apart from a repeat across a page boundary,
      are the runs of group labels in key order. */
  lemma {:induction false} PagesTileTheKeys(keys: seq<Bytes>, q: Query, startAfter: Bytes, token: Bytes)
    requires Ascending(keys) && [] !in keys
    ensures var prefix := TrimOuter(q.prefix, SLASH);
            Tiles(Follow(keys, q, startAfter, token), prefix, q.delim,
                  Matching(keys, prefix, StartAfter(startAfter, token)), Limit(q))
    decreases |Matching(keys, TrimOuter(q.prefix, SLASH), StartAfter(startAfter, token))|
  {
    var prefix := TrimOuter(q.prefix, SLASH);
    var fs := Matching(keys, prefix, StartAfter(startAfter, token));
    var page := List(keys, q, startAfter, token);
    MatchingAscends(keys, prefix, StartAfter(startAfter, token));
    Resume(keys, q, startAfter, token);
    if page.truncated {
      PagesTileTheKeys(keys, q, startAfter, page.next);
      TilesStep(page, Follow(keys, q, startAfter, page.next), prefix, q.delim, fs, Limit(q),
                Taken(prefix, q.delim, fs, Limit(q), 0));
    } else {
      LastPageTiles(prefix, q.delim, fs, Limit(q));
    }
  }

  /** Apart from repeats across page boundaries no common prefix is reported
      twice in a whole listing. */
  lemma NoPrefixTwice(keys: seq<Bytes>, q: Query, startAfter: Bytes, token: Bytes)
    requires Ascending(keys) && [] !in keys
    ensures var ps := Squash(AllPrefixes(Follow(keys, q, startAfter, token)));
            forall i, j :: 0 <= i < j < |ps| ==> ps[i] != ps[j]
  {
    var prefix, after := TrimOuter(q.prefix, SLASH), StartAfter(startAfter, token);
    PagesTileTheKeys(keys, q, startAfter, token);
    MatchingAscends(keys, prefix, after);
    GroupsAreRuns(prefix, q.delim, Matching(keys, prefix, after));
    GroupsAreDistinct(prefix, q.delim, Matching(keys, prefix, after));
  }

  // ------------------------------------------------------------- listing a directory

  /** The page for the prefix as the client sent it. */
  function PageAsked(keys: seq<Bytes>, q: Query, startAfter: Bytes, token: Bytes): Page {
    PageOf(q.prefix, q.delim, Matching(keys, q.prefix, StartAfter(startAfter, token)), Limit(q))
  }

  /** Whatever is stored, the answer is the page for the prefix asked for. */
  ghost predicate HonoursPrefix(q: Query) {
    forall keys, startAfter, token {:trigger List(keys, q, startAfter, token)} :: Ascending(keys) && [] !in keys ==>
      List(keys, q, startAfter, token) == PageAsked(keys, q, startAfter, token)
  }

  /** The prefix loses its outer slashes before it is used, so a listing answers
      the request exactly when the prefix has none to lose. */
  lemma PrefixIsHonouredIff(q: Query)
    ensures HonoursPrefix(q) <==> (q.prefix == [] || (q.prefix[0] != SLASH && q.prefix[|q.prefix| - 1] != SLASH))
  {
    var t := TrimOuter(q.prefix, SLASH);
    TrimIsIdentityIff(q.prefix, SLASH);
    if t != q.prefix {
      var k: Bytes := if t == [] then [SLASH + 1] else t;
      assert !StartsWith(k, q.prefix) by {
        if t == [] { TrimmedToNothing(q.prefix, SLASH); }
      }
      assert k[..|t|] == t;
      MatchingOne(k, t);
      MatchingOne(k, q.prefix);
      OneKeyPage(t, q.delim, k, Limit(q));
      assert List([k], q, [], []) != PageAsked([k], q, [], []);
    }
  }

  lemma MatchingOne(k: Bytes, prefix: Bytes)
    ensures Matching([k], prefix, []) == if StartsWith(k, prefix) then [k] else []
  {
    assert [k][1..] == [];
    assert Matching([], prefix, []) == [];
  }

  lemma OneKeyPage(prefix: Bytes, delim: Bytes, k: Bytes, limit: nat)
    requires limit > 0
    ensures var page := PageOf(prefix, delim, [k], limit); page.contents + page.prefixes != []
  {
    TakenPositive(prefix, delim, [k], limit);
    assert [k][..1] == [k];
    assert [k][..0] == [];
    assert Contents(prefix, delim, []) == [] && Groups(prefix, delim, []) == [];
  }

  lemma TrimTrailingSlash(p: Bytes)
    requires TrimOuter(p, SLASH) == p
    ensures TrimOuter(p + [SLASH], SLASH) == p
  {
    TrimIsIdentityIff(p, SLASH);
    assert (p + [SLASH])[..|p|] == p;
    if p == [] { assert (p + [SLASH])[1..] == []; }
  }

  lemma ChildIsFolded(p: Bytes, child: Bytes)
    requires StartsWith(child, p + [SLASH])
    ensures Label(p, [SLASH], child) == Some(p + [SLASH])
  {
    assert child[..|p|] == child[..|p| + 1][..|p|] == p;
    assert child[|p|..][..1] == [child[|p|]] && child[|p|] == child[..|p| + 1][|p|] == SLASH;
    assert OccursAt(child[|p|..], [SLASH], 0);
  }

  /** A label that begins with p/ is p/. */
  lemma LabelsBelow(p: Bytes, key: Bytes)
    requires StartsWith(key, p) && Label(p, [SLASH], key).Some?
    requires StartsWith(Label(p, [SLASH], key).value, p + [SLASH])
    ensures StartsWith(key, p + [SLASH])
  {
    var l := Label(p, [SLASH], key).value;
    var i := Index(key[|p|..], [SLASH]).value;
    assert l == p + key[|p|..][..i + 1];
    assert l[..|p| + 1][|p|] == SLASH && l[|p|] == key[|p|..][0] == key[|p|];
    assert key[..|p| + 1] == key[..|p|] + [key[|p|]];
  }

  lemma {:induction false} ReportedAreUnfolded(prefix: Bytes, delim: Bytes, fs: seq<Bytes>, k: Bytes)
    ensures k in Contents(prefix, delim, fs) <==> k in fs && Label(prefix, delim, k).None?
  {
    if fs != [] {
      ReportedAreUnfolded(prefix, delim, fs[..|fs| - 1], k);
      assert fs == fs[..|fs| - 1] + [fs[|fs| - 1]];
    }
  }

  lemma {:induction false} LabelsAreOfKeys(prefix: Bytes, delim: Bytes, fs: seq<Bytes>, g: Bytes)
    ensures g in Labels(prefix, delim, fs) <==> exists k :: k in fs && Label(prefix, delim, k) == Some(g)
  {
    if fs != [] {
      var init, last := fs[..|fs| - 1], fs[|fs| - 1];
      LabelsAreOfKeys(prefix, delim, init, g);
      assert fs == init + [last];
      assert last in fs;
    }
  }

  /** What the pages report is what the selected files give. */
  lemma ReportedIff(keys: seq<Bytes>, q: Query, startAfter: Bytes, token: Bytes, x: Bytes)
    requires Ascending(keys) && [] !in keys
    ensures var prefix, pages := TrimOuter(q.prefix, SLASH), Follow(keys, q, startAfter, token);
            var fs := Matching(keys, prefix, StartAfter(startAfter, token));
            && (x in AllContents(pages) <==> x in fs && Label(prefix, q.delim, x).None?)
            && (x in AllPrefixes(pages) <==> exists k :: k in fs && Label(prefix, q.delim, k) == Some(x))
  {
    var prefix, pages := TrimOuter(q.prefix, SLASH), Follow(keys, q, startAfter, token);
    var fs := Matching(keys, prefix, StartAfter(startAfter, token));
    PagesTileTheKeys(keys, q, startAfter, token);
    ReportedAreUnfolded(prefix, q.delim, fs, x);
    LabelsAreOfKeys(prefix, q.delim, fs, x);
    SquashKeeps(AllPrefixes(pages), x);
    SquashKeeps(Labels(prefix, q.delim, fs), x);
  }

  // ------------------------------------------------- what is listed, key by key

  /** A key the request selects: under the prefix, and after `after` if that is given. */
  ghost predicate Selected(keys: seq<Bytes>, prefix: Bytes, after: Bytes, k: Bytes) {
    k in keys && StartsWith(k, prefix) && (after == [] || Less(after, k))
  }

  ghost predicate FirstOccursAt(s: Bytes, d: Bytes, i: nat) {
    OccursAt(s, d, i) && forall j: nat :: j < i ==> !OccursAt(s, d, j)
  }

  /** There is no delimiter, or it is not in the key behind the prefix. */
  ghost predicate Unfolded(prefix: Bytes, delim: Bytes, k: Bytes)
    requires StartsWith(k, prefix)
  {
    delim == [] || forall i: nat :: !OccursAt(k[|prefix|..], delim, i)
  }

  /** g is the key as far as the first byte of the first delimiter behind the prefix. */
  ghost predicate FoldsTo(prefix: Bytes, delim: Bytes, k: Bytes, g: Bytes)
    requires StartsWith(k, prefix)
  {
    delim != [] && exists i: nat :: FirstOccursAt(k[|prefix|..], delim, i) && g == k[..|prefix| + i + 1]
  }

  lemma LabelMeans(prefix: Bytes, delim: Bytes, k: Bytes, g: Bytes)
    requires StartsWith(k, prefix)
    ensures Label(prefix, delim, k).None? <==> Unfolded(prefix, delim, k)
    ensures Label(prefix, delim, k) == Some(g) <==> FoldsTo(prefix, delim, k, g)
  {
    var rel := k[|prefix|..];
    var r := Index(rel, delim);
    if delim != [] && r.Some? {
      var i := r.value;
      assert FirstOccursAt(rel, delim, i);
      assert forall j: nat :: FirstOccursAt(rel, delim, j) ==> j == i;
      assert prefix + rel[..i + 1] == k[..|prefix| + i + 1];
    }
  }

  /** Following the tokens of a listing that selects the keys after `after`
      shows x as a key exactly when it is a selected key that is not folded, and
      as a common prefix exactly when a selected key folds to it. */
  ghost predicate Shows(pages: seq<Page>, keys: seq<Bytes>, q: Query, after: Bytes, x: Bytes) {
    var prefix := TrimOuter(q.prefix, SLASH);
    && (x in AllContents(pages) <==> Selected(keys, prefix, after, x) && Unfolded(prefix, q.delim, x))
    && (x in AllPrefixes(pages) <==> exists k :: Selected(keys, prefix, after, k) && FoldsTo(prefix, q.delim, k, x))
  }

  lemma ShowsSelected(keys: seq<Bytes>, q: Query, startAfter: Bytes, token: Bytes, x: Bytes)
    requires Ascending(keys) && [] !in keys
    ensures Shows(Follow(keys, q, startAfter, token), keys, q, StartAfter(startAfter, token), x)
  {
    var prefix, after := TrimOuter(q.prefix, SLASH), StartAfter(startAfter, token);
    ReportedIff(keys, q, startAfter, token, x);
    MatchingAreKeys(keys, prefix, after);
    forall k | Selected(keys, prefix, after, k)
      ensures Label(prefix, q.delim, k).None? <==> Unfolded(prefix, q.delim, k)
      ensures Label(prefix, q.delim, k) == Some(x) <==> FoldsTo(prefix, q.delim, k, x)
    {
      LabelMeans(prefix, q.delim, k, x);
    }
  }

  /** With no token, or with one that is not hexadecimal, the listing begins
      after start-after, and at the beginning if there is none. */
  lemma ListsAfterParameter(keys: seq<Bytes>, q: Query, a: Bytes, token: Bytes, x: Bytes)
    requires Ascending(keys) && [] !in keys && (token == [] || Undecodable(token))
    ensures Shows(Follow(keys, q, a, token), keys, q, a, x)
  {
    UndecodableIff(token);
    ShowsSelected(keys, q, a, token, x);
  }

  /** With the token of a key t, in digits of either case, it begins after t,
      whatever start-after says. */
  lemma ListsAfterToken(keys: seq<Bytes>, q: Query, a: Bytes, token: Bytes, t: Bytes, x: Bytes)
    requires Ascending(keys) && [] !in keys && t != [] && (token == HexEncode(t) || HexDecode(token) == Some(t))
    ensures Shows(Follow(keys, q, a, token), keys, q, t, x)
  {
    HexRoundTrip(t);
    ShowsSelected(keys, q, a, token, x);
  }

  lemma {:induction false} ContentsAscend(prefix: Bytes, delim: Bytes, fs: seq<Bytes>)
    requires Ascending(fs)
    ensures Ascending(Contents(prefix, delim, fs))
    decreases |fs|
  {
    if fs != [] {
      var init, k := fs[..|fs| - 1], fs[|fs| - 1];
      ContentsAscend(prefix, delim, init);
      var c := Contents(prefix, delim, init);
      forall i | 0 <= i < |c| ensures Less(c[i], k) {
        ReportedAreUnfolded(prefix, delim, init, c[i]);
        assert c[i] in c;
        var j :| 0 <= j < |init| && init[j] == c[i];
        assert fs[j] == c[i];
      }
    }
  }

  /** The keys come in bytewise order, each once. */
  lemma ListedInOrder(keys: seq<Bytes>, q: Query, startAfter: Bytes, token: Bytes)
    requires Ascending(keys) && [] !in keys
    ensures Ascending(AllContents(Follow(keys, q, startAfter, token)))
  {
    var prefix, after := TrimOuter(q.prefix, SLASH), StartAfter(startAfter, token);
    PagesTileTheKeys(keys, q, startAfter, token);
    MatchingAscends(keys, prefix, after);
    ContentsAscend(prefix, q.delim, Matching(keys, prefix, after));
  }

  /** A listing of the directory p/ with delimiter / never reports anything in
      it: its pages list no key below p/ and no directory below p/, only p/
      itself, and that exactly when some key below p/ is left to list. */
  lemma DirectoryListingHidesChildren(keys: seq<Bytes>, p: Bytes, maxKeys: Option<int>, startAfter: Bytes, token: Bytes)
    requires Ascending(keys) && [] !in keys && TrimOuter(p, SLASH) == p
    ensures var pages := Follow(keys, Query(p + [SLASH], [SLASH], maxKeys), startAfter, token);
            var after := StartAfter(startAfter, token);
            && (forall k :: k in AllContents(pages) ==> !StartsWith(k, p + [SLASH]))
            && (forall g :: g in AllPrefixes(pages) && StartsWith(g, p + [SLASH]) ==> g == p + [SLASH])
            && (p + [SLASH] in AllPrefixes(pages) <==>
                exists k :: k in keys && StartsWith(k, p + [SLASH]) && (after == [] || Less(after, k)))
  {
    var q, after := Query(p + [SLASH], [SLASH], maxKeys), StartAfter(startAfter, token);
    var pages := Follow(keys, q, startAfter, token);
    TrimTrailingSlash(p);
    forall x ensures !(x in AllContents(pages) && StartsWith(x, p + [SLASH])) {
      ReportedIff(keys, q, startAfter, token, x);
      if StartsWith(x, p + [SLASH]) { ChildIsFolded(p, x); }
    }
    forall g | g in AllPrefixes(pages) && StartsWith(g, p + [SLASH]) ensures g == p + [SLASH] {
      ReportedIff(keys, q, startAfter, token, g);
      MatchingAreKeys(keys, p, after);
      LabelIsDirectory(p, Matching(keys, p, after), g);
    }
    DirectoryIsReportedIff(keys, p, q, startAfter, token);
  }

  lemma LabelIsDirectory(p: Bytes, fs: seq<Bytes>, g: Bytes)
    requires forall k :: k in fs ==> StartsWith(k, p)
    requires StartsWith(g, p + [SLASH]) && exists k :: k in fs && Label(p, [SLASH], k) == Some(g)
    ensures g == p + [SLASH] && exists k :: k in fs && StartsWith(k, p + [SLASH])
  {
    var k :| k in fs && Label(p, [SLASH], k) == Some(g);
    LabelsBelow(p, k);
    ChildIsFolded(p, k);
  }

  lemma DirectoryIsReportedIff(keys: seq<Bytes>, p: Bytes, q: Query, startAfter: Bytes, token: Bytes)
    requires Ascending(keys) && [] !in keys && TrimOuter(q.prefix, SLASH) == p && q.delim == [SLASH]
    ensures var after := StartAfter(startAfter, token);
            p + [SLASH] in AllPrefixes(Follow(keys, q, startAfter, token)) <==>
            exists k :: k in keys && StartsWith(k, p + [SLASH]) && (after == [] || Less(after, k))
  {
    var after := StartAfter(startAfter, token);
    ReportedIff(keys, q, startAfter, token, p + [SLASH]);
    FoldedIntoDirectoryIff(keys, p, after);
  }

  lemma FoldedIntoDirectoryIff(keys: seq<Bytes>, p: Bytes, after: Bytes)
    ensures (exists k :: k in Matching(keys, p, after) && Label(p, [SLASH], k) == Some(p + [SLASH])) <==>
            exists k :: k in keys && StartsWith(k, p + [SLASH]) && (after == [] || Less(after, k))
  {
    var fs := Matching(keys, p, after);
    MatchingAreKeys(keys, p, after);
    if exists k :: k in fs && Label(p, [SLASH], k) == Some(p + [SLASH]) {
      LabelIsDirectory(p, fs, p + [SLASH]);
    }
    if k :| k in keys && StartsWith(k, p + [SLASH]) && (after == [] || Less(after, k)) {
      assert k[..|p|] == k[..|p| + 1][..|p|] == p;
      ChildIsFolded(p, k);
    }
  }
}
