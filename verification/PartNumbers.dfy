/** Part numbers as strconv.Atoi reads them, and the spellings it reads them from
    (server/internal/handler/s3multipart.go). */
module PartNumbers {
  import opened Strings
  import opened Tables
  import N = Naming

  predicate IsDigit(c: char) { '0' <= c <= '9' }

  predicate AllDigits(s: string) { forall i :: 0 <= i < |s| ==> IsDigit(s[i]) }

  function DigitsValue(s: string): nat
    requires AllDigits(s)
  {
    if s == "" then 0 else 10 * DigitsValue(s[..|s| - 1]) + (s[|s| - 1] - '0') as nat
  }

  /** The part number of strconv.Atoi, None for an error or a number below 1. */
  function PartNumber(s: string): Option<nat> {
    if s == "" then None
    else
      var digits := if s[0] == '+' then s[1..] else s;
      if digits == "" || !AllDigits(digits) || DigitsValue(digits) > MAX_INT64 || DigitsValue(digits) < 1 then None
      else Some(DigitsValue(digits))
  }

  /** A part number as Itoa would spell it. */
  predicate Canonical(s: string) { s != "" && AllDigits(s) && s[0] != '0' && DigitsValue(s) <= MAX_INT64 }

  lemma {:induction false} CanonicalIsPositive(s: string)
    requires s != "" && AllDigits(s) && s[0] != '0'
    ensures DigitsValue(s) >= 1
    decreases |s|
  {
    if |s| > 1 { CanonicalIsPositive(s[..|s| - 1]); } else { assert s[..0] == ""; }
  }

  lemma {:induction false} CanonicalIsUnique(a: string, b: string)
    requires a != "" && AllDigits(a) && a[0] != '0' && b != "" && AllDigits(b) && b[0] != '0'
    requires DigitsValue(a) == DigitsValue(b)
    ensures a == b
    decreases |a|
  {
    var x, y := a[..|a| - 1], b[..|b| - 1];
    assert a == x + [a[|a| - 1]] && b == y + [b[|b| - 1]];
    assert DigitsValue(x) == DigitsValue(y) && a[|a| - 1] == b[|b| - 1];
    if x != "" { CanonicalIsPositive(x); }
    if y != "" { CanonicalIsPositive(y); }
    if x != "" { CanonicalIsUnique(x, y); }
  }

  /** One spelling per part number is canonical. */
  lemma CanonicalPartNumber(a: string, b: string)
    requires Canonical(a) && Canonical(b) && PartNumber(a) == PartNumber(b)
    ensures a == b && PartNumber(a).Some?
  {
    CanonicalIsPositive(a);
    CanonicalIsPositive(b);
    CanonicalIsUnique(a, b);
  }

  // ---------------------------------------------------------------------- spellings

  lemma DigitIs(d: nat)
    requires d < 10
    ensures IsDigit(N.Digit(d)) && (N.Digit(d) - '0') as nat == d && (d > 0 ==> N.Digit(d) != '0')
  {
    assert d == 0 || d == 1 || d == 2 || d == 3 || d == 4 || d == 5 || d == 6 || d == 7 || d == 8 || d == 9;
  }

  /** Itoa's spelling of a number has the number as its value. */
  lemma {:induction false} ItoaValue(n: nat)
    ensures var s := N.Itoa(n); s != "" && AllDigits(s) && DigitsValue(s) == n && (n > 0 ==> s[0] != '0')
  {
    if n < 10 {
      DigitIs(n);
      assert [N.Digit(n)][..0] == "";
    } else {
      var t, c := N.Itoa(n / 10), N.Digit(n % 10);
      ItoaValue(n / 10);
      DigitIs(n % 10);
      assert (t + [c])[..|t|] == t;
    }
  }

  lemma PartNumberOfItoa(n: nat)
    requires 1 <= n <= MAX_INT64
    ensures PartNumber(N.Itoa(n)) == Some(n) && Canonical(N.Itoa(n))
  {
    ItoaValue(n);
    var s := N.Itoa(n);
    assert IsDigit(s[0]);
  }

  /** Only Itoa's spellings are canonical. */
  lemma CanonicalIsItoa(s: string)
    requires Canonical(s)
    ensures PartNumber(s).Some? && s == N.Itoa(PartNumber(s).value)
  {
    CanonicalPartNumber(s, s);
    ItoaValue(PartNumber(s).value);
    CanonicalIsUnique(s, N.Itoa(PartNumber(s).value));
  }

  function Zeros(k: nat): string { seq(k, _ => '0') }

  lemma {:induction false} ZerosAddNothing(k: nat, t: string)
    requires AllDigits(t)
    ensures AllDigits(Zeros(k) + t) && DigitsValue(Zeros(k) + t) == DigitsValue(t)
    decreases k + |t|
  {
    if t != "" {
      var init := t[..|t| - 1];
      ZerosAddNothing(k, init);
      assert Zeros(k) + t == Zeros(k) + init + [t[|t| - 1]];
      assert (Zeros(k) + t)[..k + |t| - 1] == Zeros(k) + init;
    } else if k > 0 {
      ZerosAddNothing(k - 1, "");
      assert Zeros(k) + "" == Zeros(k - 1) + ['0'] && Zeros(k - 1) + "" == Zeros(k - 1);
      assert (Zeros(k) + "")[..k - 1] == Zeros(k - 1);
    } else {
      assert Zeros(0) + "" == "";
    }
  }

  lemma LeadingZeros(s: string) returns (k: nat)
    requires AllDigits(s)
    ensures k <= |s| && s[..k] == Zeros(k) && (k < |s| ==> s[k] != '0')
  {
    k := 0;
    while k < |s| && s[k] == '0'
      invariant k <= |s| && s[..k] == Zeros(k)
    {
      assert s[..k + 1] == s[..k] + ['0'];
      k := k + 1;
    }
  }

  /** s is an optional plus sign, any zeros, and the number as Itoa spells it. */
  ghost predicate Spells(s: string, n: nat) {
    exists k: nat :: s == Zeros(k) + N.Itoa(n) || s == "+" + (Zeros(k) + N.Itoa(n))
  }

  lemma DigitsSpell(digits: string) returns (k: nat)
    requires AllDigits(digits) && DigitsValue(digits) >= 1
    ensures digits == Zeros(k) + N.Itoa(DigitsValue(digits))
  {
    k := LeadingZeros(digits);
    var t := digits[k..];
    assert digits == Zeros(k) + t;
    ZerosAddNothing(k, t);
    assert t != "";
    ItoaValue(DigitsValue(t));
    CanonicalIsUnique(t, N.Itoa(DigitsValue(t)));
  }

  lemma ZerosThenItoa(k: nat, n: nat)
    requires 1 <= n
    ensures var d := Zeros(k) + N.Itoa(n); d != "" && AllDigits(d) && DigitsValue(d) == n && d[0] != '+'
  {
    ItoaValue(n);
    ZerosAddNothing(k, N.Itoa(n));
    assert IsDigit((Zeros(k) + N.Itoa(n))[0]);
  }

  /** A part number is read from exactly its spellings with extra zeros in front
      and perhaps a plus sign; nothing else is one. */
  lemma PartNumberIs(s: string, n: nat)
    ensures PartNumber(s) == Some(n) <==> 1 <= n <= MAX_INT64 && Spells(s, n)
  {
    if PartNumber(s) == Some(n) {
      var digits := if s[0] == '+' then s[1..] else s;
      var k := DigitsSpell(digits);
      assert s[0] == '+' ==> s == "+" + (Zeros(k) + N.Itoa(n));
    }
    if 1 <= n <= MAX_INT64 && Spells(s, n) {
      var k: nat :| s == Zeros(k) + N.Itoa(n) || s == "+" + (Zeros(k) + N.Itoa(n));
      ZerosThenItoa(k, n);
      if s == "+" + (Zeros(k) + N.Itoa(n)) { assert s[0] == '+' && s[1..] == Zeros(k) + N.Itoa(n); }
    }
  }

  // -------------------------------------------------------------------------- order

  /** a comes before b: it is shorter, or as long and smaller where they first differ. */
  ghost predicate Before(a: string, b: string) {
    |a| < |b| || (|a| == |b| && exists i :: SmallerAt(a, b, i))
  }

  ghost predicate SmallerAt(a: string, b: string, i: int)
    requires |a| == |b|
  {
    0 <= i < |a| && a[i] < b[i] && forall j :: 0 <= j < i ==> a[j] == b[j]
  }

  lemma {:induction false} LongerIsMore(a: string, b: string)
    requires AllDigits(a) && AllDigits(b) && |a| < |b| && b[0] != '0'
    ensures DigitsValue(a) < DigitsValue(b)
    decreases |a|
  {
    if a == "" {
      CanonicalIsPositive(b);
    } else {
      LongerIsMore(a[..|a| - 1], b[..|b| - 1]);
    }
  }

  lemma {:induction false} SameLengthOrder(a: string, b: string)
    requires AllDigits(a) && AllDigits(b) && |a| == |b|
    ensures DigitsValue(a) < DigitsValue(b) <==> exists i :: SmallerAt(a, b, i)
    ensures DigitsValue(a) == DigitsValue(b) <==> a == b
    decreases |a|
  {
    if a != "" {
      var n := |a| - 1;
      var x, y := a[..n], b[..n];
      SameLengthOrder(x, y);
      assert a == x + [a[n]] && b == y + [b[n]];
      forall i ensures SmallerAt(a, b, i) <==> SmallerAt(x, y, i) || (i == n && x == y && a[n] < b[n]) {
        SmallerAtLonger(x, y, a[n], b[n], i);
      }
      if x == y && a[n] < b[n] { assert SmallerAt(a, b, n); }
      if i :| SmallerAt(x, y, i) { assert SmallerAt(a, b, i); }
    }
  }

  lemma SmallerAtLonger(x: string, y: string, c: char, d: char, i: int)
    requires |x| == |y|
    ensures SmallerAt(x + [c], y + [d], i) <==> SmallerAt(x, y, i) || (i == |x| && x == y && c < d)
  {
    var a, b := x + [c], y + [d];
    assert forall j :: 0 <= j < |x| ==> a[j] == x[j] && b[j] == y[j];
    assert a[|x|] == c && b[|x|] == d;
    if SmallerAt(a, b, i) && i == |x| {
      assert forall j :: 0 <= j < |x| ==> x[j] == y[j];
    }
  }

  /** Canonical spellings are ordered as their part numbers are. */
  lemma SpellingOrder(a: string, b: string)
    requires Canonical(a) && Canonical(b)
    ensures PartNumber(a).Some? && PartNumber(b).Some?
    ensures PartNumber(a).value < PartNumber(b).value <==> Before(a, b)
  {
    CanonicalPartNumber(a, a);
    CanonicalPartNumber(b, b);
    if |a| < |b| {
      LongerIsMore(a, b);
    } else if |b| < |a| {
      LongerIsMore(b, a);
    } else {
      SameLengthOrder(a, b);
    }
  }
}
