/** ASCII models of the Python string primitives the service relies on:
    `str.strip()`, `str.lower()`, decimal digits and `str(n)` for a status code. */
module Text {

  // ---------------------------------------------------------------------------
  // Whitespace and `str.strip()`
  // ---------------------------------------------------------------------------

  /** The ASCII characters Python's `str.strip()` removes: space, the controls
      \t \n \v \f \r, and the separators U+001C .. U+001F. */
  predicate IsSpace(c: char) {
    c == ' ' || ('\t' <= c <= '\r') || ('\U{1C}' <= c <= '\U{1F}')
  }

  predicate AllSpace(s: string) {
    forall k :: 0 <= k < |s| ==> IsSpace(s[k])
  }

  /** Drops the leading whitespace: what is left is a suffix of `s` that does
      not start with whitespace, and everything dropped was whitespace. */
  function StripLeft(s: string): (r: string)
    ensures |r| <= |s| && r == s[|s| - |r|..]
    ensures AllSpace(s[..|s| - |r|])
    ensures r != [] ==> !IsSpace(r[0])
  {
    if s != [] && IsSpace(s[0]) then
      var r := StripLeft(s[1..]);
      assert s[..|s| - |r|] == [s[0]] + s[1..][..|s| - 1 - |r|];
      r
    else
      s
  }

  /** Drops the trailing whitespace: what is left is a prefix of `s` that does
      not end with whitespace, and everything dropped was whitespace. */
  function StripRight(s: string): (r: string)
    ensures |r| <= |s| && r == s[..|r|]
    ensures AllSpace(s[|r|..])
    ensures r != [] ==> !IsSpace(r[|r| - 1])
  {
    if s != [] && IsSpace(s[|s| - 1]) then
      var r := StripRight(s[..|s| - 1]);
      assert s[|r|..] == s[..|s| - 1][|r|..] + [s[|s| - 1]];
      r
    else
      s
  }

  /** Python's `s.strip()`: the slice of `s` between its leading and its
      trailing whitespace, neither end of which is whitespace. */
  function Strip(s: string): (r: string)
    ensures var lo := |s| - |StripLeft(s)|;
      && lo + |r| <= |s|
      && r == s[lo..lo + |r|]
      && AllSpace(s[..lo])
      && AllSpace(s[lo + |r|..])
    ensures r != [] ==> !IsSpace(r[0]) && !IsSpace(r[|r| - 1])
  {
    var m := StripLeft(s);
    var r := StripRight(m);
    SliceOfSuffix(s, m, r);
    r
  }

  /** A prefix `r` of a suffix `m` of `s` is a slice of `s`, and what follows
      `r` in `s` is what follows it in `m`. */
  lemma SliceOfSuffix(s: string, m: string, r: string)
    requires |m| <= |s| && m == s[|s| - |m|..]
    requires |r| <= |m| && r == m[..|r|]
    ensures r == s[|s| - |m|..|s| - |m| + |r|]
    ensures s[|s| - |m| + |r|..] == m[|r|..]
  {
  }

  /** `s` is the whitespace `s.strip()` dropped in front, the stripped text,
      and the whitespace it dropped at the end. */
  lemma StripSplit(s: string) returns (before: string, after: string)
    ensures s == before + Strip(s) + after
    ensures AllSpace(before) && AllSpace(after)
  {
    var r := Strip(s);
    var lo := |s| - |StripLeft(s)|;
    before, after := s[..lo], s[lo + |r|..];
    ThreeWaySplit(s, lo, lo + |r|);
  }

  lemma ThreeWaySplit(s: string, i: nat, j: nat)
    requires i <= j <= |s|
    ensures s == s[..i] + s[i..j] + s[j..]
  {
  }

  /** `s.strip()` is empty exactly when `s` is made of whitespace only. */
  lemma StripEmptyIffBlank(s: string)
    ensures Strip(s) == [] <==> AllSpace(s)
  {
    var r := Strip(s);
    var lo := |s| - |StripLeft(s)|;
    if r == [] {
      forall k | 0 <= k < |s| ensures IsSpace(s[k]) {
        if k < lo {
          assert s[..lo][k] == s[k];
        } else {
          assert s[lo..][k - lo] == s[k];
        }
      }
    } else {
      assert r[0] == s[lo];
    }
  }

  /** Stripping twice is stripping once. */
  lemma StripIdempotent(s: string)
    ensures Strip(Strip(s)) == Strip(s)
  {
    var r := Strip(s);
    if r != [] {
      assert StripLeft(r) == r;
      assert StripRight(r) == r;
    }
  }

  // ---------------------------------------------------------------------------
  // Case folding and `str.lower()`
  // ---------------------------------------------------------------------------

  predicate IsUpper(c: char) { 'A' <= c <= 'Z' }

  /** ASCII lower-casing of one character; every other character is kept. */
  function LowerChar(c: char): (d: char)
    ensures !IsUpper(d)
    ensures IsUpper(c) ==> d as int == c as int + 32
    ensures !IsUpper(c) ==> d == c
  {
    if IsUpper(c) then (c as int + 32) as char else c
  }

  /** Python's `s.lower()` on ASCII letters: same length, each character
      lower-cased in place, and no upper-case letter left. */
  function Lower(s: string): (r: string)
    ensures |r| == |s|
    ensures forall k :: 0 <= k < |s| ==> r[k] == LowerChar(s[k])
    ensures forall k :: 0 <= k < |r| ==> !IsUpper(r[k])
  {
    if s == [] then [] else [LowerChar(s[0])] + Lower(s[1..])
  }

  /** Lower-casing an already lower-cased string changes nothing. */
  lemma LowerIdempotent(s: string)
    ensures Lower(Lower(s)) == Lower(s)
  {
  }

  /** Two strings that differ at most in the case of ASCII letters. */
  predicate SameIgnoringCase(a: string, b: string) {
    |a| == |b| && forall k :: 0 <= k < |a| ==> LowerChar(a[k]) == LowerChar(b[k])
  }

  /** `s.lower() == w` for a lower-case word `w` holds exactly for the strings
      that spell `w` in any mix of upper and lower case. */
  lemma LowerEqualsIff(s: string, w: string)
    requires forall k :: 0 <= k < |w| ==> !IsUpper(w[k])
    ensures Lower(s) == w <==> SameIgnoringCase(s, w)
  {
    if SameIgnoringCase(s, w) {
      assert forall k :: 0 <= k < |w| ==> Lower(s)[k] == w[k];
    }
  }

  // ---------------------------------------------------------------------------
  // Decimal digits
  // ---------------------------------------------------------------------------

  predicate IsDigit(c: char) { '0' <= c <= '9' }

  predicate AllDigits(s: string) {
    forall k :: 0 <= k < |s| ==> IsDigit(s[k])
  }

  function DigitValue(c: char): (d: nat)
    requires IsDigit(c)
    ensures d < 10
  {
    c as int - '0' as int
  }

  function DigitChar(d: nat): (c: char)
    requires d < 10
    ensures IsDigit(c) && DigitValue(c) == d
  {
    ('0' as int + d) as char
  }

  /** The number a string of decimal digits denotes, most significant digit
      first; the empty string denotes 0. */
  function DigitsValue(ds: string): nat
    requires AllDigits(ds)
  {
    if ds == [] then 0 else DigitsValue(ds[..|ds| - 1]) * 10 + DigitValue(ds[|ds| - 1])
  }

  /** Python's `str(n)` for a non-negative integer: a non-empty digit string
      without a leading zero that denotes `n`. */
  function NatToString(n: nat): (r: string)
    ensures r != [] && AllDigits(r)
    ensures DigitsValue(r) == n
    ensures r[0] == '0' ==> r == "0"
  {
    if n < 10 then
      [DigitChar(n)]
    else
      var r := NatToString(n / 10) + [DigitChar(n % 10)];
      assert r[..|r| - 1] == NatToString(n / 10);
      r
  }

  function Zeros(k: nat): (z: string)
    ensures |z| == k && AllDigits(z)
    ensures forall i :: 0 <= i < k ==> z[i] == '0'
  {
    if k == 0 then [] else Zeros(k - 1) + ['0']
  }

  /** Leading zeros do not change the number a digit string denotes. */
  lemma {:induction false} LeadingZeros(k: nat, ds: string)
    requires AllDigits(ds)
    ensures AllDigits(Zeros(k) + ds)
    ensures DigitsValue(Zeros(k) + ds) == DigitsValue(ds)
  {
    var s := Zeros(k) + ds;
    assert AllDigits(s);
    if ds == [] {
      assert s == Zeros(k);
      if k > 0 {
        assert s[..|s| - 1] == Zeros(k - 1) + [];
        LeadingZeros(k - 1, []);
      }
    } else {
      var init := ds[..|ds| - 1];
      assert s[..|s| - 1] == Zeros(k) + init;
      LeadingZeros(k, init);
    }
  }
}
