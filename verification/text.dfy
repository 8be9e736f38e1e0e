/** Character and string helpers: ASCII case folding, substring search (an
    unanchored regular-expression test over a literal alternative), suffix
    tests, last-occurrence search and decimal rendering of naturals. */
module Text {
  import opened Wrappers

  /** Lower-case of an ASCII letter; every other character maps to itself. */
  function LowerChar(c: char): char {
    if 'A' <= c <= 'Z' then (c as int - 'A' as int + 'a' as int) as char else c
  }

  /** `String.prototype.toLowerCase`, restricted to ASCII letters. */
  function Lower(s: string): (r: string)
    ensures |r| == |s|
    ensures forall i :: 0 <= i < |s| ==> r[i] == LowerChar(s[i])
  {
    if s == [] then [] else [LowerChar(s[0])] + Lower(s[1..])
  }

  /** `p` occurs in `s` starting at position `i`. */
  ghost predicate OccursAt(s: string, p: string, i: int) {
    0 <= i && i + |p| <= |s| && s[i..i + |p|] == p
  }

  /** Substring search, as an unanchored regular expression test of a
      literal: compare at the front, otherwise search the rest. */
  function Contains(s: string, p: string): bool
    decreases |s|
  {
    if |p| > |s| then false
    else if s[..|p|] == p then true
    else Contains(s[1..], p)
  }

  /** The search finds `p` exactly when `p` occurs somewhere in `s`. */
  lemma {:induction false} ContainsIffOccurs(s: string, p: string)
    ensures Contains(s, p) <==> exists i :: OccursAt(s, p, i)
    decreases |s|
  {
    if |p| > |s| {
      assert forall i :: !OccursAt(s, p, i);
    } else if s[..|p|] == p {
      assert OccursAt(s, p, 0);
    } else {
      ContainsIffOccurs(s[1..], p);
      forall i | OccursAt(s[1..], p, i) ensures OccursAt(s, p, i + 1) {
        assert s[1..][i..i + |p|] == s[i + 1..i + 1 + |p|];
      }
      forall i | OccursAt(s, p, i) ensures i >= 1 && OccursAt(s[1..], p, i - 1) {
        assert s[1..][i - 1..i - 1 + |p|] == s[i..i + |p|];
      }
    }
  }

  /** An occurrence at a known position is found by the search. */
  lemma ContainsAt(s: string, p: string, i: int)
    requires OccursAt(s, p, i)
    ensures Contains(s, p)
  {
    ContainsIffOccurs(s, p);
  }

  /** A string that contains `p` contains each of its characters; so a
      string lacking one of them does not contain `p`. */
  lemma ContainsHasChar(s: string, p: string, k: nat)
    requires k < |p|
    ensures Contains(s, p) ==> p[k] in s
  {
    ContainsIffOccurs(s, p);
    if Contains(s, p) {
      var i :| OccursAt(s, p, i);
      assert s[i + k] == p[k];
    }
  }

  /** `s` ends with `t`. */
  predicate EndsWith(s: string, t: string) {
    |t| <= |s| && s[|s| - |t|..] == t
  }

  /** `s` ends with `t` when both are compared without regard to ASCII case,
      as a regular expression `t$` with the `i` flag does. */
  predicate EndsWithIgnoreCase(s: string, t: string) {
    |t| <= |s| && Lower(s[|s| - |t|..]) == Lower(t)
  }

  /** Comparing suffixes without regard to case is comparing the lower-cased
      string with an already lower-case suffix. */
  lemma EndsWithIgnoreCaseMeaning(s: string, t: string)
    requires Lower(t) == t
    ensures EndsWithIgnoreCase(s, t) <==> EndsWith(Lower(s), t)
  {
    var l := Lower(s);
    if |t| <= |s| {
      assert Lower(s[|s| - |t|..]) == l[|l| - |t|..];
    }
  }

  /** Position of the last occurrence of `c` in `s`. */
  function LastIndexOf(s: string, c: char): (r: Option<nat>)
    ensures r.None? <==> c !in s
    ensures r.Some? ==> r.value < |s| && s[r.value] == c && c !in s[r.value + 1..]
  {
    if s == [] then None
    else if s[|s| - 1] == c then Some(|s| - 1)
    else
      var r := LastIndexOf(s[..|s| - 1], c);
      assert s == s[..|s| - 1] + [s[|s| - 1]];
      r
  }

  /** The last occurrence is the only occurrence with none after it. */
  lemma {:induction false} LastIndexOfUnique(s: string, c: char, i: nat)
    requires i < |s| && s[i] == c && c !in s[i + 1..]
    ensures LastIndexOf(s, c) == Some(i)
  {
    assert c in s by { assert s[i] == c; }
  }

  predicate IsDigit(c: char) {
    '0' <= c <= '9'
  }

  function DigitChar(d: nat): (c: char)
    requires d < 10
    ensures IsDigit(c) && c as int - '0' as int == d
  {
    (d + '0' as int) as char
  }

  /** The decimal rendering JavaScript gives a non-negative integer number
      (below 10^21, where it would switch to exponent notation). */
  function Decimal(n: nat): (r: string)
    ensures |r| > 0
    ensures forall i :: 0 <= i < |r| ==> IsDigit(r[i])
    ensures r[0] == '0' ==> n == 0
    decreases n
  {
    if n < 10 then [DigitChar(n)] else Decimal(n / 10) + [DigitChar(n % 10)]
  }

  /** Value of a string of decimal digits. */
  function DecimalValue(s: string): nat
    requires forall i :: 0 <= i < |s| ==> IsDigit(s[i])
  {
    if s == [] then 0
    else
      assert IsDigit(s[|s| - 1]);
      DecimalValue(s[..|s| - 1]) * 10 + (s[|s| - 1] as int - '0' as int)
  }

  /** Reading back a rendered number gives the number. */
  lemma {:induction false} DecimalRoundTrip(n: nat)
    ensures DecimalValue(Decimal(n)) == n
    decreases n
  {
    if n >= 10 {
      var s := Decimal(n);
      assert s[..|s| - 1] == Decimal(n / 10);
      DecimalRoundTrip(n / 10);
    }
  }

  /** All characters of `s` are decimal digits. */
  ghost predicate AllDigits(s: string) {
    forall i :: 0 <= i < |s| ==> IsDigit(s[i])
  }

  /** A string that starts with a run of digits followed by nothing or by a
      non-digit splits in only one way. */
  lemma DigitRunUnique(a1: string, q1: string, a2: string, q2: string)
    requires AllDigits(a1) && AllDigits(a2)
    requires q1 == [] || !IsDigit(q1[0])
    requires q2 == [] || !IsDigit(q2[0])
    requires a1 + q1 == a2 + q2
    ensures a1 == a2 && q1 == q2
  {
    var x := a1 + q1;
    assert forall i :: 0 <= i < |a1| ==> IsDigit(x[i]);
    assert forall i :: 0 <= i < |a2| ==> IsDigit(x[i]);
    assert |a1| < |x| ==> !IsDigit(x[|a1|]);
    assert |a2| < |x| ==> !IsDigit(x[|a2|]);
    assert |a1| == |a2|;
    assert a1 == x[..|a1|] == a2;
    assert q1 == x[|a1|..] == q2;
  }

  /** Distinct numbers render as distinct strings. */
  lemma DecimalInjective(m: nat, n: nat)
    requires Decimal(m) == Decimal(n)
    ensures m == n
  {
    DecimalRoundTrip(m);
    DecimalRoundTrip(n);
  }
}
