/**
 Decimal digit strings: the two regular-expression replacements the counter
 applies to its label (`/\D/g` keeps the digits, `/[0-9]/g` keeps the rest),
 the value `parseInt` reads from a string of digits, and the decimal text a
 non-negative whole number is rendered as.
 */
module Decimal {

  /** `[0-9]`; without the `u` flag `\d` means exactly these ten characters. */
  predicate IsDigit(c: char) {
    '0' <= c <= '9'
  }

  predicate AllDigits(s: string) {
    forall i :: 0 <= i < |s| ==> IsDigit(s[i])
  }

  predicate NoDigits(s: string) {
    forall i :: 0 <= i < |s| ==> !IsDigit(s[i])
  }

  /** A decimal numeral with no superfluous leading zero ("0", "7", "450", not "045"). */
  predicate Canonical(s: string) {
    && |s| >= 1
    && AllDigits(s)
    && (s[0] == '0' ==> |s| == 1)
  }

  /** `s.replace(/\D/g, '')`: the digit characters of `s`, in order. */
  function KeepDigits(s: string): (r: string)
    ensures AllDigits(r)
    ensures |r| <= |s|
  {
    if s == [] then []
    else if IsDigit(s[0]) then [s[0]] + KeepDigits(s[1..])
    else KeepDigits(s[1..])
  }

  /** `s.replace(/[0-9]/g, '')`: the non-digit characters of `s`, in order. */
  function DropDigits(s: string): (r: string)
    ensures NoDigits(r)
    ensures |r| <= |s|
  {
    if s == [] then []
    else if IsDigit(s[0]) then DropDigits(s[1..])
    else [s[0]] + DropDigits(s[1..])
  }

  /** Both filters distribute over concatenation, so each keeps its characters in their original order. */
  lemma FiltersDistribute(a: string, b: string)
    ensures KeepDigits(a + b) == KeepDigits(a) + KeepDigits(b)
    ensures DropDigits(a + b) == DropDigits(a) + DropDigits(b)
  {
    KeepDigitsDistributes(a, b);
    DropDigitsDistributes(a, b);
  }

  lemma {:induction false} KeepDigitsDistributes(a: string, b: string)
    ensures KeepDigits(a + b) == KeepDigits(a) + KeepDigits(b)
    decreases |a|
  {
    if a == [] {
      assert a + b == b;
    } else {
      var ab := a + b;
      assert ab[0] == a[0];
      assert ab[1..] == a[1..] + b;
      KeepDigitsDistributes(a[1..], b);
      if IsDigit(a[0]) {
        assert KeepDigits(ab) == [a[0]] + KeepDigits(a[1..] + b);
        assert KeepDigits(a) == [a[0]] + KeepDigits(a[1..]);
      } else {
        assert KeepDigits(ab) == KeepDigits(a[1..] + b);
        assert KeepDigits(a) == KeepDigits(a[1..]);
      }
    }
  }

  lemma {:induction false} DropDigitsDistributes(a: string, b: string)
    ensures DropDigits(a + b) == DropDigits(a) + DropDigits(b)
    decreases |a|
  {
    if a == [] {
      assert a + b == b;
    } else {
      var ab := a + b;
      assert ab[0] == a[0];
      assert ab[1..] == a[1..] + b;
      DropDigitsDistributes(a[1..], b);
      if IsDigit(a[0]) {
        assert DropDigits(ab) == DropDigits(a[1..] + b);
        assert DropDigits(a) == DropDigits(a[1..]);
      } else {
        assert DropDigits(ab) == [a[0]] + DropDigits(a[1..] + b);
        assert DropDigits(a) == [a[0]] + DropDigits(a[1..]);
      }
    }
  }

  /** A string of digits passes `KeepDigits` unchanged and leaves nothing for `DropDigits`. */
  lemma {:induction false} FiltersOnDigits(s: string)
    requires AllDigits(s)
    ensures KeepDigits(s) == s
    ensures DropDigits(s) == []
    decreases |s|
  {
    if s != [] {
      FiltersOnDigits(s[1..]);
      assert [s[0]] + s[1..] == s;
    }
  }

  /** A string without digits passes `DropDigits` unchanged and leaves nothing for `KeepDigits`. */
  lemma {:induction false} FiltersOnNonDigits(s: string)
    requires NoDigits(s)
    ensures DropDigits(s) == s
    ensures KeepDigits(s) == []
    decreases |s|
  {
    if s != [] {
      FiltersOnNonDigits(s[1..]);
      assert [s[0]] + s[1..] == s;
    }
  }

  /** Together the two filters keep every character of `s` exactly once. */
  lemma {:induction false} FiltersPartition(s: string)
    ensures multiset(KeepDigits(s)) + multiset(DropDigits(s)) == multiset(s)
    ensures KeepDigits(s) == [] <==> NoDigits(s)
    decreases |s|
  {
    if s != [] {
      FiltersPartition(s[1..]);
      assert s == [s[0]] + s[1..];
      assert multiset(s) == multiset([s[0]]) + multiset(s[1..]);
      if !IsDigit(s[0]) && KeepDigits(s) == [] {
        assert NoDigits(s[1..]);
        forall i | 0 <= i < |s|
          ensures !IsDigit(s[i])
        {
          if i > 0 {
            assert s[i] == s[1..][i - 1];
          }
        }
      }
    }
  }

  function DigitValue(c: char): (d: nat)
    requires IsDigit(c)
    ensures d < 10
  {
    c as int - '0' as int
  }

  function DigitChar(d: nat): (c: char)
    requires d < 10
    ensures IsDigit(c)
    ensures DigitValue(c) == d
  {
    ('0' as int + d) as char
  }

  /** The number `parseInt(s, 10)` reads from a string made only of digits. */
  function Value(s: string): (r: nat)
    requires AllDigits(s)
    ensures r == 0 <==> forall i :: 0 <= i < |s| ==> s[i] == '0'
    decreases |s|
  {
    if s == [] then 0
    else
      var init := s[..|s| - 1];
      assert forall i :: 0 <= i < |init| ==> init[i] == s[i];
      10 * Value(init) + DigitValue(s[|s| - 1])
  }

  /** The decimal text JavaScript renders a whole number `n` as (for `n` below 10^21). */
  function NatToString(n: nat): (r: string)
    ensures Canonical(r)
    ensures r[0] == '0' <==> n == 0
    decreases n
  {
    if n < 10 then [DigitChar(n)] else NatToString(n / 10) + [DigitChar(n % 10)]
  }

  /** Reading back the rendered text of `n` gives `n`. */
  lemma {:induction false} ValueOfNatToString(n: nat)
    ensures Value(NatToString(n)) == n
    decreases n
  {
    var s := NatToString(n);
    if n < 10 {
      assert s[..|s| - 1] == [];
    } else {
      ValueOfNatToString(n / 10);
      assert s[..|s| - 1] == NatToString(n / 10);
    }
  }

  /** Different numbers are rendered as different texts. */
  lemma NatToStringInjective(m: nat, n: nat)
    ensures NatToString(m) == NatToString(n) <==> m == n
  {
    if NatToString(m) == NatToString(n) {
      ValueOfNatToString(m);
      ValueOfNatToString(n);
    }
  }

  /** A numeral of two or more digits that does not start with '0' denotes at least 10. */
  lemma {:induction false} ValueWithLeadingNonZero(s: string)
    requires AllDigits(s) && |s| >= 1 && s[0] != '0'
    ensures Value(s) >= 1
    ensures |s| >= 2 ==> Value(s) >= 10
    decreases |s|
  {
    if |s| >= 2 {
      var p := s[..|s| - 1];
      assert p[0] == s[0];
      ValueWithLeadingNonZero(p);
    }
  }

  /** Rendering the value of a canonical numeral gives the numeral back. */
  lemma {:induction false} NatToStringOfValue(s: string)
    requires Canonical(s)
    ensures NatToString(Value(s)) == s
    decreases |s|
  {
    var p := s[..|s| - 1];
    var last := s[|s| - 1];
    if |s| == 1 {
      assert p == [];
      assert [DigitChar(DigitValue(last))] == s;
    } else {
      assert p[0] == s[0];
      ValueWithLeadingNonZero(s);
      NatToStringOfValue(p);
      var n := Value(s);
      assert n / 10 == Value(p) && n % 10 == DigitValue(last);
      assert DigitChar(DigitValue(last)) == last;
      assert p + [last] == s;
    }
  }
}
