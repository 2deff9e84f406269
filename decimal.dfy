/**
 * Decimal rendering of integers as Python's `str`/f-strings produce it,
 * the digit test behind `str.isdigit`, and the parser that inverts the rendering.
 */
module Decimal {
  import opened Wrappers

  /** An ASCII decimal digit. */
  predicate IsAsciiDigit(c: char)
  {
    '0' <= c <= '9'
  }

  /** A full-width (U+FF10..U+FF19) decimal digit, which `str.isdigit` also accepts. */
  predicate IsWideDigit(c: char)
  {
    '\U{FF10}' <= c <= '\U{FF19}'
  }

  /** `str.isdigit` on a string: non-empty and every character a digit. */
  predicate IsDigitString(s: string)
  {
    |s| > 0 && forall i :: 0 <= i < |s| ==> IsAsciiDigit(s[i]) || IsWideDigit(s[i])
  }

  function DigitChar(d: nat): (c: char)
    requires d < 10
    ensures IsAsciiDigit(c)
  {
    "0123456789"[d]
  }

  function DigitValue(c: char): (d: nat)
    requires IsAsciiDigit(c)
    ensures d < 10 && DigitChar(d) == c
  {
    (c as int - '0' as int) as nat
  }

  /** `str(n)` for a natural number: its decimal digits, most significant first. */
  function ShowNat(n: nat): (s: string)
    ensures |s| > 0
    ensures forall i :: 0 <= i < |s| ==> IsAsciiDigit(s[i])
    ensures |s| > 1 ==> s[0] != '0'
  {
    if n < 10 then [DigitChar(n)] else ShowNat(n / 10) + [DigitChar(n % 10)]
  }

  /** `str(i)` for any integer: a minus sign before the digits of a negative number. */
  function ShowInt(i: int): (s: string)
    ensures |s| > 0
    ensures (s[0] == '-') <==> i < 0
    ensures forall k :: (if i < 0 then 1 else 0) <= k < |s| ==> IsAsciiDigit(s[k])
  {
    if i < 0 then "-" + ShowNat(-i) else ShowNat(i)
  }

  /** The value of a string of ASCII digits (the empty string has value 0). */
  function DigitsValue(s: string): nat
    requires forall i :: 0 <= i < |s| ==> IsAsciiDigit(s[i])
  {
    if s == [] then 0 else DigitsValue(s[..|s| - 1]) * 10 + DigitValue(s[|s| - 1])
  }

  /** Reads a non-empty run of ASCII digits; anything else is not a natural number. */
  function ParseNat(s: string): (r: Option<nat>)
    ensures r.Some? <==> |s| > 0 && forall i :: 0 <= i < |s| ==> IsAsciiDigit(s[i])
  {
    if |s| > 0 && forall i :: 0 <= i < |s| ==> IsAsciiDigit(s[i]) then Some(DigitsValue(s)) else None
  }

  /** Reads an optionally negated run of ASCII digits. */
  function ParseInt(s: string): (r: Option<int>)
    ensures r.Some? && |s| > 0 && s[0] != '-' ==> r.value >= 0
  {
    if |s| > 0 && s[0] == '-' then
      match ParseNat(s[1..])
      case Some(n) => Some(0 - n as int)
      case None => None
    else
      match ParseNat(s)
      case Some(n) => Some(n as int)
      case None => None
  }

  lemma {:induction false} DigitsValueShow(n: nat)
    ensures DigitsValue(ShowNat(n)) == n
  {
    if n >= 10 {
      var s := ShowNat(n);
      assert s[..|s| - 1] == ShowNat(n / 10);
      DigitsValueShow(n / 10);
    }
  }

  /** A run of `k` zeros. */
  function Zeros(k: nat): (z: string)
    ensures |z| == k && forall i :: 0 <= i < k ==> z[i] == '0'
  {
    if k == 0 then "" else Zeros(k - 1) + "0"
  }

  /** Leading zeros do not change the value of a digit string. */
  lemma {:induction false} DigitsValueZeros(k: nat, t: string)
    requires forall i :: 0 <= i < |t| ==> IsAsciiDigit(t[i])
    ensures DigitsValue(Zeros(k) + t) == DigitsValue(t)
    decreases |t|, k
  {
    if t == [] {
      if k > 0 {
        assert Zeros(k) + t == Zeros(k - 1) + "0";
        assert (Zeros(k - 1) + "0")[..k - 1] == Zeros(k - 1) + [];
        DigitsValueZeros(k - 1, []);
      }
    } else {
      var p := t[..|t| - 1];
      assert (Zeros(k) + t)[..|Zeros(k) + t| - 1] == Zeros(k) + p;
      DigitsValueZeros(k, p);
    }
  }

  /** A digit string not starting with `0` has a positive value. */
  lemma {:induction false} DigitsValuePositive(s: string)
    requires |s| > 0 && forall i :: 0 <= i < |s| ==> IsAsciiDigit(s[i])
    requires s[0] != '0'
    ensures DigitsValue(s) > 0
  {
    if |s| > 1 {
      DigitsValuePositive(s[..|s| - 1]);
    }
  }

  /** A digit string without a leading zero (or the single `0`) is the rendering of its value. */
  lemma {:induction false} ShowDigitsValue(s: string)
    requires |s| > 0 && forall i :: 0 <= i < |s| ==> IsAsciiDigit(s[i])
    requires |s| > 1 ==> s[0] != '0'
    ensures ShowNat(DigitsValue(s)) == s
  {
    var p, d := s[..|s| - 1], DigitValue(s[|s| - 1]);
    var v := DigitsValue(s);
    assert v == DigitsValue(p) * 10 + d;
    if |s| > 1 {
      DigitsValuePositive(p);
      ShowDigitsValue(p);
      LastDigit(DigitsValue(p), d);
      assert ShowNat(v) == ShowNat(DigitsValue(p)) + [DigitChar(d)];
      assert s == p + [s[|s| - 1]];
    } else {
      assert p == [];
    }
  }

  lemma LastDigit(a: nat, d: nat)
    requires d < 10
    ensures (a * 10 + d) / 10 == a && (a * 10 + d) % 10 == d
  {
  }

  /**
   * Every accepted string is some zeros followed by the rendering of its
   * value, so its value is the one `int()` gives it (`"007"` is 7).
   */
  lemma {:induction false} ParseNatShape(s: string)
    requires ParseNat(s).Some?
    ensures |ShowNat(ParseNat(s).value)| <= |s|
    ensures s == Zeros(|s| - |ShowNat(ParseNat(s).value)|) + ShowNat(ParseNat(s).value)
    decreases |s|
  {
    if |s| > 1 && s[0] == '0' {
      var t := s[1..];
      assert s == Zeros(1) + t;
      DigitsValueZeros(1, t);
      ParseNatShape(t);
      var k := |t| - |ShowNat(ParseNat(t).value)|;
      assert Zeros(1) + Zeros(k) == Zeros(k + 1);
    } else {
      ShowDigitsValue(s);
      assert s == Zeros(0) + s;
    }
  }

  /** Conversely, zeros followed by the rendering of `n` read as `n`. */
  lemma ParseZerosShowNat(k: nat, n: nat)
    ensures ParseNat(Zeros(k) + ShowNat(n)) == Some(n)
  {
    DigitsValueZeros(k, ShowNat(n));
    DigitsValueShow(n);
    var s := Zeros(k) + ShowNat(n);
    assert forall i :: 0 <= i < |s| ==> IsAsciiDigit(s[i]);
  }

  /** Rendering a natural number and reading it back gives the number. */
  lemma ParseShowNat(n: nat)
    ensures ParseNat(ShowNat(n)) == Some(n)
  {
    DigitsValueShow(n);
  }

  /** Rendering an integer and reading it back gives the integer. */
  lemma ParseShowInt(i: int)
    ensures ParseInt(ShowInt(i)) == Some(i)
  {
    if i < 0 {
      ParseShowNat(-i);
      assert ShowInt(i)[1..] == ShowNat(-i);
    } else {
      ParseShowNat(i);
    }
  }

  /** Distinct integers render as distinct strings. */
  lemma ShowIntInjective(i: int, j: int)
    requires ShowInt(i) == ShowInt(j)
    ensures i == j
  {
    ParseShowInt(i);
    ParseShowInt(j);
  }
}
