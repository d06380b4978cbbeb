/** The string primitives the service leans on: decimal numerals (what
    `parseInt` reads), ASCII upper-casing (`toUpperCase`) and substring
    search (`indexOf(..) > -1`). */
module Text {

  predicate IsDigit(c: char) {
    '0' <= c <= '9'
  }

  predicate AllDigits(s: string) {
    forall i :: 0 <= i < |s| ==> IsDigit(s[i])
  }

  /** A non-empty run of decimal digits. */
  predicate IsNumeral(s: string) {
    |s| > 0 && AllDigits(s)
  }

  function DigitValue(c: char): (d: nat)
    requires IsDigit(c)
    ensures d < 10
  {
    (c as int) - ('0' as int)
  }

  function DigitChar(d: nat): (c: char)
    requires d < 10
    ensures IsDigit(c) && DigitValue(c) == d
  {
    (('0' as int) + d) as char
  }

  /** The value `parseInt` gives a string of decimal digits (leading zeros
      are allowed and ignored). */
  function NumeralValue(s: string): nat
    requires AllDigits(s)
    decreases |s|
  {
    if |s| == 0 then 0
    else 10 * NumeralValue(s[..|s| - 1]) + DigitValue(s[|s| - 1])
  }

  /** The canonical decimal spelling of `n`, as JavaScript prints a
      non-negative integer. Reading it back gives `n`. */
  function Numeral(n: nat): (s: string)
    ensures IsNumeral(s)
    ensures NumeralValue(s) == n
    ensures n < 10 <==> |s| == 1
    ensures s[0] != '0' || n == 0
    decreases n
  {
    if n < 10 then [DigitChar(n)]
    else
      var front := Numeral(n / 10);
      var s := front + [DigitChar(n % 10)];
      assert s[..|s| - 1] == front;
      s
  }

  /** A numeral is never worth less than its leading digit. */
  lemma {:induction false} LeadingDigitBound(t: string)
    requires IsNumeral(t)
    ensures NumeralValue(t) >= DigitValue(t[0])
    decreases |t|
  {
    if |t| > 1 {
      LeadingDigitBound(t[..|t| - 1]);
    }
  }

  /** A numeral without leading zeros is the canonical spelling of its
      value. */
  lemma {:induction false} NumeralCanonical(t: string)
    requires IsNumeral(t)
    ensures t[0] != '0' || |t| == 1 ==> Numeral(NumeralValue(t)) == t
    decreases |t|
  {
    if |t| > 1 && t[0] != '0' {
      var front := t[..|t| - 1];
      NumeralCanonical(front);
      LeadingDigitBound(front);
      var v := NumeralValue(t);
      assert v / 10 == NumeralValue(front) && v % 10 == DigitValue(t[|t| - 1]);
      assert Numeral(v) == Numeral(v / 10) + [DigitChar(v % 10)];
      assert t == front + [t[|t| - 1]];
    }
  }

  /** A leading zero does not change the value of a numeral. */
  lemma {:induction false} NumeralValueZeroPrefix(t: string)
    requires AllDigits(t)
    ensures AllDigits("0" + t) && NumeralValue("0" + t) == NumeralValue(t)
    decreases |t|
  {
    var z := "0" + t;
    assert forall i :: 0 < i < |z| ==> z[i] == t[i - 1];
    if |t| > 0 {
      var front := t[..|t| - 1];
      NumeralValueZeroPrefix(front);
      assert z[..|z| - 1] == "0" + front;
    }
  }

  /** Reading a numeral that starts with a zero reads past the zero. */
  lemma NumeralSkipZero(t: string)
    requires IsNumeral(t)
    ensures t[0] == '0' && |t| > 1 ==> NumeralValue(t) == NumeralValue(t[1..])
  {
    if t[0] == '0' && |t| > 1 {
      assert t == "0" + t[1..];
      NumeralValueZeroPrefix(t[1..]);
    }
  }

  /** `k` zero digits. */
  function Zeros(k: nat): (z: string)
    ensures |z| == k && forall i :: 0 <= i < k ==> z[i] == '0'
  {
    seq(k, i requires 0 <= i < k => '0')
  }

  /** Any number of leading zeros leaves the value alone. */
  lemma {:induction false} ZerosValue(k: nat, t: string)
    requires AllDigits(t)
    ensures AllDigits(Zeros(k) + t) && NumeralValue(Zeros(k) + t) == NumeralValue(t)
    decreases k
  {
    if k > 0 {
      ZerosValue(k - 1, t);
      assert Zeros(k) == "0" + Zeros(k - 1);
      assert Zeros(k) + t == "0" + (Zeros(k - 1) + t);
      NumeralValueZeroPrefix(Zeros(k - 1) + t);
    } else {
      assert Zeros(k) + t == t;
    }
  }

  /** Distinct numbers are spelled differently. */
  lemma NumeralInjective(m: nat, n: nat)
    requires Numeral(m) == Numeral(n)
    ensures m == n
  {
  }

  /** ASCII upper-casing of one character; other characters are kept. */
  function UpperChar(c: char): (u: char)
    ensures 'a' <= c <= 'z' ==> u as int == c as int - 32
    ensures !('a' <= c <= 'z') ==> u == c
  {
    if 'a' <= c <= 'z' then (c as int - 32) as char else c
  }

  function Upper(s: string): (u: string)
    ensures |u| == |s|
    ensures forall i :: 0 <= i < |s| ==> u[i] == UpperChar(s[i])
  {
    seq(|s|, i requires 0 <= i < |s| => UpperChar(s[i]))
  }

  /** Upper-casing twice is upper-casing once. */
  lemma UpperIdempotent(s: string)
    ensures Upper(Upper(s)) == Upper(s)
  {
  }

  predicate IsPrefix(t: string, s: string) {
    |t| <= |s| && s[..|t|] == t
  }

  /** `s.indexOf(t) > -1`: `t` occurs somewhere inside `s`. */
  predicate Contains(s: string, t: string)
    decreases |s|
  {
    IsPrefix(t, s) || (|s| > 0 && Contains(s[1..], t))
  }

  /** `t` starts at position `i` of `s`. */
  predicate OccursAt(s: string, t: string, i: int) {
    0 <= i && i + |t| <= |s| && s[i..i + |t|] == t
  }

  /** The recursive search agrees with "there is a position where `t` starts". */
  lemma {:induction false} ContainsAt(s: string, t: string)
    ensures Contains(s, t) <==> exists i :: OccursAt(s, t, i)
    decreases |s|
  {
    if |s| > 0 {
      ContainsAt(s[1..], t);
      if IsPrefix(t, s) {
        assert OccursAt(s, t, 0);
      }
      if Contains(s[1..], t) {
        var i :| OccursAt(s[1..], t, i);
        assert s[i + 1..i + 1 + |t|] == s[1..][i..i + |t|];
        assert OccursAt(s, t, i + 1);
      }
      if exists i :: OccursAt(s, t, i) {
        var i :| OccursAt(s, t, i);
        if i == 0 {
          assert IsPrefix(t, s);
        } else {
          assert s[1..][i - 1..i - 1 + |t|] == s[i..i + |t|];
          assert OccursAt(s[1..], t, i - 1);
        }
      }
    } else {
      if Contains(s, t) {
        assert OccursAt(s, t, 0);
      }
      if exists i :: OccursAt(s, t, i) {
        var i :| OccursAt(s, t, i);
        assert i == 0;
      }
    }
  }
}
