/** Decimal text of integers, as `to_string` and `String(n)` write it. */
module Decimal {
  predicate IsDigit(c: char) { '0' <= c <= '9' }

  predicate AllDigits(s: string) {
    forall i :: 0 <= i < |s| ==> IsDigit(s[i])
  }

  function DigitChar(d: nat): (c: char)
    requires d < 10
    ensures IsDigit(c) && DigitValue(c) == d
  {
    "0123456789"[d]
  }

  function DigitValue(c: char): nat
    requires IsDigit(c)
  {
    c as int - '0' as int
  }

  function OfNat(n: nat): (s: string)
    ensures s != [] && AllDigits(s)
  {
    if n < 10 then [DigitChar(n)] else OfNat(n / 10) + [DigitChar(n % 10)]
  }

  function OfInt(i: int): string {
    if i < 0 then "-" + OfNat(-i) else OfNat(i)
  }

  /** The number a string of digits stands for. */
  function Value(s: string): nat
    requires AllDigits(s)
  {
    if s == [] then 0 else Value(s[..|s| - 1]) * 10 + DigitValue(s[|s| - 1])
  }

  /** No superfluous leading zero. */
  predicate Plain(s: string) {
    s != [] && AllDigits(s) && (s[0] == '0' ==> |s| == 1)
  }

  lemma {:induction false} ValueOfNat(n: nat)
    ensures Value(OfNat(n)) == n && Plain(OfNat(n))
    ensures n > 0 ==> OfNat(n)[0] != '0'
  {
    if n >= 10 {
      var s := OfNat(n);
      assert s[..|s| - 1] == OfNat(n / 10);
      ValueOfNat(n / 10);
    }
  }

  lemma {:induction false} PlainPositive(s: string)
    requires Plain(s) && s[0] != '0'
    ensures Value(s) > 0
  {
    if |s| > 1 {
      assert s[..|s| - 1][0] == s[0];
      PlainPositive(s[..|s| - 1]);
    }
  }

  lemma OneDigit(c: char)
    requires IsDigit(c)
    ensures OfNat(DigitValue(c)) == [c]
  {
    DigitCharOfValue(c);
  }

  lemma ValueSplit(s: string)
    requires AllDigits(s) && s != []
    ensures AllDigits(s[..|s| - 1])
    ensures Value(s) == Value(s[..|s| - 1]) * 10 + DigitValue(s[|s| - 1])
  {
  }

  lemma {:induction false} OfNatOfValue(s: string)
    requires Plain(s)
    ensures OfNat(Value(s)) == s
  {
    var init, last := s[..|s| - 1], s[|s| - 1];
    ValueSplit(s);
    assert s == init + [last];
    if |s| == 1 {
      assert Value(init) == 0;
      OneDigit(last);
    } else {
      assert init[0] == s[0];
      OfNatOfValue(init);
      PlainPositive(init);
      OfNatStep(Value(init), DigitValue(last));
      DigitCharOfValue(last);
    }
  }

  lemma OfNatStep(q: nat, r: nat)
    requires q > 0 && r < 10
    ensures OfNat(q * 10 + r) == OfNat(q) + [DigitChar(r)]
  {
    var n := q * 10 + r;
    assert n / 10 == q && n % 10 == r;
  }

  lemma DigitCharOfValue(c: char)
    requires IsDigit(c)
    ensures DigitChar(DigitValue(c)) == c
  {
  }

  lemma OfIntInjective(i: int, j: int)
    ensures OfInt(i) == OfInt(j) <==> i == j
  {
    if OfInt(i) == OfInt(j) {
      var a, b := if i < 0 then -i else i, if j < 0 then -j else j;
      ValueOfNat(a);
      ValueOfNat(b);
      if i < 0 {
        assert j < 0;
        assert OfInt(i)[1..] == OfNat(a) && OfInt(j)[1..] == OfNat(b);
      }
    }
  }

  function Pow10(n: nat): (p: nat)
    ensures p > 0
  {
    if n == 0 then 1 else 10 * Pow10(n - 1)
  }

  lemma {:induction false} OfNatShort(n: nat, k: nat)
    requires n < Pow10(k) && k > 0
    ensures |OfNat(n)| <= k
  {
    if n >= 10 {
      assert k > 1 by {
        assert Pow10(0) == 1 && Pow10(1) == 10;
      }
      TenthBelow(n, Pow10(k - 1));
      OfNatShort(n / 10, k - 1);
    }
  }

  lemma NineteenDigits()
    ensures Pow10(19) == 10_000_000_000_000_000_000
  {
    assert Pow10(4) == 10_000;
    assert Pow10(8) == 100_000_000;
    assert Pow10(12) == 1_000_000_000_000;
    assert Pow10(16) == 10_000_000_000_000_000;
  }

  lemma TenthBelow(n: nat, p: nat)
    requires n < 10 * p
    ensures n / 10 < p
  {
  }
}
