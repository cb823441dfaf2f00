/** Decimal notation of natural numbers, as str() writes it and int() reads it. */
module Decimal {
  predicate IsDigit(c: char) { '0' <= c <= '9' }

  function DigitValue(c: char): nat
    requires IsDigit(c)
  {
    c as int - '0' as int
  }

  function Digit(d: nat): (c: char)
    requires d < 10
    ensures IsDigit(c) && DigitValue(c) == d
  {
    (d + '0' as int) as char
  }

  predicate AllDigits(s: string) { forall i :: 0 <= i < |s| ==> IsDigit(s[i]) }

  /** str(n) */
  function Str(n: nat): (s: string)
    ensures s != "" && AllDigits(s)
  {
    if n < 10 then [Digit(n)] else Str(n / 10) + [Digit(n % 10)]
  }

  /** The number that a string of digits denotes; leading zeros are allowed. */
  function Number(s: string): nat
    requires AllDigits(s)
  {
    if s == "" then 0 else 10 * Number(s[..|s| - 1]) + DigitValue(s[|s| - 1])
  }

  lemma {:induction false} NumberOfStr(n: nat)
    ensures Number(Str(n)) == n
  {
    if n >= 10 {
      NumberOfStr(n / 10);
      assert Str(n)[..|Str(n)| - 1] == Str(n / 10);
    }
  }

  /** No superfluous zero is written in front. */
  lemma {:induction false} StrLeads(n: nat)
    requires n > 0
    ensures Str(n)[0] != '0'
  {
    if n >= 10 {
      StrLeads(n / 10);
    }
  }

  /** One digit for each number below ten, and one more digit for every tenfold. */
  lemma {:induction false} StrDigits(n: nat, d: nat)
    requires d < 10
    ensures Str(d) == ["0123456789"[d]]
    ensures n > 0 ==> Str(10 * n + d) == Str(n) + Str(d)
  {
    assert Str(d) == [Digit(d)] && DigitValue("0123456789"[d]) == d;
    assert (10 * n + d) / 10 == n && (10 * n + d) % 10 == d;
  }

  lemma StrInjective(a: nat, b: nat)
    requires Str(a) == Str(b)
    ensures a == b
  {
    NumberOfStr(a);
    NumberOfStr(b);
  }

  /** n followed by k zeros. */
  function Shift(n: nat, k: nat): nat { if k == 0 then n else 10 * Shift(n, k - 1) }

  lemma {:induction false} NumberAppend(a: string, b: string)
    requires AllDigits(a) && AllDigits(b)
    ensures AllDigits(a + b) && Number(a + b) == Shift(Number(a), |b|) + Number(b)
  {
    if b == "" {
      assert a + b == a;
    } else {
      var init := b[..|b| - 1];
      NumberAppend(a, init);
      assert (a + b)[..|a + b| - 1] == a + init;
    }
  }

  lemma {:induction false} ShiftZero(k: nat)
    ensures Shift(0, k) == 0
  {
    if k > 0 {
      ShiftZero(k - 1);
    }
  }

  lemma {:induction false} ShiftMonotone(n: nat, j: nat, k: nat)
    requires j <= k
    ensures Shift(n, j) <= Shift(n, k)
  {
    if j < k {
      ShiftMonotone(n, j, k - 1);
    }
  }

  lemma {:induction false} NumberBound(s: string)
    requires AllDigits(s)
    ensures Number(s) < Shift(1, |s|)
  {
    if s != "" {
      NumberBound(s[..|s| - 1]);
    }
  }

  function ZeroDigits(k: nat): (s: string)
    ensures |s| == k && AllDigits(s) && forall i :: 0 <= i < k ==> s[i] == '0'
  {
    seq(k, i => '0')
  }

  lemma {:induction false} NumberOfZeros(k: nat)
    ensures Number(ZeroDigits(k)) == 0
  {
    if k > 0 {
      NumberOfZeros(k - 1);
      assert ZeroDigits(k)[..k - 1] == ZeroDigits(k - 1);
    }
  }
}
