/** Decimal rendering of non-negative integers, as a JavaScript template literal
    `${n}` renders an integral Number, together with its inverse. */
module Decimal {

  predicate IsDigit(c: char) {
    '0' <= c <= '9'
  }

  predicate AllDigits(s: string) {
    forall i :: 0 <= i < |s| ==> IsDigit(s[i])
  }

  function DigitChar(d: nat): (c: char)
    requires d < 10
    ensures IsDigit(c)
  {
    "0123456789"[d]
  }

  function DigitValue(c: char): (d: nat)
    requires IsDigit(c)
    ensures d < 10
  {
    c as int - '0' as int
  }

  lemma DigitValueChar(d: nat)
    requires d < 10
    ensures DigitValue(DigitChar(d)) == d
  {
  }

  /** The shortest decimal numeral of n: only digits, never empty, no leading zero. */
  function NatToString(n: nat): (s: string)
    ensures |s| >= 1
    ensures AllDigits(s)
    ensures s[0] == '0' ==> n == 0
    decreases n
  {
    if n < 10 then [DigitChar(n)] else NatToString(n / 10) + [DigitChar(n % 10)]
  }

  /** The value of a numeral, read most significant digit first. */
  function ParseNat(s: string): nat
    requires AllDigits(s)
  {
    if s == [] then 0 else ParseNat(s[..|s| - 1]) * 10 + DigitValue(s[|s| - 1])
  }

  /** Reading back a rendered number gives the number. */
  lemma {:induction false} ParseRender(n: nat)
    ensures ParseNat(NatToString(n)) == n
  {
    var s := NatToString(n);
    if n < 10 {
      DigitValueChar(n);
    } else {
      assert s[..|s| - 1] == NatToString(n / 10);
      assert s[|s| - 1] == DigitChar(n % 10);
      DigitValueChar(n % 10);
      ParseRender(n / 10);
    }
  }

  /** Distinct numbers have distinct numerals. */
  lemma RenderInjective(m: nat, n: nat)
    ensures NatToString(m) == NatToString(n) <==> m == n
  {
    ParseRender(m);
    ParseRender(n);
  }

  /** A numeral followed by a separator that starts with a non-digit can be cut apart
      again: the numeral ends exactly where the separator begins. */
  lemma {:induction false} SplitAtSeparator(a: string, x: string, c: string, y: string, sep: string)
    requires AllDigits(a) && AllDigits(c)
    requires |sep| > 0 && !IsDigit(sep[0])
    requires a + sep + x == c + sep + y
    ensures a == c && x == y
  {
    var s := a + sep + x;
    // The first non-digit of s sits at |a| and, read the other way, at |c|.
    assert !IsDigit(s[|a|]) && !IsDigit((c + sep + y)[|c|]);
    assert forall i :: 0 <= i < |c| ==> IsDigit(s[i]) by {
      forall i | 0 <= i < |c| ensures IsDigit(s[i]) { assert s[i] == (c + sep + y)[i] == c[i]; }
    }
    assert forall i :: 0 <= i < |a| ==> IsDigit((c + sep + y)[i]) by {
      forall i | 0 <= i < |a| ensures IsDigit((c + sep + y)[i]) { assert (c + sep + y)[i] == s[i] == a[i]; }
    }
    assert a == s[..|a|];
    assert c == (c + sep + y)[..|c|];
    assert x == s[|a| + |sep|..];
    assert y == (c + sep + y)[|c| + |sep|..];
  }

  /** The four parts of a concatenation sit at their offsets. */
  lemma FourParts(p: string, a: string, q: string, b: string)
    ensures var s := p + a + q + b;
            s[|p|..|p| + |a|] == a && s[|p| + |a|..|p| + |a| + |q|] == q && s[|p| + |a| + |q|..] == b
  {
  }
}
