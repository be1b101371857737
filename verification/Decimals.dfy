/** Numbers in decimal, as fmt prints them. */
module Decimals {

  function Pow10(n: nat): (r: nat)
    ensures r >= 1
  {
    if n == 0 then 1 else 10 * Pow10(n - 1)
  }

  function DigitChar(d: nat): char
    requires d < 10
  {
    '0' + (d as char)
  }

  predicate IsDigit(c: char) {
    '0' <= c <= '9'
  }

  function DigitOf(c: char): nat
    requires IsDigit(c)
  {
    (c as int - '0' as int) as nat
  }

  function Less1(w: nat): nat {
    if w == 0 then 0 else w - 1
  }

  /** n in decimal with at least w digits. */
  function Padded(n: nat, w: nat): string
    decreases n, w
  {
    if n == 0 && w == 0 then "" else Padded(n / 10, Less1(w)) + [DigitChar(n % 10)]
  }

  predicate AllDigits(s: string) {
    forall i | 0 <= i < |s| :: IsDigit(s[i])
  }

  function DigitsValue(s: string): nat
    requires AllDigits(s)
  {
    if s == "" then 0 else DigitsValue(s[..|s| - 1]) * 10 + DigitOf(s[|s| - 1])
  }

  lemma DigitsValueLast(s: string, c: char)
    requires AllDigits(s) && IsDigit(c)
    ensures AllDigits(s + [c]) && DigitsValue(s + [c]) == DigitsValue(s) * 10 + DigitOf(c)
  {
    assert (s + [c])[..|s|] == s;
  }

  lemma {:induction false} PaddedIsDigits(n: nat, w: nat)
    ensures AllDigits(Padded(n, w)) && DigitsValue(Padded(n, w)) == n
    decreases n, w
  {
    if n == 0 && w == 0 {
    } else {
      PaddedIsDigits(n / 10, Less1(w));
      DigitsValueLast(Padded(n / 10, Less1(w)), DigitChar(n % 10));
    }
  }

  lemma {:induction false} PaddedWidth(n: nat, w: nat)
    ensures n < Pow10(w) ==> |Padded(n, w)| == w
    ensures n >= Pow10(w) ==> |Padded(n, w)| > w
    decreases n, w
  {
    if n == 0 && w == 0 {
    } else {
      PaddedWidth(n / 10, Less1(w));
    }
  }

  lemma {:induction false} DigitsArePadded(s: string)
    requires AllDigits(s)
    ensures Padded(DigitsValue(s), |s|) == s && DigitsValue(s) < Pow10(|s|)
  {
    if s == "" {
    } else {
      DigitsArePadded(s[..|s| - 1]);
    }
  }

  lemma PaddedSame(m: nat, n: nat, w: nat)
    ensures Padded(m, w) == Padded(n, w) <==> m == n
  {
    PaddedIsDigits(m, w);
    PaddedIsDigits(n, w);
  }

  /** fmt's %d, which is strconv.Itoa. */
  function Decimal(n: int): string {
    if n < 0 then ['-'] + Padded(-n, 1) else Padded(n, 1)
  }

  /** Distinct numbers print differently, and no number prints a character that is neither a digit nor a
      minus sign. */
  lemma DecimalInjective(m: int, n: int)
    ensures Decimal(m) == Decimal(n) <==> m == n
    ensures forall c | c in Decimal(n) :: IsDigit(c) || c == '-'
  {
    var a, b := if m < 0 then -m else m, if n < 0 then -n else n;
    PaddedIsDigits(a, 1);
    PaddedIsDigits(b, 1);
    PaddedSame(a, b, 1);
    assert Padded(a, 1) != "" && Padded(b, 1) != "";
    assert IsDigit(Padded(a, 1)[0]) && IsDigit(Padded(b, 1)[0]);
    assert m < 0 ==> Decimal(m)[1..] == Padded(a, 1);
    assert n < 0 ==> Decimal(n)[1..] == Padded(b, 1);
  }
}
