/** Positional numerals as the format operations print them: lower case, most significant digit first. */
module Numerals {

  datatype Base = Decimal | Hexadecimal

  function Times(base: Base, n: nat): nat {
    match base
    case Decimal => 10 * n
    case Hexadecimal => 16 * n
  }

  function Quotient(base: Base, n: nat): nat {
    match base
    case Decimal => n / 10
    case Hexadecimal => n / 16
  }

  function Remainder(base: Base, n: nat): (r: nat)
    ensures r < 16
  {
    match base
    case Decimal => n % 10
    case Hexadecimal => n % 16
  }

  function Digit(d: nat): char
    requires d < 16
  {
    if d < 10 then ('0' as int + d) as char else ('a' as int + d - 10) as char
  }

  function DigitValue(c: char): nat {
    if '0' <= c <= '9' then c as nat - '0' as nat
    else if 'a' <= c <= 'f' then c as nat - 'a' as nat + 10
    else 0
  }

  function Digits(n: nat, base: Base): string {
    if Quotient(base, n) == 0 then [Digit(n)]
    else Digits(Quotient(base, n), base) + [Digit(Remainder(base, n))]
  }

  function Value(s: string, base: Base): nat {
    if s == "" then 0 else Times(base, Value(s[..|s| - 1], base)) + DigitValue(s[|s| - 1])
  }

  function Power(base: Base, k: nat): nat {
    if k == 0 then 1 else Times(base, Power(base, k - 1))
  }

  function Zeros(count: nat): string {
    seq(count, i => '0')
  }

  lemma {:induction false} ValueOfZeros(count: nat, base: Base)
    ensures Value(Zeros(count), base) == 0
  {
    if count == 0 {
    } else {
      assert Zeros(count)[..count - 1] == Zeros(count - 1);
      ValueOfZeros(count - 1, base);
    }
  }

  lemma ValueOfSnoc(s: string, d: nat, base: Base)
    requires d < 16
    ensures Value(s + [Digit(d)], base) == Times(base, Value(s, base)) + d
  {
    assert (s + [Digit(d)])[..|s|] == s;
    assert DigitValue(Digit(d)) == d;
  }

  /** Reading back what was printed, zero-padded or not, gives the number. */
  lemma {:induction false} ValueOfDigits(zeros: nat, n: nat, base: Base)
    ensures Value(Zeros(zeros) + Digits(n, base), base) == n
  {
    var q, r := Quotient(base, n), Remainder(base, n);
    if q == 0 {
      ValueOfZeros(zeros, base);
      ValueOfSnoc(Zeros(zeros), n, base);
    } else {
      ValueOfDigits(zeros, q, base);
      ValueOfSnoc(Zeros(zeros) + Digits(q, base), r, base);
      assert Zeros(zeros) + Digits(n, base) == Zeros(zeros) + Digits(q, base) + [Digit(r)];
    }
  }

  /** Two numbers print alike only if they are equal. */
  lemma DigitsAreInjective(m: nat, n: nat, base: Base)
    requires Digits(m, base) == Digits(n, base)
    ensures m == n
  {
    ValueOfDigits(0, m, base);
    ValueOfDigits(0, n, base);
    assert Zeros(0) + Digits(m, base) == Zeros(0) + Digits(n, base);
  }

  lemma {:induction false} DigitsFit(n: nat, base: Base, width: nat)
    requires width > 0 && n < Power(base, width)
    ensures |Digits(n, base)| <= width
  {
    assert Power(base, 0) == 1;
    if width == 1 || Quotient(base, n) == 0 {
    } else {
      DigitsFit(Quotient(base, n), base, width - 1);
    }
  }
}
