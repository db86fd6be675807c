/** Decimal and hexadecimal numerals in the character codes of the console. */
module Numerals {

  /** A signed character of the C source. */
  type schar = c: int | -128 <= c < 128

  datatype Base = Decimal | Hexadecimal

  function Scale(b: Base, n: int): int {
    if b == Decimal then 10 * n else 16 * n
  }

  function Upper(b: Base, n: int): int {
    if b == Decimal then n / 10 else n / 16
  }

  function Lower(b: Base, n: int): int {
    if b == Decimal then n % 10 else n % 16
  }

  /** The character of a digit: 0 to 9, then lower-case letters. */
  function DigitChar(d: int): schar
    requires 0 <= d < 16
  {
    if d >= 0xA then d - 0xA + 0x61 else d + 0x30
  }

  function DigitValue(c: schar): int {
    if c >= 0x61 then c - 0x61 + 0xA else c - 0x30
  }

  ghost predicate IsDigit(b: Base, c: schar) {
    0 <= DigitValue(c) < Scale(b, 1) && c == DigitChar(DigitValue(c))
  }

  /** The usual numeral of n. */
  function Numeral(b: Base, n: nat): (s: seq<schar>)
    ensures |s| >= 1
    decreases n
  {
    if Upper(b, n) == 0 then [DigitChar(n)] else Numeral(b, Upper(b, n)) + [DigitChar(Lower(b, n))]
  }

  /** The number that a sequence of digits stands for. */
  function Value(b: Base, s: seq<schar>): int {
    if s == [] then 0 else Scale(b, Value(b, s[..|s| - 1])) + DigitValue(s[|s| - 1])
  }

  ghost predicate Digits(b: Base, s: seq<schar>) {
    forall i :: 0 <= i < |s| ==> IsDigit(b, s[i])
  }

  /** Not empty, and without a zero in front of other digits. */
  predicate Canonical(s: seq<schar>) {
    |s| >= 1 && (|s| > 1 ==> s[0] != 0x30)
  }

  lemma DigitOf(b: Base, d: int)
    requires 0 <= d < Scale(b, 1)
    ensures DigitValue(DigitChar(d)) == d && (DigitChar(d) == 0x30 <==> d == 0) && IsDigit(b, DigitChar(d))
  {
  }

  /** The numeral of n is canonical and stands for n. */
  lemma {:induction false} NumeralValue(b: Base, n: nat)
    ensures Value(b, Numeral(b, n)) == n && Digits(b, Numeral(b, n)) && Canonical(Numeral(b, n))
    ensures Numeral(b, n)[0] == 0x30 <==> n == 0
    decreases n
  {
    hide IsDigit, DigitChar, DigitValue;
    DigitOf(b, Lower(b, n));
    if Upper(b, n) == 0 {
      assert Numeral(b, n)[..0] == [];
    } else {
      NumeralValue(b, Upper(b, n));
      var s := Numeral(b, Upper(b, n));
      assert Numeral(b, n)[..|s|] == s;
    }
  }

  /** No other canonical digit sequence stands for the same number. */
  lemma {:induction false} NumeralUnique(b: Base, s: seq<schar>)
    requires Digits(b, s) && Canonical(s)
    ensures Value(b, s) >= 0 && s == Numeral(b, Value(b, s))
    ensures s[0] != 0x30 ==> Value(b, s) > 0
  {
    hide DigitChar, DigitValue, Upper, Lower;
    var n := |s| - 1;
    assert IsDigit(b, s[n]);
    assert s == s[..n] + [s[n]];
    if n == 0 {
      assert s[..0] == [];
      ZeroDigit(s[0]);
      ScaleSplit(b, 0, DigitValue(s[0]));
    } else {
      NumeralUnique(b, s[..n]);
      ScaleSplit(b, Value(b, s[..n]), DigitValue(s[n]));
    }
  }

  lemma ScaleSplit(b: Base, v: int, d: int)
    requires v >= 0 && 0 <= d < Scale(b, 1)
    ensures Upper(b, Scale(b, v) + d) == v && Lower(b, Scale(b, v) + d) == d
  {
  }

  lemma ZeroDigit(c: schar)
    requires 0 <= DigitValue(c) < 16 && c == DigitChar(DigitValue(c))
    ensures DigitValue(c) == 0 ==> c == 0x30
  {
  }

  function Power(b: Base, k: nat): (r: nat)
    ensures r > 0
  {
    if k == 0 then 1 else Scale(b, Power(b, k - 1))
  }

  lemma DivideTwice(n: nat, m: nat, p: nat)
    requires m > 0 && p > 0
    ensures m * p > 0 && n / (m * p) == n / m / p
  {
    Positive(m, p);
    TwoSteps(n, m, p, n / m, n % m, n / m / p, n / m % p);
  }

  lemma TwoSteps(n: nat, m: nat, p: nat, q: nat, r: nat, q': nat, r': nat)
    requires n == m * q + r && q == p * q' + r' && r < m && r' < p
    ensures m * p > 0 && n / (m * p) == q'
  {
    Positive(m, p);
    Product(m, p, q', r', r);
    QuotientIs(n, m * p, q', m * r' + r);
  }

  lemma Positive(m: nat, p: nat)
    requires m > 0 && p > 0
    ensures m * p > 0
  {
  }

  lemma Distribute(m: nat, a: nat, b: int)
    ensures m * (a + b) == m * a + m * b
  {
  }

  lemma Regroup(m: nat, p: nat, q: nat)
    ensures m * (p * q) == m * p * q
  {
  }

  lemma Product(m: nat, p: nat, q: nat, r: nat, s: nat)
    requires r < p && s < m
    ensures m * (p * q + r) + s == m * p * q + (m * r + s) && m * r + s < m * p
  {
    Distribute(m, p * q, r);
    Regroup(m, p, q);
    Distribute(m, p - 1 - r, r + 1);
    Distribute(m, r, 1);
  }

  lemma QuotientIs(n: nat, d: nat, q: nat, r: nat)
    requires n == d * q + r && r < d
    ensures n / d == q
  {
    var e := n / d;
    assert n == d * e + n % d;
    assert d * (q + 1) == d * q + d && d * (e + 1) == d * e + d;
    InOrder(d, e, q + 1);
    InOrder(d, q, e + 1);
  }

  lemma InOrder(d: nat, x: nat, y: nat)
    requires d > 0
    ensures d * x < d * y <==> x < y
  {
    if x < y {
      assert d * y == d * x + d * (y - x);
    } else {
      assert d * x == d * y + d * (x - y);
    }
  }

  /** The i-th character from the end of a decimal numeral is the i-th digit of the number, as an ASCII digit. */
  lemma {:induction false} DecimalDigit(n: nat, i: nat)
    requires i < |Numeral(Decimal, n)|
    ensures var s := Numeral(Decimal, n); s[|s| - 1 - i] == 0x30 + n / Power(Decimal, i) % 10
    decreases i
  {
    if i > 0 {
      DecimalDigit(n / 10, i - 1);
      DivideTwice(n, 10, Power(Decimal, i - 1));
    }
  }

  /** The same for hexadecimal ones, with 0 to 9 and a to f in ASCII. */
  lemma {:induction false} HexDigit(n: nat, i: nat)
    requires i < |Numeral(Hexadecimal, n)|
    ensures var s := Numeral(Hexadecimal, n); var d := n / Power(Hexadecimal, i) % 16;
      s[|s| - 1 - i] == if d < 10 then 0x30 + d else 0x61 + (d - 10)
    decreases i
  {
    if i > 0 {
      HexDigit(n / 16, i - 1);
      DivideTwice(n, 16, Power(Hexadecimal, i - 1));
    }
  }

  lemma Powers()
    ensures Power(Decimal, 0) == 1 && forall k: nat :: Power(Decimal, k + 1) == 10 * Power(Decimal, k)
    ensures Power(Hexadecimal, 0) == 1 && forall k: nat :: Power(Hexadecimal, k + 1) == 16 * Power(Hexadecimal, k)
  {
  }

  /** A number below the k-th power of the base needs at most k digits. */
  lemma {:induction false} NumeralLength(b: Base, n: nat, k: nat)
    requires n < Power(b, k) && k >= 1
    ensures |Numeral(b, n)| <= k
    decreases k
  {
    if Upper(b, n) != 0 {
      assert k > 1 by {
        assert Power(b, 0) == 1;
      }
      NumeralLength(b, Upper(b, n), k - 1);
    }
  }
}
