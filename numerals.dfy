/**
 * Decimal text of unsigned integers, as Rust's formatting machinery
 * produces it: `{}` prints the shortest decimal numeral, `{:02}` pads it
 * on the left with zeros to at least two characters, and
 * `char::to_digit(10)` / `char::from_digit(d, 10)` convert between ASCII
 * digits and their values.
 */
module Numerals {

  predicate IsDigit(c: char) {
    '0' <= c <= '9'
  }

  predicate AllDigits(s: string) {
    forall k :: 0 <= k < |s| ==> IsDigit(s[k])
  }

  /** `c.to_digit(10)` for an ASCII digit. */
  function DigitValue(c: char): (d: nat)
    requires IsDigit(c)
    ensures d < 10
  {
    c as int - '0' as int
  }

  /** `char::from_digit(d, 10)` for a value that is a decimal digit. */
  function DigitChar(d: nat): (c: char)
    requires d < 10
    ensures IsDigit(c) && DigitValue(c) == d
  {
    ('0' as int + d) as char
  }

  function Pow10(k: nat): (p: nat)
    ensures p >= 1
  {
    if k == 0 then 1 else 10 * Pow10(k - 1)
  }

  /** The shortest decimal numeral of `n` (Rust's `{}` on an unsigned integer). */
  function Decimal(n: nat): (s: string)
    ensures |s| >= 1 && AllDigits(s)
  {
    if n < 10 then [DigitChar(n)] else Decimal(n / 10) + [DigitChar(n % 10)]
  }

  function Zeros(k: nat): (s: string)
    ensures |s| == k && AllDigits(s)
    ensures forall j :: 0 <= j < k ==> s[j] == '0'
  {
    if k == 0 then [] else Zeros(k - 1) + ['0']
  }

  /** `s` padded on the left with zeros to width `w`, as Rust's `{:0w}` does. */
  function ZeroPad(s: string, w: nat): (r: string)
    ensures |r| == if |s| >= w then |s| else w
    ensures AllDigits(s) ==> AllDigits(r)
  {
    if |s| >= w then s else Zeros(w - |s|) + s
  }

  /** The numeric value of a digit string (the empty string is 0). */
  function DigitsValue(s: string): nat
    requires AllDigits(s)
  {
    if s == [] then 0 else 10 * DigitsValue(s[..|s| - 1]) + DigitValue(s[|s| - 1])
  }

  /** The last `w` decimal digits of `n`, leading zeros included. */
  function LowDigits(n: nat, w: nat): (s: string)
    ensures |s| == w && AllDigits(s)
  {
    if w == 0 then [] else LowDigits(n / 10, w - 1) + [DigitChar(n % 10)]
  }

  // ---------------------------------------------------------------------
  // Arithmetic helpers

  lemma DivModUnique(x: nat, y: nat, q: nat, r: nat)
    requires y > 0 && r < y && x == y * q + r
    ensures x / y == q && x % y == r
  {
    var k := q - x / y;
    assert y * q + r == y * (x / y) + x % y;
    assert y * k == x % y - r;
    if k > 0 {
      assert false;
    } else if k < 0 {
      assert false;
    }
  }

  lemma DivMod10(n: nat, p: nat)
    requires p > 0
    ensures n / 10 / p == n / (10 * p)
    ensures n % (10 * p) / 10 == n / 10 % p
    ensures n % (10 * p) % 10 == n % 10
  {
    var q, r := n / 10, n % 10;
    DivNonNegative(q, p);
    var a: nat, b: nat := q / p, q % p;
    var m := 10 * b + r;
    assert n / (10 * p) == a && n % (10 * p) == m by {
      assert n == (10 * p) * a + m && m < 10 * p by {
        assert n == 10 * q + r && q == p * a + b;
        calc {
          n;
          10 * (p * a + b) + r;
          (10 * p) * a + m;
        }
      }
      DivModUnique(n, 10 * p, a, m);
    }
    assert m / 10 == b && m % 10 == r by {
      DivModUnique(m, 10, b, r);
    }
  }

  lemma {:induction false} Pow10Add(a: nat, b: nat)
    ensures Pow10(a + b) == Pow10(a) * Pow10(b)
  {
    if b > 0 {
      Pow10Add(a, b - 1);
      assert Pow10(a + b) == 10 * Pow10(a + b - 1);
    }
  }

  lemma DivBelow(n: nat, p: nat, q: nat)
    requires p > 0 && n < q * p
    ensures n / p < q
  {
    assert p * (n / p) <= n;
    MulCancel(p, n / p, q);
  }

  lemma DivNonNegative(n: nat, q: nat)
    requires q > 0
    ensures n / q >= 0
  {
  }

  lemma ModBelow(x: nat, y: nat)
    requires x < y
    ensures x % y == x
  {
    DivModUnique(x, y, 0, x);
  }

  lemma MulCancel(p: nat, a: nat, b: nat)
    requires p > 0 && p * a < p * b
    ensures a < b
  {
  }

  // ---------------------------------------------------------------------
  // Facts about the numerals

  lemma {:induction false} LowDigitsZero(w: nat)
    ensures LowDigits(0, w) == Zeros(w)
  {
    if w > 0 {
      LowDigitsZero(w - 1);
    }
  }

  lemma Pow10Step(n: nat, b: nat)
    requires b > 0
    ensures n / Pow10(b) == n / 10 / Pow10(b - 1)
    ensures n % Pow10(b) / 10 == n / 10 % Pow10(b - 1)
    ensures n % Pow10(b) % 10 == n % 10
  {
    DivMod10(n, Pow10(b - 1));
  }

  lemma LowDigitsOfRemainder(n: nat, b: nat, lo: nat)
    requires b > 0 && lo == n % Pow10(b)
    ensures LowDigits(lo, b) == LowDigits(n / 10 % Pow10(b - 1), b - 1) + [DigitChar(n % 10)]
  {
    Pow10Step(n, b);
  }

  lemma LowDigitsAppend(n: nat, a: nat, b: nat, x: string, y: string)
    requires b > 0 && LowDigits(n / 10, a + (b - 1)) == x + y
    ensures LowDigits(n, a + b) == x + (y + [DigitChar(n % 10)])
  {
  }

  /**
   * The low `a + b` digits of `n` are the low `a` digits of its high part
   * `hi` followed by the low `b` digits of its remainder `lo`.
   */
  lemma {:induction false} LowDigitsSplit(n: nat, a: nat, b: nat, hi: nat, lo: nat)
    requires hi == n / Pow10(b) && lo == n % Pow10(b)
    ensures LowDigits(n, a + b) == LowDigits(hi, a) + LowDigits(lo, b)
  {
    if b == 0 {
      assert Pow10(0) == 1;
      assert hi == n && lo == 0;
    } else {
      Pow10Step(n, b);
      LowDigitsOfRemainder(n, b, lo);
      LowDigitsSplit(n / 10, a, b - 1, hi, n / 10 % Pow10(b - 1));
      LowDigitsAppend(n, a, b, LowDigits(hi, a), LowDigits(n / 10 % Pow10(b - 1), b - 1));
    }
  }

  /** The leading digit of an `m + 1`-digit window, and the rest of it. */
  lemma LowDigitsHead(f: nat, m: nat, q: nat, r: nat)
    requires f < 10 * Pow10(m) && q == f / Pow10(m) && r == f % Pow10(m)
    ensures q < 10
    ensures LowDigits(f, m + 1) == [DigitChar(q)] + LowDigits(r, m)
  {
    assert q < 10 by {
      DivBelow(f, Pow10(m), 10);
    }
    assert LowDigits(q, 1) == [DigitChar(q)] by {
      assert LowDigits(q, 1) == LowDigits(q / 10, 0) + [DigitChar(q % 10)];
    }
    LowDigitsSplit(f, 1, m, q, r);
  }

  lemma {:induction false} LowDigitsValue(n: nat, w: nat)
    ensures DigitsValue(LowDigits(n, w)) == n % Pow10(w)
  {
    if w > 0 {
      var s := LowDigits(n, w);
      LowDigitsValue(n / 10, w - 1);
      assert s[..|s| - 1] == LowDigits(n / 10, w - 1);
      DivMod10(n, Pow10(w - 1));
      var m := n % Pow10(w);
      assert m == 10 * (m / 10) + m % 10;
    }
  }

  /** Padding `Decimal(n)` to a width that holds it gives the fixed-width digits. */
  lemma {:induction false} ZeroPadDecimal(n: nat, w: nat)
    requires w >= 1 && n < Pow10(w)
    ensures ZeroPad(Decimal(n), w) == LowDigits(n, w)
  {
    if n < 10 {
      LowDigitsZero(w - 1);
      assert LowDigits(n / 10, w - 1) == Zeros(w - 1);
    } else {
      DivBelow(n, 10, Pow10(w - 1));
      assert w - 1 >= 1;
      ZeroPadDecimal(n / 10, w - 1);
      var s := Decimal(n / 10);
      if |s| < w - 1 {
        assert ZeroPad(s + [DigitChar(n % 10)], w) == Zeros(w - 1 - |s|) + s + [DigitChar(n % 10)];
      }
    }
  }

  lemma DecimalFits(n: nat, w: nat)
    requires w >= 1 && n < Pow10(w)
    ensures |Decimal(n)| <= w
  {
    ZeroPadDecimal(n, w);
  }

  lemma {:induction false} DecimalValue(n: nat)
    ensures DigitsValue(Decimal(n)) == n
  {
    if n >= 10 {
      DecimalValue(n / 10);
      var s := Decimal(n);
      assert s[..|s| - 1] == Decimal(n / 10);
    }
  }

  /** Rust's `{}` never prints a leading zero except for zero itself. */
  lemma {:induction false} DecimalNoLeadingZero(n: nat)
    ensures Decimal(n)[0] == '0' <==> n == 0
  {
    if n >= 10 {
      DecimalNoLeadingZero(n / 10);
    }
  }

  lemma {:induction false} ZerosValue(s: string, k: nat)
    requires AllDigits(s)
    ensures DigitsValue(Zeros(k) + s) == DigitsValue(s)
  {
    if s == [] {
      if k > 0 {
        ZerosValue([], k - 1);
        assert (Zeros(k) + [])[..k - 1] == Zeros(k - 1) + [];
      }
    } else {
      var t := s[..|s| - 1];
      ZerosValue(t, k);
      assert (Zeros(k) + s)[..|Zeros(k) + s| - 1] == Zeros(k) + t;
    }
  }

  lemma ZeroPadValue(s: string, w: nat)
    requires AllDigits(s)
    ensures DigitsValue(ZeroPad(s, w)) == DigitsValue(s)
  {
    if |s| < w {
      assert ZeroPad(s, w) == Zeros(w - |s|) + s;
      ZerosValue(s, w - |s|);
    } else {
      assert ZeroPad(s, w) == s;
    }
  }

  lemma {:induction false} TrailingZerosValue(s: string, k: nat)
    requires AllDigits(s)
    ensures DigitsValue(s + Zeros(k)) == DigitsValue(s) * Pow10(k)
  {
    if k > 0 {
      TrailingZerosValue(s, k - 1);
      var t := s + Zeros(k);
      assert t[..|t| - 1] == s + Zeros(k - 1);
    } else {
      assert s + Zeros(0) == s;
    }
  }

  /** A longer digit string never has a smaller value than its prefixes. */
  lemma {:induction false} DigitsValuePrefix(s: string, j: nat)
    requires AllDigits(s) && j <= |s|
    ensures DigitsValue(s[..j]) <= DigitsValue(s)
  {
    if j < |s| {
      var t := s[..|s| - 1];
      DigitsValuePrefix(t, j);
      assert t[..j] == s[..j];
    } else {
      assert s[..j] == s;
    }
  }

  lemma AllDigitsSlice(s: string, a: nat, b: nat)
    requires AllDigits(s) && a <= b <= |s|
    ensures AllDigits(s[a..b])
  {
    assert forall k :: 0 <= k < b - a ==> s[a..b][k] == s[a + k];
  }

  /** One more digit at the end of a digit run: the value is shifted and the digit added. */
  lemma DigitsExtend(s: string, a: nat, b: nat)
    requires a <= b < |s| && AllDigits(s[a..b]) && IsDigit(s[b])
    ensures AllDigits(s[a..b + 1])
    ensures DigitsValue(s[a..b + 1]) == 10 * DigitsValue(s[a..b]) + DigitValue(s[b])
  {
    assert s[a..b + 1] == s[a..b] + [s[b]];
    assert s[a..b + 1][..b - a] == s[a..b];
  }
}
