/** Decimal digit strings: the fixed-width formatting behind the "yyyyMMdd"
    date pattern and the "D2" transaction-counter format, and their parsing. */
module Digits {

  function Pow10(n: nat): (r: nat)
    ensures r >= 1
  {
    if n == 0 then 1 else 10 * Pow10(n - 1)
  }

  predicate IsDigit(c: char) {
    '0' <= c <= '9'
  }

  predicate AllDigits(s: string) {
    forall i :: 0 <= i < |s| ==> IsDigit(s[i])
  }

  function DigitChar(k: nat): (c: char)
    requires k < 10
    ensures IsDigit(c)
  {
    ('0' as int + k) as char
  }

  function DigitValue(c: char): (k: nat)
    requires IsDigit(c)
    ensures k < 10
    ensures DigitChar(k) == c
  {
    c as int - '0' as int
  }

  /** The number a string of decimal digits denotes (leading zeros allowed). */
  function DigitsValue(s: string): (v: nat)
    requires AllDigits(s)
    ensures v < Pow10(|s|)
  {
    if |s| == 0 then 0 else DigitsValue(s[..|s| - 1]) * 10 + DigitValue(s[|s| - 1])
  }

  /** The lowest `w` decimal digits of `n`, zero-padded on the left to exactly `w` characters. */
  function FixedDigits(n: nat, w: nat): (s: string)
    ensures |s| == w
    ensures AllDigits(s)
  {
    if w == 0 then [] else FixedDigits(n / 10, w - 1) + [DigitChar(n % 10)]
  }

  /** How many digits `n` has when written without leading zeros. */
  function NumDigits(n: nat): (k: nat)
    ensures 1 <= k
    ensures n < Pow10(k)
    ensures k > 1 ==> Pow10(k - 1) <= n
  {
    if n < 10 then 1 else 1 + NumDigits(n / 10)
  }

  /** .NET's "D<w>" integer format: the decimal digits of `n`, left-padded with
      zeros to at least `w` characters, never truncated. */
  function PadDigits(n: nat, w: nat): (s: string)
    ensures |s| == if NumDigits(n) > w then NumDigits(n) else w
    ensures AllDigits(s)
  {
    FixedDigits(n, if NumDigits(n) > w then NumDigits(n) else w)
  }

  lemma ModOfQuotient(n: nat, p: nat)
    requires p >= 1
    ensures (n / 10) % p * 10 + n % 10 == n % (10 * p)
  {
    var q := n / 10;
    var a := q / p;
    var b := q % p;
    assert q == p * a + b;
    assert n == 10 * q + n % 10;
    assert n == (10 * p) * a + (b * 10 + n % 10);
    assert 0 <= b * 10 + n % 10 < 10 * p;
    ModUnique(n, 10 * p, a, b * 10 + n % 10);
  }

  lemma ModUnique(n: int, m: int, q: int, r: int)
    requires m > 0
    requires n == m * q + r && 0 <= r < m
    ensures n % m == r
  {
    var q' := n / m;
    var r' := n % m;
    var d := q - q';
    assert m * q == m * q' + m * d;
    assert m * d == r' - r;
    if d >= 1 {
      MulAtLeast(m, d);
    } else if d <= -1 {
      MulAtLeast(m, -d);
    }
  }

  lemma {:induction false} MulAtLeast(m: nat, d: nat)
    requires d >= 1
    ensures m * d >= m
  {
    if d > 1 {
      MulAtLeast(m, d - 1);
      assert m * d == m * (d - 1) + m;
    }
  }

  /** Formatting then parsing a fixed-width field recovers the number modulo the width. */
  lemma {:induction false} FixedDigitsValue(n: nat, w: nat)
    ensures DigitsValue(FixedDigits(n, w)) == n % Pow10(w)
  {
    if w > 0 {
      var s := FixedDigits(n, w);
      assert s[..w - 1] == FixedDigits(n / 10, w - 1);
      FixedDigitsValue(n / 10, w - 1);
      ModOfQuotient(n, Pow10(w - 1));
    }
  }

  /** Parsing a digit string then formatting it at its own width gives the string back. */
  lemma {:induction false} DigitsValueFixed(s: string)
    requires AllDigits(s)
    ensures FixedDigits(DigitsValue(s), |s|) == s
  {
    if |s| > 0 {
      var init := s[..|s| - 1];
      var v := DigitsValue(s);
      assert v / 10 == DigitsValue(init);
      assert v % 10 == DigitValue(s[|s| - 1]);
      DigitsValueFixed(init);
      assert s == init + [s[|s| - 1]];
    }
  }

  /** The "D<w>" format is read back as the number it was made from. */
  lemma PadDigitsValue(n: nat, w: nat)
    ensures DigitsValue(PadDigits(n, w)) == n
  {
    var k := if NumDigits(n) > w then NumDigits(n) else w;
    assert PadDigits(n, w) == FixedDigits(n, k);
    FixedDigitsValue(n, k);
    Pow10Monotone(NumDigits(n), k);
    ModUnique(n, Pow10(k), 0, n);
  }

  lemma {:induction false} Pow10Monotone(a: nat, b: nat)
    requires a <= b
    ensures Pow10(a) <= Pow10(b)
  {
    if a < b {
      Pow10Monotone(a, b - 1);
    }
  }

  /** Reading a concatenation: the left part is shifted by the width of the right. */
  lemma {:induction false} DigitsValueAppend(a: string, b: string)
    requires AllDigits(a) && AllDigits(b)
    ensures DigitsValue(a + b) == DigitsValue(a) * Pow10(|b|) + DigitsValue(b)
  {
    if |b| > 0 {
      var b' := b[..|b| - 1];
      var c := b[|b| - 1];
      assert (a + b)[..|a + b| - 1] == a + b';
      assert (a + b)[|a + b| - 1] == c;
      var v := DigitsValue(a);
      var p := Pow10(|b'|);
      calc {
        DigitsValue(a + b);
        DigitsValue(a + b') * 10 + DigitValue(c);
        { DigitsValueAppend(a, b'); }
        (v * p + DigitsValue(b')) * 10 + DigitValue(c);
        { MulAssoc(v, p, 10); }
        v * (p * 10) + (DigitsValue(b') * 10 + DigitValue(c));
        v * Pow10(|b|) + DigitsValue(b);
      }
    } else {
      assert a + b == a;
    }
  }

  /** A two-digit string read digit by digit. */
  lemma DigitsValueTwo(s: string)
    requires |s| == 2 && AllDigits(s)
    ensures DigitsValue(s) == DigitValue(s[0]) * 10 + DigitValue(s[1])
  {
    assert s[..1][..0] == [];
  }

  /** A four-digit string read as two two-digit halves. */
  lemma DigitsValueFour(s: string)
    requires |s| == 4 && AllDigits(s)
    ensures DigitsValue(s) == DigitsValue(s[..2]) * 100 + DigitsValue(s[2..])
  {
    DigitsValueAppend(s[..2], s[2..]);
    assert s[..2] + s[2..] == s;
  }

  /** Ordinal comparison of two strings of equal length: at the first
      position where they differ, `a` has the smaller character. */
  predicate LexLess(a: string, b: string)
    requires |a| == |b|
  {
    |a| > 0 && (a[0] < b[0] || (a[0] == b[0] && LexLess(a[1..], b[1..])))
  }

  /** Reading a digit string from the front: the first digit is worth 10^(width - 1). */
  lemma DigitsValueFront(s: string)
    requires |s| > 0 && AllDigits(s)
    ensures DigitsValue(s) == DigitValue(s[0]) * Pow10(|s| - 1) + DigitsValue(s[1..])
  {
    var h := s[..1];
    var t := s[1..];
    assert h + t == s;
    DigitsValueAppend(h, t);
    assert DigitsValue(h) == DigitValue(s[0]) by {
      assert h[..0] == [];
    }
  }

  /** For digit strings of one width, character order is numeric order. */
  lemma {:induction false} LexLessIsValueOrder(a: string, b: string)
    requires |a| == |b| && AllDigits(a) && AllDigits(b)
    ensures LexLess(a, b) <==> DigitsValue(a) < DigitsValue(b)
  {
    if |a| > 0 {
      var p := Pow10(|a| - 1);
      DigitsValueFront(a);
      DigitsValueFront(b);
      if a[0] < b[0] {
        LeadingDigitDecides(a, b);
      } else if b[0] < a[0] {
        LeadingDigitDecides(b, a);
      } else {
        LexLessIsValueOrder(a[1..], b[1..]);
      }
    }
  }

  /** A smaller leading digit makes the smaller number, whatever follows. */
  lemma LeadingDigitDecides(a: string, b: string)
    requires |a| == |b| > 0 && AllDigits(a) && AllDigits(b)
    requires a[0] < b[0]
    ensures DigitsValue(a) < DigitsValue(b)
  {
    DigitsValueFront(a);
    DigitsValueFront(b);
    LeadingTermDecides(DigitValue(a[0]), DigitValue(b[0]), Pow10(|a| - 1), DigitsValue(a[1..]), DigitsValue(b[1..]));
  }

  lemma LeadingTermDecides(x: nat, y: nat, p: nat, ta: nat, tb: nat)
    requires x < y && ta < p
    ensures x * p + ta < y * p + tb
  {
    MulAtLeast(p, y - x);
    assert p * (y - x) == y * p - x * p;
  }

  lemma MulAssoc(x: int, y: int, z: int)
    ensures (x * y) * z == x * (y * z)
  {
  }

  /** Distinct counters never format to the same "D<w>" text. */
  lemma PadDigitsInjective(m: nat, n: nat, w: nat)
    requires PadDigits(m, w) == PadDigits(n, w)
    ensures m == n
  {
    PadDigitsValue(m, w);
    PadDigitsValue(n, w);
  }

  /** "D2" pads single digits with a zero and never cuts longer numbers. */
  lemma PadDigitsExamples()
    ensures PadDigits(1, 2) == "01"
    ensures PadDigits(2, 2) == "02"
    ensures PadDigits(123, 2) == "123"
  {
    assert NumDigits(1) == 1 && NumDigits(2) == 1;
    assert FixedDigits(0, 1) == "0";
    assert NumDigits(123) == 3;
    assert FixedDigits(1, 1) == "1";
    assert FixedDigits(12, 2) == "12";
  }
}
