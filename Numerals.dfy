/**
 Python's integer-to-text conversions used by the table: `str(n)` (base 10)
 and `hex(n)` (base 16, lower-case digits, `0x` prefix, no padding), together
 with the parser of canonical digit strings that inverts them.
 */
module Numerals {
  import opened PyStr

  /** A radix Python prints with the digit alphabet `0-9a-f`. */
  type Radix = b: int | 2 <= b <= 16 witness 10

  /** The digit character for `d`: `0`..`9`, then `a`..`f`. */
  function DigitChar(d: nat): (ch: char)
    requires d < 16
    ensures !IsUpper(ch)
  {
    if d < 10 then ('0' as int + d) as char else ('a' as int + d - 10) as char
  }

  /** The value of a digit character; 16 for a character that is no digit. */
  function DigitValue(ch: char): (v: nat)
    ensures v <= 16
    ensures v < 16 ==> DigitChar(v) == ch
  {
    if '0' <= ch <= '9' then ch as int - '0' as int
    else if 'a' <= ch <= 'f' then ch as int - 'a' as int + 10
    else 16
  }

  predicate IsDigit(ch: char, b: Radix) { DigitValue(ch) < b }

  predicate AllDigits(s: string, b: Radix) {
    forall i :: 0 <= i < |s| ==> IsDigit(s[i], b)
  }

  /** The digits of `n` in radix `b`, most significant first, without leading zeros. */
  function Digits(n: nat, b: Radix): (s: string)
    decreases n
  {
    if n < b then [DigitChar(n)] else Digits(n / b, b) + [DigitChar(n % b)]
  }

  /** The number a digit string denotes. */
  function Value(s: string, b: Radix): nat
    requires AllDigits(s, b)
  {
    if s == [] then 0 else Value(s[..|s| - 1], b) * b + DigitValue(s[|s| - 1])
  }

  /** A digit string as Python prints one: non-empty, and no leading zero unless it is `0`. */
  predicate Canonical(s: string, b: Radix) {
    |s| > 0 && AllDigits(s, b) && (|s| == 1 || s[0] != '0')
  }

  /** `str(n)`. */
  function Decimal(n: int): string {
    if n < 0 then "-" + Digits(-n, 10) else Digits(n, 10)
  }

  /** `hex(n)`. */
  function PyHex(n: int): string {
    if n < 0 then "-0x" + Digits(-n, 16) else "0x" + Digits(n, 16)
  }

  lemma DivMod(n: nat, b: Radix)
    ensures n == (n / b) * b + n % b && 0 <= n % b < b && (n > 0 ==> n / b < n)
  {
  }

  lemma DivModUnique(q: nat, d: nat, b: Radix)
    requires d < b
    ensures (q * b + d) / b == q && (q * b + d) % b == d
  {
    var n := q * b + d;
    DivMod(n, b);
    var t, r := n / b, n % b;
    if t > q {
      assert (t - q) * b == t * b - q * b;
      MulAtLeast(t - q, b);
    } else if t < q {
      assert (q - t) * b == q * b - t * b;
      MulAtLeast(q - t, b);
    }
  }

  lemma DigitValueOfDigitChar(d: nat, b: Radix)
    requires d < b
    ensures DigitValue(DigitChar(d)) == d && IsDigit(DigitChar(d), b)
  {
  }

  /** Printing then parsing gives the number back, and the printed form is canonical. */
  lemma {:induction false} DigitsCanonical(n: nat, b: Radix)
    ensures Canonical(Digits(n, b), b)
    ensures Value(Digits(n, b), b) == n
    decreases n
  {
    var s := Digits(n, b);
    if n < b {
      DigitValueOfDigitChar(n, b);
      assert s == [DigitChar(n)];
      assert s[..0] == [];
    } else {
      var q, d := n / b, n % b;
      DivMod(n, b);
      DigitValueOfDigitChar(d, b);
      DigitsCanonical(q, b);
      DigitsLeading(q, b);
      var p := Digits(q, b);
      assert s == p + [DigitChar(d)];
      assert s[..|s| - 1] == p;
      assert Value(s, b) == Value(p, b) * b + d;
    }
  }

  /** The digits of a positive number do not start with `0`. */
  lemma {:induction false} DigitsLeading(n: nat, b: Radix)
    requires n > 0
    ensures Digits(n, b)[0] != '0'
    decreases n
  {
    if n >= b {
      DivMod(n, b);
      DigitsLeading(n / b, b);
    }
  }

  /** A digit string that does not start with `0` denotes a positive number. */
  lemma {:induction false} ValuePositive(s: string, b: Radix)
    requires AllDigits(s, b) && |s| > 0 && s[0] != '0'
    ensures Value(s, b) > 0
    decreases |s|
  {
    var p := s[..|s| - 1];
    if |s| > 1 {
      ValuePositive(p, b);
      MulAtLeast(Value(p, b), b);
      assert Value(s, b) >= Value(p, b) * b;
    } else {
      assert p == [];
    }
  }

  /** Parsing then printing gives a canonical string back. */
  lemma {:induction false} CanonicalDigits(s: string, b: Radix)
    requires Canonical(s, b)
    ensures Digits(Value(s, b), b) == s
    decreases |s|
  {
    var last := s[|s| - 1];
    var d := DigitValue(last);
    if |s| == 1 {
      assert s[..0] == [];
      assert Value(s, b) == d;
    } else {
      var p := s[..|s| - 1];
      assert Canonical(p, b);
      CanonicalDigits(p, b);
      ValuePositive(p, b);
      var q := Value(p, b);
      var v := Value(s, b);
      assert v == q * b + d;
      DivModUnique(q, d, b);
      assert v >= b by { MulAtLeast(q, b); }
      assert Digits(v, b) == Digits(q, b) + [DigitChar(d)];
      assert s == p + [last];
    }
  }

  lemma MulAtLeast(q: nat, b: Radix)
    requires q > 0
    ensures q * b >= b
  {
  }

  /** A canonical digit string is the printed form of exactly one number. */
  lemma DigitsIff(n: nat, s: string, b: Radix)
    ensures Digits(n, b) == s <==> Canonical(s, b) && Value(s, b) == n
  {
    DigitsCanonical(n, b);
    if Canonical(s, b) {
      CanonicalDigits(s, b);
    }
  }

  /** `str` is injective: different integers print differently. */
  lemma DecimalInjective(m: int, n: int)
    requires Decimal(m) == Decimal(n)
    ensures m == n
  {
    DigitsCanonical(if m < 0 then -m else m, 10);
    DigitsCanonical(if n < 0 then -n else n, 10);
    if m < 0 && n < 0 {
      assert Digits(-m, 10) == Decimal(m)[1..];
    }
  }

  /** The digits are drawn from `0-9a-f`, so they contain no upper-case letter. */
  lemma {:induction false} DigitsHaveNoUpper(n: nat, b: Radix)
    ensures AllDigits(Digits(n, b), b)
    ensures NoUpper(Digits(n, b))
    decreases n
  {
    DigitsCanonical(n, b);
    if n >= b {
      DivMod(n, b);
      DigitsHaveNoUpper(n / b, b);
      NoUpperAppend(Digits(n / b, b), [DigitChar(n % b)]);
    }
  }
}
