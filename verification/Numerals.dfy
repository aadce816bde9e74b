/** Digits and their positional value, and the loops that print and parse integers (KRE/String). */
module Numerals {
  import opened Machine

  const HEX_CHARS := "0123456789ABCDEF"
  const DIGIT_MIN := 48
  const DIGIT_MAX := 57

  function Pow(r: nat, k: nat): nat {
    if k == 0 then 1 else r * Pow(r, k - 1)
  }

  predicate IsDecimal(c: char) { DIGIT_MIN <= c as int <= DIGIT_MAX }

  /** The character of a digit. */
  function HexChar(d: nat): char
    requires d < 16
  {
    HEX_CHARS[d]
  }

  /** The value of a digit character; 16 for every other character. */
  function DigitVal(c: char): (v: nat)
    ensures v <= 16
  {
    var k := c as int;
    if DIGIT_MIN <= k <= DIGIT_MAX then k - DIGIT_MIN
    else if 'A' <= c <= 'F' then k - 55
    else if 'a' <= c <= 'f' then k - 87
    else 16
  }

  predicate IsDigit(c: char, radix: nat) { DigitVal(c) < 16 && DigitVal(c) < radix }

  predicate AllDigits(s: string, radix: nat) { forall i :: 0 <= i < |s| ==> IsDigit(s[i], radix) }

  /** The positional value of a string of digits, most significant digit first. */
  function Value(s: string, radix: nat): nat {
    if s == [] then 0 else DigitVal(s[0]) * Pow(radix, |s| - 1) + Value(s[1..], radix)
  }

  /** The digits of n as the do-while loops produce them: least significant first, at most `most` of them. */
  function LowDigits(n: nat, radix: nat, most: nat): (s: string)
    requires 0 < radix <= 16 && 0 < most
    ensures 0 < |s| <= most
    decreases most
  {
    [HexChar(n % radix)] + if n / radix > 0 && most > 1 then LowDigits(n / radix, radix, most - 1) else []
  }

  function Reverse(s: string): (r: string)
    ensures |r| == |s| && forall i :: 0 <= i < |s| ==> r[i] == s[|s| - 1 - i]
  {
    seq(|s|, i requires 0 <= i < |s| => s[|s| - 1 - i])
  }

  /** n as text: the digits in reading order. */
  function Digits(n: nat, radix: nat, most: nat): (s: string)
    requires 0 < radix <= 16 && 0 < most
    ensures 0 < |s| <= most
  {
    Reverse(LowDigits(n, radix, most))
  }

  // ---- what the digits mean ---------------------------------------------------------------------------

  lemma HexCharRoundTrip(d: nat)
    requires d < 16
    ensures DigitVal(HexChar(d)) == d
  {
  }

  /** Sixteen digits in either case, printed in upper case, and no other characters. */
  lemma DigitCharacters(c: char, k: nat)
    requires k < 16
    ensures HexChar(k) == "0123456789ABCDEF"[k]
    ensures DigitVal("0123456789ABCDEF"[k]) == k && DigitVal("0123456789abcdef"[k]) == k
    ensures c !in "0123456789ABCDEFabcdef" ==> DigitVal(c) >= 16
  {
    if DigitVal(c) < 16 {
      var i := if c <= '9' then c as int - 48 else c as int - if c <= 'F' then 55 else 81;
      assert "0123456789ABCDEFabcdef"[i] == c;
    }
  }

  lemma {:induction false} ValueAppend(s: string, c: char, radix: nat)
    ensures Value(s + [c], radix) == Value(s, radix) * radix + DigitVal(c)
  {
    if s == [] {
      assert Pow(radix, 0) == 1;
      assert [c][1..] == [];
    } else {
      assert (s + [c])[1..] == s[1..] + [c];
      ValueAppend(s[1..], c, radix);
      ShiftPlace(DigitVal(s[0]), Pow(radix, |s| - 1), Value(s[1..], radix), radix, DigitVal(c));
    }
  }

  lemma ShiftPlace(d: nat, p: nat, v: nat, radix: nat, c: nat)
    ensures d * (radix * p) + (v * radix + c) == (d * p + v) * radix + c
  {
    assert d * (radix * p) == d * p * radix;
  }

  /** Reading order of one more low digit. */
  lemma DigitsUnfold(n: nat, radix: nat, most: nat)
    requires 0 < radix <= 16 && 0 < most
    ensures Digits(n, radix, most) ==
            if n / radix > 0 && most > 1 then Digits(n / radix, radix, most - 1) + [HexChar(n % radix)]
            else [HexChar(n % radix)]
  {
  }

  /** Truncated printing keeps the low digits: the value of the text is n modulo radix^most. */
  lemma {:induction false} DigitsValue(n: nat, radix: nat, most: nat)
    requires 2 <= radix <= 16 && 0 < most
    ensures AllDigits(Digits(n, radix, most), radix)
    ensures Pow(radix, most) > 0 && Value(Digits(n, radix, most), radix) == n % Pow(radix, most)
    decreases most
  {
    hide Value, LowDigits, Digits, HexChar, DigitVal;
    PowPositive(radix, most);
    PowPositive(radix, most - 1);
    DigitsUnfold(n, radix, most);
    HexCharRoundTrip(n % radix);
    if n / radix > 0 && most > 1 {
      DigitsValue(n / radix, radix, most - 1);
      ValueAppend(Digits(n / radix, radix, most - 1), HexChar(n % radix), radix);
      ModOfProduct(n, radix, Pow(radix, most - 1));
    } else {
      SingleDigit(n, radix, most);
    }
  }

  lemma SingleValue(d: nat, radix: nat)
    requires d < 16
    ensures Value([HexChar(d)], radix) == d
  {
    HexCharRoundTrip(d);
    assert [HexChar(d)][1..] == [] && Pow(radix, 0) == 1;
  }

  lemma SingleDigit(n: nat, radix: nat, most: nat)
    requires 2 <= radix <= 16 && 0 < most && (n / radix == 0 || most == 1)
    ensures Pow(radix, most) > 0 && Value([HexChar(n % radix)], radix) == n % Pow(radix, most)
  {
    PowPositive(radix, most - 1);
    SingleValue(n % radix, radix);
    hide HexChar, DigitVal, Value;
    if n / radix == 0 {
      SmallIsRemainder(n, radix);
      ProductAtMost(1, Pow(radix, most - 1), radix);
      SmallIsRemainder(n, Pow(radix, most));
    } else {
      assert Pow(radix, 1) == radix * Pow(radix, 0) && Pow(radix, 0) == 1;
    }
  }

  lemma {:induction false} PowPositive(r: nat, k: nat)
    requires r > 0
    ensures Pow(r, k) > 0
  {
    if k > 0 {
      PowPositive(r, k - 1);
    }
  }

  lemma ModOfProduct(n: nat, r: nat, p: nat)
    requires r > 0 && p > 0
    ensures r * p > 0 && n % (r * p) == (n / r % p) * r + n % r
  {
    var a, b := n / r, n % r;
    var q, m := a / p, a % p;
    ModCore(n, r, p, a, b, q, m);
  }

  lemma ModCore(n: nat, r: nat, p: nat, a: nat, b: nat, q: nat, m: nat)
    requires n == a * r + b && a == q * p + m && b < r && m < p
    ensures r * p > 0 && n % (r * p) == m * r + b
  {
    TwoPlaces(q, p, m, r, b);
    DivModUnique(n, r * p, q, m * r + b);
  }

  lemma TwoPlaces(q: nat, p: nat, m: nat, r: nat, b: nat)
    requires m < p && b < r
    ensures (q * p + m) * r + b == q * (r * p) + (m * r + b)
    ensures 0 <= m * r + b < r * p
  {
    assert (q * p) * r == q * (r * p);
    ProductAtMost(m + 1, p, r);
  }

  lemma ProductAtMost(x: nat, y: nat, r: nat)
    requires x <= y
    ensures x * r <= y * r
  {
  }

  /** Text that was not cut off has no leading zero, except for zero itself. */
  lemma {:induction false} NoLeadingZero(n: nat, radix: nat, most: nat)
    requires 2 <= radix <= 16 && 0 < most && n < Pow(radix, most)
    ensures n == 0 ==> Digits(n, radix, most) == "0"
    ensures n > 0 ==> Digits(n, radix, most)[0] != '0'
    decreases most
  {
    hide Digits, HexChar;
    DigitsUnfold(n, radix, most);
    ZeroCharOnly(n % radix);
    if n / radix > 0 && most > 1 {
      PowShrinks(n, radix, most);
      QuotientPositive(n, radix);
      NoLeadingZero(n / radix, radix, most - 1);
    } else {
      OneDigitLeft(n, radix, most);
    }
  }

  lemma ZeroCharOnly(d: nat)
    requires d < 16
    ensures (HexChar(d) == '0') == (d == 0)
  {
  }

  lemma QuotientPositive(n: nat, r: nat)
    requires r > 0 && n / r > 0
    ensures n > 0
  {
  }

  lemma OneDigitLeft(n: nat, radix: nat, most: nat)
    requires 2 <= radix && 0 < most && n < Pow(radix, most) && (n / radix == 0 || most == 1)
    ensures n % radix == n
  {
    if most == 1 {
      assert Pow(radix, 1) == radix * Pow(radix, 0);
    }
    SmallIsRemainder(n, radix);
  }

  /** A number has at most k digits exactly when it is below radix^k. */
  lemma {:induction false} DigitsLength(n: nat, radix: nat, most: nat, k: nat)
    requires 2 <= radix <= 16 && 0 < k < most
    ensures |Digits(n, radix, most)| <= k <==> n < Pow(radix, k)
    decreases most
  {
    hide Digits, HexChar, Pow;
    DigitsUnfold(n, radix, most);
    PowUnfold(radix, k);
    PowPositive(radix, k - 1);
    QuotientBelowPow(n, radix, Pow(radix, k - 1));
    if n / radix == 0 {
      ProductAtMost(1, Pow(radix, k - 1), radix);
      SmallIsRemainder(n, radix);
    } else if k == 1 {
      assert |Digits(n / radix, radix, most - 1)| > 0;
      PowUnfold(radix, 0);
    } else {
      DigitsLength(n / radix, radix, most - 1, k - 1);
    }
  }

  lemma PowUnfold(r: nat, k: nat)
    ensures Pow(r, k) == if k == 0 then 1 else r * Pow(r, k - 1)
  {
  }

  lemma QuotientBelowPow(n: nat, r: nat, p: nat)
    requires r > 0 && p > 0
    ensures n / r < p <==> n < r * p
  {
    var q := n / r;
    assert n == q * r + n % r;
    if q < p {
      ProductAtMost(q + 1, p, r);
    } else {
      ProductAtMost(p, q, r);
    }
  }

  lemma SmallIsRemainder(n: nat, r: nat)
    requires r > 0 && (n < r || n / r == 0)
    ensures n % r == n && n < r
  {
  }

  lemma PowShrinks(n: nat, radix: nat, most: nat)
    requires radix > 0 && most > 0 && n < Pow(radix, most)
    ensures n / radix < Pow(radix, most - 1)
  {
    var p := Pow(radix, most - 1);
    if n / radix >= p {
      ProductAtMost(p, n / radix, radix);
    }
  }
}
