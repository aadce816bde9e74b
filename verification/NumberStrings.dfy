/** Printing and parsing of unsigned 64-bit integers (KRE/String.h). */
module NumberStrings {
  import opened Machine
  import opened Numerals

  const BUF_SIZE := 32

  /** Fills a 32-character buffer from the back and returns what was written. */
  method IntToString(num: U64, radix: nat) returns (s: string)
    requires 0 < radix <= 16
    ensures s == Digits(num, radix, BUF_SIZE)
  {
    hide Digits, LowDigits, HexChar;
    var buf := new char[BUF_SIZE](_ => '\0');
    var pos := 0;
    var n: nat := num;
    var more := true;
    ghost var all := Digits(num, radix, BUF_SIZE);
    ghost var rest := all;
    assert buf[BUF_SIZE - pos..] == [] && rest + [] == all;
    while more
      invariant 0 <= pos <= BUF_SIZE && (more ==> pos < BUF_SIZE)
      invariant rest == if more then Digits(n, radix, BUF_SIZE - pos) else []
      invariant all == rest + buf[BUF_SIZE - pos..]
      decreases BUF_SIZE - pos, more
    {
      var k := BUF_SIZE - 1 - pos;
      ghost var written := buf[k + 1..];
      var digit;
      digit, n := NextDigit(n, radix, BUF_SIZE - pos);
      assert all == rest[..|rest| - 1] + ([digit] + written) by { MoveBack(rest, digit, written); }
      rest := rest[..|rest| - 1];
      PutInFront(buf, k, digit);
      pos := pos + 1;
      more := n > 0 && pos < BUF_SIZE;
    }
    s := buf[BUF_SIZE - pos..];
  }

  /** The division of one turn: the lowest digit, and what is left of the number. */
  method NextDigit(n: nat, radix: nat, ghost most: nat) returns (digit: char, rest: nat)
    requires 0 < radix <= 16 && 0 < most
    ensures Digits(n, radix, most) == (if rest > 0 && most > 1 then Digits(rest, radix, most - 1) else []) + [digit]
  {
    DigitsUnfold(n, radix, most);
    digit := HexChar(n % radix);
    rest := n / radix;
    hide Digits;
  }

  /** One more character in front of the ones written so far. */
  method PutInFront(buf: array<char>, k: nat, digit: char)
    requires k < buf.Length
    modifies buf
    ensures buf[k..] == [digit] + old(buf[k + 1..])
  {
    buf[k] := digit;
  }

  lemma MoveBack(rest: string, digit: char, written: string)
    requires rest != "" && rest[|rest| - 1] == digit
    ensures rest + written == rest[..|rest| - 1] + ([digit] + written)
  {
  }

  function SignLength(str: string): (n: nat)
    ensures n <= 1 && n <= |str|
  {
    if str != [] && (str[0] == '-' || str[0] == '+') then 1 else 0
  }

  /** A text parse_int accepts: an optional sign and at least one digit below the radix, nothing else. */
  predicate Parses(str: string, radix: nat) {
    radix <= 16 && |str| > SignLength(str) && AllDigits(str[SignLength(str)..], radix)
  }

  /** The integer a text denotes. */
  function Denotes(str: string, radix: nat): int {
    var magnitude: int := Value(str[SignLength(str)..], radix);
    if str != [] && str[0] == '-' then -magnitude else magnitude
  }

  /** What an accepted text leaves in `out`: its value joins what was there, then the sign multiplies both. */
  function Parsed(str: string, radix: nat, before: U64): U64
    requires str != []
  {
    var sum: int := before + Value(str[SignLength(str)..], radix);
    Wrap64(if str[0] == '-' then -sum else sum)
  }

  /**
   * Parses from the back. The value is added to what `out` held before, modulo 2^64, and the sign multiplies
   * the sum; when a character is refused the digits behind it have already been added.
   */
  method ParseInt(str: string, radix: nat, before: U64) returns (ok: bool, out: U64)
    requires |str| < 0x8000_0000
    ensures ok <==> Parses(str, radix)
    ensures ok ==> out == Parsed(str, radix, before)
    ensures !ok ==> exists j :: 0 <= j <= |str| && out == Wrap64(before + Value(str[j..], radix))
  {
    hide Value, Pow, DigitVal;
    out := before;
    assert str[|str|..] == [] && Value([], radix) == 0 by { EmptyValue(radix); }
    WrapFits(before);
    if 16 < radix {
      assert out == Wrap64(before + Value(str[|str|..], radix));
      return false, out;
    }
    if |str| == 0 {
      return false, out;
    }
    var num: U64 := 0;
    var pow: U64 := 1;
    var limit := 0;
    var sign := 1;
    if str[0] == '-' || str[0] == '+' {
      if str[0] == '-' {
        sign := -1;
      }
      limit := 1;
      if |str| == 1 {
        return false, out;
      }
    }
    var i := |str| - 1;
    EmptyPow(radix);
    while i >= limit
      invariant limit - 1 <= i < |str|
      invariant AllDigits(str[i + 1..], radix)
      invariant pow == Wrap64(Pow(radix, |str| - 1 - i))
      invariant out == Wrap64(before + Value(str[i + 1..], radix))
    {
      var ch := str[i];
      var val: U64 := DigitVal(ch);
      if val >= 16 {
        return false, out;
      }
      if val >= radix {
        return false, out;
      }
      NextPlace(str, i, radix, before);
      val := Wrap64(val * pow);
      if Wrap64(num + val) < num {
        return false, out;
      }
      out := Wrap64(out + val);
      pow := Wrap64(pow * radix);
      i := i - 1;
    }
    ok := true;
    SignedWrap(before + Value(str[limit..], radix), sign);
    out := Wrap64(out * sign);
  }

  lemma EmptyValue(radix: nat)
    ensures Value([], radix) == 0
  {
  }

  lemma EmptyPow(radix: nat)
    ensures Pow(radix, 0) == 1
  {
  }

  lemma SignedWrap(x: int, sign: int)
    requires sign == 1 || sign == -1
    ensures Wrap64(Wrap64(x) * sign) == Wrap64(x * sign)
  {
  }

  lemma WrapProduct(x: int, y: nat)
    ensures Wrap64(Wrap64(x) * y) == Wrap64(x * y)
  {
    var q := x / TWO_64;
    assert x * y == (q * y) * TWO_64 + Wrap64(x) * y;
    MultiplesVanish(q * y, Wrap64(x) * y);
  }

  lemma MultiplesVanish(k: int, x: int)
    ensures Wrap64(k * TWO_64 + x) == Wrap64(x)
  {
  }

  /** One more digit in front of a suffix, in the loop's wrapping arithmetic. */
  lemma NextPlace(str: string, i: nat, radix: nat, before: U64)
    requires i < |str|
    ensures var pow := Wrap64(Pow(radix, |str| - 1 - i));
            && Wrap64(Wrap64(before + Value(str[i + 1..], radix)) + Wrap64(DigitVal(str[i]) * pow))
               == Wrap64(before + Value(str[i..], radix))
            && Wrap64(pow * radix) == Wrap64(Pow(radix, |str| - i))
  {
    hide DigitVal, Value, Wrap64, Pow;
    SuffixValue(str, i, radix);
    NextPlaceWraps(before + Value(str[i + 1..], radix), DigitVal(str[i]), Pow(radix, |str| - 1 - i), radix);
  }

  lemma SuffixValue(str: string, i: nat, radix: nat)
    requires i < |str|
    ensures Value(str[i..], radix) == DigitVal(str[i]) * Pow(radix, |str| - 1 - i) + Value(str[i + 1..], radix)
    ensures Pow(radix, |str| - i) == radix * Pow(radix, |str| - 1 - i)
  {
    assert str[i..][1..] == str[i + 1..];
  }

  lemma NextPlaceWraps(x: int, d: nat, p: nat, radix: nat)
    ensures Wrap64(Wrap64(x) + Wrap64(d * Wrap64(p))) == Wrap64(x + d * p)
    ensures Wrap64(Wrap64(p) * radix) == Wrap64(radix * p)
  {
    WrapProduct(p, d);
    WrapProduct(p, radix);
    WrapOfSum(x, d * p);
    assert d * Wrap64(p) == Wrap64(p) * d && d * p == p * d && radix * p == p * radix;
    hide Wrap64;
  }

  lemma WrapOfSum(x: int, y: int)
    ensures Wrap64(Wrap64(x) + Wrap64(y)) == Wrap64(x + y)
  {
  }

  // ---- what printing and parsing promise --------------------------------------------------------------

  /**
   * Parsing from zero yields the integer the text denotes exactly when that integer fits: values from 2^64 on
   * wrap, because the overflow test of the loop compares with a variable that stays zero.
   */
  lemma ParseExact(str: string, radix: nat)
    requires Parses(str, radix)
    ensures Parsed(str, radix, 0) == Denotes(str, radix) <==> 0 <= Denotes(str, radix) < TWO_64
  {
    WrapFits(Denotes(str, radix));
    hide Value;
  }

  /** 2^64 in hexadecimal, a one and sixteen zeros, is accepted and parses as 0. */
  lemma ParseOverflowExample(s: string)
    requires |s| == 17 && s[0] == '1' && forall i :: 0 < i < 17 ==> s[i] == '0'
    ensures Parses(s, 16) && Denotes(s, 16) == TWO_64 && Parsed(s, 16, 0) == 0
  {
    assert s[0..] == s;
    SixteenZeros(s[1..]);
    assert Value(s, 16) == 1 * Pow(16, 16) + Value(s[1..], 16);
    hide Pow;
    SixteenToThe16();
  }

  lemma {:induction false} SixteenZeros(s: string)
    requires forall i :: 0 <= i < |s| ==> s[i] == '0'
    ensures Value(s, 16) == 0
  {
    if s != [] {
      SixteenZeros(s[1..]);
    }
  }

  lemma SixteenToThe16()
    ensures Pow(16, 16) == TWO_64
  {
    SquarePow(16, 2);
    SquarePow(16, 4);
    SquarePow(16, 8);
    assert Pow(16, 1) == 16 * Pow(16, 0) && Pow(16, 2) == 16 * Pow(16, 1);
  }

  lemma SquarePow(r: nat, k: nat)
    ensures Pow(r, 2 * k) == Pow(r, k) * Pow(r, k)
  {
    PowSum(r, k, k);
  }

  lemma {:induction false} PowSum(r: nat, j: nat, k: nat)
    ensures Pow(r, j + k) == Pow(r, j) * Pow(r, k)
  {
    if j > 0 {
      PowSum(r, j - 1, k);
      assert r * (Pow(r, j - 1) * Pow(r, k)) == r * Pow(r, j - 1) * Pow(r, k);
    }
  }

  lemma {:induction false} PowGrows(r: nat, s: nat, k: nat)
    requires r <= s
    ensures Pow(r, k) <= Pow(s, k)
  {
    if k > 0 {
      PowGrows(r, s, k - 1);
      ProductAtMost(Pow(r, k - 1), Pow(s, k - 1), r);
      ProductAtMost(r, s, Pow(s, k - 1));
    }
  }

  /**
   * Printing a number and parsing the text in the same radix gives the number back exactly when its digits
   * fit the 32-character buffer; for every radix from 4 on they always do.
   */
  lemma PrintParseRoundTrip(n: U64, radix: nat)
    requires 2 <= radix <= 16
    ensures var s := Digits(n, radix, BUF_SIZE);
            && Parses(s, radix) && Pow(radix, BUF_SIZE) > 0
            && (Parsed(s, radix, 0) == n <==> n < Pow(radix, BUF_SIZE))
            && (radix >= 4 ==> Parsed(s, radix, 0) == n)
  {
    var s := Digits(n, radix, BUF_SIZE);
    var p := Pow(radix, BUF_SIZE);
    DigitsValue(n, radix, BUF_SIZE);
    DigitIsNoSign(s[0], radix);
    assert s[0..] == s;
    RemainderOf(n, p);
    if radix >= 4 {
      PowGrows(4, radix, BUF_SIZE);
      FourToThe32();
    }
    hide Digits, Value, Pow;
  }

  /** 2^32 in binary has 33 digits: the 32 that are printed, all zeros, read back as 0. */
  lemma CutBinaryExample()
    ensures Parsed(Digits(TWO_32, 2, BUF_SIZE), 2, 0) == 0
  {
    hide Digits, Parsed;
    var s := Digits(TWO_32, 2, BUF_SIZE);
    DigitsValue(TWO_32, 2, BUF_SIZE);
    TwoToThe32();
    hide Pow, Value, Digits;
    ZeroParses(s);
  }

  lemma ZeroParses(s: string)
    requires AllDigits(s, 2) && s != "" && Value(s, 2) == 0
    ensures Parsed(s, 2, 0) == 0
  {
    DigitIsNoSign(s[0], 2);
    assert s[0..] == s;
    hide Value;
  }

  lemma TwoToThe32()
    ensures Pow(2, 32) == TWO_32
  {
    SquarePow(2, 2);
    SquarePow(2, 4);
    SquarePow(2, 8);
    SquarePow(2, 16);
    assert Pow(2, 1) == 2 * Pow(2, 0) && Pow(2, 2) == 2 * Pow(2, 1);
  }

  /**
   * The three ways to write digits: a sign is not a digit, a plus changes nothing, and a minus negates the sum of
   * the digits and what `out` held before.
   */
  lemma SignedText(d: string, radix: nat, before: U64)
    requires d != "" && radix <= 16 && AllDigits(d, radix)
    ensures Parses(d, radix) && Parses("+" + d, radix) && Parses("-" + d, radix)
    ensures Denotes(d, radix) == Denotes("+" + d, radix) == Value(d, radix) as int
    ensures Denotes("-" + d, radix) == -(Value(d, radix) as int)
    ensures Parsed(d, radix, before) == Parsed("+" + d, radix, before) == (before + Value(d, radix)) % TWO_64
    ensures Parsed("-" + d, radix, before) == (0 - before - Value(d, radix)) % TWO_64
    ensures !Parses("", radix) && !Parses("+", radix) && !Parses("-", radix) && !Parses("+-" + d, radix)
  {
    hide Value, DigitVal;
    DigitIsNoSign(d[0], radix);
    SignIsNoDigit(radix);
    assert d[0..] == d && ("+" + d)[1..] == d && ("-" + d)[1..] == d && ("+-" + d)[1..][0] == '-';
    assert 0 - before - Value(d, radix) == -(before + Value(d, radix));
  }

  lemma SignIsNoDigit(radix: nat)
    ensures !IsDigit('-', radix) && !IsDigit('+', radix)
  {
  }

  lemma DigitIsNoSign(c: char, radix: nat)
    requires IsDigit(c, radix)
    ensures c != '-' && c != '+'
  {
  }

  lemma RemainderOf(n: U64, p: nat)
    requires p > 0
    ensures 0 <= n % p <= n && Wrap64(n % p) == n % p && (n % p == n <==> n < p)
  {
  }

  lemma FourToThe32()
    ensures Pow(4, 32) == TWO_64
  {
    SquarePow(4, 2);
    SquarePow(4, 4);
    SquarePow(4, 8);
    SquarePow(4, 16);
    assert Pow(4, 1) == 4 * Pow(4, 0) && Pow(4, 2) == 4 * Pow(4, 1);
  }
}
