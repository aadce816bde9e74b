/** What a rendered argument means: padding up to the width around a text that reads back as the argument. */
module RenderRules {
  import opened Machine
  import opened Numerals
  import opened NumberStrings
  import opened Formatting

  /**
   * A number's text in a field of the given width. '#' puts the radix in front of the text, or with '=' in front
   * of the filling. Centring fills one place too many on the left and takes it off on the right in 64 bits.
   */
  predicate NumberInField(t: string, text: string, st: Style) {
    var pad := if st.width > |text| then st.width - |text| else 0;
    var prefix := if !st.usePrefix then "" else if st.radix == 2 then "0b" else if st.radix == 8 then "0o"
                  else if st.radix == 16 then "0x" else "";
    if st.align == '=' then t == prefix + Repeat(st.fill, pad) + text
    else if st.align == '<' then t == prefix + text + Repeat(st.fill, pad)
    else if st.align == '^' then
      t == Repeat(st.fill, pad / 2 + 1) + prefix + text + Repeat(st.fill, Wrap64(pad - (pad / 2 + 1)))
    else t == Repeat(st.fill, pad) + prefix + text
  }

  /** At most 255 characters of a string, or as many as the precision names, in a field of the given width. */
  predicate StringInField(t: string, s: string, st: Style) {
    var most := if st.precision > 0 then st.precision else 255;
    var text := if |s| > most then s[..most] else s;
    var pad := if st.width > |text| then st.width - |text| else 0;
    if st.align == '<' then t == text + Repeat(st.fill, pad)
    else if st.align == '^' then t == Repeat(st.fill, pad / 2) + text + Repeat(st.fill, pad - pad / 2)
    else t == Repeat(st.fill, pad) + text
  }

  /** The full text of any argument: characters are never padded, truth values are the strings True and False. */
  lemma ArgumentRendered(a: Argument, st: Style)
    requires 0 < st.radix <= 16
    ensures var t := Text(ArgumentPieces(a, st));
            match a
            case CharArg(c) => t == [c]
            case IntArg(v, _, _) => NumberInField(t, NumberText(v, st.radix), st)
            case BoolArg(b) => StringInField(t, if b then "True" else "False", st)
            case StrArg(s) => StringInField(t, s, st)
  {
    match a
    case CharArg(c) =>
      var ps := ArgumentPieces(a, st);
      assert ps[1..] == [] && [c] + [] == [c];
    case IntArg(v, _, _) =>
      NumberLaidOut(v, st);
    case BoolArg(b) =>
      StringLaidOut(if b then "True" else "False", st);
    case StrArg(s) =>
      StringLaidOut(s, st);
  }

  lemma NumberLaidOut(v: int, st: Style)
    requires 0 < st.radix <= 16
    ensures NumberInField(Text(NumberPieces(v, st)), NumberText(v, st.radix), st)
  {
    hide NumberText, Text, NumberPieces, NumberInField;
    PiecesOfNumber(v, st);
    Text5(NumberPieces(v, st));
    FieldOfPieces(NumberPieces(v, st), NumberText(v, st.radix), st);
  }

  lemma FieldOfPieces(ps: seq<Piece>, text: string, st: Style)
    requires PiecesInField(ps, text, st)
    ensures NumberInField(ps[0].text + ps[1].text + ps[2].text + ps[3].text + ps[4].text, text, st)
  {
    hide Repeat, Wrap64;
    LeftOut(ps[0].text, ps[1].text, ps[2].text, ps[3].text, ps[4].text);
  }

  predicate PiecesInField(ps: seq<Piece>, text: string, st: Style) {
    var pad := if st.width > |text| then st.width - |text| else 0;
    && |ps| == 5 && ps[3].text == text
    && (if st.align == '=' then ps[2].text == "" else ps[0].text == "")
    && (if st.align == '=' then ps[0].text else ps[2].text)
       == (if !st.usePrefix then "" else if st.radix == 2 then "0b" else if st.radix == 8 then "0o"
           else if st.radix == 16 then "0x" else "")
    && (st.align == '<' ==> ps[1].text == "" && ps[4].text == Repeat(st.fill, pad))
    && (st.align == '^' ==>
          ps[1].text == Repeat(st.fill, pad / 2 + 1) && ps[4].text == Repeat(st.fill, Wrap64(pad - (pad / 2 + 1))))
    && (st.align != '<' && st.align != '^' ==> ps[1].text == Repeat(st.fill, pad) && ps[4].text == "")
  }

  lemma PiecesOfNumber(v: int, st: Style)
    requires 0 < st.radix <= 16
    ensures PiecesInField(NumberPieces(v, st), NumberText(v, st.radix), st)
  {
    hide NumberText, Repeat;
  }

  lemma LeftOut(p: string, l: string, q: string, text: string, r: string)
    ensures var all := p + l + q + text + r;
            && (q == "" && r == "" ==> all == p + l + text)
            && (p == "" && l == "" ==> all == q + text + r)
            && (p == "" && r == "" ==> all == l + q + text)
            && (p == "" ==> all == l + q + text + r)
  {
  }

  lemma StringLaidOut(s: string, st: Style)
    ensures StringInField(Text(StringPieces(s, st)), s, st)
  {
    hide Text;
    var ps := StringPieces(s, st);
    Text3(ps);
    assert ps[0].text == "" ==> ps[0].text + ps[1].text + ps[2].text == ps[1].text + ps[2].text;
    assert ps[2].text == "" ==> ps[0].text + ps[1].text + ps[2].text == ps[0].text + ps[1].text;
  }

  /** Position by position: what stands in a field around a number's text of length n. */
  lemma NumberPlaces(t: string, text: string, st: Style)
    requires NumberInField(t, text, st) && st.align != '^'
    ensures var n := if st.usePrefix && (st.radix == 2 || st.radix == 8 || st.radix == 16) then 2 else 0;
            var pad := if st.width > |text| then st.width - |text| else 0;
            var prefixAt := if st.align == '=' || st.align == '<' then 0 else pad;
            var fillAt := if st.align == '=' then n else if st.align == '<' then n + |text| else 0;
            var textAt := if st.align == '<' then n else n + pad;
            && |t| == n + pad + |text|
            && (n == 2 ==> t[prefixAt] == '0'
                           && t[prefixAt + 1] == if st.radix == 2 then 'b' else if st.radix == 8 then 'o' else 'x')
            && (forall i :: 0 <= i < |text| ==> t[textAt + i] == text[i])
            && (forall i :: fillAt <= i < fillAt + pad ==> t[i] == st.fill)
  {
  }

  /**
   * Filled with zeros behind its radix, a number that is not negative reads back as itself: what stands behind
   * the prefix parses in the radix the prefix names, and is as long as the field asks for.
   */
  lemma ZeroFilledReadsBack(v: nat, bits: nat, signed: bool, st: Style)
    requires 2 <= st.radix <= 16 && NumberDefined(v, bits, signed, st.radix)
    requires st.fill == '0' && st.align == '='
    ensures var t := Text(ArgumentPieces(IntArg(v, bits, signed), st));
            var prefix := if !st.usePrefix then "" else if st.radix == 2 then "0b" else if st.radix == 8 then "0o"
                          else if st.radix == 16 then "0x" else "";
            && prefix <= t && |t| >= |prefix| + st.width
            && Parses(t[|prefix|..], st.radix) && Denotes(t[|prefix|..], st.radix) == v
            && Parsed(t[|prefix|..], st.radix, 0) == Wrap64(v)
  {
    hide Value, NumberText, ArgumentPieces, Text, NumberDefined;
    ArgumentRendered(IntArg(v, bits, signed), st);
    NumberReadsBack(v, bits, signed, st.radix);
    var t, text := Text(ArgumentPieces(IntArg(v, bits, signed), st)), NumberText(v, st.radix);
    var pad := if st.width > |text| then st.width - |text| else 0;
    NoSign(v, st.radix);
    ZerosInFront(text, st.radix, pad);
    var prefix := if !st.usePrefix then "" else if st.radix == 2 then "0b" else if st.radix == 8 then "0o"
                  else if st.radix == 16 then "0x" else "";
    assert t == prefix + (Repeat(st.fill, pad) + text);
    assert t[|prefix|..] == Repeat('0', pad) + text;
  }

  lemma NoSign(v: nat, radix: nat)
    requires 2 <= radix <= 16
    ensures var d := NumberText(v, radix); d != "" && AllDigits(d, radix) && d[0] != '-' && d[0] != '+'
  {
    hide Digits;
    DigitsValue(v, radix, DEF_STRING_PRECISION);
    DigitIsNoSign(Digits(v, radix, DEF_STRING_PRECISION)[0], radix);
    assert "" + Digits(v, radix, DEF_STRING_PRECISION) == Digits(v, radix, DEF_STRING_PRECISION);
  }

  lemma {:induction false} ZerosInFront(d: string, radix: nat, n: nat)
    requires radix >= 2 && AllDigits(d, radix) && d != ""
    ensures var t := Repeat('0', n) + d;
            && AllDigits(t, radix) && Value(t, radix) == Value(d, radix)
            && (SignLength(d) == 0 ==> SignLength(t) == 0)
  {
    var t := Repeat('0', n) + d;
    if n == 0 {
      assert t == d;
    } else {
      ZerosInFront(d, radix, n - 1);
      assert t[1..] == Repeat('0', n - 1) + d;
    }
  }

  lemma Text3(ps: seq<Piece>)
    requires |ps| == 3
    ensures Text(ps) == ps[0].text + ps[1].text + ps[2].text
  {
    assert ps[1..][1..] == ps[2..] && ps[2..][1..] == [];
    assert Text(ps[2..]) == ps[2].text && Text(ps[1..]) == ps[1].text + ps[2].text;
  }

  lemma Text5(ps: seq<Piece>)
    requires |ps| == 5
    ensures Text(ps) == ps[0].text + ps[1].text + ps[2].text + ps[3].text + ps[4].text
  {
    var qs := ps[2..];
    Text3(qs);
    assert ps[1..][1..] == qs && qs[0] == ps[2] && qs[1] == ps[3] && qs[2] == ps[4];
    assert Text(ps[1..]) == ps[1].text + (ps[2].text + ps[3].text + ps[4].text);
  }

  /** Digits that fit are all the digits: nothing is cut off. */
  lemma {:induction false} DigitsExact(n: nat, radix: nat, most: nat)
    requires 2 <= radix <= 16 && 0 < most && |Digits(n, radix, most)| < most
    ensures AllDigits(Digits(n, radix, most), radix) && Value(Digits(n, radix, most), radix) == n
    decreases most
  {
    hide Value, LowDigits, Digits, HexChar, DigitVal;
    DigitsUnfold(n, radix, most);
    HexCharRoundTrip(n % radix);
    if n / radix > 0 && most > 1 {
      DigitsExact(n / radix, radix, most - 1);
      ValueAppend(Digits(n / radix, radix, most - 1), HexChar(n % radix), radix);
      assert n == n / radix * radix + n % radix;
    } else {
      SingleDigit(n, radix, 1);
      assert Pow(radix, 1) == radix * Pow(radix, 0) == radix;
      SmallIsRemainder(n, radix);
    }
  }

  /** The smallest value of a signed integer type, whose negation overflows. */
  predicate IsSmallest(v: int, bits: nat, signed: bool) { signed && bits > 0 && v == -(Pow(2, bits - 1) as int) }

  /**
   * Printing an integer of up to 64 bits is defined except for the smallest of its type: in radix 8, 10 and 16
   * always, in radix 2 exactly for those whose digits and sign are at most 32 characters.
   */
  lemma NumberDefinedExactly(v: int, bits: nat, signed: bool, radix: nat)
    requires -TWO_64 < v < TWO_64 && (radix == 2 || radix == 8 || radix == 10 || radix == 16)
    ensures NumberDefined(v, bits, signed, radix) <==>
            !IsSmallest(v, bits, signed) && (radix == 2 ==> -0x8000_0000 < v < TWO_32)
  {
    hide Digits, Pow;
    var n, k := Abs(v), if v < 0 then 31 else 32;
    DigitsLength(n, radix, DEF_STRING_PRECISION, k);
    if radix == 2 {
      BinaryPowers();
    } else {
      PowGrows(8, radix, 31);
      PowGrows(8, radix, 32);
      OctalPowers();
    }
  }

  lemma BinaryPowers()
    ensures Pow(2, 32) == TWO_32 && Pow(2, 31) == 0x8000_0000
  {
    hide Pow;
    TwoToThe32();
    PowUnfold(2, 32);
  }

  lemma OctalPowers()
    ensures Pow(8, 31) >= TWO_64 && Pow(8, 32) >= TWO_64
  {
    hide Pow;
    PowUnfold(8, 0);
    PowUnfold(8, 1);
    PowUnfold(8, 2);
    SquarePow(8, 2);
    SquarePow(8, 4);
    SquarePow(8, 8);
    PowSum(8, 16, 8);
    PowSum(8, 24, 7);
    PowPositive(8, 7);
    PowUnfold(8, 32);
  }

  /** A rendered integer reads back as itself: parsing its text yields the number modulo 2^64. */
  lemma NumberReadsBack(v: int, bits: nat, signed: bool, radix: nat)
    requires 2 <= radix <= 16 && NumberDefined(v, bits, signed, radix)
    ensures var t := NumberText(v, radix);
            && Parses(t, radix) && Denotes(t, radix) == v
            && Parsed(t, radix, 0) == Wrap64(v)
  {
    hide Value, Pow;
    var t, d := NumberText(v, radix), Digits(Abs(v), radix, DEF_STRING_PRECISION);
    DigitsExact(Abs(v), radix, DEF_STRING_PRECISION);
    hide Digits;
    DigitIsNoSign(d[0], radix);
    if v < 0 {
      assert t[1..] == d && t[0] == '-';
    } else {
      assert t == d && t[0..] == d;
    }
    assert t[SignLength(t)..] == d;
  }
}
