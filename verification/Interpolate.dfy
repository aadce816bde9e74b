/** The loops that render arguments into a buffer and interpret format strings (KRE/String.cpp). */
module Interpolate {
  import opened Machine
  import opened Numerals
  import opened Formatting
  import opened FormatMachine

  // ---- numbers inside a format ---------------------------------------------------------------------------

  /** The character at a position; the terminating zero at the end. */
  function At(s: string, pos: nat): char { if pos < |s| then s[pos] else '\0' }

  method DetectDigits(fmt: string, pos: nat) returns (lookAhead: nat)
    requires pos <= |fmt|
    ensures lookAhead == DetectNumber(fmt[pos..])
  {
    lookAhead := 0;
    while IsDecimal(At(fmt, pos + lookAhead))
      invariant pos + lookAhead <= |fmt|
      invariant DetectNumber(fmt[pos..]) == lookAhead + DetectNumber(fmt[pos + lookAhead..])
      decreases |fmt| - lookAhead
    {
      assert fmt[pos + lookAhead..][1..] == fmt[pos + lookAhead + 1..];
      lookAhead := lookAhead + 1;
    }
  }

  /** At most three digits: the table of powers of ten has three entries. */
  method ParseDigits(fmt: string, pos: nat, numEnd: nat) returns (num: U8)
    requires 1 <= numEnd <= 3 && pos + numEnd <= |fmt|
    requires forall k :: pos <= k < pos + numEnd ==> IsDecimal(fmt[k])
    ensures num == ParseNumber(fmt[pos..pos + numEnd])
  {
    var pow10 := [1, 10, 100];
    var pow := numEnd - 1;
    var sum := 0;
    var i := 0;
    ghost var s := fmt[pos..pos + numEnd];
    while i < numEnd
      invariant 0 <= i <= numEnd && pow == numEnd - 1 - i
      invariant sum + Value(s[i..], 10) == Value(s, 10)
    {
      PowersOfTen();
      assert s[i..][1..] == s[i + 1..] && s[i..][0] == fmt[pos + i];
      sum := sum + (fmt[pos + i] as int - DIGIT_MIN) * pow10[pow];
      pow := pow - 1;
      i := i + 1;
    }
    assert s[numEnd..] == [];
    num := Wrap8(sum);
  }

  lemma PowersOfTen()
    ensures Pow(10, 0) == 1 && Pow(10, 1) == 10 && Pow(10, 2) == 100
  {
  }

  // ---- one argument --------------------------------------------------------------------------------------

  /** The digits of a number, least significant first. */
  method IntToBuf(num: nat, buf: array<char>, radix: nat, precision: nat) returns (pos: nat)
    requires 0 < radix <= 16 && 0 < precision && |LowDigits(num, radix, precision)| <= buf.Length
    modifies buf
    ensures pos <= buf.Length && buf[..pos] == LowDigits(num, radix, precision)
  {
    hide LowDigits, HexChar;
    ghost var all := LowDigits(num, radix, precision);
    var n: nat := num;
    var more := true;
    pos := 0;
    ghost var rest := all;
    assert buf[..0] + all == all;
    while more
      invariant pos <= buf.Length && pos <= precision && (more ==> pos < precision)
      invariant all == buf[..pos] + rest && |all| == pos + |rest|
      invariant rest == if more then LowDigits(n, radix, precision - pos) else []
      decreases precision - pos, more
    {
      ghost var written := buf[..pos];
      LowDigitsUnfold(n, radix, precision - pos);
      var digit := HexChar(n % radix);
      MoveOver(written, digit, rest);
      buf[pos] := digit;
      rest := rest[1..];
      assert buf[..pos + 1] == written + [digit];
      n := n / radix;
      pos := pos + 1;
      more := n > 0 && pos < precision;
    }
    assert buf[..pos] + [] == buf[..pos];
  }

  lemma MoveOver(written: string, digit: char, rest: string)
    requires rest != "" && rest[0] == digit
    ensures written + rest == written + [digit] + rest[1..]
  {
  }

  lemma LowDigitsUnfold(n: nat, radix: nat, most: nat)
    requires 0 < radix <= 16 && 0 < most
    ensures LowDigits(n, radix, most)
         == [HexChar(n % radix)] + if n / radix > 0 && most > 1 then LowDigits(n / radix, radix, most - 1) else []
  {
  }

  // ---- writing into the buffer ---------------------------------------------------------------------------

  /** From one buffer to the next: out fills it up to pos, and nothing behind pos has changed. */
  ghost predicate Wrote(before: string, after: string, off: nat, pos: nat, out: string) {
    && |after| == |before| && off <= pos <= |after|
    && after[..pos] == out && after[pos..] == before[pos..]
  }

  ghost predicate Untouched(before: string, after: string, pos: nat) {
    |after| == |before| && forall k :: pos <= k < |after| ==> after[k] == before[k]
  }

  lemma WroteMore(b0: string, b1: string, b2: string, off: nat, p1: nat, p2: nat, o1: string, o2: string)
    requires Wrote(b0, b1, off, p1, o1) && Wrote(b1, b2, p1, p2, o2)
    ensures Wrote(b0, b2, off, p2, o2)
  {
    assert b2[p2..] == b1[p2..] == b1[p1..][p2 - p1..] == b0[p1..][p2 - p1..] == b0[p2..];
  }

  /** Writes a character some number of times, as far as the buffer reaches. */
  method WriteFill(buf: array<char>, off: nat, bufLen: nat, fill: char, count: nat) returns (pos: nat)
    requires off <= buf.Length && bufLen <= buf.Length
    modifies buf
    ensures Wrote(old(buf[..]), buf[..], off, pos, PutPiece(old(buf[..off]), Piece(Repeat(fill, count), false), bufLen))
  {
    pos := off;
    var i := 0;
    while i < count && pos < bufLen
      invariant pos == off + i && i <= count && pos <= Max(off, bufLen)
      invariant buf[..pos] == old(buf[..off]) + Repeat(fill, i) && Untouched(old(buf[..]), buf[..], pos)
    {
      buf[pos] := fill;
      pos := pos + 1;
      i := i + 1;
    }
  }

  /** Writes the characters of msg from len - 1 down to limit, as far as the buffer reaches. */
  method WriteReverse(buf: array<char>, off: nat, bufLen: nat, msg: seq<char>, len: nat, limit: nat) returns (pos: nat)
    requires off <= buf.Length && bufLen <= buf.Length && limit <= len <= |msg|
    modifies buf
    ensures Wrote(old(buf[..]), buf[..], off, pos,
                  PutPiece(old(buf[..off]), Piece(Reverse(msg[limit..len]), false), bufLen))
  {
    pos := off;
    var k := len - 1;
    ghost var text := Reverse(msg[limit..len]);
    while k >= limit && pos < bufLen
      invariant limit - 1 <= k < len && pos == off + (len - 1 - k) && pos <= Max(off, bufLen)
      invariant buf[..pos] == old(buf[..off]) + text[..len - 1 - k] && Untouched(old(buf[..]), buf[..], pos)
    {
      buf[pos] := msg[k];
      pos := pos + 1;
      k := k - 1;
    }
    assert text[..|text|] == text;
  }

  /** Writes the radix prefix without looking at the end of the buffer. */
  method WritePrefix(buf: array<char>, off: nat, radix: nat) returns (pos: nat)
    requires off + |RadixPrefix(radix)| <= buf.Length
    modifies buf
    ensures Wrote(old(buf[..]), buf[..], off, pos, old(buf[..off]) + RadixPrefix(radix))
  {
    pos := off;
    if radix == 2 {
      buf[pos] := '0';
      buf[pos + 1] := 'b';
      pos := pos + 2;
    } else if radix == 8 {
      buf[pos] := '0';
      buf[pos + 1] := 'o';
      pos := pos + 2;
    } else if radix == 16 {
      buf[pos] := '0';
      buf[pos + 1] := 'x';
      pos := pos + 2;
    }
  }

  method WriteText(buf: array<char>, off: nat, bufLen: nat, text: string) returns (pos: nat)
    requires off <= buf.Length && bufLen <= buf.Length
    modifies buf
    ensures Wrote(old(buf[..]), buf[..], off, pos, PutPiece(old(buf[..off]), Piece(text, false), bufLen))
  {
    pos := off;
    var i := 0;
    while i < |text| && pos < bufLen
      invariant pos == off + i && i <= |text| && pos <= Max(off, bufLen)
      invariant buf[..pos] == old(buf[..off]) + text[..i] && Untouched(old(buf[..]), buf[..], pos)
    {
      buf[pos] := text[i];
      pos := pos + 1;
      i := i + 1;
    }
    assert text[..|text|] == text;
  }

  lemma PutUnfolds3(out: string, ps: seq<Piece>, n: nat)
    requires |ps| == 3
    ensures Put(out, ps, n) == PutPiece(PutPiece(PutPiece(out, ps[0], n), ps[1], n), ps[2], n)
  {
    PutUnfolds(out, ps, n);
    PutUnfolds(PutPiece(out, ps[0], n), ps[1..], n);
    PutUnfolds(PutPiece(PutPiece(out, ps[0], n), ps[1], n), ps[2..], n);
  }

  /** Three pieces: padding, the text, padding. */
  method WritePadded(buf: array<char>, off: nat, bufLen: nat, fill: char, left: nat, text: string, right: nat)
    returns (pos: nat)
    requires off <= buf.Length && bufLen <= buf.Length
    modifies buf
    ensures Wrote(old(buf[..]), buf[..], off, pos,
                  Put(old(buf[..off]),
                      [Piece(Repeat(fill, left), false), Piece(text, false),
                        Piece(Repeat(fill, right), false)], bufLen))
  {
    hide Put, Repeat, PutPiece;
    PutUnfolds3(buf[..off],
      [Piece(Repeat(fill, left), false), Piece(text, false), Piece(Repeat(fill, right), false)], bufLen);
    ghost var b0 := buf[..];
    var p1 := WriteFill(buf, off, bufLen, fill, left);
    ghost var b1, o1 := buf[..], buf[..p1];
    var p2 := WriteText(buf, p1, bufLen, text);
    ghost var b2, o2 := buf[..], buf[..p2];
    pos := WriteFill(buf, p2, bufLen, fill, right);
    WroteMore(b0, b1, b2, off, p1, p2, o1, o2);
    WroteMore(b0, b2, buf[..], off, p2, pos, o2, buf[..pos]);
  }

  method FormatString(buf: array<char>, off: nat, bufLen: nat, msg: string, st: Style, precision: nat)
    returns (pos: nat)
    requires off <= buf.Length && bufLen <= buf.Length
    requires precision == if st.precision > 0 then st.precision else DEF_STRING_PRECISION
    modifies buf
    ensures Wrote(old(buf[..]), buf[..], off, pos, Put(old(buf[..off]), StringPieces(msg, st), bufLen))
  {
    hide Put, Repeat, Wrote;
    var b := new char[precision];
    var len := 0;
    while len < |msg| && len < precision
      invariant len <= |msg| && len <= precision && b[..len] == msg[..len]
      invariant buf[..] == old(buf[..])
    {
      b[len] := msg[len];
      len := len + 1;
    }
    var text := b[..len];
    assert text == Cut(msg, precision);
    var padding := if st.width > len then st.width - len else 0;
    var left, right := 0, 0;
    if st.align == '^' {
      left := padding / 2;
      right := padding - left;
    } else if st.align == '<' {
      right := padding;
    } else {
      left := padding;
    }
    assert StringPads(st.align, Padding(st.width, len)) == (left, right);
    assert buf[..off] == old(buf[..])[..off];
    pos := WritePadded(buf, off, bufLen, st.fill, left, text, right);
  }

  /** The two places a radix prefix can stand in. */
  method WritePrefixIf(buf: array<char>, off: nat, here: bool, radix: nat, ghost bufLen: nat) returns (pos: nat)
    requires off <= buf.Length && (here ==> off + |RadixPrefix(radix)| <= buf.Length)
    modifies buf
    ensures Wrote(old(buf[..]), buf[..], off, pos,
                  PutPiece(old(buf[..off]), Piece(if here then RadixPrefix(radix) else "", true), bufLen))
  {
    pos := off;
    if here {
      pos := WritePrefix(buf, pos, radix);
    }
  }

  lemma PutGrows(out: string, ps: seq<Piece>, n: nat)
    requires |ps| == 5
    ensures var o1 := PutPiece(out, ps[0], n);
            var o2 := PutPiece(o1, ps[1], n);
            var o3 := PutPiece(o2, ps[2], n);
            |out| <= |o1| <= |o2| <= |o3| <= |Put(out, ps, n)|
  {
    PutUnfolds5(out, ps, n);
    hide Put;
  }

  /** Padding and digits, with the prefix in front of either. */
  method WriteNumber(buf: array<char>, off: nat, bufLen: nat, st: Style, left: nat, digits: string, right: nat)
    returns (pos: nat)
    requires off <= bufLen <= buf.Length
    requires |Put(buf[..off], AroundDigits(st, left, Reverse(digits), right), bufLen)| <= buf.Length
    modifies buf
    ensures Wrote(old(buf[..]), buf[..], off, pos,
                  Put(old(buf[..off]), AroundDigits(st, left, Reverse(digits), right), bufLen))
  {
    hide Put, Repeat, Reverse, RadixPrefix;
    ghost var ps := AroundDigits(st, left, Reverse(digits), right);
    PutUnfolds5(buf[..off], ps, bufLen);
    PutGrows(buf[..off], ps, bufLen);
    ghost var b0 := buf[..];
    var p1 := WritePrefixIf(buf, off, st.usePrefix && st.align == '=', st.radix, bufLen);
    ghost var b1, o1 := buf[..], buf[..p1];
    var p2 := WriteFill(buf, p1, bufLen, st.fill, left);
    ghost var b2, o2 := buf[..], buf[..p2];
    var p3 := WritePrefixIf(buf, p2, st.usePrefix && st.align != '=', st.radix, bufLen);
    ghost var b3, o3 := buf[..], buf[..p3];
    assert digits[0..|digits|] == digits;
    var p4 := WriteReverse(buf, p3, bufLen, digits, |digits|, 0);
    ghost var b4, o4 := buf[..], buf[..p4];
    pos := WriteFill(buf, p4, bufLen, st.fill, right);
    WroteMore(b0, b1, b2, off, p1, p2, o1, o2);
    WroteMore(b0, b2, b3, off, p2, p3, o2, o3);
    WroteMore(b0, b3, b4, off, p3, p4, o3, o4);
    WroteMore(b0, b4, buf[..], off, p4, pos, o4, buf[..pos]);
  }

  method FormatNumber(buf: array<char>, off: nat, bufLen: nat, v: int, st: Style) returns (pos: nat)
    requires 0 < st.radix <= 16 && |NumberText(v, st.radix)| <= INTERNAL_BUF_SIZE
    requires off <= bufLen <= buf.Length && |Put(buf[..off], NumberPieces(v, st), bufLen)| <= buf.Length
    modifies buf
    ensures Wrote(old(buf[..]), buf[..], off, pos, Put(old(buf[..off]), NumberPieces(v, st), bufLen))
  {
    hide Put, Repeat, LowDigits, Wrote, AroundDigits;
    var negative := v < 0;
    var num := if negative then 0 - v else v;
    var b := new char[INTERNAL_BUF_SIZE];
    var len := IntToBuf(num, b, st.radix, DEF_STRING_PRECISION);
    if negative {
      b[len] := '-';
      len := len + 1;
    }
    assert Reverse(b[..len]) == NumberText(v, st.radix);
    var padding := if st.width > len then st.width - len else 0;
    var left, right := 0, 0;
    if st.align == '^' {
      left := padding / 2 + 1;
      right := Wrap64(padding - left);
    } else if st.align == '<' {
      right := padding;
    } else {
      left := padding;
    }
    assert NumberPads(st.align, Padding(st.width, len)) == (left, right);
    assert buf[..off] == old(buf[..off]);
    pos := WriteNumber(buf, off, bufLen, st, left, b[..len], right);
  }

  // ---- the machine ---------------------------------------------------------------------------------------

  /** What the next step means for the run, when the run is defined. */
  lemma StepDecides(c: Configuration, args: seq<Argument>, n: nat)
    requires ValidRadix(c) && |c.out| < n && c.rest != [] && Run(c, args, n) != Unspecified
    ensures Step(c, args, n) != Undefined
    ensures Step(c, args, n) == Failed ==> Run(c, args, n) == Error
    ensures Step(c, args, n).Next? ==> ValidRadix(Step(c, args, n).c)
                                       && Run(c, args, n) == Run(Step(c, args, n).c, args, n)
  {
  }

  lemma RunEnds(c: Configuration, args: seq<Argument>, n: nat)
    requires ValidRadix(c) && (c.rest == [] || |c.out| >= n)
    ensures Run(c, args, n) == Done(c.out)
  {
  }

  /** Renders one argument at the end of the output. */
  method FormatArgument(buf: array<char>, off: nat, bufLen: nat, arg: Argument, st: Style) returns (pos: nat)
    requires 0 < st.radix <= 16 && ArgumentDefined(arg, st.radix)
    requires off < bufLen <= buf.Length && |Put(buf[..off], ArgumentPieces(arg, st), bufLen)| <= buf.Length
    modifies buf
    ensures Wrote(old(buf[..]), buf[..], off, pos, Put(old(buf[..off]), ArgumentPieces(arg, st), bufLen))
  {
    hide StringPieces, NumberPieces, NumberText;
    match arg
    case CharArg(c) =>
      buf[off] := c;
      pos := off + 1;
      PutUnfolds(old(buf[..off]), [Piece([c], false)], bufLen);
    case IntArg(v, _, _) =>
      pos := FormatNumber(buf, off, bufLen, v, st);
    case BoolArg(b) =>
      pos := FormatString(buf, off, bufLen, if b then "True" else "False", st,
                          if st.precision > 0 then st.precision else DEF_STRING_PRECISION);
    case StrArg(s) =>
      pos := FormatString(buf, off, bufLen, s, st, if st.precision > 0 then st.precision else DEF_STRING_PRECISION);
  }

  lemma Slices(s: string, p: nat, k: nat)
    requires p + k <= |s|
    ensures s[p..][..k] == s[p..p + k] && s[p..][k..] == s[p + k..]
  {
  }

  // Each state reads from position p, where the machine c stands, and continues as the machine does.

  method ReadIndex(fmt: string, p: nat, listing: Listing, argPos: int, argCount: nat, ghost c: Configuration)
    returns (ok: bool, q: nat, nextListing: Listing, nextPos: int, next: ParserState)
    requires p < |fmt| && c.rest == fmt[p..] && c.state == INDEX && ValidRadix(c)
    requires c.listing == listing && c.argPos == argPos && StepIndex(c, argCount) != Undefined
    ensures !ok <==> StepIndex(c, argCount) == Failed
    ensures ok ==> q <= |fmt| && StepIndex(c, argCount)
                                 == Next(c.(state := next, rest := fmt[q..], listing := nextListing, argPos := nextPos))
  {
    hide DetectNumber, ParseNumber;
    ok, q, nextListing, nextPos, next := false, p, listing, argPos, INDEX;
    var numLength := DetectDigits(fmt, p);
    Slices(fmt, p, numLength);
    if numLength > 0 {
      if listing == AUTOMATIC {
        return;
      }
      nextPos := ParseDigits(fmt, p, numLength);
      nextListing := BY_INDEX;
      q := p + numLength;
      if nextPos >= argCount {
        return;
      }
    } else if fmt[p] == '}' || fmt[p] == ':' {
      if listing == BY_INDEX {
        return;
      }
      nextListing := AUTOMATIC;
      nextPos := argPos + 1;
    } else {
      return;
    }
    ok := true;
    if At(fmt, q) == ':' {
      next := FILL_ALIGN;
      q := q + 1;
    } else {
      next := END;
    }
  }

  method ReadFillAlign(fmt: string, p: nat, st: Style, ghost c: Configuration)
    returns (ok: bool, q: nat, style: Style)
    requires p < |fmt| && c.rest == fmt[p..] && c.style == st
    ensures !ok <==> StepFillAlign(c) == Failed
    ensures ok ==> q <= |fmt| && StepFillAlign(c) == Next(c.(state := PREFIX, rest := fmt[q..], style := style))
  {
    ok, q, style := true, p, st;
    var ch, token := fmt[p], At(fmt, p + 1);
    if IsAlign(token) {
      if ch == '{' || ch == '}' {
        ok := false;
        return;
      }
      style := st.(fill := ch, align := token);
      q := p + 2;
    } else if IsAlign(ch) {
      style := st.(align := ch);
      q := p + 1;
    }
  }

  method ReadPrefix(fmt: string, p: nat, st: Style, ghost c: Configuration) returns (q: nat, style: Style)
    requires p < |fmt| && c.rest == fmt[p..] && c.style == st
    ensures q <= |fmt| && StepPrefix(c) == Next(c.(state := WIDTH, rest := fmt[q..], style := style))
  {
    q, style := p, st.(usePrefix := fmt[p] == '#');
    if style.usePrefix {
      q := p + 1;
    }
  }

  method ReadWidth(fmt: string, p: nat, st: Style, ghost c: Configuration) returns (q: nat, style: Style)
    requires p < |fmt| && c.rest == fmt[p..] && c.style == st && StepWidth(c) != Undefined
    ensures q <= |fmt| && StepWidth(c) == Next(c.(state := PRECISION, rest := fmt[q..], style := style))
  {
    hide DetectNumber, ParseNumber;
    q, style := p, st;
    var numLength := DetectDigits(fmt, p);
    Slices(fmt, p, numLength);
    if numLength > 0 {
      var width := ParseDigits(fmt, p, numLength);
      style := st.(width := width);
      q := p + numLength;
    }
  }

  method ReadPrecision(fmt: string, p: nat, st: Style, args: seq<Argument>, argPos: int, ghost c: Configuration)
    returns (ok: bool, q: nat, style: Style)
    requires p < |fmt| && c.rest == fmt[p..] && c.style == st && c.argPos == argPos
    requires StepPrecision(c, args) != Undefined
    ensures !ok <==> StepPrecision(c, args) == Failed
    ensures ok ==> q <= |fmt| && StepPrecision(c, args) == Next(c.(state := TYPE, rest := fmt[q..], style := style))
  {
    hide DetectNumber, ParseNumber;
    ok, q, style := true, p, st;
    if fmt[p] == '.' {
      if !args[argPos].StrArg? {
        ok := false;
        return;
      }
      q := p + 1;
      assert c.rest[1..] == fmt[q..];
      var detected := DetectDigits(fmt, q);
      var numLength: U8 := Wrap8(detected);
      if numLength > 0 {
        Slices(fmt, q, numLength);
        assert c.rest[1..][..numLength] == c.rest[1..1 + numLength]
               && c.rest[1..][numLength..] == c.rest[1 + numLength..];
        var precision := ParseDigits(fmt, q, numLength);
        style := st.(precision := precision);
        q := q + numLength;
      } else {
        ok := false;
      }
    }
  }

  method ReadType(fmt: string, p: nat, st: Style, args: seq<Argument>, argPos: int, ghost c: Configuration)
    returns (ok: bool, q: nat, style: Style)
    requires p < |fmt| && c.rest == fmt[p..] && c.style == st && c.argPos == argPos && StepType(c, args) != Undefined
    ensures !ok <==> StepType(c, args) == Failed
    ensures ok ==> q <= |fmt| && StepType(c, args) == Next(c.(state := END, rest := fmt[q..], style := style))
  {
    ok, q, style := true, p, st;
    var ch := fmt[p];
    if ch == 'b' || ch == 'o' || ch == 'x' {
      if !(args[argPos].IntArg? || args[argPos].CharArg?) {
        ok := false;
        return;
      }
      style := st.(radix := if ch == 'b' then 2 else if ch == 'o' then 8 else 16);
      q := p + 1;
    }
  }

  /** The closing brace: renders the argument at the end of the output. */
  method ReadEnd(fmt: string, p: nat, buf: array<char>, bufPos: nat, bufSize: nat, st: Style, args: seq<Argument>,
                 argPos: int, ghost c: Configuration)
    returns (ok: bool, pos: nat)
    requires p < |fmt| && c.rest == fmt[p..] && c.style == st && c.argPos == argPos && ValidRadix(c)
    requires bufPos < bufSize <= buf.Length && c.out == buf[..bufPos] && StepEnd(c, args, bufSize) != Undefined
    requires StepEnd(c, args, bufSize).Next? ==> |StepEnd(c, args, bufSize).c.out| <= buf.Length
    modifies buf
    ensures !ok <==> StepEnd(c, args, bufSize) == Failed
    ensures ok ==> pos <= buf.Length && Wrote(old(buf[..]), buf[..], bufPos, pos, buf[..pos])
                   && StepEnd(c, args, bufSize)
                      == Next(c.(state := START, rest := fmt[p + 1..], style := DEFAULT_STYLE, out := buf[..pos]))
  {
    hide Put, ArgumentPieces, ArgumentDefined;
    ok, pos := fmt[p] == '}', bufPos;
    if ok {
      pos := FormatArgument(buf, bufPos, bufSize, args[argPos], st);
    }
  }

  /** A step writes behind the buffer only if the whole run does. */
  lemma StepStaysInside(c: Configuration, args: seq<Argument>, n: nat)
    requires ValidRadix(c) && |c.out| < n && c.rest != [] && Step(c, args, n).Next?
    ensures |Step(c, args, n).c.out| <= Max(n, Result(Run(c, args, n)))
  {
    hide Step;
    var d := Step(c, args, n).c;
    assert ValidRadix(d) && Run(c, args, n) == Run(d, args, n);
    if |d.out| >= n {
      RunEnds(d, args, n);
    }
  }

  lemma EndStaysInside(c: Configuration, args: seq<Argument>, n: nat)
    requires ValidRadix(c) && |c.out| < n && c.rest != [] && c.state == END && StepEnd(c, args, n).Next?
    ensures |StepEnd(c, args, n).c.out| <= Max(n, Result(Run(c, args, n)))
  {
    hide StepEnd;
    assert Step(c, args, n) == StepEnd(c, args, n);
    StepStaysInside(c, args, n);
  }

  /**
   * Writes the interpolated format into the buffer and returns the number of characters, or 0 on an error.
   * The buffer must reach as far as the run writes, which can be behind the size the caller names.
   */
  method Interpolate(fmt: string, buf: array<char>, bufSize: nat, args: seq<Argument>) returns (n: nat)
    requires '\0' !in fmt && bufSize <= buf.Length
    requires Run(Start(fmt), args, bufSize) != Unspecified && Result(Run(Start(fmt), args, bufSize)) <= buf.Length
    modifies buf
    ensures n == Result(Run(Start(fmt), args, bufSize))
    ensures var o := Run(Start(fmt), args, bufSize);
            o.Done? ==> Wrote(old(buf[..]), buf[..], 0, n, o.out)
  {
    hide Run, Put, ArgumentPieces, DetectNumber, ParseNumber, ArgumentDefined, StepIndex, StepFillAlign,
         StepPrefix, StepWidth, StepPrecision, StepType, StepEnd;
    var state := START;
    var bufPos := 0;
    var listing := TO_BE_DETERMINED;
    var argPos := -1;
    var st := DEFAULT_STYLE;
    var p := 0;
    ghost var c := Start(fmt);
    ghost var goal := Run(c, args, bufSize);
    assert fmt[0..] == fmt && buf[..0] == "";
    while bufPos < bufSize && At(fmt, p) != '\0'
      invariant p <= |fmt| && bufPos <= buf.Length
      invariant c == Configuration(state, fmt[p..], buf[..bufPos], listing, argPos, st)
      invariant ValidRadix(c) && Run(c, args, bufSize) == goal
      invariant Wrote(old(buf[..]), buf[..], 0, bufPos, c.out)
      decreases |fmt| - p, Rank(state)
    {
      StepDecides(c, args, bufSize);
      var ch := fmt[p];
      assert c.rest[0] == ch && c.rest[1..] == fmt[p + 1..];
      match state {
      case START =>
        if ch == '{' {
          state := INDEX;
        } else {
          ghost var b := buf[..];
          buf[bufPos] := ch;
          assert Wrote(b, buf[..], bufPos, bufPos + 1, b[..bufPos] + [ch]);
          WroteMore(old(buf[..]), b, buf[..], 0, bufPos, bufPos + 1, b[..bufPos], b[..bufPos] + [ch]);
          bufPos := bufPos + 1;
        }
        p := p + 1;
      case INDEX =>
        var ok;
        ok, p, listing, argPos, state := ReadIndex(fmt, p, listing, argPos, |args|, c);
        if !ok {
          return 0;
        }
      case FILL_ALIGN =>
        var ok;
        ok, p, st := ReadFillAlign(fmt, p, st, c);
        if !ok {
          return 0;
        }
        state := PREFIX;
      case PREFIX =>
        p, st := ReadPrefix(fmt, p, st, c);
        state := WIDTH;
      case WIDTH =>
        p, st := ReadWidth(fmt, p, st, c);
        state := PRECISION;
      case PRECISION =>
        var ok;
        ok, p, st := ReadPrecision(fmt, p, st, args, argPos, c);
        if !ok {
          return 0;
        }
        state := TYPE;
      case TYPE =>
        var ok;
        ok, p, st := ReadType(fmt, p, st, args, argPos, c);
        if !ok {
          return 0;
        }
        state := END;
      case END =>
        ghost var b := buf[..];
        if StepEnd(c, args, bufSize).Next? {
          EndStaysInside(c, args, bufSize);
        }
        var ok, pos := ReadEnd(fmt, p, buf, bufPos, bufSize, st, args, argPos, c);
        if !ok {
          return 0;
        }
        WroteMore(old(buf[..]), b, buf[..], 0, bufPos, pos, b[..bufPos], buf[..pos]);
        bufPos, p, st, state := pos, p + 1, DEFAULT_STYLE, START;
      }

      assert Step(c, args, bufSize) == Next(Configuration(state, fmt[p..], buf[..bufPos], listing, argPos, st));
      c := Configuration(state, fmt[p..], buf[..bufPos], listing, argPos, st);
    }
    RunEnds(c, args, bufSize);
    n := bufPos;
  }
}
