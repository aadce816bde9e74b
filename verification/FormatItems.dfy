/** Format strings as lists of literals and placeholders, and what interpolating them means. */
module FormatItems {
  import opened Machine
  import opened Numerals
  import opened NumberStrings
  import opened Formatting
  import opened RenderRules
  import opened FormatMachine

  datatype FillAlign = NoAlign | AlignOnly(a: char) | FillAnd(f: char, b: char)

  /** Everything behind the colon of a placeholder; numbers are kept as they are written. */
  datatype Spec = Spec(fillAlign: FillAlign, prefix: bool, width: string, precision: string, radixChar: char)

  const NO_SPEC := Spec(NoAlign, false, "", "", ' ')

  /** One piece of a format: a character, or a placeholder with an index or, when it is empty, without one. */
  datatype Item = Literal(c: char) | Hole(index: string, colon: bool, spec: Spec)

  // ---- writing a format ------------------------------------------------------------------------------

  function FillAlignText(f: FillAlign): string {
    match f
    case NoAlign => ""
    case AlignOnly(a) => [a]
    case FillAnd(f, a) => [f, a]
  }

  function PrefixText(s: Spec): string { if s.prefix then "#" else "" }

  function PrecisionText(s: Spec): string { if s.precision != "" then "." + s.precision else "" }

  function TypeText(s: Spec): string { if s.radixChar != ' ' then [s.radixChar] else "" }

  function ItemText(i: Item): string {
    match i
    case Literal(c) => [c]
    case Hole(index, colon, s) =>
      "{" + index
      + (if colon then
           ":" + FillAlignText(s.fillAlign) + PrefixText(s) + s.width + PrecisionText(s) + TypeText(s)
         else "")
      + "}"
  }

  function Unparse(items: seq<Item>): string {
    if items == [] then "" else ItemText(items[0]) + Unparse(items[1..])
  }

  // ---- what a format means -----------------------------------------------------------------------------

  function RadixOf(s: Spec): nat {
    if s.radixChar == 'b' then 2 else if s.radixChar == 'o' then 8 else if s.radixChar == 'x' then 16 else 10
  }

  function StyleOf(s: Spec): (st: Style)
    ensures 0 < st.radix <= 16
  {
    Style(if s.fillAlign.FillAnd? then s.fillAlign.f else ' ',
          if s.fillAlign.FillAnd? then s.fillAlign.b else if s.fillAlign.AlignOnly? then s.fillAlign.a else '>',
          s.prefix,
          if s.width == "" then 0 else ParseNumber(s.width),
          if s.precision == "" then 0 else ParseNumber(s.precision),
          RadixOf(s))
  }

  /** The argument a placeholder names, when `used` placeholders without an index came before it. */
  function ArgumentIndex(index: string, used: nat): nat {
    if index == "" then used else ParseNumber(index)
  }

  /** The whole text a format stands for: literals as they are, placeholders replaced by their arguments. */
  function Render(items: seq<Item>, args: seq<Argument>, used: nat): string
    requires ArgumentsExist(items, args, used)
  {
    if items == [] then ""
    else
      match items[0]
      case Literal(c) => [c] + Render(items[1..], args, used)
      case Hole(index, _, s) =>
        Text(ArgumentPieces(args[ArgumentIndex(index, used)], StyleOf(s)))
        + Render(items[1..], args, used + 1)
  }

  predicate ArgumentsExist(items: seq<Item>, args: seq<Argument>, used: nat) {
    if items == [] then true
    else
      match items[0]
      case Literal(_) => ArgumentsExist(items[1..], args, used)
      case Hole(index, _, _) => ArgumentIndex(index, used) < |args| && ArgumentsExist(items[1..], args, used + 1)
  }

  // ---- well-formed formats -----------------------------------------------------------------------------

  predicate IsNumber(s: string) { 1 <= |s| <= 3 && forall i :: 0 <= i < |s| ==> IsDecimal(s[i]) }

  predicate GoodFillAlign(f: FillAlign) {
    match f
    case NoAlign => true
    case AlignOnly(a) => IsAlign(a)
    case FillAnd(f, a) => IsAlign(a) && f != '{' && f != '}' && f != '\0'
  }

  predicate GoodSpec(s: Spec) {
    && GoodFillAlign(s.fillAlign)
    && (s.width == "" || IsNumber(s.width)) && (s.precision == "" || IsNumber(s.precision))
    && (s.radixChar == ' ' || s.radixChar == 'b' || s.radixChar == 'o' || s.radixChar == 'x')
  }

  /** The argument takes the options: precision is for strings, a radix for integers, and digits fit. */
  predicate Fits(s: Spec, a: Argument) {
    && (s.precision != "" ==> a.StrArg?)
    && (s.radixChar != ' ' ==> a.IntArg? || a.CharArg?)
    && ArgumentDefined(a, RadixOf(s))
  }

  /** A placeholder of the grammar; without a colon nothing is specified. */
  predicate GoodHole(i: Item, byIndex: bool)
    requires i.Hole?
  {
    && (if byIndex then IsNumber(i.index) else i.index == "")
    && GoodSpec(i.spec) && (!i.colon ==> i.spec == NO_SPEC)
  }

  /** Nothing is specified behind the colon, and the look-ahead takes the closing brace for a fill character. */
  predicate Misread(i: Item, next: char)
    requires i.Hole?
  {
    i.colon && i.spec == NO_SPEC && IsAlign(next)
  }

  /** Every literal is no brace, every placeholder is good, and all of them name their arguments one way. */
  predicate WellFormed(items: seq<Item>, args: seq<Argument>, byIndex: bool, used: nat) {
    if items == [] then true
    else
      match items[0]
      case Literal(c) => c != '{' && c != '\0' && WellFormed(items[1..], args, byIndex, used)
      case Hole(index, _, s) =>
        && GoodHole(items[0], byIndex)
        && ArgumentIndex(index, used) < |args| && Fits(s, args[ArgumentIndex(index, used)])
        && WellFormed(items[1..], args, byIndex, used + 1)
  }

  /** What is left of n characters when some are written. */
  function Room(n: nat, written: nat): nat { if written < n then n - written else 0 }

  /** With room for that many characters, a placeholder that is misread is reached before the buffer is full. */
  predicate Refused(items: seq<Item>, args: seq<Argument>, used: nat, room: nat)
    requires ArgumentsExist(items, args, used)
  {
    if items == [] || room == 0 then false
    else
      match items[0]
      case Literal(_) => Refused(items[1..], args, used, room - 1)
      case Hole(index, _, s) =>
        var text := Text(ArgumentPieces(args[ArgumentIndex(index, used)], StyleOf(s)));
        || Misread(items[0], Head(Unparse(items[1..])))
        || Refused(items[1..], args, used + 1, Room(room, |text|))
  }

  /** With room for that many characters, the radix prefix of some placeholder ends behind the buffer. */
  predicate Overruns(items: seq<Item>, args: seq<Argument>, used: nat, room: nat)
    requires ArgumentsExist(items, args, used)
  {
    if items == [] || room == 0 then false
    else
      match items[0]
      case Literal(_) => Overruns(items[1..], args, used, room - 1)
      case Hole(index, _, s) =>
        var a := args[ArgumentIndex(index, used)];
        || PassesEnd(a, StyleOf(s), room)
        || Overruns(items[1..], args, used + 1, Room(room, |Text(ArgumentPieces(a, StyleOf(s)))|))
  }

  lemma {:induction false} WellFormedArguments(items: seq<Item>, args: seq<Argument>, byIndex: bool, used: nat)
    requires WellFormed(items, args, byIndex, used)
    ensures ArgumentsExist(items, args, used)
  {
    if items != [] {
      WellFormedArguments(items[1..], args, byIndex, if items[0].Literal? then used else used + 1);
    }
  }

  // ---- one placeholder, state by state -----------------------------------------------------------------

  lemma {:induction false} DetectExactly(s: string, tail: string)
    requires (forall i :: 0 <= i < |s| ==> IsDecimal(s[i])) && (tail == "" || !IsDecimal(tail[0]))
    ensures DetectNumber(s + tail) == |s|
  {
    if s == "" {
      assert s + tail == tail;
    } else {
      assert (s + tail)[1..] == s[1..] + tail;
      DetectExactly(s[1..], tail);
    }
  }

  lemma Drop(s: string, t: string)
    ensures (s + t)[|s|..] == t && (s + t)[..|s|] == s
  {
  }

  /** A step that succeeds continues the run. */
  lemma RunStep(c: Configuration, args: seq<Argument>, n: nat, d: Configuration)
    requires ValidRadix(c) && |c.out| < n && c.rest != [] && Step(c, args, n) == Next(d)
    ensures ValidRadix(d) && Run(c, args, n) == Run(d, args, n)
  {
  }

  lemma IndexStep(c: Configuration, args: seq<Argument>, n: nat, index: string, tail: string, byIndex: bool, used: nat)
    requires c.state == INDEX && c.rest == index + tail && ValidRadix(c) && |c.out| < n
    requires tail != "" && (tail[0] == ':' || tail[0] == '}')
    requires if byIndex then IsNumber(index) && c.listing != AUTOMATIC
             else index == "" && c.listing != BY_INDEX && c.argPos == used - 1
    requires ArgumentIndex(index, used) < |args|
    ensures var d := c.(listing := if byIndex then BY_INDEX else AUTOMATIC, argPos := ArgumentIndex(index, used),
                        state := if tail[0] == ':' then FILL_ALIGN else END,
                        rest := if tail[0] == ':' then tail[1..] else tail);
            ValidRadix(d) && Run(c, args, n) == Run(d, args, n)
  {
    DetectExactly(index, tail);
    Drop(index, tail);
    assert index == "" ==> c.rest == tail;
    var d := c.(listing := if byIndex then BY_INDEX else AUTOMATIC, argPos := ArgumentIndex(index, used),
                state := if tail[0] == ':' then FILL_ALIGN else END,
                rest := if tail[0] == ':' then tail[1..] else tail);
    assert Step(c, args, n) == Next(d);
    RunStep(c, args, n, d);
  }

  lemma FillAlignStep(c: Configuration, args: seq<Argument>, n: nat, f: FillAlign, tail: string)
    requires c.state == FILL_ALIGN && c.rest == FillAlignText(f) + tail && ValidRadix(c) && |c.out| < n
    requires GoodFillAlign(f) && tail != "" && !IsAlign(tail[0]) && (f.NoAlign? ==> !IsAlign(Head(tail[1..])))
    ensures var st := if f.FillAnd? then c.style.(fill := f.f, align := f.b)
                      else if f.AlignOnly? then c.style.(align := f.a) else c.style;
            var d := c.(state := PREFIX, rest := tail, style := st);
            ValidRadix(d) && Run(c, args, n) == Run(d, args, n)
  {
    Drop(FillAlignText(f), tail);
    var st := if f.FillAnd? then c.style.(fill := f.f, align := f.b)
              else if f.AlignOnly? then c.style.(align := f.a) else c.style;
    var d := c.(state := PREFIX, rest := tail, style := st);
    assert f.NoAlign? ==> c.rest == tail;
    assert f.AlignOnly? ==> c.rest[1..] == tail;
    assert Step(c, args, n) == Next(d);
    RunStep(c, args, n, d);
  }

  lemma PrefixStep(c: Configuration, args: seq<Argument>, n: nat, s: Spec, tail: string)
    requires c.state == PREFIX && c.rest == PrefixText(s) + tail && ValidRadix(c) && |c.out| < n
    requires tail != "" && tail[0] != '#'
    ensures var d := c.(state := WIDTH, rest := tail, style := c.style.(usePrefix := s.prefix));
            ValidRadix(d) && Run(c, args, n) == Run(d, args, n)
  {
    Drop(PrefixText(s), tail);
    assert !s.prefix ==> c.rest == tail;
    RunStep(c, args, n, c.(state := WIDTH, rest := tail, style := c.style.(usePrefix := s.prefix)));
  }

  lemma WidthStep(c: Configuration, args: seq<Argument>, n: nat, width: string, tail: string)
    requires c.state == WIDTH && c.rest == width + tail && ValidRadix(c) && |c.out| < n
    requires (width == "" || IsNumber(width)) && tail != "" && !IsDecimal(tail[0])
    ensures var d := c.(state := PRECISION, rest := tail,
                        style := if width == "" then c.style else c.style.(width := ParseNumber(width)));
            ValidRadix(d) && Run(c, args, n) == Run(d, args, n)
  {
    DetectExactly(width, tail);
    Drop(width, tail);
    assert width == "" ==> c.rest == tail;
    RunStep(c, args, n, c.(state := PRECISION, rest := tail,
                           style := if width == "" then c.style else c.style.(width := ParseNumber(width))));
  }

  lemma PrecisionStep(c: Configuration, args: seq<Argument>, n: nat, s: Spec, tail: string)
    requires c.state == PRECISION && c.rest == PrecisionText(s) + tail && ValidRadix(c) && |c.out| < n
    requires (s.precision == "" || IsNumber(s.precision)) && tail != "" && !IsDecimal(tail[0]) && tail[0] != '.'
    requires HasArgument(c, args) && (s.precision != "" ==> args[c.argPos].StrArg?)
    ensures var d := c.(state := TYPE, rest := tail,
                        style := if s.precision == "" then c.style
                          else c.style.(precision := ParseNumber(s.precision)));
            ValidRadix(d) && Run(c, args, n) == Run(d, args, n)
  {
    var k := |s.precision|;
    DetectExactly(s.precision, tail);
    if s.precision == "" {
      assert c.rest == tail;
    } else {
      assert c.rest[1..] == s.precision + tail;
      assert c.rest[1..1 + k] == s.precision && c.rest[1 + k..] == tail;
    }
    RunStep(c, args, n, c.(state := TYPE, rest := tail,
                           style := if s.precision == "" then c.style
                             else c.style.(precision := ParseNumber(s.precision))));
  }

  lemma TypeStep(c: Configuration, args: seq<Argument>, n: nat, s: Spec, tail: string)
    requires c.state == TYPE && c.rest == TypeText(s) + tail && ValidRadix(c) && |c.out| < n
    requires GoodSpec(s) && tail != "" && tail[0] == '}' && c.style.radix == 10
    requires HasArgument(c, args) && (s.radixChar != ' ' ==> args[c.argPos].IntArg? || args[c.argPos].CharArg?)
    ensures var d := c.(state := END, rest := tail, style := c.style.(radix := RadixOf(s)));
            ValidRadix(d) && Run(c, args, n) == Run(d, args, n)
  {
    Drop(TypeText(s), tail);
    assert s.radixChar == ' ' ==> c.rest == tail;
    RunStep(c, args, n, c.(state := END, rest := tail, style := c.style.(radix := RadixOf(s))));
  }

  lemma EndStep(c: Configuration, args: seq<Argument>, n: nat, tail: string)
    requires c.state == END && c.rest == "}" + tail && ValidRadix(c) && |c.out| < n
    requires HasArgument(c, args) && ArgumentDefined(args[c.argPos], c.style.radix)
    ensures var d := c.(state := START, rest := tail, style := DEFAULT_STYLE,
                        out := Put(c.out, ArgumentPieces(args[c.argPos], c.style), n));
            ValidRadix(d) && Run(c, args, n) == Run(d, args, n)
  {
    assert c.rest[1..] == tail;
    RunStep(c, args, n, c.(state := START, rest := tail, style := DEFAULT_STYLE,
                           out := Put(c.out, ArgumentPieces(args[c.argPos], c.style), n)));
  }

  // ---- whole formats ------------------------------------------------------------------------------------

  /** What is left of a placeholder behind its colon, followed by the rest of the format. */
  function Behind(s: Spec, stage: nat, tail: string): (t: string)
    requires stage <= 5
    decreases 5 - stage
  {
    if stage == 5 then "}" + tail
    else if stage == 4 then TypeText(s) + Behind(s, 5, tail)
    else if stage == 3 then PrecisionText(s) + Behind(s, 4, tail)
    else if stage == 2 then s.width + Behind(s, 3, tail)
    else if stage == 1 then PrefixText(s) + Behind(s, 2, tail)
    else FillAlignText(s.fillAlign) + Behind(s, 1, tail)
  }

  /** Each stage of a specification begins with a character no earlier stage would take. */
  lemma BehindHeads(s: Spec, tail: string)
    requires GoodSpec(s)
    ensures Behind(s, 5, tail) != "" && Behind(s, 5, tail)[0] == '}'
    ensures Behind(s, 4, tail) != "" && !IsDecimal(Behind(s, 4, tail)[0]) && Behind(s, 4, tail)[0] != '.'
            && !IsAlign(Behind(s, 4, tail)[0]) && Behind(s, 4, tail)[0] != '#'
    ensures Behind(s, 3, tail) != "" && !IsDecimal(Behind(s, 3, tail)[0])
            && !IsAlign(Behind(s, 3, tail)[0]) && Behind(s, 3, tail)[0] != '#'
    ensures Behind(s, 2, tail) != "" && !IsAlign(Behind(s, 2, tail)[0]) && Behind(s, 2, tail)[0] != '#'
    ensures Behind(s, 1, tail) != "" && !IsAlign(Behind(s, 1, tail)[0])
  {
  }

  /** Without an alignment, the second character is no alignment character either. */
  lemma BehindSecond(s: Spec, tail: string)
    requires GoodSpec(s) && s.fillAlign.NoAlign? && (s == NO_SPEC ==> !IsAlign(Head(tail)))
    ensures !IsAlign(Head(Behind(s, 1, tail)[1..]))
  {
    BehindHeads(s, tail);
    var b5, b4, b3, b2 := Behind(s, 5, tail), Behind(s, 4, tail), Behind(s, 3, tail), Behind(s, 2, tail);
    if s.prefix {
      assert Behind(s, 1, tail)[1..] == b2;
    } else if s.width != "" {
      assert Behind(s, 1, tail) == b2 == s.width + b3;
      assert b2[1] == if |s.width| > 1 then s.width[1] else b3[0];
      assert Head(b2[1..]) == b2[1];
    } else if s.precision != "" {
      assert Behind(s, 1, tail) == b3 == "." + s.precision + b4;
      assert b3[1] == s.precision[0] && Head(b3[1..]) == b3[1];
    } else if s.radixChar != ' ' {
      assert Behind(s, 1, tail) == b4 == [s.radixChar] + b5;
      assert b4[1] == '}' && Head(b4[1..]) == b4[1];
    } else {
      assert Behind(s, 1, tail) == b5 && b5[1..] == tail;
      assert s == NO_SPEC;
    }
  }

  lemma HoleText(i: Item, tail: string)
    requires i.Hole?
    ensures ItemText(i) + tail == "{" + (i.index + if i.colon then ":" + Behind(i.spec, 0, tail) else "}" + tail)
  {
    var s := i.spec;
    if i.colon {
      var f, p, w, r, y := FillAlignText(s.fillAlign), PrefixText(s), s.width, PrecisionText(s), TypeText(s);
      Regroup(":", f, p, w, r, y, "}" + tail);
      var inner := ":" + f + p + w + r + y;
      assert "{" + i.index + inner + "}" + tail == "{" + (i.index + (inner + ("}" + tail)));
    } else {
      assert "{" + i.index + "" + "}" + tail == "{" + (i.index + ("}" + tail));
    }
  }

  lemma Regroup(c: string, f: string, p: string, w: string, r: string, y: string, tail: string)
    ensures c + f + p + w + r + y + tail == c + (f + (p + (w + (r + (y + tail)))))
  {
    Associative(c + f + p + w + r, y, tail);
    Associative(c + f + p + w, r, y + tail);
    Associative(c + f + p, w, r + (y + tail));
    Associative(c + f, p, w + (r + (y + tail)));
    Associative(c, f, p + (w + (r + (y + tail))));
  }

  /** The specification of one placeholder, from the colon to the closing brace. */
  lemma SpecRun(c: Configuration, args: seq<Argument>, n: nat, s: Spec, tail: string)
    requires c.state == FILL_ALIGN && c.rest == Behind(s, 0, tail) && c.style == DEFAULT_STYLE && |c.out| < n
    requires GoodSpec(s) && (s == NO_SPEC ==> !IsAlign(Head(tail))) && HasArgument(c, args) && Fits(s, args[c.argPos])
    ensures var d := c.(state := END, rest := "}" + tail, style := StyleOf(s));
            ValidRadix(c) && ValidRadix(d) && Run(c, args, n) == Run(d, args, n)
  {
    hide Run, Step;
    BehindHeads(s, tail);
    if s.fillAlign.NoAlign? {
      BehindSecond(s, tail);
    }
    FillAlignStep(c, args, n, s.fillAlign, Behind(s, 1, tail));
    var st1 := if s.fillAlign.FillAnd? then c.style.(fill := s.fillAlign.f, align := s.fillAlign.b)
               else if s.fillAlign.AlignOnly? then c.style.(align := s.fillAlign.a) else c.style;
    var c1 := c.(state := PREFIX, rest := Behind(s, 1, tail), style := st1);
    PrefixStep(c1, args, n, s, Behind(s, 2, tail));
    var c2 := c1.(state := WIDTH, rest := Behind(s, 2, tail), style := st1.(usePrefix := s.prefix));
    WidthStep(c2, args, n, s.width, Behind(s, 3, tail));
    var c3 := c2.(state := PRECISION, rest := Behind(s, 3, tail),
                  style := if s.width == "" then c2.style else c2.style.(width := ParseNumber(s.width)));
    PrecisionStep(c3, args, n, s, Behind(s, 4, tail));
    var c4 := c3.(state := TYPE, rest := Behind(s, 4, tail),
                  style := if s.precision == "" then c3.style else c3.style.(precision := ParseNumber(s.precision)));
    TypeStep(c4, args, n, s, Behind(s, 5, tail));
  }

  ghost predicate Counts(c: Configuration, byIndex: bool, used: nat) {
    if byIndex then c.listing != AUTOMATIC else c.listing != BY_INDEX && c.argPos == used - 1
  }

  /** One placeholder: its text is read completely and its argument rendered into the buffer. */
  lemma HoleRun(c: Configuration, args: seq<Argument>, n: nat, i: Item, tail: string, byIndex: bool, used: nat)
    requires c.state == START && c.rest == ItemText(i) + tail && c.style == DEFAULT_STYLE && |c.out| < n
    requires i.Hole? && GoodHole(i, byIndex) && !Misread(i, Head(tail)) && Counts(c, byIndex, used)
    requires ArgumentIndex(i.index, used) < |args| && Fits(i.spec, args[ArgumentIndex(i.index, used)])
    ensures var pos := ArgumentIndex(i.index, used);
            var d := c.(rest := tail, listing := if byIndex then BY_INDEX else AUTOMATIC, argPos := pos,
                        out := Put(c.out, ArgumentPieces(args[pos], StyleOf(i.spec)), n));
            ValidRadix(c) && ValidRadix(d) && Run(c, args, n) == Run(d, args, n)
  {
    hide Put, ArgumentPieces, ArgumentDefined, ParseNumber;
    var pos := ArgumentIndex(i.index, used);
    var after := if i.colon then ":" + Behind(i.spec, 0, tail) else "}" + tail;
    HoleText(i, tail);
    var c1 := c.(state := INDEX, rest := i.index + after);
    assert c.rest[1..] == c1.rest;
    RunStep(c, args, n, c1);
    IndexStep(c1, args, n, i.index, after, byIndex, used);
    var c2 := c1.(listing := if byIndex then BY_INDEX else AUTOMATIC, argPos := pos,
                  state := if i.colon then FILL_ALIGN else END, rest := if i.colon then after[1..] else after);
    hide Run, Step;
    if i.colon {
      assert after[1..] == Behind(i.spec, 0, tail);
      SpecRun(c2, args, n, i.spec, tail);
    } else {
      assert StyleOf(NO_SPEC) == DEFAULT_STYLE;
    }
    EndStep(c2.(state := END, rest := "}" + tail, style := StyleOf(i.spec)), args, n, tail);
  }

  /** A placeholder that is misread ends the run with an error. */
  lemma MisreadRun(c: Configuration, args: seq<Argument>, n: nat, i: Item, tail: string, byIndex: bool, used: nat)
    requires c.state == START && c.rest == ItemText(i) + tail && c.style == DEFAULT_STYLE && |c.out| < n
    requires i.Hole? && GoodHole(i, byIndex) && Misread(i, Head(tail)) && Counts(c, byIndex, used)
    requires ArgumentIndex(i.index, used) < |args|
    ensures ValidRadix(c) && Run(c, args, n) == Error
  {
    hide ParseNumber, Run, Step, DetectNumber, ItemText, IsAlign;
    var pos := ArgumentIndex(i.index, used);
    var after := ":" + ("}" + tail);
    EmptyHoleText(i, tail);
    OpeningBrace(c, args, n, i.index + after);
    var c1 := c.(state := INDEX, rest := i.index + after);
    IndexStep(c1, args, n, i.index, after, byIndex, used);
    var c2 := c1.(listing := if byIndex then BY_INDEX else AUTOMATIC, argPos := pos, state := FILL_ALIGN,
                  rest := after[1..]);
    assert c2.rest == "}" + tail;
    BraceAsFill(c2, args, n, tail);
  }

  lemma EmptyHoleText(i: Item, tail: string)
    requires i.Hole? && i.colon && i.spec == NO_SPEC
    ensures ItemText(i) + tail == "{" + (i.index + (":" + ("}" + tail)))
  {
    hide Behind;
    var s := i.spec;
    assert ":" + FillAlignText(s.fillAlign) + PrefixText(s) + s.width + PrecisionText(s) + TypeText(s) == ":";
    assert ItemText(i) == "{" + i.index + ":" + "}";
  }

  lemma OpeningBrace(c: Configuration, args: seq<Argument>, n: nat, tail: string)
    requires c.state == START && c.rest == "{" + tail && ValidRadix(c) && |c.out| < n
    ensures Run(c, args, n) == Run(c.(state := INDEX, rest := tail), args, n)
  {
    assert c.rest[1..] == tail;
    RunStep(c, args, n, c.(state := INDEX, rest := tail));
  }

  lemma BraceAsFill(c: Configuration, args: seq<Argument>, n: nat, tail: string)
    requires c.state == FILL_ALIGN && c.rest == "}" + tail && IsAlign(Head(tail)) && ValidRadix(c) && |c.out| < n
    ensures Run(c, args, n) == Error
  {
    assert c.rest[1..] == tail;
    assert Step(c, args, n) == Failed;
  }

  lemma LiteralRun(c: Configuration, args: seq<Argument>, n: nat, ch: char, tail: string)
    requires c.state == START && c.rest == [ch] + tail && ValidRadix(c) && |c.out| < n && ch != '{'
    ensures var d := c.(rest := tail, out := c.out + [ch]);
            ValidRadix(d) && Run(c, args, n) == Run(d, args, n)
  {
    assert c.rest[1..] == tail;
    RunStep(c, args, n, c.(rest := tail, out := c.out + [ch]));
  }

  /**
   * What a run from a configuration to the end does, when `full` should have been written so far: an error
   * exactly when a placeholder is refused, and otherwise the text, past the end exactly when a prefix overruns.
   */
  ghost predicate RunWrites(c: Configuration, args: seq<Argument>, n: nat, items: seq<Item>, used: nat, full: string)
    requires ValidRadix(c) && ArgumentsExist(items, args, used)
  {
    var o := Run(c, args, n);
    var room := Room(n, |full|);
    if Refused(items, args, used, room) then o == Error
    else
      && o.Done? && Written(o.out, full + Render(items, args, used), n) && |o.out| <= n + 2
      && (|o.out| > n <==> |c.out| > n || Overruns(items, args, used, room))
  }

  /** From any point of a well-formed format on, the machine goes on writing what the format stands for. */
  lemma {:induction false} ItemsRun(items: seq<Item>, c: Configuration, args: seq<Argument>, n: nat,
                                    byIndex: bool, used: nat, full: string)
    requires WellFormed(items, args, byIndex, used) && Counts(c, byIndex, used)
    requires c.state == START && c.rest == Unparse(items) && c.style == DEFAULT_STYLE
    requires Written(c.out, full, n) && |c.out| <= n + 2
    ensures ArgumentsExist(items, args, used) && ValidRadix(c)
    ensures RunWrites(c, args, n, items, used, full)
    decreases |items|
  {
    hide Run, Step, Put, ArgumentPieces, Written, WellFormed, ArgumentsExist, Unparse, Render, Fits, StyleOf,
         Refused, Overruns, PassesEnd, Room, Misread, GoodHole;
    WellFormedArguments(items, args, byIndex, used);
    UnparseUnfolds(items);
    RenderUnfolds(items, args, used);
    WrittenRoom(c.out, full, n);
    if items == [] || |c.out| >= n {
      RunStops(c, args, n);
      NoRoomLeft(items, args, used, Room(n, |full|));
      WrittenGrows(c.out, full, Render(items, args, used), n);
    } else {
      WellFormedUnfolds(items, args, byIndex, used);
      RenderUnfolds(items, args, used);
      if items[0].Literal? {
        var ch := items[0].c;
        WrittenLiteral(c.out, full, ch, n);
        ItemsRun(items[1..], c.(rest := Unparse(items[1..]), out := c.out + [ch]), args, n, byIndex, used, full + [ch]);
        LiteralItemRuns(items, c, args, n, used, full);
      } else if Misread(items[0], Head(Unparse(items[1..]))) {
        MisreadRun(c, args, n, items[0], Unparse(items[1..]), byIndex, used);
        HoleUnfolds(items, args, used, Room(n, |full|));
      } else {
        var a, st := args[ArgumentIndex(items[0].index, used)], StyleOf(items[0].spec);
        var ps := ArgumentPieces(a, st);
        PutWritten(c.out, full, ps, n);
        ArgumentOvershoot(c.out, a, st, n);
        AfterHoleCounts(c, items, args, n, byIndex, used);
        ItemsRun(items[1..], AfterHole(c, items, args, n, byIndex, used), args, n, byIndex, used + 1, full + Text(ps));
        HoleItemRuns(items, c, args, n, byIndex, used, full);
      }
    }
  }

  lemma WrittenLiteral(out: string, full: string, ch: char, n: nat)
    requires Written(out, full, n) && |out| < n
    ensures Written(out + [ch], full + [ch], n)
  {
  }

  lemma UnparseUnfolds(items: seq<Item>)
    ensures Unparse(items) == if items == [] then "" else ItemText(items[0]) + Unparse(items[1..])
  {
  }

  lemma WellFormedUnfolds(items: seq<Item>, args: seq<Argument>, byIndex: bool, used: nat)
    requires WellFormed(items, args, byIndex, used) && items != []
    ensures items[0].Literal? ==> items[0].c != '{' && WellFormed(items[1..], args, byIndex, used)
    ensures items[0].Hole? ==> HoleReads(items, args, byIndex, used) && WellFormed(items[1..], args, byIndex, used + 1)
  {
  }

  predicate HoleReads(items: seq<Item>, args: seq<Argument>, byIndex: bool, used: nat)
    requires items != [] && items[0].Hole?
  {
    var pos := ArgumentIndex(items[0].index, used);
    GoodHole(items[0], byIndex) && pos < |args| && Fits(items[0].spec, args[pos])
  }

  predicate RenderStep(items: seq<Item>, args: seq<Argument>, used: nat)
    requires items != [] && ArgumentsExist(items, args, used)
  {
    match items[0]
    case Literal(c) =>
      ArgumentsExist(items[1..], args, used) && Render(items, args, used) == [c] + Render(items[1..], args, used)
    case Hole(index, _, s) =>
      var pos := ArgumentIndex(index, used);
      && pos < |args| && ArgumentsExist(items[1..], args, used + 1)
      && Render(items, args, used) == Text(ArgumentPieces(args[pos], StyleOf(s))) + Render(items[1..], args, used + 1)
  }

  lemma RenderUnfolds(items: seq<Item>, args: seq<Argument>, used: nat)
    requires ArgumentsExist(items, args, used)
    ensures items == [] ==> Render(items, args, used) == ""
    ensures items != [] ==> RenderStep(items, args, used)
  {
    hide Text, ArgumentPieces, StyleOf, ParseNumber;
  }

  lemma RunStops(c: Configuration, args: seq<Argument>, n: nat)
    requires ValidRadix(c) && (c.rest == "" || |c.out| >= n)
    ensures Run(c, args, n) == Done(c.out)
  {
  }

  lemma WrittenGrows(out: string, full: string, more: string, n: nat)
    requires Written(out, full, n) && (|out| >= n || more == "")
    ensures Written(out, full + more, n)
  {
    assert more == "" ==> full + more == full;
    assert |out| >= n ==> (full + more)[..n] == full[..n];
  }

  lemma WrittenRoom(out: string, full: string, n: nat)
    requires Written(out, full, n)
    ensures |out| < n <==> |full| < n
    ensures |out| < n ==> out == full
    ensures Room(n, |full|) == if |out| < n then n - |out| else 0
  {
  }

  lemma RoomTwice(n: nat, a: nat, b: nat)
    requires a < n
    ensures Room(n - a, b) == Room(n, a + b)
  {
  }

  lemma NoRoomLeft(items: seq<Item>, args: seq<Argument>, used: nat, room: nat)
    requires ArgumentsExist(items, args, used) && (items == [] || room == 0)
    ensures !Refused(items, args, used, room) && !Overruns(items, args, used, room)
  {
  }

  lemma LiteralUnfolds(items: seq<Item>, args: seq<Argument>, used: nat, room: nat)
    requires items != [] && items[0].Literal? && ArgumentsExist(items, args, used) && room > 0
    ensures ArgumentsExist(items[1..], args, used)
    ensures Refused(items, args, used, room) == Refused(items[1..], args, used, room - 1)
    ensures Overruns(items, args, used, room) == Overruns(items[1..], args, used, room - 1)
  {
  }

  lemma HoleUnfolds(items: seq<Item>, args: seq<Argument>, used: nat, room: nat)
    requires items != [] && items[0].Hole? && ArgumentsExist(items, args, used) && room > 0
    ensures ArgumentsExist(items[1..], args, used + 1) && ArgumentIndex(items[0].index, used) < |args|
    ensures var a, st := args[ArgumentIndex(items[0].index, used)], StyleOf(items[0].spec);
            var left := Room(room, |Text(ArgumentPieces(a, st))|);
            && Refused(items, args, used, room)
               == (Misread(items[0], Head(Unparse(items[1..]))) || Refused(items[1..], args, used + 1, left))
            && Overruns(items, args, used, room)
               == (PassesEnd(a, st, room) || Overruns(items[1..], args, used + 1, left))
  {
    hide Text, ArgumentPieces, StyleOf, ParseNumber, PassesEnd, Misread, Room;
  }

  /** A literal in front of a run that is right. */
  lemma LiteralItemRuns(items: seq<Item>, c: Configuration, args: seq<Argument>, n: nat, used: nat, full: string)
    requires items != [] && items[0].Literal? && items[0].c != '{' && ArgumentsExist(items, args, used)
    requires c.state == START && c.rest == Unparse(items) && ValidRadix(c) && |c.out| < n && c.out == full
    requires ArgumentsExist(items[1..], args, used)
    requires RunWrites(c.(rest := Unparse(items[1..]), out := c.out + [items[0].c]), args, n, items[1..], used,
                       full + [items[0].c])
    ensures RunWrites(c, args, n, items, used, full)
  {
    hide Run, Step, Put, ArgumentPieces, Written, ArgumentsExist, Unparse, Render, Refused, Overruns;
    UnparseUnfolds(items);
    RenderUnfolds(items, args, used);
    LiteralRun(c, args, n, items[0].c, Unparse(items[1..]));
    LiteralUnfolds(items, args, used, n - |full|);
    Associative(full, [items[0].c], Render(items[1..], args, used));
  }

  /** A placeholder in front of a run that is right. */
  lemma HoleItemRuns(items: seq<Item>, c: Configuration, args: seq<Argument>, n: nat, byIndex: bool, used: nat,
                     full: string)
    requires items != [] && items[0].Hole? && ArgumentsExist(items, args, used)
    requires HoleReads(items, args, byIndex, used) && !Misread(items[0], Head(Unparse(items[1..])))
    requires c.state == START && c.rest == Unparse(items) && c.style == DEFAULT_STYLE && |c.out| < n && c.out == full
    requires Counts(c, byIndex, used) && ArgumentsExist(items[1..], args, used + 1)
    requires var a, st := args[ArgumentIndex(items[0].index, used)], StyleOf(items[0].spec);
             RunWrites(AfterHole(c, items, args, n, byIndex, used), args, n, items[1..], used + 1,
                       full + Text(ArgumentPieces(a, st)))
    ensures ValidRadix(c) && RunWrites(c, args, n, items, used, full)
  {
    hide Run, Step, Put, ArgumentPieces, ArgumentsExist, Unparse, Render, Refused, Overruns, StyleOf, PassesEnd,
         Misread, GoodHole, Fits, Text, Written;
    var a, st := args[ArgumentIndex(items[0].index, used)], StyleOf(items[0].spec);
    var ps := ArgumentPieces(a, st);
    UnparseUnfolds(items);
    RenderUnfolds(items, args, used);
    HoleRun(c, args, n, items[0], Unparse(items[1..]), byIndex, used);
    ArgumentOvershoot(c.out, a, st, n);
    HoleUnfolds(items, args, used, n - |full|);
    RoomTwice(n, |full|, |Text(ps)|);
    AfterOverrun(c.out, full, ps, n, items[1..], args, used + 1);
    Associative(full, Text(ps), Render(items[1..], args, used + 1));
  }

  /** Behind an argument that passed the end there is no room for another. */
  lemma AfterOverrun(out: string, full: string, ps: seq<Piece>, n: nat, items: seq<Item>, args: seq<Argument>,
                     used: nat)
    requires out == full && |out| < n && ArgumentsExist(items, args, used)
    ensures Written(Put(out, ps, n), full + Text(ps), n)
    ensures |Put(out, ps, n)| > n ==> !Overruns(items, args, used, Room(n, |full + Text(ps)|))
  {
    hide Put, Text, ArgumentsExist, Overruns, Refused;
    PutWritten(out, full, ps, n);
    WrittenRoom(Put(out, ps, n), full + Text(ps), n);
    if |Put(out, ps, n)| > n {
      NoRoomLeft(items, args, used, 0);
    }
  }

  /** Where the machine stands behind the first placeholder. */
  function AfterHole(c: Configuration, items: seq<Item>, args: seq<Argument>, n: nat, byIndex: bool, used: nat)
    : (d: Configuration)
    requires items != [] && items[0].Hole? && ArgumentIndex(items[0].index, used) < |args| && c.style == DEFAULT_STYLE
    ensures ValidRadix(d)
  {
    var pos := ArgumentIndex(items[0].index, used);
    c.(rest := Unparse(items[1..]), listing := if byIndex then BY_INDEX else AUTOMATIC, argPos := pos,
       out := Put(c.out, ArgumentPieces(args[pos], StyleOf(items[0].spec)), n))
  }

  lemma AfterHoleCounts(c: Configuration, items: seq<Item>, args: seq<Argument>, n: nat, byIndex: bool, used: nat)
    requires items != [] && items[0].Hole? && HoleReads(items, args, byIndex, used) && c.style == DEFAULT_STYLE
    ensures Counts(AfterHole(c, items, args, n, byIndex, used), byIndex, used + 1)
  {
    hide Put, ArgumentPieces, StyleOf, Unparse, Fits;
  }

  /**
   * Interpolating a well-formed format fails exactly when a placeholder is refused; otherwise it writes the
   * text the format stands for, as far as the buffer reaches, and returns the number of characters written.
   * It stays inside the buffer exactly when no radix prefix overruns its end.
   */
  lemma InterpolateCorrect(items: seq<Item>, args: seq<Argument>, n: nat, byIndex: bool)
    requires WellFormed(items, args, byIndex, 0)
    ensures ArgumentsExist(items, args, 0)
    ensures var full := Render(items, args, 0);
            var o := Run(Start(Unparse(items)), args, n);
            && (o == Error <==> Refused(items, args, 0, n))
            && (o != Error ==>
                  && o.Done? && |o.out| <= n + 2
                  && (|full| < n ==> o.out == full)
                  && (|full| >= n ==> |o.out| >= n && o.out[..n] == full[..n])
                  && (|o.out| > n <==> Overruns(items, args, 0, n))
                  && (o.out == full[..Min(n, |full|)] <==> !Overruns(items, args, 0, n)))
  {
    hide Run, Unparse, Render, Refused, Overruns;
    ItemsRun(items, Start(Unparse(items)), args, n, byIndex, 0, "");
    var full := Render(items, args, 0);
    assert "" + full == full;
    var o := Run(Start(Unparse(items)), args, n);
    assert o.Done? && |o.out| == n ==> o.out[..n] == o.out;
  }

  /** Formats that specify nothing are neither refused nor do they overrun. */
  predicate Plain(items: seq<Item>) {
    forall i :: 0 <= i < |items| && items[i].Hole? ==> !items[i].colon && !items[i].spec.prefix
  }

  lemma {:induction false} PlainFits(items: seq<Item>, args: seq<Argument>, used: nat, room: nat)
    requires Plain(items) && ArgumentsExist(items, args, used)
    ensures !Refused(items, args, used, room) && !Overruns(items, args, used, room)
  {
    hide ArgumentsExist, Refused, Overruns, Text, ArgumentPieces, Unparse;
    if items == [] || room == 0 {
      NoRoomLeft(items, args, used, room);
    } else if items[0].Literal? {
      LiteralUnfolds(items, args, used, room);
      PlainFits(items[1..], args, used, room - 1);
    } else {
      HoleUnfolds(items, args, used, room);
      var a, st := args[ArgumentIndex(items[0].index, used)], StyleOf(items[0].spec);
      PlainFits(items[1..], args, used + 1, Room(room, |Text(ArgumentPieces(a, st))|));
    }
  }

  /** An integer with its radix in one character of buffer: the second character of the prefix passes the end. */
  lemma OverrunExample()
    ensures Run(Start("{:#x}"), [IntArg(255, 32, true)], 1) == Done("0x")
  {
    hide Run, Step, Put, ArgumentPieces, DetectNumber, NumberText;
    var i := Hole("", true, Spec(NoAlign, true, "", "", 'x'));
    var a, st := IntArg(255, 32, true), Style(' ', '>', true, 0, 0, 16);
    var c := Start("{:#x}");
    HexHole(i);
    ShortNumber();
    assert StyleOf(i.spec) == st;
    HoleRun(c, [a], 1, i, "", false, 0);
    PrefixBehindEnd(a, st);
    RunStops(c.(rest := "", listing := AUTOMATIC, argPos := 0, out := Put("", ArgumentPieces(a, st), 1)), [a], 1);
  }

  lemma HexHole(i: Item)
    requires i == Hole("", true, Spec(NoAlign, true, "", "", 'x'))
    ensures ItemText(i) + "" == "{:#x}"
  {
    hide Run;
  }

  lemma PrefixBehindEnd(a: Argument, st: Style)
    requires a.IntArg? && st == Style(' ', '>', true, 0, 0, 16)
    ensures Put("", ArgumentPieces(a, st), 1) == "0x"
  {
    hide NumberText;
    PutUnfolds5("", ArgumentPieces(a, st), 1);
  }

  lemma ShortNumber()
    ensures NumberText(255, 16) == "FF" && NumberDefined(255, 32, true, 16)
  {
    DigitsUnfold(255, 16, 255);
    DigitsUnfold(15, 16, 254);
  }

  /** An empty specification in front of an alignment character is refused as soon as there is any buffer. */
  lemma RefusedExample(args: seq<Argument>, n: nat)
    requires n > 0
    ensures Run(Start("{:}<"), args, n) == Error
  {
    hide Run;
    var c0 := Start("{:}<");
    assert "{:}<" == "{" + ":}<";
    OpeningBrace(c0, args, n, ":}<");
    var c1 := c0.(state := INDEX, rest := ":}<");
    var c2 := c1.(state := FILL_ALIGN, rest := "}<", listing := AUTOMATIC, argPos := 0);
    assert ":}<"[1..] == "}<" && DetectNumber(":}<") == 0;
    assert Step(c1, args, n) == Next(c2);
    RunStep(c1, args, n, c2);
    assert "}<" == "}" + "<";
    BraceAsFill(c2, args, n, "<");
  }

  /**
   * An address as the kernel logs it: whatever it is, eighteen characters, the first two of which name the
   * radix while the other sixteen read back as the address.
   */
  lemma AddressLogged(v: U64, n: nat)
    requires n >= 18
    ensures var o := Run(Start("{:0=#16x}"), [IntArg(v, 64, false)], n);
            && o.Done? && |o.out| == 18 && o.out[..2] == "0x"
            && Parses(o.out[2..], 16) && Denotes(o.out[2..], 16) == v && Parsed(o.out[2..], 16, 0) == v
  {
    hide Run, Step, Put, ArgumentPieces, DetectNumber, NumberText, Denotes, Parses, Parsed, Value, ParseNumber,
         NumberDefined, Text, Written;
    var s := Spec(FillAnd('0', '='), true, "16", "", 'x');
    var a, st := IntArg(v, 64, false), Style('0', '=', true, 16, 0, 16);
    var c := Start("{:0=#16x}");
    AddressHole();
    AddressDigits(v);
    HoleRun(c, [a], n, Hole("", true, s), "", false, 0);
    AddressText(v, n);
    RunStops(c.(rest := "", listing := AUTOMATIC, argPos := 0, out := Put("", ArgumentPieces(a, st), n)), [a], n);
  }

  lemma AddressHole()
    ensures var s := Spec(FillAnd('0', '='), true, "16", "", 'x');
            && ItemText(Hole("", true, s)) + "" == "{:0=#16x}"
            && StyleOf(s) == Style('0', '=', true, 16, 0, 16) && GoodSpec(s)
  {
    hide Run;
    assert Value("16", 10) == 16 by {
      assert "16"[1..] == "6" && "6"[1..] == "";
      assert Pow(10, 0) == 1 && Pow(10, 1) == 10;
    }
  }

  lemma AddressDigits(v: U64)
    ensures NumberDefined(v, 64, false, 16) && 0 < |NumberText(v, 16)| <= 16
  {
    hide Digits, Pow;
    NumberDefinedExactly(v, 64, false, 16);
    DigitsLength(v, 16, DEF_STRING_PRECISION, 16);
    PowUnfold(16, 0);
    PowUnfold(16, 1);
    PowUnfold(16, 2);
    SquarePow(16, 2);
    SquarePow(16, 4);
    SquarePow(16, 8);
  }

  lemma AddressText(v: U64, n: nat)
    requires n >= 18
    ensures var o := Put("", ArgumentPieces(IntArg(v, 64, false), Style('0', '=', true, 16, 0, 16)), n);
            && |o| == 18 && o[..2] == "0x"
            && Parses(o[2..], 16) && Denotes(o[2..], 16) == v && Parsed(o[2..], 16, 0) == v
  {
    hide Put, ArgumentPieces, Text, NumberText, Denotes, Parses, Parsed, NumberDefined;
    var a, st := IntArg(v, 64, false), Style('0', '=', true, 16, 0, 16);
    var ps := ArgumentPieces(a, st);
    AddressDigits(v);
    ArgumentRendered(a, st);
    ZeroFilledReadsBack(v, 64, false, st);
    PutWritten("", "", ps, n);
    ArgumentOvershoot("", a, st, n);
    assert "" + Text(ps) == Text(ps);
    var o := Put("", ps, n);
    assert |Text(ps)| == 18 && o[..|o|] == o && Text(ps)[..18] == Text(ps);
    assert o == Text(ps) && |"0x"| == 2;
    WrapFits(v);
  }

  /**
   * With '#', no width and a letter for the radix, an integer is its radix, by that very letter, and digits that
   * read back as the integer in the radix the letter stands for.
   */
  lemma RadixIsNamed(s: Spec, v: int, bits: nat, signed: bool)
    requires GoodSpec(s) && s.prefix && s.radixChar != ' ' && s.width == "" && StyleOf(s).align != '^'
    requires Fits(s, IntArg(v, bits, signed))
    ensures var t := Text(ArgumentPieces(IntArg(v, bits, signed), StyleOf(s)));
            var radix := if s.radixChar == 'b' then 2 else if s.radixChar == 'o' then 8 else 16;
            && |t| > 2 && t[0] == '0' && t[1] == s.radixChar
            && Parses(t[2..], radix) && Denotes(t[2..], radix) == v && Parsed(t[2..], radix, 0) == v % TWO_64
  {
    hide ArgumentPieces, Text, NumberText, NumberDefined, Denotes, Parses, Parsed;
    var a, st := IntArg(v, bits, signed), StyleOf(s);
    var text := NumberText(v, st.radix);
    ArgumentRendered(a, st);
    NumberReadsBack(v, bits, signed, st.radix);
    assert Text(ArgumentPieces(a, st))[2..] == text;
    assert |text| > 0 by { TextIsThere(v, st.radix); }
  }

  lemma TextIsThere(v: int, radix: nat)
    requires 0 < radix <= 16
    ensures NumberText(v, radix) != ""
  {
  }
}
