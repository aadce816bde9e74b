/** The colour commands a text stream writes, and what the terminal makes of them (KRE/Stream, App/TerminalStream). */
module ColorRules {
  import opened Machine
  import opened Numerals
  import F = Formatting
  import M = FormatMachine
  import I = FormatItems
  import R = RenderRules
  import opened CommandRules
  import opened TerminalRules

  // ---- what the stream writes ----------------------------------------------------------------------------

  /** A command of the stream's style interface, or text. */
  datatype Op = SetForeground(c: Pixel) | SetBackground(c: Pixel) | ResetStyle | Text(text: string)

  const FMT_BUF_SIZE := 4096
  const FOREGROUND_FORMAT := [ESC] + "[38;2;{};{};{}m"
  const BACKGROUND_FORMAT := [ESC] + "[48;2;{};{};{}m"

  function ColorArguments(c: Pixel): seq<F.Argument> {
    [F.IntArg(c.red, 8, false), F.IntArg(c.green, 8, false), F.IntArg(c.blue, 8, false)]
  }

  /** A colour formatted into a buffer of 4096 characters. */
  function Formatted(fmt: string, c: Pixel): string {
    var o := M.Run(M.Start(fmt), ColorArguments(c), FMT_BUF_SIZE);
    if o.Done? then o.out else ""
  }

  /** The bytes an operation sends. */
  function Bytes(op: Op): string {
    match op
    case SetForeground(c) => Formatted(FOREGROUND_FORMAT, c)
    case SetBackground(c) => Formatted(BACKGROUND_FORMAT, c)
    case ResetStyle => [ESC] + "[0m"
    case Text(text) => text
  }

  function AllBytes(ops: seq<Op>): string {
    if ops == [] then "" else Bytes(ops[0]) + AllBytes(ops[1..])
  }

  // ---- the formatted command -----------------------------------------------------------------------------

  const HOLE := I.Hole("", false, I.NO_SPEC)

  function Literals(s: string): (r: seq<I.Item>)
    ensures |r| == |s|
  {
    if s == "" then [] else [I.Literal(s[0])] + Literals(s[1..])
  }

  /** The items are a well-formed format, written fmt, that stands for text. */
  ghost predicate StandsFor(items: seq<I.Item>, args: seq<F.Argument>, used: nat, fmt: string, text: string) {
    && I.WellFormed(items, args, false, used) && I.ArgumentsExist(items, args, used) && I.Plain(items)
    && I.Unparse(items) == fmt && I.Render(items, args, used) == text
  }

  lemma LiteralStands(ch: char, rest: seq<I.Item>, args: seq<F.Argument>, used: nat, fmt: string, text: string)
    requires ch != '{' && ch != '\0' && StandsFor(rest, args, used, fmt, text)
    ensures StandsFor([I.Literal(ch)] + rest, args, used, [ch] + fmt, [ch] + text)
  {
    var items := [I.Literal(ch)] + rest;
    assert items[0] == I.Literal(ch) && items[1..] == rest;
    assert forall i :: 0 <= i < |items| && items[i].Hole? ==> items[i] == rest[i - 1];
  }

  lemma {:induction false} LiteralsStand(s: string, rest: seq<I.Item>, args: seq<F.Argument>, used: nat, fmt: string,
                                         text: string)
    requires (forall i :: 0 <= i < |s| ==> s[i] != '{' && s[i] != '\0') && StandsFor(rest, args, used, fmt, text)
    ensures StandsFor(Literals(s) + rest, args, used, s + fmt, s + text)
  {
    hide StandsFor;
    if s == "" {
      assert Literals(s) + rest == rest && s + fmt == fmt && s + text == text;
    } else {
      LiteralsStand(s[1..], rest, args, used, fmt, text);
      LiteralStands(s[0], Literals(s[1..]) + rest, args, used, s[1..] + fmt, s[1..] + text);
      assert Literals(s) + rest == [I.Literal(s[0])] + (Literals(s[1..]) + rest);
      assert s + fmt == [s[0]] + (s[1..] + fmt) && s + text == [s[0]] + (s[1..] + text);
    }
  }

  lemma DecimalRendered(n: U8)
    ensures F.Text(F.ArgumentPieces(F.IntArg(n, 8, false), F.DEFAULT_STYLE)) == Decimal(n)
    ensures M.ArgumentDefined(F.IntArg(n, 8, false), 10)
  {
    DecimalDigits(n);
    hide Digits;
    R.Text5(F.NumberPieces(n, F.DEFAULT_STYLE));
  }

  /** A placeholder for a colour component. */
  lemma HoleStands(rest: seq<I.Item>, args: seq<F.Argument>, used: nat, fmt: string, text: string, n: U8)
    requires used < |args| && args[used] == F.IntArg(n, 8, false) && StandsFor(rest, args, used + 1, fmt, text)
    ensures StandsFor([HOLE] + rest, args, used, "{}" + fmt, Decimal(n) + text)
  {
    hide Digits, F.Text, F.ArgumentPieces, M.ArgumentDefined;
    var items := [HOLE] + rest;
    assert items[0] == HOLE && items[1..] == rest;
    DecimalRendered(n);
    assert I.StyleOf(I.NO_SPEC) == F.DEFAULT_STYLE;
    assert forall i :: 0 < i < |items| ==> items[i] == rest[i - 1];
    assert I.ItemText(HOLE) == "{}";
  }

  /** A placeholder with a literal character behind it. */
  lemma HoleThen(ch: char, rest: seq<I.Item>, args: seq<F.Argument>, used: nat, fmt: string, text: string, n: U8)
    requires used < |args| && args[used] == F.IntArg(n, 8, false) && StandsFor(rest, args, used + 1, fmt, text)
    requires ch != '{' && ch != '\0'
    ensures StandsFor([HOLE] + ([I.Literal(ch)] + rest), args, used, "{}" + ([ch] + fmt), Decimal(n) + ([ch] + text))
  {
    hide StandsFor, Decimal;
    LiteralStands(ch, rest, args, used + 1, fmt, text);
    HoleStands([I.Literal(ch)] + rest, args, used, [ch] + fmt, [ch] + text, n);
  }

  /** A format that stands for a text formats to it, when the buffer has room. */
  lemma StandsForFormats(items: seq<I.Item>, c: Pixel, fmt: string, text: string)
    requires StandsFor(items, ColorArguments(c), 0, fmt, text) && |text| < FMT_BUF_SIZE
    ensures Formatted(fmt, c) == text && |Formatted(fmt, c)| < FMT_BUF_SIZE
  {
    I.InterpolateCorrect(items, ColorArguments(c), FMT_BUF_SIZE, false);
    I.PlainFits(items, ColorArguments(c), 0, FMT_BUF_SIZE);
  }

  /** The formatted colour is a command with the selector and the three components as its arguments. */
  lemma FormattedColor(selector: U8, c: Pixel)
    ensures Formatted([ESC, '['] + Decimal(selector) + ";2;{};{};{}m", c)
         == CommandBytes('m', [selector, 2, c.red, c.green, c.blue])
    ensures |Formatted([ESC, '['] + Decimal(selector) + ";2;{};{};{}m", c)| < FMT_BUF_SIZE
  {
    hide StandsFor, Decimal, Literals, CommandBytes, Formatted;
    var head := [ESC, '['] + Decimal(selector) + ";2;";
    var items, fmt, text := ThreeHoles(c);
    HeadIsLiteral(selector);
    LiteralsStand(head, items, ColorArguments(c), 0, fmt, text);
    ColorFormat(Decimal(selector));
    ColorBytes(selector, c);
    ColorLength(selector, c);
    StandsForFormats(Literals(head) + items, c, head + fmt, head + text);
  }

  lemma HeadIsLiteral(selector: U8)
    ensures var head := [ESC, '['] + Decimal(selector) + ";2;";
            forall i :: 0 <= i < |head| ==> head[i] != '{' && head[i] != '\0'
  {
    DecimalDigits(selector);
    hide Decimal;
  }

  lemma ColorLength(selector: U8, c: Pixel)
    ensures |Decimal(selector)| + |Decimal(c.red)| + |Decimal(c.green)| + |Decimal(c.blue)| <= 12
  {
    DecimalDigits(selector);
    DecimalDigits(c.red);
    DecimalDigits(c.green);
    DecimalDigits(c.blue);
  }

  /** The part of a colour format behind the selector. */
  lemma ThreeHoles(c: Pixel) returns (items: seq<I.Item>, fmt: string, text: string)
    ensures fmt == "{}" + ([';'] + ("{}" + ([';'] + ("{}" + (['m'] + "")))))
    ensures text == Decimal(c.red) + ([';'] + (Decimal(c.green) + ([';'] + (Decimal(c.blue) + (['m'] + "")))))
    ensures StandsFor(items, ColorArguments(c), 0, fmt, text)
  {
    var args := ColorArguments(c);
    assert StandsFor([], args, 3, "", "");
    ArgumentsOf(c);
    hide StandsFor, Decimal, ColorArguments;
    HoleThen('m', [], args, 2, "", "", c.blue);
    items, fmt, text := [HOLE] + ([I.Literal('m')] + []), "{}" + (['m'] + ""), Decimal(c.blue) + (['m'] + "");
    HoleThen(';', items, args, 1, fmt, text, c.green);
    items, fmt, text := [HOLE] + ([I.Literal(';')] + items), "{}" + ([';'] + fmt), Decimal(c.green) + ([';'] + text);
    HoleThen(';', items, args, 0, fmt, text, c.red);
    items, fmt, text := [HOLE] + ([I.Literal(';')] + items), "{}" + ([';'] + fmt), Decimal(c.red) + ([';'] + text);
  }

  lemma ArgumentsOf(c: Pixel)
    ensures var args := ColorArguments(c);
            |args| == 3 && args[0] == F.IntArg(c.red, 8, false) && args[1] == F.IntArg(c.green, 8, false)
            && args[2] == F.IntArg(c.blue, 8, false)
  {
  }

  lemma ColorFormat(s: string)
    ensures [ESC, '['] + s + ";2;" + ("{}" + ([';'] + ("{}" + ([';'] + ("{}" + (['m'] + ""))))))
         == [ESC, '['] + s + ";2;{};{};{}m"
  {
    assert "{}" + ([';'] + ("{}" + ([';'] + ("{}" + (['m'] + ""))))) == "{};{};{}m";
    assert ";2;" + "{};{};{}m" == ";2;{};{};{}m";
    Associative([ESC, '['] + s, ";2;", "{};{};{}m");
  }

  lemma ColorBytes(selector: U8, c: Pixel)
    ensures var r, g, b := Decimal(c.red), Decimal(c.green), Decimal(c.blue);
            [ESC, '['] + Decimal(selector) + ";2;" + (r + ([';'] + (g + ([';'] + (b + (['m'] + ""))))))
            == CommandBytes('m', [selector, 2, c.red, c.green, c.blue])
  {
    FiveArguments(selector, c);
    hide Decimal, ArgumentList;
    Join([ESC, '['], Decimal(selector), Decimal(c.red), Decimal(c.green), Decimal(c.blue));
  }

  lemma Join(h: string, s: string, r: string, g: string, b: string)
    ensures h + s + ";2;" + (r + ([';'] + (g + ([';'] + (b + (['m'] + ""))))))
         == h + (s + (";" + ("2" + (";" + (r + (";" + (g + (";" + b)))))))) + ['m']
  {
    var tail := r + (";" + (g + (";" + b)));
    assert r + ([';'] + (g + ([';'] + (b + (['m'] + ""))))) == tail + ['m'];
    assert ";2;" + (tail + ['m']) == (";" + ("2" + (";" + tail))) + ['m'];
    Associative(h + s, ";2;", tail + ['m']);
    var x := ";" + ("2" + (";" + tail));
    assert h + s + (x + ['m']) == h + (s + x) + ['m'];
  }

  lemma FiveArguments(selector: U8, c: Pixel)
    ensures ArgumentList([selector, 2, c.red, c.green, c.blue])
         == Decimal(selector)
           + (";" + ("2" + (";" + (Decimal(c.red) + (";" + (Decimal(c.green) + (";" + Decimal(c.blue))))))))
  {
    assert Decimal(2) == "2" by { DigitsUnfold(2, 10, 255); }
    hide Decimal, ArgumentList;
    ArgumentListStep(c.green, [c.blue]);
    ArgumentListStep(c.red, [c.green, c.blue]);
    ArgumentListStep(2, [c.red, c.green, c.blue]);
    ArgumentListStep(selector, [2, c.red, c.green, c.blue]);
    ArgumentListOne(c.blue);
    assert [c.green] + [c.blue] == [c.green, c.blue];
    assert [c.red] + [c.green, c.blue] == [c.red, c.green, c.blue];
    assert [2] + [c.red, c.green, c.blue] == [2, c.red, c.green, c.blue];
    assert [selector] + [2, c.red, c.green, c.blue] == [selector, 2, c.red, c.green, c.blue];
  }

  lemma ArgumentListOne(n: U8)
    ensures ArgumentList([n]) == Decimal(n)
  {
  }

  lemma ArgumentListStep(n: U8, rest: seq<U8>)
    requires rest != []
    ensures ArgumentList([n] + rest) == Decimal(n) + (";" + ArgumentList(rest))
  {
    hide Decimal;
    assert ([n] + rest)[1..] == rest;
    Associative(Decimal(n), ";", ArgumentList(rest));
  }

  // ---- colours -------------------------------------------------------------------------------------------

  /** The colour a command carries: red, green and blue. */
  function Opaque(c: Pixel): Pixel { c.(alpha := 0) }

  function Colored(s: Screen, op: Op): Screen {
    match op
    case SetForeground(c) => s.(fg := Opaque(c))
    case SetBackground(c) => s.(bg := Opaque(c))
    case ResetStyle => s.(fg := s.defaultFg, bg := s.defaultBg)
    case Text(_) => s
  }

  /**
   * The bytes of a colour command set exactly that colour (and record the buffered text in the old one); those
   * of a reset restore both defaults. Nothing is drawn, and the parser is clean again.
   */
  lemma ColorArrives(t: Terminal, op: Op, e: Eraser)
    requires Good(t) && t.parser == CLEAN && !op.Text?
    ensures WriteAll(t, Bytes(op), e) == Terminal(CLEAN, Colored(StyleLastLine(t.screen), op))
  {
    hide GoodScreen, StyleLastLine, Bytes, CommandBytes, WriteAll, Decimal;
    if op.ResetStyle? {
      ResetBytes();
      CommandArrives(t, 'm', [0], e);
    } else {
      ColorReceived(t, op, e);
    }
  }

  /** A colour format interpolates without error, and inside the buffer. */
  ghost predicate FitsBuffer(fmt: string, c: Pixel) {
    var o := M.Run(M.Start(fmt), ColorArguments(c), FMT_BUF_SIZE);
    o.Done? && |o.out| <= FMT_BUF_SIZE
  }

  lemma ColorFormatted(c: Pixel)
    ensures FitsBuffer(FOREGROUND_FORMAT, c) && FitsBuffer(BACKGROUND_FORMAT, c)
  {
    hide M.Run, Decimal, ArgumentList;
    TwoDigits();
    FormattedColor(38, c);
    FormattedColor(48, c);
    assert [ESC, '['] + "38" + ";2;{};{};{}m" == FOREGROUND_FORMAT;
    assert [ESC, '['] + "48" + ";2;{};{};{}m" == BACKGROUND_FORMAT;
  }

  lemma TwoDigits()
    ensures Decimal(38) == "38" && Decimal(48) == "48" && Decimal(0) == "0"
  {
    hide Decimal;
    ShortDecimal(38);
    ShortDecimal(48);
    ShortDecimal(0);
  }

  lemma ResetBytes()
    ensures Bytes(ResetStyle) == CommandBytes('m', [0])
  {
    TwoDigits();
    hide Decimal;
    assert [ESC] + "[0m" == [ESC, '['] + "0" + ['m'];
  }

  // ---- colours behind an aborted sequence ------------------------------------------------------------------

  /** The parser holds nothing but at most a zero. */
  predicate HoldsNothing(p: Parser) { p.args == [] && (p.digits == "" || p.digits == "0") }

  /**
   * Wherever text may stand, a colour command sets its colour if the parser holds nothing but at most a zero;
   * behind any other aborted sequence both colours stay as they are.
   */
  lemma ColorReceived(t: Terminal, op: Op, e: Eraser)
    requires Good(t) && t.parser.state == CHARACTER && (op.SetForeground? || op.SetBackground?)
    ensures var r := WriteAll(t, Bytes(op), e);
            if HoldsNothing(t.parser) then r == Terminal(CLEAN, Colored(StyleLastLine(t.screen), op))
            else ColorsOf(r.screen) == ColorsOf(t.screen)
  {
    hide GoodScreen, StyleLastLine, Bytes, CommandBytes, WriteAll, Decimal, Value, Receive, Visible, ArgumentValue;
    var selector: U8, c := if op.SetForeground? then 38 else 48, op.c;
    var args := [selector, 2, c.red, c.green, c.blue];
    TwoDigits();
    ColorCommand(op);
    CommandReceived(t, 'm', args, e);
    ReceivedArguments(t.parser.args, t.parser.digits, 'm', args);
    if t.parser.args == [] && |t.parser.digits| <= 1 {
      OneHeldDigit(t.parser.digits, selector);
      var first := ArgumentValue(t.parser.digits + Decimal(selector));
      assert [] + [first] + args[1..] == [first, 2, c.red, c.green, c.blue];
      Selected(t.screen, op, first);
    }
  }

  lemma ColorCommand(op: Op)
    requires op.SetForeground? || op.SetBackground?
    ensures var selector: U8 := if op.SetForeground? then 38 else 48;
            Bytes(op) == CommandBytes('m', [selector, 2, op.c.red, op.c.green, op.c.blue])
  {
    hide Formatted, CommandBytes, Decimal;
    TwoDigits();
    FormattedColor(if op.SetForeground? then 38 else 48, op.c);
    assert [ESC, '['] + "38" + ";2;{};{};{}m" == FOREGROUND_FORMAT;
    assert [ESC, '['] + "48" + ";2;{};{};{}m" == BACKGROUND_FORMAT;
  }

  /** A digit in front of 38 or 48 makes another selector of it, and never one that changes colours. */
  lemma OneHeldDigit(digits: string, selector: U8)
    requires (selector == 38 || selector == 48) && |digits| <= 1 && (digits == "" || IsDecimal(digits[0]))
    ensures var first := ArgumentValue(digits + Decimal(selector));
            if digits == "" || digits == "0" then first == selector else first != 38 && first != 48 && first != 0
  {
    hide Decimal, Value;
    TwoDigits();
    OwnValue(selector);
    if digits == "" {
      assert digits + Decimal(selector) == Decimal(selector);
    } else {
      var d := Decimal(selector);
      assert digits == [digits[0]] && digits + d == digits + [d[0]] + [d[1]];
      InFront(digits + [d[0]], d[1]);
      InFront(digits, d[0]);
      InFront("", digits[0]);
      NoValue();
      assert "" + [digits[0]] == digits;
    }
  }

  lemma Selected(s: Screen, op: Op, first: U8)
    requires GoodScreen(s) && (op.SetForeground? || op.SetBackground?)
    ensures var r := SelectGraphics(s, [first, 2, op.c.red, op.c.green, op.c.blue]);
            && (first == (if op.SetForeground? then 38 else 48) ==> r == Colored(StyleLastLine(s), op))
            && (first != 38 && first != 48 && first != 0 ==> ColorsOf(r) == ColorsOf(s))
  {
    hide GoodScreen;
  }

  /** Five arguments of a sequence that `x` ends, and the colour written next is lost. */
  lemma LostColorExample(t: Terminal, c: Pixel, e: Eraser)
    requires Good(t) && t.parser == CLEAN
    ensures AbortedBytes([1, 2, 3, 4, 5], "", 'x') == [ESC] + "[1;2;3;4;5;x"
    ensures var u := WriteAll(t, AbortedBytes([1, 2, 3, 4, 5], "", 'x'), e);
            && u.parser == Parser(CHARACTER, [1, 2, 3, 4, 5], "")
            && ColorsOf(WriteAll(u, Bytes(SetForeground(c)), e).screen) == ColorsOf(u.screen)
  {
    hide GoodScreen, AbortedBytes, WriteAll, Bytes, ColorsOf, Perform;
    FiveBytes();
    AbortKeeps(t, [1, 2, 3, 4, 5], "", 'x', e);
    AlwaysGood(t, AbortedBytes([1, 2, 3, 4, 5], "", 'x'), e);
    ColorReceived(WriteAll(t, AbortedBytes([1, 2, 3, 4, 5], "", 'x'), e), SetForeground(c), e);
  }

  lemma FiveBytes()
    ensures AbortedBytes([1, 2, 3, 4, 5], "", 'x') == [ESC] + "[1;2;3;4;5;x"
  {
    hide Decimal, Separated;
    NothingSeparated();
    OneDigitFirst(5, []);
    OneDigitFirst(4, [5]);
    OneDigitFirst(3, [4, 5]);
    OneDigitFirst(2, [3, 4, 5]);
    OneDigitFirst(1, [2, 3, 4, 5]);
    assert [5] + [] == [5] && [4] + [5] == [4, 5] && [3] + [4, 5] == [3, 4, 5] && [2] + [3, 4, 5] == [2, 3, 4, 5];
    assert [1] + [2, 3, 4, 5] == [1, 2, 3, 4, 5];
    assert Separated([1, 2, 3, 4, 5]) == "1;2;3;4;5;";
    assert "" + ['x'] == "x" && [ESC, '['] + ("1;2;3;4;5;" + "x") == [ESC] + "[1;2;3;4;5;x";
  }

  lemma NothingSeparated()
    ensures Separated([]) == ""
  {
  }

  lemma OneDigitFirst(n: U8, args: seq<U8>)
    requires n < 10
    ensures Separated([n] + args) == [HexChar(n), ';'] + Separated(args)
  {
    hide Decimal;
    ShortDecimal(n);
    assert ([n] + args)[1..] == args;
  }

  // ---- whole programs of a stream ------------------------------------------------------------------------

  predicate AllPlain(ops: seq<Op>) { forall i :: 0 <= i < |ops| && ops[i].Text? ==> Plain(ops[i].text) }

  function After(op: Op, c: Colors, defaults: Colors): Colors {
    match op
    case SetForeground(p) => c.(fg := Opaque(p))
    case SetBackground(p) => c.(bg := Opaque(p))
    case ResetStyle => defaults
    case Text(_) => c
  }

  /** The colours after a list of operations: those set last, unless a reset came later. */
  function FinalColors(ops: seq<Op>, c: Colors, defaults: Colors): Colors {
    if ops == [] then c else FinalColors(ops[1..], After(ops[0], c, defaults), defaults)
  }

  /** What a list of operations is meant to show: every text in the colours in force. */
  function Painting(ops: seq<Op>, c: Colors, defaults: Colors): seq<Ink> {
    if ops == [] then []
    else
      (if ops[0].Text? then Visible(ops[0].text, c.bg, c.fg) else [])
      + Painting(ops[1..], After(ops[0], c, defaults), defaults)
  }

  lemma OpArrives(t: Terminal, op: Op, e: Eraser)
    requires Good(t) && t.parser == CLEAN && (op.Text? ==> Plain(op.text))
    ensures var r := WriteAll(t, Bytes(op), e);
            r.parser == CLEAN && Good(r)
            && Shows(t.screen, r.screen, if op.Text? then Visible(op.text, t.screen.bg, t.screen.fg) else [],
                     After(op, ColorsOf(t.screen), DefaultsOf(t.screen)))
  {
    AlwaysGood(t, Bytes(op), e);
    hide GoodScreen;
    if op.Text? {
      TextArrives(t, op.text, e);
    } else {
      ColorArrives(t, op, e);
    }
  }

  /**
   * Whatever a stream writes through its interface, the terminal shows what is meant: each text in the
   * colours set last before it, nothing of the commands themselves, and the last colours stay in force.
   */
  lemma {:induction false} ProgramArrives(t: Terminal, ops: seq<Op>, e: Eraser)
    requires Good(t) && t.parser == CLEAN && AllPlain(ops)
    ensures var r := WriteAll(t, AllBytes(ops), e);
            var c, d := ColorsOf(t.screen), DefaultsOf(t.screen);
            r.parser == CLEAN && Shows(t.screen, r.screen, Painting(ops, c, d), FinalColors(ops, c, d))
    decreases |ops|
  {
    hide GoodScreen, Write, Bytes;
    if ops == [] {
      assert Inks(t.screen.glyphs) + [] == Inks(t.screen.glyphs);
    } else {
      var c, d := ColorsOf(t.screen), DefaultsOf(t.screen);
      OpArrives(t, ops[0], e);
      var u := WriteAll(t, Bytes(ops[0]), e);
      WriteAllAppend(t, Bytes(ops[0]), AllBytes(ops[1..]), e);
      ProgramArrives(u, ops[1..], e);
      var c1 := After(ops[0], c, d);
      ShowsMore(t.screen, u.screen, WriteAll(u, AllBytes(ops[1..]), e).screen,
                if ops[0].Text? then Visible(ops[0].text, c.bg, c.fg) else [],
                Painting(ops[1..], c1, d), c1, FinalColors(ops[1..], c1, d));
    }
  }
}
