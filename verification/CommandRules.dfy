/** Control sequences: what the bytes of a command do, whatever earlier sequences left in the parser. */
module CommandRules {
  import opened Machine
  import opened Numerals
  import F = Formatting
  import R = RenderRules
  import opened TerminalRules

  // ---- control sequences ---------------------------------------------------------------------------------

  function Decimal(n: U8): string { Digits(n, 10, F.DEF_STRING_PRECISION) }

  function ArgumentList(args: seq<U8>): string {
    if args == [] then ""
    else if |args| == 1 then Decimal(args[0])
    else Decimal(args[0]) + ";" + ArgumentList(args[1..])
  }

  /** A control sequence (ECMA-48, section 5.4): introducer, arguments in decimal, final character. */
  function CommandBytes(selector: char, args: seq<U8>): string {
    [ESC, '['] + ArgumentList(args) + [selector]
  }

  /** A colour component has at most three decimal digits, and they read back as the component. */
  lemma DecimalDigits(n: U8)
    ensures 1 <= |Decimal(n)| <= 3 && Value(Decimal(n), 10) == n
    ensures forall i :: 0 <= i < |Decimal(n)| ==> IsDecimal(Decimal(n)[i])
  {
    hide Digits, LowDigits, Value;
    DigitsUnfold(n, 10, 255);
    DigitsUnfold(n / 10, 10, 254);
    DigitsUnfold(n / 10 / 10, 10, 253);
    R.DigitsExact(n, 10, 255);
  }

  lemma {:induction false} DigitsFeed(t: Terminal, s: string, e: Eraser)
    requires Good(t) && t.parser.state == CSI_ARG && |t.parser.args| < CSI_ARGV_BUF_SIZE
    requires |t.parser.digits| + |s| <= DIGIT_BUF_SIZE && forall i :: 0 <= i < |s| ==> IsDecimal(s[i])
    ensures WriteAll(t, s, e) == t.(parser := t.parser.(digits := t.parser.digits + s))
    decreases |s|
  {
    hide GoodScreen;
    if s == "" {
      assert t.parser.digits + s == t.parser.digits;
    } else {
      var u := Write(t, s[0], e);
      assert u == t.(parser := t.parser.(digits := t.parser.digits + [s[0]]));
      DigitsFeed(u, s[1..], e);
      assert t.parser.digits + [s[0]] + s[1..] == t.parser.digits + s;
    }
  }

  /** Reading one argument, behind the digits already held, and the character behind it. */
  lemma ArgumentFeed(t: Terminal, n: U8, end: char, e: Eraser)
    requires Good(t) && t.parser.state == CSI_ARG && |t.parser.args| < CSI_ARGV_BUF_SIZE
    requires |t.parser.digits| + |Decimal(n)| <= DIGIT_BUF_SIZE && (end == ';' || IsSelector(end))
    ensures var args := t.parser.args + [ArgumentValue(t.parser.digits + Decimal(n))];
            WriteAll(t, Decimal(n) + [end], e) ==
            if end == ';' then t.(parser := t.parser.(args := args, digits := ""))
            else Terminal(CLEAN, Execute(t.screen, end, args, e))
  {
    hide GoodScreen, GoodParser, Execute, Value, Decimal, Feed, WriteAll, Write, IsSelector, ArgumentValue;
    DecimalDigits(n);
    DigitsFeed(t, Decimal(n), e);
    WriteAllAppend(t, Decimal(n), [end], e);
    var u := t.(parser := t.parser.(digits := t.parser.digits + Decimal(n)));
    OneByte(u, end, e);
    EndFeed(u, end, e);
  }

  /** The character behind the digits of an argument, or behind none. */
  lemma EndFeed(t: Terminal, end: char, e: Eraser)
    requires GoodScreen(t.screen) && t.parser.state == CSI_ARG
    requires |t.parser.args| < CSI_ARGV_BUF_SIZE && (end == ';' || IsSelector(end))
    ensures var args := t.parser.args + [ArgumentValue(t.parser.digits)];
            Write(t, end, e) ==
            if end == ';' then t.(parser := t.parser.(args := args, digits := ""))
            else Terminal(CLEAN, Execute(t.screen, end, args, e))
  {
    hide GoodScreen, Execute, ArgumentValue;
  }

  lemma OneByte(t: Terminal, ch: char, e: Eraser)
    requires GoodScreen(t.screen)
    ensures WriteAll(t, [ch], e) == Write(t, ch, e)
  {
    hide GoodScreen, Write;
    assert [ch][1..] == "";
    assert WriteAll(t, [ch], e) == WriteAll(Write(t, ch, e), "", e);
  }

  lemma Introducer(t: Terminal, body: string, e: Eraser)
    requires GoodScreen(t.screen) && t.parser.state == CHARACTER
    ensures WriteAll(t, [ESC, '['] + body, e) == WriteAll(t.(parser := t.parser.(state := CSI_ARG)), body, e)
  {
    hide GoodScreen;
    var bytes := [ESC, '['] + body;
    assert bytes[1..][1..] == body;
    var u := Write(t, bytes[0], e);
    assert u == t.(parser := t.parser.(state := CSI_BEGIN));
    assert Write(u, bytes[1..][0], e) == t.(parser := t.parser.(state := CSI_ARG));
  }

  // ---- text ----------------------------------------------------------------------------------------------

  /** A character as it appears: with the colours it is drawn in. */
  datatype Ink = Ink(ch: char, bg: Pixel, fg: Pixel)

  function Inks(gs: seq<Glyph>): (r: seq<Ink>)
    ensures |r| == |gs| && forall i :: 0 <= i < |gs| ==> r[i] == Ink(gs[i].ch, gs[i].bg, gs[i].fg)
  {
    seq(|gs|, i requires 0 <= i < |gs| => Ink(gs[i].ch, gs[i].bg, gs[i].fg))
  }

  /** The characters of a text that leave a glyph: all but control codes and the zero character. */
  function Visible(text: string, bg: Pixel, fg: Pixel): seq<Ink> {
    if text == "" then []
    else (if IsControl(text[0]) || text[0] == '\0' then [] else [Ink(text[0], bg, fg)]) + Visible(text[1..], bg, fg)
  }

  /** Texts must not begin escape sequences; tabs, whose width depends on the column, are left out. */
  predicate Plain(text: string) { forall i :: 0 <= i < |text| ==> text[i] != ESC && text[i] != '\t' }

  /** The two current colours. */
  datatype Colors = Colors(bg: Pixel, fg: Pixel)

  function ColorsOf(s: Screen): Colors { Colors(s.bg, s.fg) }

  function DefaultsOf(s: Screen): Colors { Colors(s.defaultBg, s.defaultFg) }

  /** r shows the inks of s and then more, in colours c. */
  ghost predicate Shows(s: Screen, r: Screen, more: seq<Ink>, c: Colors) {
    Inks(r.glyphs) == Inks(s.glyphs) + more && ColorsOf(r) == c && DefaultsOf(r) == DefaultsOf(s)
  }

  lemma ShowsMore(s: Screen, r: Screen, q: Screen, m: seq<Ink>, n: seq<Ink>, c: Colors, d: Colors)
    requires Shows(s, r, m, c) && Shows(r, q, n, d)
    ensures Shows(s, q, m + n, d)
  {
  }

  /** One plain character outside control sequences. */
  lemma PlainByte(t: Terminal, ch: char, e: Eraser)
    requires GoodScreen(t.screen) && t.parser.state == CHARACTER && ch != ESC && ch != '\t'
    ensures Write(t, ch, e).parser == t.parser
    ensures Shows(t.screen, Write(t, ch, e).screen,
                  if IsControl(ch) || ch == '\0' then [] else [Ink(ch, t.screen.bg, t.screen.fg)], ColorsOf(t.screen))
  {
  }

  lemma {:induction false} TextArrives(t: Terminal, text: string, e: Eraser)
    requires Good(t) && t.parser.state == CHARACTER && Plain(text)
    ensures var r := WriteAll(t, text, e);
            r.parser == t.parser && Good(r)
            && Shows(t.screen, r.screen, Visible(text, t.screen.bg, t.screen.fg), ColorsOf(t.screen))
    decreases |text|
  {
    hide GoodScreen, Write;
    AlwaysGood(t, text, e);
    if text != "" {
      var u := Write(t, text[0], e);
      PlainByte(t, text[0], e);
      WriteKeeps(t, text[0], e);
      TextArrives(u, text[1..], e);
      var first := if IsControl(text[0]) || text[0] == '\0' then [] else [Ink(text[0], t.screen.bg, t.screen.fg)];
      ShowsMore(t.screen, u.screen, WriteAll(u, text[1..], e).screen, first,
                Visible(text[1..], t.screen.bg, t.screen.fg), ColorsOf(t.screen), ColorsOf(t.screen));
    }
  }

  // ---- commands and what earlier sequences left behind -----------------------------------------------------

  /** A command is carried out with some arguments, or aborted and the rest of its bytes is printed. */
  datatype Reception = Carried(args: seq<U8>) | Printed(held: seq<U8>, digits: string, text: string)

  /**
   * What becomes of a command when the parser already holds arguments and digits: they come first. The digits
   * of an argument that finds no room abort the sequence.
   */
  function Receive(held: seq<U8>, digits: string, selector: char, args: seq<U8>): (r: Reception)
    requires |digits| <= DIGIT_BUF_SIZE
    decreases |args|
  {
    if args == [] then Carried(if |held| < CSI_ARGV_BUF_SIZE then held + [ArgumentValue(digits)] else held)
    else
      var first := Decimal(args[0]);
      var room := DIGIT_BUF_SIZE - |digits|;
      if |held| >= CSI_ARGV_BUF_SIZE then Printed(held, digits, ArgumentList(args) + [selector])
      else if room < |first| then
        Printed(held, digits + first[..room], first[room..] + (Following(args) + [selector]))
      else
        var now := held + [ArgumentValue(digits + first)];
        if |args| == 1 then Carried(now) else Receive(now, "", selector, args[1..])
  }

  /** The bytes between the first argument of a list and the selector. */
  function Following(args: seq<U8>): string { if |args| <= 1 then "" else ";" + ArgumentList(args[1..]) }

  lemma FirstArgument(args: seq<U8>)
    requires args != []
    ensures ArgumentList(args) == Decimal(args[0]) + Following(args)
  {
    hide Decimal;
    if |args| == 1 {
      assert Decimal(args[0]) + "" == Decimal(args[0]);
    } else {
      Associative(Decimal(args[0]), ";", ArgumentList(args[1..]));
    }
  }

  ghost predicate Received(t: Terminal, bytes: string, selector: char, r: Reception, e: Eraser)
    requires GoodScreen(t.screen)
  {
    match r
    case Carried(args) => WriteAll(t, bytes, e) == Terminal(CLEAN, Execute(t.screen, selector, args, e))
    case Printed(held, digits, text) =>
      WriteAll(t, bytes, e) == WriteAll(Terminal(Parser(CHARACTER, held, digits), t.screen), text, e)
  }

  /** A digit without room ends the sequence, and is printed. */
  lemma DigitAborts(t: Terminal, text: string, e: Eraser)
    requires Good(t) && t.parser.state == CSI_ARG && text != "" && IsDecimal(text[0])
    requires |t.parser.digits| == DIGIT_BUF_SIZE || |t.parser.args| == CSI_ARGV_BUF_SIZE
    ensures WriteAll(t, text, e) == WriteAll(t.(parser := t.parser.(state := CHARACTER)), text, e)
  {
    hide GoodScreen, WriteAll;
    var u := t.(parser := t.parser.(state := CHARACTER));
    assert Write(u, text[0], e) == Write(t, text[0], e);
    FirstByte(u, text, e);
    FirstByte(t, text, e);
  }

  lemma FirstByte(t: Terminal, msg: string, e: Eraser)
    requires GoodScreen(t.screen) && msg != ""
    ensures WriteAll(t, msg, e) == WriteAll(Write(t, msg[0], e), msg[1..], e)
  {
  }

  lemma {:induction false} BodyReceived(t: Terminal, selector: char, args: seq<U8>, e: Eraser)
    requires Good(t) && t.parser.state == CSI_ARG && IsSelector(selector) && args != []
    ensures Received(t, ArgumentList(args) + [selector], selector,
                     Receive(t.parser.args, t.parser.digits, selector, args), e)
    decreases |args|
  {
    hide GoodScreen, Execute, Decimal, ArgumentList, WriteAll, Write, ArgumentValue, Following;
    var first, rest, room := Decimal(args[0]), Following(args) + [selector], DIGIT_BUF_SIZE - |t.parser.digits|;
    DecimalDigits(args[0]);
    FirstArgument(args);
    Associative(first, Following(args), [selector]);
    if |t.parser.args| == CSI_ARGV_BUF_SIZE {
      DigitAborts(t, ArgumentList(args) + [selector], e);
    } else if room < |first| {
      var u := t.(parser := t.parser.(digits := t.parser.digits + first[..room]));
      DigitsFeed(t, first[..room], e);
      DigitAborts(u, first[room..] + rest, e);
      SplitInTwo(first, room, rest);
      WriteAllAppend(t, first[..room], first[room..] + rest, e);
    } else if |args| == 1 {
      FollowingOne(args);
      assert rest == [selector] && ArgumentList(args) + [selector] == first + rest;
      ArgumentFeed(t, args[0], selector, e);
    } else {
      var tail := ArgumentList(args[1..]) + [selector];
      FollowingMore(args);
      assert first + rest == (first + [';']) + tail;
      ArgumentFeed(t, args[0], ';', e);
      WriteAllAppend(t, first + [';'], tail, e);
      var u := t.(parser := t.parser.(args := t.parser.args + [ArgumentValue(t.parser.digits + first)], digits := ""));
      BodyReceived(u, selector, args[1..], e);
    }
  }

  lemma FollowingOne(args: seq<U8>)
    requires |args| == 1
    ensures Following(args) == ""
  {
  }

  lemma FollowingMore(args: seq<U8>)
    requires |args| > 1
    ensures Following(args) == [';'] + ArgumentList(args[1..])
  {
  }

  lemma SplitInTwo(s: string, k: nat, rest: string)
    requires k <= |s|
    ensures s + rest == s[..k] + (s[k..] + rest)
  {
    assert s == s[..k] + s[k..];
  }

  lemma NoArguments(p: Parser, selector: char)
    requires GoodParser(p)
    ensures ArgumentList([]) == ""
    ensures Receive(p.args, p.digits, selector, [])
         == Carried(if |p.args| < CSI_ARGV_BUF_SIZE then p.args + [ArgumentValue(p.digits)] else p.args)
  {
  }

  /** The selector is carried out even when it finds no room for an argument. */
  lemma SelectorAlone(t: Terminal, selector: char, e: Eraser)
    requires Good(t) && t.parser.state == CSI_ARG && IsSelector(selector)
    ensures var room := |t.parser.args| < CSI_ARGV_BUF_SIZE;
            var args := if room then t.parser.args + [ArgumentValue(t.parser.digits)] else t.parser.args;
            Write(t, selector, e) == Terminal(CLEAN, Execute(t.screen, selector, args, e))
  {
    hide GoodScreen, Execute, ArgumentValue;
  }

  /**
   * What the bytes of any command do to a parser that holds arguments and digits of aborted sequences: exactly
   * what `Receive` says, and the bytes of an aborted command are drawn as text in the current colours.
   */
  lemma CommandReceived(t: Terminal, selector: char, args: seq<U8>, e: Eraser)
    requires Good(t) && t.parser.state == CHARACTER && IsSelector(selector)
    ensures var u := WriteAll(t, CommandBytes(selector, args), e);
            match Receive(t.parser.args, t.parser.digits, selector, args)
            case Carried(given) => u == Terminal(CLEAN, Execute(t.screen, selector, given, e))
            case Printed(held, digits, text) =>
              && u.parser == Parser(CHARACTER, held, digits)
              && Shows(t.screen, u.screen, Visible(text, t.screen.bg, t.screen.fg), ColorsOf(t.screen))
              && |Visible(text, t.screen.bg, t.screen.fg)| == |text|
  {
    hide GoodScreen, Execute, Decimal, ArgumentList, WriteAll, Write, ArgumentValue, Receive, Shows, Visible,
         GoodParser, IsSelector;
    var body := ArgumentList(args) + [selector];
    var open := t.(parser := t.parser.(state := CSI_ARG));
    OpenIsGood(t);
    var r := Receive(t.parser.args, t.parser.digits, selector, args);
    assert CommandBytes(selector, args) == [ESC, '['] + body;
    Introducer(t, body, e);
    if args == [] {
      NoArguments(t.parser, selector);
      assert body == [selector];
      OneByte(open, selector, e);
      SelectorAlone(open, selector, e);
    } else {
      BodyReceived(open, selector, args, e);
      if r.Printed? {
        ReceivePrints(t.parser.args, t.parser.digits, selector, args);
        PrintableIsVisible(r.text, t.screen.bg, t.screen.fg);
        TextArrives(Terminal(Parser(CHARACTER, r.held, r.digits), t.screen), r.text, e);
      }
    }
  }

  lemma OpenIsGood(t: Terminal)
    requires Good(t)
    ensures Good(t.(parser := t.parser.(state := CSI_ARG))) && |t.parser.digits| <= DIGIT_BUF_SIZE
  {
  }

  predicate Printable(s: string) { forall i :: 0 <= i < |s| ==> IsDecimal(s[i]) || s[i] == ';' || IsSelector(s[i]) }

  lemma {:induction false} ListIsPrintable(args: seq<U8>)
    ensures Printable(ArgumentList(args))
  {
    hide Decimal;
    if args != [] {
      DecimalDigits(args[0]);
      if |args| > 1 {
        ListIsPrintable(args[1..]);
      }
    }
  }

  lemma {:induction false} PrintableIsVisible(s: string, bg: Pixel, fg: Pixel)
    requires Printable(s)
    ensures Plain(s) && |Visible(s, bg, fg)| == |s|
  {
    if s != "" {
      PrintableIsVisible(s[1..], bg, fg);
    }
  }

  /** What is printed of an aborted command is good text, and what it leaves behind a good parser. */
  lemma {:induction false} ReceivePrints(held: seq<U8>, digits: string, selector: char, args: seq<U8>)
    requires GoodParser(Parser(CHARACTER, held, digits)) && IsSelector(selector)
    ensures var r := Receive(held, digits, selector, args);
            r.Printed? ==> Printable(r.text) && GoodParser(Parser(CHARACTER, r.held, r.digits))
    decreases |args|
  {
    hide Decimal, ArgumentList, ArgumentValue, IsSelector;
    if args != [] {
      DecimalDigits(args[0]);
      ListIsPrintable(args);
      ListIsPrintable(args[1..]);
      if |args| > 1 && |held| < CSI_ARGV_BUF_SIZE {
        ReceivePrints(held + [ArgumentValue(digits + Decimal(args[0]))], "", selector, args[1..]);
      }
    }
  }

  /** What a command means: its own arguments, or a single zero when it has none. */
  function Given(args: seq<U8>): seq<U8> { if args == [] then [0] else args }

  /**
   * A command is carried out as written if and only if it has at most five arguments, no argument is held, and
   * the held digits change nothing: they are zeros that leave room, or amount to zero in front of a selector.
   */
  lemma CarriedAsWritten(p: Parser, selector: char, args: seq<U8>)
    requires GoodParser(p)
    ensures Receive(p.args, p.digits, selector, args) == Carried(Given(args)) <==>
            && |args| <= CSI_ARGV_BUF_SIZE && p.args == []
            && if args == [] then ArgumentValue(p.digits) == 0
               else Value(p.digits, 10) == 0 && |p.digits| + |Decimal(args[0])| <= DIGIT_BUF_SIZE
  {
    hide Decimal, Value, ArgumentList, Receive, ArgumentValue;
    if args == [] {
      NoArguments(p, selector);
    } else {
      DecimalDigits(args[0]);
      ReceivedArguments(p.args, p.digits, selector, args);
      if |p.digits| + |Decimal(args[0])| <= DIGIT_BUF_SIZE {
        LeadingZeros(p.digits, args[0]);
        FirstChanged(p.args, ArgumentValue(p.digits + Decimal(args[0])), args);
      }
    }
  }

  lemma FirstChanged(held: seq<U8>, first: U8, args: seq<U8>)
    requires args != []
    ensures held + [first] + args[1..] == args <==> held == [] && first == args[0]
  {
    var all := held + [first] + args[1..];
    assert |all| == |held| + |args|;
    assert held == [] ==> all[0] == first && all[1..] == args[1..];
  }

  /** A command is carried out when its arguments find room behind the held ones, with all of them in order. */
  lemma {:induction false} ReceivedArguments(held: seq<U8>, digits: string, selector: char, args: seq<U8>)
    requires |digits| <= DIGIT_BUF_SIZE && args != [] && |held| <= CSI_ARGV_BUF_SIZE
    ensures var r := Receive(held, digits, selector, args);
            && (r.Carried? <==> |held| + |args| <= CSI_ARGV_BUF_SIZE && |digits| + |Decimal(args[0])| <= DIGIT_BUF_SIZE)
            && (r.Carried? ==> r.args == held + [ArgumentValue(digits + Decimal(args[0]))] + args[1..])
    decreases |args|
  {
    hide Decimal, ArgumentList, ArgumentValue;
    DecimalDigits(args[0]);
    var now := held + [ArgumentValue(digits + Decimal(args[0]))];
    if |held| < CSI_ARGV_BUF_SIZE && |digits| + |Decimal(args[0])| <= DIGIT_BUF_SIZE && |args| > 1 {
      DecimalDigits(args[1]);
      ReceivedArguments(now, "", selector, args[1..]);
      assert "" + Decimal(args[1]) == Decimal(args[1]);
      OwnValue(args[1]);
      assert now + args[1..] == now + [args[1]] + args[1..][1..];
    }
  }

  lemma OwnValue(n: U8)
    ensures ArgumentValue(Decimal(n)) == n
  {
    hide Decimal, Value;
    DecimalDigits(n);
  }

  /** Held digits in front of an argument that still fits leave its value alone only if they are zeros. */
  lemma LeadingZeros(digits: string, n: U8)
    requires |digits| + |Decimal(n)| <= DIGIT_BUF_SIZE && forall i :: 0 <= i < |digits| ==> IsDecimal(digits[i])
    ensures ArgumentValue(digits + Decimal(n)) == n <==> Value(digits, 10) == 0
  {
    hide Decimal, Value, DigitVal, IsDecimal;
    DecimalDigits(n);
    var d := Decimal(n);
    NoValue();
    if digits == "" {
      assert digits + d == d;
    } else if |d| == 1 {
      assert d == [d[0]];
      OneMoreDigit(digits, d[0]);
    } else {
      assert d == [d[0], d[1]];
      TwoMoreDigits(digits, d[0], d[1]);
    }
  }

  lemma OneMoreDigit(digits: string, c: char)
    requires 1 <= |digits| <= 2 && (forall i :: 0 <= i < |digits| ==> IsDecimal(digits[i])) && IsDecimal(c)
    ensures ArgumentValue(digits + [c]) == Value([c], 10) <==> Value(digits, 10) == 0
  {
    hide Value;
    InFront(digits, c);
    InFront("", c);
    NoValue();
    assert "" + [c] == [c];
    SmallValue(digits);
  }

  lemma TwoMoreDigits(digits: string, c: char, d: char)
    requires |digits| == 1 && IsDecimal(digits[0]) && IsDecimal(c) && IsDecimal(d)
    ensures ArgumentValue(digits + [c, d]) == Value([c, d], 10) <==> Value(digits, 10) == 0
  {
    hide Value;
    assert digits + [c] + [d] == digits + [c, d] && [c] + [d] == [c, d] && "" + [c] == [c];
    InFront(digits + [c], d);
    InFront(digits, c);
    InFront([c], d);
    InFront("", c);
    NoValue();
    SmallValue(digits);
  }

  lemma NoValue()
    ensures Value("", 10) == 0
  {
  }

  lemma InFront(s: string, c: char)
    ensures Value(s + [c], 10) == Value(s, 10) * 10 + DigitVal(c)
  {
    ValueAppend(s, c, 10);
  }

  lemma SmallValue(s: string)
    requires 1 <= |s| <= 2 && forall i :: 0 <= i < |s| ==> IsDecimal(s[i])
    ensures Value(s, 10) <= if |s| == 1 then 9 else 99
  {
    hide Value;
    NoValue();
    InFront("", s[0]);
    assert "" + [s[0]] == [s[0]];
    if |s| == 2 {
      InFront([s[0]], s[1]);
      assert s == [s[0]] + [s[1]];
    } else {
      assert s == [s[0]];
    }
  }

  /**
   * From a clean parser, the bytes of a command with one to five arguments carry out exactly that command:
   * nothing of them is drawn, and the parser is clean again.
   */
  lemma CommandArrives(t: Terminal, selector: char, args: seq<U8>, e: Eraser)
    requires Good(t) && t.parser == CLEAN && IsSelector(selector) && 1 <= |args| <= CSI_ARGV_BUF_SIZE
    ensures WriteAll(t, CommandBytes(selector, args), e) == Terminal(CLEAN, Execute(t.screen, selector, args, e))
  {
    hide GoodScreen, Execute, WriteAll, CommandBytes, Receive, Shows, Visible, ColorsOf, Decimal, Value;
    DecimalDigits(args[0]);
    NoValue();
    CommandReceived(t, selector, args, e);
    CarriedAsWritten(CLEAN, selector, args);
  }

  // ---- what an aborted sequence leaves behind --------------------------------------------------------------

  function Separated(args: seq<U8>): string {
    if args == [] then "" else Decimal(args[0]) + ";" + Separated(args[1..])
  }

  /** A sequence with those arguments and digits, which ch ends without a command. */
  function AbortedBytes(args: seq<U8>, digits: string, ch: char): string {
    [ESC, '['] + (Separated(args) + (digits + [ch]))
  }

  predicate Aborts(ch: char) { !IsDecimal(ch) && ch != ';' && !IsSelector(ch) }

  /**
   * An aborted sequence leaves its arguments and digits in the parser, and only its last byte is drawn. So
   * every parser the bounds allow is reached from a clean one.
   */
  lemma AbortKeeps(t: Terminal, args: seq<U8>, digits: string, ch: char, e: Eraser)
    requires Good(t) && t.parser == CLEAN && Aborts(ch) && GoodParser(Parser(CHARACTER, args, digits))
    ensures WriteAll(t, AbortedBytes(args, digits, ch), e)
         == Terminal(Parser(CHARACTER, args, digits), Perform(t.screen, Draw, ch, e))
  {
    hide GoodScreen, Perform, WriteAll, Separated, IsSelector;
    var tail := digits + [ch];
    Introducer(t, Separated(args) + tail, e);
    var open := t.(parser := Parser(CSI_ARG, [], ""));
    WriteAllAppend(open, Separated(args), tail, e);
    SeparatedFeed(open, args, e);
    assert [] + args == args;
    var u := t.(parser := Parser(CSI_ARG, args, ""));
    WriteAllAppend(u, digits, [ch], e);
    HeldDigits(u, digits, e);
    OneByte(t.(parser := Parser(CSI_ARG, args, digits)), ch, e);
  }

  lemma HeldDigits(t: Terminal, digits: string, e: Eraser)
    requires Good(t) && t.parser == Parser(CSI_ARG, t.parser.args, "")
    requires GoodParser(Parser(CHARACTER, t.parser.args, digits))
    ensures WriteAll(t, digits, e) == t.(parser := t.parser.(digits := digits))
  {
    hide GoodScreen;
    if digits != "" {
      DigitsFeed(t, digits, e);
      assert "" + digits == digits;
    }
  }

  lemma {:induction false} SeparatedFeed(t: Terminal, args: seq<U8>, e: Eraser)
    requires Good(t) && t.parser.state == CSI_ARG && t.parser.digits == ""
    requires |t.parser.args| + |args| <= CSI_ARGV_BUF_SIZE
    ensures WriteAll(t, Separated(args), e) == t.(parser := t.parser.(args := t.parser.args + args))
    decreases |args|
  {
    hide GoodScreen, Decimal, Write, ArgumentValue;
    if args == [] {
      assert t.parser.args + args == t.parser.args;
    } else {
      DecimalDigits(args[0]);
      OwnValue(args[0]);
      assert "" + Decimal(args[0]) == Decimal(args[0]);
      ArgumentFeed(t, args[0], ';', e);
      var u := t.(parser := t.parser.(args := t.parser.args + [args[0]]));
      WriteAllAppend(t, Decimal(args[0]) + [';'], Separated(args[1..]), e);
      SeparatedFeed(u, args[1..], e);
      assert t.parser.args + [args[0]] + args[1..] == t.parser.args + args;
      assert Separated(args) == (Decimal(args[0]) + [';']) + Separated(args[1..]);
    }
  }

  lemma ShortDecimal(n: U8)
    requires n < 100
    ensures Decimal(n) == if n < 10 then [HexChar(n)] else [HexChar(n / 10), HexChar(n % 10)]
  {
    hide Digits, LowDigits, HexChar;
    DigitsUnfold(n, 10, 255);
    if n >= 10 {
      DigitsUnfold(n / 10, 10, 254);
    }
  }

  // ---- a cursor that leaves the screen -----------------------------------------------------------------------

  function NewLines(n: nat): (s: string)
    ensures |s| == n && forall i :: 0 <= i < n ==> s[i] == '\n'
  {
    seq(n, _ => '\n')
  }

  /** 25 visible lines, of which the last is the cursor's, in a buffer of n + 1 lines. */
  predicate AtLine(t: Terminal, n: nat) {
    && Good(t) && t.parser == CLEAN && t.screen.height == 25 && t.screen.line == n && |t.screen.lines| == n + 1
    && t.screen.viewport == if n < 25 then 0 else n - 24
  }

  lemma NextLine(t: Terminal, n: nat, e: Eraser)
    requires AtLine(t, n) && n < 100
    ensures AtLine(Write(t, '\n', e), n + 1)
  {
    WriteKeeps(t, '\n', e);
    hide StyleRawText, GoodLine;
  }

  lemma {:induction false} ManyLines(t: Terminal, n: nat, k: nat, e: Eraser)
    requires AtLine(t, n) && n + k < 100
    ensures AtLine(WriteAll(t, NewLines(k), e), n + k)
    decreases k
  {
    hide AtLine;
    AtLineIsGood(t, n);
    if k > 0 {
      NextLine(t, n, e);
      AtLineIsGood(Write(t, '\n', e), n + 1);
      assert NewLines(k)[1..] == NewLines(k - 1);
      ManyLines(Write(t, '\n', e), n + 1, k - 1, e);
    }
  }

  lemma AtLineIsGood(t: Terminal, n: nat)
    requires AtLine(t, n)
    ensures Good(t) && t.parser == CLEAN
  {
  }

  lemma FirstText(width: nat, bg: Pixel, fg: Pixel, e: Eraser)
    requires width > 1
    ensures Good(NewTerminal(width, 25, bg, fg)) && AtLine(WriteAll(NewTerminal(width, 25, bg, fg), "x", e), 0)
  {
    var t := NewTerminal(width, 25, bg, fg);
    OneByte(t, 'x', e);
    WriteKeeps(t, 'x', e);
    assert "x" == ['x'];
  }

  /** Text, 34 newlines, 23 lines up and 2 more. */
  function UpAndOut(): string { "x" + (NewLines(34) + (CommandBytes('A', [23]) + CommandBytes('A', [2]))) }

  lemma UpAndOutBytes()
    ensures UpAndOut() == "x" + (NewLines(34) + ([ESC] + "[23A" + ([ESC] + "[2A")))
  {
    hide Decimal, NewLines;
    ShortDecimal(23);
    ShortDecimal(2);
    assert CommandBytes('A', [23]) == [ESC] + "[23A" && CommandBytes('A', [2]) == [ESC] + "[2A";
  }

  /**
   * Written to a new terminal of 25 lines, those bytes leave line 10 the first visible one and the cursor, which
   * stood in the second, in line 0 of the buffer, out of sight.
   */
  lemma UpLeavesScreenExample(width: nat, bg: Pixel, fg: Pixel, e: Eraser)
    requires width > 1
    ensures UpAndOut() == "x" + (NewLines(34) + ([ESC] + "[23A" + ([ESC] + "[2A")))
    ensures Good(NewTerminal(width, 25, bg, fg))
    ensures var r := WriteAll(NewTerminal(width, 25, bg, fg), UpAndOut(), e).screen;
            r.viewport == 10 && r.line == 0 && !OnScreen(r)
  {
    hide AtLine, WriteAll, CommandBytes, NewLines, Good, GoodScreen;
    UpAndOutBytes();
    var t0 := NewTerminal(width, 25, bg, fg);
    FirstText(width, bg, fg, e);
    var rest := NewLines(34) + (CommandBytes('A', [23]) + CommandBytes('A', [2]));
    GoodHasScreen(t0);
    WriteAllAppend(t0, "x", rest, e);
    var t1 := WriteAll(t0, "x", e);
    AtLineIsGood(t1, 0);
    GoodHasScreen(t1);
    WriteAllAppend(t1, NewLines(34), CommandBytes('A', [23]) + CommandBytes('A', [2]), e);
    ManyLines(t1, 0, 34, e);
    var t2 := WriteAll(t1, NewLines(34), e);
    AtLineIsGood(t2, 34);
    GoodHasScreen(t2);
    WriteAllAppend(t2, CommandBytes('A', [23]), CommandBytes('A', [2]), e);
    UpTwice(t2, e);
  }

  lemma GoodHasScreen(t: Terminal)
    requires Good(t)
    ensures GoodScreen(t.screen)
  {
  }

  lemma UpTwice(t: Terminal, e: Eraser)
    requires AtLine(t, 34)
    ensures Good(t)
    ensures var u := WriteAll(t, CommandBytes('A', [23]), e);
            var r := WriteAll(u, CommandBytes('A', [2]), e).screen;
            u.screen.line == 11 && OnScreen(u.screen) && r.viewport == 10 && r.line == 0 && !OnScreen(r)
  {
    hide WriteAll, CommandBytes, GoodScreen;
    CommandArrives(t, 'A', [23], e);
    var u := WriteAll(t, CommandBytes('A', [23]), e);
    AlwaysGood(t, CommandBytes('A', [23]), e);
    CommandArrives(u, 'A', [2], e);
  }
}
