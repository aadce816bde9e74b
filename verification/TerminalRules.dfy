/** What one byte does to a terminal: the escape-sequence parser, the cursor, the colours and the text buffer. */
module TerminalRules {
  import opened Machine
  import opened Numerals

  const CSI_ARGV_BUF_SIZE := 5
  const DIGIT_BUF_SIZE := 3
  const ESC: char := '\U{1b}'
  const BACKSPACE: char := '\U{8}'
  const TAB_STOP := 4
  const SGR_SET_FOREGROUND := 38
  const SGR_SET_BACKGROUND := 48
  const SCROLL_BACK_BUFFER_LIMIT := 128

  datatype Pixel = Pixel(red: U8, green: U8, blue: U8, alpha: U8)

  const NO_COLOR := Pixel(0, 0, 0, 0)

  datatype StyledText = StyledText(text: string, bg: Pixel, fg: Pixel)

  /** A line of text; its last piece is the text whose colours are not yet recorded. */
  datatype TextLine = TextLine(styled: seq<StyledText>, lineSize: nat)

  const EMPTY_LINE := TextLine([StyledText("", NO_COLOR, NO_COLOR)], 0)

  /** A glyph as it was drawn: its cell on the screen and its colours. */
  datatype Glyph = Glyph(ch: char, x: int, y: int, bg: Pixel, fg: Pixel)

  datatype InterpreterState = CHARACTER | CSI_BEGIN | CSI_ARG

  /** The arguments read so far and the digits of the one in progress. */
  datatype Parser = Parser(state: InterpreterState, args: seq<U8>, digits: string)

  const CLEAN := Parser(CHARACTER, [], "")

  /** Line and column of the cursor count in the scroll-back buffer; the viewport is its first visible line. */
  datatype Screen =
    Screen(width: nat, height: nat, viewport: int, line: int, column: int, bg: Pixel, fg: Pixel,
           defaultBg: Pixel, defaultFg: Pixel, lines: seq<TextLine>, glyphs: seq<Glyph>)

  datatype Terminal = Terminal(parser: Parser, screen: Screen)

  /** What an erase command leaves of the buffered lines; how it erases is not part of this model. */
  type Eraser = (Screen, char, U8) -> seq<TextLine>

  /** What the interpreter makes of a byte: text to draw, a control code, a finished command, or nothing. */
  datatype Action = Draw | Control | Command(selector: char, args: seq<U8>) | Nothing

  // ---- the parser --------------------------------------------------------------------------------------

  predicate IsSelector(ch: char) {
    ch == 'A' || ch == 'B' || ch == 'C' || ch == 'D' || ch == 'H' || ch == 'J' || ch == 'K' || ch == 'S' || ch == 'T'
    || ch == 'm'
  }

  predicate IsControl(ch: char) { ch == BACKSPACE || ch == '\t' || ch == '\n' || ch == '\r' }

  /** The 8-bit value of an argument's digits; no digits stand for zero. */
  function ArgumentValue(digits: string): U8 { Wrap8(Value(digits, 10)) }

  /** Arguments that were not given are zero. */
  function Argument(args: seq<U8>, i: nat): U8 { if i < |args| then args[i] else 0 }

  function Feed(p: Parser, ch: char): (Parser, Action) {
    match p.state
    case CHARACTER =>
      if ch == ESC then (p.(state := CSI_BEGIN), Nothing)
      else (p, if IsControl(ch) then Control else Draw)
    case CSI_BEGIN =>
      if ch == '[' then (p.(state := CSI_ARG), Nothing) else (p.(state := CHARACTER), Draw)
    case CSI_ARG =>
      if IsDecimal(ch) then
        if |p.digits| < DIGIT_BUF_SIZE && |p.args| < CSI_ARGV_BUF_SIZE then (p.(digits := p.digits + [ch]), Nothing)
        else (p.(state := CHARACTER), Draw)
      else if ch == ';' || IsSelector(ch) then
        var room := |p.args| < CSI_ARGV_BUF_SIZE;
        var args := if room then p.args + [ArgumentValue(p.digits)] else p.args;
        var digits := if room then "" else p.digits;
        if IsSelector(ch) then (Parser(CHARACTER, [], digits), Command(ch, args))
        else (p.(args := args, digits := digits), Nothing)
      else (p.(state := CHARACTER), Draw)
  }

  // ---- text lines --------------------------------------------------------------------------------------

  predicate GoodLine(t: TextLine) { t.styled != [] }

  function Raw(t: TextLine): string
    requires GoodLine(t)
  {
    t.styled[|t.styled| - 1].text
  }

  function AppendChar(t: TextLine, ch: char): (r: TextLine)
    requires GoodLine(t)
    ensures GoodLine(r) && |r.styled| == |t.styled| && Raw(r) == Raw(t) + [ch]
  {
    var last := t.styled[|t.styled| - 1];
    TextLine(t.styled[..|t.styled| - 1] + [last.(text := last.text + [ch])], t.lineSize + 1)
  }

  /** Records the colours of the raw text, and starts a new piece. */
  function StyleRawText(t: TextLine, bg: Pixel, fg: Pixel): (r: TextLine)
    requires GoodLine(t)
    ensures GoodLine(r) && Raw(r) == ""
  {
    if Raw(t) == "" then t
    else
      t.(styled := t.styled[..|t.styled| - 1] + [StyledText(Raw(t), bg, fg), StyledText("", NO_COLOR, NO_COLOR)])
  }

  // ---- the screen --------------------------------------------------------------------------------------

  predicate GoodScreen(s: Screen) {
    && 0 <= s.column < s.width && |s.lines| <= SCROLL_BACK_BUFFER_LIMIT
    && forall i :: 0 <= i < |s.lines| ==> GoodLine(s.lines[i])
  }

  function WithLastLine(s: Screen): (r: Screen)
    ensures |r.lines| > 0
  {
    if s.lines == [] then s.(lines := [EMPTY_LINE]) else s
  }

  function SetLastLine(s: Screen, t: TextLine): Screen
    requires s.lines != []
  {
    s.(lines := s.lines[..|s.lines| - 1] + [t])
  }

  function LastLine(s: Screen): TextLine
    requires s.lines != []
  {
    s.lines[|s.lines| - 1]
  }

  function BufferChar(s: Screen, ch: char): (r: Screen)
    requires GoodScreen(s)
    ensures GoodScreen(r)
  {
    var w := WithLastLine(s);
    SetLastLine(w, AppendChar(LastLine(w), ch))
  }

  function StyleLastLine(s: Screen): (r: Screen)
    requires GoodScreen(s)
    ensures GoodScreen(r)
  {
    var w := WithLastLine(s);
    SetLastLine(w, StyleRawText(LastLine(w), s.bg, s.fg))
  }

  /** The last lines that leave room for one more in the buffer. */
  function Kept(lines: seq<TextLine>): seq<TextLine> {
    if |lines| >= SCROLL_BACK_BUFFER_LIMIT then lines[|lines| - SCROLL_BACK_BUFFER_LIMIT + 1..] else lines
  }

  /** The oldest lines make room for a new one. */
  function AppendLine(s: Screen): (r: Screen)
    requires GoodScreen(s)
    ensures GoodScreen(r)
  {
    if s.lines == [] then s.(lines := [EMPTY_LINE])
    else
      var kept := Kept(s.lines);
      var styled := SetLastLine(s.(lines := kept), StyleRawText(kept[|kept| - 1], s.bg, s.fg));
      styled.(lines := styled.lines + [EMPTY_LINE])
  }

  /** Draws at the cursor and moves it on, to the next line behind the last column. */
  function DrawChar(s: Screen, ch: char): (r: Screen)
    requires GoodScreen(s)
    ensures GoodScreen(r)
  {
    var wraps := s.column + 1 >= s.width;
    s.(glyphs := s.glyphs + [Glyph(ch, s.column, s.line - s.viewport, s.bg, s.fg)],
       column := if wraps then 0 else s.column + 1, line := if wraps then s.line + 1 else s.line)
  }

  function Tab(s: Screen, spaces: nat): (r: Screen)
    requires GoodScreen(s)
    ensures GoodScreen(r)
    decreases spaces
  {
    if spaces == 0 then s else Tab(DrawChar(BufferChar(s, ' '), ' '), spaces - 1)
  }

  function ScrollBack(s: Screen, lines: int): (r: Screen)
    ensures r == s.(viewport := r.viewport)
  {
    if lines == 0 then s
    else if lines > 0 then s.(viewport := Min(s.viewport + lines, |s.lines| - s.height))
    else if s.viewport == 0 then s
    else s.(viewport := if s.viewport >= -lines then s.viewport + lines else 0)
  }

  function ScrollToCursor(s: Screen): (r: Screen)
    ensures r == s.(viewport := r.viewport)
  {
    if 0 <= s.line - s.viewport < s.height then s
    else if s.line >= s.viewport then ScrollBack(s, s.line - (s.viewport + s.height) + 1)
    else ScrollBack(s, -(s.viewport - s.line))
  }

  function Controlled(s: Screen, ch: char): (r: Screen)
    requires GoodScreen(s)
    ensures GoodScreen(r)
  {
    if ch == BACKSPACE then s.(column := if s.column > 0 then s.column - 1 else 0)
    else if ch == '\t' then Tab(s, TAB_STOP - s.column % TAB_STOP)
    else if ch == '\n' then
      var a := AppendLine(s).(line := s.line + 1, column := 0);
      if a.line - a.viewport == a.height then ScrollBack(a, 1) else a
    else if ch == '\r' then
      var w := WithLastLine(s.(column := 0));
      SetLastLine(w, EMPTY_LINE)
    else s
  }

  // ---- commands ----------------------------------------------------------------------------------------

  /** Select graphic rendition: the text so far is recorded in the old colours first. */
  function SelectGraphics(s: Screen, args: seq<U8>): (r: Screen)
    requires GoodScreen(s)
    ensures GoodScreen(r)
  {
    var t := StyleLastLine(s);
    var color := Pixel(Argument(args, 2), Argument(args, 3), Argument(args, 4), 0);
    if Argument(args, 0) == SGR_SET_FOREGROUND && Argument(args, 1) == 2 then t.(fg := color)
    else if Argument(args, 0) == SGR_SET_BACKGROUND && Argument(args, 1) == 2 then t.(bg := color)
    else if Argument(args, 0) == 0 then t.(fg := t.defaultFg, bg := t.defaultBg)
    else t
  }

  /** A number of steps; zero stands for one. */
  function Steps(args: seq<U8>): int { if Argument(args, 0) == 0 then 1 else Argument(args, 0) }

  function Clamp(x: int, limit: int): int { if x < 0 then 0 else if x >= limit then limit - 1 else x }

  function Erase(s: Screen, selector: char, args: seq<U8>, e: Eraser): (r: Screen)
    requires GoodScreen(s)
    ensures GoodScreen(r) && r == s.(viewport := r.viewport, lines := r.lines)
  {
    if s.lines == [] then s
    else
      var left := e(s, selector, Argument(args, 0));
      var lines := if selector == 'J' && Argument(args, 0) == 3 then []
                   else if |left| == |s.lines| && (forall i :: 0 <= i < |left| ==> GoodLine(left[i])) then left
                   else s.lines;
      ScrollToCursor(s).(lines := lines)
  }

  function Execute(s: Screen, selector: char, args: seq<U8>, e: Eraser): (r: Screen)
    requires GoodScreen(s)
    ensures GoodScreen(r)
  {
    var steps := Steps(args);
    if selector == 'm' then SelectGraphics(s, args)
    else if selector == 'A' then
      var v := ScrollToCursor(s);
      v.(line := if v.line - v.viewport >= steps then v.line - v.viewport - steps + v.viewport else 0)
    else if selector == 'B' then
      var v := ScrollToCursor(s);
      var y := v.line - v.viewport;
      v.(line := (if steps < v.height - y then y + steps else v.height - 1) + v.viewport)
    else if selector == 'C' then
      s.(column := if steps < s.width - s.column then s.column + steps else s.width - 1)
    else if selector == 'D' then s.(column := if s.column >= steps then s.column - steps else 0)
    else if selector == 'H' then
      var row, col := if |args| < 2 then 0 else args[1] as int - 1, if |args| < 1 then 0 else args[0] as int - 1;
      s.(line := Clamp(row, s.height) + s.viewport, column := Clamp(col, s.width))
    else if selector == 'J' || selector == 'K' then Erase(s, selector, args, e)
    else if selector == 'S' then ScrollBack(s, -steps)
    else if selector == 'T' then ScrollBack(s, steps)
    else s
  }

  // ---- one byte, and many ------------------------------------------------------------------------------

  function Perform(s: Screen, a: Action, ch: char, e: Eraser): (r: Screen)
    requires GoodScreen(s)
    ensures GoodScreen(r)
  {
    match a
    case Nothing => s
    case Control => Controlled(s, ch)
    case Command(selector, args) => Execute(s, selector, args, e)
    case Draw => if ch == '\0' then s else BufferChar(DrawChar(s, ch), ch)
  }

  function Write(t: Terminal, ch: char, e: Eraser): (r: Terminal)
    requires GoodScreen(t.screen)
    ensures GoodScreen(r.screen)
  {
    var (p, a) := Feed(t.parser, ch);
    Terminal(p, Perform(t.screen, a, ch, e))
  }

  function WriteAll(t: Terminal, msg: string, e: Eraser): (r: Terminal)
    requires GoodScreen(t.screen)
    ensures GoodScreen(r.screen)
    decreases |msg|
  {
    if msg == "" then t else WriteAll(Write(t, msg[0], e), msg[1..], e)
  }

  lemma {:induction false} WriteAllAppend(t: Terminal, a: string, b: string, e: Eraser)
    requires GoodScreen(t.screen)
    ensures WriteAll(t, a + b, e) == WriteAll(WriteAll(t, a, e), b, e)
    decreases |a|
  {
    if a == "" {
      assert a + b == b;
    } else {
      assert (a + b)[0] == a[0] && (a + b)[1..] == a[1..] + b;
      WriteAllAppend(Write(t, a[0], e), a[1..], b, e);
    }
  }

  // ---- what holds after every byte sequence ------------------------------------------------------------

  /** At most five arguments and three digits, all of them decimal; a full argument buffer has no open digits. */
  predicate GoodParser(p: Parser) {
    && |p.args| <= CSI_ARGV_BUF_SIZE && |p.digits| <= DIGIT_BUF_SIZE
    && (forall i :: 0 <= i < |p.digits| ==> IsDecimal(p.digits[i]))
    && (|p.args| == CSI_ARGV_BUF_SIZE ==> p.digits == "")
  }

  predicate Good(t: Terminal) { GoodParser(t.parser) && GoodScreen(t.screen) }

  function NewTerminal(width: nat, height: nat, bg: Pixel, fg: Pixel): Terminal {
    Terminal(CLEAN, Screen(width, height, 0, 0, 0, bg, fg, bg, fg, [], []))
  }

  /**
   * However a terminal at least one column wide is written to, its buffers never overflow, the cursor stays in
   * a column of the screen, and at most 128 lines are kept.
   */
  lemma {:induction false} AlwaysGood(t: Terminal, msg: string, e: Eraser)
    requires Good(t)
    ensures Good(WriteAll(t, msg, e))
    ensures WriteAll(t, msg, e).screen.width == t.screen.width && WriteAll(t, msg, e).screen.height == t.screen.height
    decreases |msg|
  {
    if msg != "" {
      WriteKeeps(t, msg[0], e);
      AlwaysGood(Write(t, msg[0], e), msg[1..], e);
    }
  }

  lemma WriteKeeps(t: Terminal, ch: char, e: Eraser)
    requires Good(t)
    ensures Good(Write(t, ch, e))
    ensures Write(t, ch, e).screen.width == t.screen.width && Write(t, ch, e).screen.height == t.screen.height
  {
    hide GoodScreen, Value;
    KeepsSize(t.screen, Feed(t.parser, ch).1, ch, e);
  }

  lemma KeepsSize(s: Screen, a: Action, ch: char, e: Eraser)
    requires GoodScreen(s)
    ensures SameFrame(s, Perform(s, a, ch, e))
  {
    match a
    case Nothing =>
    case Control => ControlKeeps(s, ch);
    case Command(selector, args) => CommandKeeps(s, selector, args, e);
    case Draw =>
  }

  /** The size of the screen and its default colours are fixed. */
  predicate SameFrame(s: Screen, r: Screen) {
    r.width == s.width && r.height == s.height && r.defaultBg == s.defaultBg && r.defaultFg == s.defaultFg
  }

  lemma ControlKeeps(s: Screen, ch: char)
    requires GoodScreen(s)
    ensures SameFrame(s, Controlled(s, ch))
  {
    if ch == '\t' {
      TabKeeps(s, TAB_STOP - s.column % TAB_STOP);
    }
  }

  lemma CommandKeeps(s: Screen, selector: char, args: seq<U8>, e: Eraser)
    requires GoodScreen(s)
    ensures SameFrame(s, Execute(s, selector, args, e))
  {
    hide GoodScreen, ScrollBack, ScrollToCursor, Argument, StyleRawText;
  }

  lemma {:induction false} TabKeeps(s: Screen, spaces: nat)
    requires GoodScreen(s)
    ensures SameFrame(s, Tab(s, spaces)) && Tab(s, spaces).bg == s.bg && Tab(s, spaces).fg == s.fg
    decreases spaces
  {
    if spaces > 0 {
      TabKeeps(DrawChar(BufferChar(s, ' '), ' '), spaces - 1);
    }
  }

  // ---- where the cursor stands -------------------------------------------------------------------------

  /** The cursor is in one of the visible lines. */
  predicate OnScreen(s: Screen) { 0 <= s.line - s.viewport < s.height }

  /** The cursor is in a buffered line, or in a line that is visible already. */
  predicate Reachable(s: Screen) {
    s.height > 0 && (OnScreen(s) || (if s.line >= s.viewport then s.line < |s.lines| else s.line >= 0))
  }

  /** Scrolling to the cursor makes it visible exactly when it stands in a line there is. */
  lemma ScrollShowsCursor(s: Screen)
    ensures OnScreen(ScrollToCursor(s)) <==> Reachable(s)
  {
  }

  /**
   * Where the cursor commands leave a cursor that can be scrolled to. Down and the absolute position end on
   * the screen; up does as long as there are enough lines above on the screen, and otherwise goes to the first
   * line of the buffer, on the screen or not. Left and right do not scroll.
   */
  lemma CursorStaysVisible(s: Screen, selector: char, args: seq<U8>, e: Eraser)
    requires GoodScreen(s) && Reachable(s)
    ensures var r, v := Execute(s, selector, args, e), ScrollToCursor(s);
            && (selector == 'A' ==>
                  (OnScreen(r) <==> Steps(args) <= v.line - v.viewport || 0 - s.height < v.viewport <= 0))
            && (selector == 'B' || selector == 'H' ==> OnScreen(r))
            && (selector == 'C' || selector == 'D' ==> (OnScreen(r) <==> OnScreen(s)))
  {
    hide ScrollToCursor;
    ScrollShowsCursor(s);
  }
}
