/** Where text, control codes and cursor commands lead: cells and cursor by columns and lines. */
module CursorRules {
  import opened Machine
  import opened Numerals
  import opened Formatting
  import opened TerminalRules
  import opened CommandRules

  // ---- text --------------------------------------------------------------------------------------------

  /** Characters that are drawn: no zero character, backspace, tab, newline, carriage return or escape. */
  predicate Drawable(text: string) {
    forall i :: 0 <= i < |text| ==> text[i] as int !in {0, 8, 9, 10, 13, 27}
  }

  /** The n-th cell behind the cursor, with a character in the current colours: rows are as wide as the screen. */
  function CellBehind(s: Screen, n: nat, ch: char): Glyph
    requires s.width > 0
  {
    Glyph(ch, (s.column + n) % s.width, s.line + (s.column + n) / s.width - s.viewport, s.bg, s.fg)
  }

  /** r is s after n characters were drawn: one behind the other, and the cursor behind the last. */
  ghost predicate Fills(s: Screen, r: Screen, text: string)
    requires s.width > 0
  {
    && r == s.(glyphs := r.glyphs, lines := r.lines, column := (s.column + |text|) % s.width,
               line := s.line + (s.column + |text|) / s.width)
    && |r.glyphs| == |s.glyphs| + |text| && s.glyphs <= r.glyphs
    && forall k :: 0 <= k < |text| ==> r.glyphs[|s.glyphs| + k] == CellBehind(s, k, text[k])
  }

  /** One character was drawn at the cursor, which moved to the next cell. */
  ghost predicate Drawn(s: Screen, r: Screen, ch: char) {
    r == s.(glyphs := s.glyphs + [Glyph(ch, s.column, s.line - s.viewport, s.bg, s.fg)], lines := r.lines,
            column := if s.column + 1 >= s.width then 0 else s.column + 1,
            line := if s.column + 1 >= s.width then s.line + 1 else s.line)
  }

  lemma NextCell(c: nat, w: nat, k: nat)
    requires c < w
    ensures (c + 0) % w == c && (c + 0) / w == 0
    ensures c + 1 == w ==> (c + (k + 1)) % w == k % w && (c + (k + 1)) / w == 1 + k / w
  {
    DivModUnique(c, w, 0, c);
    if c + 1 == w {
      assert (1 + k / w) * w == w + k / w * w;
      DivModUnique(c + (k + 1), w, 1 + k / w, k % w);
    }
  }

  lemma FillsNothing(s: Screen)
    requires 0 <= s.column < s.width
    ensures Fills(s, s, "")
  {
    NextCell(s.column, s.width, 0);
  }

  /** One glyph at the cursor and then a text behind it. */
  lemma FillsOne(s: Screen, u: Screen, r: Screen, text: string)
    requires 0 <= s.column < s.width && text != ""
    requires Drawn(s, u, text[0])
    requires Fills(u, r, text[1..])
    ensures Fills(s, r, text)
  {
    CellsFollow(s, u, |text| - 1, text[0]);
    forall k | 0 <= k < |text|
      ensures r.glyphs[|s.glyphs| + k] == CellBehind(s, k, text[k])
    {
      if k == 0 {
        NextCell(s.column, s.width, 0);
        assert u.glyphs[|s.glyphs|] == CellBehind(s, 0, text[0]);
      } else {
        CellsFollow(s, u, k - 1, text[k]);
        assert text[k] == text[1..][k - 1];
        assert r.glyphs[|u.glyphs| + (k - 1)] == CellBehind(u, k - 1, text[k]);
      }
    }
  }

  lemma CellsFollow(s: Screen, u: Screen, k: nat, ch: char)
    requires 0 <= s.column < s.width && u.width == s.width && u.viewport == s.viewport && u.bg == s.bg && u.fg == s.fg
    requires u.column == if s.column + 1 >= s.width then 0 else s.column + 1
    requires u.line == if s.column + 1 >= s.width then s.line + 1 else s.line
    ensures CellBehind(u, k, ch) == CellBehind(s, k + 1, ch)
    ensures (u.column + k) % u.width == (s.column + (k + 1)) % s.width
    ensures u.line + (u.column + k) / u.width == s.line + (s.column + (k + 1)) / s.width
  {
    NextCell(s.column, s.width, k);
    assert u.column != 0 ==> u.column + k == s.column + (k + 1);
  }

  /**
   * Text fills the screen row by row: its k-th character stands k cells behind the cursor, which ends behind the
   * last one. A row is as wide as the screen, and a full row leads to the first column of the next line.
   */
  lemma {:induction false} TextFillsCells(t: Terminal, text: string, e: Eraser)
    requires Good(t) && t.parser.state == CHARACTER && Drawable(text)
    ensures WriteAll(t, text, e).parser == t.parser && Fills(t.screen, WriteAll(t, text, e).screen, text)
    decreases |text|
  {
    hide GoodScreen, Write, Fills;
    GoodColumn(t);
    if text == "" {
      FillsNothing(t.screen);
    } else {
      var u := Write(t, text[0], e);
      DrawnByte(t, text[0], e);
      WriteKeeps(t, text[0], e);
      TextFillsCells(u, text[1..], e);
      FillsOne(t.screen, u.screen, WriteAll(u, text[1..], e).screen, text);
    }
  }

  lemma GoodColumn(t: Terminal)
    requires Good(t)
    ensures 0 <= t.screen.column < t.screen.width && GoodScreen(t.screen)
  {
  }

  lemma DrawnByte(t: Terminal, ch: char, e: Eraser)
    requires Good(t) && t.parser.state == CHARACTER && Drawable([ch])
    ensures Write(t, ch, e).parser == t.parser && Drawn(t.screen, Write(t, ch, e).screen, ch)
  {
    hide GoodScreen, BufferChar, DrawChar, Drawn;
    assert [ch][0] == ch;
    DrawnEither(t.screen, ch);
  }

  lemma DrawnEither(s: Screen, ch: char)
    requires GoodScreen(s)
    ensures Drawn(s, BufferChar(DrawChar(s, ch), ch), ch) && Drawn(s, DrawChar(BufferChar(s, ch), ch), ch)
  {
    hide GoodLine, AppendChar;
  }

  // ---- control codes -----------------------------------------------------------------------------------

  /** Backspace moves one column to the left, and stays in the first one; nothing is erased. */
  lemma BackspaceMoves(t: Terminal, e: Eraser)
    requires Good(t) && t.parser.state == CHARACTER
    ensures Write(t, 8 as char, e)
         == t.(screen := t.screen.(column := if t.screen.column == 0 then 0 else t.screen.column - 1))
  {
  }

  /** A carriage return leads to the first column of the line and empties the last line of the buffer. */
  lemma ReturnMoves(t: Terminal, e: Eraser)
    requires Good(t) && t.parser.state == CHARACTER
    ensures var s, r := t.screen, Write(t, 13 as char, e).screen;
            && Write(t, 13 as char, e).parser == t.parser
            && r == s.(column := 0, lines := r.lines) && r.lines != [] && r.lines[|r.lines| - 1] == EMPTY_LINE
            && r.lines[..|r.lines| - 1] == if s.lines == [] then [] else s.lines[..|s.lines| - 1]
  {
    hide GoodScreen;
  }

  /**
   * A newline leads to the first column of the next line. Behind the last visible line the screen scrolls by
   * one, as far as there are buffered lines; at most 128 are kept.
   */
  lemma NewlineMoves(t: Terminal, e: Eraser)
    requires Good(t) && t.parser.state == CHARACTER
    ensures var s, r := t.screen, Write(t, 10 as char, e).screen;
            && Write(t, 10 as char, e).parser == t.parser
            && r == s.(column := 0, line := s.line + 1, lines := r.lines, viewport := r.viewport)
            && (s.line + 1 != s.viewport + s.height ==> r.viewport == s.viewport)
            && (s.line + 1 == s.viewport + s.height ==>
                  r.viewport == if s.viewport + 1 + s.height <= |r.lines| then s.viewport + 1 else |r.lines| - s.height)
            && |r.lines| == (if s.lines == [] then 1 else if |s.lines| < 128 then |s.lines| + 1 else 128)
            && r.lines[|r.lines| - 1] == EMPTY_LINE
  {
    hide StyleRawText, GoodLine;
  }

  /** A tab draws spaces up to the next multiple of four columns. */
  lemma TabMoves(t: Terminal, e: Eraser)
    requires Good(t) && t.parser.state == CHARACTER
    ensures var s, r := t.screen, Write(t, 9 as char, e).screen;
            && Write(t, 9 as char, e).parser == t.parser
            && Fills(s, r, Repeat(' ', 4 - s.column % 4))
            && r.column == (s.column / 4 * 4 + 4) % s.width
            && r.line == s.line + (s.column / 4 * 4 + 4) / s.width
  {
    hide Fills, Tab, GoodScreen;
    GoodColumn(t);
    TabFills(t.screen, 4 - t.screen.column % 4);
    FilledColumn(t.screen, Write(t, 9 as char, e).screen, Repeat(' ', 4 - t.screen.column % 4));
    assert t.screen.column + (4 - t.screen.column % 4) == t.screen.column / 4 * 4 + 4;
  }

  lemma FilledColumn(s: Screen, r: Screen, text: string)
    requires s.width > 0 && Fills(s, r, text)
    ensures r.column == (s.column + |text|) % s.width && r.line == s.line + (s.column + |text|) / s.width
  {
  }

  lemma {:induction false} TabFills(s: Screen, spaces: nat)
    requires GoodScreen(s)
    ensures Fills(s, Tab(s, spaces), Repeat(' ', spaces))
    decreases spaces
  {
    hide Fills, BufferChar, DrawChar, Drawn;
    if spaces == 0 {
      FillsNothing(s);
      assert Repeat(' ', 0) == "";
    } else {
      var u := DrawChar(BufferChar(s, ' '), ' ');
      DrawnEither(s, ' ');
      TabFills(u, spaces - 1);
      assert Repeat(' ', spaces)[1..] == Repeat(' ', spaces - 1);
      FillsOne(s, u, Tab(s, spaces), Repeat(' ', spaces));
    }
  }

  // ---- cursor commands ---------------------------------------------------------------------------------

  /** Right and left by n columns, up to the last and the first one. */
  lemma RightAndLeft(t: Terminal, n: U8, e: Eraser)
    requires Good(t) && t.parser == CLEAN
    ensures var s, k := t.screen, if n == 0 then 1 else n as int;
            && WriteAll(t, CommandBytes('C', [n]), e)
               == Terminal(CLEAN, s.(column := if s.column + k < s.width then s.column + k else s.width - 1))
            && WriteAll(t, CommandBytes('D', [n]), e)
               == Terminal(CLEAN, s.(column := if s.column >= k then s.column - k else 0))
  {
    hide CommandBytes, WriteAll, GoodScreen;
    CommandArrives(t, 'C', [n], e);
    CommandArrives(t, 'D', [n], e);
  }

  /** The view after scrolling to the cursor: from the cursor's line down, or with it as the last visible line. */
  function ViewOfCursor(s: Screen): int {
    if s.viewport <= s.line < s.viewport + s.height then s.viewport
    else if s.line < s.viewport then (if s.line >= 0 then s.line else 0)
    else if s.line < |s.lines| then s.line - s.height + 1
    else |s.lines| - s.height
  }

  lemma ViewScrolled(s: Screen)
    ensures ScrollToCursor(s) == s.(viewport := ViewOfCursor(s))
  {
  }

  /**
   * Up and down by n lines of the screen, after it was scrolled to the cursor: down to the last visible line, up
   * within the screen, or else to the first line of the buffer.
   */
  lemma UpAndDown(t: Terminal, n: U8, e: Eraser)
    requires Good(t) && t.parser == CLEAN
    ensures var s, k, v := t.screen, if n == 0 then 1 else n as int, ViewOfCursor(t.screen);
            && WriteAll(t, CommandBytes('A', [n]), e)
               == Terminal(CLEAN, s.(viewport := v, line := if s.line - k >= v then s.line - k else 0))
            && WriteAll(t, CommandBytes('B', [n]), e)
               == Terminal(CLEAN, s.(viewport := v,
                                     line := if s.line + k < v + s.height then s.line + k else v + s.height - 1))
  {
    hide CommandBytes, WriteAll, GoodScreen, ScrollToCursor, ViewOfCursor;
    CommandArrives(t, 'A', [n], e);
    CommandArrives(t, 'B', [n], e);
    ViewScrolled(t.screen);
  }

  /**
   * The absolute position counts columns and lines of the screen from one; what is behind the end is the end, and
   * a line that is not given is the first.
   */
  lemma PositionSet(t: Terminal, args: seq<U8>, e: Eraser)
    requires Good(t) && t.parser == CLEAN && t.screen.height > 0 && 1 <= |args| <= 2
    ensures var s, row := t.screen, if |args| == 2 then args[1] else 0;
            WriteAll(t, CommandBytes('H', args), e) == Terminal(CLEAN,
            s.(column := if args[0] == 0 then 0 else if args[0] <= s.width then args[0] - 1 else s.width - 1,
               line := s.viewport + if row == 0 then 0 else if row <= s.height then row - 1 else s.height - 1))
  {
    hide CommandBytes, WriteAll, GoodScreen, Execute;
    CommandArrives(t, 'H', args, e);
    Positioned(t.screen, args, e);
  }

  lemma Positioned(s: Screen, args: seq<U8>, e: Eraser)
    requires GoodScreen(s) && s.height > 0 && 1 <= |args| <= 2
    ensures var row := if |args| == 2 then args[1] else 0;
            Execute(s, 'H', args, e) ==
            s.(column := if args[0] == 0 then 0 else if args[0] <= s.width then args[0] - 1 else s.width - 1,
               line := s.viewport + if row == 0 then 0 else if row <= s.height then row - 1 else s.height - 1)
  {
    hide Erase, SelectGraphics, ScrollBack, ScrollToCursor;
  }

  /** Text written behind an absolute position begins in the cell with those coordinates. */
  lemma TextAtPosition(t: Terminal, column: U8, row: U8, text: string, e: Eraser)
    requires Good(t) && t.parser == CLEAN && 1 <= column <= t.screen.width && 1 <= row <= t.screen.height
    requires Drawable(text)
    ensures var s, r := t.screen, WriteAll(t, CommandBytes('H', [column, row]) + text, e).screen;
            && |r.glyphs| == |s.glyphs| + |text|
            && forall k :: 0 <= k < |text| && column - 1 + k < s.width ==>
                 r.glyphs[|s.glyphs| + k] == Glyph(text[k], column - 1 + k, row - 1, s.bg, s.fg)
  {
    hide CommandBytes, WriteAll, GoodScreen;
    AlwaysGood(t, CommandBytes('H', [column, row]), e);
    GoodColumn(t);
    PositionSet(t, [column, row], e);
    WriteAllAppend(t, CommandBytes('H', [column, row]), text, e);
    var u := WriteAll(t, CommandBytes('H', [column, row]), e);
    TextFillsCells(u, text, e);
    forall k | 0 <= k < |text| && column - 1 + k < t.screen.width
      ensures CellBehind(u.screen, k, text[k]) == Glyph(text[k], column - 1 + k, row - 1, t.screen.bg, t.screen.fg)
    {
      NextCell(column - 1 + k, t.screen.width, 0);
    }
  }

  /** Going right and then left by n leads back exactly when the way right was free, or began in the first column. */
  lemma RightAndBack(t: Terminal, n: U8, e: Eraser)
    requires Good(t) && t.parser == CLEAN
    ensures WriteAll(t, CommandBytes('C', [n]) + CommandBytes('D', [n]), e) == t
            <==> t.screen.column + (if n == 0 then 1 else n) < t.screen.width || t.screen.column == 0
  {
    hide CommandBytes, WriteAll, GoodScreen;
    AlwaysGood(t, CommandBytes('C', [n]), e);
    GoodColumn(t);
    WriteAllAppend(t, CommandBytes('C', [n]), CommandBytes('D', [n]), e);
    RightAndLeft(t, n, e);
    RightAndLeft(WriteAll(t, CommandBytes('C', [n]), e), n, e);
  }

  /** Scrolling moves the view only: back to the first line of the buffer, or on until the last one is visible. */
  lemma ScrollsView(t: Terminal, n: U8, e: Eraser)
    requires Good(t) && t.parser == CLEAN
    ensures var s, k := t.screen, if n == 0 then 1 else n as int;
            && WriteAll(t, CommandBytes('S', [n]), e)
               == Terminal(CLEAN, s.(viewport := if s.viewport >= k then s.viewport - k else 0))
            && WriteAll(t, CommandBytes('T', [n]), e)
               == Terminal(CLEAN, s.(viewport := if s.viewport + k + s.height <= |s.lines| then s.viewport + k
                                                 else |s.lines| - s.height))
  {
    hide CommandBytes, WriteAll, GoodScreen, Execute;
    CommandArrives(t, 'S', [n], e);
    CommandArrives(t, 'T', [n], e);
    ViewCommands(t.screen, n, e);
    ViewMoved(t.screen, if n == 0 then 1 else n);
  }

  lemma ViewCommands(s: Screen, n: U8, e: Eraser)
    requires GoodScreen(s)
    ensures Execute(s, 'S', [n], e) == ScrollBack(s, -(if n == 0 then 1 else n))
    ensures Execute(s, 'T', [n], e) == ScrollBack(s, if n == 0 then 1 else n)
  {
    hide ScrollBack, ScrollToCursor, Erase, SelectGraphics, GoodScreen;
  }

  lemma ViewMoved(s: Screen, k: int)
    requires k > 0
    ensures ScrollBack(s, -k) == s.(viewport := if s.viewport >= k then s.viewport - k else 0)
    ensures ScrollBack(s, k) == s.(viewport := if s.viewport + k + s.height <= |s.lines| then s.viewport + k
                                               else |s.lines| - s.height)
  {
  }

  /** Erasing scrolls to the cursor and leaves it where it is; only the argument 3 of J takes lines away, and all. */
  lemma ErasingKeepsCursor(t: Terminal, selector: char, n: U8, e: Eraser)
    requires Good(t) && t.parser == CLEAN && (selector == 'J' || selector == 'K')
    ensures var s, r := t.screen, WriteAll(t, CommandBytes(selector, [n]), e).screen;
            && r == s.(viewport := if s.lines == [] then s.viewport else ViewOfCursor(s), lines := r.lines)
            && |r.lines| == if selector == 'J' && n == 3 then 0 else |s.lines|
  {
    hide CommandBytes, WriteAll, ScrollToCursor, ViewOfCursor;
    CommandArrives(t, selector, [n], e);
    ViewScrolled(t.screen);
  }

  /** 38 and 48 with a 2 behind them set a colour, a single 0 sets both defaults; nothing is drawn or moved. */
  lemma GraphicsSelected(t: Terminal, red: U8, green: U8, blue: U8, e: Eraser)
    requires Good(t) && t.parser == CLEAN
    ensures var s, r := t.screen, WriteAll(t, CommandBytes('m', [38, 2, red, green, blue]), e).screen;
            r == s.(fg := Pixel(red, green, blue, 0), lines := r.lines)
    ensures var s, r := t.screen, WriteAll(t, CommandBytes('m', [48, 2, red, green, blue]), e).screen;
            r == s.(bg := Pixel(red, green, blue, 0), lines := r.lines)
    ensures var s, r := t.screen, WriteAll(t, CommandBytes('m', [0]), e).screen;
            r == s.(bg := s.defaultBg, fg := s.defaultFg, lines := r.lines)
  {
    hide CommandBytes, WriteAll, GoodScreen, Execute;
    CommandArrives(t, 'm', [38, 2, red, green, blue], e);
    CommandArrives(t, 'm', [48, 2, red, green, blue], e);
    CommandArrives(t, 'm', [0], e);
    Selected(t.screen, [38, 2, red, green, blue], e);
    Selected(t.screen, [48, 2, red, green, blue], e);
    Selected(t.screen, [0], e);
  }

  lemma Selected(s: Screen, args: seq<U8>, e: Eraser)
    requires GoodScreen(s) && args != []
    ensures var r := Execute(s, 'm', args, e);
            && (|args| == 5 && args[..2] == [38, 2] ==>
                  r == s.(fg := Pixel(args[2], args[3], args[4], 0), lines := r.lines))
            && (|args| == 5 && args[..2] == [48, 2] ==>
                  r == s.(bg := Pixel(args[2], args[3], args[4], 0), lines := r.lines))
            && (args == [0] ==> r == s.(bg := s.defaultBg, fg := s.defaultFg, lines := r.lines))
  {
    hide StyleRawText, ScrollBack, ScrollToCursor, Erase, GoodLine;
    assert |args| == 5 ==> args[..2][0] == args[0] && args[..2][1] == args[1];
  }

  // ---- bytes outside commands --------------------------------------------------------------------------

  /** The characters that mean something to the interpreter. */
  lemma CharacterClasses(ch: char)
    ensures IsSelector(ch) <==> ch in "ABCDHJKSTm"
    ensures IsControl(ch) <==> ch as int in {8, 9, 10, 13}
    ensures IsDecimal(ch) <==> ch in "0123456789"
    ensures ESC as int == 27
  {
    if IsDecimal(ch) {
      assert "0123456789"[ch as int - 48] == ch;
    }
  }

  /** Three digits are an argument modulo 256. */
  lemma ThreeDigitArgument(a: nat, b: nat, c: nat)
    requires a < 10 && b < 10 && c < 10
    ensures ArgumentValue([HexChar(a), HexChar(b), HexChar(c)]) == (100 * a + 10 * b + c) % 256
  {
    hide Value, HexChar, DigitVal;
    HexCharRoundTrip(a);
    HexCharRoundTrip(b);
    HexCharRoundTrip(c);
    NoValue();
    InFront("", HexChar(a));
    InFront([HexChar(a)], HexChar(b));
    InFront([HexChar(a), HexChar(b)], HexChar(c));
    assert "" + [HexChar(a)] == [HexChar(a)];
    assert [HexChar(a)] + [HexChar(b)] == [HexChar(a), HexChar(b)];
    assert [HexChar(a), HexChar(b)] + [HexChar(c)] == [HexChar(a), HexChar(b), HexChar(c)];
  }

  /** An escape character that begins no command vanishes, and the character behind it is drawn, whatever it is. */
  lemma EscapedCharacter(t: Terminal, ch: char, e: Eraser)
    requires Good(t) && t.parser.state == CHARACTER && ch != '['
    ensures var r := WriteAll(t, [27 as char, ch], e);
            && r.parser == t.parser && (if ch == '\0' then r.screen == t.screen else Drawn(t.screen, r.screen, ch))
  {
    hide GoodScreen, BufferChar, DrawChar, Drawn;
    var u := t.(parser := t.parser.(state := CSI_BEGIN));
    assert Write(t, ESC, e) == u && ESC == 27 as char;
    assert [ESC, ch][1..] == [ch];
    OneByte(u, ch, e);
    DrawnEither(t.screen, ch);
  }

  /** A separator that finds no room for another argument is passed over. */
  lemma SeparatorWithoutRoom(t: Terminal, e: Eraser)
    requires Good(t) && t.parser.state == CSI_ARG && |t.parser.args| == 5
    ensures Write(t, ';', e) == t
  {
    hide GoodScreen;
  }
}
