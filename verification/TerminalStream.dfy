/** The terminal: it interprets escape sequences and keeps a cursor and a scroll-back buffer (App/TerminalStream). */
module TerminalStreams {
  import opened Machine
  import opened Numerals
  import opened TerminalRules
  import T = TerminalRules
  import C = ColorRules
  import M = FormatMachine
  import I = Interpolate

  /** Opened digit buffers are filled from the left; what is not in use is zero. */
  class TerminalStream {
    const width: nat
    const height: nat
    const defaultBg: Pixel
    const defaultFg: Pixel
    const eraser: Eraser

    var state: InterpreterState
    const csiArgv: array<U8>
    var csiArgc: nat
    const digitBuf: array<char>
    var digitBufOffset: nat

    var viewport: int
    var line: int
    var column: int
    var bg: Pixel
    var fg: Pixel
    var lines: seq<TextLine>
    var glyphs: seq<Glyph>

    constructor (width: nat, height: nat, defBg: Pixel, defFg: Pixel, eraser: Eraser)
      requires width > 0
      ensures Valid() && fresh(csiArgv) && fresh(digitBuf)
      ensures this.width == width && this.height == height && this.eraser == eraser
      ensures State() == NewTerminal(width, height, defBg, defFg)
    {
      this.width, this.height, this.eraser := width, height, eraser;
      defaultBg, defaultFg, bg, fg := defBg, defFg, defBg, defFg;
      state, csiArgc, digitBufOffset := CHARACTER, 0, 0;
      viewport, line, column := 0, 0, 0;
      lines, glyphs := [], [];
      csiArgv := new U8[CSI_ARGV_BUF_SIZE](_ => 0);
      digitBuf := new char[DIGIT_BUF_SIZE](_ => '\0');
    }

    function View(): Screen
      reads this
    {
      Screen(width, height, viewport, line, column, bg, fg, defaultBg, defaultFg, lines, glyphs)
    }

    ghost predicate ValidBuffers()
      reads this, csiArgv, digitBuf
    {
      && csiArgv.Length == CSI_ARGV_BUF_SIZE && digitBuf.Length == DIGIT_BUF_SIZE
      && csiArgc <= CSI_ARGV_BUF_SIZE && digitBufOffset <= DIGIT_BUF_SIZE
      && (forall k :: csiArgc <= k < CSI_ARGV_BUF_SIZE ==> csiArgv[k] == 0)
      && (forall k :: digitBufOffset <= k < DIGIT_BUF_SIZE ==> digitBuf[k] == '\0')
    }

    ghost function ParserState(): Parser
      requires ValidBuffers()
      reads this, csiArgv, digitBuf
    {
      Parser(state, csiArgv[..csiArgc], digitBuf[..digitBufOffset])
    }

    ghost function State(): Terminal
      requires ValidBuffers()
      reads this, csiArgv, digitBuf
    {
      Terminal(ParserState(), View())
    }

    ghost predicate Valid()
      reads this, csiArgv, digitBuf
    {
      ValidBuffers() && Good(State())
    }

    // ---- text buffering ----------------------------------------------------------------------------------

    /** The buffer gets a line when it has none. */
    method ScrollBackBufferGetLastLine()
      modifies this`lines
      ensures View() == WithLastLine(old(View()))
    {
      if lines == [] {
        lines := [EMPTY_LINE];
      }
    }

    method ScrollBackBufferAppendChar(ch: char)
      requires GoodScreen(View())
      modifies this`lines
      ensures View() == BufferChar(old(View()), ch)
    {
      ScrollBackBufferGetLastLine();
      lines := lines[..|lines| - 1] + [AppendChar(lines[|lines| - 1], ch)];
    }

    /** Drops the oldest lines, one by one, until there is room for another. */
    method DropOldest()
      requires lines != []
      modifies this`lines
      ensures lines == Kept(old(lines)) && lines != []
    {
      ghost var all := lines;
      while |lines| >= SCROLL_BACK_BUFFER_LIMIT
        invariant 0 < |lines| <= |all| && lines == all[|all| - |lines|..]
        invariant |lines| >= Min(SCROLL_BACK_BUFFER_LIMIT - 1, |all|)
      {
        assert all[|all| - |lines|..][1..] == all[|all| - |lines| + 1..];
        lines := lines[1..];
      }
    }

    method ScrollBackBufferAppendNewLine()
      requires GoodScreen(View())
      modifies this`lines
      ensures View() == AppendLine(old(View()))
    {
      if lines == [] {
        lines := [EMPTY_LINE];
        return;
      }
      DropOldest();
      lines := lines[..|lines| - 1] + [StyleRawText(lines[|lines| - 1], bg, fg)];
      lines := lines + [EMPTY_LINE];
    }

    method StyleRawTextOfLastLine()
      requires GoodScreen(View())
      modifies this`lines
      ensures View() == StyleLastLine(old(View()))
    {
      ScrollBackBufferGetLastLine();
      lines := lines[..|lines| - 1] + [StyleRawText(lines[|lines| - 1], bg, fg)];
    }

    // ---- drawing and scrolling ---------------------------------------------------------------------------

    /** Moves the viewport; drawing the lines it uncovers is not part of this model. */
    method ScrollBack(count: int)
      modifies this`viewport
      ensures View() == T.ScrollBack(old(View()), count)
    {
      if count == 0 {
        return;
      }
      if count > 0 {
        viewport := Min(viewport + count, |lines| - height);
      } else {
        if viewport == 0 {
          return;
        }
        viewport := if viewport >= -count then viewport + count else 0;
      }
    }

    method DrawChar(ch: char)
      requires GoodScreen(View())
      modifies this`glyphs, this`column, this`line
      ensures View() == T.DrawChar(old(View()), ch)
    {
      glyphs := glyphs + [Glyph(ch, column, line - viewport, bg, fg)];
      column := column + 1;
      if column >= width {
        column := 0;
        line := line + 1;
      }
    }

    method ScrollToCursor()
      modifies this`viewport
      ensures View() == T.ScrollToCursor(old(View()))
    {
      var screenLine := line - viewport;
      if !(0 <= screenLine < height) {
        var direction := if line >= viewport then 1 else -1;
        var distance := if direction >= 0 then line - (viewport + height) + 1 else viewport - line;
        ScrollBack(direction * distance);
      }
    }

    // ---- the interpreter ---------------------------------------------------------------------------------

    /** The value of the digits, in 8 bits; the buffer is emptied. */
    method ParseCsiArg() returns (val: U8)
      requires ValidBuffers() && GoodParser(ParserState())
      modifies this`digitBufOffset, digitBuf
      ensures ValidBuffers() && digitBufOffset == 0
      ensures val == ArgumentValue(old(digitBuf[..digitBufOffset]))
    {
      hide Pow, ArgumentValue;
      ghost var digits := digitBuf[..digitBufOffset];
      val := 0;
      NoDigits();
      var powerTen := [100, 10, 1];
      var diffToPTen := DIGIT_BUF_SIZE - digitBufOffset;
      var pos := digitBufOffset - 1;
      assert digits[|digits|..] == [];
      while pos >= 0
        invariant digitBufOffset == old(digitBufOffset) && -1 <= pos < digitBufOffset
                  && digitBuf[..digitBufOffset] == digits
        invariant val == ArgumentValue(digits[pos + 1..])
      {
        var digit: int := if digitBuf[pos] as int > 0 then digitBuf[pos] as int - DIGIT_MIN else 0;
        DigitPlace(digits, pos);
        val := Wrap8(val + digit * powerTen[pos + diffToPTen]);
        pos := pos - 1;
      }
      assert digits[0..] == digits;
      forall k | 0 <= k < DIGIT_BUF_SIZE {
        digitBuf[k] := '\0';
      }
      digitBufOffset := 0;
    }

    /** One of the five commands that move the cursor. */
    method MoveCursor(selector: char)
      requires ValidBuffers() && GoodScreen(View())
      requires selector == 'A' || selector == 'B' || selector == 'C' || selector == 'D' || selector == 'H'
      modifies this`viewport, this`line, this`column
      ensures View() == Execute(old(View()), selector, csiArgv[..csiArgc], eraser)
    {
      var steps: int := csiArgv[0];
      if steps == 0 {
        steps := 1;
      }
      match selector {
        case 'A' =>
          ScrollToCursor();
          var screenLine := line - viewport;
          line := if screenLine >= steps then screenLine - steps + viewport else 0;
        case 'B' =>
          ScrollToCursor();
          var screenLine := line - viewport;
          line := (if steps < height - screenLine then screenLine + steps else height - 1) + viewport;
        case 'C' =>
          column := if steps < width - column then column + steps else width - 1;
        case 'D' =>
          column := if column >= steps then column - steps else 0;
        case _ =>
          var row: int := if csiArgc < 2 then 0 else csiArgv[1] as int - 1;
          line := Clamp(row, height) + viewport;
          var col: int := if csiArgc < 1 then 0 else csiArgv[0] as int - 1;
          column := Clamp(col, width);
      }
    }

    /** Select graphic rendition. */
    method SelectGraphicRendition()
      requires ValidBuffers() && GoodScreen(View())
      modifies this`lines, this`fg, this`bg
      ensures View() == SelectGraphics(old(View()), csiArgv[..csiArgc])
    {
      StyleRawTextOfLastLine();
      var color := Pixel(csiArgv[2], csiArgv[3], csiArgv[4], 0);
      if csiArgv[0] == SGR_SET_FOREGROUND && csiArgv[1] == 2 {
        fg := color;
      } else if csiArgv[0] == SGR_SET_BACKGROUND && csiArgv[1] == 2 {
        bg := color;
      } else if csiArgv[0] == 0 {
        fg := defaultFg;
        bg := defaultBg;
      }
    }

    /** Erasing moves the viewport to the cursor; command J with 3 forgets every line. */
    method EraseText(selector: char)
      requires ValidBuffers() && GoodScreen(View())
      modifies this`viewport, this`lines
      ensures View() == Erase(old(View()), selector, csiArgv[..csiArgc], eraser)
    {
      if lines == [] {
        return;
      }
      var left := eraser(View(), selector, csiArgv[0]);
      ScrollToCursor();
      if selector == 'J' && csiArgv[0] == 3 {
        lines := [];
      } else if |left| == |lines| && (forall i :: 0 <= i < |left| ==> GoodLine(left[i])) {
        lines := left;
      }
    }

    method ExecCsiCommand(selector: char)
      requires ValidBuffers() && GoodScreen(View())
      modifies this`viewport, this`line, this`column, this`lines, this`fg, this`bg, this`csiArgc, csiArgv
      ensures ValidBuffers() && csiArgc == 0
      ensures View() == Execute(old(View()), selector, old(csiArgv[..csiArgc]), eraser)
    {
      hide GoodScreen, SelectGraphics, Erase, T.ScrollBack;
      var amount: int := if csiArgv[0] == 0 then 1 else csiArgv[0];
      match selector {
        case 'm' => SelectGraphicRendition();
        case 'A' => MoveCursor(selector);
        case 'B' => MoveCursor(selector);
        case 'C' => MoveCursor(selector);
        case 'D' => MoveCursor(selector);
        case 'H' => MoveCursor(selector);
        case 'J' => EraseText(selector);
        case 'K' => EraseText(selector);
        case 'S' => ScrollBack(-amount);
        case 'T' => ScrollBack(amount);
        case _ =>
      }
      forall k | 0 <= k < CSI_ARGV_BUF_SIZE {
        csiArgv[k] := 0;
      }
      csiArgc := 0;
    }

    /** A control code; whether it was one. */
    method InterpretControl(ch: char) returns (ret: bool)
      requires GoodScreen(View())
      modifies this`viewport, this`line, this`column, this`lines, this`glyphs
      ensures ret <==> IsControl(ch)
      ensures View() == Controlled(old(View()), ch)
    {
      ret := IsControl(ch);
      if ch == BACKSPACE {
        if column > 0 {
          column := column - 1;
        }
      } else if ch == '\t' {
        var spaces := TAB_STOP - column % TAB_STOP;
        var i := 0;
        while i < spaces
          invariant 0 <= i <= spaces && GoodScreen(View())
          invariant Tab(old(View()), spaces) == Tab(View(), spaces - i)
        {
          ScrollBackBufferAppendChar(' ');
          DrawChar(' ');
          i := i + 1;
        }
      } else if ch == '\n' {
        ScrollBackBufferAppendNewLine();
        line := line + 1;
        column := 0;
        if line - viewport == height {
          ScrollBack(1);
        }
      } else if ch == '\r' {
        column := 0;
        ScrollBackBufferGetLastLine();
        lines := lines[..|lines| - 1] + [EMPTY_LINE];
      }
    }

    /** Interprets a byte; the result says that it must not be drawn. */
    method InterpretChar(ch: char) returns (ret: bool)
      requires Valid()
      modifies this, csiArgv, digitBuf
      ensures ValidBuffers()
      ensures var (p, a) := Feed(old(ParserState()), ch);
              && ParserState() == p && (ret <==> !a.Draw?)
              && View() == if a.Draw? then old(View()) else Perform(old(View()), a, ch, eraser)
    {
      hide GoodScreen, Execute, Controlled, ArgumentValue;
      match state {
        case CHARACTER =>
          if ch == ESC {
            state := CSI_BEGIN;
            return true;
          }
          ret := InterpretControl(ch);
          if !ret {
            NoControl(old(View()), ch);
          }
        case CSI_BEGIN =>
          if ch == '[' {
            state := CSI_ARG;
            return true;
          }
          state := CHARACTER;
          return false;
        case CSI_ARG =>
          ret := InterpretArgument(ch);
      }
    }

    /** A byte inside a control sequence. */
    method InterpretArgument(ch: char) returns (ret: bool)
      requires Valid() && state == CSI_ARG
      modifies this, csiArgv, digitBuf
      ensures ValidBuffers()
      ensures var (p, a) := Feed(old(ParserState()), ch);
              && ParserState() == p && (ret <==> !a.Draw?)
              && View() == if a.Draw? then old(View()) else Perform(old(View()), a, ch, eraser)
    {
      hide GoodScreen, Execute, Controlled, ArgumentValue;
      ret := true;
      if IsDecimal(ch) {
        if digitBufOffset < DIGIT_BUF_SIZE && csiArgc < CSI_ARGV_BUF_SIZE {
          digitBuf[digitBufOffset] := ch;
          digitBufOffset := digitBufOffset + 1;
          assert digitBuf[..digitBufOffset] == old(digitBuf[..digitBufOffset]) + [ch];
          return;
        }
        state := CHARACTER;
        return false;
      } else if ch == ';' || IsSelector(ch) {
        if csiArgc < CSI_ARGV_BUF_SIZE {
          var val := ParseCsiArg();
          csiArgv[csiArgc] := val;
          csiArgc := csiArgc + 1;
          assert csiArgv[..csiArgc] == old(csiArgv[..csiArgc]) + [val];
        }
        assert csiArgv[..csiArgc] == Arguments(old(ParserState()));
        if IsSelector(ch) {
          ExecCsiCommand(ch);
          state := CHARACTER;
        }
      } else {
        state := CHARACTER;
        return false;
      }
    }

    /** Writes one byte. */
    method Write(value: char)
      requires Valid()
      modifies this, csiArgv, digitBuf
      ensures Valid() && State() == T.Write(old(State()), value, eraser)
    {
      WriteKeeps(State(), value, eraser);
      hide GoodScreen, Feed, Execute, Controlled, BufferChar, T.DrawChar;
      var swallowed := InterpretChar(value);
      if !swallowed && value != '\0' {
        DrawChar(value);
        ScrollBackBufferAppendChar(value);
      }
    }

    /** Writes a string byte by byte; a terminal accepts every byte. */
    method WriteString(msg: string) returns (charsWritten: nat)
      requires Valid()
      modifies this, csiArgv, digitBuf
      ensures Valid() && State() == WriteAll(old(State()), msg, eraser) && charsWritten == |msg|
    {
      hide GoodScreen, GoodParser, T.Write;
      charsWritten := 0;
      ghost var goal := WriteAll(State(), msg, eraser);
      assert msg[0..] == msg;
      while charsWritten < |msg|
        invariant charsWritten <= |msg| && Valid() && goal == WriteAll(State(), msg[charsWritten..], eraser)
      {
        assert msg[charsWritten..][1..] == msg[charsWritten + 1..];
        Write(msg[charsWritten]);
        charsWritten := charsWritten + 1;
      }
    }

    // ---- the style interface of text streams -------------------------------------------------------------

    /** Formats a colour with three placeholders and writes the result. */
    method WriteColor(fmt: string, color: Pixel)
      requires Valid() && '\0' !in fmt && C.FitsBuffer(fmt, color)
      modifies this, csiArgv, digitBuf
      ensures Valid() && State() == WriteAll(old(State()), C.Formatted(fmt, color), eraser)
    {
      hide Good, GoodScreen, M.Run, WriteAll;
      var buf := new char[C.FMT_BUF_SIZE];
      var n := I.Interpolate(fmt, buf, C.FMT_BUF_SIZE, C.ColorArguments(color));
      var _ := WriteString(buf[..n]);
    }

    method SetForegroundColor(color: Pixel)
      requires Valid()
      modifies this, csiArgv, digitBuf
      ensures Valid() && State() == WriteAll(old(State()), C.Bytes(C.SetForeground(color)), eraser)
      ensures old(State()).parser.state == CHARACTER ==>
                if C.HoldsNothing(old(State()).parser) then
                  State() == Terminal(CLEAN, StyleLastLine(old(View())).(fg := C.Opaque(color)))
                else
                  fg == old(fg) && bg == old(bg)
    {
      hide Good, GoodScreen, WriteAll, StyleLastLine, M.Run;
      C.ColorFormatted(color);
      if State().parser.state == CHARACTER {
        C.ColorReceived(State(), C.SetForeground(color), eraser);
      }
      WriteColor(C.FOREGROUND_FORMAT, color);
    }

    method SetBackgroundColor(color: Pixel)
      requires Valid()
      modifies this, csiArgv, digitBuf
      ensures Valid() && State() == WriteAll(old(State()), C.Bytes(C.SetBackground(color)), eraser)
      ensures old(State()).parser.state == CHARACTER ==>
                if C.HoldsNothing(old(State()).parser) then
                  State() == Terminal(CLEAN, StyleLastLine(old(View())).(bg := C.Opaque(color)))
                else
                  fg == old(fg) && bg == old(bg)
    {
      hide Good, GoodScreen, WriteAll, StyleLastLine, M.Run;
      C.ColorFormatted(color);
      if State().parser.state == CHARACTER {
        C.ColorReceived(State(), C.SetBackground(color), eraser);
      }
      WriteColor(C.BACKGROUND_FORMAT, color);
    }

    method ResetStyle()
      requires Valid()
      modifies this, csiArgv, digitBuf
      ensures Valid() && State() == WriteAll(old(State()), C.Bytes(C.ResetStyle), eraser)
      ensures old(State()).parser == CLEAN ==>
                State() == Terminal(CLEAN, StyleLastLine(old(View())).(fg := defaultFg, bg := defaultBg))
    {
      hide Good, GoodScreen, WriteAll, StyleLastLine;
      if State().parser == CLEAN {
        C.ColorArrives(State(), C.ResetStyle, eraser);
      }
      var _ := WriteString([ESC] + "[0m");
    }
  }

  lemma NoControl(s: Screen, ch: char)
    requires GoodScreen(s) && !IsControl(ch)
    ensures Controlled(s, ch) == s
  {
  }

  /** The arguments at the end of the one in progress. */
  ghost function Arguments(p: Parser): seq<U8> {
    if |p.args| < CSI_ARGV_BUF_SIZE then p.args + [ArgumentValue(p.digits)] else p.args
  }

  lemma NoDigits()
    ensures ArgumentValue("") == 0
  {
  }

  /** One more digit in front, with the power of ten its place has. */
  lemma DigitPlace(digits: string, pos: nat)
    requires pos < |digits| <= DIGIT_BUF_SIZE && forall i :: 0 <= i < |digits| ==> IsDecimal(digits[i])
    ensures var power := [100, 10, 1][pos + (DIGIT_BUF_SIZE - |digits|)];
            ArgumentValue(digits[pos..])
            == Wrap8(ArgumentValue(digits[pos + 1..]) + (digits[pos] as int - DIGIT_MIN) * power)
  {
    assert digits[pos..][1..] == digits[pos + 1..];
    assert Pow(10, 0) == 1 && Pow(10, 1) == 10 && Pow(10, 2) == 100;
  }
}
