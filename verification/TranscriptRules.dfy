/** The scroll-back buffer records what was drawn: the same characters, in the same colours. */
module TranscriptRules {
  import opened Machine
  import opened TerminalRules
  import opened CommandRules

  function InksOf(text: string, bg: Pixel, fg: Pixel): (r: seq<Ink>)
    ensures |r| == |text| && forall i :: 0 <= i < |text| ==> r[i] == Ink(text[i], bg, fg)
  {
    seq(|text|, i requires 0 <= i < |text| => Ink(text[i], bg, fg))
  }

  /** Pieces with their recorded colours. */
  function PieceInks(ps: seq<StyledText>): seq<Ink> {
    if ps == [] then []
    else
      var last := ps[|ps| - 1];
      PieceInks(ps[..|ps| - 1]) + InksOf(last.text, last.bg, last.fg)
  }

  /** A line; its raw text is meant in the current colours. */
  function LineInks(t: TextLine, bg: Pixel, fg: Pixel): seq<Ink>
    requires GoodLine(t)
  {
    PieceInks(t.styled[..|t.styled| - 1]) + InksOf(Raw(t), bg, fg)
  }

  function Transcript(lines: seq<TextLine>, bg: Pixel, fg: Pixel): seq<Ink>
    requires forall i :: 0 <= i < |lines| ==> GoodLine(lines[i])
  {
    if lines == [] then []
    else Transcript(lines[..|lines| - 1], bg, fg) + LineInks(lines[|lines| - 1], bg, fg)
  }

  predicate NoRaw(lines: seq<TextLine>) {
    forall i :: 0 <= i < |lines| ==> GoodLine(lines[i]) && Raw(lines[i]) == ""
  }

  predicate IsSuffix(a: seq<Ink>, b: seq<Ink>) { |a| <= |b| && b[|b| - |a|..] == a }

  /** Only the last line has raw text, and the buffer holds the end of what was drawn. */
  predicate Mirrors(s: Screen)
    requires GoodScreen(s)
  {
    && (s.lines != [] ==> NoRaw(s.lines[..|s.lines| - 1]))
    && IsSuffix(Transcript(s.lines, s.bg, s.fg), Inks(s.glyphs))
  }

  /** The buffer holds everything that was drawn. */
  predicate Whole(s: Screen)
    requires GoodScreen(s)
  {
    Transcript(s.lines, s.bg, s.fg) == Inks(s.glyphs)
  }

  // ---- the transcript under the buffer's operations ------------------------------------------------------

  lemma {:induction false} NoRawNoColor(lines: seq<TextLine>, bg: Pixel, fg: Pixel, bg': Pixel, fg': Pixel)
    requires NoRaw(lines)
    ensures Transcript(lines, bg, fg) == Transcript(lines, bg', fg')
  {
    if lines != [] {
      NoRawNoColor(lines[..|lines| - 1], bg, fg, bg', fg');
    }
  }

  lemma LineAppend(t: TextLine, ch: char, bg: Pixel, fg: Pixel)
    requires GoodLine(t)
    ensures LineInks(AppendChar(t, ch), bg, fg) == LineInks(t, bg, fg) + [Ink(ch, bg, fg)]
  {
    var r := AppendChar(t, ch);
    assert r.styled[..|r.styled| - 1] == t.styled[..|t.styled| - 1];
    assert InksOf(Raw(r), bg, fg) == InksOf(Raw(t), bg, fg) + [Ink(ch, bg, fg)];
  }

  /** Recording the colours of the raw text makes the line independent of the colours to come. */
  lemma LineStyle(t: TextLine, bg: Pixel, fg: Pixel, bg': Pixel, fg': Pixel)
    requires GoodLine(t)
    ensures LineInks(StyleRawText(t, bg, fg), bg', fg') == LineInks(t, bg, fg)
  {
    var r := StyleRawText(t, bg, fg);
    if Raw(t) != "" {
      var ps := r.styled[..|r.styled| - 1];
      assert ps[..|ps| - 1] == t.styled[..|t.styled| - 1];
      assert ps[|ps| - 1] == StyledText(Raw(t), bg, fg);
    }
  }

  lemma EmptyLine(bg: Pixel, fg: Pixel)
    ensures GoodLine(EMPTY_LINE) && LineInks(EMPTY_LINE, bg, fg) == []
  {
  }

  lemma TranscriptLast(lines: seq<TextLine>, t: TextLine, bg: Pixel, fg: Pixel)
    requires forall i :: 0 <= i < |lines| ==> GoodLine(lines[i])
    requires GoodLine(t)
    ensures Transcript(lines + [t], bg, fg) == Transcript(lines, bg, fg) + LineInks(t, bg, fg)
  {
    assert (lines + [t])[..|lines|] == lines;
  }

  /** Forgetting the oldest lines keeps the end of the transcript. */
  lemma {:induction false} TranscriptDrop(lines: seq<TextLine>, n: nat, bg: Pixel, fg: Pixel)
    requires n <= |lines| && forall i :: 0 <= i < |lines| ==> GoodLine(lines[i])
    ensures IsSuffix(Transcript(lines[n..], bg, fg), Transcript(lines, bg, fg))
  {
    if n < |lines| {
      var m := |lines| - 1;
      TranscriptDrop(lines[..m], n, bg, fg);
      assert lines[n..][..m - n] == lines[..m][n..];
      SuffixAppend(Transcript(lines[..m][n..], bg, fg), Transcript(lines[..m], bg, fg), LineInks(lines[m], bg, fg));
    }
  }

  lemma SuffixAppend(a: seq<Ink>, b: seq<Ink>, c: seq<Ink>)
    requires IsSuffix(a, b)
    ensures IsSuffix(a + c, b + c)
  {
  }

  lemma SuffixOfSuffix(a: seq<Ink>, b: seq<Ink>, c: seq<Ink>)
    requires IsSuffix(a, b) && IsSuffix(b, c)
    ensures IsSuffix(a, c)
  {
    assert c[|c| - |a|..] == c[|c| - |b|..][|b| - |a|..];
  }

  lemma BufferCharRecords(s: Screen, ch: char)
    requires GoodScreen(s) && (s.lines != [] ==> NoRaw(s.lines[..|s.lines| - 1]))
    ensures var r := BufferChar(s, ch);
            && r == s.(lines := r.lines) && NoRaw(r.lines[..|r.lines| - 1])
            && Transcript(r.lines, s.bg, s.fg) == Transcript(s.lines, s.bg, s.fg) + [Ink(ch, s.bg, s.fg)]
  {
    EmptyLine(s.bg, s.fg);
    var w := WithLastLine(s);
    var front, last := w.lines[..|w.lines| - 1], LastLine(w);
    assert w.lines == front + [last];
    TranscriptLast(front, last, s.bg, s.fg);
    LineAppend(last, ch, s.bg, s.fg);
    TranscriptLast(front, AppendChar(last, ch), s.bg, s.fg);
    assert BufferChar(s, ch).lines[..|front|] == front;
    hide LineInks;
  }

  lemma StyleLastRecords(s: Screen, bg: Pixel, fg: Pixel)
    requires GoodScreen(s) && (s.lines != [] ==> NoRaw(s.lines[..|s.lines| - 1]))
    ensures var r := StyleLastLine(s);
            && r == s.(lines := r.lines) && NoRaw(r.lines)
            && Transcript(r.lines, bg, fg) == Transcript(s.lines, s.bg, s.fg)
  {
    EmptyLine(s.bg, s.fg);
    var w := WithLastLine(s);
    var front, last := w.lines[..|w.lines| - 1], LastLine(w);
    assert w.lines == front + [last];
    TranscriptLast(front, last, s.bg, s.fg);
    LineStyle(last, s.bg, s.fg, bg, fg);
    TranscriptLast(front, StyleRawText(last, s.bg, s.fg), bg, fg);
    NoRawNoColor(front, s.bg, s.fg, bg, fg);
    assert StyleLastLine(s).lines == front + [StyleRawText(last, s.bg, s.fg)];
    hide LineInks;
  }

  lemma AppendLineRecords(s: Screen)
    requires GoodScreen(s) && Mirrors(s)
    ensures var r := AppendLine(s);
            && r == s.(lines := r.lines) && Mirrors(r)
            && (Whole(s) && |s.lines| < SCROLL_BACK_BUFFER_LIMIT ==> Whole(r))
  {
    EmptyLine(s.bg, s.fg);
    if s.lines == [] {
      TranscriptLast([], EMPTY_LINE, s.bg, s.fg);
      assert [] + [EMPTY_LINE] == [EMPTY_LINE];
    } else {
      var n := if |s.lines| >= SCROLL_BACK_BUFFER_LIMIT then |s.lines| - SCROLL_BACK_BUFFER_LIMIT + 1 else 0;
      var k := s.(lines := s.lines[n..]);
      assert AppendLine(s).lines == StyleLastLine(k).lines + [EMPTY_LINE];
      assert n == 0 ==> k.lines == s.lines;
      DropRecords(s, n);
      hide StyleLastLine, LineInks, InksOf, Inks;
      NewLineRecords(k);
    }
  }

  lemma DropRecords(s: Screen, n: nat)
    requires GoodScreen(s) && Mirrors(s) && n < |s.lines|
    ensures var k := s.(lines := s.lines[n..]); GoodScreen(k) && Mirrors(k)
  {
    var k := s.(lines := s.lines[n..]);
    TranscriptDrop(s.lines, n, s.bg, s.fg);
    assert k.lines[..|k.lines| - 1] == s.lines[..|s.lines| - 1][n..];
    hide Transcript, Inks;
    SuffixOfSuffix(Transcript(k.lines, s.bg, s.fg), Transcript(s.lines, s.bg, s.fg), Inks(s.glyphs));
  }

  lemma NewLineRecords(s: Screen)
    requires GoodScreen(s) && Mirrors(s) && 0 < |s.lines| < SCROLL_BACK_BUFFER_LIMIT
    ensures var r := s.(lines := StyleLastLine(s).lines + [EMPTY_LINE]);
            GoodScreen(r) && Mirrors(r) && (Whole(s) ==> Whole(r))
  {
    StyleLastRecords(s, s.bg, s.fg);
    var styled := StyleLastLine(s).lines;
    EmptyLine(s.bg, s.fg);
    assert |styled| == |s.lines|;
    hide StyleLastLine, LineInks, Inks;
    TranscriptLast(styled, EMPTY_LINE, s.bg, s.fg);
    assert (styled + [EMPTY_LINE])[..|styled|] == styled;
    assert Transcript(styled, s.bg, s.fg) + [] == Transcript(styled, s.bg, s.fg);
  }

  // ---- bytes ---------------------------------------------------------------------------------------------

  lemma DrawnGlyph(s: Screen, ch: char)
    requires GoodScreen(s)
    ensures var d := DrawChar(s, ch);
            Inks(d.glyphs) == Inks(s.glyphs) + [Ink(ch, s.bg, s.fg)] && d.bg == s.bg && d.fg == s.fg
              && d.lines == s.lines
  {
  }

  /** A drawn character is buffered, before or after drawing. */
  lemma DrawRecords(s: Screen, ch: char)
    requires GoodScreen(s) && Mirrors(s)
    ensures Mirrors(BufferChar(DrawChar(s, ch), ch)) && Mirrors(DrawChar(BufferChar(s, ch), ch))
    ensures Whole(s) ==> Whole(BufferChar(DrawChar(s, ch), ch)) && Whole(DrawChar(BufferChar(s, ch), ch))
  {
    hide BufferChar, DrawChar, Transcript, Inks, NoRaw, IsSuffix;
    var d, b := DrawChar(s, ch), BufferChar(s, ch);
    DrawnGlyph(s, ch);
    SuffixAppend(Transcript(s.lines, s.bg, s.fg), Inks(s.glyphs), [Ink(ch, s.bg, s.fg)]);
    BufferCharRecords(d, ch);
    BufferCharRecords(s, ch);
    DrawnGlyph(b, ch);
  }

  lemma {:induction false} TabRecords(s: Screen, spaces: nat)
    requires GoodScreen(s) && Mirrors(s)
    ensures Mirrors(Tab(s, spaces)) && (Whole(s) ==> Whole(Tab(s, spaces)))
    decreases spaces
  {
    hide Mirrors, Whole, GoodScreen, BufferChar, DrawChar;
    if spaces > 0 {
      DrawRecords(s, ' ');
      TabRecords(DrawChar(BufferChar(s, ' '), ' '), spaces - 1);
    }
  }

  /** The byte makes the terminal erase buffered text: a carriage return, or the command J or K. */
  predicate Erases(t: Terminal, ch: char) {
    match Feed(t.parser, ch).1
    case Control => ch == '\r'
    case Command(selector, _) => selector == 'J' || selector == 'K'
    case _ => false
  }

  /** The byte is a newline, and the buffer is full: the oldest line goes. */
  predicate Drops(t: Terminal, ch: char) {
    Feed(t.parser, ch).1 == Control && ch == '\n' && |t.screen.lines| >= SCROLL_BACK_BUFFER_LIMIT
  }

  predicate NeverDrops(t: Terminal, msg: string, e: Eraser)
    requires GoodScreen(t.screen)
    decreases |msg|
  {
    msg != "" ==> !Drops(t, msg[0]) && NeverDrops(Write(t, msg[0], e), msg[1..], e)
  }

  predicate NeverErases(t: Terminal, msg: string, e: Eraser)
    requires GoodScreen(t.screen)
    decreases |msg|
  {
    msg != "" ==> !Erases(t, msg[0]) && NeverErases(Write(t, msg[0], e), msg[1..], e)
  }

  lemma GraphicsRecord(s: Screen, args: seq<U8>)
    requires GoodScreen(s) && Mirrors(s)
    ensures Mirrors(SelectGraphics(s, args)) && (Whole(s) ==> Whole(SelectGraphics(s, args)))
  {
    var r := SelectGraphics(s, args);
    StyleLastRecords(s, r.bg, r.fg);
    hide Transcript;
  }

  lemma ByteRecords(t: Terminal, ch: char, e: Eraser)
    requires GoodScreen(t.screen) && Mirrors(t.screen) && !Erases(t, ch)
    ensures Mirrors(Write(t, ch, e).screen)
    ensures Whole(t.screen) && !Drops(t, ch) ==> Whole(Write(t, ch, e).screen)
  {
    var s, a := t.screen, Feed(t.parser, ch).1;
    hide Transcript, Feed, AppendLine, BufferChar, DrawChar, SelectGraphics, Tab, GoodLine;
    match a
    case Nothing =>
    case Draw =>
      DrawRecords(s, ch);
    case Control =>
      if ch == '\t' {
        TabRecords(s, TAB_STOP - s.column % TAB_STOP);
      } else if ch == '\n' {
        AppendLineRecords(s);
      }
    case Command(selector, args) =>
      if selector == 'm' {
        GraphicsRecord(s, args);
      }
  }

  /**
   * As long as nothing is erased, the scroll-back buffer of a terminal holds, line by line, the end of
   * everything drawn since it was created, each character in the colours it was drawn in; it holds everything
   * as long as no line was dropped.
   */
  lemma {:induction false} BufferRecordsScreen(t: Terminal, msg: string, e: Eraser)
    requires GoodScreen(t.screen) && Mirrors(t.screen) && NeverErases(t, msg, e)
    ensures Mirrors(WriteAll(t, msg, e).screen)
    ensures Whole(t.screen) && NeverDrops(t, msg, e) ==> Whole(WriteAll(t, msg, e).screen)
    decreases |msg|
  {
    hide Mirrors, Whole, Erases, Drops, GoodScreen, Write;
    if msg != "" {
      ByteRecords(t, msg[0], e);
      BufferRecordsScreen(Write(t, msg[0], e), msg[1..], e);
    }
  }

  lemma NewTerminalMirrors(width: nat, height: nat, bg: Pixel, fg: Pixel)
    requires width > 0
    ensures Good(NewTerminal(width, height, bg, fg))
    ensures Mirrors(NewTerminal(width, height, bg, fg).screen) && Whole(NewTerminal(width, height, bg, fg).screen)
  {
  }

  function Newlines(msg: string): nat {
    if msg == "" then 0 else (if msg[0] == '\n' then 1 else 0) + Newlines(msg[1..])
  }

  /** Up to 127 newlines written to a new terminal drop no line. */
  lemma {:induction false} FewLinesNeverDrop(t: Terminal, msg: string, e: Eraser)
    requires GoodScreen(t.screen) && Max(1, |t.screen.lines|) + Newlines(msg) <= SCROLL_BACK_BUFFER_LIMIT
    ensures NeverDrops(t, msg, e)
    decreases |msg|
  {
    hide GoodScreen, Write;
    if msg != "" {
      OneLineMore(t, msg[0], e);
      FewLinesNeverDrop(Write(t, msg[0], e), msg[1..], e);
    }
  }

  /** Only a newline adds a line, except for the first. */
  lemma OneLineMore(t: Terminal, ch: char, e: Eraser)
    requires GoodScreen(t.screen)
    ensures |Write(t, ch, e).screen.lines| <= Max(1, |t.screen.lines|) + if ch == '\n' then 1 else 0
  {
    hide GoodScreen, Feed, BufferChar, AppendLine, StyleLastLine, Tab, Execute, DrawChar, ScrollBack;
    var s, a := t.screen, Feed(t.parser, ch).1;
    LinesKept(s, ch);
    match a
    case Nothing =>
    case Draw => LinesKept(DrawChar(s, ch), ch);
    case Control => TabKeepsLines(s, TAB_STOP - s.column % TAB_STOP);
    case Command(selector, args) => CommandKeepsLines(s, selector, args, e);
  }

  lemma LinesKept(s: Screen, ch: char)
    requires GoodScreen(s)
    ensures |BufferChar(s, ch).lines| <= Max(1, |s.lines|) && |AppendLine(s).lines| <= |s.lines| + 1
    ensures |DrawChar(s, ch).lines| == |s.lines|
  {
    hide GoodScreen, StyleRawText, AppendChar;
  }

  lemma CommandKeepsLines(s: Screen, selector: char, args: seq<U8>, e: Eraser)
    requires GoodScreen(s)
    ensures |Execute(s, selector, args, e).lines| <= Max(1, |s.lines|)
  {
    hide GoodScreen, StyleRawText, ScrollBack, ScrollToCursor;
  }

  lemma {:induction false} TabKeepsLines(s: Screen, spaces: nat)
    requires GoodScreen(s)
    ensures |Tab(s, spaces).lines| <= Max(1, |s.lines|)
    decreases spaces
  {
    hide GoodScreen, BufferChar, DrawChar;
    if spaces > 0 {
      LinesKept(s, ' ');
      LinesKept(BufferChar(s, ' '), ' ');
      TabKeepsLines(DrawChar(BufferChar(s, ' '), ' '), spaces - 1);
    }
  }

  // ---- the sizes of the lines ----------------------------------------------------------------------------

  function TextLength(ps: seq<StyledText>): nat {
    if ps == [] then 0 else TextLength(ps[..|ps| - 1]) + |ps[|ps| - 1].text|
  }

  /** Every line knows the number of its characters. */
  predicate Sized(lines: seq<TextLine>) {
    forall i :: 0 <= i < |lines| ==> lines[i].lineSize == TextLength(lines[i].styled)
  }

  lemma LineStaysSized(t: TextLine, ch: char, bg: Pixel, fg: Pixel)
    requires GoodLine(t) && t.lineSize == TextLength(t.styled)
    ensures AppendChar(t, ch).lineSize == TextLength(AppendChar(t, ch).styled)
    ensures StyleRawText(t, bg, fg).lineSize == TextLength(StyleRawText(t, bg, fg).styled)
  {
    var front := t.styled[..|t.styled| - 1];
    var a, r := AppendChar(t, ch).styled, StyleRawText(t, bg, fg).styled;
    assert a[..|a| - 1] == front;
    if Raw(t) != "" {
      assert r[..|r| - 1] == front + [StyledText(Raw(t), bg, fg)];
      assert (front + [StyledText(Raw(t), bg, fg)])[..|front|] == front;
    }
  }

  lemma EmptyLineIsSized()
    ensures EMPTY_LINE.lineSize == TextLength(EMPTY_LINE.styled)
  {
    assert EMPTY_LINE.styled[..0] == [];
  }

  lemma BufferStaysSized(s: Screen, ch: char)
    requires GoodScreen(s) && Sized(s.lines)
    ensures Sized(BufferChar(s, ch).lines) && Sized(StyleLastLine(s).lines)
  {
    hide AppendChar, StyleRawText, TextLength;
    EmptyLineIsSized();
    LineStaysSized(LastLine(WithLastLine(s)), ch, s.bg, s.fg);
  }

  lemma NewLineStaysSized(s: Screen)
    requires GoodScreen(s) && Sized(s.lines)
    ensures Sized(AppendLine(s).lines)
  {
    hide StyleRawText, TextLength;
    EmptyLineIsSized();
    if s.lines != [] {
      var kept := Kept(s.lines);
      LineStaysSized(kept[|kept| - 1], ' ', s.bg, s.fg);
    }
  }

  lemma {:induction false} TabStaysSized(s: Screen, spaces: nat)
    requires GoodScreen(s) && Sized(s.lines)
    ensures Sized(Tab(s, spaces).lines)
    decreases spaces
  {
    hide GoodScreen, BufferChar, Sized;
    if spaces > 0 {
      BufferStaysSized(s, ' ');
      TabStaysSized(DrawChar(BufferChar(s, ' '), ' '), spaces - 1);
    }
  }

  lemma ByteStaysSized(t: Terminal, ch: char, e: Eraser)
    requires GoodScreen(t.screen) && Sized(t.screen.lines) && !Erases(t, ch)
    ensures Sized(Write(t, ch, e).screen.lines)
  {
    var s, a := t.screen, Feed(t.parser, ch).1;
    hide Feed, AppendLine, BufferChar, Tab, GoodLine, Sized, StyleLastLine, Erase;
    match a
    case Nothing =>
    case Draw =>
      BufferStaysSized(DrawChar(s, ch), ch);
    case Control =>
      if ch == '\t' {
        TabStaysSized(s, TAB_STOP - s.column % TAB_STOP);
      } else if ch == '\n' {
        NewLineStaysSized(s);
      }
    case Command(selector, args) =>
      BufferStaysSized(s, ' ');
  }

  /** As long as nothing is erased, every line's size is the number of characters it holds. */
  lemma {:induction false} LinesStaySized(t: Terminal, msg: string, e: Eraser)
    requires GoodScreen(t.screen) && Sized(t.screen.lines) && NeverErases(t, msg, e)
    ensures Sized(WriteAll(t, msg, e).screen.lines)
    decreases |msg|
  {
    hide Sized, Erases, GoodScreen, Write;
    if msg != "" {
      ByteStaysSized(t, msg[0], e);
      LinesStaySized(Write(t, msg[0], e), msg[1..], e);
    }
  }
}
