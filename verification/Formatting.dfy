/** How one argument is rendered, in full and into a buffer of limited size (KRE/String). */
module Formatting {
  import opened Machine
  import opened Numerals

  const DEF_STRING_PRECISION := 255
  const INTERNAL_BUF_SIZE := 32

  /** An argument: a character, an integer of some width, a truth value or a C string. */
  datatype Argument =
    | CharArg(c: char)
    | IntArg(v: int, bits: nat, signed: bool)
    | BoolArg(b: bool)
    | StrArg(s: string)

  /** What a placeholder asks for, after parsing. */
  datatype Style = Style(fill: char, align: char, usePrefix: bool, width: U8, precision: U8, radix: nat)

  const DEFAULT_STYLE := Style(' ', '>', false, 0, 0, 10)

  function Repeat(c: char, n: nat): (s: string)
    ensures |s| == n && forall i :: 0 <= i < n ==> s[i] == c
  {
    seq(n, _ => c)
  }

  function Abs(v: int): nat { if v < 0 then -v else v }

  /** The digits of an integer with its sign in front. */
  function NumberText(v: int, radix: nat): string
    requires 0 < radix <= 16
  {
    (if v < 0 then "-" else "") + Digits(Abs(v), radix, DEF_STRING_PRECISION)
  }

  function RadixPrefix(radix: nat): (s: string)
    ensures |s| <= 2
  {
    if radix == 2 then "0b" else if radix == 8 then "0o" else if radix == 16 then "0x" else ""
  }

  /** The 32-character digit buffer holds the number and its sign, and negation does not overflow. */
  predicate NumberDefined(v: int, bits: nat, signed: bool, radix: nat)
    requires 0 < radix <= 16
  {
    |NumberText(v, radix)| <= INTERNAL_BUF_SIZE && (signed && bits > 0 ==> v != -(Pow(2, bits - 1) as int))
  }

  /** A piece of output: `raw` pieces are written without looking at the buffer's end. */
  datatype Piece = Piece(text: string, raw: bool)

  function Padding(width: U8, length: nat): nat { if width > length then width - length else 0 }

  /** Left and right padding of a number; centring adds one on the left and takes it off in 64 bits. */
  function NumberPads(align: char, padding: nat): (nat, nat) {
    if align == '^' then (padding / 2 + 1, Wrap64(padding - (padding / 2 + 1)))
    else if align == '<' then (0, padding)
    else (padding, 0)
  }

  function StringPads(align: char, padding: nat): (nat, nat) {
    if align == '^' then (padding / 2, padding - padding / 2)
    else if align == '<' then (0, padding)
    else (padding, 0)
  }

  /** A number between its paddings; '=' puts the prefix in front of the left one. */
  function AroundDigits(st: Style, left: nat, text: string, right: nat): (ps: seq<Piece>)
    ensures |ps| == 5
  {
    var prefix := if st.usePrefix then RadixPrefix(st.radix) else "";
    [Piece(if st.align == '=' then prefix else "", true),
     Piece(Repeat(st.fill, left), false),
     Piece(if st.align == '=' then "" else prefix, true),
     Piece(text, false),
     Piece(Repeat(st.fill, right), false)]
  }

  function NumberPieces(v: int, st: Style): (ps: seq<Piece>)
    requires 0 < st.radix <= 16
  {
    var text := NumberText(v, st.radix);
    var (left, right) := NumberPads(st.align, Padding(st.width, |text|));
    AroundDigits(st, left, text, right)
  }

  function Cut(s: string, precision: nat): string { if |s| <= precision then s else s[..precision] }

  /** Precision 0 stands for the default of 255 characters. */
  function StringPieces(s: string, st: Style): (ps: seq<Piece>) {
    var text := Cut(s, if st.precision > 0 then st.precision else DEF_STRING_PRECISION);
    var (left, right) := StringPads(st.align, Padding(st.width, |text|));
    [Piece(Repeat(st.fill, left), false), Piece(text, false), Piece(Repeat(st.fill, right), false)]
  }

  function ArgumentPieces(a: Argument, st: Style): seq<Piece>
    requires 0 < st.radix <= 16
  {
    match a
    case CharArg(c) => [Piece([c], false)]
    case IntArg(v, _, _) => NumberPieces(v, st)
    case BoolArg(b) => StringPieces(if b then "True" else "False", st)
    case StrArg(s) => StringPieces(s, st)
  }

  /** The full text of a list of pieces. */
  function Text(ps: seq<Piece>): string {
    if ps == [] then [] else ps[0].text + Text(ps[1..])
  }

  /** What a buffer of n characters holds after one more piece. */
  function PutPiece(out: string, p: Piece, n: nat): string {
    if p.raw then out + p.text
    else if |out| >= n then out
    else out + Cut(p.text, n - |out|)
  }

  function Put(out: string, ps: seq<Piece>, n: nat): string
    decreases |ps|
  {
    if ps == [] then out else Put(PutPiece(out, ps[0], n), ps[1..], n)
  }

  // ---- the buffer holds the beginning of the text -----------------------------------------------------

  /** Up to the end of the buffer, out is the beginning of full; while there is room, it is all of full. */
  ghost predicate Written(out: string, full: string, n: nat) {
    if |out| < n then out == full else n <= |full| && out[..n] == full[..n]
  }

  lemma PutPieceWritten(out: string, full: string, p: Piece, n: nat)
    requires Written(out, full, n)
    ensures Written(PutPiece(out, p, n), full + p.text, n)
    ensures |PutPiece(out, p, n)| <= if p.raw then |out| + |p.text| else Max(|out|, n)
  {
    if |out| >= n {
      assert (full + p.text)[..n] == full[..n];
      assert (out + p.text)[..n] == out[..n];
    }
  }

  lemma {:induction false} PutWritten(out: string, full: string, ps: seq<Piece>, n: nat)
    requires Written(out, full, n)
    ensures Written(Put(out, ps, n), full + Text(ps), n)
    decreases |ps|
  {
    if ps == [] {
      assert full + Text(ps) == full;
    } else {
      PutPieceWritten(out, full, ps[0], n);
      PutWritten(PutPiece(out, ps[0], n), full + ps[0].text, ps[1..], n);
      assert full + Text(ps) == full + ps[0].text + Text(ps[1..]);
    }
  }

  /** With room for that many characters left, the radix prefix of the argument ends behind the buffer. */
  predicate PassesEnd(a: Argument, st: Style, room: nat)
    requires 0 < st.radix <= 16
  {
    && a.IntArg? && st.usePrefix && RadixPrefix(st.radix) != ""
    && PrefixPosition(a.v, st) + 2 > room
  }

  /** Where the prefix of a number begins in its text. */
  function PrefixPosition(v: int, st: Style): nat
    requires 0 < st.radix <= 16
  {
    if st.align == '=' then 0 else NumberPads(st.align, Padding(st.width, |NumberText(v, st.radix)|)).0
  }

  /** Only a radix prefix can pass the end of the buffer, by at most its two characters. */
  lemma ArgumentOvershoot(out: string, a: Argument, st: Style, n: nat)
    requires 0 < st.radix <= 16 && |out| < n
    ensures |Put(out, ArgumentPieces(a, st), n)| <= n + 2
    ensures |Put(out, ArgumentPieces(a, st), n)| > n <==> PassesEnd(a, st, n - |out|)
  {
    hide NumberText;
    var ps := ArgumentPieces(a, st);
    if a.IntArg? {
      PutUnfolds5(out, ps, n);
    } else if a.CharArg? {
      PutUnfolds(out, ps, n);
    } else {
      PutUnfolds(out, ps, n);
      PutUnfolds(PutPiece(out, ps[0], n), ps[1..], n);
      PutUnfolds(PutPiece(PutPiece(out, ps[0], n), ps[1], n), ps[2..], n);
    }
  }

  lemma PutUnfolds(out: string, ps: seq<Piece>, n: nat)
    requires ps != []
    ensures Put(out, ps, n) == Put(PutPiece(out, ps[0], n), ps[1..], n)
    ensures |ps| == 1 ==> Put(out, ps, n) == PutPiece(out, ps[0], n)
  {
  }

  lemma PutUnfolds5(out: string, ps: seq<Piece>, n: nat)
    requires |ps| == 5
    ensures var o1 := PutPiece(out, ps[0], n);
            var o2 := PutPiece(o1, ps[1], n);
            var o3 := PutPiece(o2, ps[2], n);
            var o4 := PutPiece(o3, ps[3], n);
            Put(out, ps, n) == PutPiece(o4, ps[4], n)
  {
    PutUnfolds(out, ps, n);
    var o1 := PutPiece(out, ps[0], n);
    PutUnfolds(o1, ps[1..], n);
    var o2 := PutPiece(o1, ps[1], n);
    assert ps[1..][1..] == ps[2..] && ps[2..][1..] == ps[3..] && ps[3..][1..] == ps[4..];
    PutUnfolds(o2, ps[2..], n);
    var o3 := PutPiece(o2, ps[2], n);
    PutUnfolds(o3, ps[3..], n);
    PutUnfolds(PutPiece(o3, ps[3], n), ps[4..], n);
  }
}
