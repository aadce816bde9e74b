/** The eight-state machine that interprets format strings (KRE/String, `interpolate`). */
module FormatMachine {
  import opened Machine
  import opened Numerals
  import opened Formatting

  datatype ParserState = START | INDEX | FILL_ALIGN | PREFIX | WIDTH | PRECISION | TYPE | END

  /** How placeholders name their arguments: not yet known, by index, or in order. */
  datatype Listing = TO_BE_DETERMINED | BY_INDEX | AUTOMATIC

  /**
   * The machine between two steps: the text still to be read, the characters written so far and the style of
   * the placeholder in progress. argPos is -1 before the first placeholder, as the source's wrapped counter.
   */
  datatype Configuration =
    Configuration(state: ParserState, rest: string, out: string, listing: Listing, argPos: int, style: Style)

  datatype StepResult = Next(c: Configuration) | Failed | Undefined

  /** Finished output, a format error, or behaviour the language leaves undefined. */
  datatype Outcome = Done(out: string) | Error | Unspecified

  function Head(s: string): char { if s == [] then '\0' else s[0] }

  predicate IsAlign(c: char) { c == '<' || c == '^' || c == '>' || c == '=' }

  /** The four alignments. */
  lemma AlignCharacters(c: char)
    ensures IsAlign(c) <==> c in "<^>="
  {
    if IsAlign(c) {
      var i := if c == '<' then 0 else if c == '^' then 1 else if c == '>' then 2 else 3;
      assert "<^>="[i] == c;
    }
  }

  /** The number of decimal digits at the beginning of a text. */
  function DetectNumber(s: string): (n: nat)
    ensures n <= |s| && forall i :: 0 <= i < n ==> IsDecimal(s[i])
    ensures n < |s| ==> !IsDecimal(s[n])
  {
    if s != [] && IsDecimal(s[0]) then 1 + DetectNumber(s[1..]) else 0
  }

  /** A number of at most three digits, as an 8-bit value. */
  function ParseNumber(s: string): U8 { Wrap8(Value(s, 10)) }

  function Start(fmt: string): Configuration {
    Configuration(START, fmt, "", TO_BE_DETERMINED, -1, DEFAULT_STYLE)
  }

  predicate HasArgument(c: Configuration, args: seq<Argument>) { 0 <= c.argPos < |args| }

  predicate ValidRadix(c: Configuration) {
    c.style.radix == 2 || c.style.radix == 8 || c.style.radix == 10 || c.style.radix == 16
  }

  predicate ArgumentDefined(a: Argument, radix: nat)
    requires 0 < radix <= 16
  {
    a.IntArg? ==> NumberDefined(a.v, a.bits, a.signed, radix)
  }

  function Step(c: Configuration, args: seq<Argument>, n: nat): (r: StepResult)
    requires c.rest != [] && ValidRadix(c)
    ensures r.Next? ==> ValidRadix(r.c)
    ensures r.Next? ==> |r.c.rest| < |c.rest| || (r.c.rest == c.rest && Rank(r.c.state) < Rank(c.state))
  {
    match c.state
    case START => StepStart(c)
    case INDEX => StepIndex(c, |args|)
    case FILL_ALIGN => StepFillAlign(c)
    case PREFIX => StepPrefix(c)
    case WIDTH => StepWidth(c)
    case PRECISION => StepPrecision(c, args)
    case TYPE => StepType(c, args)
    case END => StepEnd(c, args, n)
  }

  function StepStart(c: Configuration): StepResult
    requires c.rest != []
  {
    if c.rest[0] == '{' then Next(c.(state := INDEX, rest := c.rest[1..]))
    else Next(c.(rest := c.rest[1..], out := c.out + [c.rest[0]]))
  }

  /** Looks one character ahead for an alignment, which makes the current one the fill. */
  function StepFillAlign(c: Configuration): StepResult
    requires c.rest != []
  {
    var ch := c.rest[0];
    if IsAlign(Head(c.rest[1..])) then
      if ch == '{' || ch == '}' then Failed
      else Next(c.(state := PREFIX, rest := c.rest[2..], style := c.style.(fill := ch, align := c.rest[1])))
    else if IsAlign(ch) then Next(c.(state := PREFIX, rest := c.rest[1..], style := c.style.(align := ch)))
    else Next(c.(state := PREFIX))
  }

  function StepPrefix(c: Configuration): StepResult
    requires c.rest != []
  {
    if c.rest[0] == '#' then Next(c.(state := WIDTH, rest := c.rest[1..], style := c.style.(usePrefix := true)))
    else Next(c.(state := WIDTH, style := c.style.(usePrefix := false)))
  }

  function StepWidth(c: Configuration): StepResult {
    var k := DetectNumber(c.rest);
    if k == 0 then Next(c.(state := PRECISION))
    else if k > 3 then Undefined
    else Next(c.(state := PRECISION, rest := c.rest[k..], style := c.style.(width := ParseNumber(c.rest[..k]))))
  }

  /** A precision is for strings only; its length is kept in 8 bits. */
  function StepPrecision(c: Configuration, args: seq<Argument>): StepResult
    requires c.rest != []
  {
    if c.rest[0] != '.' then Next(c.(state := TYPE))
    else if !HasArgument(c, args) then Undefined
    else if !args[c.argPos].StrArg? then Failed
    else
      var k := Wrap8(DetectNumber(c.rest[1..]));
      if k == 0 then Failed
      else if k > 3 then Undefined
      else
        Next(c.(state := TYPE, rest := c.rest[1 + k..], style := c.style.(precision := ParseNumber(c.rest[1..1 + k]))))
  }

  function StepType(c: Configuration, args: seq<Argument>): StepResult
    requires c.rest != []
  {
    var ch := c.rest[0];
    if !(ch == 'b' || ch == 'o' || ch == 'x') then Next(c.(state := END))
    else if !HasArgument(c, args) then Undefined
    else if !(args[c.argPos].IntArg? || args[c.argPos].CharArg?) then Failed
    else Next(c.(state := END, rest := c.rest[1..],
                 style := c.style.(radix := if ch == 'b' then 2 else if ch == 'o' then 8 else 16)))
  }

  function StepEnd(c: Configuration, args: seq<Argument>, n: nat): StepResult
    requires c.rest != [] && ValidRadix(c)
  {
    if c.rest[0] != '}' then Failed
    else if !HasArgument(c, args) || !ArgumentDefined(args[c.argPos], c.style.radix) then Undefined
    else Next(c.(state := START, rest := c.rest[1..], style := DEFAULT_STYLE,
                 out := Put(c.out, ArgumentPieces(args[c.argPos], c.style), n)))
  }

  /** Reads an index, or takes the next argument; a format must not mix the two. */
  function StepIndex(c: Configuration, argCount: nat): (r: StepResult)
    requires c.rest != [] && c.state == INDEX && ValidRadix(c)
    ensures r.Next? ==> ValidRadix(r.c)
    ensures r.Next? ==> |r.c.rest| < |c.rest| || (r.c.rest == c.rest && r.c.state == END)
  {
    var k := DetectNumber(c.rest);
    if k > 0 then
      if c.listing == AUTOMATIC then Failed
      else if k > 3 then Undefined
      else
        var pos := ParseNumber(c.rest[..k]);
        if pos >= argCount then Failed
        else AfterIndex(c.(listing := BY_INDEX, argPos := pos, rest := c.rest[k..]))
    else if c.rest[0] == '}' || c.rest[0] == ':' then
      if c.listing == BY_INDEX then Failed
      else AfterIndex(c.(listing := AUTOMATIC, argPos := c.argPos + 1))
    else Failed
  }

  function AfterIndex(c: Configuration): StepResult {
    if Head(c.rest) == ':' then Next(c.(state := FILL_ALIGN, rest := c.rest[1..])) else Next(c.(state := END))
  }

  /** Decreases whenever a step reads no character. */
  function Rank(s: ParserState): nat {
    match s
    case START => 7
    case INDEX => 6
    case FILL_ALIGN => 5
    case PREFIX => 4
    case WIDTH => 3
    case PRECISION => 2
    case TYPE => 1
    case END => 0
  }

  /** The whole loop: it stops when the buffer is full or the format is read. */
  function Run(c: Configuration, args: seq<Argument>, n: nat): Outcome
    requires ValidRadix(c)
    decreases |c.rest|, Rank(c.state)
  {
    if |c.out| >= n || c.rest == [] then Done(c.out)
    else
      match Step(c, args, n)
      case Next(d) => Run(d, args, n)
      case Failed => Error
      case Undefined => Unspecified
  }

  /** The number the function returns: 0 for every format error. */
  function Result(o: Outcome): nat { if o.Done? then |o.out| else 0 }
}
