/** The text terminal of console.c and vga.c as a state machine over the characters flushed to it,
    and what it means: a window on an unbounded transcript. */
module TextTerminal {
  import opened Words
  import opened IntegerField

  const COLUMNS := 80
  const ROWS := 24
  const CELLS := 1920

  type Color = c: int | 0 <= c < 16

  datatype Format = Format(foreground: Color, background: Color)

  const DEFAULT_FORMAT := Format(15, 0)

  datatype Cell = Cell(character: char, format: Format)

  function Blank(f: Format): Cell { Cell(' ', f) }

  // ----- tokens -----

  const ESC: char := 27 as char
  const BACKSPACE: char := 8 as char

  /** What the flushing loop handles at a time. */
  datatype Token =
    | Char(c: char)
    | NewLine
    | Return
    | Backspace
    | Graphic(code: int)
    | Nothing

  /** ESC [ number m selects a colour.  Another final character is skipped with its number; an ESC
      that does not begin such a sequence is dropped, with a [ that follows it. */
  function EscapeLength(s: string): nat {
    if At(s, 1) != '[' then 1
    else if IsDigit(At(s, 2)) then ParseInt(s, 2, 0).next + 1
    else 2
  }

  function EscapeToken(s: string): Token {
    if At(s, 1) == '[' && IsDigit(At(s, 2)) && At(s, ParseInt(s, 2, 0).next) == 'm'
    then Graphic(ParseInt(s, 2, 0).value) else Nothing
  }

  function TokenLength(s: string): (n: nat)
    requires s != ""
  {
    if s[0] == ESC then EscapeLength(s) else 1
  }

  function TokenOf(s: string): Token
    requires s != ""
  {
    if s[0] == '\n' then NewLine
    else if s[0] == '\r' then Return
    else if s[0] == BACKSPACE then Backspace
    else if s[0] == ESC then EscapeToken(s)
    else Char(s[0])
  }

  /** Reading the first token does not look past the end of s. */
  predicate FirstWhole(s: string)
    requires s != ""
  {
    s[0] == ESC ==>
      && |s| > 1
      && (s[1] == '[' ==> |s| > 2)
      && EscapeLength(s) <= |s|
  }

  /** No token of s is cut off at its end. */
  predicate Whole(s: string)
    decreases |s|
  {
    s == "" || (FirstWhole(s) && (TokenLengthPositive(s); Whole(s[TokenLength(s)..])))
  }

  function Tokens(s: string): seq<Token>
    requires Whole(s)
    decreases |s|
  {
    if s == "" then [] else (TokenLengthPositive(s); [TokenOf(s)] + Tokens(s[TokenLength(s)..]))
  }

  lemma {:induction false} ParseIntNext(s: string, i: nat, acc: int)
    ensures ParseInt(s, i, acc).next >= i
    ensures i <= |s| ==> ParseInt(s, i, acc).next <= |s|
    decreases |s| - i
  {
    if i < |s| && IsDigit(s[i]) {
      ParseIntNext(s, i + 1, acc * 10 + (s[i] as int - '0' as int));
    }
  }

  lemma TokenLengthPositive(s: string)
    requires s != "" && FirstWhole(s)
    ensures 1 <= TokenLength(s) <= |s|
  {
    ParseIntNext(s, 2, 0);
  }

  lemma {:induction false} ParseIntLocal(a: string, b: string, i: nat, acc: int)
    requires i <= |a| && ParseInt(a, i, acc).next < |a|
    ensures ParseInt(a + b, i, acc) == ParseInt(a, i, acc)
    decreases |a| - i
  {
    if i < |a| && IsDigit(a[i]) {
      ParseIntLocal(a, b, i + 1, acc * 10 + (a[i] as int - '0' as int));
    }
  }

  /** Text after a whole token does not change how the token is read. */
  lemma TokenLocal(a: string, b: string)
    requires a != "" && FirstWhole(a)
    ensures FirstWhole(a + b) && TokenLength(a + b) == TokenLength(a) && TokenOf(a + b) == TokenOf(a)
  {
    if a[0] == ESC && a[1] == '[' && IsDigit(a[2]) {
      ParseIntLocal(a, b, 2, 0);
    }
  }

  lemma DropConcat(a: string, b: string, n: nat)
    requires n <= |a|
    ensures (a + b)[n..] == a[n..] + b
  {
  }

  /** A stream may be cut between tokens. */
  lemma {:induction false} TokensConcat(a: string, b: string)
    requires Whole(a) && Whole(b)
    ensures Whole(a + b) && Tokens(a + b) == Tokens(a) + Tokens(b)
    decreases |a|
  {
    if a == "" {
      assert a + b == b;
      return;
    }
    hide *;
    TokensHead(a);
    var n := TokenLength(a);
    TokenLocal(a, b);
    TokensConcat(a[n..], b);
    DropConcat(a, b, n);
    WholeCons(a + b);
    TokensHead(a + b);
    Join3([TokenOf(a)], Tokens(a[n..]), Tokens(b));
  }

  lemma TokensHead(s: string)
    requires s != "" && Whole(s)
    ensures FirstWhole(s) && 1 <= TokenLength(s) <= |s| && Whole(s[TokenLength(s)..])
    ensures Tokens(s) == [TokenOf(s)] + Tokens(s[TokenLength(s)..])
  {
    TokenLengthPositive(s);
    hide TokenOf, TokenLength, FirstWhole;
  }

  lemma WholeCons(s: string)
    requires s != "" && FirstWhole(s) && TokenLength(s) <= |s| && Whole(s[TokenLength(s)..])
    ensures Whole(s)
  {
    TokenLengthPositive(s);
    hide TokenLength, FirstWhole;
  }

  // ----- the terminal -----

  /** The shadow buffer, the hardware text memory and the flag that says they agree; the cursor,
      which may stand one row below the screen; and the current colours. */
  datatype Terminal = Terminal(shadow: seq<Cell>, text: seq<Cell>, sync: bool, x: nat, y: nat, format: Format)

  ghost predicate TermInv(t: Terminal) {
    && |t.shadow| == CELLS && |t.text| == CELLS
    && (t.sync ==> t.text == t.shadow)
    && t.x < COLUMNS && t.y <= ROWS
  }

  /** What init_consoles leaves: a blank, flushed screen in the default colours, with the cursor at the origin. */
  function FirstTerminal(): Terminal {
    Terminal(Repeat(Blank(DEFAULT_FORMAT), CELLS), Repeat(Blank(DEFAULT_FORMAT), CELLS), true, 0, 0, DEFAULT_FORMAT)
  }

  function VgaFlush(t: Terminal): Terminal {
    if t.sync then t else t.(text := t.shadow, sync := true)
  }

  /** vga_print_char: both buffers, whatever their state. */
  function Print(t: Terminal, c: char): Terminal
    requires TermInv(t) && t.y < ROWS
  {
    var k := COLUMNS * t.y + t.x;
    t.(shadow := t.shadow[k := Cell(c, t.format)], text := t.text[k := Cell(c, t.format)])
  }

  /** cscroll: the rows move up through the hardware memory, and a blank row enters. */
  function Scroll(t: Terminal): Terminal
    requires TermInv(t)
  {
    var f := VgaFlush(t);
    f.(shadow := f.text[COLUMNS..] + Repeat(Blank(t.format), COLUMNS), sync := false,
       y := if t.y > 0 then t.y - 1 else 0)
  }

  function ScrollIfBelow(t: Terminal): Terminal
    requires TermInv(t)
  {
    if t.y >= ROWS then Scroll(t) else t
  }

  /** Backspace at column 0 looks in the hardware memory for the end of the row above. */
  function ScanBack(text: seq<Cell>, y: nat, x: nat): nat
    requires |text| == CELLS && y < ROWS && x < COLUMNS
  {
    if x > 0 && text[COLUMNS * y + x].character == ' ' then ScanBack(text, y, x - 1) else x
  }

  function BackColumn(text: seq<Cell>, y: nat): nat
    requires |text| == CELLS && y < ROWS
  {
    var x := ScanBack(text, y, COLUMNS - 1);
    if x < COLUMNS - 1 then x + 1 else x
  }

  /** The sixteen colours in the order of the codes 30 to 37 and 90 to 97. */
  function AnsiColor(k: int): Color
    requires 0 <= k < 16
  {
    [0, 4, 2, 6, 1, 5, 3, 7, 8, 12, 10, 14, 9, 13, 11, 15][k]
  }

  /** ANSI numbers red 1, green 2 and blue 4; VGA numbers blue 1, green 2 and red 4.  The brightness is 8 in both. */
  lemma AnsiColorSwapsRedAndBlue(k: int)
    requires 0 <= k < 16
    ensures AnsiColor(k) == k % 2 * 4 + k / 2 % 2 * 2 + k / 4 % 2 + k / 8 * 8
  {
    assert k == 0 || k == 1 || k == 2 || k == 3 || k == 4 || k == 5 || k == 6 || k == 7
        || k == 8 || k == 9 || k == 10 || k == 11 || k == 12 || k == 13 || k == 14 || k == 15;
  }

  /** The guard in front of the switch over the colour codes. */
  predicate IsColorCode(code: int) {
    30 <= code <= 37 || 90 <= code <= 97 || 40 <= code <= 47 || 100 <= code <= 107
  }

  /** The switch, which has cases for the default colours too. */
  function SelectColor(code: int, f: Format): Format {
    if code == 39 then f.(foreground := DEFAULT_FORMAT.foreground)
    else if code == 49 then f.(background := DEFAULT_FORMAT.background)
    else if 30 <= code <= 37 then f.(foreground := AnsiColor(code - 30))
    else if 90 <= code <= 97 then f.(foreground := AnsiColor(code - 90 + 8))
    else if 40 <= code <= 47 then f.(background := AnsiColor(code - 40))
    else if 100 <= code <= 107 then f.(background := AnsiColor(code - 100 + 8))
    else f
  }

  function Graphics(code: int, f: Format): Format {
    var g := if code == 0 then DEFAULT_FORMAT else f;
    if IsColorCode(code) then SelectColor(code, g) else g
  }

  /** A colour code changes one of the two colours, 0 restores both, and every other code changes nothing. */
  lemma GraphicsChangesOne(code: int, f: Format)
    ensures 30 <= code <= 37 || 90 <= code <= 97 ==> Graphics(code, f).background == f.background
    ensures 40 <= code <= 47 || 100 <= code <= 107 ==> Graphics(code, f).foreground == f.foreground
    ensures Graphics(code, f) != f ==> code == 0 || IsColorCode(code)
    ensures Graphics(0, f) == Format(15, 0)
  {
  }

  /** The cases for 39 and 49 would restore one default colour each, but the guard never lets these two codes
      reach them: exactly the codes the switch has other cases for get through. */
  lemma DefaultCasesAreDead(code: int, f: Format)
    ensures SelectColor(39, f) == f.(foreground := 15) && SelectColor(49, f) == f.(background := 0)
    ensures IsColorCode(code) ==> code != 39 && code != 49
    ensures Graphics(39, f) == f == Graphics(49, f)
    ensures (exists g :: SelectColor(code, g) != g) ==> code == 39 || code == 49 || IsColorCode(code)
  {
  }

  /** One turn of the loop of cflush. */
  function Step(t0: Terminal, token: Token): Terminal
    requires TermInv(t0)
  {
    ScrollKeeps(t0);
    var t := ScrollIfBelow(t0);
    match token
    case NewLine => (ScrollKeeps(t.(y := t.y + 1)); ScrollIfBelow(t.(y := t.y + 1)).(x := 0))
    case Return => t.(x := 0)
    case Backspace =>
      if t.x > 0 then Print(t.(x := t.x - 1), ' ')
      else
        var y := if t.y > 0 then t.y - 1 else 0;
        (BackColumnInRange(t.text, y); Print(t.(x := BackColumn(t.text, y), y := y), ' '))
    case Graphic(code) => t.(format := Graphics(code, t.format))
    case Nothing => t
    case Char(c) =>
      var p := Print(t, c);
      if p.x + 1 == COLUMNS then p.(x := 0, y := p.y + 1) else p.(x := p.x + 1)
  }

  lemma ScrollKeeps(t: Terminal)
    requires TermInv(t)
    ensures TermInv(ScrollIfBelow(t)) && ScrollIfBelow(t).y < ROWS
    ensures ScrollIfBelow(t).x == t.x && ScrollIfBelow(t).format == t.format
    ensures t.y >= ROWS ==>
              ScrollIfBelow(t).shadow == t.shadow[COLUMNS..] + Repeat(Blank(t.format), COLUMNS)
  {
  }

  lemma {:induction false} ScanBackInRange(text: seq<Cell>, y: nat, x: nat)
    requires |text| == CELLS && y < ROWS && x < COLUMNS
    ensures ScanBack(text, y, x) <= x
  {
    if x > 0 && text[COLUMNS * y + x].character == ' ' {
      ScanBackInRange(text, y, x - 1);
    }
  }

  lemma BackColumnInRange(text: seq<Cell>, y: nat)
    requires |text| == CELLS && y < ROWS
    ensures BackColumn(text, y) < COLUMNS
  {
    ScanBackInRange(text, y, COLUMNS - 1);
  }

  /** Whatever is printed, every cell access is inside the screen and the cursor stays on it,
      or one row below it until the next token. */
  lemma StepKeeps(t: Terminal, token: Token)
    requires TermInv(t)
    ensures TermInv(Step(t, token))
  {
    ScrollKeeps(t);
    var u := ScrollIfBelow(t);
    if token.NewLine? {
      ScrollKeeps(u.(y := u.y + 1));
    }
    if token.Backspace? && u.x == 0 {
      BackColumnInRange(u.text, if u.y > 0 then u.y - 1 else 0);
    }
  }

  function Run(t: Terminal, tokens: seq<Token>): (r: Terminal)
    requires TermInv(t)
    ensures TermInv(r)
    decreases |tokens|
  {
    if tokens == [] then t else (StepKeeps(t, tokens[0]); Run(Step(t, tokens[0]), tokens[1..]))
  }

  /** cflush of a whole text. */
  function Flush(t: Terminal, s: string): (r: Terminal)
    requires TermInv(t) && Whole(s)
    ensures TermInv(r)
    ensures s != "" ==> r.sync && r.text == r.shadow
  {
    if s == "" then t else VgaFlush(Run(t, Tokens(s)))
  }
}
