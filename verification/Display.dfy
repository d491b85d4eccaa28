/** What text looks like on the console: where characters appear, in which colours, and what the control
    characters and colour codes do. */
module Display {
  import opened Words
  import opened IntegerField
  import opened DirectiveSyntax
  import opened TextTerminal
  import opened Transcript

  // ----- colours -----

  /** A colour of the ANSI numbering, where red is 1, green 2 and blue 4, in the numbering of VGA, where blue is 1,
      green 2 and red 4. */
  function VgaNumber(k: int): int { k % 2 * 4 + k / 2 % 2 * 2 + k / 4 }

  /** 30 to 37 select the eight dark colours for the characters and 40 to 47 for their background, 90 to 97 and 100
      to 107 the bright ones, 0 goes back to white on black, and no other code does anything. */
  lemma ColorsAreSelected(code: int, f: Format)
    ensures 30 <= code <= 37 ==> Graphics(code, f) == f.(foreground := VgaNumber(code - 30))
    ensures 40 <= code <= 47 ==> Graphics(code, f) == f.(background := VgaNumber(code - 40))
    ensures 90 <= code <= 97 ==> Graphics(code, f) == f.(foreground := VgaNumber(code - 90) + 8)
    ensures 100 <= code <= 107 ==> Graphics(code, f) == f.(background := VgaNumber(code - 100) + 8)
    ensures code == 0 ==> Graphics(code, f) == Format(15, 0)
    ensures code != 0 && !(30 <= code <= 37 || 40 <= code <= 47 || 90 <= code <= 97 || 100 <= code <= 107) ==>
              Graphics(code, f) == f
  {
    if 30 <= code <= 37 { ColorIs(code - 30); }
    if 40 <= code <= 47 { ColorIs(code - 40); }
    if 90 <= code <= 97 { ColorIs(code - 90); }
    if 100 <= code <= 107 { ColorIs(code - 100); }
    hide AnsiColor, VgaNumber;
  }

  lemma ColorIs(k: int)
    requires 0 <= k < 8
    ensures AnsiColor(k) == VgaNumber(k) && AnsiColor(k + 8) == VgaNumber(k) + 8
  {
    AnsiColorSwapsRedAndBlue(k);
    AnsiColorSwapsRedAndBlue(k + 8);
    hide AnsiColor;
  }

  // ----- tokens -----

  predicate Plain(c: char) {
    c != '\n' && c != '\r' && c != 8 as char && c != 27 as char
  }

  ghost predicate AllPlain(s: string) { forall i :: 0 <= i < |s| ==> Plain(s[i]) }

  lemma OneCharacter(c: char)
    requires c != 27 as char
    ensures Whole([c])
    ensures Tokens([c]) == [if c == '\n' then NewLine else if c == '\r' then Return
                            else if c == 8 as char then Backspace else Char(c)]
  {
    assert [c][1..] == "";
  }

  lemma FirstCharacter(s: string)
    requires s != "" && s[0] != 27 as char && Whole(s[1..])
    ensures Whole(s)
    ensures Tokens(s) == Tokens([s[0]]) + Tokens(s[1..])
  {
    OneCharacter(s[0]);
    TokensConcat([s[0]], s[1..]);
    assert s == [s[0]] + s[1..];
  }

  /** ESC, [, a decimal number and m select a colour; with another character in place of m nothing is done, and the
      whole sequence is swallowed. */
  lemma ColorCodeIsRead(n: Word, last: char)
    requires !('0' <= last <= '9')
    ensures var s := [27 as char, '['] + Digits(n, 10, false) + [last];
            && Whole(s)
            && Tokens(s) == [if last == 'm' then Graphic(n) else Nothing]
  {
    var digits := Digits(n, 10, false);
    var start := [27 as char, '['];
    var s := start + digits + [last];
    NumberIsRead(start, n, [last]);
    assert |s| == |digits| + 3;
    assert s[0] == 27 as char && s[1] == '[' && s[2] == digits[0] && s[|digits| + 2] == last;
    EscapeIsOne(s, n);
  }

  lemma EscapeIsOne(s: string, n: int)
    requires |s| > 3 && s[0] == 27 as char && s[1] == '[' && IsDigit(s[2]) && ParseInt(s, 2, 0) == Parsed(n, |s| - 1)
    ensures Whole(s) && Tokens(s) == [if s[|s| - 1] == 'm' then Graphic(n) else Nothing]
  {
    hide ParseInt;
    assert TokenLength(s) == |s|;
    assert s[|s|..] == "";
  }

  /** An ESC without a [ behind it is dropped, and so is one whose [ no number follows, with the [. */
  lemma StrayEscape(c: char, s: string)
    requires Whole([c] + s)
    ensures c != '[' ==>
              && Whole([27 as char, c] + s)
              && Tokens([27 as char, c] + s) == [Nothing] + Tokens([c] + s)
    ensures !('0' <= c <= '9') ==>
              && Whole([27 as char, '[', c] + s)
              && Tokens([27 as char, '[', c] + s) == [Nothing] + Tokens([c] + s)
  {
    var a, b := [27 as char, c] + s, [27 as char, '[', c] + s;
    if c != '[' {
      assert a[1..] == [c] + s;
    }
    if !IsDigit(c) {
      assert b[2..] == [c] + s;
    }
  }

  // ----- where characters appear -----

  /** The cell of the cursor, counted from the first row. */
  function Place(tr: Transcript): int { 80 * tr.row + tr.x }

  /** The text stands from the place on, and every other cell is as it was, or blank if it is new. */
  ghost predicate Written(tr: Transcript, w: Transcript, at: int, s: string, f: Format) {
    && |w.cells| >= |tr.cells| && at >= 0 && at + |s| <= |w.cells|
    && (forall i :: 0 <= i < |s| ==> w.cells[at + i] == Cell(s[i], f))
    && (forall k :: 0 <= k < |w.cells| && (k < at || k >= at + |s|) ==>
          w.cells[k] == if k < |tr.cells| then tr.cells[k] else Cell(' ', f))
  }

  /** w is tr after the characters of s in the colours of tr; they fill row after row of 80 columns. */
  ghost predicate Filled(tr: Transcript, w: Transcript, s: string) {
    && Written(tr, w, Place(tr), s, tr.format)
    && Place(w) == Place(tr) + |s| && w.x < 80 && w.format == tr.format
    && |w.cells| == Max(|tr.cells|, (Place(tr) + |s| - 1) / 80 * 80 + 80)
  }

  lemma OneIsWritten(tr: Transcript, c: char)
    requires TranscriptInv(tr)
    ensures TranscriptInv(Write(tr, Char(c))) && Filled(tr, Write(tr, Char(c)), [c])
  {
    WriteKeeps(tr, Char(c));
  }

  lemma WrittenTwice(tr: Transcript, v: Transcript, w: Transcript, at: int, s: string, f: Format)
    requires s != "" && Written(tr, v, at, [s[0]], f) && Written(v, w, at + 1, s[1..], f)
    ensures Written(tr, w, at, s, f)
  {
    forall i | 0 <= i < |s| ensures w.cells[at + i] == Cell(s[i], f) {
      if i > 0 {
        assert w.cells[at + 1 + (i - 1)] == Cell(s[1..][i - 1], f);
      } else {
        assert v.cells[at + 0] == Cell([s[0]][0], f);
      }
    }
  }

  lemma FilledTwice(tr: Transcript, v: Transcript, w: Transcript, s: string)
    requires s != "" && Filled(tr, v, [s[0]]) && (if s[1..] == "" then w == v else Filled(v, w, s[1..]))
    ensures Filled(tr, w, s)
  {
    if s[1..] == "" {
      assert s == [s[0]];
    } else {
      WrittenTwice(tr, v, w, Place(tr), s, tr.format);
      LastRows(|tr.cells|, |v.cells|, |w.cells|, Place(tr), |s|);
    }
    hide Written;
  }

  lemma LastRows(a: int, b: int, c: int, at: int, n: int)
    requires n > 1 && b == Max(a, (at + 1 - 1) / 80 * 80 + 80) && c == Max(b, (at + 1 + (n - 1) - 1) / 80 * 80 + 80)
    ensures c == Max(a, (at + n - 1) / 80 * 80 + 80)
  {
  }

  lemma {:induction false} PlainTextIsWritten(tr: Transcript, s: string)
    requires TranscriptInv(tr) && s != "" && AllPlain(s)
    ensures Whole(s) && Filled(tr, WriteAll(tr, Tokens(s)), s)
    decreases |s|
  {
    OneCharacter(s[0]);
    OneIsWritten(tr, s[0]);
    var v := Write(tr, Char(s[0]));
    assert Plain(s[0]) && AllPlain(s[1..]);
    assert Whole("") && Tokens("") == [] && WriteAll(v, []) == v;
    hide *;
    if s[1..] != "" {
      PlainTextIsWritten(v, s[1..]);
    }
    FirstCharacter(s);
    FirstThenRest(tr, Char(s[0]), Tokens(s[1..]));
    FilledTwice(tr, v, WriteAll(v, Tokens(s[1..])), s);
  }

  lemma FirstThenRest(tr: Transcript, token: Token, rest: seq<Token>)
    requires TranscriptInv(tr)
    ensures TranscriptInv(Write(tr, token)) && WriteAll(tr, [token] + rest) == WriteAll(Write(tr, token), rest)
  {
    WriteKeeps(tr, token);
    assert ([token] + rest)[1..] == rest;
    hide Write;
  }

  /** The control characters, in the transcript: nothing but the blank of a backspace is written. */
  lemma ControlsAreWritten(tr: Transcript)
    requires TranscriptInv(tr)
    ensures var w := WriteAll(tr, Tokens("\n"));
            && Written(tr, w, 0, "", tr.format) && |w.cells| == Max(|tr.cells|, 80 * (tr.row + 2))
            && w.row == tr.row + 1 && w.x == 0 && w.format == tr.format
    ensures var w := WriteAll(tr, Tokens("\r"));
            && Written(tr, w, 0, "", tr.format) && |w.cells| == Max(|tr.cells|, 80 * (tr.row + 1))
            && w.row == tr.row && w.x == 0 && w.format == tr.format
    ensures tr.x > 0 ==>
              var w := WriteAll(tr, Tokens([8 as char]));
              && Written(tr, w, Place(tr) - 1, " ", tr.format) && |w.cells| == Max(|tr.cells|, 80 * (tr.row + 1))
              && w.row == tr.row && w.x == tr.x - 1 && w.format == tr.format
  {
    OneCharacter('\n');
    OneCharacter('\r');
    OneCharacter(8 as char);
    WriteOne(tr, NewLine);
    WriteOne(tr, Return);
    WriteOne(tr, Backspace);
    NewLineWritten(tr);
    ReturnWritten(tr);
    BackspaceWritten(tr);
    hide *;
  }

  lemma NewLineWritten(tr: Transcript)
    requires TranscriptInv(tr)
    ensures var w := Write(tr, NewLine);
            && Written(tr, w, 0, "", tr.format) && |w.cells| == Max(|tr.cells|, 80 * (tr.row + 2))
            && w.row == tr.row + 1 && w.x == 0 && w.format == tr.format
  {
  }

  lemma ReturnWritten(tr: Transcript)
    requires TranscriptInv(tr)
    ensures var w := Write(tr, Return);
            && Written(tr, w, 0, "", tr.format) && |w.cells| == Max(|tr.cells|, 80 * (tr.row + 1))
            && w.row == tr.row && w.x == 0 && w.format == tr.format
  {
  }

  lemma BackspaceWritten(tr: Transcript)
    requires TranscriptInv(tr)
    ensures tr.x > 0 ==>
              var w := Write(tr, Backspace);
              && Written(tr, w, Place(tr) - 1, " ", tr.format) && |w.cells| == Max(|tr.cells|, 80 * (tr.row + 1))
              && w.row == tr.row && w.x == tr.x - 1 && w.format == tr.format
  {
  }

  lemma WriteOne(tr: Transcript, token: Token)
    requires TranscriptInv(tr)
    ensures WriteAll(tr, [token]) == Write(tr, token)
  {
    WriteKeeps(tr, token);
    hide Write;
  }

  // ----- the screen -----

  /** The screen u after the screen t has moved up by some rows and shown has been put at a place of t; what was
      there moves along, and new rows are blank. */
  ghost predicate OnScreen(t: Terminal, u: Terminal, at: int, shown: string, rows: int) {
    && |t.shadow| == 1920 && |u.text| == 1920 && u.shadow == u.text && rows >= 0
    && forall k :: 0 <= k < 1920 ==>
         u.text[k] == var j := k + 80 * rows;
                      if at <= j < at + |shown| then Cell(shown[j - at], t.format)
                      else if j < 1920 then t.shadow[j] else Cell(' ', t.format)
  }

  /** Reading the screen off the transcript. */
  lemma ScreenShows(t: Terminal, s: string, at: int, shown: string, rows: int)
    requires TermInv(t) && Whole(s) && s != "" && NoBackAtEdge(Opening(t), Tokens(s))
    requires var w := WriteAll(Opening(t), Tokens(s));
             Written(Opening(t), w, at, shown, t.format) && |w.cells| == 1920 + 80 * rows && rows >= 0
    ensures OnScreen(t, Flush(t, s), at, shown, rows)
    ensures var u, w := Flush(t, s), WriteAll(Opening(t), Tokens(s));
            u.y == w.row - rows && u.x == w.x && u.format == w.format
  {
    FlushShowsTranscript(t, s);
    assert CELLS == 1920;
    hide Flush, Tokens, WriteAll, Whole, NoBackAtEdge;
  }

  lemma {:induction false} PlainTokens(s: string)
    requires AllPlain(s)
    ensures Whole(s) && |Tokens(s)| == |s| && forall i :: 0 <= i < |s| ==> Tokens(s)[i] == Char(s[i])
  {
    if s != "" {
      assert AllPlain(s[1..]);
      PlainTokens(s[1..]);
      FirstCharacter(s);
      OneCharacter(s[0]);
      hide Tokens, Whole;
    }
  }

  lemma {:induction false} CharactersNeverBack(tr: Transcript, tokens: seq<Token>)
    requires TranscriptInv(tr) && forall i :: 0 <= i < |tokens| ==> tokens[i].Char?
    ensures NoBackAtEdge(tr, tokens)
    decreases |tokens|
  {
    if tokens != [] {
      WriteKeeps(tr, tokens[0]);
      CharactersNeverBack(Write(tr, tokens[0]), tokens[1..]);
      hide Write;
    }
  }

  /** Text without control characters appears from the cursor on, row after row of 80 columns, in the current
      colours; when it passes row 23, the screen moves up by the rows that are missing. */
  lemma TextIsOnScreen(t: Terminal, s: string)
    requires TermInv(t) && s != "" && AllPlain(s)
    ensures Whole(s)
    ensures var at := 80 * t.y + t.x;
            var rows := Max(0, (at + |s| - 1) / 80 - 23);
            var u := Flush(t, s);
            && OnScreen(t, u, at, s, rows)
            && 80 * u.y + u.x == at + |s| - 80 * rows && u.x < 80 && u.format == t.format
  {
    hide *;
    OpeningIs(t);
    PlainTokens(s);
    CharactersNeverBack(Opening(t), Tokens(s));
    PlainTextIsWritten(Opening(t), s);
    var at := 80 * t.y + t.x;
    var rows := Max(0, (at + |s| - 1) / 80 - 23);
    RowsMissing(at + |s| - 1, rows);
    FilledIs(Opening(t), WriteAll(Opening(t), Tokens(s)), s);
    ScreenShows(t, s, at, s, rows);
  }

  lemma OpeningIs(t: Terminal)
    requires TermInv(t)
    ensures TranscriptInv(Opening(t)) && Place(Opening(t)) == 80 * t.y + t.x >= 0
    ensures |Opening(t).cells| == 1920 && Opening(t).format == t.format
  {
  }

  lemma FilledIs(tr: Transcript, w: Transcript, s: string)
    requires Filled(tr, w, s)
    ensures Written(tr, w, Place(tr), s, tr.format)
    ensures 80 * w.row + w.x == Place(tr) + |s| && w.x < 80 && w.format == tr.format
    ensures |w.cells| == Max(|tr.cells|, (Place(tr) + |s| - 1) / 80 * 80 + 80)
  {
    hide Written;
  }

  lemma RowsMissing(last: int, rows: int)
    requires last >= 0 && rows == Max(0, last / 80 - 23)
    ensures Max(1920, last / 80 * 80 + 80) == 1920 + 80 * rows && rows >= 0
  {
  }

  /** A newline goes to the start of the next row, and moves the screen up if that is below row 23; a return goes
      to the start of the row; a backspace blanks the cell before the cursor and goes there. */
  lemma ControlsOnScreen(t: Terminal)
    requires TermInv(t)
    ensures var u, rows := Flush(t, "\n"), Max(0, t.y - 22);
            OnScreen(t, u, 0, "", rows) && u.y == t.y + 1 - rows && u.x == 0 && u.format == t.format
    ensures var u, rows := Flush(t, "\r"), Max(0, t.y - 23);
            OnScreen(t, u, 0, "", rows) && u.y == t.y - rows && u.x == 0 && u.format == t.format
    ensures t.x > 0 ==>
              var u, rows := Flush(t, [8 as char]), Max(0, t.y - 23);
              && OnScreen(t, u, 80 * t.y + t.x - 1, " ", rows)
              && u.y == t.y - rows && u.x == t.x - 1 && u.format == t.format
  {
    var tr := Opening(t);
    ControlsAreWritten(tr);
    OneCharacter('\n');
    OneCharacter('\r');
    OneCharacter(8 as char);
    OneTokenNoBack(tr, NewLine);
    OneTokenNoBack(tr, Return);
    if t.x > 0 { OneTokenNoBack(tr, Backspace); }
    hide Flush, Tokens, WriteAll, Whole, NoBackAtEdge, Written, OnScreen;
    ScreenShows(t, "\n", 0, "", Max(0, t.y - 22));
    ScreenShows(t, "\r", 0, "", Max(0, t.y - 23));
    if t.x > 0 {
      ScreenShows(t, [8 as char], 80 * t.y + t.x - 1, " ", Max(0, t.y - 23));
    }
  }

  lemma OneTokenNoBack(tr: Transcript, token: Token)
    requires TranscriptInv(tr) && !(token.Backspace? && tr.x == 0)
    ensures NoBackAtEdge(tr, [token])
  {
    WriteKeeps(tr, token);
    hide Write;
  }

  /** A colour code changes the colours of what follows, and nothing on the screen. */
  lemma ColorOnScreen(t: Terminal, n: Word)
    requires TermInv(t)
    ensures var s := [27 as char, '['] + Digits(n, 10, false) + ['m'];
            && Whole(s)
            && var u, rows := Flush(t, s), Max(0, t.y - 23);
            && OnScreen(t, u, 0, "", rows) && u.y == t.y - rows && u.x == t.x && u.format == Graphics(n, t.format)
  {
    var s, tr := [27 as char, '['] + Digits(n, 10, false) + ['m'], Opening(t);
    ColorCodeIsRead(n, 'm');
    WriteOne(tr, Graphic(n));
    OneTokenNoBack(tr, Graphic(n));
    assert var w := Write(tr, Graphic(n));
           Written(tr, w, 0, "", t.format) && |w.cells| == Max(1920, 80 * (t.y + 1)) && w.row == t.y && w.x == t.x
           && w.format == Graphics(n, t.format);
    hide Flush, Tokens, WriteAll, Whole, NoBackAtEdge, Written, OnScreen, Digits, Write, Graphics;
    ScreenShows(t, s, 0, "", Max(0, t.y - 23));
  }

  /** A backspace in column 0 goes to the row above and there to column 79, if hardware memory has a character in it,
      and else just behind the last character, but never to column 0; it leaves a blank in that cell. */
  lemma BackspaceAtEdge(t: Terminal)
    requires TermInv(t) && t.x == 0 && t.y < 24
    ensures var u, y := Step(t, Backspace), if t.y > 0 then t.y - 1 else 0;
            && u.y == y && 1 <= u.x <= 79 && u.format == t.format && u.sync == t.sync
            && (forall k :: 80 * y + u.x < k < 80 * y + 80 ==> t.text[k].character == ' ')
            && (u.x < 79 ==> t.text[80 * y + u.x].character == ' ')
            && (t.text[80 * y + 79].character == ' ' && u.x > 1 ==> t.text[80 * y + u.x - 1].character != ' ')
            && (t.text[80 * y + 79].character != ' ' ==> u.x == 79)
            && u.shadow == t.shadow[80 * y + u.x := Cell(' ', t.format)]
            && u.text == t.text[80 * y + u.x := Cell(' ', t.format)]
  {
    var y := if t.y > 0 then t.y - 1 else 0;
    ScanBackFinds(t.text, y, 79);
    BackColumnInRange(t.text, y);
    StepKeeps(t, Backspace);
    hide ScanBack;
  }

  lemma {:induction false} ScanBackFinds(text: seq<Cell>, y: nat, x: nat)
    requires |text| == 1920 && y < 24 && x < 80
    ensures var k := ScanBack(text, y, x);
            && k <= x
            && (forall j :: 80 * y + k < j <= 80 * y + x ==> text[j].character == ' ')
            && (k > 0 ==> text[80 * y + k].character != ' ')
  {
    if x > 0 && text[80 * y + x].character == ' ' {
      ScanBackFinds(text, y, x - 1);
    }
  }
}
