/** What the terminal shows: the last 24 rows of a transcript that never forgets a line, however the
    stream is cut into flushes. */
module Transcript {
  import opened Words
  import opened IntegerField
  import opened TextTerminal

  // ----- the transcript -----

  /** An unbounded screen, row after row: the cursor only moves down, and a row is added, blank in the
      colours of the moment, when the cursor first needs it. */
  datatype Transcript = Transcript(cells: seq<Cell>, x: nat, row: nat, format: Format)

  function Rows(tr: Transcript): int { |tr.cells| / COLUMNS }

  ghost predicate TranscriptInv(tr: Transcript) {
    |tr.cells| % COLUMNS == 0 && |tr.cells| >= CELLS && tr.x < COLUMNS && Rows(tr) - ROWS <= tr.row <= Rows(tr)
  }

  function AddRow(tr: Transcript): Transcript {
    if tr.row >= Rows(tr) then tr.(cells := tr.cells + Repeat(Blank(tr.format), COLUMNS)) else tr
  }

  function Put(tr: Transcript, c: char): Transcript
    requires TranscriptInv(tr) && tr.row < Rows(tr)
  {
    tr.(cells := tr.cells[COLUMNS * tr.row + tr.x := Cell(c, tr.format)])
  }

  /** One token; a backspace is understood only right of column 0. */
  function Write(tr0: Transcript, token: Token): Transcript
    requires TranscriptInv(tr0)
  {
    var tr := AddRow(tr0);
    match token
    case NewLine => AddRow(tr.(row := tr.row + 1)).(x := 0)
    case Return => tr.(x := 0)
    case Backspace => if tr.x > 0 then Put(tr.(x := tr.x - 1), ' ') else tr
    case Graphic(code) => tr.(format := Graphics(code, tr.format))
    case Nothing => tr
    case Char(c) =>
      var p := Put(tr, c);
      if p.x + 1 == COLUMNS then p.(x := 0, row := p.row + 1) else p.(x := p.x + 1)
  }

  lemma WriteKeeps(tr: Transcript, token: Token)
    requires TranscriptInv(tr)
    ensures TranscriptInv(Write(tr, token))
    ensures |Write(tr, token).cells| >= |tr.cells|
    ensures forall k :: 0 <= k < |tr.cells| - CELLS ==> Write(tr, token).cells[k] == tr.cells[k]
  {
  }

  function WriteAll(tr: Transcript, tokens: seq<Token>): (r: Transcript)
    requires TranscriptInv(tr)
    ensures TranscriptInv(r)
    decreases |tokens|
  {
    if tokens == [] then tr else (WriteKeeps(tr, tokens[0]); WriteAll(Write(tr, tokens[0]), tokens[1..]))
  }

  /** A line that has left the screen never changes again. */
  lemma {:induction false} OldLinesStay(tr: Transcript, tokens: seq<Token>)
    requires TranscriptInv(tr)
    ensures |WriteAll(tr, tokens).cells| >= |tr.cells|
    ensures forall k :: 0 <= k < |tr.cells| - CELLS ==> WriteAll(tr, tokens).cells[k] == tr.cells[k]
    decreases |tokens|
  {
    if tokens != [] {
      WriteKeeps(tr, tokens[0]);
      OldLinesStay(Write(tr, tokens[0]), tokens[1..]);
    }
  }

  // ----- the screen is a window -----

  /** The screen shows the last 24 rows, and the cursors stand on the same cell. */
  ghost predicate Window(t: Terminal, tr: Transcript) {
    && |tr.cells| >= CELLS
    && t.shadow == tr.cells[|tr.cells| - CELLS..]
    && t.x == tr.x && t.format == tr.format
    && t.y == tr.row - (Rows(tr) - ROWS)
  }

  /** No backspace arrives while the cursor is in column 0. */
  predicate NoBackAtEdge(tr: Transcript, tokens: seq<Token>)
    requires TranscriptInv(tr)
    decreases |tokens|
  {
    tokens == [] ||
    (&& !(tokens[0].Backspace? && tr.x == 0)
     && (WriteKeeps(tr, tokens[0]); NoBackAtEdge(Write(tr, tokens[0]), tokens[1..])))
  }

  lemma WindowScroll(t: Terminal, tr: Transcript)
    requires TermInv(t) && TranscriptInv(tr) && Window(t, tr)
    ensures Window(ScrollIfBelow(t), AddRow(tr)) && TranscriptInv(AddRow(tr)) && TermInv(ScrollIfBelow(t))
    ensures AddRow(tr).row < Rows(AddRow(tr)) && ScrollIfBelow(t).y < ROWS
  {
    ScrollKeeps(t);
    if t.y >= ROWS {
      var n := |tr.cells|;
      assert AddRow(tr).cells[n - CELLS + COLUMNS..] ==
             tr.cells[n - CELLS..][COLUMNS..] + Repeat(Blank(tr.format), COLUMNS);
    }
  }

  lemma WindowPut(t: Terminal, tr: Transcript, c: char)
    requires TermInv(t) && TranscriptInv(tr) && Window(t, tr) && t.y < ROWS && tr.row < Rows(tr)
    ensures Window(Print(t, c), Put(tr, c))
  {
    var base := |tr.cells| - CELLS;
    assert COLUMNS * tr.row + tr.x - base == COLUMNS * t.y + t.x;
    assert Put(tr, c).cells[base..] == tr.cells[base..][COLUMNS * t.y + t.x := Cell(c, t.format)];
  }

  lemma WindowStep(t: Terminal, tr: Transcript, token: Token)
    requires TermInv(t) && TranscriptInv(tr) && Window(t, tr)
    requires !(token.Backspace? && tr.x == 0)
    ensures Window(Step(t, token), Write(tr, token))
  {
    WindowScroll(t, tr);
    match token
    case NewLine => WindowNewLine(t, tr);
    case Backspace => WindowBackspace(t, tr);
    case Char(c) => WindowChar(t, tr, c);
    case _ =>
  }

  lemma WindowNewLine(t: Terminal, tr: Transcript)
    requires TermInv(t) && TranscriptInv(tr) && Window(t, tr)
    ensures Window(Step(t, NewLine), Write(tr, NewLine))
  {
    hide *;
    WindowScroll(t, tr);
    var u, ur := ScrollIfBelow(t), AddRow(tr);
    WindowDown(u, ur);
    WindowScroll(u.(y := u.y + 1), ur.(row := ur.row + 1));
    WindowReturn(ScrollIfBelow(u.(y := u.y + 1)), AddRow(ur.(row := ur.row + 1)));
    NewLineStep(t, tr);
  }

  lemma WindowDown(t: Terminal, tr: Transcript)
    requires TermInv(t) && TranscriptInv(tr) && Window(t, tr) && t.y < ROWS && tr.row < Rows(tr)
    ensures TermInv(t.(y := t.y + 1)) && TranscriptInv(tr.(row := tr.row + 1))
    ensures Window(t.(y := t.y + 1), tr.(row := tr.row + 1))
  {
  }

  lemma WindowLeft(t: Terminal, tr: Transcript)
    requires TermInv(t) && TranscriptInv(tr) && Window(t, tr) && t.x > 0
    ensures TermInv(t.(x := t.x - 1)) && TranscriptInv(tr.(x := tr.x - 1)) && Rows(tr.(x := tr.x - 1)) == Rows(tr)
    ensures Window(t.(x := t.x - 1), tr.(x := tr.x - 1))
  {
  }

  lemma WindowReturn(t: Terminal, tr: Transcript)
    requires Window(t, tr)
    ensures Window(t.(x := 0), tr.(x := 0))
  {
  }

  lemma NewLineStep(t: Terminal, tr: Transcript)
    requires TermInv(t) && TranscriptInv(tr)
    requires var u := ScrollIfBelow(t); TermInv(u) && u.y < ROWS
    ensures var u := ScrollIfBelow(t); Step(t, NewLine) == ScrollIfBelow(u.(y := u.y + 1)).(x := 0)
    ensures var ur := AddRow(tr); Write(tr, NewLine) == AddRow(ur.(row := ur.row + 1)).(x := 0)
  {
    hide Scroll;
  }

  lemma WindowBackspace(t: Terminal, tr: Transcript)
    requires TermInv(t) && TranscriptInv(tr) && Window(t, tr) && tr.x > 0
    ensures Window(Step(t, Backspace), Write(tr, Backspace))
  {
    ScrollKeeps(t);
    WindowScroll(t, tr);
    BackspaceStep(t, tr);
    var u, ur := ScrollIfBelow(t), AddRow(tr);
    assert u.x == ur.x == tr.x;
    hide *;
    WindowLeft(u, ur);
    WindowPut(u.(x := u.x - 1), ur.(x := ur.x - 1), ' ');
  }

  lemma BackspaceStep(t: Terminal, tr: Transcript)
    requires TermInv(t) && TranscriptInv(tr) && tr.x > 0 && t.x > 0
    requires var u := ScrollIfBelow(t); TermInv(u) && u.y < ROWS && u.x == t.x
    requires var ur := AddRow(tr); TranscriptInv(ur) && ur.row < Rows(ur)
    ensures var u := ScrollIfBelow(t); Step(t, Backspace) == Print(u.(x := u.x - 1), ' ')
    ensures var ur := AddRow(tr); Write(tr, Backspace) == Put(ur.(x := ur.x - 1), ' ')
  {
    hide Scroll, Print, Put;
  }

  lemma WindowChar(t: Terminal, tr: Transcript, c: char)
    requires TermInv(t) && TranscriptInv(tr) && Window(t, tr)
    ensures Window(Step(t, Char(c)), Write(tr, Char(c)))
  {
    WindowScroll(t, tr);
    WindowPut(ScrollIfBelow(t), AddRow(tr), c);
  }

  /** The shadow screen stays a window on the transcript over every stream of tokens. */
  lemma {:induction false} ScreenIsWindow(t: Terminal, tr: Transcript, tokens: seq<Token>)
    requires TermInv(t) && TranscriptInv(tr) && Window(t, tr) && NoBackAtEdge(tr, tokens)
    ensures Window(Run(t, tokens), WriteAll(tr, tokens))
    decreases |tokens|
  {
    if tokens != [] {
      WindowStep(t, tr, tokens[0]);
      StepKeeps(t, tokens[0]);
      WriteKeeps(tr, tokens[0]);
      ScreenIsWindow(Step(t, tokens[0]), Write(tr, tokens[0]), tokens[1..]);
    }
  }

  /** Row r, column c of the screen is row `row - y + r` of the transcript. */
  lemma WindowRows(t: Terminal, tr: Transcript, r: nat, c: nat)
    requires TermInv(t) && TranscriptInv(tr) && Window(t, tr) && r < ROWS && c < COLUMNS
    ensures tr.row >= t.y && tr.row - t.y + r < Rows(tr)
    ensures t.shadow[COLUMNS * r + c] == tr.cells[COLUMNS * (tr.row - t.y + r) + c]
  {
    assert |tr.cells| - CELLS == COLUMNS * (tr.row - t.y);
  }

  /** The transcript of a terminal that starts with this screen. */
  function Opening(t: Terminal): Transcript {
    Transcript(t.shadow, t.x, t.y, t.format)
  }

  /** After any flush the hardware memory, too, is that window. */
  lemma FlushShowsTranscript(t: Terminal, s: string)
    requires TermInv(t) && Whole(s) && s != ""
    requires NoBackAtEdge(Opening(t), Tokens(s))
    ensures var tr := WriteAll(Opening(t), Tokens(s));
            && Window(Flush(t, s), tr)
            && Flush(t, s).text == tr.cells[|tr.cells| - CELLS..]
  {
    assert t.shadow[0..] == t.shadow;
    ScreenIsWindow(t, Opening(t), Tokens(s));
  }

  lemma {:induction false} WriteAllConcat(tr: Transcript, a: seq<Token>, b: seq<Token>)
    requires TranscriptInv(tr)
    ensures WriteAll(tr, a + b) == WriteAll(WriteAll(tr, a), b)
    ensures NoBackAtEdge(tr, a + b) <==> NoBackAtEdge(tr, a) && NoBackAtEdge(WriteAll(tr, a), b)
    decreases |a|
  {
    if a == [] {
      assert a + b == b;
    } else {
      WriteKeeps(tr, a[0]);
      WriteAllConcat(Write(tr, a[0]), a[1..], b);
      assert (a + b)[1..] == a[1..] + b;
    }
  }
}
