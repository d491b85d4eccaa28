/** Cutting the stream of characters into flushes: when the cuts cannot be seen, and when they can. */
module Buffering {
  import opened Words
  import opened IntegerField
  import opened TextTerminal
  import opened Transcript

  lemma {:induction false} RunConcat(t: Terminal, a: seq<Token>, b: seq<Token>)
    requires TermInv(t)
    ensures Run(t, a + b) == Run(Run(t, a), b)
    decreases |a|
  {
    if a == [] {
      assert a + b == b;
    } else {
      StepKeeps(t, a[0]);
      RunConcat(Step(t, a[0]), a[1..], b);
      assert (a + b)[1..] == a[1..] + b;
    }
  }

  // ----- when a cut can be seen -----

  /** The row a backspace at column 0 goes back to. */
  function RowAbove(t: Terminal): nat { if t.y > 0 then t.y - 1 else 0 }

  /** A backspace now would find another end of row in the hardware memory than in the shadow buffer. */
  ghost predicate Lags(t: Terminal)
    requires TermInv(t)
  {
    t.y < ROWS && t.x == 0 && BackColumn(t.text, RowAbove(t)) != BackColumn(t.shadow, RowAbove(t))
  }

  /** No backspace meets a lagging terminal. */
  ghost predicate NoLag(t: Terminal, tokens: seq<Token>)
    requires TermInv(t)
    decreases |tokens|
  {
    tokens == [] ||
    (&& !(tokens[0].Backspace? && Lags(t))
     && (StepKeeps(t, tokens[0]); NoLag(Step(t, tokens[0]), tokens[1..])))
  }

  /** The two differ at most in hardware memory that one of them has brought up to date. */
  ghost predicate Twins(t: Terminal, u: Terminal) {
    && TermInv(t) && TermInv(u)
    && t.shadow == u.shadow && t.x == u.x && t.y == u.y && t.format == u.format
    && (t.text == u.text || u.sync)
  }

  lemma TwinsFlush(t: Terminal, u: Terminal)
    requires Twins(t, u)
    ensures VgaFlush(t) == VgaFlush(u)
    ensures Lags(u) ==> Lags(t)
  {
  }

  lemma TwinFlushed(t: Terminal)
    requires TermInv(t)
    ensures Twins(t, VgaFlush(t))
  {
  }

  lemma TwinsScroll(t: Terminal, u: Terminal)
    requires Twins(t, u)
    ensures Twins(ScrollIfBelow(t), ScrollIfBelow(u))
    ensures t.y >= ROWS ==> ScrollIfBelow(t).text == ScrollIfBelow(u).text
  {
  }

  lemma TwinsPrint(t: Terminal, u: Terminal, c: char)
    requires Twins(t, u) && t.y < ROWS
    ensures Twins(Print(t, c), Print(u, c))
  {
  }

  lemma TwinsStep(t: Terminal, u: Terminal, token: Token)
    requires Twins(t, u) && !(token.Backspace? && Lags(t))
    ensures Twins(Step(t, token), Step(u, token))
  {
    ScrollKeeps(t);
    ScrollKeeps(u);
    TwinsScroll(t, u);
    var t1, u1 := ScrollIfBelow(t), ScrollIfBelow(u);
    match token
    case NewLine => TwinsScroll(t1.(y := t1.y + 1), u1.(y := u1.y + 1));
    case Char(c) => TwinsPrint(t1, u1, c);
    case Backspace => TwinsBackspace(t, u);
    case _ =>
  }

  lemma TwinsBackspace(t: Terminal, u: Terminal)
    requires Twins(t, u) && !Lags(t)
    ensures Twins(Step(t, Backspace), Step(u, Backspace))
  {
    BackspaceStep(t);
    BackspaceStep(u);
    TwinsScroll(t, u);
    TwinsColumn(t, u);
    var t1, u1 := ScrollIfBelow(t), ScrollIfBelow(u);
    hide Step, ScrollIfBelow, BackColumn, Print, Lags;
    if t1.x > 0 {
      TwinsPrint(t1.(x := t1.x - 1), u1.(x := u1.x - 1), ' ');
    } else {
      var y := RowAbove(t1);
      var k := BackColumn(t1.text, y);
      TwinsPrint(t1.(x := k, y := y), u1.(x := k, y := y), ' ');
    }
  }

  /** The two find the same end of the row above. */
  lemma TwinsColumn(t: Terminal, u: Terminal)
    requires Twins(t, u) && !Lags(t)
    ensures var t1, u1 := ScrollIfBelow(t), ScrollIfBelow(u);
            && TermInv(t1) && TermInv(u1) && t1.y < ROWS && u1.y < ROWS
            && (t1.x == 0 ==> BackColumn(u1.text, RowAbove(u1)) == BackColumn(t1.text, RowAbove(t1)))
  {
    ScrollKeeps(t);
    ScrollKeeps(u);
    TwinsScroll(t, u);
    hide BackColumn, Scroll;
  }

  lemma BackspaceStep(t: Terminal)
    requires TermInv(t)
    ensures TermInv(ScrollIfBelow(t)) && ScrollIfBelow(t).y < ROWS
    ensures var u := ScrollIfBelow(t);
            if u.x > 0 then Step(t, Backspace) == Print(u.(x := u.x - 1), ' ')
            else
              && BackColumn(u.text, RowAbove(u)) < COLUMNS
              && Step(t, Backspace) == Print(u.(x := BackColumn(u.text, RowAbove(u)), y := RowAbove(u)), ' ')
  {
    ScrollKeeps(t);
    BackColumnInRange(ScrollIfBelow(t).text, RowAbove(ScrollIfBelow(t)));
    hide ScrollIfBelow, BackColumn, Print;
  }

  lemma {:induction false} TwinsRun(t: Terminal, u: Terminal, tokens: seq<Token>)
    requires Twins(t, u) && NoLag(t, tokens)
    ensures Twins(Run(t, tokens), Run(u, tokens)) && NoLag(u, tokens)
    decreases |tokens|
  {
    if tokens != [] {
      TwinsFlush(t, u);
      TwinsStep(t, u, tokens[0]);
      TwinsRun(Step(t, tokens[0]), Step(u, tokens[0]), tokens[1..]);
    }
  }

  lemma {:induction false} NoLagConcat(t: Terminal, a: seq<Token>, b: seq<Token>)
    requires TermInv(t)
    ensures NoLag(t, a + b) <==> NoLag(t, a) && NoLag(Run(t, a), b)
    decreases |a|
  {
    if a == [] {
      assert a + b == b;
    } else {
      StepKeeps(t, a[0]);
      NoLagConcat(Step(t, a[0]), a[1..], b);
      assert (a + b)[1..] == a[1..] + b;
    }
  }

  /** A flush before one token is visible exactly if that token is a backspace and the terminal lags. */
  lemma CutBeforeTokenIff(t: Terminal, token: Token)
    requires TermInv(t)
    ensures TermInv(Step(t, token)) && TermInv(VgaFlush(t)) && TermInv(Step(VgaFlush(t), token))
    ensures VgaFlush(Step(VgaFlush(t), token)) == VgaFlush(Step(t, token)) <==> !(token.Backspace? && Lags(t))
  {
    StepKeeps(t, token);
    StepKeeps(VgaFlush(t), token);
    if token.Backspace? && Lags(t) {
      BackColumnInRange(t.text, RowAbove(t));
      BackColumnInRange(t.shadow, RowAbove(t));
    } else {
      TwinsStep(t, VgaFlush(t), token);
      TwinsFlush(Step(t, token), Step(VgaFlush(t), token));
    }
  }

  /** Only a scroll since the last flush can make the terminal lag. */
  lemma FlushedDoesNotLag(t: Terminal)
    requires TermInv(t) && t.sync
    ensures !Lags(t)
  {
  }

  /** A stream without a backspace at column 0 meets no lag. */
  lemma {:induction false} NoEdgeNoLag(t: Terminal, tr: Transcript, tokens: seq<Token>)
    requires TermInv(t) && TranscriptInv(tr) && Window(t, tr) && NoBackAtEdge(tr, tokens)
    ensures NoLag(t, tokens)
    decreases |tokens|
  {
    if tokens != [] {
      WindowStep(t, tr, tokens[0]);
      StepKeeps(t, tokens[0]);
      WriteKeeps(tr, tokens[0]);
      NoEdgeNoLag(Step(t, tokens[0]), Write(tr, tokens[0]), tokens[1..]);
    }
  }

  // ----- cutting the stream -----

  /** Flushing in between changes nothing: one flush of a + b is a flush of a and then one of b. */
  lemma FlushConcat(t: Terminal, a: string, b: string)
    requires TermInv(t) && Whole(a) && Whole(b) && NoLag(Run(t, Tokens(a)), Tokens(b))
    ensures Whole(a + b) && Flush(Flush(t, a), b) == Flush(t, a + b)
    ensures NoLag(Flush(t, a), Tokens(b))
  {
    TokensConcat(a, b);
    if a == "" {
      assert a + b == b;
    } else {
      var t1 := Run(t, Tokens(a));
      RunConcat(t, Tokens(a), Tokens(b));
      TwinsRun(t1, VgaFlush(t1), Tokens(b));
      TwinsFlush(Run(t1, Tokens(b)), Run(VgaFlush(t1), Tokens(b)));
      if b == "" {
        assert a + b == a;
      }
    }
  }

  /** A flush between tokens i-1 and i, and another one after token j-1, show what the last one alone shows. */
  ghost predicate CutInvisible(t: Terminal, tokens: seq<Token>, i: nat, j: nat)
    requires TermInv(t) && i <= j <= |tokens|
  {
    VgaFlush(Run(VgaFlush(Run(t, tokens[..i])), tokens[i..j])) == VgaFlush(Run(t, tokens[..j]))
  }

  /** Whether flushes can be seen anywhere in a stream is decided by the lag alone: every cut of every
      beginning of the stream is invisible iff no backspace meets a lagging terminal. */
  lemma CutsAreInvisibleIff(t: Terminal, tokens: seq<Token>)
    requires TermInv(t)
    ensures NoLag(t, tokens) <==> forall i: nat, j: nat :: i <= j <= |tokens| ==> CutInvisible(t, tokens, i, j)
  {
    if NoLag(t, tokens) {
      forall i: nat, j: nat | i <= j <= |tokens| ensures CutInvisible(t, tokens, i, j) {
        CutOf(t, tokens, i, j);
      }
    } else {
      var k := FirstLag(t, tokens);
      CutAtLag(t, tokens, k);
    }
  }

  lemma CutOf(t: Terminal, tokens: seq<Token>, i: nat, j: nat)
    requires TermInv(t) && NoLag(t, tokens) && i <= j <= |tokens|
    ensures CutInvisible(t, tokens, i, j)
  {
    hide Run, VgaFlush, Lags, NoLag, TermInv;
    var a, b := tokens[..i], tokens[i..j];
    assert tokens == a + b + tokens[j..] && tokens[..j] == a + b;
    NoLagConcat(t, a + b, tokens[j..]);
    NoLagConcat(t, a, b);
    RunConcat(t, a, b);
    TwinFlushed(Run(t, a));
    TwinsRun(Run(t, a), VgaFlush(Run(t, a)), b);
    TwinsFlush(Run(t, a + b), Run(VgaFlush(Run(t, a)), b));
  }

  lemma CutAtLag(t: Terminal, tokens: seq<Token>, k: nat)
    requires TermInv(t) && k < |tokens| && tokens[k].Backspace? && Lags(Run(t, tokens[..k]))
    ensures !CutInvisible(t, tokens, k, k + 1)
  {
    hide Run, Step, VgaFlush, Lags, TermInv;
    var u := Run(t, tokens[..k]);
    assert tokens[k..k + 1] == [Backspace] && tokens[..k + 1] == tokens[..k] + [Backspace];
    RunConcat(t, tokens[..k], [Backspace]);
    RunOne(u, Backspace);
    TwinFlushed(u);
    RunOne(VgaFlush(u), Backspace);
    CutBeforeTokenIff(u, Backspace);
  }

  /** The first backspace that meets a lagging terminal. */
  lemma {:induction false} FirstLag(t: Terminal, tokens: seq<Token>) returns (k: nat)
    requires TermInv(t) && !NoLag(t, tokens)
    ensures k < |tokens| && tokens[k].Backspace? && Lags(Run(t, tokens[..k]))
    decreases |tokens|
  {
    k := 0;
    if !(tokens[0].Backspace? && Lags(t)) {
      StepKeeps(t, tokens[0]);
      k := FirstLag(Step(t, tokens[0]), tokens[1..]);
      k := k + 1;
      assert tokens[..k][1..] == tokens[1..][..k - 1];
    }
  }

  /** The cut before one backspace. */
  lemma CutBeforeBackspaceIff(t: Terminal, a: string)
    requires TermInv(t) && Whole(a)
    ensures Whole([BACKSPACE]) && Whole(a + [BACKSPACE])
    ensures Flush(Flush(t, a), [BACKSPACE]) == Flush(t, a + [BACKSPACE]) <==> a == "" || !Lags(Run(t, Tokens(a)))
  {
    EdgeTokens();
    TokensConcat(a, [BACKSPACE]);
    if a == "" {
      assert a + [BACKSPACE] == [BACKSPACE];
    } else {
      var t1 := Run(t, Tokens(a));
      RunConcat(t, Tokens(a), [Backspace]);
      RunOne(t1, Backspace);
      RunOne(VgaFlush(t1), Backspace);
      CutBeforeTokenIff(t1, Backspace);
    }
  }

  function Join(chunks: seq<string>): string {
    if chunks == [] then "" else chunks[0] + Join(chunks[1..])
  }

  function FlushEach(t: Terminal, chunks: seq<string>): (r: Terminal)
    requires TermInv(t) && forall i :: 0 <= i < |chunks| ==> Whole(chunks[i])
    ensures TermInv(r)
    decreases |chunks|
  {
    if chunks == [] then t else FlushEach(Flush(t, chunks[0]), chunks[1..])
  }

  lemma {:induction false} JoinWhole(chunks: seq<string>)
    requires forall i :: 0 <= i < |chunks| ==> Whole(chunks[i])
    ensures Whole(Join(chunks))
    decreases |chunks|
  {
    if chunks != [] {
      JoinWhole(chunks[1..]);
      TokensConcat(chunks[0], Join(chunks[1..]));
    }
  }

  /** Buffering is transparent: a stream cut into any chunks, each flushed by itself, ends in the same
      screen, hardware memory, cursor and colours as one flush of the whole. */
  lemma {:induction false} BufferingIsTransparent(t: Terminal, chunks: seq<string>)
    requires TermInv(t) && forall i :: 0 <= i < |chunks| ==> Whole(chunks[i])
    requires Whole(Join(chunks)) && NoLag(t, Tokens(Join(chunks)))
    ensures FlushEach(t, chunks) == Flush(t, Join(chunks))
    decreases |chunks|
  {
    if chunks != [] {
      var a, b := chunks[0], Join(chunks[1..]);
      JoinWhole(chunks[1..]);
      TokensConcat(a, b);
      NoLagConcat(t, Tokens(a), Tokens(b));
      FlushConcat(t, a, b);
      BufferingIsTransparent(Flush(t, a), chunks[1..]);
    }
  }

  // ----- characters put one at a time -----

  const BUFFER_SIZE := 512

  /** The terminal and the characters not yet flushed. */
  datatype Pending = Pending(term: Terminal, buffer: string)

  ghost predicate PendingInv(p: Pending) {
    TermInv(p.term) && |p.buffer| <= BUFFER_SIZE
  }

  /** The automatic flush of cputc, when it comes, does not cut an escape sequence. */
  predicate CanPut(p: Pending) {
    |p.buffer| >= BUFFER_SIZE ==> Whole(p.buffer)
  }

  /** cputc: a full buffer is flushed first. */
  function PutChar(p: Pending, c: char): (r: Pending)
    requires PendingInv(p) && CanPut(p)
    ensures PendingInv(r)
  {
    if |p.buffer| >= BUFFER_SIZE then Pending(Flush(p.term, p.buffer), [c])
    else p.(buffer := p.buffer + [c])
  }

  predicate CanPutAll(p: Pending, s: string)
    requires PendingInv(p)
    decreases |s|
  {
    s == "" || (CanPut(p) && CanPutAll(PutChar(p, s[0]), s[1..]))
  }

  /** cputs. */
  function PutString(p: Pending, s: string): (r: Pending)
    requires PendingInv(p) && CanPutAll(p, s)
    ensures PendingInv(r)
    decreases |s|
  {
    if s == "" then p else PutString(PutChar(p, s[0]), s[1..])
  }

  /** As long as the buffer has room, characters are only stored. */
  lemma {:induction false} PutPlain(p: Pending, s: string)
    requires PendingInv(p) && |p.buffer| + |s| <= 512
    ensures CanPutAll(p, s) && PutString(p, s) == p.(buffer := p.buffer + s)
    decreases |s|
  {
    if s == "" {
      assert p.buffer + s == p.buffer;
    } else {
      PutPlain(PutChar(p, s[0]), s[1..]);
      assert p.buffer + [s[0]] + s[1..] == p.buffer + s;
    }
  }

  /** Wherever the automatic flushes of cputs fall, a final flush leaves what one flush of
      everything would have left. */
  lemma {:induction false} PutStringIsTransparent(p: Pending, s: string)
    requires PendingInv(p) && CanPutAll(p, s) && Whole(PutString(p, s).buffer)
    requires Whole(p.buffer + s) && NoLag(p.term, Tokens(p.buffer + s))
    ensures Flush(PutString(p, s).term, PutString(p, s).buffer) == Flush(p.term, p.buffer + s)
    decreases |s|
  {
    if s == "" {
      assert p.buffer + s == p.buffer;
    } else if |p.buffer| < BUFFER_SIZE {
      assert p.buffer + s == p.buffer + [s[0]] + s[1..];
      PutStringIsTransparent(PutChar(p, s[0]), s[1..]);
    } else {
      WholeRest(p.buffer, s);
      TokensConcat(p.buffer, s);
      NoLagConcat(p.term, Tokens(p.buffer), Tokens(s));
      FlushConcat(p.term, p.buffer, s);
      assert [s[0]] + s[1..] == s;
      PutStringIsTransparent(PutChar(p, s[0]), s[1..]);
    }
  }

  /** What follows a whole text in a whole text is whole. */
  lemma {:induction false} WholeRest(a: string, b: string)
    requires Whole(a) && Whole(a + b)
    ensures Whole(b)
    decreases |a|
  {
    if a == "" {
      assert a + b == b;
    } else {
      TokenLengthPositive(a);
      TokenLocal(a, b);
      assert (a + b)[TokenLength(a)..] == a[TokenLength(a)..] + b;
      WholeRest(a[TokenLength(a)..], b);
    }
  }

  // ----- backspace at column 0 -----

  lemma {:induction false} ScanBackTo(text: seq<Cell>, y: nat, x: nat, k: nat)
    requires |text| == CELLS && y < ROWS && k <= x < COLUMNS
    requires forall i :: COLUMNS * y + k < i <= COLUMNS * y + x ==> text[i].character == ' '
    requires k == 0 || text[COLUMNS * y + k].character != ' '
    ensures ScanBack(text, y, x) == k
  {
    if x > k {
      ScanBackTo(text, y, x - 1, k);
    }
  }

  /** A flushed screen whose last row holds a single character, in column 5, with the cursor at the
      start of that row, all other rows being blank. */
  ghost predicate EdgeScreen(t: Terminal) {
    && TermInv(t) && t.sync && t.x == 0 && t.y == 23
    && (forall i :: 0 <= i < CELLS && i != COLUMNS * 23 + 5 ==> t.shadow[i].character == ' ')
    && t.shadow[COLUMNS * 23 + 5].character == 'a'
  }

  /** A terminal that lags: after a scroll the hardware memory is a row behind, and a backspace at
      column 0 then lands elsewhere than it does when a flush comes in between. */
  lemma BackspaceAtEdgeSeesTheCut(t: Terminal)
    requires EdgeScreen(t)
    ensures Whole("\n") && Whole([BACKSPACE]) && Whole("\n" + [BACKSPACE])
    ensures Flush(t, "\n" + [BACKSPACE]).x == 1
    ensures Flush(Flush(t, "\n"), [BACKSPACE]).x == 6
  {
    EdgeTokens();
    EdgeSteps(t);
    TokensConcat("\n", [BACKSPACE]);
    RunConcat(t, [NewLine], [Backspace]);
    RunOne(t, NewLine);
    RunOne(Step(t, NewLine), Backspace);
    RunOne(VgaFlush(Step(t, NewLine)), Backspace);
  }

  /** A text that leaves such a screen on a new console. */
  function EdgeText(): string { Repeat('\n', 23) + Repeat(' ', 5) + "a" + "\r" }

  /** One more character. */
  lemma OneMore(t: Terminal, s: string, c: char, u: Terminal)
    requires TermInv(t) && Whole(s) && Run(t, Tokens(s)) == u && c != ESC
    ensures Whole(s + [c]) && Run(t, Tokens(s + [c])) == Step(u, TokenOf([c]))
  {
    assert [c][1..] == "" && Whole("") && Tokens("") == [];
    assert Whole([c]) && Tokens([c]) == [TokenOf([c])];
    TokensConcat(s, [c]);
    RunConcat(t, Tokens(s), Tokens([c]));
    RunOne(u, TokenOf([c]));
    hide Run, Step, TokenOf, Whole, Tokens;
  }

  lemma {:induction false} AfterNewLines(n: nat)
    requires n <= 23
    ensures Whole(Repeat('\n', n)) && Run(FirstTerminal(), Tokens(Repeat('\n', n))) == FirstTerminal().(y := n)
  {
    if n > 0 {
      AfterNewLines(n - 1);
      OneMore(FirstTerminal(), Repeat('\n', n - 1), '\n', FirstTerminal().(y := n - 1));
      assert Repeat('\n', n - 1) + ['\n'] == Repeat('\n', n);
    }
  }

  /** Blanks on a blank row move the cursor only. */
  lemma {:induction false} AfterBlanks(s: string, t: Terminal, k: nat)
    requires t == FirstTerminal().(y := 23) && k <= 5
    requires Whole(s) && Run(FirstTerminal(), Tokens(s)) == t
    ensures Whole(s + Repeat(' ', k)) && Run(FirstTerminal(), Tokens(s + Repeat(' ', k))) == t.(x := k)
  {
    if k == 0 {
      assert s + Repeat(' ', 0) == s;
    } else {
      AfterBlanks(s, t, k - 1);
      OneMore(FirstTerminal(), s + Repeat(' ', k - 1), ' ', t.(x := k - 1));
      assert s + Repeat(' ', k - 1) + [' '] == s + Repeat(' ', k);
      BlankStep(t, k - 1);
    }
  }

  lemma BlankStep(t: Terminal, k: nat)
    requires t == FirstTerminal().(y := 23) && k < 5
    ensures Step(t.(x := k), TokenOf([' '])) == t.(x := k + 1)
  {
    var i := COLUMNS * 23 + k;
    assert t.shadow[i := Cell(' ', t.format)] == t.shadow && t.text[i := Cell(' ', t.format)] == t.text;
  }

  /** The screen is reached from what init_consoles leaves. */
  lemma EdgeScreenIsReached()
    ensures Whole(EdgeText()) && EdgeScreen(Flush(FirstTerminal(), EdgeText()))
  {
    var t0, t := FirstTerminal(), FirstTerminal().(y := 23);
    var s := Repeat('\n', 23);
    AfterNewLines(23);
    AfterBlanks(s, t, 5);
    OneMore(t0, s + Repeat(' ', 5), 'a', t.(x := 5));
    var u := Step(t.(x := 5), TokenOf(['a']));
    EdgeWritten(t, u);
    OneMore(t0, s + Repeat(' ', 5) + "a", '\r', u);
    hide Run, Tokens, Whole;
  }

  lemma EdgeWritten(t: Terminal, u: Terminal)
    requires t == FirstTerminal().(y := 23) && u == Step(t.(x := 5), TokenOf(['a']))
    ensures TermInv(u) && EdgeScreen(Step(u, TokenOf(['\r'])))
  {
    assert u == t.(x := 6, shadow := t.shadow[COLUMNS * 23 + 5 := Cell('a', t.format)],
                   text := t.text[COLUMNS * 23 + 5 := Cell('a', t.format)]);
  }

  /** So on a new console one may see whether a newline and a backspace were flushed together or apart. */
  lemma CutIsSeenOnNewConsole()
    ensures Whole(EdgeText()) && Whole("\n") && Whole([BACKSPACE]) && Whole("\n" + [BACKSPACE])
    ensures var t := Flush(FirstTerminal(), EdgeText());
            Flush(t, "\n" + [BACKSPACE]).x == 1 && Flush(Flush(t, "\n"), [BACKSPACE]).x == 6
  {
    EdgeScreenIsReached();
    BackspaceAtEdgeSeesTheCut(Flush(FirstTerminal(), EdgeText()));
    hide *;
  }

  lemma EdgeTokens()
    ensures Whole("\n") && Whole([BACKSPACE])
    ensures Tokens("\n") == [NewLine] && Tokens([BACKSPACE]) == [Backspace]
  {
    assert [BACKSPACE][1..] == "" && "\n"[1..] == "";
    assert Whole("");
    assert Tokens("") == [];
  }

  /** The two outcomes on a screen whose only character is an a in column 5 of the last row. */
  lemma EdgeSteps(t: Terminal)
    requires EdgeScreen(t)
    ensures TermInv(Step(t, NewLine))
    ensures Step(Step(t, NewLine), Backspace).x == 1
    ensures Step(VgaFlush(Step(t, NewLine)), Backspace).x == 6
  {
    StepKeeps(t, NewLine);
    var u := Step(t, NewLine);
    assert u.text == t.shadow && u.x == 0 && u.y == 23 && !u.sync;
    assert u.shadow == t.shadow[COLUMNS..] + Repeat(Blank(t.format), COLUMNS);
    assert forall i :: 0 <= i < CELLS - COLUMNS ==> u.shadow[i] == t.shadow[i + COLUMNS];
    ScanBackTo(u.text, 22, 79, 0);
    ScanBackTo(u.shadow, 22, 79, 5);
  }

  lemma RunOne(t: Terminal, token: Token)
    requires TermInv(t)
    ensures Run(t, [token]) == Step(t, token)
  {
    StepKeeps(t, token);
    assert Run(t, [token]) == Run(Step(t, token), [token][1..]);
  }
}
