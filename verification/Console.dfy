/** The console and its VGA driver (console.c, vga.c) on arrays: every routine is proved to do what
    the state machine of module TextTerminal does. */
module Console {
  import opened Words
  import opened IntegerField
  import opened TextTerminal
  import opened Transcript
  import opened Buffering
  import F = Formatter
  import P = Printf

  /** The full-screen console at position (0,0), with the shadow buffer and the text memory. */
  class Console {
    const vgaBuffer: array<Cell>
    const textBase: array<Cell>
    const buffer: array<char>
    var bufferSync: bool
    var bufferPos: nat
    var cursorX: nat
    var cursorY: nat
    var format: Format

    ghost predicate Shaped() {
      && vgaBuffer.Length == CELLS && textBase.Length == CELLS && buffer.Length == BUFFER_SIZE
      && vgaBuffer != textBase
    }

    ghost function Term(): Terminal
      reads this, vgaBuffer, textBase
    {
      Terminal(vgaBuffer[..], textBase[..], bufferSync, cursorX, cursorY, format)
    }

    ghost predicate Valid()
      reads this, vgaBuffer, textBase
    {
      Shaped() && TermInv(Term()) && bufferPos <= BUFFER_SIZE
    }

    ghost function State(): Pending
      reads this, vgaBuffer, textBase, buffer
      requires Valid()
    {
      Pending(Term(), buffer[..bufferPos])
    }

    /** init_consoles, over whatever the screen showed before. */
    constructor ()
      ensures Valid() && fresh(vgaBuffer) && fresh(textBase) && fresh(buffer)
      ensures State() == Pending(FirstTerminal(), "")
      ensures cursorX == cursorY == 0 && format == Format(15, 0)
      ensures forall k :: 0 <= k < 1920 ==> textBase[k] == vgaBuffer[k] == Cell(' ', Format(15, 0))
    {
      vgaBuffer := new Cell[CELLS](_ => Cell('\0', Format(0, 0)));
      textBase := new Cell[CELLS](_ => Cell('\0', Format(0, 0)));
      buffer := new char[BUFFER_SIZE](_ => '\0');
      bufferSync, bufferPos, cursorX, cursorY, format := true, 0, 0, 0, DEFAULT_FORMAT;
      new;
      ClearConsole();
      assert vgaBuffer[..] == Repeat(Blank(DEFAULT_FORMAT), CELLS);
    }

    // ----- vga.c -----

    /** vga_flush: the shadow buffer is copied to the text memory unless they agree already. */
    method FlushVga()
      requires Valid()
      modifies this`bufferSync, textBase
      ensures Valid() && Term() == VgaFlush(old(Term()))
    {
      if !bufferSync {
        for i := 0 to CELLS
          invariant forall k :: 0 <= k < i ==> textBase[k] == vgaBuffer[k]
        {
          textBase[i] := vgaBuffer[i];
        }
        bufferSync := true;
        assert textBase[..] == vgaBuffer[..];
      }
    }

    /** vga_print_char. */
    method PrintChar(c: Cell, x: nat, y: nat)
      requires Valid() && x < COLUMNS && y < ROWS
      modifies vgaBuffer, textBase
      ensures vgaBuffer[..] == old(vgaBuffer[..])[COLUMNS * y + x := c]
      ensures textBase[..] == old(textBase[..])[COLUMNS * y + x := c]
      ensures Valid()
    {
      vgaBuffer[COLUMNS * y + x] := c;
      textBase[COLUMNS * y + x] := c;
    }

    /** vga_copy of full rows: from the flushed text memory into the shadow buffer. */
    method CopyRows(destY: nat, srcY: nat, rows: nat)
      requires Valid() && destY + rows <= ROWS && srcY + rows <= ROWS
      modifies this`bufferSync, vgaBuffer, textBase
      ensures Valid() && !bufferSync
      ensures textBase[..] == VgaFlush(old(Term())).text
      ensures forall k :: 0 <= k < CELLS ==>
                vgaBuffer[k] == if COLUMNS * destY <= k < COLUMNS * (destY + rows)
                                then textBase[k - COLUMNS * destY + COLUMNS * srcY] else old(vgaBuffer[k])
    {
      FlushVga();
      ghost var text := textBase[..];
      for i := 0 to rows
        invariant textBase[..] == text
        invariant forall k :: 0 <= k < CELLS ==>
                    vgaBuffer[k] == if COLUMNS * destY <= k < COLUMNS * (destY + i)
                                    then textBase[k - COLUMNS * destY + COLUMNS * srcY] else old(vgaBuffer[k])
      {
        var dest, src := COLUMNS * (destY + i), COLUMNS * (srcY + i);
        for j := 0 to COLUMNS
          invariant textBase[..] == text
          invariant forall k :: 0 <= k < CELLS ==>
                      vgaBuffer[k] == if COLUMNS * destY <= k < dest + j
                                      then textBase[k - COLUMNS * destY + COLUMNS * srcY] else old(vgaBuffer[k])
        {
          vgaBuffer[dest + j] := textBase[src + j];
        }
      }
      bufferSync := false;
    }

    /** vga_fill of full rows. */
    method FillRows(destY: nat, rows: nat, c: Cell)
      requires Valid() && destY + rows <= ROWS
      modifies this`bufferSync, vgaBuffer
      ensures Valid() && !bufferSync
      ensures forall k :: 0 <= k < CELLS ==>
                vgaBuffer[k] == if COLUMNS * destY <= k < COLUMNS * (destY + rows) then c else old(vgaBuffer[k])
    {
      bufferSync := false;
      for i := 0 to rows
        invariant Valid() && !bufferSync
        invariant forall k :: 0 <= k < CELLS ==>
                    vgaBuffer[k] == if COLUMNS * destY <= k < COLUMNS * (destY + i) then c else old(vgaBuffer[k])
      {
        for j := 0 to COLUMNS
          invariant Valid() && !bufferSync
          invariant forall k :: 0 <= k < CELLS ==>
                      vgaBuffer[k] == if COLUMNS * destY <= k < COLUMNS * (destY + i) + j then c else old(vgaBuffer[k])
        {
          vgaBuffer[COLUMNS * (destY + i) + j] := c;
        }
      }
    }

    // ----- console.c -----

    /** clear_console. */
    method ClearConsole()
      requires Valid()
      modifies this`bufferSync, this`cursorX, this`cursorY, vgaBuffer, textBase
      ensures Valid() && bufferSync && cursorX == 0 && cursorY == 0
      ensures forall k :: 0 <= k < CELLS ==> vgaBuffer[k] == Blank(format)
      ensures textBase[..] == vgaBuffer[..]
    {
      FillRows(0, ROWS, Cell(' ', format));
      cursorX, cursorY := 0, 0;
      FlushVga();
    }

    /** inplace_cwrite. */
    method InplaceWrite(c: char)
      requires Valid() && cursorY < ROWS
      modifies vgaBuffer, textBase
      ensures Valid() && Term() == Print(old(Term()), c)
    {
      PrintChar(Cell(c, format), cursorX, cursorY);
    }

    /** cwrite. */
    method Write(c: char)
      requires Valid() && cursorY < ROWS
      modifies this`cursorX, this`cursorY, vgaBuffer, textBase
      ensures Valid() && Term() == Step(old(Term()), Char(c))
    {
      InplaceWrite(c);
      cursorX := cursorX + 1;
      if cursorX / COLUMNS != 0 {
        cursorY := cursorY + 1;
        cursorX := 0;
      }
    }

    /** cscroll. */
    method ScrollUp()
      requires Valid()
      modifies this`bufferSync, this`cursorY, vgaBuffer, textBase
      ensures Valid() && Term() == Scroll(old(Term()))
    {
      CopyRows(0, 1, ROWS - 1);
      FillRows(ROWS - 1, 1, Cell(' ', format));
      if cursorY != 0 {
        cursorY := cursorY - 1;
      }
      assert vgaBuffer[..] == textBase[..][COLUMNS..] + Repeat(Blank(format), COLUMNS);
    }

    method ScrollWhenBelow()
      requires Valid()
      modifies this`bufferSync, this`cursorY, vgaBuffer, textBase
      ensures Valid() && Term() == ScrollIfBelow(old(Term())) && cursorY < ROWS
    {
      if cursorY >= ROWS {
        ScrollUp();
      }
    }

    /** The search of the backspace case: just past the last character of the row, as far as the text
        memory shows. */
    method FindRowEnd()
      requires Valid() && cursorY < ROWS
      modifies this`cursorX
      ensures Valid() && cursorX == BackColumn(textBase[..], cursorY)
    {
      var moved := false;
      cursorX := COLUMNS - 1;
      while textBase[COLUMNS * cursorY + cursorX].character == ' ' && cursorX != 0
        invariant cursorX < COLUMNS && (moved <==> cursorX < COLUMNS - 1)
        invariant ScanBack(textBase[..], cursorY, cursorX) == ScanBack(textBase[..], cursorY, COLUMNS - 1)
        decreases cursorX
      {
        cursorX := cursorX - 1;
        moved := true;
      }
      if moved {
        cursorX := cursorX + 1;
      }
    }

    /** The backspace case of cflush. */
    method BackspaceOver()
      requires Valid() && cursorY < ROWS
      modifies this`cursorX, this`cursorY, vgaBuffer, textBase
      ensures Valid() && Term() == Step(old(Term()), Backspace)
    {
      if cursorX != 0 {
        cursorX := cursorX - 1;
      } else {
        if cursorY != 0 {
          cursorY := cursorY - 1;
        }
        FindRowEnd();
      }
      InplaceWrite(' ');
    }

    /** process_graphic_escape_sequence: the guard, and the switch with its cases for the default colours. */
    method ProcessGraphic(code: int)
      modifies this`format
      ensures format == Graphics(code, old(format))
    {
      if code == 0 {
        format := DEFAULT_FORMAT;
      }
      if 30 <= code <= 37 || 90 <= code <= 97 || 40 <= code <= 47 || 100 <= code <= 107 {
        var f := format;
        if code == 39 {
          f := f.(foreground := DEFAULT_FORMAT.foreground);
        } else if code == 49 {
          f := f.(background := DEFAULT_FORMAT.background);
        } else if 30 <= code <= 37 {
          f := f.(foreground := AnsiColor(code - 30));
        } else if 90 <= code <= 97 {
          f := f.(foreground := AnsiColor(code - 90 + 8));
        } else if 40 <= code <= 47 {
          f := f.(background := AnsiColor(code - 40));
        } else if 100 <= code <= 107 {
          f := f.(background := AnsiColor(code - 100 + 8));
        }
        format := f;
      }
    }

    /** process_escape_sequence, on the rest of the buffer after an ESC; how far it moves. */
    method ProcessEscape(s: string) returns (length: nat)
      requires s != "" && s[0] == ESC && FirstWhole(s)
      modifies this`format
      ensures length == TokenLength(s)
      ensures format == match TokenOf(s) case Graphic(code) => Graphics(code, old(format)) case _ => old(format)
    {
      var pos := 2;
      if At(s, 1) != '[' {
        return 1;
      }
      if IsDigit(At(s, pos)) {
        var n;
        n, pos := P.ReadInt(s, pos);
        if At(s, pos) == 'm' {
          ProcessGraphic(n);
        }
        pos := pos + 1;
      }
      length := pos;
    }

    /** cflush.  When it returns, the pending characters have been shown, the text memory agrees with
        the shadow buffer, and the buffer is empty. */
    method CFlush()
      requires Valid() && Whole(State().buffer)
      modifies this`bufferSync, this`bufferPos, this`cursorX, this`cursorY, this`format, vgaBuffer, textBase
      ensures Valid() && State() == Pending(Flush(old(State().term), old(State().buffer)), "")
      ensures old(bufferPos) > 0 ==> bufferSync && textBase[..] == vgaBuffer[..]
    {
      if bufferPos == 0 {
        return;
      }
      FlushIsRun(Term(), buffer[..bufferPos]);
      FlushText(buffer[..bufferPos]);
      bufferPos := 0;
      FlushVga();
    }

    /** The loop of cflush over the pending characters. */
    method FlushText(pending: string)
      requires Valid() && Whole(pending)
      modifies this`bufferSync, this`cursorX, this`cursorY, this`format, vgaBuffer, textBase
      ensures Valid() && Term() == Run(old(Term()), Tokens(pending))
    {
      ghost var t0, t := Term(), Term();
      var pos := 0;
      assert TermInv(t) && pending[0..] == pending;
      hide *;
      assert Whole(pending[pos..]);
      while pos < |pending|
        invariant Valid() && Term() == t && TermInv(t) && TermInv(t0)
        invariant pos <= |pending| && Whole(pending) && Whole(pending[pos..])
        invariant Run(t0, Tokens(pending)) == Run(t, Tokens(pending[pos..]))
        decreases |pending| - pos
      {
        LoopTurn(t, pending, pos);
        t := Step(t, TokenOf(pending[pos..]));
        var length := StepToken(pending[pos..]);
        pos := pos + length;
      }
      RunEnd(t, pending[pos..]);
    }

    /** One turn of the loop of cflush. */
    method StepToken(s: string) returns (length: nat)
      requires Valid() && s != "" && FirstWhole(s)
      modifies this`bufferSync, this`cursorX, this`cursorY, this`format, vgaBuffer, textBase
      ensures Valid() && length == TokenLength(s) && Term() == Step(old(Term()), TokenOf(s))
    {
      ScrollWhenBelow();
      length := 1;
      if s[0] == '\n' {
        cursorY := cursorY + 1;
        ScrollWhenBelow();
        cursorX := 0;
      } else if s[0] == '\r' {
        cursorX := 0;
      } else if s[0] == BACKSPACE {
        BackspaceOver();
      } else if s[0] == ESC {
        length := ProcessEscape(s);
      } else {
        Write(s[0]);
      }
    }

    /** cputc. */
    method CPutc(c: char)
      requires Valid() && CanPut(State())
      modifies this, vgaBuffer, textBase, buffer
      ensures Valid() && State() == PutChar(old(State()), c)
    {
      if bufferPos >= BUFFER_SIZE {
        CFlush();
      }
      buffer[bufferPos] := c;
      bufferPos := bufferPos + 1;
    }

    /** vcprintf: the output is appended to the pending characters, as far as it fits, and flushed. */
    method VCPrintf(fmt: F.CString, va: seq<F.Arg>) returns (ret: nat)
      requires Valid() && F.Format(fmt, va).Some?
      requires Whole(State().buffer + Fitting(BUFFER_SIZE - |State().buffer|, F.Format(fmt, va).value))
      modifies this, vgaBuffer, textBase, buffer
      ensures Valid() && ret == |F.Format(fmt, va).value|
      ensures var p, text := old(State()), F.Format(fmt, va).value;
              State() == Pending(Flush(p.term, p.buffer + Fitting(BUFFER_SIZE - |p.buffer|, text)), "")
    {
      ghost var p, text := State(), F.Format(fmt, va).value;
      var size := BUFFER_SIZE - bufferPos;
      ret := P.Vsnprintf(buffer, bufferPos, size, fmt, va);
      FittingBounded(old(buffer[..]), bufferPos, size, text);
      hide P.Bounded, Fitting, Flush, Whole, F.Format;
      if ret < size {
        bufferPos := bufferPos + ret;
      } else {
        bufferPos := bufferPos + size;
      }
      assert buffer[..bufferPos] == buffer[..][..bufferPos];
      CFlush();
    }

    /** cputs. */
    method CPuts(s: string)
      requires Valid() && CanPutAll(State(), s)
      modifies this, vgaBuffer, textBase, buffer
      ensures Valid() && State() == PutString(old(State()), s)
    {
      for i := 0 to |s|
        invariant Valid() && CanPutAll(State(), s[i..])
        invariant PutString(old(State()), s) == PutString(State(), s[i..])
      {
        assert s[i..][1..] == s[i + 1..];
        CPutc(s[i]);
      }
    }
  }

  lemma FlushIsRun(t: Terminal, s: string)
    requires TermInv(t) && Whole(s) && s != ""
    ensures Flush(t, s) == VgaFlush(Run(t, Tokens(s)))
  {
  }

  lemma RunEnd(t: Terminal, s: string)
    requires TermInv(t) && s == ""
    ensures Whole(s) && Run(t, Tokens(s)) == t
  {
  }

  lemma RunHead(t: Terminal, s: string)
    requires TermInv(t) && s != "" && Whole(s)
    ensures FirstWhole(s) && 1 <= TokenLength(s) <= |s|
    ensures TermInv(Step(t, TokenOf(s))) && Whole(s[TokenLength(s)..])
    ensures Run(t, Tokens(s)) == Run(Step(t, TokenOf(s)), Tokens(s[TokenLength(s)..]))
  {
    StepKeeps(t, TokenOf(s));
    TokenLengthPositive(s);
    assert Tokens(s)[1..] == Tokens(s[TokenLength(s)..]);
  }

  lemma LoopTurn(t: Terminal, s: string, i: nat)
    requires TermInv(t) && i < |s| && Whole(s[i..])
    ensures FirstWhole(s[i..]) && 1 <= TokenLength(s[i..]) <= |s| - i
    ensures TermInv(Step(t, TokenOf(s[i..]))) && Whole(s[i + TokenLength(s[i..])..])
    ensures Run(t, Tokens(s[i..])) == Run(Step(t, TokenOf(s[i..])), Tokens(s[i + TokenLength(s[i..])..]))
  {
    RunHead(t, s[i..]);
    assert s[i..][TokenLength(s[i..])..] == s[i + TokenLength(s[i..])..];
    hide *;
  }

  /** What vcprintf appends when `size` bytes of the buffer are free: all of the text if a terminator
      still fits after it; otherwise what precedes the terminator, and the terminator too. */
  function Fitting(size: nat, text: string): string {
    if |text| < size then text else if size == 0 then "" else text[..size - 1] + ['\0']
  }

  lemma FittingBounded(before: seq<char>, start: nat, size: nat, text: string)
    requires start + size == |before|
    ensures var after, n := P.Bounded(before, start, size, text), |Fitting(size, text)|;
            && n == Min(size, |text|)
            && |after| == |before| && start + n <= |after|
            && after[..start + n] == before[..start] + Fitting(size, text)
  {
  }

  /** What is appended is the text exactly if it leaves room for a terminator, or is empty, or ends in a
      character 0 that stands where the terminator would. */
  lemma FittingIsTextIff(size: nat, text: string)
    ensures Fitting(size, text) == text <==>
            |text| < size || text == "" || (|text| == size && text[size - 1] == '\0')
  {
    if |text| == size && size > 0 && text[size - 1] == '\0' {
      assert text == text[..size - 1] + [text[size - 1]];
    }
  }

  /** A text too long for the room there is loses its end, and a character 0 is shown in place of the
      first character lost; with no room at all everything is lost, and not even that is shown. */
  lemma TextIsCut(size: nat, text: string)
    requires |text| >= size
    ensures size == 0 ==> Fitting(size, text) == ""
    ensures size > 0 ==> Fitting(size, text)[..size - 1] == text[..size - 1] && Fitting(size, text)[size - 1] == '\0'
  {
  }

  /** So after 512 calls of cputc a printf flushes those characters and nothing of its own text. */
  lemma FullBufferLosesText(t: Terminal, c: char, text: string)
    requires TermInv(t)
    ensures CanPutAll(Pending(t, ""), Repeat(c, 512))
    ensures var p := PutString(Pending(t, ""), Repeat(c, 512));
            && p == Pending(t, Repeat(c, 512))
            && p.buffer + Fitting(512 - |p.buffer|, text) == p.buffer
  {
    PutPlain(Pending(t, ""), Repeat(c, 512));
    assert "" + Repeat(c, 512) == Repeat(c, 512);
  }

  /** What printf shows, for every text: the characters still pending, and then what fits of its own, enter
      the transcript, and screen and hardware memory show the last rows.  That is the text itself exactly
      under the condition of FittingIsTextIff. */
  lemma PrintfShowsItsText(p: Pending, tr: Transcript, text: string)
    requires PendingInv(p) && TranscriptInv(tr) && Window(p.term, tr)
    requires var shown := Fitting(BUFFER_SIZE - |p.buffer|, text);
             && Whole(p.buffer) && Whole(shown) && p.buffer + shown != ""
             && NoBackAtEdge(tr, Tokens(p.buffer) + Tokens(shown))
    ensures var shown := Fitting(BUFFER_SIZE - |p.buffer|, text);
            && Whole(p.buffer + shown)
            && var r, tr' := Flush(p.term, p.buffer + shown), WriteAll(WriteAll(tr, Tokens(p.buffer)), Tokens(shown));
               Window(r, tr') && r.text == tr'.cells[|tr'.cells| - CELLS..]
  {
    var shown := Fitting(BUFFER_SIZE - |p.buffer|, text);
    TokensConcat(p.buffer, shown);
    WriteAllConcat(tr, Tokens(p.buffer), Tokens(shown));
    ScreenIsWindow(p.term, tr, Tokens(p.buffer) + Tokens(shown));
  }
}
