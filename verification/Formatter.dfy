/** The text a format string and its arguments stand for (console.c, vsnprintf), without any
    buffer: directives are read, fields are rendered, and the pieces are joined. */
module Formatter {
  import opened Words
  import opened IntegerField

  /** A C string, without its terminator. */
  type CString = s: string | forall i :: 0 <= i < |s| ==> s[i] != '\0'

  /** A variable argument: an int, unsigned, long or pointer as its 32-bit word, or a string. */
  datatype Arg = IntArg(word: Word) | StrArg(text: CString)

  /** The int a word stands for. */
  function Int(w: Word): int { if w >= 0x8000_0000 then w - WORD_LIMIT else w }

  // ----- reading a directive -----

  datatype FlagsRead = FlagsRead(flags: Flags, next: nat)

  function WithFlag(f: Flags, c: char): Option<Flags> {
    if c == '#' then Some(f.(alt := true))
    else if c == '0' then Some(f.(zero := true))
    else if c == '+' then Some(f.(plus := true))
    else if c == ' ' then Some(f.(space := true))
    else if c == '-' then Some(f.(left := true))
    else None
  }

  function ReadFlags(fmt: string, i: nat, f: Flags): FlagsRead
    decreases |fmt| - i
  {
    match WithFlag(f, At(fmt, i))
    case Some(g) => ReadFlags(fmt, i + 1, g)
    case None => FlagsRead(f, i)
  }

  /** + overrides a blank, and - overrides 0. */
  function Normal(f: Flags): Flags {
    f.(space := f.space && !f.plus, zero := f.zero && !f.left)
  }

  /** What has been read of a directive; `next` is the index of the next character. */
  datatype Directive = Directive(flags: Flags, width: int, precision: int, qualifier: char, next: nat, args: seq<Arg>)

  /** A negative width given by * means left justification.  (It does not cancel the 0 flag,
      which then has no effect.)  None: the argument is missing. */
  function ReadWidth(fmt: string, d: Directive): Option<Directive> {
    var c := At(fmt, d.next);
    if c == '*' then
      if d.args == [] || !d.args[0].IntArg? then None
      else
        var w := Int(d.args[0].word);
        Some(d.(width := if w < 0 then -w else w, flags := d.flags.(left := d.flags.left || w < 0),
                next := d.next + 1, args := d.args[1..]))
    else if IsDigit(c) then
      var r := ParseInt(fmt, d.next, 0);
      Some(d.(width := r.value, next := r.next))
    else Some(d)
  }

  /** A precision that is negative, or missing after the dot, counts as 0. */
  function ReadPrecision(fmt: string, d: Directive): Option<Directive> {
    if At(fmt, d.next) != '.' then Some(d)
    else
      var c := At(fmt, d.next + 1);
      if IsDigit(c) then
        var r := ParseInt(fmt, d.next + 1, 0);
        Some(d.(precision := Max(r.value, 0), next := r.next))
      else if c == '*' then
        if d.args == [] || !d.args[0].IntArg? then None
        else Some(d.(precision := Max(Int(d.args[0].word), 0), next := d.next + 2, args := d.args[1..]))
      else Some(d.(precision := 0, next := d.next + 1))
  }

  function ReadQualifier(fmt: string, d: Directive): Directive {
    var c := At(fmt, d.next);
    if c == 'h' || c == 'l' || c == 'L' then d.(qualifier := c, next := d.next + 1) else d
  }

  /** The directive whose % is just before index i. */
  function ReadDirective(fmt: string, i: nat, args: seq<Arg>): Option<Directive> {
    var f := ReadFlags(fmt, i, NO_FLAGS);
    match ReadWidth(fmt, Directive(Normal(f.flags), -1, -1, '\0', f.next, args))
    case None => None
    case Some(d) =>
      match ReadPrecision(fmt, d)
      case None => None
      case Some(d') => Some(ReadQualifier(fmt, d'))
  }

  lemma {:induction false} ReadFlagsAdvances(fmt: string, i: nat, f: Flags)
    ensures ReadFlags(fmt, i, f).next >= i
    decreases |fmt| - i
  {
    match WithFlag(f, At(fmt, i))
    case Some(g) => ReadFlagsAdvances(fmt, i + 1, g);
    case None =>
  }

  lemma {:induction false} ParseIntAdvances(s: string, i: nat, acc: int)
    ensures ParseInt(s, i, acc).next >= i
    ensures acc >= 0 ==> ParseInt(s, i, acc).value >= 0
    decreases |s| - i
  {
    if i < |s| && IsDigit(s[i]) {
      ParseIntAdvances(s, i + 1, acc * 10 + (s[i] as int - '0' as int));
    }
  }

  lemma ReadDirectiveAdvances(fmt: string, i: nat, args: seq<Arg>)
    ensures ReadDirective(fmt, i, args).Some? ==> ReadDirective(fmt, i, args).value.next >= i
  {
    ReadFlagsAdvances(fmt, i, NO_FLAGS);
    var f := ReadFlags(fmt, i, NO_FLAGS);
    ParseIntAdvances(fmt, f.next, 0);
    match ReadWidth(fmt, Directive(Normal(f.flags), -1, -1, '\0', f.next, args))
    case None =>
    case Some(d) => ParseIntAdvances(fmt, d.next + 1, 0);
  }

  // ----- fields -----

  function CharField(c: char, width: int, left: bool): string {
    if left then [c] + Repeat(' ', width - 1) else Repeat(' ', width - 1) + [c]
  }

  function StringField(text: string, width: int, precision: int, left: bool): string {
    var shown := if 0 <= precision < |text| then text[..precision] else text;
    if left then shown + Repeat(' ', width - |shown|) else Repeat(' ', width - |shown|) + shown
  }

  /** The argument as the length qualifier reads it. */
  function Qualified(w: Word, qualifier: char, signed: bool): Word {
    if qualifier != 'h' then w
    else if signed && w % 0x1_0000 >= 0x8000 then WORD_LIMIT - 0x1_0000 + w % 0x1_0000
    else w % 0x1_0000
  }

  datatype IntConversion = IntConversion(base: int, signed: bool, upper: bool)

  function IntegerConversion(c: char): Option<IntConversion> {
    if c == 'o' then Some(IntConversion(8, false, false))
    else if c == 'd' || c == 'i' then Some(IntConversion(10, true, false))
    else if c == 'u' then Some(IntConversion(10, false, false))
    else if c == 'x' then Some(IntConversion(16, false, false))
    else if c == 'X' then Some(IntConversion(16, false, true))
    else None
  }

  datatype Piece = Piece(text: string, args: seq<Arg>)

  /** The text of a directive with conversion character c.  None: the format ends inside the
      directive, or its argument is missing or of another kind.  An unknown conversion, and %n,
      stand for nothing and take no argument. */
  function Convert(d: Directive, c: char): Option<Piece> {
    if c == '\0' then None
    else if c == '%' then Some(Piece("%", d.args))
    else if c == 's' then
      if d.args == [] || !d.args[0].StrArg? then None
      else Some(Piece(StringField(d.args[0].text, d.width, d.precision, d.flags.left), d.args[1..]))
    else if c == 'c' || c == 'p' || IntegerConversion(c).Some? then
      if d.args == [] || !d.args[0].IntArg? then None
      else Some(Piece(ConvertInt(d, c, d.args[0].word), d.args[1..]))
    else Some(Piece("", d.args))
  }

  function ConvertInt(d: Directive, c: char, w: Word): string
    requires c == 'c' || c == 'p' || IntegerConversion(c).Some?
  {
    if c == 'c' then CharField((w % 256) as char, d.width, d.flags.left)
    else if c == 'p' then
      if d.width == -1 then Field(w, 16, 8, d.precision, d.flags.(zero := true))
      else Field(w, 16, d.width, d.precision, d.flags)
    else
      var k := IntegerConversion(c).value;
      Field(Qualified(w, d.qualifier, k.signed), k.base, d.width, d.precision,
            d.flags.(signed := k.signed, upper := k.upper))
  }

  // ----- the whole text -----

  function Prepend(s: string, rest: Option<string>): Option<string> {
    match rest
    case None => None
    case Some(t) => Some(s + t)
  }

  /** The text of the format from index i on; None where the C program's behaviour is undefined. */
  function Render(fmt: string, i: nat, args: seq<Arg>): Option<string>
    decreases |fmt| - i
  {
    if i >= |fmt| then Some("")
    else if fmt[i] != '%' then Prepend([fmt[i]], Render(fmt, i + 1, args))
    else
      match ReadDirective(fmt, i + 1, args)
      case None => None
      case Some(d) =>
        match Convert(d, At(fmt, d.next))
        case None => None
        case Some(piece) =>
          ReadDirectiveAdvances(fmt, i + 1, args);
          Prepend(piece.text, Render(fmt, d.next + 1, piece.args))
  }

  function Format(fmt: string, args: seq<Arg>): Option<string> {
    Render(fmt, 0, args)
  }

  /** A format without % stands for itself. */
  lemma {:induction false} PlainText(fmt: string, i: nat, args: seq<Arg>)
    requires i <= |fmt| && '%' !in fmt
    ensures Render(fmt, i, args) == Some(fmt[i..])
    decreases |fmt| - i
  {
    if i < |fmt| {
      PlainText(fmt, i + 1, args);
      assert [fmt[i]] + fmt[i + 1..] == fmt[i..];
    } else {
      assert fmt[i..] == "";
    }
  }
}
