/** What printf shows for each directive, in terms of the characters it is written with and the values of its
    arguments. */
module PrintedText {
  import opened Words
  import opened IntegerField
  import opened FieldMeaning
  import opened Formatter
  import opened DirectiveSyntax
  import opened Conversions

  // ----- what a directive asks for -----

  /** The int a star takes from the arguments. */
  function Signed(w: Word): (v: int)
    ensures Denotes(w, true, v)
  {
    if w < 0x8000_0000 then w else w - 0x1_0000_0000
  }

  /** -1 if there is none; a negative argument asks for as many columns, to the left. */
  function AskedWidth(d: Spelling, args: seq<Arg>): int
    requires StarsSupplied(d, args)
  {
    match d.width
    case Absent => -1
    case Number(n) => n
    case Star => if Signed(args[0].word) < 0 then -Signed(args[0].word) else Signed(args[0].word)
    case Empty => -1
  }

  predicate AskedLeft(d: Spelling, args: seq<Arg>)
    requires StarsSupplied(d, args)
  {
    '-' in d.flags || (d.width.Star? && Signed(args[0].word) < 0)
  }

  /** -1 if there is none; a dot alone, and a negative argument, ask for 0. */
  function AskedPrecision(d: Spelling, args: seq<Arg>): int
    requires StarsSupplied(d, args)
  {
    match d.precision
    case Absent => -1
    case Number(n) => n
    case Star => var v := Signed(Unused(d.width, args)[0].word); if v < 0 then 0 else v
    case Empty => 0
  }

  function Asked(d: Spelling, args: seq<Arg>, signed: bool, upper: bool): Request
    requires StarsSupplied(d, args)
  {
    Request(AskedLeft(d, args), '+' in d.flags, ' ' in d.flags, '#' in d.flags, '0' in d.flags, signed, upper,
            AskedWidth(d, args), AskedPrecision(d, args))
  }

  /** The value of an argument: h takes a short of it. */
  ghost predicate Shown(w: Word, qualifier: Option<char>, signed: bool, v: int) {
    if qualifier == Some('h') then
      (if signed then -0x8000 <= v < 0x8000 else 0 <= v < 0x1_0000) && (v - w) % 0x1_0000 == 0
    else Denotes(w, signed, v)
  }

  // ----- integers -----

  /** Requests that differ only in flags without effect. */
  lemma SameRequest(text: string, v: int, base: int, r: Request, s: Request)
    requires ShowsInteger(text, v, base, r)
    requires r.left == s.left && r.upper == s.upper && r.alt == s.alt
    requires r.width == s.width && r.precision == s.precision
    requires SignOf(v, r) == SignOf(v, s) && ZeroPadded(r) == ZeroPadded(s)
    ensures ShowsInteger(text, v, base, s)
  {
    var before, digits, after :| Parts(text, v, base, r, before, digits, after);
    assert Parts(text, v, base, s, before, digits, after);
  }

  lemma OperandDenotes(w: Word, qualifier: Option<char>, signed: bool, v: int)
    requires Shown(w, qualifier, signed, v)
    ensures Denotes(Qualified(w, if qualifier.Some? then qualifier.value else '\0', signed), signed, v)
  {
    if qualifier == Some('h') {
      var q, r := (v - w) / 0x1_0000, w / 0x1_0000;
      assert v == w % 0x1_0000 + (q + r) * 0x1_0000;
      assert q + r == 0 || q + r == -1;
    } else {
      assert Qualified(w, if qualifier.Some? then qualifier.value else '\0', signed) == w;
    }
  }

  lemma ValuesAsked(d: Spelling, args: seq<Arg>, signed: bool, upper: bool)
    requires StarsSupplied(d, args)
    ensures WidthValue(d.width, args) == AskedWidth(d, args)
    ensures PrecisionValue(d.precision, Unused(d.width, args)) == AskedPrecision(d, args)
    ensures var f, r := FlagsMeant(d, args).(signed := signed, upper := upper), Asked(d, args, signed, upper);
            var s := RequestOf(AskedWidth(d, args), AskedPrecision(d, args), f);
            && s.left == r.left && s.upper == r.upper && s.alt == r.alt && s.width == r.width
            && s.precision == r.precision && s.plus == r.plus && s.space == (r.space && !r.plus)
            && s.zero == (r.zero && '-' !in d.flags) && s.signed == r.signed
            && ('-' in d.flags ==> r.left)
  {
  }

  function BaseOf(c: char): int { if c == 'o' then 8 else if c == 'x' || c == 'X' then 16 else 10 }

  lemma IntegerText(d: Spelling, rest: string, args: seq<Arg>, w: Word, others: seq<Arg>, flags: Flags)
    returns (text: string)
    requires WellSpelled(d) && StarsSupplied(d, args) && Remaining(d, args) == [IntArg(w)] + others
    requires d.conversion in "diuoxX"
    requires flags == FlagsMeant(d, args).(signed := d.conversion in "di", upper := d.conversion == 'X')
    ensures Render(Spelled(d) + rest, 0, args) == Prepend(text, Render(rest, 0, others))
    ensures text == Field(Qualified(w, if d.qualifier.Some? then d.qualifier.value else '\0', flags.signed),
                          BaseOf(d.conversion), WidthValue(d.width, args),
                          PrecisionValue(d.precision, Unused(d.width, args)), flags)
  {
    var signed, upper := d.conversion in "di", d.conversion == 'X';
    assert IntegerConversion(d.conversion) == Some(IntConversion(BaseOf(d.conversion), signed, upper));
    assert IntegerFlags(d, args) == flags;
    hide Field, Render, Spelled, Prepend, Qualified, FlagsMeant, WidthValue, PrecisionValue, WellSpelled,
         StarsSupplied, Remaining, IntegerConversion;
    IntegerIsShown(d, rest, args, w, others);
    text := Field(Operand(d, w), BaseOf(d.conversion), WidthValue(d.width, args),
                  PrecisionValue(d.precision, Unused(d.width, args)), flags);
  }

  /** Every integer directive, whatever its flags, width, precision and qualifier, shows the value of its argument
      in base 8, 10 or 16, and the text behind it follows. */
  lemma IntegersAreShown(d: Spelling, rest: string, args: seq<Arg>, w: Word, others: seq<Arg>, v: int)
    returns (text: string)
    requires WellSpelled(d) && StarsSupplied(d, args) && Remaining(d, args) == [IntArg(w)] + others
    requires d.conversion in "diuoxX" && Shown(w, d.qualifier, d.conversion in "di", v)
    ensures Render(Spelled(d) + rest, 0, args) == Prepend(text, Render(rest, 0, others))
    ensures ShowsInteger(text, v, BaseOf(d.conversion), Asked(d, args, d.conversion in "di", d.conversion == 'X'))
  {
    var signed, upper := d.conversion in "di", d.conversion == 'X';
    var flags := FlagsMeant(d, args).(signed := signed, upper := upper);
    var asked := Asked(d, args, signed, upper);
    ValuesAsked(d, args, signed, upper);
    hide Field, Render, Spelled, Prepend, ShowsInteger, Qualified, FlagsMeant, AskedWidth, AskedPrecision, Denotes,
         WidthValue, PrecisionValue, WellSpelled, StarsSupplied, Remaining, Asked, Shown;
    OperandDenotes(w, d.qualifier, signed, v);
    text := IntegerText(d, rest, args, w, others, flags);
    var number := Qualified(w, if d.qualifier.Some? then d.qualifier.value else '\0', signed);
    FieldShows(number, BaseOf(d.conversion), asked.width, asked.precision, flags, v);
    SameRequest(text, v, BaseOf(d.conversion), RequestOf(asked.width, asked.precision, flags), asked);
  }

  /** %p shows its argument in hexadecimal; without a width, in eight digits. */
  lemma PointersAreShown(d: Spelling, rest: string, args: seq<Arg>, w: Word, others: seq<Arg>)
    returns (text: string)
    requires WellSpelled(d) && StarsSupplied(d, args) && Remaining(d, args) == [IntArg(w)] + others
    requires d.conversion == 'p'
    ensures Render(Spelled(d) + rest, 0, args) == Prepend(text, Render(rest, 0, others))
    ensures var r := Asked(d, args, false, false);
            ShowsInteger(text, w, 16, if d.width.Absent? then r.(width := 8, zero := true) else r)
  {
    ValuesAsked(d, args, false, false);
    DirectiveShows(d, rest, args);
    var m, r := Meaning(d, args), Asked(d, args, false, false);
    var anew := d.width.Absent?;
    var flags := if anew then m.flags.(zero := true) else m.flags;
    var width := if anew then 8 else m.width;
    assert m.flags.signed == false && m.flags.upper == false;
    assert m.width == -1 <==> anew;
    text := Field(w, 16, width, m.precision, flags);
    PointerPiece(m, w, others);
    FieldShows(w, 16, width, m.precision, flags, w);
    hide Field, Render, Spelled, Prepend, ShowsInteger, FlagsMeant, Convert, AskedWidth, AskedPrecision;
    SameRequest(text, w, 16, RequestOf(width, m.precision, flags), if anew then r.(width := 8, zero := true) else r);
  }

  lemma PointerPiece(m: Directive, w: Word, others: seq<Arg>)
    requires m.args == [IntArg(w)] + others
    ensures Convert(m, 'p') ==
            Some(Piece(if m.width == -1 then Field(w, 16, 8, m.precision, m.flags.(zero := true))
                       else Field(w, 16, m.width, m.precision, m.flags), others))
  {
    assert ([IntArg(w)] + others)[1..] == others;
    hide Field;
  }

  // ----- text -----

  /** shown, with blanks up to the width on the other side. */
  ghost predicate Padded(text: string, shown: string, width: int, left: bool) {
    && |text| == Max(width, |shown|)
    && exists pad :: All(pad, ' ') && text == if left then shown + pad else pad + shown
  }

  lemma FieldsArePadded(s: string, width: int, precision: int, left: bool, c: char)
    ensures Padded(CharField(c, width, left), [c], width, left)
    ensures var shown := if precision < 0 || precision >= |s| then s else s[..precision];
            Padded(StringField(s, width, precision, left), shown, width, left)
  {
    var shown := if precision < 0 || precision >= |s| then s else s[..precision];
    RepeatAll(' ', width - 1);
    RepeatAll(' ', width - |shown|);
    var a, b := Repeat(' ', width - 1), Repeat(' ', width - |shown|);
    assert CharField(c, width, left) == if left then [c] + a else a + [c];
    assert StringField(s, width, precision, left) == if left then shown + b else b + shown;
    hide CharField, StringField, Repeat, All;
  }

  /** %s shows its argument, at most as many characters as the precision says, and %c a character, in a field of
      blanks; %% shows a percent sign. */
  lemma TextIsShown(d: Spelling, rest: string, args: seq<Arg>, s: CString, w: Word, others: seq<Arg>)
    returns (text: string)
    requires WellSpelled(d) && StarsSupplied(d, args)
    requires d.conversion == 's' || d.conversion == 'c' || d.conversion == '%'
    requires d.conversion == 's' ==> Remaining(d, args) == [StrArg(s)] + others
    requires d.conversion == 'c' ==> Remaining(d, args) == [IntArg(w)] + others
    requires d.conversion == '%' ==> Remaining(d, args) == others
    ensures Render(Spelled(d) + rest, 0, args) == Prepend(text, Render(rest, 0, others))
    ensures d.conversion == 's' ==>
              var n := AskedPrecision(d, args);
              Padded(text, if n < 0 || n >= |s| then s else s[..n], AskedWidth(d, args), AskedLeft(d, args))
    ensures d.conversion == 'c' ==> Padded(text, [(w % 256) as char], AskedWidth(d, args), AskedLeft(d, args))
    ensures d.conversion == '%' ==> text == "%"
  {
    ValuesAsked(d, args, false, false);
    var width, precision, left := AskedWidth(d, args), AskedPrecision(d, args), AskedLeft(d, args);
    assert FlagsMeant(d, args).left == left;
    FieldsArePadded(s, width, precision, left, (w % 256) as char);
    CharacterIsShown(d, rest, args, w, others);
    if d.conversion == 's' {
      StringIsShown(d, rest, args, s, others);
    }
    hide CharField, StringField, Padded, Render, Prepend, Spelled, FlagsMeant, AskedWidth, AskedPrecision, AskedLeft;
    text := if d.conversion == 's' then StringField(s, width, precision, left)
            else if d.conversion == 'c' then CharField((w % 256) as char, width, left) else "%";
  }

  lemma NothingPiece(m: Directive, c: char)
    requires c !in "diuoxXpcs%" && c != '\0'
    ensures Convert(m, c) == Some(Piece("", m.args))
  {
    var known := "diuoxXpcs%";
    assert known == ['d', 'i', 'u', 'o', 'x', 'X', 'p', 'c', 's', '%'];
  }

  /** Any other conversion, %n among them, shows nothing and takes no argument. */
  lemma OthersShowNothing(d: Spelling, rest: string, args: seq<Arg>)
    requires WellSpelled(d) && StarsSupplied(d, args) && d.conversion !in "diuoxXpcs%"
    ensures Render(Spelled(d) + rest, 0, args) == Prepend("", Render(rest, 0, Remaining(d, args)))
  {
    assert d.conversion != '\0';
    assert Meaning(d, args).args == Remaining(d, args);
    DirectiveShows(d, rest, args);
    hide *;
    NothingPiece(Meaning(d, args), d.conversion);
  }
}
