/** What a whole directive shows in the output, and when that is what C99 section 7.19.6.1 asks for. */
module Conversions {
  import opened Words
  import opened IntegerField
  import opened Formatter
  import opened DirectiveSyntax
  import opened C99

  // ----- reading does not depend on what came before -----

  function Later(d: Option<Directive>, k: nat): Option<Directive> {
    match d
    case None => None
    case Some(e) => Some(e.(next := k + e.next))
  }

  lemma AtShift(before: string, s: string, i: nat)
    ensures At(before + s, |before| + i) == At(s, i)
  {
  }

  lemma {:induction false} ReadFlagsShift(before: string, s: string, i: nat, f: Flags)
    ensures var r := ReadFlags(s, i, f);
            ReadFlags(before + s, |before| + i, f) == FlagsRead(r.flags, |before| + r.next)
    decreases |s| - i
  {
    AtShift(before, s, i);
    match WithFlag(f, At(s, i))
    case Some(g) => ReadFlagsShift(before, s, i + 1, g);
    case None =>
  }

  lemma ReadWidthShift(before: string, s: string, d: Directive)
    ensures ReadWidth(before + s, d.(next := |before| + d.next)) == Later(ReadWidth(s, d), |before|)
  {
    AtShift(before, s, d.next);
    ParseIntShift(before, s, d.next, 0);
    hide At, ParseInt;
  }

  lemma ReadPrecisionShift(before: string, s: string, d: Directive)
    ensures ReadPrecision(before + s, d.(next := |before| + d.next)) == Later(ReadPrecision(s, d), |before|)
  {
    AtShift(before, s, d.next);
    AtShift(before, s, d.next + 1);
    ParseIntShift(before, s, d.next + 1, 0);
    hide At, ParseInt;
  }

  lemma ReadDirectiveShift(before: string, s: string, i: nat, args: seq<Arg>)
    ensures ReadDirective(before + s, |before| + i, args) == Later(ReadDirective(s, i, args), |before|)
  {
    ReadFlagsShift(before, s, i, NO_FLAGS);
    var f := ReadFlags(s, i, NO_FLAGS);
    var d0 := Directive(Normal(f.flags), -1, -1, '\0', f.next, args);
    ReadWidthShift(before, s, d0);
    var d1 := ReadWidth(s, d0);
    hide ReadFlags, ReadWidth;
    if d1.Some? {
      ReadPrecisionShift(before, s, d1.value);
      var d2 := ReadPrecision(s, d1.value);
      hide ReadPrecision;
      if d2.Some? {
        AtShift(before, s, d2.value.next);
      }
    }
  }

  /** What a directive shows, and the rest of the text. */
  function RenderDirective(s: string, d: Option<Directive>): Option<string> {
    match d
    case None => None
    case Some(e) => RenderPiece(s, e.next, Convert(e, At(s, e.next)))
  }

  function RenderPiece(s: string, next: nat, piece: Option<Piece>): Option<string> {
    match piece
    case None => None
    case Some(p) => Prepend(p.text, Render(s, next + 1, p.args))
  }

  lemma RenderFrom(s: string, i: nat, args: seq<Arg>)
    requires i < |s| && s[i] == '%'
    ensures Render(s, i, args) == RenderDirective(s, ReadDirective(s, i + 1, args))
  {
    ReadDirectiveAdvances(s, i + 1, args);
    hide ReadDirective, Convert, Prepend, At;
  }

  lemma {:induction false} RenderShift(before: string, s: string, i: nat, args: seq<Arg>)
    ensures Render(before + s, |before| + i, args) == Render(s, i, args)
    decreases |s| - i
  {
    hide *;
    var t, k := before + s, |before| + i;
    if i >= |s| {
      RenderEnd(s, i, args);
      RenderEnd(t, k, args);
    } else if s[i] != '%' {
      RenderShift(before, s, i + 1, args);
      RenderChar(s, i, args);
      RenderChar(t, k, args);
      assert t[k] == s[i];
    } else {
      assert t[k] == '%';
      RenderFrom(s, i, args);
      RenderFrom(t, k, args);
      ReadDirectiveShift(before, s, i + 1, args);
      ReadDirectiveAdvances(s, i + 1, args);
      var d := ReadDirective(s, i + 1, args);
      LaterIs(t, s, d, |before|);
      if d.Some? {
        AtShift(before, s, d.value.next);
        var piece := Convert(d.value, At(s, d.value.next));
        ConvertAnywhere(d.value, d.value.(next := |before| + d.value.next), At(s, d.value.next));
        if piece.Some? {
          RenderShift(before, s, d.value.next + 1, piece.value.args);
        }
        PieceIs(t, s, |before| + d.value.next, d.value.next, piece);
      }
    }
  }

  lemma RenderEnd(s: string, i: nat, args: seq<Arg>)
    requires i >= |s|
    ensures Render(s, i, args) == Some("")
  {
  }

  lemma RenderChar(s: string, i: nat, args: seq<Arg>)
    requires i < |s| && s[i] != '%'
    ensures Render(s, i, args) == Prepend([s[i]], Render(s, i + 1, args))
  {
  }

  lemma LaterIs(t: string, s: string, d: Option<Directive>, k: nat)
    ensures d.None? ==> RenderDirective(t, Later(d, k)) == RenderDirective(s, d) == None
    ensures d.Some? ==>
              var e := d.value.(next := k + d.value.next);
              && RenderDirective(t, Later(d, k)) == RenderPiece(t, e.next, Convert(e, At(t, e.next)))
              && RenderDirective(s, d) == RenderPiece(s, d.value.next, Convert(d.value, At(s, d.value.next)))
  {
    hide RenderPiece, Convert, At;
  }

  lemma PieceIs(t: string, s: string, k: nat, n: nat, piece: Option<Piece>)
    requires piece.Some? ==> Render(t, k + 1, piece.value.args) == Render(s, n + 1, piece.value.args)
    ensures RenderPiece(t, k, piece) == RenderPiece(s, n, piece)
  {
  }

  /** Where a directive stands does not matter for what it shows. */
  lemma ConvertAnywhere(d: Directive, e: Directive, c: char)
    requires e == d.(next := e.next)
    ensures Convert(d, c) == Convert(e, c)
  {
    hide Field, CharField, StringField, Qualified;
  }

  // ----- what a directive shows -----

  function Spelled(d: Spelling): string { "%" + Middle(d) + [d.conversion] }

  /** A directive shows what its conversion makes of its parts, and the text behind it follows. */
  lemma DirectiveShows(d: Spelling, rest: string, args: seq<Arg>)
    requires WellSpelled(d) && StarsSupplied(d, args)
    ensures Render(Spelled(d) + rest, 0, args) ==
            match Convert(Meaning(d, args), d.conversion)
            case None => None
            case Some(piece) => Prepend(piece.text, Render(rest, 0, piece.args))
  {
    hide *;
    var tail := Middle(d) + ([d.conversion] + rest);
    var fmt, m := Spelled(d) + rest, Meaning(d, args);
    var e := m.(next := 1 + m.next);
    SpelledLayout(d, rest);
    MeaningNext(d, args);
    DirectiveIsRead(d, rest, args);
    ReadDirectiveShift("%", tail, 0, args);
    AtShift("%", tail, |Middle(d)|);
    ConvertAnywhere(m, e, d.conversion);
    RenderFrom(fmt, 0, args);
    LaterIs(fmt, tail, Some(m), 1);
    ShownPiece(fmt, e.next, Convert(m, d.conversion));
    if Convert(m, d.conversion).Some? {
      RenderShift(Spelled(d), rest, 0, Convert(m, d.conversion).value.args);
    }
  }

  lemma MeaningNext(d: Spelling, args: seq<Arg>)
    requires StarsSupplied(d, args)
    ensures Meaning(d, args).next == |Middle(d)|
  {
  }

  lemma ShownPiece(s: string, next: nat, piece: Option<Piece>)
    ensures RenderPiece(s, next, piece) ==
            match piece
            case None => None
            case Some(p) => Prepend(p.text, Render(s, next + 1, p.args))
  {
  }

  lemma SpelledLayout(d: Spelling, rest: string)
    ensures Spelled(d) + rest == "%" + (Middle(d) + ([d.conversion] + rest)) && |Spelled(d)| == |Middle(d)| + 2
    ensures (Spelled(d) + rest)[0] == '%'
  {
    hide Middle;
  }

  /** %d, %i, %u, %o, %x and %X show the integer field of the argument, in the base and signedness of the conversion. */
  lemma IntegerIsShown(d: Spelling, rest: string, args: seq<Arg>, w: Word, others: seq<Arg>)
    requires WellSpelled(d) && StarsSupplied(d, args) && Remaining(d, args) == [IntArg(w)] + others
    requires IntegerConversion(d.conversion).Some?
    ensures Render(Spelled(d) + rest, 0, args) ==
            Prepend(Field(Operand(d, w), IntegerConversion(d.conversion).value.base, WidthValue(d.width, args),
                          PrecisionValue(d.precision, Unused(d.width, args)), IntegerFlags(d, args)),
                    Render(rest, 0, others))
  {
    DirectiveShows(d, rest, args);
    var m := Meaning(d, args);
    ConvertInteger(m, d.conversion, w, others);
    hide Convert, Field, Render, Qualified, FlagsMeant, WidthValue, PrecisionValue, Remaining, IntegerConversion,
         WellSpelled, StarsSupplied;
  }

  lemma ConvertInteger(m: Directive, c: char, w: Word, others: seq<Arg>)
    requires IntegerConversion(c).Some? && m.args == [IntArg(w)] + others
    ensures var k := IntegerConversion(c).value;
            Convert(m, c) == Some(Piece(Field(Qualified(w, m.qualifier, k.signed), k.base, m.width, m.precision,
                                              m.flags.(signed := k.signed, upper := k.upper)), others))
  {
    assert ([IntArg(w)] + others)[1..] == others;
    hide Field, Qualified;
  }

  /** The argument as the qualifier and the signedness of the conversion read it. */
  function Operand(d: Spelling, w: Word): Word
    requires IntegerConversion(d.conversion).Some?
  {
    Qualified(w, if d.qualifier.Some? then d.qualifier.value else '\0', IntegerConversion(d.conversion).value.signed)
  }

  function IntegerFlags(d: Spelling, args: seq<Arg>): Flags
    requires StarsSupplied(d, args) && IntegerConversion(d.conversion).Some?
  {
    var k := IntegerConversion(d.conversion).value;
    FlagsMeant(d, args).(signed := k.signed, upper := k.upper)
  }

  lemma StringIsShown(d: Spelling, rest: string, args: seq<Arg>, text: CString, others: seq<Arg>)
    requires WellSpelled(d) && StarsSupplied(d, args) && Remaining(d, args) == [StrArg(text)] + others
    requires d.conversion == 's'
    ensures Render(Spelled(d) + rest, 0, args) ==
            Prepend(StringField(text, WidthValue(d.width, args), PrecisionValue(d.precision, Unused(d.width, args)),
                                FlagsMeant(d, args).left),
                    Render(rest, 0, others))
  {
    DirectiveShows(d, rest, args);
    hide StringField, Render, Normal, FlagsIn, WidthValue, PrecisionValue;
  }

  /** %c shows the low byte of its argument, and %% a percent sign. */
  lemma CharacterIsShown(d: Spelling, rest: string, args: seq<Arg>, w: Word, others: seq<Arg>)
    requires WellSpelled(d) && StarsSupplied(d, args)
    ensures d.conversion == 'c' && Remaining(d, args) == [IntArg(w)] + others ==>
              Render(Spelled(d) + rest, 0, args) ==
              Prepend(CharField((w % 256) as char, WidthValue(d.width, args), FlagsMeant(d, args).left),
                      Render(rest, 0, others))
    ensures d.conversion == '%' ==>
              Render(Spelled(d) + rest, 0, args) == Prepend("%", Render(rest, 0, Remaining(d, args)))
  {
    DirectiveShows(d, rest, args);
    hide CharField, Render, Normal, FlagsIn, WidthValue, PrecisionValue;
  }

  // ----- and what it should show -----

  /** The precision the standard reads: a negative argument is none. */
  function StandardPrecision(d: Spelling, args: seq<Arg>): int
    requires StarsSupplied(d, args)
  {
    if NegativePrecision(d, args) then -1 else PrecisionValue(d.precision, Unused(d.width, args))
  }

  predicate NegativePrecision(d: Spelling, args: seq<Arg>)
    requires StarsSupplied(d, args)
  {
    d.precision.Star? && Int(Unused(d.width, args)[0].word) < 0
  }

  /** For every integer directive and argument, printf shows what the standard asks for exactly under the
      condition of FieldConformsIff, or of NegativePrecisionIff if the precision is a negative argument. */
  lemma IntegerDirectiveConformsIff(d: Spelling, args: seq<Arg>, w: Word, others: seq<Arg>)
    requires WellSpelled(d) && StarsSupplied(d, args) && Remaining(d, args) == [IntArg(w)] + others
    requires IntegerConversion(d.conversion).Some?
    ensures var number, base := Operand(d, w), IntegerConversion(d.conversion).value.base;
            var width, flags := WidthValue(d.width, args), IntegerFlags(d, args);
            Format(Spelled(d), args) == Some(StandardField(number, base, width, StandardPrecision(d, args), flags)) <==>
            if NegativePrecision(d, args) then NegativeConforms(number, base, width, flags)
            else Conforms(number, base, width, StandardPrecision(d, args), flags)
  {
    var number, base := Operand(d, w), IntegerConversion(d.conversion).value.base;
    assert IsBase(base);
    hide *;
    var width, flags := WidthValue(d.width, args), IntegerFlags(d, args);
    var precision := PrecisionValue(d.precision, Unused(d.width, args));
    IntegerIsShown(d, "", args, w, others);
    assert Spelled(d) + "" == Spelled(d);
    NothingMore(Spelled(d), args, others, Field(number, base, width, precision, flags));
    FieldConformsIff(number, base, width, precision, flags);
    NegativePrecisionIff(number, base, width, flags);
    PrecisionsAre(d, args);
  }

  lemma PrecisionsAre(d: Spelling, args: seq<Arg>)
    requires StarsSupplied(d, args)
    ensures if NegativePrecision(d, args)
            then PrecisionValue(d.precision, Unused(d.width, args)) == 0 && StandardPrecision(d, args) == -1
            else StandardPrecision(d, args) == PrecisionValue(d.precision, Unused(d.width, args))
  {
  }

  lemma NothingMore(fmt: string, args: seq<Arg>, others: seq<Arg>, text: string)
    requires Render(fmt, 0, args) == Prepend(text, Render("", 0, others))
    ensures Format(fmt, args) == Some(text)
  {
    assert text + "" == text;
  }

  /** And for %s. */
  lemma StringDirectiveConformsIff(d: Spelling, args: seq<Arg>, text: CString, others: seq<Arg>)
    requires WellSpelled(d) && StarsSupplied(d, args) && Remaining(d, args) == [StrArg(text)] + others
    requires d.conversion == 's'
    ensures var width, left := WidthValue(d.width, args), FlagsMeant(d, args).left;
            Format(Spelled(d), args) == Some(StringField(text, width, StandardPrecision(d, args), left)) <==>
            (NegativePrecision(d, args) ==> text == "" || (All(text, ' ') && |text| <= width))
  {
    var width, left := WidthValue(d.width, args), FlagsMeant(d, args).left;
    var precision := PrecisionValue(d.precision, Unused(d.width, args));
    StringIsShown(d, "", args, text, others);
    assert Spelled(d) + "" == Spelled(d);
    NothingMore(Spelled(d), args, others, StringField(text, width, precision, left));
    NegativeStringIff(text, width, left);
    assert NegativePrecision(d, args) ==> precision == 0;
    hide StringField, Render, FlagsMeant, WidthValue, PrecisionValue, All;
  }
}
