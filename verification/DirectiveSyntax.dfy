/** Directives read back as they were written: flags, width, precision, qualifier, conversion. */
module DirectiveSyntax {
  import opened Words
  import opened IntegerField
  import opened Formatter

  predicate IsFlag(c: char) { c == '#' || c == '0' || c == '+' || c == ' ' || c == '-' }

  predicate IsQualifier(c: char) { c == 'h' || c == 'l' || c == 'L' }

  /** A character that can only be a conversion. */
  predicate IsConversion(c: char) {
    !IsFlag(c) && !IsDigit(c) && !IsQualifier(c) && c != '*' && c != '.' && c != '\0'
  }

  /** The flags that occur in a string, whatever their order and however often. */
  function FlagsIn(s: string): Flags {
    Flags('-' in s, '+' in s, ' ' in s, '#' in s, '0' in s, false, false)
  }

  function Union(f: Flags, g: Flags): Flags {
    f.(left := f.left || g.left, plus := f.plus || g.plus, space := f.space || g.space,
       alt := f.alt || g.alt, zero := f.zero || g.zero)
  }

  lemma {:induction false} FlagsAreMembers(s: string, i: nat, n: nat, f: Flags)
    requires i <= n <= |s| && (forall k :: i <= k < n ==> IsFlag(s[k])) && !IsFlag(At(s, n))
    ensures ReadFlags(s, i, f) == FlagsRead(Union(f, FlagsIn(s[i..n])), n)
    decreases n - i
  {
    if i < n {
      var g := WithFlag(f, s[i]).value;
      FlagsAreMembers(s, i + 1, n, g);
      OneMoreFlag(s[i], s[i + 1..n], f);
      assert s[i..n] == [s[i]] + s[i + 1..n];
      hide Union, FlagsIn;
    } else {
      assert s[i..n] == "";
    }
  }

  lemma OneMoreFlag(c: char, s: string, f: Flags)
    requires IsFlag(c)
    ensures WithFlag(f, c).Some? && Union(WithFlag(f, c).value, FlagsIn(s)) == Union(f, FlagsIn([c] + s))
  {
    var g, h := WithFlag(f, c).value, FlagsIn(s);
    FlagsOfCons(c, s);
    AddedFlag(c, f);
    hide FlagsIn, WithFlag;
    SameUnion(c, f, g, h, FlagsIn([c] + s));
  }

  lemma AddedFlag(c: char, f: Flags)
    requires IsFlag(c)
    ensures WithFlag(f, c).Some?
    ensures Extends(c, f, WithFlag(f, c).value) && SameKind(f, WithFlag(f, c).value)
  {
  }

  predicate Extends(c: char, f: Flags, g: Flags) {
    && g.left == (f.left || c == '-') && g.plus == (f.plus || c == '+') && g.space == (f.space || c == ' ')
    && g.alt == (f.alt || c == '#') && g.zero == (f.zero || c == '0')
  }

  predicate SameKind(f: Flags, g: Flags) { f.upper == g.upper && f.signed == g.signed }

  lemma SameUnion(c: char, f: Flags, g: Flags, h: Flags, k: Flags)
    requires Extends(c, f, g) && SameKind(f, g) && Extends(c, h, k)
    ensures Union(g, h) == Union(f, k)
  {
    var u, v := Union(g, h), Union(f, k);
    assert u.left == v.left;
    assert u.plus == v.plus;
    assert u.space == v.space;
    assert u.alt == v.alt;
    assert u.zero == v.zero;
  }

  lemma FlagsOfCons(c: char, s: string)
    ensures Extends(c, FlagsIn(s), FlagsIn([c] + s))
  {
    ConsMember('-', c, s);
    ConsMember('+', c, s);
    ConsMember(' ', c, s);
    ConsMember('#', c, s);
    ConsMember('0', c, s);
  }

  lemma ConsMember(x: char, c: char, s: string)
    ensures x in [c] + s <==> x == c || x in s
  {
  }

  lemma {:induction false} ParseIntShift(before: string, s: string, i: nat, acc: int)
    ensures ParseInt(before + s, |before| + i, acc) ==
            Parsed(ParseInt(s, i, acc).value, |before| + ParseInt(s, i, acc).next)
    decreases |s| - i
  {
    if i < |s| && IsDigit(s[i]) {
      assert (before + s)[|before| + i] == s[i];
      ParseIntShift(before, s, i + 1, acc * 10 + (s[i] as int - '0' as int));
    }
  }

  /** A decimal number inside a text is read whole. */
  lemma NumberIsRead(before: string, n: Word, rest: string)
    requires rest == "" || !IsDigit(rest[0])
    ensures |Digits(n, 10, false)| > 0
    ensures IsDigit(Digits(n, 10, false)[0])
    ensures ParseInt(before + Digits(n, 10, false) + rest, |before|, 0) == Parsed(n, |before| + |Digits(n, 10, false)|)
  {
    var digits := Digits(n, 10, false);
    hide *;
    DigitsAreDecimal(n);
    ParseIntRoundTrip(n, rest);
    UnpaddedField(n);
    ParseIntShift(before, digits + rest, 0, 0);
    Join3(before, digits, rest);
  }

  lemma DigitsAreDecimal(n: Word)
    ensures |Digits(n, 10, false)| > 0 && IsDigit(Digits(n, 10, false)[0])
  {
    DigitsFitScratch(n, 10, false);
    RawDigitsDecimal(n, false);
  }

  lemma UnpaddedField(n: Word)
    ensures Field(n, 10, -1, -1, NO_FLAGS) == Digits(n, 10, false)
  {
    DigitsFitScratch(n, 10, false);
    hide Digits, RawDigits;
  }

  /** A width or precision: left out, written as a number, taken from the arguments, or, for a precision,
      a dot with nothing behind it. */
  datatype Amount = Absent | Number(n: Word) | Star | Empty

  /** The arguments begin with the int a star asks for. */
  predicate Supplied(a: Amount, args: seq<Arg>) {
    a.Star? ==> args != [] && args[0].IntArg?
  }

  function Unused(a: Amount, args: seq<Arg>): seq<Arg>
    requires Supplied(a, args)
  {
    if a.Star? then args[1..] else args
  }

  function WidthValue(a: Amount, args: seq<Arg>): int
    requires Supplied(a, args)
  {
    match a
    case Absent => -1
    case Number(n) => n
    case Star => if Int(args[0].word) < 0 then -Int(args[0].word) else Int(args[0].word)
    case Empty => -1
  }

  /** Only a negative argument asks for left justification. */
  predicate ToLeft(a: Amount, args: seq<Arg>)
    requires Supplied(a, args)
  {
    a.Star? && Int(args[0].word) < 0
  }

  function PrecisionValue(a: Amount, args: seq<Arg>): int
    requires Supplied(a, args)
  {
    match a
    case Absent => -1
    case Number(n) => n
    case Star => Max(Int(args[0].word), 0)
    case Empty => 0
  }

  function AmountText(a: Amount): string {
    match a
    case Absent => ""
    case Number(n) => Digits(n, 10, false)
    case Star => "*"
    case Empty => ""
  }

  function PrecisionText(a: Amount): string {
    if a.Absent? then "" else "." + AmountText(a)
  }

  /** A width is not written as 0, which would be a flag. */
  predicate IsWidth(a: Amount) { !a.Empty? && (a.Number? ==> a.n > 0) }

  function QualifierText(qualifier: Option<char>): string {
    if qualifier.Some? then [qualifier.value] else ""
  }

  lemma WidthIsRead(flags: string, width: Amount, tail: string, d: Directive)
    requires IsWidth(width) && Supplied(width, d.args)
    requires tail != "" && !IsDigit(tail[0]) && tail[0] != '*'
    requires d.next == |flags| && d.width == -1
    ensures ReadWidth(flags + AmountText(width) + tail, d) ==
            Some(d.(width := WidthValue(width, d.args),
                    flags := d.flags.(left := d.flags.left || ToLeft(width, d.args)),
                    next := |flags + AmountText(width)|, args := Unused(width, d.args)))
  {
    var s := flags + AmountText(width) + tail;
    match width
    case Absent => assert s[|flags|] == tail[0];
    case Star => assert s[|flags|] == '*';
    case Number(n) =>
      NumberIsRead(flags, n, tail);
      assert s[|flags|] == AmountText(width)[0];
  }

  lemma PrecisionIsRead(before: string, precision: Amount, tail: string, d: Directive)
    requires Supplied(precision, d.args)
    requires tail != "" && !IsDigit(tail[0]) && tail[0] != '.' && tail[0] != '*'
    requires d.next == |before| && d.precision == -1
    ensures ReadPrecision(before + PrecisionText(precision) + tail, d) ==
            Some(d.(precision := PrecisionValue(precision, d.args),
                    next := |before + PrecisionText(precision)|, args := Unused(precision, d.args)))
  {
    var s := before + PrecisionText(precision) + tail;
    match precision
    case Absent => assert s[|before|] == tail[0];
    case Star => assert s[|before|] == '.' && s[|before| + 1] == '*';
    case Empty => assert s[|before|] == '.' && s[|before| + 1] == tail[0];
    case Number(n) => NumberPrecision(before, n, tail, d);
  }

  lemma NumberPrecision(before: string, n: Word, tail: string, d: Directive)
    requires tail != "" && !IsDigit(tail[0]) && d.next == |before|
    ensures var text := "." + Digits(n, 10, false);
            ReadPrecision(before + text + tail, d) == Some(d.(precision := n, next := |before + text|))
  {
    var digits := Digits(n, 10, false);
    NumberIsRead(before + ".", n, tail);
    hide ParseInt, Digits, IsDigit;
    DotThenDigits(before, digits, tail);
  }

  lemma DotThenDigits(before: string, digits: string, tail: string)
    requires digits != ""
    ensures before + ("." + digits) + tail == (before + ".") + digits + tail
    ensures At(before + ("." + digits) + tail, |before|) == '.'
    ensures At(before + ("." + digits) + tail, |before| + 1) == digits[0]
  {
  }

  lemma QualifierIsRead(before: string, qualifier: Option<char>, tail: string, d: Directive)
    requires qualifier.Some? ==> IsQualifier(qualifier.value)
    requires tail != "" && !IsQualifier(tail[0])
    requires d.next == |before| && d.qualifier == '\0'
    ensures ReadQualifier(before + QualifierText(qualifier) + tail, d) ==
            d.(qualifier := if qualifier.Some? then qualifier.value else '\0',
               next := |before + QualifierText(qualifier)|)
  {
    var s := before + QualifierText(qualifier) + tail;
    assert s[|before|] == if qualifier.Some? then qualifier.value else tail[0];
  }

  /** A directive as it is written. */
  datatype Spelling = Spelling(
    flags: string, width: Amount, precision: Amount, qualifier: Option<char>, conversion: char)

  predicate WellSpelled(d: Spelling) {
    && (forall k :: 0 <= k < |d.flags| ==> IsFlag(d.flags[k]))
    && IsWidth(d.width)
    && (d.qualifier.Some? ==> IsQualifier(d.qualifier.value))
    && IsConversion(d.conversion)
  }

  /** The arguments supply the stars of the directive; what is left is for its conversion. */
  predicate StarsSupplied(d: Spelling, args: seq<Arg>) {
    Supplied(d.width, args) && Supplied(d.precision, Unused(d.width, args))
  }

  function Remaining(d: Spelling, args: seq<Arg>): seq<Arg>
    requires StarsSupplied(d, args)
  {
    Unused(d.precision, Unused(d.width, args))
  }

  /** The text between the percent sign and the conversion. */
  function Middle(d: Spelling): string {
    d.flags + AmountText(d.width) + PrecisionText(d.precision) + QualifierText(d.qualifier)
  }

  /** What the flags ask for, a negative width argument included. */
  function FlagsMeant(d: Spelling, args: seq<Arg>): Flags
    requires StarsSupplied(d, args)
  {
    var f := Normal(FlagsIn(d.flags));
    f.(left := f.left || ToLeft(d.width, args))
  }

  /** What the directive says, with the index of its conversion. */
  function Meaning(d: Spelling, args: seq<Arg>): Directive
    requires StarsSupplied(d, args)
  {
    Directive(FlagsMeant(d, args), WidthValue(d.width, args), PrecisionValue(d.precision, Unused(d.width, args)),
              if d.qualifier.Some? then d.qualifier.value else '\0', |Middle(d)|, Remaining(d, args))
  }

  /** For every string of flags, width, precision, qualifier and conversion character, and arguments for
      their stars, reading the directive they spell gives exactly them, and stops at the conversion. */
  lemma DirectiveIsRead(d: Spelling, rest: string, args: seq<Arg>)
    requires WellSpelled(d) && StarsSupplied(d, args)
    ensures ReadDirective(Middle(d) + ([d.conversion] + rest), 0, args) == Some(Meaning(d, args))
    ensures At(Middle(d) + ([d.conversion] + rest), |Middle(d)|) == d.conversion
  {
    var width, precision, flags := d.width, d.precision, d.flags;
    var w, p, q, t := AmountText(width), PrecisionText(precision), QualifierText(d.qualifier), [d.conversion] + rest;
    FlagsAreRead(d, rest);
    TextsStart(d, rest);
    SplitDirective(flags, w, p, q, t);
    hide FlagsIn, Normal, ReadFlags, ReadWidth, ReadPrecision, ReadQualifier, AmountText, PrecisionText, QualifierText,
         WidthValue, PrecisionValue, ToLeft, Supplied, Unused, IsWidth, IsQualifier, IsFlag, IsDigit, At;
    var f := Normal(FlagsIn(flags));
    var d0 := Directive(f, -1, -1, '\0', |flags|, args);
    WidthIsRead(flags, width, p + q + t, d0);
    var d1 := d0.(width := WidthValue(width, args), flags := f.(left := f.left || ToLeft(width, args)),
                  next := |flags + w|, args := Unused(width, args));
    PrecisionIsRead(flags + w, precision, q + t, d1);
    var d2 := d1.(precision := PrecisionValue(precision, d1.args), next := |flags + w + p|,
                  args := Unused(precision, d1.args));
    QualifierIsRead(flags + w + p, d.qualifier, t, d2);
  }

  lemma SplitDirective(flags: string, w: string, p: string, q: string, t: string)
    requires t != ""
    ensures var s := flags + w + p + q + t;
            && s == flags + w + (p + q + t) && s == flags + w + p + (q + t)
            && At(s, |flags + w + p + q|) == t[0]
  {
  }

  /** What follows a part of a directive does not begin like that part. */
  lemma TextsStart(d: Spelling, rest: string)
    requires WellSpelled(d)
    ensures var w, p, q := AmountText(d.width), PrecisionText(d.precision), QualifierText(d.qualifier);
            var t := [d.conversion] + rest;
            && !IsFlag((w + p + q + t)[0])
            && !IsDigit((p + q + t)[0]) && (p + q + t)[0] != '*'
            && !IsDigit((q + t)[0]) && (q + t)[0] != '.' && (q + t)[0] != '*'
            && !IsQualifier(t[0])
  {
    if d.width.Number? {
      LeadingDigit(d.width.n, 10, false);
      RawDigitsDecimal(d.width.n, false);
    }
    hide RawDigits;
  }

  lemma FlagsAreRead(d: Spelling, rest: string)
    requires WellSpelled(d)
    ensures ReadFlags(Middle(d) + ([d.conversion] + rest), 0, NO_FLAGS) == FlagsRead(FlagsIn(d.flags), |d.flags|)
  {
    TextsStart(d, rest);
    var w, p, q := AmountText(d.width), PrecisionText(d.precision), QualifierText(d.qualifier);
    var t := [d.conversion] + rest;
    hide AmountText, PrecisionText, QualifierText;
    FlagsStart(d.flags, w, p, q, t);
    EmptyUnion(FlagsIn(d.flags));
    hide FlagsIn, Union, ReadFlags, At;
    FlagsAreMembers(d.flags + w + p + q + t, 0, |d.flags|, NO_FLAGS);
  }

  lemma FlagsStart(flags: string, w: string, p: string, q: string, t: string)
    requires t != ""
    ensures var s := flags + w + p + q + t;
            s[0..|flags|] == flags && At(s, |flags|) == (w + p + q + t)[0]
            && forall k :: 0 <= k < |flags| ==> s[k] == flags[k]
  {
    assert flags + w + p + q + t == flags + (w + p + q + t);
  }

  lemma EmptyUnion(f: Flags)
    requires !f.upper && !f.signed
    ensures Union(NO_FLAGS, f) == f
  {
  }

  // ----- widths of the other fields -----

  /** %c and %s fields are as wide as asked for, or as what they show, and show it on the side the flag asks for. */
  lemma TextFieldWidths(text: string, width: int, precision: int, left: bool, c: char)
    ensures |CharField(c, width, left)| == Max(width, 1)
    ensures CharField(c, width, left)[if left then 0 else Max(width, 1) - 1] == c
    ensures var shown := if precision < 0 then |text| else Min(precision, |text|);
            var s := StringField(text, width, precision, left);
            && |s| == Max(width, shown)
            && (if left then s[..shown] == text[..shown] else s[|s| - shown..] == text[..shown])
  {
  }
}
