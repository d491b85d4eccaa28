/** Integer and string fields as C99 section 7.19.6.1 defines them, and exactly when those of the code agree. */
module C99 {
  import opened Words
  import opened IntegerField
  import opened FieldMeaning
  import opened Formatter

  // ----- the standard -----

  /** The value of an argument: two's complement, where the conversion is signed. */
  function ValueOf(number: Word, signed: bool): (v: int)
    ensures Denotes(number, signed, v)
  {
    if signed && number >= 0x8000_0000 then number - 0x1_0000_0000 else number
  }

  /** A signed conversion writes a minus sign for a negative number, and for the others + where the + flag asks
      for it, or else a blank where the blank flag does. */
  function StandardSign(number: Word, flags: Flags): string {
    if !flags.signed then ""
    else if ValueOf(number, true) < 0 then "-"
    else if flags.plus then "+"
    else if flags.space then " "
    else ""
  }

  function StandardMagnitude(number: Word, flags: Flags): Word {
    var v := ValueOf(number, flags.signed);
    if v < 0 then -v else v
  }

  /** The code takes sign and magnitude as the standard does. */
  lemma SignsAgree(number: Word, flags: Flags)
    ensures StandardSign(number, flags) == SignPart(number, flags)
    ensures StandardMagnitude(number, flags) == Magnitude(number, flags)
  {
  }

  function Letter(d: int, upper: bool): char
    requires 0 <= d < 16
  {
    if d < 10 then ('0' as int + d) as char
    else if upper then ('A' as int + d - 10) as char
    else ('a' as int + d - 10) as char
  }

  lemma DigitsStep(n: nat, base: int, upper: bool)
    requires IsBase(base)
    ensures Digits(n, base, upper) ==
            (if n < base then "" else Digits(n / base, base, upper)) + [Letter(n % base, upper)]
    ensures n < base ==> n % base == n && Digits(n, base, upper) == [Letter(n, upper)]
  {
    LettersAgree(n % base, upper);
    hide DigitChar, Letter;
    if n < base {
      assert RawDigits(0, base, upper) == "" && n / base == 0;
    }
  }

  lemma LettersAgree(d: int, upper: bool)
    requires 0 <= d < 16
    ensures Letter(d, upper) == DigitChar(d, upper)
  {
  }

  /** A number in some base, with the letters abcdef or ABCDEF above 9; these are the digits the code writes. */
  function Numeral(n: nat, base: int, upper: bool): (s: string)
    requires IsBase(base)
    ensures s == Digits(n, base, upper)
    decreases n
  {
    DigitsStep(n, base, upper);
    if n < base then [Letter(n, upper)] else Numeral(n / base, base, upper) + [Letter(n % base, upper)]
  }

  /** At least `precision` digits, but none for 0 with precision 0; # makes an octal number begin with 0. */
  function StandardDigits(mag: Word, base: int, precision: int, flags: Flags): string
    requires IsBase(base)
  {
    var digits := Numeral(mag, base, flags.upper);
    var plain := if mag == 0 && precision == 0 then "" else Repeat('0', precision - |digits|) + digits;
    if flags.alt && base == 8 && (plain == "" || plain[0] != '0') then "0" + plain else plain
  }

  /** # prefixes 0x to a hexadecimal number other than 0. */
  function StandardPrefix(mag: Word, base: int, flags: Flags): string {
    if flags.alt && base == 16 && mag != 0 then (if flags.upper then "0X" else "0x") else ""
  }

  /** Blanks up to the width, on the side that - does not say. */
  function Align(left: bool, content: string, width: int): string {
    if left then content + Repeat(' ', width - |content|) else Repeat(' ', width - |content|) + content
  }

  /** An integer field.  A negative precision is one that was not given; then the 0 flag, unless there is a
      - too, fills the width with zeros behind sign and prefix. */
  function StandardField(number: Word, base: int, width: int, precision: int, flags: Flags): string
    requires IsBase(base)
  {
    var mag := StandardMagnitude(number, flags);
    var sign, prefix := StandardSign(number, flags), StandardPrefix(mag, base, flags);
    var digits := StandardDigits(mag, base, precision, flags);
    if flags.zero && !flags.left && precision < 0 then
      sign + prefix + Repeat('0', width - |sign| - |prefix| - |digits|) + digits
    else
      Align(flags.left, sign + prefix + digits, width)
  }

  // ----- where the code agrees -----

  predicate ZeroFilled(precision: int, flags: Flags) { flags.zero && !flags.left && precision < 0 }

  /** The code writes a digit for 0 with precision 0, prefixes 0x to 0, and prefixes an octal 0 to whatever digits
      there are.  The last is harmless where no zeros precede those digits, unless the number is 0; then it
      is harmless among zeros that fill the width. */
  predicate Conforms(number: Word, base: int, width: int, precision: int, flags: Flags)
    requires IsBase(base)
  {
    var mag := StandardMagnitude(number, flags);
    && !(mag == 0 && precision == 0)
    && (flags.alt && base == 16 ==> mag != 0)
    && (flags.alt && base == 8 ==>
          && precision <= |Digits(mag, base, flags.upper)|
          && (mag == 0 ==> ZeroFilled(precision, flags) && width >= |StandardSign(number, flags)| + 2))
  }

  /** What the code writes between sign and trailing blanks when it does not fill with zeros. */
  function Content(mag: Word, base: int, precision: int, flags: Flags): string
    requires IsBase(base)
  {
    var digits := Digits(mag, base, flags.upper);
    PrefixPart(base, flags) + Repeat('0', precision - |digits|) + digits
  }

  function StandardContent(mag: Word, base: int, precision: int, flags: Flags): string
    requires IsBase(base)
  {
    StandardPrefix(mag, base, flags) + StandardDigits(mag, base, precision, flags)
  }

  predicate ContentConforms(mag: Word, base: int, precision: int, flags: Flags)
    requires IsBase(base)
  {
    && !(mag == 0 && precision == 0)
    && (flags.alt && base == 16 ==> mag != 0)
    && (flags.alt && base == 8 ==> mag != 0 && precision <= |Digits(mag, base, flags.upper)|)
  }

  lemma DigitsStart(mag: Word, base: int, upper: bool)
    requires IsBase(base)
    ensures var digits := Digits(mag, base, upper);
            digits != "" && AllDigits(digits, base) && (digits[0] == '0' <==> mag == 0)
    ensures mag == 0 ==> Digits(mag, base, upper) == "0"
  {
    DigitsAreDigits(mag, base, upper);
    if mag != 0 {
      LeadingDigit(mag, base, upper);
    }
  }

  /** The code's content is the standard one, or longer. */
  lemma ContentIff(mag: Word, base: int, precision: int, flags: Flags)
    requires IsBase(base)
    ensures var a, b := Content(mag, base, precision, flags), StandardContent(mag, base, precision, flags);
            && (a == b <==> ContentConforms(mag, base, precision, flags))
            && (a == b || |a| > |b|)
  {
    DigitsStart(mag, base, flags.upper);
    var digits := Digits(mag, base, flags.upper);
    var zeros := Repeat('0', precision - |digits|);
    var prefix := PrefixPart(base, flags);
    assert Content(mag, base, precision, flags) == prefix + zeros + digits;
    assert Numeral(mag, base, flags.upper) == digits;
    hide Digits, Numeral, Content, AllDigits;
    if mag == 0 && precision == 0 {
      assert StandardContent(mag, base, precision, flags) == if flags.alt && base == 8 then "0" else "";
    } else if flags.alt && base == 8 {
      OctalContent(zeros, digits);
    } else {
      assert StandardContent(mag, base, precision, flags) ==
             (if flags.alt && base == 16 && mag == 0 then "" else prefix) + (zeros + digits);
      Join3(prefix, zeros, digits);
    }
  }

  lemma OctalContent(zeros: string, digits: string)
    requires All(zeros, '0') && digits != ""
    ensures (zeros + digits)[0] == '0' <==> zeros != "" || digits[0] == '0'
    ensures |"0" + zeros + digits| == 1 + |zeros + digits| && "0" + zeros + digits == "0" + (zeros + digits)
  {
  }

  /** No character of s could be padding or a sign. */
  ghost predicate Solid(s: string) {
    forall i :: 0 <= i < |s| ==> s[i] != ' ' && s[i] != '+' && s[i] != '-'
  }

  lemma ContentIsSolid(mag: Word, base: int, precision: int, flags: Flags)
    requires IsBase(base)
    ensures Solid(Content(mag, base, precision, flags))
  {
    DigitsStart(mag, base, flags.upper);
    hide Digits;
  }

  /** Two contents behind the same sign, the first solid and longer, are told apart whatever the padding. */
  lemma AlignDiffers(left: bool, sign: string, a: string, b: string, width: int)
    requires |a| > |b| && Solid(a)
    requires IsSign(sign)
    ensures Align(left, sign + a, width) != Align(left, sign + b, width)
  {
    var s, t := Align(left, sign + a, width), Align(left, sign + b, width);
    if |s| == |t| {
      var k := if left then |sign| + |b| else |s| - |a|;
      if left {
        assert s[k] == a[|b|] && t[k] == ' ';
      } else {
        assert s[k] == a[0];
        assert t[k] == if k < |t| - |sign| - |b| then ' ' else sign[0];
      }
    }
  }

  lemma LeftLayout(a: string, b: string, c: string, d: string, tail: string)
    ensures "" + a + b + "" + c + d + tail == a + (b + c + d) + tail
  {
  }

  lemma RightLayout(head: string, a: string, b: string, c: string, d: string)
    ensures head + a + b + "" + c + d + "" == head + (a + (b + c + d))
  {
  }

  lemma FieldIsAligned(number: Word, base: int, width: int, precision: int, flags: Flags)
    requires IsBase(base) && !ZeroFilled(precision, flags)
    ensures var mag, sign := Magnitude(number, flags), SignPart(number, flags);
            Field(number, base, width, precision, flags) ==
            Align(flags.left, sign + Content(mag, base, precision, flags), width)
  {
    hide Digits, SignPart, PrefixPart;
    var sign, prefix, digits := SignPart(number, flags), PrefixPart(base, flags), DigitPart(number, base, flags);
    var zeros := Repeat('0', precision - |digits|);
    assert |zeros| + |digits| == Max(precision, |digits|);
    var pad := width - |sign| - |prefix| - Max(precision, |digits|);
    if flags.left {
      LeftLayout(sign, prefix, zeros, digits, Repeat(' ', pad));
    } else {
      RightLayout(Repeat(' ', pad), sign, prefix, zeros, digits);
    }
  }

  lemma StandardIsAligned(number: Word, base: int, width: int, precision: int, flags: Flags)
    requires IsBase(base) && !ZeroFilled(precision, flags)
    ensures var mag, sign := Magnitude(number, flags), SignPart(number, flags);
            StandardField(number, base, width, precision, flags) ==
            Align(flags.left, sign + StandardContent(mag, base, precision, flags), width)
  {
    SignsAgree(number, flags);
    hide Digits, SignPart, Magnitude, StandardSign, StandardMagnitude, StandardDigits, StandardPrefix, Align;
    var mag := Magnitude(number, flags);
    Join3(SignPart(number, flags), StandardPrefix(mag, base, flags), StandardDigits(mag, base, precision, flags));
  }

  /** Zeros fill the width between prefix and digits. */
  function ZeroFill(sign: string, prefix: string, digits: string, width: int): string {
    sign + prefix + Repeat('0', width - |sign| - |prefix| - |digits|) + digits
  }

  lemma ZeroLayout(a: string, b: string, fill: string, d: string)
    ensures "" + a + b + fill + "" + d + "" == a + b + fill + d
  {
  }

  lemma FieldIsZeroFilled(number: Word, base: int, width: int, precision: int, flags: Flags)
    requires IsBase(base) && ZeroFilled(precision, flags)
    ensures Field(number, base, width, precision, flags) ==
            ZeroFill(SignPart(number, flags), PrefixPart(base, flags), DigitPart(number, base, flags), width)
  {
    hide DigitPart, SignPart, PrefixPart;
    var sign, prefix, digits := SignPart(number, flags), PrefixPart(base, flags), DigitPart(number, base, flags);
    assert Repeat('0', precision - |digits|) == "";
    ZeroLayout(sign, prefix, Repeat('0', width - |sign| - |prefix| - |digits|), digits);
  }

  lemma StandardIsZeroFilled(number: Word, base: int, width: int, precision: int, flags: Flags)
    requires IsBase(base) && ZeroFilled(precision, flags)
    ensures var mag, sign := Magnitude(number, flags), SignPart(number, flags);
            StandardField(number, base, width, precision, flags) ==
            ZeroFill(sign, StandardPrefix(mag, base, flags), StandardDigits(mag, base, precision, flags), width)
  {
    SignsAgree(number, flags);
    hide Digits, SignPart, Magnitude, StandardSign, StandardMagnitude, StandardDigits, StandardPrefix;
  }

  /** Prefix and digits of the two, where zeros fill the width. */
  lemma ZeroFilledParts(mag: Word, base: int, precision: int, flags: Flags)
    requires IsBase(base) && precision < 0
    ensures var p, q := PrefixPart(base, flags), StandardPrefix(mag, base, flags);
            var d, e := Digits(mag, base, flags.upper), StandardDigits(mag, base, precision, flags);
            if flags.alt && base == 16 && mag == 0 then |p| == 2 && p[1] != '0' && q == "" && d == e == "0"
            else if flags.alt && base == 8 && mag == 0 then p == "0" && q == "" && d == e == "0"
            else if flags.alt && base == 8 then p == "0" && q == "" && e == "0" + d
            else p == q && d == e
  {
    DigitsStart(mag, base, flags.upper);
    hide Digits;
  }

  lemma HexZeroDiffers(sign: string, prefix: string, width: int)
    requires |prefix| == 2 && prefix[1] != '0'
    ensures ZeroFill(sign, prefix, "0", width) != ZeroFill(sign, "", "0", width)
  {
    var s, t := ZeroFill(sign, prefix, "0", width), ZeroFill(sign, "", "0", width);
    assert s[|sign| + 1] == prefix[1];
    assert |t| > |sign| + 1 ==> t[|sign| + 1] == '0';
  }

  lemma OctalZeroIff(sign: string, width: int)
    ensures ZeroFill(sign, "0", "0", width) == ZeroFill(sign, "", "0", width) <==> width >= |sign| + 2
  {
    var s, t := ZeroFill(sign, "0", "0", width), ZeroFill(sign, "", "0", width);
    if width >= |sign| + 2 {
      ZerosCommute(width - |sign| - 2);
      assert Repeat('0', width - |sign| - 1) == Repeat('0', width - |sign| - 2) + "0";
    } else {
      assert |s| == |sign| + 2 && |t| == |sign| + 1;
    }
  }

  lemma OctalZeroPrefix(sign: string, digits: string, width: int)
    ensures ZeroFill(sign, "0", digits, width) == ZeroFill(sign, "", "0" + digits, width)
  {
    var k := width - |sign| - |digits| - 1;
    ZerosCommute(k);
    assert sign + "0" + Repeat('0', k) + digits == sign + ("0" + Repeat('0', k)) + digits;
    assert sign + "" + Repeat('0', k) + ("0" + digits) == sign + (Repeat('0', k) + "0") + digits;
  }

  /** Where both fill the width with zeros, they agree as Conforms says. */
  lemma ZeroFilledIff(number: Word, base: int, width: int, precision: int, flags: Flags)
    requires IsBase(base) && ZeroFilled(precision, flags)
    ensures Field(number, base, width, precision, flags) == StandardField(number, base, width, precision, flags) <==>
            Conforms(number, base, width, precision, flags)
  {
    var mag, sign := Magnitude(number, flags), SignPart(number, flags);
    FieldIsZeroFilled(number, base, width, precision, flags);
    StandardIsZeroFilled(number, base, width, precision, flags);
    ZeroFilledParts(mag, base, precision, flags);
    HexZeroDiffers(sign, if flags.alt && base == 16 then PrefixPart(base, flags) else "0x", width);
    OctalZeroIff(sign, width);
    OctalZeroPrefix(sign, Digits(mag, base, flags.upper), width);
    DigitsStart(mag, base, flags.upper);
    SignsAgree(number, flags);
    hide Field, StandardField, ZeroFill, Digits, StandardDigits, PrefixPart, StandardPrefix, Magnitude, SignPart,
         StandardMagnitude, StandardSign;
  }

  lemma ZerosCommute(k: int)
    ensures "0" + Repeat('0', k) == Repeat('0', k) + "0"
  {
  }

  /** For every number, base, width, precision and flags, the code writes the field the standard asks for
      exactly where Conforms says so. */
  lemma FieldConformsIff(number: Word, base: int, width: int, precision: int, flags: Flags)
    requires IsBase(base)
    ensures Field(number, base, width, precision, flags) == StandardField(number, base, width, precision, flags) <==>
            Conforms(number, base, width, precision, flags)
  {
    if ZeroFilled(precision, flags) {
      ZeroFilledIff(number, base, width, precision, flags);
    } else {
      var mag, sign := Magnitude(number, flags), SignPart(number, flags);
      FieldIsAligned(number, base, width, precision, flags);
      StandardIsAligned(number, base, width, precision, flags);
      ContentIff(mag, base, precision, flags);
      ContentIsSolid(mag, base, precision, flags);
      SignsAgree(number, flags);
      var a, b := Content(mag, base, precision, flags), StandardContent(mag, base, precision, flags);
      hide Field, StandardField, Content, StandardContent, Align, Solid, Digits, StandardMagnitude, StandardSign;
      if a != b {
        AlignDiffers(flags.left, sign, a, b, width);
      }
    }
  }

  // ----- a negative precision argument -----

  /** The standard takes a negative precision argument for none; the code takes it for 0.  That turns the zeros
      that would fill the width into blanks, so the two agree only where there is nothing to fill. */
  predicate NegativeConforms(number: Word, base: int, width: int, flags: Flags)
    requires IsBase(base)
  {
    var mag, sign := StandardMagnitude(number, flags), StandardSign(number, flags);
    if !flags.zero || flags.left then Conforms(number, base, width, -1, flags)
    else if flags.alt && base == 16 && mag == 0 then false
    else if flags.alt && base == 8 && mag == 0 then width == |sign| + 2
    else
      width <= |sign| + (if !flags.alt || base == 10 then 0 else if base == 16 then 2 else 1)
               + |Digits(mag, base, flags.upper)|
  }

  /** Precision 0, in the code, is no precision without the 0 flag. */
  lemma ZeroPrecisionIsNone(number: Word, base: int, width: int, flags: Flags)
    requires IsBase(base)
    ensures Field(number, base, width, 0, flags) == Field(number, base, width, -1, flags.(zero := false))
  {
    var plain := flags.(zero := false);
    FieldIsAligned(number, base, width, 0, flags);
    FieldIsAligned(number, base, width, -1, plain);
    PlainContent(Magnitude(number, flags), base, flags);
    hide Field, Content, Align;
  }

  /** Blanks in front against zeros behind the sign. */
  lemma BlanksOrZeros(sign: string, a: string, b: string, width: int)
    requires IsSign(sign)
    requires |a| + |sign| < width && |b| > 0 && b[0] != ' ' && b[0] != '+' && b[0] != '-'
    ensures Align(false, sign + a, width) != sign + b
  {
    var s, t := Align(false, sign + a, width), sign + b;
    if |s| == |t| {
      assert t[|sign|] == b[0];
      assert s[0] == ' ';
      assert |sign| == 1 ==> s[1] == if width - |a| - 1 > 1 then ' ' else sign[0];
    }
  }

  predicate IsSign(sign: string) {
    |sign| <= 1 && forall i :: 0 <= i < |sign| ==> sign[i] == ' ' || sign[i] == '+' || sign[i] == '-'
  }

  /** The same content, with blanks in front or zeros inside: alike exactly if there is nothing to fill. */
  lemma FillIff(sign: string, p: string, d: string, q: string, e: string, width: int)
    requires IsSign(sign) && p + d == q + e && Solid(p + d) && e != ""
    ensures Align(false, sign + (p + d), width) == ZeroFill(sign, q, e, width) <==> width <= |sign| + |p| + |d|
  {
    var n := width - |sign| - |q| - |e|;
    assert |p + d| == |q + e|;
    var b := q + Repeat('0', n) + e;
    assert ZeroFill(sign, q, e, width) == sign + b;
    if n > 0 {
      assert b[0] == if q == "" then '0' else (q + e)[0];
      BlanksOrZeros(sign, p + d, b, width);
    } else {
      assert b == q + e;
      assert Repeat(' ', width - |sign + (p + d)|) == "";
    }
  }

  /** A number 0 behind a prefix that the standard does not write. */
  lemma FillZeroIff(sign: string, p: string, width: int)
    requires IsSign(sign) && Solid(p) && p != ""
    ensures Align(false, sign + (p + "0"), width) == ZeroFill(sign, "", "0", width) <==>
            width == |sign| + |p| + 1 && p == Repeat('0', |p|)
  {
    var b := Repeat('0', width - |sign| - 1) + "0";
    var a := p + "0";
    assert ZeroFill(sign, "", "0", width) == sign + b;
    if width > |sign| + |a| {
      BlanksOrZeros(sign, a, b, width);
    } else {
      assert Align(false, sign + a, width) == sign + a;
      if |a| == |b| {
        assert a == b <==> p == Repeat('0', |p|) by {
          assert b == Repeat('0', |p|) + "0";
          if a == b {
            assert p == a[..|p|] == b[..|p|];
          }
        }
        assert sign + a == sign + b <==> a == b by {
          assert (sign + a)[|sign|..] == a && (sign + b)[|sign|..] == b;
        }
      } else {
        assert |sign + a| != |sign + b|;
      }
    }
  }

  lemma NegativeFilledIff(number: Word, base: int, width: int, flags: Flags)
    requires IsBase(base) && flags.zero && !flags.left
    ensures var mag, sign := Magnitude(number, flags), SignPart(number, flags);
            Align(false, sign + Content(mag, base, -1, flags), width) ==
            ZeroFill(sign, StandardPrefix(mag, base, flags), StandardDigits(mag, base, -1, flags), width) <==>
            NegativeConforms(number, base, width, flags)
  {
    var mag, sign := Magnitude(number, flags), SignPart(number, flags);
    var p, q := PrefixPart(base, flags), StandardPrefix(mag, base, flags);
    var d, e := Digits(mag, base, flags.upper), StandardDigits(mag, base, -1, flags);
    FillParts(mag, base, flags);
    SignIsSign(number, flags);
    SignsAgree(number, flags);
    assert |p| == if !flags.alt || base == 10 then 0 else if base == 16 then 2 else 1;
    hide StandardMagnitude, StandardSign, Content, Digits, StandardDigits, StandardPrefix, PrefixPart, Align, ZeroFill,
         SignPart, Magnitude, Solid, IsSign;
    if flags.alt && base != 10 && mag == 0 {
      FillZeroIff(sign, p, width);
    } else {
      FillIff(sign, p, d, q, e, width);
    }
  }

  lemma SignIsSign(number: Word, flags: Flags)
    ensures IsSign(SignPart(number, flags))
  {
  }

  lemma FillParts(mag: Word, base: int, flags: Flags)
    requires IsBase(base)
    ensures var p, q := PrefixPart(base, flags), StandardPrefix(mag, base, flags);
            var d, e := Digits(mag, base, flags.upper), StandardDigits(mag, base, -1, flags);
            && Content(mag, base, -1, flags) == p + d && e != ""
            && if flags.alt && base != 10 && mag == 0 then
                 && q == "" && d == e == "0" && Solid(p)
                 && |p| == (if base == 16 then 2 else 1) && (p == Repeat('0', |p|) <==> base == 8)
               else
                 p + d == q + e && Solid(p + d)
  {
    ZeroFilledParts(mag, base, -1, flags);
    DigitsStart(mag, base, flags.upper);
    ContentIsSolid(mag, base, -1, flags);
    PlainContent(mag, base, flags);
    hide Content, Digits, StandardDigits, StandardPrefix, AllDigits;
    assert Repeat('0', 2)[1] == '0';
  }

  lemma PlainContent(mag: Word, base: int, flags: Flags)
    requires IsBase(base)
    ensures Content(mag, base, -1, flags) == PrefixPart(base, flags) + Digits(mag, base, flags.upper)
    ensures Content(mag, base, -1, flags) == Content(mag, base, 0, flags)
    ensures Content(mag, base, -1, flags) == Content(mag, base, -1, flags.(zero := false))
  {
    hide Digits;
  }

  lemma NegativePrecisionIff(number: Word, base: int, width: int, flags: Flags)
    requires IsBase(base)
    ensures Field(number, base, width, 0, flags) == StandardField(number, base, width, -1, flags) <==>
            NegativeConforms(number, base, width, flags)
  {
    ZeroPrecisionIsNone(number, base, width, flags);
    var plain := flags.(zero := false);
    if !flags.zero || flags.left {
      UnusedZero(number, base, width, flags);
      FieldConformsIff(number, base, width, -1, plain);
      hide Field, StandardField, Digits;
    } else {
      FieldIsAligned(number, base, width, -1, plain);
      StandardIsZeroFilled(number, base, width, -1, flags);
      NegativeFilledIff(number, base, width, flags);
      PlainContent(Magnitude(number, flags), base, flags);
      hide Field, StandardField, Content, Align, ZeroFill, Digits, StandardDigits, StandardPrefix;
    }
  }

  /** Together with -, the 0 flag changes nothing. */
  lemma UnusedZero(number: Word, base: int, width: int, flags: Flags)
    requires IsBase(base) && (!flags.zero || flags.left)
    ensures var plain := flags.(zero := false);
            && StandardField(number, base, width, -1, flags) == StandardField(number, base, width, -1, plain)
            && Conforms(number, base, width, -1, flags) == Conforms(number, base, width, -1, plain)
  {
    hide Digits;
  }

  /** In a %s field the code's 0 leaves nothing of the text; that is what the standard asks for only if blanks
      were all there was to see. */
  lemma NegativeStringIff(text: string, width: int, left: bool)
    ensures StringField(text, width, 0, left) == Repeat(' ', width)
    ensures StringField(text, width, 0, left) == StringField(text, width, -1, left) <==>
            text == "" || (All(text, ' ') && |text| <= width)
  {
    var s, t := StringField(text, width, 0, left), StringField(text, width, -1, left);
    if |text| <= width {
      var k := if left then 0 else width - |text|;
      assert forall i :: 0 <= i < |text| ==> t[k + i] == text[i];
      if All(text, ' ') {
        assert t == Repeat(' ', width);
      }
      if s == t {
        assert forall i :: 0 <= i < |text| ==> text[i] == s[k + i] == ' ';
      }
    } else if text != "" {
      assert |s| < |t|;
    }
  }

  // ----- inputs where they differ, and one where they do not -----

  /** %#.3o of 8. */
  lemma OctalPrecisionDiffers()
    ensures Field(8, 8, -1, 3, NO_FLAGS.(alt := true)) == "0010"
    ensures StandardField(8, 8, -1, 3, NO_FLAGS.(alt := true)) == "010"
  {
    DigitsOfEight();
    hide RawDigits;
  }

  lemma DigitsOfEight()
    ensures Digits(8, 8, false) == "10"
  {
    assert RawDigits(0, 8, false) == "";
    assert RawDigits(1, 8, false) == "1";
  }

  /** %#o, %#x and %.0d of 0. */
  lemma ZeroDiffers()
    ensures Field(0, 8, -1, -1, NO_FLAGS.(alt := true)) == "00"
    ensures StandardField(0, 8, -1, -1, NO_FLAGS.(alt := true)) == "0"
    ensures Field(0, 16, -1, -1, NO_FLAGS.(alt := true)) == "0x0"
    ensures StandardField(0, 16, -1, -1, NO_FLAGS.(alt := true)) == "0"
    ensures Field(0, 10, -1, 0, NO_FLAGS) == "0"
    ensures StandardField(0, 10, -1, 0, NO_FLAGS) == ""
  {
  }

  /** %#05o of 0 agrees. */
  lemma ZeroFilledOctalAgrees()
    ensures Field(0, 8, 5, -1, NO_FLAGS.(alt := true, zero := true)) == "00000"
    ensures StandardField(0, 8, 5, -1, NO_FLAGS.(alt := true, zero := true)) == "00000"
  {
    var flags := NO_FLAGS.(alt := true, zero := true);
    FieldIsZeroFilled(0, 8, 5, -1, flags);
    StandardIsZeroFilled(0, 8, 5, -1, flags);
    ZeroFilledParts(0, 8, -1, flags);
    assert SignPart(0, flags) == "" && Magnitude(0, flags) == 0 && DigitPart(0, 8, flags) == Digits(0, 8, false);
    hide Field, StandardField, Digits, StandardDigits, PrefixPart, StandardPrefix, DigitPart;
    assert Repeat('0', 3) == "000" && Repeat('0', 4) == "0000";
  }

  /** %05.*d of -1 and 7. */
  lemma NegativePrecisionDiffers()
    ensures Field(7, 10, 5, 0, NO_FLAGS.(zero := true)) == "    7"
    ensures StandardField(7, 10, 5, -1, NO_FLAGS.(zero := true)) == "00007"
  {
    assert RawDigits(0, 10, false) == "";
    assert Digits(7, 10, false) == "7";
  }
}
