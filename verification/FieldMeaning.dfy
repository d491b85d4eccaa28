/** What a printed number means: the text of an integer field, told from the value it shows and from what was
    asked for, without saying how the code lays it out. */
module FieldMeaning {
  import opened Words
  import opened IntegerField

  /** The integer a 32-bit argument stands for. */
  ghost predicate Denotes(w: Word, signed: bool, v: int) {
    if signed then -0x8000_0000 <= v < 0x8000_0000 && (v - w) % 0x1_0000_0000 == 0 else v == w
  }

  lemma DenotesIs(w: Word, signed: bool, v: int)
    requires Denotes(w, signed, v)
    ensures v == if signed && w >= 0x8000_0000 then w - 0x1_0000_0000 else w
  {
    var q := (v - w) / 0x1_0000_0000;
    assert v - w == q * 0x1_0000_0000;
    if q < -1 || q > 0 {
      assert false;
    }
  }

  /** Letters of one case only. */
  ghost predicate OneCase(s: string, upper: bool) {
    forall i :: 0 <= i < |s| ==> if upper then !('a' <= s[i] <= 'z') else !('A' <= s[i] <= 'Z')
  }

  /** What was asked for: the flags -, +, blank, # and 0, whether the conversion is signed, and its case. */
  datatype Request = Request(
    left: bool, plus: bool, space: bool, alt: bool, zero: bool, signed: bool, upper: bool, width: int, precision: int)

  /** The sign: a minus for a negative number, and otherwise what + or else a blank asks for. */
  function SignOf(v: int, r: Request): string {
    if !r.signed then "" else if v < 0 then "-" else if r.plus then "+" else if r.space then " " else ""
  }

  /** The prefix # asks for; the code writes it for 0 too. */
  function PrefixOf(base: int, r: Request): string {
    if !r.alt || base == 10 then "" else if base == 8 then "0" else if r.upper then "0X" else "0x"
  }

  /** Zeros, not blanks, make up the width. */
  predicate ZeroPadded(r: Request) { r.zero && !r.left && r.precision < 0 }

  /** The parts of a field that shows v.  Its digits evaluate to the magnitude of v; there are at least as many as
      the precision asks for, and zeros in front only for that or to make up the width. */
  ghost predicate Parts(text: string, v: int, base: int, r: Request, before: string, digits: string, after: string) {
    && text == before + SignOf(v, r) + PrefixOf(base, r) + digits + after
    && All(before, ' ') && All(after, ' ')
    && digits != "" && AllDigits(digits, base) && OneCase(digits, r.upper)
    && NumberOf(digits, base) == (if v < 0 then -v else v)
    && |digits| >= r.precision && |text| >= r.width
    && (before != "" ==> !r.left && !ZeroPadded(r) && |text| == r.width)
    && (after != "" ==> r.left && |text| == r.width)
    && (|digits| > 1 && digits[0] == '0' ==> |digits| == r.precision || (ZeroPadded(r) && |text| == r.width))
  }

  ghost predicate ShowsInteger(text: string, v: int, base: int, r: Request) {
    exists before, digits, after :: Parts(text, v, base, r, before, digits, after)
  }

  function RequestOf(width: int, precision: int, f: Flags): Request {
    Request(f.left, f.plus, f.space, f.alt, f.zero, f.signed, f.upper, width, precision)
  }

  lemma DigitCase(d: int, upper: bool)
    requires 0 <= d < 16
    ensures if upper then !('a' <= DigitChar(d, upper) <= 'z') else !('A' <= DigitChar(d, upper) <= 'Z')
  {
  }

  lemma {:induction false} RawDigitsOneCase(n: nat, base: int, upper: bool)
    requires IsBase(base)
    ensures OneCase(RawDigits(n, base, upper), upper)
    decreases n
  {
    if n != 0 {
      RawDigitsOneCase(n / base, base, upper);
      DigitCase(n % base, upper);
      hide DigitChar;
    }
  }

  /** Digits in one case, without leading zeros, that evaluate to the number. */
  lemma DigitsMean(n: Word, base: int, upper: bool)
    requires IsBase(base)
    ensures var s := Digits(n, base, upper);
            && s != "" && AllDigits(s, base) && OneCase(s, upper) && NumberOf(s, base) == n
            && (s[0] == '0' ==> s == "0")
  {
    DigitsAreDigits(n, base, upper);
    DigitsEvaluate(n, base, upper);
    RawDigitsOneCase(n, base, upper);
    if n > 0 {
      LeadingDigit(n, base, upper);
    }
  }

  lemma SignIs(number: Word, f: Flags, v: int, r: Request)
    requires Denotes(number, f.signed, v) && r.signed == f.signed && r.plus == f.plus && r.space == f.space
    ensures SignPart(number, f) == SignOf(v, r)
    ensures Magnitude(number, f) == if v < 0 then -v else v
  {
    DenotesIs(number, f.signed, v);
  }

  /** The padding of a field: blanks in front, zeros, and blanks behind. */
  lemma FieldParts(number: Word, base: int, width: int, precision: int, f: Flags, pad: int, zero: bool)
    returns (before: string, zeros: string, after: string)
    requires IsBase(base) && zero == (f.zero && precision < 0)
    requires pad == width - |SignPart(number, f)| - |PrefixPart(base, f)| - Max(precision, |DigitPart(number, base, f)|)
    ensures Field(number, base, width, precision, f) ==
            before + SignPart(number, f) + PrefixPart(base, f) + (zeros + DigitPart(number, base, f)) + after
    ensures All(before, ' ') && All(zeros, '0') && All(after, ' ')
    ensures |before| == if !zero && !f.left && pad > 0 then pad else 0
    ensures |after| == if f.left && pad > 0 then pad else 0
    ensures |zeros| == (if zero && !f.left && pad > 0 then pad else 0)
                       + Max(precision - |DigitPart(number, base, f)|, 0)
  {
    var sign, prefix, digits := SignPart(number, f), PrefixPart(base, f), DigitPart(number, base, f);
    before, after := Blanks(!zero && !f.left, ' ', pad), Blanks(f.left, ' ', pad);
    var fill, more := Blanks(zero && !f.left, '0', pad), Repeat('0', precision - |digits|);
    zeros := fill + more;
    assert Field(number, base, width, precision, f) == before + sign + prefix + fill + more + digits + after;
    assert |more| == Max(precision - |digits|, 0);
    hide *;
    BlanksAre(!zero && !f.left, ' ', pad);
    BlanksAre(f.left, ' ', pad);
    BlanksAre(zero && !f.left, '0', pad);
    RepeatAll('0', precision - |digits|);
    AllConcat(fill, more, '0');
    Regroup(before, sign, prefix, fill, more, digits, after);
  }

  lemma FieldLayout(number: Word, base: int, f: Flags, r: Request)
    returns (before: string, zeros: string, after: string)
    requires IsBase(base)
    requires r == RequestOf(r.width, r.precision, f)
    ensures var digits := DigitPart(number, base, f);
            var text := Field(number, base, r.width, r.precision, f);
            && text == before + SignPart(number, f) + PrefixPart(base, f) + (zeros + digits) + after
            && All(before, ' ') && All(zeros, '0') && All(after, ' ')
            && |zeros + digits| >= r.precision && |text| >= r.width
            && (before != "" ==> !r.left && !ZeroPadded(r) && |text| == r.width)
            && (after != "" ==> r.left && |text| == r.width)
            && (zeros != "" ==> |zeros + digits| == r.precision || (ZeroPadded(r) && |text| == r.width))
  {
    var zero := f.zero && r.precision < 0;
    assert r.left == f.left && (ZeroPadded(r) <==> zero && !f.left);
    hide *;
    var a, d := |SignPart(number, f)| + |PrefixPart(base, f)|, |DigitPart(number, base, f)|;
    var pad := r.width - a - Max(r.precision, d);
    before, zeros, after := FieldParts(number, base, r.width, r.precision, f, pad, zero);
    WidthIs(a, |before|, |zeros|, d, |after|, r.width, r.precision, pad, f.left, zero);
  }

  lemma BlanksAre(applies: bool, c: char, pad: int)
    ensures All(Blanks(applies, c, pad), c)
    ensures |Blanks(applies, c, pad)| == if applies && pad > 0 then pad else 0
  {
  }

  /** The lengths of the parts of a field add up to its width, or to what it needs. */
  lemma WidthIs(lead: int, before: int, zeros: int, digits: int, after: int, width: int, precision: int, pad: int,
                left: bool, zero: bool)
    requires pad == width - lead - Max(precision, digits) && (zero ==> precision < 0)
    requires before == if !zero && !left && pad > 0 then pad else 0
    requires after == if left && pad > 0 then pad else 0
    requires zeros == (if zero && !left && pad > 0 then pad else 0) + Max(precision - digits, 0)
    requires lead >= 0 && digits >= 0
    ensures zeros + digits >= precision && before + lead + zeros + digits + after >= width
    ensures before > 0 ==> !left && !(zero && !left) && before + lead + zeros + digits + after == width
    ensures after > 0 ==> left && before + lead + zeros + digits + after == width
    ensures zeros > 0 ==>
              zeros + digits == precision || (zero && !left && before + lead + zeros + digits + after == width)
  {
  }

  /** For every number, base, width, precision and flags, the field the code writes shows the integer that the
      argument stands for, in the way that was asked for. */
  lemma FieldShows(number: Word, base: int, width: int, precision: int, flags: Flags, v: int)
    requires IsBase(base) && Denotes(number, flags.signed, v)
    ensures ShowsInteger(Field(number, base, width, precision, flags), v, base, RequestOf(width, precision, flags))
  {
    var r, text := RequestOf(width, precision, flags), Field(number, base, width, precision, flags);
    var before, zeros, after := FieldLayout(number, base, flags, r);
    SignIs(number, flags, v, r);
    var digits := Digits(Magnitude(number, flags), base, flags.upper);
    DigitsMean(Magnitude(number, flags), base, flags.upper);
    assert PrefixPart(base, flags) == PrefixOf(base, r) && DigitPart(number, base, flags) == digits;
    hide *;
    ZerosMean(zeros, digits, base, flags.upper);
    PartsAre(text, v, base, r, before, zeros, digits, after);
  }

  lemma PartsAre(text: string, v: int, base: int, r: Request, before: string, zeros: string, digits: string,
                 after: string)
    requires text == before + SignOf(v, r) + PrefixOf(base, r) + (zeros + digits) + after
    requires All(before, ' ') && All(after, ' ')
    requires AllDigits(zeros + digits, base) && OneCase(zeros + digits, r.upper)
    requires NumberOf(zeros + digits, base) == if v < 0 then -v else v
    requires digits != "" && (digits[0] == '0' ==> digits == "0")
    requires |zeros + digits| >= r.precision && |text| >= r.width
    requires before != "" ==> !r.left && !ZeroPadded(r) && |text| == r.width
    requires after != "" ==> r.left && |text| == r.width
    requires zeros != "" ==> |zeros + digits| == r.precision || (ZeroPadded(r) && |text| == r.width)
    ensures ShowsInteger(text, v, base, r)
  {
    hide All, AllDigits, OneCase, SignOf, PrefixOf, ZeroPadded, NumberOf;
    if zeros == "" {
      assert zeros + digits == digits;
    }
    assert Parts(text, v, base, r, before, zeros + digits, after);
  }

  lemma ZerosMean(zeros: string, digits: string, base: int, upper: bool)
    requires IsBase(base) && All(zeros, '0') && AllDigits(digits, base) && OneCase(digits, upper)
    ensures AllDigits(zeros + digits, base) && OneCase(zeros + digits, upper)
    ensures NumberOf(zeros + digits, base) == NumberOf(digits, base)
  {
    LeadingZeros(zeros, digits, base);
  }
}
