/** Integer fields of the printf engine (console.c): what bound_string_format_integer writes. */
module IntegerField {
  import opened Words

  datatype Flags = Flags(left: bool, plus: bool, space: bool, alt: bool, zero: bool, upper: bool, signed: bool)

  const NO_FLAGS := Flags(false, false, false, false, false, false, false)

  predicate IsBase(base: int) { base == 8 || base == 10 || base == 16 }

  // ----- digits -----

  function DigitChar(d: int, upper: bool): char
    requires 0 <= d < 16
  {
    if upper then "0123456789ABCDEF"[d] else "0123456789abcdef"[d]
  }

  function DigitValue(c: char): int {
    if '0' <= c <= '9' then c as int - '0' as int
    else if 'a' <= c <= 'f' then c as int - 'a' as int + 10
    else if 'A' <= c <= 'F' then c as int - 'A' as int + 10
    else 0
  }

  /** A digit of the base, with letters in either case. */
  predicate IsDigitOf(c: char, base: int) {
    ('0' <= c <= '9' || 'a' <= c <= 'f' || 'A' <= c <= 'F') && DigitValue(c) < base
  }

  ghost predicate AllDigits(s: string, base: int) { forall i :: 0 <= i < |s| ==> IsDigitOf(s[i], base) }

  lemma DigitValueOfChar(d: int, upper: bool)
    requires 0 <= d < 16
    ensures DigitValue(DigitChar(d, upper)) == d
    ensures d < 10 ==> '0' <= DigitChar(d, upper) <= '9'
    ensures forall base :: d < base ==> IsDigitOf(DigitChar(d, upper), base)
  {
  }

  /** The digits of n, most significant first; none for 0. */
  function RawDigits(n: nat, base: int, upper: bool): string
    requires IsBase(base)
    decreases n
  {
    if n == 0 then [] else RawDigits(n / base, base, upper) + [DigitChar(n % base, upper)]
  }

  function Digits(n: nat, base: int, upper: bool): string
    requires IsBase(base)
  {
    if n == 0 then "0" else RawDigits(n, base, upper)
  }

  /** The number a digit string stands for. */
  function NumberOf(s: string, base: int): int {
    if s == [] then 0 else NumberOf(s[..|s| - 1], base) * base + DigitValue(s[|s| - 1])
  }

  lemma {:induction false} RawDigitsEvaluate(n: nat, base: int, upper: bool)
    requires IsBase(base)
    ensures NumberOf(RawDigits(n, base, upper), base) == n
    decreases n
  {
    if n != 0 {
      RawDigitsEvaluate(n / base, base, upper);
      DigitValueOfChar(n % base, upper);
      NumberOfSnoc(RawDigits(n / base, base, upper), DigitChar(n % base, upper), base);
      DivMod(n, base);
    }
  }

  lemma {:induction false} RawDigitsAreDigits(n: nat, base: int, upper: bool)
    requires IsBase(base)
    ensures AllDigits(RawDigits(n, base, upper), base)
    decreases n
  {
    if n != 0 {
      RawDigitsAreDigits(n / base, base, upper);
      DigitValueOfChar(n % base, upper);
    }
  }

  lemma NumberOfSnoc(s: string, c: char, base: int)
    ensures NumberOf(s + [c], base) == NumberOf(s, base) * base + DigitValue(c)
  {
    assert (s + [c])[..|s|] == s;
  }

  lemma DivMod(n: nat, base: int)
    requires IsBase(base)
    ensures n / base * base + n % base == n
  {
  }

  lemma DigitsEvaluate(n: nat, base: int, upper: bool)
    requires IsBase(base)
    ensures NumberOf(Digits(n, base, upper), base) == n
  {
    RawDigitsEvaluate(n, base, upper);
    if n == 0 {
      assert Digits(n, base, upper)[..0] == [];
      assert NumberOf("0", base) == NumberOf([], base) * base + DigitValue('0');
    }
  }

  function Pow8(k: nat): nat { if k == 0 then 1 else 8 * Pow8(k - 1) }

  lemma {:induction false} RawDigitsLength(n: nat, base: int, upper: bool, k: nat)
    requires IsBase(base) && n < Pow8(k)
    ensures |RawDigits(n, base, upper)| <= k
    decreases n
  {
    if n != 0 {
      assert n / base <= n / 8 < Pow8(k - 1) by {
        if base == 8 {} else if base == 10 {} else {}
      }
      RawDigitsLength(n / base, base, upper, k - 1);
    }
  }

  /** A 32-bit number has at most 11 digits, so the 23-byte scratch buffer is never exceeded. */
  lemma DigitsFitScratch(n: Word, base: int, upper: bool)
    requires IsBase(base)
    ensures |RawDigits(n, base, upper)| <= 11
    ensures 1 <= |Digits(n, base, upper)| <= 11
  {
    assert Pow8(4) == 4096;
    assert Pow8(8) == 4096 * Pow8(4);
    assert Pow8(11) == 512 * Pow8(8);
    RawDigitsLength(n, base, upper, 11);
  }

  /** A number is written without leading zeros. */
  lemma {:induction false} LeadingDigit(n: nat, base: int, upper: bool)
    requires IsBase(base) && n > 0
    ensures |RawDigits(n, base, upper)| > 0 && RawDigits(n, base, upper)[0] != '0'
    decreases n
  {
    if n / base > 0 {
      LeadingDigit(n / base, base, upper);
    } else {
      assert RawDigits(n / base, base, upper) == "";
      assert n % base == n;
      DigitValueOfChar(n, upper);
    }
  }

  // ----- the field -----

  function IsNegative(number: Word, flags: Flags): bool { flags.signed && number >= 0x8000_0000 }

  /** The absolute value of the number under the chosen signedness. */
  function Magnitude(number: Word, flags: Flags): Word {
    if IsNegative(number, flags) then WORD_LIMIT - number else number
  }

  function SignPart(number: Word, flags: Flags): string {
    if !flags.signed then ""
    else if number >= 0x8000_0000 then "-"
    else if flags.plus then "+"
    else if flags.space then " "
    else ""
  }

  /** The alternative form prefixes 0 also to the number 0, and 0x also to it. */
  function PrefixPart(base: int, flags: Flags): string {
    if !flags.alt || base == 10 then ""
    else if base == 16 then (if flags.upper then "0X" else "0x")
    else "0"
  }

  function DigitPart(number: Word, base: int, flags: Flags): string
    requires IsBase(base)
  {
    Digits(Magnitude(number, flags), base, flags.upper)
  }

  /** The whole field: padding to `width` on the left with spaces, after sign and prefix with
      zeros, or on the right with spaces. */
  function Field(number: Word, base: int, width: int, precision: int, flags: Flags): string
    requires IsBase(base)
  {
    var sign, prefix, digits := SignPart(number, flags), PrefixPart(base, flags), DigitPart(number, base, flags);
    var pad := width - |sign| - |prefix| - Max(precision, |digits|);
    var zero := flags.zero && precision < 0;
    Blanks(!zero && !flags.left, ' ', pad) + sign + prefix + Blanks(zero && !flags.left, '0', pad)
    + Repeat('0', precision - |digits|) + digits + Blanks(flags.left, ' ', pad)
  }

  /** Padding, where it applies. */
  function Blanks(applies: bool, c: char, pad: int): string {
    if applies then Repeat(c, pad) else ""
  }

  /** The field is as wide as asked for, or as its contents need. */
  lemma FieldLength(number: Word, base: int, width: int, precision: int, flags: Flags)
    requires IsBase(base)
    ensures |Field(number, base, width, precision, flags)| ==
            Max(width, |SignPart(number, flags)| + |PrefixPart(base, flags)|
                       + Max(precision, |DigitPart(number, base, flags)|))
  {
  }

  ghost predicate All(s: string, c: char) { forall i :: 0 <= i < |s| ==> s[i] == c }

  lemma {:induction false} LeadingZeros(zeros: string, s: string, base: int)
    requires All(zeros, '0')
    ensures NumberOf(zeros + s, base) == NumberOf(s, base)
  {
    if s == [] {
      assert zeros + s == zeros;
      AllZeros(zeros, base);
    } else {
      LeadingZeros(zeros, s[..|s| - 1], base);
      assert (zeros + s)[..|zeros + s| - 1] == zeros + s[..|s| - 1];
    }
  }

  lemma {:induction false} AllZeros(zeros: string, base: int)
    requires All(zeros, '0')
    ensures NumberOf(zeros, base) == 0
  {
    if zeros != [] {
      AllZeros(zeros[..|zeros| - 1], base);
    }
  }

  /** Stripping blanks, the sign and the prefix leaves digits that evaluate to the magnitude. */
  lemma FieldEvaluates(number: Word, base: int, width: int, precision: int, flags: Flags)
    returns (before: string, digits: string, after: string)
    requires IsBase(base)
    ensures Field(number, base, width, precision, flags) ==
            before + SignPart(number, flags) + PrefixPart(base, flags) + digits + after
    ensures All(before, ' ') && All(after, ' ')
    ensures digits != [] && AllDigits(digits, base)
    ensures NumberOf(digits, base) ==
            if flags.signed && number >= 0x8000_0000 then 0x1_0000_0000 - number else number
    ensures SignPart(number, flags) == "-" <==> flags.signed && number >= 0x8000_0000
  {
    var raw := DigitPart(number, base, flags);
    var zeros;
    before, zeros, after := FieldSplit(number, base, width, precision, flags);
    digits := zeros + raw;
    DigitsEvaluate(Magnitude(number, flags), base, flags.upper);
    DigitsFitScratch(Magnitude(number, flags), base, flags.upper);
    LeadingZeros(zeros, raw, base);
    DigitsAreDigits(Magnitude(number, flags), base, flags.upper);
    ZerosThenDigits(zeros, raw, base);
  }

  lemma DigitsAreDigits(n: nat, base: int, upper: bool)
    requires IsBase(base)
    ensures AllDigits(Digits(n, base, upper), base)
  {
    RawDigitsAreDigits(n, base, upper);
  }

  lemma ZerosThenDigits(zeros: string, digits: string, base: int)
    requires IsBase(base) && All(zeros, '0') && AllDigits(digits, base)
    ensures AllDigits(zeros + digits, base)
  {
  }

  /** The parts of a field: blanks, sign, prefix, digits with their leading zeros, blanks. */
  lemma FieldSplit(number: Word, base: int, width: int, precision: int, flags: Flags)
    returns (before: string, zeros: string, after: string)
    requires IsBase(base)
    ensures Field(number, base, width, precision, flags) ==
            before + SignPart(number, flags) + PrefixPart(base, flags)
            + (zeros + DigitPart(number, base, flags)) + after
    ensures All(before, ' ') && All(zeros, '0') && All(after, ' ')
  {
    hide Blanks, SignPart, PrefixPart, DigitPart, All;
    RepeatAll('0', precision - |DigitPart(number, base, flags)|);
    var digits := DigitPart(number, base, flags);
    var pad := width - |SignPart(number, flags)| - |PrefixPart(base, flags)| - Max(precision, |digits|);
    var zero := flags.zero && precision < 0;
    before := Blanks(!zero && !flags.left, ' ', pad);
    after := Blanks(flags.left, ' ', pad);
    var fill, more := Blanks(zero && !flags.left, '0', pad), Repeat('0', precision - |digits|);
    zeros := fill + more;
    BlanksAll(zero && !flags.left, '0', pad);
    AllConcat(fill, more, '0');
    BlanksAll(!zero && !flags.left, ' ', pad);
    BlanksAll(flags.left, ' ', pad);
    Regroup(before, SignPart(number, flags), PrefixPart(base, flags), fill, more, digits, after);
  }

  lemma RepeatAll(c: char, k: int)
    ensures All(Repeat(c, k), c)
  {
  }

  lemma AllConcat(s: string, t: string, c: char)
    requires All(s, c) && All(t, c)
    ensures All(s + t, c)
  {
  }

  lemma BlanksAll(applies: bool, c: char, pad: int)
    ensures All(Blanks(applies, c, pad), c)
  {
  }

  lemma Regroup(a: string, b: string, c: string, d: string, e: string, f: string, g: string)
    ensures a + b + c + d + e + f + g == a + b + c + ((d + e) + f) + g
  {
  }

  // ----- parse_int -----

  predicate IsDigit(c: char) { '0' <= c <= '9' }

  /** The character of a C string at index i; the terminator just past its end. */
  function At(s: string, i: nat): char { if i < |s| then s[i] else '\0' }

  datatype Parsed = Parsed(value: int, next: nat)

  /** The decimal number starting at index i, with acc already read. */
  function ParseInt(s: string, i: nat, acc: int): Parsed
    decreases |s| - i
  {
    if i < |s| && IsDigit(s[i]) then ParseInt(s, i + 1, acc * 10 + (s[i] as int - '0' as int))
    else Parsed(acc, i)
  }

  lemma {:induction false} ParseIntStops(s: string, i: nat, acc: int)
    requires i <= |s|
    ensures var r := ParseInt(s, i, acc);
            i <= r.next <= |s| && !IsDigit(At(s, r.next))
            && forall k :: i <= k < r.next ==> IsDigit(s[k])
    decreases |s| - i
  {
    if i < |s| && IsDigit(s[i]) {
      ParseIntStops(s, i + 1, acc * 10 + (s[i] as int - '0' as int));
    }
  }

  ghost predicate Decimal(s: string) { forall i :: 0 <= i < |s| ==> IsDigit(s[i]) }

  lemma {:induction false} RawDigitsDecimal(n: nat, upper: bool)
    ensures Decimal(RawDigits(n, 10, upper))
    decreases n
  {
    if n != 0 {
      RawDigitsDecimal(n / 10, upper);
      DigitValueOfChar(n % 10, upper);
    }
  }

  /** Reading a prefix of digits accumulates its value. */
  lemma {:induction false} ParseIntReads(s: string, k: nat)
    requires k <= |s| && Decimal(s[..k])
    ensures ParseInt(s, 0, 0) == ParseInt(s, k, NumberOf(s[..k], 10))
  {
    if k > 0 {
      assert s[..k][..k - 1] == s[..k - 1];
      assert s[..k][k - 1] == s[k - 1];
      assert forall i :: 0 <= i < k - 1 ==> s[..k - 1][i] == s[..k][i];
      ParseIntReads(s, k - 1);
      assert IsDigit(s[..k][k - 1]);
    }
  }

  /** parse_int reads back the unpadded decimal output of the integer formatter, whatever
      non-digit follows, and stops there. */
  lemma ParseIntRoundTrip(n: Word, rest: string)
    requires rest == "" || !IsDigit(rest[0])
    ensures var s := Field(n, 10, -1, -1, NO_FLAGS);
            ParseInt(s + rest, 0, 0) == Parsed(n, |s|)
  {
    var s := Field(n, 10, -1, -1, NO_FLAGS);
    DigitsFitScratch(n, 10, false);
    assert s == Digits(n, 10, false);
    RawDigitsDecimal(n, false);
    DigitsEvaluate(n, 10, false);
    assert (s + rest)[..|s|] == s;
    ParseIntReads(s + rest, |s|);
    assert At(s + rest, |s|) == At(rest, 0);
  }

  /** While it does so for a number of at most 2^31 - 1, no intermediate value exceeds an int. */
  lemma {:induction false} ParseIntDoesNotOverflow(n: nat, k: nat)
    requires n < 0x8000_0000 && k <= |RawDigits(n, 10, false)|
    ensures 0 <= NumberOf(RawDigits(n, 10, false)[..k], 10) < 0x8000_0000
    decreases n
  {
    var s := RawDigits(n, 10, false);
    if k == |s| {
      assert s[..k] == s;
      RawDigitsEvaluate(n, 10, false);
    } else {
      assert s[..k] == RawDigits(n / 10, 10, false)[..k];
      ParseIntDoesNotOverflow(n / 10, k);
    }
  }

  /** Every value on the way, the last one included, is an int exactly for these numbers. */
  lemma ParseIntFitsIff(n: Word)
    ensures n < 0x8000_0000 <==>
            forall k: nat :: k <= |RawDigits(n, 10, false)| ==>
              0 <= NumberOf(RawDigits(n, 10, false)[..k], 10) < 0x8000_0000
  {
    var s := RawDigits(n, 10, false);
    if n < 0x8000_0000 {
      forall k: nat | k <= |s| ensures 0 <= NumberOf(s[..k], 10) < 0x8000_0000 {
        ParseIntDoesNotOverflow(n, k);
      }
    } else {
      RawDigitsEvaluate(n, 10, false);
      assert s[..|s|] == s;
    }
  }
}
