/** The printf engine of console.c, writing into a bounded buffer. */
module Printf {
  import opened Words
  import opened IntegerField
  import opened Formatter

  /** The `string`/`end` pair of pointers that bound_string_putchar advances, over the array that
      holds the destination.  `out` is everything written through it, whether it fitted or not. */
  class BoundedString {
    const s: array<char>
    const start: nat
    const end: nat
    var pos: nat
    ghost const before: seq<char>
    ghost var out: string

    ghost predicate Valid()
      reads this, s
    {
      && start <= end <= s.Length && |before| == s.Length
      && pos == start + |out|
      && forall k :: 0 <= k < s.Length ==>
           s[k] == if start <= k < end && k < pos then out[k - start] else before[k]
    }

    constructor (s: array<char>, start: nat, n: nat)
      requires start + n <= s.Length
      ensures Valid() && this.s == s && this.start == start && end == start + n
      ensures out == "" && before == s[..]
    {
      this.s, this.start, this.end := s, start, start + n;
      pos := start;
      before := s[..];
      out := "";
    }

    /** bound_string_putchar. */
    method Put(c: char)
      requires Valid()
      modifies this, s
      ensures Valid() && out == old(out) + [c]
    {
      if pos < end {
        s[pos] := c;
      }
      pos := pos + 1;
      out := out + [c];
    }

    /** The loop `while (width-- > 0) putchar(c)`, and the width it leaves. */
    method Pad(c: char, width: int) returns (left: int)
      requires Valid()
      modifies this, s
      ensures Valid() && out == old(out) + Repeat(c, width)
      ensures left == Min(width, 0) - 1
    {
      left := width;
      while left > 0
        invariant Valid() && left >= Min(width, 0) && (width > 0 ==> left >= 0) && left <= width
        invariant out == old(out) + Repeat(c, width - left)
      {
        Put(c);
        left := left - 1;
        assert Repeat(c, width - left) == Repeat(c, width - left - 1) + [c];
      }
      left := left - 1;
    }
  }

  /** The digits of `number` in the scratch buffer, least significant first. */
  function Backwards(s: string): (r: string)
    ensures |r| == |s|
  {
    if s == "" then "" else [s[|s| - 1]] + Backwards(s[..|s| - 1])
  }

  lemma BackwardsSnoc(s: string, c: char)
    ensures Backwards(s + [c]) == [c] + Backwards(s)
  {
    assert (s + [c])[..|s|] == s;
  }

  /** One more character in the buffer. */
  method StoreDigit(buffer: array<char>, length: nat, c: char)
    requires length < buffer.Length
    modifies buffer
    ensures buffer[..length + 1] == old(buffer[..length]) + [c]
  {
    buffer[length] := c;
  }

  /** One turn of the digit loop moves the last digit of n to the end of the scratch text. */
  lemma DigitStep(digits: string, n: nat, base: int, upper: bool, written: string)
    requires IsBase(base) && n != 0
    requires digits == RawDigits(n, base, upper) + Backwards(written)
    ensures digits == RawDigits(n / base, base, upper) + Backwards(written + [DigitChar(n % base, upper)])
    ensures |RawDigits(n, base, upper)| == |RawDigits(n / base, base, upper)| + 1
  {
    var high, c := RawDigits(n / base, base, upper), DigitChar(n % base, upper);
    BackwardsSnoc(written, c);
    assert RawDigits(n, base, upper) == high + [c];
    Join3(high, [c], Backwards(written));
  }

  /** The digit loop of bound_string_format_integer, into its 23-byte scratch buffer. */
  method DigitsBackwards(number: Word, base: int, upper: bool, buffer: array<char>) returns (length: nat)
    requires IsBase(base) && buffer.Length == 23
    modifies buffer
    ensures 1 <= length <= 11 && Backwards(buffer[..length]) == Digits(number, base, upper)
  {
    DigitsFitScratch(number, base, upper);
    var n: Word := number;
    length := 0;
    if n == 0 {
      buffer[0] := '0';
      length := 1;
      assert buffer[..1] == "" + ['0'];
      BackwardsSnoc("", '0');
    } else {
      ghost var digits := RawDigits(number, base, upper);
      assert digits + "" == digits && buffer[..0] == "";
      RawDigitsOfZero(base, upper);
      assert 2 <= base <= 16;
      hide RawDigits, Backwards, DigitChar, Digits, IsBase;
      while n != 0
        invariant length + |RawDigits(n, base, upper)| == |digits|
        invariant digits == RawDigits(n, base, upper) + Backwards(buffer[..length])
        decreases n
      {
        DigitStep(digits, n, base, upper, buffer[..length]);
        StoreDigit(buffer, length, DigitChar(n % base, upper));
        length := length + 1;
        Shrinks(n, base);
        n := n / base;
      }
    }
  }

  lemma RawDigitsOfZero(base: int, upper: bool)
    requires IsBase(base)
    ensures RawDigits(0, base, upper) == "" && Backwards("") == ""
    ensures forall s: string :: "" + s == s
  {
  }

  lemma Shrinks(n: Word, base: int)
    requires IsBase(base) && n != 0
    ensures 0 <= n / base < n
  {
  }

  function SignText(sign: Option<char>): string { if sign.Some? then [sign.value] else "" }

  function PrefixText(hexPrefix: bool, octPrefix: bool, flags: Flags): string {
    if hexPrefix then (if flags.upper then "0X" else "0x") else if octPrefix then "0" else ""
  }

  /** The text of a field after `out`, from its sign, prefix and digits and the padding owed. */
  function Pieces(out: string, sign: string, prefix: string, zero: bool, left: bool, pad: int, zeros: int,
                  digits: string): string
  {
    out + Blanks(!zero && !left, ' ', pad) + sign + prefix + Blanks(zero && !left, '0', pad)
    + Repeat('0', zeros) + digits + Blanks(left, ' ', pad)
  }

  /** The printing half of bound_string_format_integer: sign, prefix and digits are known, and
      `left` is the padding still owed. */
  method PutField(w: BoundedString, sign: Option<char>, hexPrefix: bool, octPrefix: bool, flags: Flags, zero: bool,
                  left0: int, zeros: int, buffer: array<char>, length: nat)
    requires w.Valid() && length <= buffer.Length && buffer != w.s
    modifies w, w.s
    ensures w.Valid()
    ensures w.out == Pieces(old(w.out), SignText(sign), PrefixText(hexPrefix, octPrefix, flags), zero, flags.left,
                            left0, zeros, old(Backwards(buffer[..length])))
  {
    var left := PutLead(w, sign, hexPrefix, octPrefix, flags, zero, left0);
    var _ := w.Pad('0', zeros);
    PutBackwards(w, buffer, length);
    assert buffer[..length] == old(buffer[..length]);
    ghost var text := w.out;
    var _ := w.Pad(' ', left);
    assert w.out == text + Blanks(flags.left, ' ', left0);
  }

  /** Blanks, sign, prefix and zero padding; the padding left over is owed on the right. */
  method PutLead(w: BoundedString, sign: Option<char>, hexPrefix: bool, octPrefix: bool, flags: Flags, zero: bool,
                 left0: int) returns (left: int)
    requires w.Valid()
    modifies w, w.s
    ensures w.Valid()
    ensures w.out == old(w.out) + Blanks(!zero && !flags.left, ' ', left0) + SignText(sign)
                     + PrefixText(hexPrefix, octPrefix, flags) + Blanks(zero && !flags.left, '0', left0)
    ensures if flags.left then left == left0 else left <= 0
  {
    left := left0;
    ghost var text := w.out + Blanks(!zero && !flags.left, ' ', left0);
    if !zero && !flags.left {
      left := w.Pad(' ', left);
    }
    assert w.out == text;
    text := text + SignText(sign);
    if sign.Some? {
      w.Put(sign.value);
    }
    assert w.out == text;
    text := text + PrefixText(hexPrefix, octPrefix, flags);
    if hexPrefix || octPrefix {
      w.Put('0');
      if hexPrefix {
        w.Put(if flags.upper then 'X' else 'x');
      }
    }
    assert w.out == text;
    text := text + Blanks(zero && !flags.left, '0', left0);
    if !flags.left {
      left := w.Pad(if zero then '0' else ' ', left);
    }
    assert w.out == text;
  }

  /** The loop that prints the scratch buffer from its end. */
  method PutBackwards(w: BoundedString, buffer: array<char>, length0: nat)
    requires w.Valid() && length0 <= buffer.Length && buffer != w.s
    modifies w, w.s
    ensures w.Valid() && w.out == old(w.out) + Backwards(buffer[..length0])
  {
    var length := length0;
    ghost var reversed := buffer[..length0];
    assert reversed[..length] == reversed;
    while length > 0
      invariant w.Valid() && 0 <= length <= length0 && buffer[..length0] == reversed
      invariant w.out + Backwards(reversed[..length]) == old(w.out) + Backwards(reversed)
    {
      length := length - 1;
      assert reversed[..length + 1] == reversed[..length] + [reversed[length]];
      BackwardsSnoc(reversed[..length], reversed[length]);
      ghost var out := w.out;
      w.Put(buffer[length]);
      assert w.out + Backwards(reversed[..length]) == out + ([reversed[length]] + Backwards(reversed[..length]));
    }
  }

  /** The sign processing of bound_string_format_integer. */
  method TakeSign(number: Word, width: int, flags: Flags) returns (sign: Option<char>, magnitude: Word, left: int)
    ensures SignText(sign) == SignPart(number, flags) && magnitude == Magnitude(number, flags)
    ensures left == width - |SignPart(number, flags)|
    ensures magnitude == if flags.signed && number >= 0x8000_0000 then 0x1_0000_0000 - number else number
    ensures sign == Some('-') <==> flags.signed && number >= 0x8000_0000
  {
    sign, magnitude, left := None, number, width;
    if flags.signed {
      if number >= 0x8000_0000 {
        magnitude := WORD_LIMIT - number;
        sign := Some('-');
        left := left - 1;
      } else if flags.plus {
        sign := Some('+');
        left := left - 1;
      } else if flags.space {
        sign := Some(' ');
        left := left - 1;
      }
    }
  }

  /** bound_string_format_integer. */
  method FormatInteger(w: BoundedString, number: Word, base: int, width: int, precision: int, flags: Flags)
    requires w.Valid() && IsBase(base)
    modifies w, w.s
    ensures w.Valid() && w.out == old(w.out) + Field(number, base, width, precision, flags)
  {
    hide *;
    var zero := flags.zero && precision < 0;
    var sign, magnitude, left := TakeSign(number, width, flags);
    var buffer := new char[23];
    var length := DigitsBackwards(magnitude, base, flags.upper, buffer);
    var shown := if length > precision then length else precision;
    left := left - shown;

    var prefixNeeded := flags.alt && base != 10;
    left := left - (if prefixNeeded then (if base == 16 then 2 else 1) else 0);
    PrefixTextIs(base, flags);
    DigitTextIs(number, base, flags, buffer[..length]);
    FieldPieces(w.out, number, base, width, precision, flags, left);
    PutField(w, sign, prefixNeeded && base == 16, prefixNeeded, flags, zero, left, shown - length, buffer, length);
  }

  lemma PrefixTextIs(base: int, flags: Flags)
    requires IsBase(base)
    ensures var needed := flags.alt && base != 10;
            && PrefixText(needed && base == 16, needed, flags) == PrefixPart(base, flags)
            && |PrefixPart(base, flags)| == if needed then (if base == 16 then 2 else 1) else 0
  {
  }

  lemma DigitTextIs(number: Word, base: int, flags: Flags, reversed: string)
    requires IsBase(base) && Backwards(reversed) == Digits(Magnitude(number, flags), base, flags.upper)
    ensures Backwards(reversed) == DigitPart(number, base, flags)
    ensures |DigitPart(number, base, flags)| == |reversed|
    ensures forall precision: int ::
              Max(precision, |reversed|) == if |reversed| > precision then |reversed| else precision
  {
    hide Backwards;
  }

  lemma FieldPieces(out: string, number: Word, base: int, width: int, precision: int, flags: Flags, pad: int)
    requires IsBase(base)
    requires pad == width - |SignPart(number, flags)| - |PrefixPart(base, flags)|
                    - Max(precision, |DigitPart(number, base, flags)|)
    ensures var digits := DigitPart(number, base, flags);
            Pieces(out, SignPart(number, flags), PrefixPart(base, flags), flags.zero && precision < 0, flags.left,
                   pad, Max(precision, |digits|) - |digits|, digits)
            == out + Field(number, base, width, precision, flags)
  {
    var zero, digits := flags.zero && precision < 0, DigitPart(number, base, flags);
    PrecisionZeros(precision, |digits|);
    hide SignPart, PrefixPart, DigitPart, Repeat, Blanks, Max;
    Join(out, Blanks(!zero && !flags.left, ' ', pad), SignPart(number, flags), PrefixPart(base, flags),
         Blanks(zero && !flags.left, '0', pad), Repeat('0', precision - |digits|), digits,
         Blanks(flags.left, ' ', pad));
  }

  lemma PrecisionZeros(precision: int, n: nat)
    ensures Repeat('0', Max(precision, n) - n) == Repeat('0', precision - n)
  {
  }

  lemma Join(o: string, a: string, b: string, c: string, d: string, e: string, f: string, g: string)
    ensures o + a + b + c + d + e + f + g == o + (a + b + c + d + e + f + g)
  {
  }

  /** parse_int. */
  method ReadInt(s: string, i: nat) returns (value: int, next: nat)
    ensures Parsed(value, next) == ParseInt(s, i, 0)
  {
    value, next := 0, i;
    while next < |s| && IsDigit(s[next])
      invariant ParseInt(s, next, value) == ParseInt(s, i, 0)
      decreases |s| - next
    {
      value := value * 10;
      value := value + (s[next] as int - '0' as int);
      next := next + 1;
    }
  }

  /** The flag loop of vsnprintf, and the two overriding rules after it. */
  method ScanFlags(fmt: CString, i: nat) returns (flags: Flags, format: nat)
    ensures format == ReadFlags(fmt, i, NO_FLAGS).next
    ensures flags == Normal(ReadFlags(fmt, i, NO_FLAGS).flags)
  {
    flags, format := NO_FLAGS, i;
    while true
      invariant ReadFlags(fmt, format, flags) == ReadFlags(fmt, i, NO_FLAGS)
      decreases |fmt| - format
    {
      var c := At(fmt, format);
      if c == '#' {
        flags := flags.(alt := true);
      } else if c == '0' {
        flags := flags.(zero := true);
      } else if c == '+' {
        flags := flags.(plus := true);
      } else if c == ' ' {
        flags := flags.(space := true);
      } else if c == '-' {
        flags := flags.(left := true);
      } else {
        break;
      }
      format := format + 1;
    }
    assert ReadFlags(fmt, i, NO_FLAGS) == FlagsRead(flags, format);
    if flags.plus {
      flags := flags.(space := false);
    }
    if flags.left {
      flags := flags.(zero := false);
    }
  }

  /** The width of a directive: a number, or the next argument. */
  method ScanWidth(fmt: CString, d: Directive) returns (r: Option<Directive>)
    requires d.width == -1
    ensures r == ReadWidth(fmt, d)
  {
    var width, flags, format, args := -1, d.flags, d.next, d.args;
    if At(fmt, format) == '*' {
      format := format + 1;
      if args == [] || !args[0].IntArg? {
        return None;
      }
      width := Int(args[0].word);
      args := args[1..];
      if width < 0 {
        width := -width;
        flags := flags.(left := true);
      }
    } else if IsDigit(At(fmt, format)) {
      width, format := ReadInt(fmt, format);
    }
    r := Some(d.(flags := flags, width := width, next := format, args := args));
  }

  /** The precision of a directive. */
  method ScanPrecision(fmt: CString, d: Directive) returns (r: Option<Directive>)
    requires d.precision == -1
    ensures r == ReadPrecision(fmt, d)
  {
    var precision, format, args := -1, d.next, d.args;
    if At(fmt, format) == '.' {
      format := format + 1;
      if IsDigit(At(fmt, format)) {
        precision, format := ReadInt(fmt, format);
      } else if At(fmt, format) == '*' {
        format := format + 1;
        if args == [] || !args[0].IntArg? {
          return None;
        }
        precision := Int(args[0].word);
        args := args[1..];
      }
      if precision < 0 {
        precision := 0;
      }
    }
    r := Some(d.(precision := precision, next := format, args := args));
  }

  /** The part of vsnprintf that reads flags, width, precision and qualifier. */
  method ScanDirective(fmt: CString, i: nat, va: seq<Arg>) returns (d: Option<Directive>)
    ensures d == ReadDirective(fmt, i, va)
  {
    var flags, format := ScanFlags(fmt, i);
    d := ScanWidth(fmt, Directive(flags, -1, -1, '\0', format, va));
    if d.None? {
      return;
    }
    d := ScanPrecision(fmt, d.value);
    if d.None? {
      return;
    }
    var c := At(fmt, d.value.next);
    if c == 'h' || c == 'l' || c == 'L' {
      d := Some(d.value.(qualifier := c, next := d.value.next + 1));
    }
  }

  /** bound_string_length: the length of a string, but at most count; a negative count is no bound. */
  method BoundLength(text: CString, count0: int) returns (length: nat)
    ensures length == if 0 <= count0 < |text| then count0 else |text|
  {
    var at, count := 0, count0;
    length := 0;
    while At(text, at) != '\0' && count != 0
      invariant at == length <= |text| && count == count0 - length
      invariant count0 >= 0 ==> count >= 0
      decreases |text| - at
    {
      at := at + 1;
      count := count - 1;
      length := length + 1;
    }
  }

  /** The %c case of vsnprintf. */
  method PutCharField(w: BoundedString, c: char, width0: int, leftFlag: bool)
    requires w.Valid()
    modifies w, w.s
    ensures w.Valid() && w.out == old(w.out) + CharField(c, width0, leftFlag)
  {
    var width := width0;
    ghost var out0 := w.out;
    if !leftFlag {
      width := w.Pad(' ', width - 1);
      width := width + 1;
    }
    ghost var lead := if leftFlag then "" else Repeat(' ', width0 - 1);
    w.Put(c);
    assert w.out == out0 + (lead + [c]);
    var _ := w.Pad(' ', width - 1);
    assert w.out == out0 + (lead + [c] + if leftFlag then Repeat(' ', width0 - 1) else "");
    assert lead + [c] + (if leftFlag then Repeat(' ', width0 - 1) else "") == CharField(c, width0, leftFlag);
  }

  /** The %s case of vsnprintf. */
  method PutStringField(w: BoundedString, text: CString, width0: int, precision: int, leftFlag: bool)
    requires w.Valid()
    modifies w, w.s
    ensures w.Valid() && w.out == old(w.out) + StringField(text, width0, precision, leftFlag)
  {
    var width := width0;
    ghost var out0 := w.out;
    var length := BoundLength(text, precision);
    ghost var shown := text[..length];
    if !leftFlag {
      width := w.Pad(' ', width - length);
      width := width + length;
    }
    ghost var lead := if leftFlag then "" else Repeat(' ', width0 - length);
    assert w.out == out0 + lead;
    for i := 0 to length
      invariant w.Valid() && w.out == out0 + lead + text[..i]
    {
      w.Put(text[i]);
      assert text[..i + 1] == text[..i] + [text[i]];
    }
    ghost var trail := if leftFlag then Repeat(' ', width0 - length) else "";
    StringPieces(out0, text, width0, precision, leftFlag, lead, shown, trail);
    assert w.out == out0 + lead + shown && Repeat(' ', width - length) == trail;
    hide StringField, Repeat, Min;
    var _ := w.Pad(' ', width - length);
  }

  lemma StringPieces(out: string, text: CString, width: int, precision: int, leftFlag: bool,
                     lead: string, shown: string, trail: string)
    requires shown == if 0 <= precision < |text| then text[..precision] else text
    requires lead == if leftFlag then "" else Repeat(' ', width - |shown|)
    requires trail == if leftFlag then Repeat(' ', width - |shown|) else ""
    ensures out + lead + shown + trail == out + StringField(text, width, precision, leftFlag)
  {
    Join3(out + lead, shown, trail);
    Join3(out, lead, shown + trail);
  }

  /** The switch of vsnprintf over the conversion character. */
  method PutConversion(w: BoundedString, d: Directive, c: char) returns (args: seq<Arg>)
    requires w.Valid() && Convert(d, c).Some?
    modifies w, w.s
    ensures w.Valid() && Convert(d, c).value.args == args
    ensures w.out == old(w.out) + Convert(d, c).value.text
  {
    args := d.args;
    if c == '%' {
      w.Put('%');
    } else if c == 'c' {
      PutCharField(w, (args[0].word % 256) as char, d.width, d.flags.left);
      args := args[1..];
    } else if c == 's' {
      PutStringField(w, args[0].text, d.width, d.precision, d.flags.left);
      args := args[1..];
    } else if c == 'p' {
      var width, flags := d.width, d.flags;
      if width == -1 {
        width := 8;
        flags := flags.(zero := true);
      }
      FormatInteger(w, args[0].word, 16, width, d.precision, flags);
      args := args[1..];
    } else if c == 'o' || c == 'd' || c == 'i' || c == 'u' || c == 'x' || c == 'X' {
      var base := if c == 'o' then 8 else if c == 'x' || c == 'X' then 16 else 10;
      var flags := d.flags.(signed := c == 'd' || c == 'i', upper := c == 'X');
      var number := Qualified(args[0].word, d.qualifier, flags.signed);
      FormatInteger(w, number, base, d.width, d.precision, flags);
      args := args[1..];
    } else {
      assert w.out == w.out + "";
    }
  }

  /** What a call of vsnprintf leaves in the destination: nothing if n is 0, otherwise the first n-1
      bytes of the text, or all of it, and a terminator. */
  function Bounded(before: seq<char>, start: nat, n: nat, text: string): seq<char>
    requires start + n <= |before|
  {
    if n == 0 then before
    else
      var k := Min(n - 1, |text|);
      before[..start] + text[..k] + ['\0'] + before[start + k + 1..]
  }

  /** The destination holds a prefix of the text, as long as fits, and then a terminator; no other
      byte changes, and in particular none at or beyond the bound. */
  lemma BoundedIsPrefix(before: seq<char>, start: nat, n: nat, text: string)
    requires start + n <= |before|
    ensures var after, k := Bounded(before, start, n, text), Min(n - 1, |text|);
            && |after| == |before|
            && (n > 0 ==> after[start..start + k] == text[..k] && after[start + k] == '\0')
            && (forall j :: 0 <= j < |before| && !(start <= j <= start + k) ==> after[j] == before[j])
            && (n > |text| ==> after[start..start + |text|] == text)
  {
    var after, k := Bounded(before, start, n, text), Min(n - 1, |text|);
    if n > 0 {
      assert after[start..start + k] == text[..k];
    }
  }

  /** vsnprintf into the n bytes of s that begin at `start`.  The result does not depend on n, and no
      byte outside the bound changes. */
  method Vsnprintf(s: array<char>, start: nat, n: nat, format: CString, va: seq<Arg>) returns (ret: nat)
    requires start + n <= s.Length && Format(format, va).Some?
    modifies s
    ensures ret == |Format(format, va).value|
    ensures s[..] == Bounded(old(s[..]), start, n, Format(format, va).value)
  {
    ghost var text := Format(format, va).value;
    hide *;
    FormatIsRender(format, va);
    var w := new BoundedString(s, start, n);
    var i, args := 0, va;
    assert "" + text == text;
    while i < |format|
      invariant w.Valid() && w.s == s && w.start == start && w.end == start + n && fresh(w)
      invariant w.before == old(s[..])
      invariant Render(format, i, args).Some? && text == w.out + Render(format, i, args).value
      decreases |format| - i
    {
      ghost var out := w.out;
      if format[i] != '%' {
        RenderChar(format, i, args);
        w.Put(format[i]);
        i := i + 1;
        Join3(out, [format[i - 1]], Render(format, i, args).value);
      } else {
        i, args := PutDirective(w, format, i, args);
      }
    }
    RenderEnd(format, i, args);
    assert w.out == text;
    Terminate(w);
    ret := w.pos - start;
  }

  /** One directive of vsnprintf, from its percent sign: what it shows moves from the text to come to the output. */
  method PutDirective(w: BoundedString, format: CString, i: nat, va: seq<Arg>) returns (next: nat, args: seq<Arg>)
    requires w.Valid() && i < |format| && format[i] == '%' && Render(format, i, va).Some?
    modifies w, w.s
    ensures w.Valid() && next > i && Render(format, next, args).Some?
    ensures old(w.out) + Render(format, i, va).value == w.out + Render(format, next, args).value
  {
    hide *;
    ghost var out := w.out;
    RenderDirective(format, i, va);
    var d := ScanDirective(format, i + 1, va);
    ghost var piece := Convert(d.value, At(format, d.value.next)).value;
    args := PutConversion(w, d.value, At(format, d.value.next));
    next := d.value.next + 1;
    Join3(out, piece.text, Render(format, next, args).value);
  }

  /** The end of vsnprintf: the terminator, inside the bound. */
  method Terminate(w: BoundedString)
    requires w.Valid()
    modifies w.s
    ensures w.start <= w.end <= w.s.Length == |w.before| && w.pos == w.start + |w.out|
    ensures w.s[..] == Bounded(w.before, w.start, w.end - w.start, w.out)
  {
    if w.end - w.start > 0 {
      if w.pos < w.end {
        w.s[w.pos] := '\0';
      } else {
        w.s[w.end - 1] := '\0';
      }
      Terminated(w.s[..], w.before, w.start, w.end - w.start, w.out);
    } else {
      assert w.s[..] == w.before;
    }
  }

  lemma FormatIsRender(fmt: string, args: seq<Arg>)
    ensures Format(fmt, args) == Render(fmt, 0, args)
  {
  }

  lemma RenderChar(fmt: string, i: nat, args: seq<Arg>)
    requires i < |fmt| && fmt[i] != '%' && Render(fmt, i, args).Some?
    ensures Render(fmt, i + 1, args).Some?
    ensures Render(fmt, i, args).value == [fmt[i]] + Render(fmt, i + 1, args).value
  {
  }

  lemma RenderDirective(fmt: string, i: nat, args: seq<Arg>)
    requires i < |fmt| && fmt[i] == '%' && Render(fmt, i, args).Some?
    ensures var d := ReadDirective(fmt, i + 1, args);
            && d.Some? && d.value.next > i
            && var piece := Convert(d.value, At(fmt, d.value.next));
               && piece.Some?
               && Render(fmt, d.value.next + 1, piece.value.args).Some?
               && Render(fmt, i, args).value == piece.value.text + Render(fmt, d.value.next + 1, piece.value.args).value
  {
    ReadDirectiveAdvances(fmt, i + 1, args);
  }

  lemma RenderEnd(fmt: string, i: nat, args: seq<Arg>)
    requires i >= |fmt|
    ensures Render(fmt, i, args) == Some("")
    ensures forall out: string :: out + "" == out
  {
  }

  lemma Terminated(s: seq<char>, before: seq<char>, start: nat, n: nat, text: string)
    requires |s| == |before| && n > 0 && start + n <= |s|
    requires var k := Min(n - 1, |text|);
             forall j :: 0 <= j < |s| ==>
               s[j] == if start <= j < start + k then text[j - start] else if j == start + k then '\0' else before[j]
    ensures s == Bounded(before, start, n, text)
  {
  }
}
