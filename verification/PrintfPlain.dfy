/**
 * Directives without flags, width or precision, character by character: the formats
 * are strings, the digits are listed, and what an argument counts for is said by its
 * range and its residue.  Nothing here is taken from the printer's own tables.
 */
module PrintfPlain {
  import opened Bytes
  import opened CStrings
  import opened Numerals
  import opened PrintfGrammar
  import opened PrintfDirective
  import Iso = PrintfIso
  import P = Printf

  /** A minus for a negative number, and its digits, which start with a zero only for zero. */
  ghost predicate ShowsNumber(s: seq<char>, v: int, alphabet: seq<char>) {
    var n := if v < 0 && s != [] then s[1..] else s;
    && (v < 0 ==> s != [] && s[0] == '-')
    && n != [] && Uses(n, alphabet) && Denoted(n, alphabet) == (if v < 0 then -v else v) && (n[0] == '0' <==> v == 0)
  }

  lemma PlainField(v: uint64, negative: bool, base: nat, f: P.Flags)
    requires (base == 8 || base == 10 || base == 16) && (negative ==> base == 10 && v != 0)
    requires !f.left && !f.zeropad && !f.plus && !f.space && !f.hash && !f.precision
    ensures
      var s, n: int := P.IntField(v, negative, base, 0, 0, f), v;
      ShowsNumber(s, if negative then -n else n, Alphabet(base, f.upper))
  {
    hide Numeral, P.IntField, Alphabet, Denoted;
    var n := Numeral(v, base, f.upper);
    assert Repeat('0', 0 - |n|) + n == n;
    assert Iso.Sign(negative, f) + Iso.Prefix(v, base, n, f) == if negative then "-" else "";
    Iso.SignLength(negative, f);
    Iso.IntFieldIsIso(v, negative, base, 0, 0, f);
    NumeralIs(v, base, f.upper);
    assert Iso.IsoField(v, negative, base, 0, 0, f) == (if negative then "-" else "") + n;
    if negative { assert ("-" + n)[1..] == n; } else { assert [] + n == n; }
  }

  /** One directive is the whole format: the text is that of its conversion. */
  lemma OneDirective(fmt: seq<char>, s: Spec, c: char, args: seq<P.Arg>)
    requires IsSpec(s) && IsConversion(c) && fmt == "%" + (SpecText(s) + [c])
    ensures P.Render(fmt, 0, args) == P.Convert(c, Taken(s, 1, args)).0
  {
    hide P.Render, P.ReadDirective, Taken, SpecText, IsSpec, IsConversion, P.Convert;
    assert fmt[1..] == SpecText(s) + ([c] + []) && fmt[0] == '%';
    SpecRead(fmt, 1, s, c, [], args);
    TakenAt(s, 1, args);
    P.RenderStep(fmt, 0, args);
    P.RenderEnd(fmt, |fmt|, P.Convert(c, Taken(s, 1, args)).1);
    P.AppendEmpty(P.Convert(c, Taken(s, 1, args)).0);
  }

  lemma TakenAt(s: Spec, i: nat, args: seq<P.Arg>)
    ensures Taken(s, i, args).at == i + |SpecText(s)|
  {
    hide SpecText;
  }

  /** One plain directive, with the argument counted as its length and conversion say. */
  lemma PlainDirective(fmt: seq<char>, l: Length, c: char, bits: uint64)
    requires IsoConversion(c) && fmt == "%" + (LengthText(l) + [c])
    ensures
      var v := if IsSigned(c) && l.Char? then bits % 0x100
               else if IsSigned(c) then AsSigned(l, bits) else AsUnsigned(l, bits);
      ShowsNumber(P.Render(fmt, 0, [P.Word(bits)]), v, Alphabet(P.BaseOf(c), c == 'X'))
  {
    hide P.Render, P.IntegerText, Taken, ShowsNumber, AsSigned, AsUnsigned, Alphabet, P.BaseOf;
    var s := Spec([], Absent, Absent, l);
    assert SpecText(s) == LengthText(l);
    OneDirective(fmt, s, c, [P.Word(bits)]);
    PlainConverted(s, c, bits);
  }

  lemma PlainConverted(s: Spec, c: char, bits: uint64)
    requires IsoConversion(c) && s.flags == [] && s.width == Absent && s.precision == Absent
    ensures
      var v := if IsSigned(c) && s.length.Char? then bits % 0x100
               else if IsSigned(c) then AsSigned(s.length, bits) else AsUnsigned(s.length, bits);
      ShowsNumber(P.IntegerText(c, Taken(s, 1, [P.Word(bits)])), v, Alphabet(P.BaseOf(c), c == 'X'))
  {
    hide P.IntegerText, P.IntField, Taken, ShowsNumber, AsSigned, AsUnsigned, Alphabet, IsoFlags, IsoValue, P.BaseOf,
         NegativeByte, Width, Precision, NegativePrecision, Remaining;
    var args := [P.Word(bits)];
    PlainFlags(s, c, args);
    PlainValue(s, c, args);
    FieldOf(s, 1, c, args);
    var v := if NegativeByte(s, c, args) then bits % 0x100 else IsoValue(s, c, args);
    PlainField(P.Magnitude(v), v < 0, P.BaseOf(c), IsoFlags(s, c, args));
  }

  lemma PlainFlags(s: Spec, c: char, args: seq<P.Arg>)
    requires s.flags == [] && s.width == Absent && s.precision == Absent
    ensures
      var f := IsoFlags(s, c, args);
      !f.left && !f.zeropad && !f.plus && !f.space && !f.hash && !f.precision && f.upper == (c == 'X')
    ensures Width(s, args) == 0 && Precision(s, args) == 0 && !NegativePrecision(s, args) && Remaining(s, args) == args
    ensures IsoConversion(c) ==> P.BaseOf(c) == 8 || P.BaseOf(c) == 10 || P.BaseOf(c) == 16
  {
  }

  lemma PlainValue(s: Spec, c: char, args: seq<P.Arg>)
    requires s.width == Absent && s.precision == Absent && args != [] && args[0].Word? && IsoConversion(c)
    ensures
      var bits := args[0].bits;
      var v := if NegativeByte(s, c, args) then bits % 0x100 else IsoValue(s, c, args);
      v == (if IsSigned(c) && s.length.Char? then bits % 0x100
            else if IsSigned(c) then AsSigned(s.length, bits) else AsUnsigned(s.length, bits)) &&
      (v < 0 ==> P.BaseOf(c) == 10)
  {
  }

  // ---- The formats

  /** A number of so many bits that differs from the argument by a multiple of their power. */
  predicate Counts(v: int, bits: uint64, half: nat) {
    half > 0 && 0 - half <= v < half && (v - bits) % (2 * half) == 0
  }

  lemma Short16(bits: uint64, v: int)
    requires Counts(v, bits, 0x8000)
    ensures P.Signed16(bits) == v
  {
    var q := (v - bits) / 0x1_0000;
    assert v == bits + 0x1_0000 * q;
  }

  lemma Plain32(bits: uint64, v: int)
    requires Counts(v, bits, 0x8000_0000)
    ensures P.Signed32(bits) == v
  {
    var q := (v - bits) / 0x1_0000_0000;
    assert v == bits + 0x1_0000_0000 * q;
  }

  lemma Long64(bits: uint64, v: int)
    requires Counts(v, bits, 0x8000_0000_0000_0000)
    ensures P.Signed64(bits) == v
  {
    var q := (v - bits) / 0x1_0000_0000_0000_0000;
    assert v == bits + 0x1_0000_0000_0000_0000 * q;
  }

  /** d and i of the three sizes: the argument as a two's complement number. */
  lemma DecimalShown(bits: uint64, v: int)
    ensures Counts(v, bits, 0x8000_0000) ==> ShowsNumber(P.Render("%d", 0, [P.Word(bits)]), v, "0123456789")
    ensures Counts(v, bits, 0x8000_0000) ==> ShowsNumber(P.Render("%i", 0, [P.Word(bits)]), v, "0123456789")
    ensures Counts(v, bits, 0x8000) ==> ShowsNumber(P.Render("%hd", 0, [P.Word(bits)]), v, "0123456789")
    ensures Counts(v, bits, 0x8000_0000_0000_0000) ==>
      ShowsNumber(P.Render("%ld", 0, [P.Word(bits)]), v, "0123456789")
  {
    hide ShowsNumber, P.Render, P.Signed16, P.Signed32, P.Signed64, Counts, Alphabet;
    Alphabets();
    if Counts(v, bits, 0x8000_0000) {
      Plain32(bits, v);
      PlainDirective("%d", Length.Plain, 'd', bits);
      PlainDirective("%i", Length.Plain, 'i', bits);
    }
    if Counts(v, bits, 0x8000) {
      Short16(bits, v);
      PlainDirective("%hd", Short, 'd', bits);
    }
    if Counts(v, bits, 0x8000_0000_0000_0000) {
      Long64(bits, v);
      PlainDirective("%ld", Long, 'd', bits);
    }
  }

  /** u, x, X and o of the sizes: the argument modulo the power of its bits. */
  lemma UnsignedShown(bits: uint64)
    ensures ShowsNumber(P.Render("%u", 0, [P.Word(bits)]), bits % 0x1_0000_0000, "0123456789")
    ensures ShowsNumber(P.Render("%x", 0, [P.Word(bits)]), bits % 0x1_0000_0000, "0123456789abcdef")
    ensures ShowsNumber(P.Render("%X", 0, [P.Word(bits)]), bits % 0x1_0000_0000, "0123456789ABCDEF")
    ensures ShowsNumber(P.Render("%o", 0, [P.Word(bits)]), bits % 0x1_0000_0000, "01234567")
    ensures ShowsNumber(P.Render("%hhu", 0, [P.Word(bits)]), bits % 0x100, "0123456789")
    ensures ShowsNumber(P.Render("%hx", 0, [P.Word(bits)]), bits % 0x1_0000, "0123456789abcdef")
    ensures ShowsNumber(P.Render("%lX", 0, [P.Word(bits)]), bits, "0123456789ABCDEF")
  {
    hide ShowsNumber, P.Render, Alphabet;
    Alphabets();
    PlainDirective("%u", Length.Plain, 'u', bits);
    PlainDirective("%x", Length.Plain, 'x', bits);
    PlainDirective("%X", Length.Plain, 'X', bits);
    PlainDirective("%o", Length.Plain, 'o', bits);
    PlainDirective("%hhu", Char, 'u', bits);
    PlainDirective("%hx", Short, 'x', bits);
    PlainDirective("%lX", Long, 'X', bits);
  }

  lemma PlainText(fmt: seq<char>, c: char, args: seq<P.Arg>)
    requires (c == 'c' || c == 's') && fmt == "%" + [c]
    ensures
      var s := Spec([], Absent, Absent, Length.Plain);
      P.Render(fmt, 0, args) == IsoChars(s, c, args) && Remaining(s, args) == args && !FlagsOf(s, args).precision
  {
    hide P.Render, P.ReadDirective, P.Convert, IsoChars, Blanked, Has;
    var s := Spec([], Absent, Absent, Length.Plain);
    assert fmt[1..] == SpecText(s) + ([c] + []) && fmt[0] == '%';
    DirectiveIsIso(fmt, 1, s, c, [], args);
    P.RenderStep(fmt, 0, args);
    P.RenderEnd(fmt, 2, P.Rest(args));
    BlankedNone(IsoChars(s, c, args), FlagsOf(s, args).left);
    P.AppendEmpty(IsoChars(s, c, args));
  }

  /** c prints the character, s the string, a double percent sign one of them. */
  lemma TextShown(bits: uint64, text: seq<char>)
    ensures P.Render("%c", 0, [P.Word(bits)]) == [(bits % 0x100) as char]
    ensures P.Render("%s", 0, [P.Str(text)]) == text
    ensures P.Render("%%", 0, []) == "%"
  {
    hide P.Render, FlagsOf, Remaining;
    PlainText("%c", 'c', [P.Word(bits)]);
    PlainText("%s", 's', [P.Str(text)]);
    OtherShown('%');
    assert "%" + ['%'] == "%%";
  }

  /** A character that neither continues a specification nor converts anything stands for itself. */
  lemma OtherShown(c: char)
    requires c !in {' ', '+', '-', '#', '*', '.', 'l', 'h', 't', 'j', 'z'} && !('0' <= c <= '9')
    requires c !in {'d', 'i', 'u', 'x', 'X', 'o', 'b', 'c', 's', 'p'}
    ensures P.Render("%" + [c], 0, []) == [c]
  {
    hide P.Render, Taken;
    var s := Spec([], Absent, Absent, Length.Plain);
    assert SpecText(s) + [c] == [c];
    OneDirective("%" + [c], s, c, []);
  }

  // ---- Pointers and binary numbers

  /** p shows the 64 bits of its argument as sixteen digits in capitals. */
  lemma PointerShown(bits: uint64)
    ensures
      var s := P.Render("%p", 0, [P.Word(bits)]);
      |s| == 16 && Uses(s, "0123456789ABCDEF") && Denoted(s, "0123456789ABCDEF") == bits
  {
    hide P.Render, P.IntField, Numeral, Alphabet, Denoted, Taken;
    Alphabets();
    var s := Spec([], Absent, Absent, Length.Plain);
    assert SpecText(s) + ['p'] == "p";
    OneDirective("%p", s, 'p', [P.Word(bits)]);
    PointerConverted(s, bits);
    var n := Numeral(bits, 16, true);
    NumeralIs(bits, 16, true);
    SixteenDigits(bits);
    LeadingZeros(16 - |n|, n, "0123456789ABCDEF");
  }

  lemma PointerConverted(s: Spec, bits: uint64)
    requires s == Spec([], Absent, Absent, Length.Plain)
    ensures
      var n := Numeral(bits, 16, true);
      P.Convert('p', Taken(s, 1, [P.Word(bits)])).0 == Repeat('0', 16 - |n|) + n
  {
    hide P.IntField, Numeral;
    var n := Numeral(bits, 16, true);
    var f := P.NO_FLAGS.(zeropad := true, upper := true);
    Iso.IntFieldIsIso(bits, false, 16, 0, 16, f);
    assert Repeat('0', 0 - |n|) + n == n;
    var body := Iso.Body(bits, 16, 0, f);
    assert Iso.Sign(false, f) + Iso.Prefix(bits, 16, body, f) == [];
    assert [] + Repeat('0', 16 - |n|) + n == Repeat('0', 16 - |n|) + n;
  }

  lemma SixteenDigits(bits: uint64)
    ensures |Numeral(bits, 16, true)| <= 16
  {
    hide Numeral;
    Powers();
    DigitCount(bits, 16, true, 64);
  }

  function Power(b: nat, n: nat): nat {
    if n == 0 then 1 else b * Power(b, n - 1)
  }

  lemma {:induction false} PowerAdd(b: nat, m: nat, n: nat)
    ensures Power(b, m + n) == Power(b, m) * Power(b, n)
    decreases m
  {
    if m > 0 {
      PowerAdd(b, m - 1, n);
      assert b * (Power(b, m - 1) * Power(b, n)) == b * Power(b, m - 1) * Power(b, n);
    }
  }

  /** A number of so many bits has no more binary digits, and a quarter of that in base 16. */
  lemma {:induction false} DigitCount(v: nat, base: nat, upper: bool, n: nat)
    requires v < Power(2, n) && n >= 1 && (base == 2 || (base == 16 && n % 4 == 0))
    ensures |Numeral(v, base, upper)| <= (if base == 2 then n else n / 4)
    decreases n
  {
    var step := if base == 2 then 1 else 4;
    if v >= base {
      assert n > step by { assert Power(2, 4) == 16; }
      PowerAdd(2, step, n - step);
      assert Power(2, step) == base;
      DigitCount(Quotient(v, base), base, upper, n - step);
    }
  }

  /** b shows the low 32 bits of its argument in binary. */
  lemma BinaryShown(bits: uint64)
    ensures ShowsNumber(P.Render("%b", 0, [P.Word(bits)]), bits % 0x1_0000_0000, "01")
  {
    hide P.Render, P.IntegerText, Numeral, Taken, ShowsNumber;
    var s, v := Spec([], Absent, Absent, Length.Plain), bits % 0x1_0000_0000;
    assert SpecText(s) + ['b'] == "b";
    OneDirective("%b", s, 'b', [P.Word(bits)]);
    BinaryConverted(s, bits);
    BinaryNumeral(v);
  }

  lemma BinaryNumeral(v: nat)
    ensures ShowsNumber(Numeral(v, 2, false), v, "01")
  {
    hide Numeral, Denoted;
    NumeralIs(v, 2, false);
    assert Alphabet(2, false) == "01";
  }

  lemma BinaryConverted(s: Spec, bits: uint64)
    requires s == Spec([], Absent, Absent, Length.Plain)
    ensures P.IntegerText('b', Taken(s, 1, [P.Word(bits)])) == Numeral(bits % 0x1_0000_0000, 2, false)
  {
    hide Numeral, P.IntField;
    var d := Taken(s, 1, [P.Word(bits)]);
    BinaryField(bits % 0x1_0000_0000, P.IntFlags('b', d.flags));
  }

  lemma {:induction false} BinaryField(v: uint64, f: P.Flags)
    requires v < 0x1_0000_0000
    requires !f.left && !f.zeropad && !f.plus && !f.space && !f.hash && !f.precision && !f.upper
    ensures P.IntField(v, false, 2, 0, 0, f) == Numeral(v, 2, false)
  {
    hide Numeral, LowDigits, Power;
    ThirtyTwoDigits(v);
    LowDigitsReverse(v, 2, false, P.NTOA_BUFFER_SIZE);
    var n := Numeral(v, 2, false);
    assert P.Digits(v, 2, f) == Reverse(n);
    assert P.FormatRev(Reverse(n), false, 2, 0, 0, f) == Reverse(n);
    assert Reverse(Reverse(n)) == n && [] + n + [] == n;
  }

  lemma ThirtyTwoDigits(v: nat)
    requires v < 0x1_0000_0000
    ensures |Numeral(v, 2, false)| <= 32
  {
    hide Numeral;
    Powers();
    DigitCount(v, 2, false, 32);
  }

  lemma Powers()
    ensures Power(2, 32) == 0x1_0000_0000 && Power(2, 64) == 0x1_0000_0000_0000_0000
  {
    assert Power(2, 8) == 0x100;
    PowerAdd(2, 8, 8);
    PowerAdd(2, 16, 16);
    PowerAdd(2, 32, 32);
  }

  // ---- Flags and widths

  lemma {:induction false} DenotedIsValue(s: seq<char>)
    requires Uses(s, "0123456789")
    ensures AllDigits(s, 10) && Value(s, 10) == Denoted(s, "0123456789")
  {
    hide Alphabet, Denoted, Uses, Value;
    Alphabets();
    DenotesValue(s, 10, false);
  }

  /** An integer directive that meets its condition, as the whole format. */
  lemma IsoShown(s: Spec, c: char, args: seq<P.Arg>)
    requires IsSpec(s) && IsoConversion(c) && AsIso(s, c, args)
    ensures P.Render("%" + (SpecText(s) + [c]), 0, args) == IsoText(s, c, args)
  {
    hide P.Render, P.IntegerText, SpecText, IsSpec, IsoText, AsIso, Taken;
    OneDirective("%" + (SpecText(s) + [c]), s, c, args);
    TextIsIso(s, 1, c, args);
  }

  /** Flags other than #, and a width in digits or none. */
  ghost predicate Simple(s: Spec) {
    && IsSpec(s) && !s.width.Star? && s.precision == Absent && s.length.Plain? && '#' !in s.flags
    && (s.width.Given? ==> Value(s.width.digits, 10) < 0x1_0000_0000)
    && ('0' in s.flags && '-' !in s.flags && s.width.Given? ==> Value(s.width.digits, 10) <= 32)
  }

  lemma SimpleText(s: Spec, bits: uint64, v: int)
    requires Simple(s) && Counts(v, bits, 0x8000_0000)
    ensures
      var f := FlagsOf(s, [P.Word(bits)]);
      P.Render("%" + (SpecText(s) + ['d']), 0, [P.Word(bits)])
      == Iso.IsoField(if v < 0 then -v else v, v < 0, 10, 0, if s.width.Given? then Value(s.width.digits, 10) else 0, f)
  {
    hide P.Render, SpecText, IsSpec, Numeral, Value, Iso.IsoField, P.Signed32;
    var args := [P.Word(bits)];
    Plain32(bits, v);
    assert Remaining(s, args) == args;
    assert P.Bits(args) == bits;
    assert IsoValue(s, 'd', args) == v;
    SameFlags(IsoFlags(s, 'd', args), FlagsOf(s, args));
    IsoShown(s, 'd', args);
  }

  lemma Fields(m: nat, negative: bool, w: nat, f: P.Flags)
    requires !f.hash && !f.precision && !f.upper
    ensures
      var sign, n := Iso.Sign(negative, f), Numeral(m, 10, false);
      var fill := w - |sign + n|;
      Iso.IsoField(m, negative, 10, 0, w, f)
      == if f.left then sign + n + Repeat(' ', fill)
         else if f.zeropad then sign + (Repeat('0', fill) + n) else Repeat(' ', fill) + (sign + n)
  {
    hide Numeral, Iso.Sign;
    var sign, n := Iso.Sign(negative, f), Numeral(m, 10, false);
    assert Repeat('0', 0 - |n|) + n == n && sign + [] == sign;
  }

  lemma GivenText(flags: seq<char>, digits: seq<char>)
    ensures SpecText(Spec(flags, Given(digits), Absent, Length.Plain)) == flags + digits
    ensures SpecText(Spec(flags, Absent, Absent, Length.Plain)) == flags
  {
  }

  /** d with nothing else: the sign of a negative number and its digits. */
  lemma Unadorned(bits: uint64, v: int)
    requires Counts(v, bits, 0x8000_0000)
    ensures P.Render("%d", 0, [P.Word(bits)])
         == (if v < 0 then "-" else "") + Numeral(if v < 0 then -v else v, 10, false)
  {
    hide P.Render, Numeral, Iso.IsoField, SpecText;
    var s := Spec([], Absent, Absent, Length.Plain);
    GivenText([], []);
    assert [] + "d" == "d" && "%" + "d" == "%d";
    SimpleText(s, bits, v);
    var m := if v < 0 then -v else v;
    Fields(m, v < 0, 0, FlagsOf(s, [P.Word(bits)]));
    var t := Iso.Sign(v < 0, FlagsOf(s, [P.Word(bits)])) + Numeral(m, 10, false);
    assert Repeat(' ', 0 - |t|) + t == t;
  }

  /** d with a width: blanks in front, or behind under the minus flag. */
  lemma WidthShown(bits: uint64, v: int, digits: seq<char>, w: nat)
    requires Counts(v, bits, 0x8000_0000) && ShowsNumber(digits, w, "0123456789") && 0 < w < 0x1_0000_0000
    ensures
      var args := [P.Word(bits)];
      var s := P.Render("%d", 0, args);
      && P.Render("%" + (digits + "d"), 0, args) == Repeat(' ', w - |s|) + s
      && P.Render("%-" + (digits + "d"), 0, args) == s + Repeat(' ', w - |s|)
  {
    hide P.Render, Numeral, SpecText, Value, Denoted, Counts, Uses, Repeat;
    DenotedIsValue(digits);
    Unadorned(bits, v);
    Justified([], bits, v, digits);
    Justified(['-'], bits, v, digits);
    assert "%" + (([] + digits) + ['d']) == "%" + (digits + "d");
    assert "%" + ((['-'] + digits) + ['d']) == "%-" + (digits + "d");
  }

  lemma {:induction false} Justified(flags: seq<char>, bits: uint64, v: int, digits: seq<char>)
    requires Counts(v, bits, 0x8000_0000) && Simple(Spec(flags, Given(digits), Absent, Length.Plain))
    requires flags == [] || flags == ['-']
    ensures
      var s := (if v < 0 then "-" else "") + Numeral(if v < 0 then -v else v, 10, false);
      P.Render("%" + ((flags + digits) + ['d']), 0, [P.Word(bits)])
      == if flags == [] then Repeat(' ', Value(digits, 10) - |s|) + s else s + Repeat(' ', Value(digits, 10) - |s|)
  {
    hide P.Render, Numeral, Iso.IsoField, SpecText, Value, Counts, Simple, Repeat;
    var s := Spec(flags, Given(digits), Absent, Length.Plain);
    GivenText(flags, digits);
    SimpleText(s, bits, v);
    Fields(if v < 0 then -v else v, v < 0, Value(digits, 10), FlagsOf(s, [P.Word(bits)]));
  }

  /** Zeros under the zero flag, behind the minus, up to 32 places. */
  lemma ZerosShown(bits: uint64, v: int, digits: seq<char>, w: nat)
    requires Counts(v, bits, 0x8000_0000) && ShowsNumber(digits, w, "0123456789") && 0 < w <= 32
    ensures
      var args := [P.Word(bits)];
      var s := P.Render("%d", 0, args);
      P.Render("%0" + (digits + "d"), 0, args)
      == if v < 0 && s != [] then "-" + (Repeat('0', w - |s|) + s[1..]) else Repeat('0', w - |s|) + s
  {
    hide P.Render, Numeral, Iso.IsoField, SpecText, Value, Denoted, Counts, Uses;
    DenotedIsValue(digits);
    Unadorned(bits, v);
    var zeros := Spec(['0'], Given(digits), Absent, Length.Plain);
    GivenText(['0'], digits);
    assert "%" + ((['0'] + digits) + ['d']) == "%0" + (digits + "d");
    SimpleText(zeros, bits, v);
    Fields(if v < 0 then -v else v, v < 0, w, FlagsOf(zeros, [P.Word(bits)]));
  }

  /** In a wider field there are 32 places, and a minus has none of them. */
  lemma ZerosCut(bits: uint64, v: int, digits: seq<char>, w: nat)
    requires Counts(v, bits, 0x8000_0000) && ShowsNumber(digits, w, "0123456789") && 32 < w < 0x1_0000_0000
    ensures
      var args := [P.Word(bits)];
      var s := P.Render("%d", 0, args);
      var n := if v < 0 && s != [] then s[1..] else s;
      P.Render("%0" + (digits + "d"), 0, args) == Repeat('0', 32 - |n|) + n
  {
    hide P.Render, P.IntField, Numeral, SpecText, Value, Denoted, Counts, Uses, Taken, P.IntegerText, P.Signed32;
    hide Repeat;
    DenotedIsValue(digits);
    Unadorned(bits, v);
    var s, args := Spec(['0'], Given(digits), Absent, Length.Plain), [P.Word(bits)];
    GivenText(['0'], digits);
    assert "%" + ((['0'] + digits) + ['d']) == "%0" + (digits + "d");
    OneDirective("%0" + (digits + "d"), s, 'd', args);
    assert IsoValue(s, 'd', args) == v by { Plain32(bits, v); }
    FieldOf(s, 1, 'd', args);
    FullField(if v < 0 then -v else v, v < 0, w, IsoFlags(s, 'd', args));
  }

  lemma FullField(v: uint64, negative: bool, w: uint32, f: P.Flags)
    requires w > 32 && f.zeropad && !f.left && !f.plus && !f.space && !f.hash && !f.precision && !f.upper
    ensures
      var n := Numeral(v, 10, false);
      P.IntField(v, negative, 10, 0, w, f) == Repeat('0', 32 - |n|) + n
  {
    hide P.IntField, Numeral;
    Numeral64(v, 10, false);
    Iso.FieldShape(v, negative, 10, 0, w, f);
    var body := Repeat('0', 32 - |Numeral(v, 10, false)|) + Numeral(v, 10, false);
    assert [] + body + [] == body;
  }

  /** The flags that show a sign of every number. */
  lemma SignsShown(bits: uint64, v: int)
    requires Counts(v, bits, 0x8000_0000)
    ensures
      var args := [P.Word(bits)];
      var s := P.Render("%d", 0, args);
      && P.Render("%+d", 0, args) == (if v < 0 then s else "+" + s)
      && P.Render("% d", 0, args) == (if v < 0 then s else " " + s)
  {
    hide P.Render, Numeral, Iso.IsoField, SpecText, Counts;
    Unadorned(bits, v);
    SignShown('+', "%+d", bits, v);
    SignShown(' ', "% d", bits, v);
  }

  lemma SignShown(sign: char, fmt: seq<char>, bits: uint64, v: int)
    requires (sign == '+' || sign == ' ') && fmt == ['%', sign, 'd'] && Counts(v, bits, 0x8000_0000)
    ensures P.Render(fmt, 0, [P.Word(bits)])
         == [if v < 0 then '-' else sign] + Numeral(if v < 0 then -v else v, 10, false)
  {
    hide P.Render, Numeral, Iso.IsoField, SpecText;
    var s, m := Spec([sign], Absent, Absent, Length.Plain), if v < 0 then -v else v;
    GivenText([sign], []);
    assert fmt == "%" + ([sign] + ['d']);
    SimpleText(s, bits, v);
    var f := FlagsOf(s, [P.Word(bits)]);
    Fields(m, v < 0, 0, f);
    var t := Iso.Sign(v < 0, f) + Numeral(m, 10, false);
    assert Repeat(' ', 0 - |t|) + t == t;
  }

  /** d with a precision: zeros between the sign and the digits, up to 31 digits. */
  lemma PrecisionShown(bits: uint64, v: int, digits: seq<char>, w: nat)
    requires Counts(v, bits, 0x8000_0000) && ShowsNumber(digits, w, "0123456789") && 0 < w <= 31
    ensures
      var args := [P.Word(bits)];
      var s := P.Render("%d", 0, args);
      P.Render("%." + (digits + "d"), 0, args)
      == if v < 0 && s != [] then "-" + (Repeat('0', w + 1 - |s|) + s[1..]) else Repeat('0', w - |s|) + s
  {
    hide P.Render, Numeral, Iso.IsoField, SpecText, Value, Denoted, Uses;
    DenotedIsValue(digits);
    Unadorned(bits, v);
    var s, args := Spec([], Absent, Given(digits), Length.Plain), [P.Word(bits)];
    PreciseText(digits);
    assert "%" + (("." + digits) + ['d']) == "%." + (digits + "d");
    Plain32(bits, v);
    var f, m := IsoFlags(s, 'd', args), if v < 0 then -v else v;
    Iso.SignLength(v < 0, f);
    assert IsoValue(s, 'd', args) == v by { hide Counts; }
    IsoShown(s, 'd', args);
    PreciseField(m, v < 0, w, f);
  }

  lemma PreciseText(digits: seq<char>)
    ensures SpecText(Spec([], Absent, Given(digits), Length.Plain)) == "." + digits
  {
    assert [] + ([] + (("." + digits) + [])) == "." + digits;
  }

  lemma PreciseField(m: nat, negative: bool, w: nat, f: P.Flags)
    requires !f.hash && !f.left && !f.zeropad && !f.plus && !f.space && f.precision && !f.upper && w > 0
    ensures
      var n := Numeral(m, 10, false);
      Iso.IsoField(m, negative, 10, w, 0, f) == (if negative then "-" else "") + (Repeat('0', w - |n|) + n)
  {
    hide Numeral;
    var sign, n := Iso.Sign(negative, f), Numeral(m, 10, false);
    var body := Repeat('0', w - |n|) + n;
    assert sign + Iso.Prefix(m, 10, body, f) == sign;
    assert Repeat(' ', 0 - |sign| - |body|) + sign + body == sign + body;
  }

  lemma UnsignedDigits(c: char, bits: uint64)
    requires c == 'x' || c == 'X' || c == 'o'
    ensures P.Render("%" + [c], 0, [P.Word(bits)]) == Numeral(bits % 0x1_0000_0000, P.BaseOf(c), c == 'X')
  {
    hide P.Render, Numeral, Iso.IsoField, SpecText;
    var s, args, v := Spec([], Absent, Absent, Length.Plain), [P.Word(bits)], bits % 0x1_0000_0000;
    GivenText([], []);
    assert "%" + ([] + [c]) == "%" + [c];
    assert IsoValue(s, c, args) == v;
    IsoShown(s, c, args);
    LeadField(v, P.BaseOf(c), 0, IsoFlags(s, c, args));
  }

  /** A field of an unsigned conversion without a precision, its prefix and zero padding spelled out. */
  lemma LeadField(v: nat, base: nat, w: nat, f: P.Flags)
    requires (base == 8 || base == 16) && !f.left && !f.plus && !f.space && !f.precision && (f.hash ==> v != 0)
    requires !f.zeropad ==> w == 0
    ensures
      var n := Numeral(v, base, f.upper);
      var lead := if !f.hash then "" else if base == 8 then "0" else if f.upper then "0X" else "0x";
      Iso.IsoField(v, false, base, 0, w, f) == lead + (Repeat('0', w - |lead| - |n|) + n)
  {
    hide Numeral, Iso.Prefix, Iso.Padded, Repeat;
    var n := Numeral(v, base, f.upper);
    LeadIs(v, base, f);
    assert Iso.Body(v, base, 0, f) == n by { Iso.NoPadding('0', 0 - |n|, n); }
    LeadPadded(Iso.Sign(false, f) + Iso.Prefix(v, base, n, f), n, w, f);
  }

  lemma LeadIs(v: nat, base: nat, f: P.Flags)
    requires (base == 8 || base == 16) && !f.plus && !f.space && (f.hash ==> v != 0)
    ensures Iso.Sign(false, f) + Iso.Prefix(v, base, Numeral(v, base, f.upper), f)
         == if !f.hash then "" else if base == 8 then "0" else if f.upper then "0X" else "0x"
  {
    hide Numeral;
    NoLeadingZero(v, base, f.upper);
  }

  lemma LeadPadded(lead: seq<char>, n: seq<char>, w: nat, f: P.Flags)
    requires !f.left && !f.precision && (!f.zeropad ==> w == 0)
    ensures Iso.Padded(lead, n, w, f) == lead + (Repeat('0', w - |lead| - |n|) + n)
  {
  }

  lemma HashText(c: char, bits: uint64)
    requires (c == 'x' || c == 'X' || c == 'o') && bits % 0x1_0000_0000 != 0
    ensures P.Render("%#" + [c], 0, [P.Word(bits)])
         == (if c == 'o' then "0" else if c == 'X' then "0X" else "0x") + P.Render("%" + [c], 0, [P.Word(bits)])
  {
    hide P.Render, Numeral, Iso.IsoField, SpecText;
    var s, args, v := Spec(['#'], Absent, Absent, Length.Plain), [P.Word(bits)], bits % 0x1_0000_0000;
    GivenText(['#'], []);
    assert "%" + (['#'] + [c]) == "%#" + [c];
    assert IsoValue(s, c, args) == v;
    IsoShown(s, c, args);
    UnsignedDigits(c, bits);
    LeadField(v, P.BaseOf(c), 0, IsoFlags(s, c, args));
    var n := Numeral(v, P.BaseOf(c), c == 'X');
    assert Repeat('0', 0 - |n|) + n == n;
  }

  /** What # puts in front of a number that is not zero, and the eight digits a report shows. */
  lemma PrefixShown(bits: uint64)
    requires bits % 0x1_0000_0000 != 0
    ensures P.Render("%#x", 0, [P.Word(bits)]) == "0x" + P.Render("%x", 0, [P.Word(bits)])
    ensures P.Render("%#X", 0, [P.Word(bits)]) == "0X" + P.Render("%X", 0, [P.Word(bits)])
    ensures P.Render("%#o", 0, [P.Word(bits)]) == "0" + P.Render("%o", 0, [P.Word(bits)])
  {
    hide P.Render;
    HashText('x', bits);
    HashText('X', bits);
    HashText('o', bits);
    assert "%#" + ['x'] == "%#x" && "%#" + ['X'] == "%#X" && "%#" + ['o'] == "%#o";
    assert "%" + ['x'] == "%x" && "%" + ['X'] == "%X" && "%" + ['o'] == "%o";
  }

  lemma ReportShown(bits: uint64)
    ensures
      var t := P.Render("%X", 0, [P.Word(bits)]);
      P.Render("%08X", 0, [P.Word(bits)]) == Repeat('0', 8 - |t|) + t
  {
    hide P.Render, Numeral, Iso.IsoField, SpecText;
    var s, args, v := Spec(['0'], Given("8"), Absent, Length.Plain), [P.Word(bits)], bits % 0x1_0000_0000;
    GivenText(['0'], "8");
    assert "%" + ((['0'] + "8") + ['X']) == "%08X" && "%" + ['X'] == "%X";
    assert IsoValue(s, 'X', args) == v;
    assert Value("8", 10) == 8 by { assert Value([], 10) == 0 && "8"[..0] == []; }
    IsoShown(s, 'X', args);
    UnsignedDigits('X', bits);
    LeadField(v, 16, 8, IsoFlags(s, 'X', args));
    var n := Numeral(v, 16, true);
    assert [] + (Repeat('0', 8 - 0 - |n|) + n) == Repeat('0', 8 - |n|) + n;
  }

  /** The number a load reports, to the letter. */
  lemma ReportedAs(bits: uint64)
    requires bits == 0xABCDEF
    ensures P.Render("%08X", 0, [P.Word(bits)]) == "00ABCDEF" && P.Render("%x", 0, [P.Word(bits)]) == "abcdef"
  {
    hide P.Render, Numeral;
    ReportShown(bits);
    UnsignedDigits('X', bits);
    UnsignedDigits('x', bits);
    assert "%" + ['x'] == "%x" && "%" + ['X'] == "%X";
    SixLetters(bits, true);
    SixLetters(bits, false);
    assert Repeat('0', 2) + "ABCDEF" == "00ABCDEF";
  }

  lemma SixLetters(v: nat, upper: bool)
    requires v == 0xABCDEF
    ensures Numeral(v, 16, upper) == if upper then "ABCDEF" else "abcdef"
  {
    hide DigitChar, Numeral;
    OneMore(0xA, 0xB, upper);
    OneMore(0xAB, 0xC, upper);
    OneMore(0xABC, 0xD, upper);
    OneMore(0xABCD, 0xE, upper);
    OneMore(0xABCDE, 0xF, upper);
    OneDigit(0xA, upper);
    Letters(upper);
  }

  lemma OneMore(q: nat, d: nat, upper: bool)
    requires q > 0 && d < 16
    ensures Numeral(16 * q + d, 16, upper) == Numeral(q, 16, upper) + [DigitChar(d, upper)]
  {
  }

  lemma OneDigit(d: nat, upper: bool)
    requires d < 16
    ensures Numeral(d, 16, upper) == [DigitChar(d, upper)]
  {
  }

  lemma Letters(upper: bool)
    ensures DigitChar(10, upper) == (if upper then 'A' else 'a') && DigitChar(11, upper) == (if upper then 'B' else 'b')
    ensures DigitChar(12, upper) == (if upper then 'C' else 'c') && DigitChar(13, upper) == (if upper then 'D' else 'd')
    ensures DigitChar(14, upper) == (if upper then 'E' else 'e') && DigitChar(15, upper) == (if upper then 'F' else 'f')
  {
  }
}
