/**
 * Conversions from the percent sign to the text, against ISO C11 section 7.21.6.1:
 * the directive is read, its flags and its argument are brought to the conversion's
 * type, and the field is printed.  The theorems say for which directives and
 * arguments the text is the standard's.
 */
module PrintfDirective {
  import opened Bytes
  import opened CStrings
  import opened Numerals
  import opened PrintfGrammar
  import Iso = PrintfIso
  import P = Printf

  /** The integer conversions of the standard. */
  predicate IsoConversion(c: char) {
    c == 'd' || c == 'i' || c == 'u' || c == 'x' || c == 'X' || c == 'o'
  }

  predicate IsSigned(c: char) {
    c == 'd' || c == 'i'
  }

  // ---- What the standard prints

  /**
   * Signs belong to signed conversions and # to x, X and o; with d, i and u it
   * is undefined and taken as absent.  Zeros do not pad a field with a precision.
   */
  function Effective(f: P.Flags, c: char): P.Flags {
    f.(zeropad := f.zeropad && !f.precision, plus := f.plus && IsSigned(c), space := f.space && IsSigned(c),
       hash := f.hash && P.BaseOf(c) != 10, upper := c == 'X')
  }

  function IsoFlags(s: Spec, c: char, args: seq<P.Arg>): P.Flags {
    Effective(FlagsOf(s, args), c)
  }

  /** The argument converted to signed char, short, int or a type of 64 bits. */
  function AsSigned(l: Length, bits: uint64): int {
    match l
    case Char => (if bits % 0x100 >= 0x80 then bits % 0x100 - 0x100 else bits % 0x100)
    case Short => P.Signed16(bits)
    case Plain => P.Signed32(bits)
    case _ => P.Signed64(bits)
  }

  /** The argument converted to the unsigned type of the same size. */
  function AsUnsigned(l: Length, bits: uint64): uint64 {
    match l
    case Char => bits % 0x100
    case Short => bits % TWO_16
    case Plain => bits % TWO_32
    case _ => bits
  }

  /** The arguments from the converted one on: behind those the stars take. */
  function Remaining(s: Spec, args: seq<P.Arg>): seq<P.Arg> {
    AfterStar(s.precision, AfterStar(s.width, args))
  }

  function IsoValue(s: Spec, c: char, args: seq<P.Arg>): int {
    var bits := P.Bits(Remaining(s, args));
    if IsSigned(c) then AsSigned(s.length, bits) else AsUnsigned(s.length, bits)
  }

  function IsoText(s: Spec, c: char, args: seq<P.Arg>): seq<char> {
    var v := IsoValue(s, c, args);
    Iso.IsoField(P.Magnitude(v), v < 0, P.BaseOf(c), Precision(s, args), Width(s, args), IsoFlags(s, c, args))
  }

  // ---- When the printer agrees

  /** hh with d or i: plain char is unsigned here, and a negative byte is printed as a positive number. */
  predicate NegativeByte(s: Spec, c: char, args: seq<P.Arg>) {
    IsSigned(c) && s.length.Char? && P.Bits(Remaining(s, args)) % 0x100 >= 0x80
  }

  /** The field with no padding: sign, prefix and digits. */
  function Bare(v: int, base: nat, f: P.Flags): nat
    requires IsBase(base)
  {
    var numeral := Numeral(P.Magnitude(v), base, f.upper);
    |Iso.Sign(v < 0, f)| + |Iso.Prefix(P.Magnitude(v), base, numeral, f)| + |numeral|
  }

  predicate AsIso(s: Spec, c: char, args: seq<P.Arg>)
    requires IsoConversion(c)
  {
    var v, f := IsoValue(s, c, args), IsoFlags(s, c, args);
    InRange(s, args) && !NegativeByte(s, c, args) &&
    if NegativePrecision(s, args)
    then v != 0 && (f.zeropad && !f.left ==> Width(s, args) <= Bare(v, P.BaseOf(c), f))
    else Iso.AsStandard(P.Magnitude(v), v < 0, P.BaseOf(c), Precision(s, args), Width(s, args), f)
  }

  // ---- Flags and values

  /** The printer's four steps bring the flags to what the standard lets count. */
  lemma FlagsAgree(c: char, f: P.Flags)
    requires IsoConversion(c) && !f.upper
    ensures P.IntFlags(c, f) == Effective(f, c)
  {
    hide P.DropHash, P.SetUpper, P.DropSigns, P.DropZeros;
    var f1 := P.DropHash(c, f);
    var f2 := P.SetUpper(c, f1);
    var f3 := P.DropSigns(c, f2);
    HashStep(c, f);
    UpperStep(c, f1);
    SignStep(c, f2);
    ZeroStep(f3);
    SameFlags(P.DropZeros(f3), Effective(f, c));
  }

  lemma HashStep(c: char, f: P.Flags)
    ensures P.DropHash(c, f) == f.(hash := f.hash && P.BaseOf(c) != 10)
  {
  }

  lemma UpperStep(c: char, f: P.Flags)
    ensures P.SetUpper(c, f) == f.(upper := f.upper || c == 'X')
  {
  }

  lemma SignStep(c: char, f: P.Flags)
    ensures P.DropSigns(c, f) == f.(plus := f.plus && IsSigned(c), space := f.space && IsSigned(c))
  {
  }

  lemma ZeroStep(f: P.Flags)
    ensures P.DropZeros(f) == f.(zeropad := f.zeropad && !f.precision)
  {
  }

  lemma SameFlags(f: P.Flags, g: P.Flags)
    requires f.zeropad == g.zeropad && f.left == g.left && f.plus == g.plus && f.space == g.space && f.hash == g.hash
    requires f.upper == g.upper && f.char8 == g.char8 && f.short == g.short && f.long == g.long
    requires f.precision == g.precision
    ensures f == g
  {
  }

  lemma EffectiveFlags(s: Spec, c: char, args: seq<P.Arg>)
    requires IsoConversion(c)
    ensures Iso.ConversionFlags(P.BaseOf(c), Precision(s, args), IsoFlags(s, c, args))
  {
    hide Has, Argument, Value, AfterStar;
  }

  lemma ImposedPrecision(c: char, f: P.Flags)
    ensures Effective(f.(precision := true), c) == Effective(f, c).(precision := true, zeropad := false)
  {
  }

  lemma ValueAgrees(s: Spec, c: char, args: seq<P.Arg>, f: P.Flags)
    requires f.char8 == s.length.Char? && f.short == (s.length.Char? || s.length.Short?)
    requires f.long == (!s.length.Plain? && !s.length.Char? && !s.length.Short?)
    ensures
      var bits := P.Bits(Remaining(s, args));
      var v := if IsSigned(c) then P.SignedValue(bits, f) else P.UnsignedValue(bits, f);
      v == (if NegativeByte(s, c, args) then bits % 0x100 else IsoValue(s, c, args)) && P.Magnitude(v) < TWO_64
  {
    hide P.Bits, Remaining;
  }

  // ---- A negative byte

  lemma NoMinusDigit(v: nat)
    ensures '-' !in Numeral(v, 10, false)
  {
    hide Numeral;
    ValueOfNumeral(v, 10, false);
  }

  /** A value that is not negative never shows a minus. */
  lemma NoMinus(v: uint64, prec: uint32, width: uint32, f: P.Flags)
    requires !f.hash && !f.upper
    ensures '-' !in P.IntField(v, false, 10, prec, width, f)
  {
    hide Numeral, P.IntField, Repeat;
    NoMinusDigit(v);
    Iso.FieldShape(v, false, 10, prec, width, f);
  }

  lemma ShowsMinus(v: nat, base: nat, prec: nat, width: nat, f: P.Flags)
    requires IsBase(base)
    ensures '-' in Iso.IsoField(v, true, base, prec, width, f)
  {
    hide Iso.Body, Repeat, Iso.Prefix;
  }

  // ---- A negative precision

  lemma NumeralBody(v: nat, base: nat, f: P.Flags, g: P.Flags)
    requires IsBase(base) && f.upper == g.upper && (!f.precision || v != 0)
    ensures Iso.Body(v, base, 0, f) == Numeral(v, base, g.upper)
  {
    hide Numeral;
    var n := Numeral(v, base, f.upper);
    assert Repeat('0', 0 - |n|) + n == n;
  }

  /** Blanks for zeros: the same field only when nothing is padded. */
  lemma BlanksForZeros(lead: seq<char>, body: seq<char>, width: nat, f: P.Flags, g: P.Flags)
    requires !f.precision && g == f.(precision := true, zeropad := false)
    requires lead == [] || lead[0] != ' ' || |lead| == 1
    ensures Iso.Padded(lead, body, width, g) == Iso.Padded(lead, body, width, f)
      <==> (f.zeropad && !f.left ==> width <= |lead| + |body|)
  {
    var n := width - |lead| - |body|;
    if f.zeropad && !f.left && n > 0 {
      var k := if lead == [] || lead[0] != ' ' then 0 else 1;
      assert Iso.Padded(lead, body, width, g)[k] == ' ';
      assert Iso.Padded(lead, body, width, f)[k] != ' ';
    }
  }

  /** The sign and the prefix. */
  lemma Leads(v: nat, negative: bool, base: nat, body: seq<char>, f: P.Flags, g: P.Flags)
    requires Iso.ConversionFlags(base, 0, f) && g == f.(precision := true, zeropad := false)
    ensures
      var lead := Iso.Sign(negative, f) + Iso.Prefix(v, base, body, f);
      lead == Iso.Sign(negative, g) + Iso.Prefix(v, base, body, g) && (lead == [] || lead[0] != ' ' || |lead| == 1)
  {
  }

  /** The precision flag set without cause, for a value that is not zero. */
  lemma ImposedOnValue(v: uint64, negative: bool, base: nat, width: uint32, f: P.Flags)
    requires Iso.ConversionFlags(base, 0, f) && (negative ==> base == 10) && !f.precision && v != 0
    ensures
      var g := f.(precision := true, zeropad := false);
      var numeral := Numeral(v, base, f.upper);
      var bare := |Iso.Sign(negative, f)| + |Iso.Prefix(v, base, numeral, f)| + |numeral|;
      P.IntField(v, negative, base, 0, width, g) == Iso.IsoField(v, negative, base, 0, width, f)
      <==> (f.zeropad && !f.left ==> width <= bare)
  {
    hide P.IntField, Numeral, Iso.Sign, Iso.Prefix, Iso.Body, Iso.Padded;
    var g := f.(precision := true, zeropad := false);
    var numeral := Numeral(v, base, f.upper);
    Iso.IntFieldIsIso(v, negative, base, 0, width, g);
    Iso.SignLength(negative, g);
    NumeralBody(v, base, f, f);
    NumeralBody(v, base, g, f);
    Leads(v, negative, base, numeral, f, g);
    BlanksForZeros(Iso.Sign(negative, f) + Iso.Prefix(v, base, numeral, f), numeral, width, f, g);
  }

  /** The precision flag set without cause makes zero vanish. */
  lemma ImposedOnZero(v: uint64, base: nat, width: uint32, f: P.Flags)
    requires Iso.ConversionFlags(base, 0, f) && !f.precision && v == 0
    ensures P.IntField(v, false, base, 0, width, f.(precision := true, zeropad := false))
         != Iso.IsoField(v, false, base, 0, width, f)
  {
    hide P.IntField, Numeral, Repeat, Iso.Printed;
    var g := f.(precision := true, zeropad := false, hash := false);
    Iso.HashUnheeded(v, base, 0, width, f.(precision := true, zeropad := false));
    Iso.PrintedZero(v, base, g);
    Iso.SignLength(false, g);
    Iso.FieldIsIso(v, false, base, 0, width, g);
    assert '0' !in Iso.IsoField(v, false, base, 0, width, g);
    NumeralBody(v, base, f, f);
    NoLeadingZero(v, base, f.upper);
    assert Numeral(v, base, f.upper)[0] == '0';
    assert '0' in Iso.IsoField(v, false, base, 0, width, f);
  }

  // ---- Whole directives

  /** The field the printer prints for a directive read from a specification. */
  lemma FieldOf(s: Spec, i: nat, c: char, args: seq<P.Arg>)
    requires IsoConversion(c)
    ensures
      var v := if NegativeByte(s, c, args) then P.Bits(Remaining(s, args)) % 0x100 else IsoValue(s, c, args);
      var f := IsoFlags(s, c, args);
      var g := if NegativePrecision(s, args) then f.(precision := true, zeropad := false) else f;
      P.Magnitude(v) < TWO_64 && P.IntegerText(c, Taken(s, i, args))
      == P.IntField(P.Magnitude(v), v < 0, P.BaseOf(c), Wrap32(Precision(s, args)), Wrap32(Width(s, args)), g)
  {
    hide P.IntField, P.IntFlags, Effective, P.SignedValue, P.UnsignedValue, NegativeByte, NegativePrecision, IsoValue;
    var d := Taken(s, i, args);
    FlagsAgree(c, d.flags);
    ImposedPrecision(c, FlagsOf(s, args));
    EffectiveKeeps(s, c, args, d.flags);
    ValueAgrees(s, c, args, P.IntFlags(c, d.flags));
  }

  /** The size flags survive. */
  lemma EffectiveKeeps(s: Spec, c: char, args: seq<P.Arg>, f: P.Flags)
    requires f == FlagsOf(s, args) || f == FlagsOf(s, args).(precision := true)
    ensures
      var g := Effective(f, c);
      && g.char8 == s.length.Char? && g.short == (s.length.Char? || s.length.Short?)
      && g.long == (!s.length.Plain? && !s.length.Char? && !s.length.Short?)
  {
    hide Has, Argument, NegativePrecision;
  }

  lemma EffectiveCase(s: Spec, c: char, args: seq<P.Arg>)
    requires IsoConversion(c)
    ensures
      var f := IsoFlags(s, c, args);
      f.upper == (c == 'X') && (P.BaseOf(c) == 10 ==> !f.hash) && (NegativePrecision(s, args) ==> !f.precision)
    ensures P.BaseOf(c) != 10 ==> !IsSigned(c)
  {
    hide Has, Argument;
  }

  lemma ByteText(s: Spec, i: nat, c: char, args: seq<P.Arg>)
    requires IsoConversion(c) && NegativeByte(s, c, args)
    ensures P.IntegerText(c, Taken(s, i, args)) != IsoText(s, c, args)
  {
    hide P.IntegerText, P.IntField, Taken, IsoFlags, NegativePrecision, Precision, Width, Iso.IsoField, Wrap32;
    FieldOf(s, i, c, args);
    EffectiveCase(s, c, args);
    var v, f, prec, width := IsoValue(s, c, args), IsoFlags(s, c, args), Precision(s, args), Width(s, args);
    assert v < 0;
    var g := if NegativePrecision(s, args) then f.(precision := true, zeropad := false) else f;
    NoMinus(P.Bits(Remaining(s, args)) % 0x100, Wrap32(prec), Wrap32(width), g);
    ShowsMinus(P.Magnitude(v), 10, prec, width, f);
  }

  lemma TextIsIso(s: Spec, i: nat, c: char, args: seq<P.Arg>)
    requires IsoConversion(c)
    ensures P.IntegerText(c, Taken(s, i, args)) == IsoText(s, c, args) <==> AsIso(s, c, args)
  {
    hide P.IntegerText, P.IntField, Taken, IsoFlags, NegativePrecision, NegativeByte, Precision, Width,
         Iso.IsoField, IsoValue, Iso.AsStandard, Bare;
    if !InRange(s, args) {
      OutOfRangeText(s, i, c, args);
    } else if NegativeByte(s, c, args) {
      ByteText(s, i, c, args);
    } else {
      FieldOf(s, i, c, args);
      EffectiveCase(s, c, args);
      EffectiveFlags(s, c, args);
      var v, f, base := IsoValue(s, c, args), IsoFlags(s, c, args), P.BaseOf(c);
      UnsignedSign(s, c, args);
      if !NegativePrecision(s, args) {
        Iso.IntFieldIsIso(P.Magnitude(v), v < 0, base, Precision(s, args), Width(s, args), f);
      } else if v == 0 {
        NoPrecision(s, args);
        ImposedOnZero(0, base, Width(s, args), f);
      } else {
        NoPrecision(s, args);
        BareIs(v, base, f);
        ImposedOnValue(P.Magnitude(v), v < 0, base, Width(s, args), f);
      }
    }
  }

  /** A width or precision beyond 32 bits asks for more characters than the printer makes of it. */
  lemma OutOfRangeText(s: Spec, i: nat, c: char, args: seq<P.Arg>)
    requires IsoConversion(c) && !InRange(s, args)
    ensures |P.IntegerText(c, Taken(s, i, args))| < |IsoText(s, c, args)|
  {
    hide P.IntegerText, P.IntField, Taken, IsoFlags, NegativePrecision, NegativeByte, Precision, Width,
         Iso.IsoField, IsoValue;
    FieldOf(s, i, c, args);
    var f, prec, width := IsoFlags(s, c, args), Precision(s, args), Width(s, args);
    var g := if NegativePrecision(s, args) then f.(precision := true, zeropad := false) else f;
    var v := if NegativeByte(s, c, args) then P.Bits(Remaining(s, args)) % 0x100 else IsoValue(s, c, args);
    Iso.FieldLength(P.Magnitude(v), v < 0, P.BaseOf(c), Wrap32(prec), Wrap32(width), g);
    Iso.IsoLength(P.Magnitude(IsoValue(s, c, args)), IsoValue(s, c, args) < 0, P.BaseOf(c), prec, width, f);
  }

  lemma UnsignedSign(s: Spec, c: char, args: seq<P.Arg>)
    requires IsoConversion(c)
    ensures IsoValue(s, c, args) < 0 ==> P.BaseOf(c) == 10
  {
  }

  lemma NoPrecision(s: Spec, args: seq<P.Arg>)
    requires NegativePrecision(s, args)
    ensures Precision(s, args) == 0
  {
  }

  lemma BareIs(v: int, base: nat, f: P.Flags)
    requires IsBase(base)
    ensures
      var n := P.Magnitude(v);
      var numeral := Numeral(n, base, f.upper);
      Bare(v, base, f) == |Iso.Sign(v < 0, f)| + |Iso.Prefix(n, base, numeral, f)| + |numeral|
  {
    hide Numeral;
  }

  // ---- Characters and strings

  /** c and s; other lengths than none are undefined for them or mean wide characters. */
  predicate TextConversion(s: Spec, c: char) {
    (c == 'c' || c == 's') && s.length.Plain?
  }

  /** The characters of the standard's field: one of them, or the string as far as the precision, if there is one. */
  function IsoChars(s: Spec, c: char, args: seq<P.Arg>): seq<char> {
    var rest := Remaining(s, args);
    if c == 'c' then [(P.Bits(rest) % 0x100) as char]
    else if FlagsOf(s, args).precision then P.Text(rest)[..Min(|P.Text(rest)|, Precision(s, args))]
    else P.Text(rest)
  }

  function Blanked(chars: seq<char>, width: nat, left: bool): seq<char> {
    var blanks := Repeat(' ', width - |chars|);
    if left then chars + blanks else blanks + chars
  }

  predicate AllBlank(s: seq<char>) {
    forall k :: 0 <= k < |s| ==> s[k] == ' '
  }

  /** What the printer takes of a string with a precision: as many characters as it read. */
  function PrinterChars(s: Spec, args: seq<P.Arg>): seq<char> {
    var text := P.Text(Remaining(s, args));
    text[..Min(|text|, Wrap32(Precision(s, args)))]
  }

  /**
   * When a string field is the standard's.  Without a precision the padding must
   * come out the same with the string's length modulo 2^32.  With one, too few
   * characters may be taken, which goes unnoticed only where blanks pad for blanks.
   */
  predicate StringAsIso(s: Spec, args: seq<P.Arg>) {
    var left, width, b := FlagsOf(s, args).left, Width(s, args), IsoChars(s, 's', args);
    if s.precision.Absent? then Max(Wrap32(width) - Wrap32(|b|), 0) == Max(width - |b|, 0)
    else
      var a := PrinterChars(s, args);
      width < TWO_32 && (a == b || (|a| <= |b| <= width && AllBlank(if left then b[|a|..] else b)))
  }

  /** Right-justified, a string and its beginning come out the same only if all is blank. */
  lemma {:induction false} BlankAt(a: seq<char>, b: seq<char>, width: nat, k: nat)
    requires a < b && |b| <= width && k < |b| && Blanked(a, width, false) == Blanked(b, width, false)
    ensures b[k] == ' '
    decreases k
  {
    var f, d := Blanked(b, width, false), |b| - |a|;
    assert f[width - |b| + k] == b[k];
    if k >= d {
      assert Blanked(a, width, false)[width - |b| + k] == a[k - d] == b[k - d];
      BlankAt(a, b, width, k - d);
    } else {
      assert Blanked(a, width, false)[width - |b| + k] == ' ';
    }
  }

  lemma BlankedOnlyIf(a: seq<char>, b: seq<char>, width: nat, left: bool)
    requires a < b && Blanked(a, width, left) == Blanked(b, width, left)
    ensures |b| <= width && AllBlank(if left then b[|a|..] else b)
  {
    var x, y := Blanked(a, width, left), Blanked(b, width, left);
    assert |x| == |y|;
    if left {
      forall k | |a| <= k < |b| ensures b[k] == ' ' { assert x[k] == ' ' && y[k] == b[k]; }
    } else {
      forall k | 0 <= k < |b| ensures b[k] == ' ' { BlankAt(a, b, width, k); }
    }
  }

  lemma BlankedIf(a: seq<char>, b: seq<char>, width: nat, left: bool)
    requires a < b && |b| <= width && AllBlank(if left then b[|a|..] else b)
    ensures Blanked(a, width, left) == Blanked(b, width, left)
  {
    if left {
      assert b == a + b[|a|..];
      assert Blanked(a, width, true) == Blanked(b, width, true);
    } else {
      assert forall k :: 0 <= k < |a| ==> a[k] == b[k];
      assert Blanked(a, width, false) == Blanked(b, width, false);
    }
  }

  lemma BlankedAlike(a: seq<char>, b: seq<char>, width: nat, left: bool)
    requires a <= b
    ensures Blanked(a, width, left) == Blanked(b, width, left)
      <==> a == b || (|b| <= width && AllBlank(if left then b[|a|..] else b))
  {
    hide Blanked, AllBlank;
    if a != b {
      if Blanked(a, width, left) == Blanked(b, width, left) { BlankedOnlyIf(a, b, width, left); }
      if |b| <= width && AllBlank(if left then b[|a|..] else b) { BlankedIf(a, b, width, left); }
    }
  }

  /** What the printer prints for c and s. */
  lemma TextConverts(s: Spec, i: nat, c: char, args: seq<P.Arg>)
    requires TextConversion(s, c)
    ensures
      var d, rest := Taken(s, i, args), Remaining(s, args);
      var field := if c == 'c' then P.CharField((P.Bits(rest) % 0x100) as char, d.width, d.flags)
                   else P.StrField(P.Text(rest), d.prec, d.width, d.flags);
      && P.Convert(c, d) == (field, P.Rest(rest))
      && d.flags.left == FlagsOf(s, args).left && d.flags.precision == !s.precision.Absent?
  {
    hide Has, Argument, Value, P.CharField, P.StrField;
  }

  lemma CharIsIso(s: Spec, i: nat, args: seq<P.Arg>)
    requires TextConversion(s, 'c')
    ensures
      var theirs := Blanked(IsoChars(s, 'c', args), Width(s, args), FlagsOf(s, args).left);
      P.Convert('c', Taken(s, i, args)).0 == theirs <==> Width(s, args) < TWO_32
  {
    hide P.Convert, Taken, FlagsOf, Width, Precision;
    TextConverts(s, i, 'c', args);
    TakenSizes(s, i, args);
    var ours := P.Convert('c', Taken(s, i, args)).0;
    var theirs := Blanked(IsoChars(s, 'c', args), Width(s, args), FlagsOf(s, args).left);
    assert |ours| == Max(1, Wrap32(Width(s, args))) && |theirs| == Max(1, Width(s, args));
  }

  lemma TakenSizes(s: Spec, i: nat, args: seq<P.Arg>)
    ensures Taken(s, i, args).width == Wrap32(Width(s, args)) && Taken(s, i, args).prec == Wrap32(Precision(s, args))
  {
  }

  /** A string with a precision is padded as it should be; without one, as if its length had 32 bits. */
  lemma StringField(text: seq<char>, prec: uint32, width: uint32, f: P.Flags)
    ensures f.precision ==> P.StrField(text, prec, width, f) == Blanked(text[..Min(|text|, prec)], width, f.left)
    ensures !f.precision ==>
      var blanks := Repeat(' ', width - Wrap32(|text|));
      P.StrField(text, prec, width, f) == if f.left then text + blanks else blanks + text
  {
    hide Repeat, Wrap32;
    AppendNone(text);
    if f.precision {
      var s := text[..Min(|text|, prec)];
      P.AppendEmpty(s + Repeat(' ', width - |s|));
      P.AppendEmpty(Repeat(' ', width - |s|) + s);
      P.AppendEmpty(s);
      AppendNone(s);
    } else {
      var blanks := Repeat(' ', width - Wrap32(|text|));
      P.AppendEmpty(text + blanks);
      P.AppendEmpty(blanks + text);
      P.AppendEmpty(text);
    }
  }

  lemma AppendNone(s: seq<char>)
    ensures Repeat(' ', 0) == [] && Repeat(' ', 0) + s == s && s + Repeat(' ', 0) == s
  {
  }

  /** Two paddings of one string. */
  lemma PaddedAlike(text: seq<char>, m: int, n: int, left: bool)
    ensures (if left then text + Repeat(' ', m) else Repeat(' ', m) + text)
         == (if left then text + Repeat(' ', n) else Repeat(' ', n) + text)
      <==> Max(m, 0) == Max(n, 0)
  {
    var x := if left then text + Repeat(' ', m) else Repeat(' ', m) + text;
    var y := if left then text + Repeat(' ', n) else Repeat(' ', n) + text;
    assert |x| == |text| + Max(m, 0) && |y| == |text| + Max(n, 0);
    if Max(m, 0) == Max(n, 0) {
      assert Repeat(' ', m) == Repeat(' ', n);
    }
  }

  lemma StringIsIso(s: Spec, i: nat, args: seq<P.Arg>)
    requires TextConversion(s, 's')
    ensures
      var theirs := Blanked(IsoChars(s, 's', args), Width(s, args), FlagsOf(s, args).left);
      P.Convert('s', Taken(s, i, args)).0 == theirs <==> StringAsIso(s, args)
  {
    hide P.Convert, Taken, Width, Precision, P.StrField, Blanked, AllBlank, Repeat, IsoChars, PrinterChars, FlagsOf,
         Remaining, P.Text, Wrap32;
    TextConverts(s, i, 's', args);
    TakenSizes(s, i, args);
    var d, text := Taken(s, i, args), P.Text(Remaining(s, args));
    StringField(text, d.prec, d.width, d.flags);
    Beginning(s, args);
    var width, left, b := Width(s, args), FlagsOf(s, args).left, IsoChars(s, 's', args);
    if s.precision.Absent? {
      PaddedAlike(text, Wrap32(width) - Wrap32(|b|), width - |b|, left);
      BlankedIs(text, width, left);
    } else {
      var a := PrinterChars(s, args);
      if width < TWO_32 {
        WrapNone(width);
        BlankedAlike(a, b, width, left);
      } else {
        BlankedLength(a, Wrap32(width), left);
        BlankedLength(b, width, left);
      }
    }
  }

  lemma WrapNone(n: nat)
    requires n < TWO_32
    ensures Wrap32(n) == n
  {
  }

  lemma BlankedIs(text: seq<char>, width: nat, left: bool)
    ensures Blanked(text, width, left)
         == if left then text + Repeat(' ', width - |text|) else Repeat(' ', width - |text|) + text
  {
  }

  lemma BlankedLength(text: seq<char>, width: nat, left: bool)
    ensures |Blanked(text, width, left)| == Max(width, |text|)
  {
  }

  /** The printer takes a beginning of the standard's characters, of 32-bit length. */
  lemma Beginning(s: Spec, args: seq<P.Arg>)
    requires s.length.Plain?
    ensures
      var text, a, b := P.Text(Remaining(s, args)), PrinterChars(s, args), IsoChars(s, 's', args);
      && a == text[..Min(|text|, Wrap32(Precision(s, args)))]
      && (s.precision.Absent? ==> b == text) && (!s.precision.Absent? ==> a <= b) && |a| < TWO_32
  {
    hide Has, Argument, Value, Width, Remaining, P.Text;
    var text, prec := P.Text(Remaining(s, args)), Precision(s, args);
    assert Wrap32(prec) <= prec;
    PrecisionFlag(s, args);
    assert text[..Min(|text|, Wrap32(prec))] <= text[..Min(|text|, prec)] <= text;
  }

  // ---- Every directive

  predicate Converts(s: Spec, c: char) {
    IsoConversion(c) || TextConversion(s, c)
  }

  function IsoDirective(s: Spec, c: char, args: seq<P.Arg>): seq<char> {
    if IsoConversion(c) then IsoText(s, c, args)
    else Blanked(IsoChars(s, c, args), Width(s, args), FlagsOf(s, args).left)
  }

  predicate Agrees(s: Spec, c: char, args: seq<P.Arg>)
    requires Converts(s, c)
  {
    if IsoConversion(c) then AsIso(s, c, args)
    else if c == 'c' then Width(s, args) < TWO_32
    else StringAsIso(s, args)
  }

  /**
   * A directive of the grammar with any of these conversions, wherever it stands in
   * a format: the text is the standard's if and only if `Agrees` holds, and the
   * arguments left are those behind the converted one either way.
   */
  lemma DirectiveIsIso(fmt: seq<char>, i: nat, s: Spec, c: char, more: seq<char>, args: seq<P.Arg>)
    requires IsSpec(s) && Converts(s, c) && i <= |fmt| && fmt[i..] == SpecText(s) + ([c] + more)
    ensures
      var d := P.ReadDirective(fmt, i, args);
      d.at == i + |SpecText(s)| && At(fmt, d.at) == c && P.Convert(c, d).1 == P.Rest(Remaining(s, args)) &&
      (P.Convert(c, d).0 == IsoDirective(s, c, args) <==> Agrees(s, c, args))
  {
    hide P.ReadDirective, P.IntegerText, IsSize, SpecText, FlagsOf, Width, Precision, NegativePrecision, IsoText, AsIso;
    hide IsoChars, Blanked, StringAsIso, P.CharField, P.StrField;
    SpecRead(fmt, i, s, c, more, args);
    if IsoConversion(c) {
      TextIsIso(s, i, c, args);
    } else if c == 'c' {
      CharIsIso(s, i, args);
    } else {
      StringIsIso(s, i, args);
    }
  }

  // ---- Whole formats

  /** A character that stands for itself, a double percent sign, or a directive. */
  datatype Piece = Verbatim(c: char) | Percent | Directive(spec: Spec, c: char)

  ghost predicate IsPiece(p: Piece) {
    match p
    case Verbatim(c) => c != '%'
    case Percent => true
    case Directive(s, c) => IsSpec(s) && Converts(s, c)
  }

  ghost predicate IsFormat(pieces: seq<Piece>) {
    forall k :: 0 <= k < |pieces| ==> IsPiece(pieces[k])
  }

  function PieceText(p: Piece): seq<char> {
    match p
    case Verbatim(c) => [c]
    case Percent => "%%"
    case Directive(s, c) => "%" + (SpecText(s) + [c])
  }

  function FormatText(pieces: seq<Piece>): seq<char> {
    if pieces == [] then [] else PieceText(pieces[0]) + FormatText(pieces[1..])
  }

  /** What the standard prints for a piece, and the arguments left. */
  function IsoPiece(p: Piece, args: seq<P.Arg>): (seq<char>, seq<P.Arg>)
    requires IsPiece(p)
  {
    match p
    case Verbatim(c) => ([c], args)
    case Percent => ("%", args)
    case Directive(s, c) => (IsoDirective(s, c, args), P.Rest(Remaining(s, args)))
  }

  function IsoOutput(pieces: seq<Piece>, args: seq<P.Arg>): seq<char>
    requires IsFormat(pieces)
  {
    if pieces == [] then []
    else
      var (text, rest) := IsoPiece(pieces[0], args);
      text + IsoOutput(pieces[1..], rest)
  }

  predicate PieceAsIso(p: Piece, args: seq<P.Arg>)
    requires IsPiece(p)
  {
    p.Directive? ==> Agrees(p.spec, p.c, args)
  }

  /** Every directive of a format meets its condition with the arguments it gets. */
  ghost predicate AllAsIso(pieces: seq<Piece>, args: seq<P.Arg>)
    requires IsFormat(pieces)
  {
    pieces != [] ==>
      PieceAsIso(pieces[0], args) && AllAsIso(pieces[1..], IsoPiece(pieces[0], args).1)
  }

  lemma PercentRead(fmt: seq<char>, i: nat, more: seq<char>, args: seq<P.Arg>)
    requires i <= |fmt| && fmt[i..] == ['%'] + more
    ensures
      var d := P.ReadDirective(fmt, i, args);
      d.at == i && At(fmt, i) == '%' && P.Convert('%', d) == ("%", args)
  {
    hide P.ReadDirective, FlagsOf;
    var s := Spec([], Absent, Absent, Length.Plain);
    assert SpecText(s) + (['%'] + more) == ['%'] + more;
    SpecRead(fmt, i, s, '%', more, args);
  }

  /** One piece is rendered as the standard has it. */
  lemma PieceIsIso(fmt: seq<char>, i: nat, p: Piece, more: seq<char>, args: seq<P.Arg>)
    requires IsPiece(p) && PieceAsIso(p, args)
    requires i <= |fmt| && fmt[i..] == PieceText(p) + more
    ensures
      var (text, rest) := IsoPiece(p, args);
      P.Render(fmt, i, args) == text + P.Render(fmt, i + |PieceText(p)|, rest)
  {
    hide P.Render, P.ReadDirective, P.Convert, IsoDirective, Agrees, SpecText, IsSpec, Converts;
    match p
    case Verbatim(c) =>
      StartsWith(fmt, i, [c] + more);
      P.RenderStep(fmt, i, args);
    case Percent =>
      assert PieceText(p) + more == "%" + (['%'] + more);
      Cut(fmt, i, "%", ['%'] + more);
      assert fmt[i] == fmt[i..i + 1][0];
      PercentRead(fmt, i + 1, more, args);
      P.RenderStep(fmt, i, args);
    case Directive(s, c) =>
      DirectivePiece(fmt, i, s, c, more, args);
  }

  lemma DirectivePiece(fmt: seq<char>, i: nat, s: Spec, c: char, more: seq<char>, args: seq<P.Arg>)
    requires IsSpec(s) && Converts(s, c) && Agrees(s, c, args)
    requires i <= |fmt| && fmt[i..] == "%" + (SpecText(s) + [c]) + more
    ensures P.Render(fmt, i, args)
         == IsoDirective(s, c, args) + P.Render(fmt, i + 2 + |SpecText(s)|, P.Rest(Remaining(s, args)))
  {
    hide P.Render, P.ReadDirective, P.Convert, IsoDirective, Agrees, SpecText, IsSpec, Converts, Remaining, P.Rest;
    var rest := SpecText(s) + ([c] + more);
    assert "%" + (SpecText(s) + [c]) + more == "%" + rest;
    Cut(fmt, i, "%", rest);
    assert fmt[i] == fmt[i..i + 1][0];
    DirectiveIsIso(fmt, i + 1, s, c, more, args);
    P.RenderStep(fmt, i, args);
  }

  /**
   * The whole output of a format made of such pieces is the standard's when every
   * directive meets its condition.
   */
  lemma {:induction false} FormatIsIso(fmt: seq<char>, i: nat, pieces: seq<Piece>, args: seq<P.Arg>)
    requires IsFormat(pieces) && AllAsIso(pieces, args)
    requires i <= |fmt| && fmt[i..] == FormatText(pieces)
    ensures P.Render(fmt, i, args) == IsoOutput(pieces, args)
    decreases |pieces|
  {
    hide P.Render, IsPiece, PieceText, IsoPiece, PieceAsIso;
    if pieces == [] {
      P.RenderEnd(fmt, i, args);
    } else {
      var p, more := pieces[0], FormatText(pieces[1..]);
      PieceIsIso(fmt, i, p, more, args);
      Cut(fmt, i, PieceText(p), more);
      FormatIsIso(fmt, i + |PieceText(p)|, pieces[1..], IsoPiece(p, args).1);
    }
  }

  // ---- The defects at their smallest

  lemma {:induction false} PlainNumber(v: uint64, negative: bool, f: P.Flags)
    requires !f.left && !f.zeropad && !f.plus && !f.space && !f.hash && !f.precision && !f.upper
    ensures Iso.IsoField(v, negative, 10, 0, 0, f) == (if negative then "-" else "") + Numeral(v, 10, false)
    ensures P.IntField(v, negative, 10, 0, 0, f) == Iso.IsoField(v, negative, 10, 0, 0, f)
  {
    hide Numeral, P.IntField;
    var n := Numeral(v, 10, false);
    assert Repeat('0', 0 - |n|) + n == n;
    assert Iso.Sign(negative, f) + Iso.Prefix(v, 10, n, f) == if negative then "-" else "";
    Iso.SignLength(negative, f);
    Iso.IntFieldIsIso(v, negative, 10, 0, 0, f);
  }

  lemma Numeral255()
    ensures Numeral(255, 10, false) == "255" && Numeral(1, 10, false) == "1"
  {
    assert Numeral(2, 10, false) == "2";
    assert Numeral(25, 10, false) == "25";
  }

  /** %hhd of -1 prints 255. */
  lemma ByteLosesSign(bits: uint64)
    requires bits == 0xFFFF_FFFF
    ensures P.Render("%hhd", 0, [P.Word(bits)]) == "255"
    ensures IsoText(Spec([], Absent, Absent, Char), 'd', [P.Word(bits)]) == "-1"
  {
    hide P.Render, P.ReadDirective, P.IntegerText, P.IntField, Numeral, Taken, Iso.IsoField;
    var fmt, s, args := "%hhd", Spec([], Absent, Absent, Char), [P.Word(bits)];
    assert fmt[1..] == SpecText(s) + (['d'] + []);
    SpecRead(fmt, 1, s, 'd', [], args);
    FieldOf(s, 1, 'd', args);
    P.RenderStep(fmt, 0, args);
    P.RenderEnd(fmt, 4, P.Rest(args));
    Numeral255();
    PlainNumber(255, false, IsoFlags(s, 'd', args));
    PlainNumber(1, true, IsoFlags(s, 'd', args));
  }

  lemma NoDigitsShown(v: uint64, f: P.Flags)
    requires v == 0 && f.precision && !f.left && !f.zeropad && !f.plus && !f.space && !f.hash
    ensures P.IntField(v, false, 10, 0, 0, f) == []
  {
    hide P.IntField, Numeral;
    Iso.SignLength(false, f);
    Iso.IntFieldIsIso(v, false, 10, 0, 0, f);
  }

  /** %.*d of zero with a precision of -1, which counts as none, prints nothing. */
  lemma NegativePrecisionLosesZero(minus: uint64, zero: uint64)
    requires minus == 0xFFFF_FFFF && zero == 0
    ensures P.Render("%.*d", 0, [P.Word(minus), P.Word(zero)]) == ""
    ensures IsoText(Spec([], Absent, Star, Length.Plain), 'd', [P.Word(minus), P.Word(zero)]) == "0"
  {
    hide P.Render, P.ReadDirective, P.IntegerText, P.IntField, Numeral, Taken, Iso.IsoField;
    var fmt, s, args := "%.*d", Spec([], Absent, Star, Length.Plain), [P.Word(minus), P.Word(zero)];
    assert fmt[1..] == SpecText(s) + (['d'] + []);
    SpecRead(fmt, 1, s, 'd', [], args);
    assert NegativePrecision(s, args);
    FieldOf(s, 1, 'd', args);
    P.RenderStep(fmt, 0, args);
    DirectiveIsIso(fmt, 1, s, 'd', [], args);
    P.RenderEnd(fmt, 4, P.Rest(Remaining(s, args)));
    var f := IsoFlags(s, 'd', args);
    NoDigitsShown(zero, f.(precision := true, zeropad := false));
    assert Numeral(zero, 10, false) == "0" by { NumeralZero(zero); }
    PlainNumber(zero, false, f);
  }

  lemma NumeralZero(v: nat)
    requires v == 0
    ensures Numeral(v, 10, false) == "0"
  {
  }

  /** %.*s with a precision of -1, which counts as none, prints nothing of a string. */
  lemma NegativePrecisionLosesString(minus: uint64, text: seq<char>)
    requires minus == 0xFFFF_FFFF
    ensures P.Render("%.*s", 0, [P.Word(minus), P.Str(text)]) == ""
    ensures IsoDirective(Spec([], Absent, Star, Length.Plain), 's', [P.Word(minus), P.Str(text)]) == text
  {
    hide P.Render, P.ReadDirective, P.Convert, Taken, P.StrField, Blanked;
    var fmt, s, args := "%.*s", Spec([], Absent, Star, Length.Plain), [P.Word(minus), P.Str(text)];
    assert fmt[1..] == SpecText(s) + (['s'] + []);
    SpecRead(fmt, 1, s, 's', [], args);
    assert NegativePrecision(s, args);
    assert Remaining(s, args) == [P.Str(text)];
    TextConverts(s, 1, 's', args);
    TakenSizes(s, 1, args);
    P.RenderStep(fmt, 0, args);
    DirectiveIsIso(fmt, 1, s, 's', [], args);
    P.RenderEnd(fmt, 4, P.Rest(Remaining(s, args)));
    StringField(text, 0, 0, Taken(s, 1, args).flags);
    BlankedNone(text[..0], FlagsOf(s, args).left);
    BlankedNone(text, FlagsOf(s, args).left);
  }

  lemma BlankedNone(text: seq<char>, left: bool)
    ensures Blanked(text, 0, left) == text
  {
    BlankedIs(text, 0, left);
    AppendNone(text);
  }
}
