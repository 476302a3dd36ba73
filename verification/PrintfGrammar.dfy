/**
 * The grammar of conversion specifications, ISO C11 section 7.21.6.1: flags,
 * width, precision and length modifier, written down on its own.  The printer
 * reads every specification of the grammar as it is meant, but for a precision
 * given by a star whose argument is negative and for numbers beyond 32 bits.
 */
module PrintfGrammar {
  import opened Bytes
  import opened Numerals
  import opened CStrings
  import P = Printf

  /** A width or precision: not there, digits, or a star that takes an argument. */
  datatype Size = Absent | Given(digits: seq<char>) | Star

  datatype Length = Plain | Char | Short | Long | LongLong | PtrDiff | IntMax | SizeT

  datatype Spec = Spec(flags: seq<char>, width: Size, precision: Size, length: Length)

  ghost predicate IsSize(z: Size) {
    z.Given? ==> AllDigits(z.digits, 10)
  }

  /** A width does not start with a zero, which would be a flag; a precision may have no digits after its period. */
  ghost predicate IsSpec(s: Spec) {
    && (forall k :: 0 <= k < |s.flags| ==> P.IsFlag(s.flags[k]))
    && IsSize(s.width) && (s.width.Given? ==> s.width.digits != [] && s.width.digits[0] != '0')
    && IsSize(s.precision)
  }

  /** A character that can end a specification. */
  predicate IsConversion(c: char) {
    !P.IsFlag(c) && !P.IsDigit(c) && c != '*' && c != '.' && c != 'l' && c != 'h' && c != 't' && c != 'j' && c != 'z'
  }

  // ---- How a specification is written

  function SizeText(z: Size): seq<char> {
    match z
    case Absent => ""
    case Given(digits) => digits
    case Star => "*"
  }

  function PrecisionText(z: Size): seq<char> {
    if z.Absent? then "" else "." + SizeText(z)
  }

  function LengthText(l: Length): seq<char> {
    match l
    case Plain => "" case Char => "hh" case Short => "h" case Long => "l" case LongLong => "ll"
    case PtrDiff => "t" case IntMax => "j" case SizeT => "z"
  }

  function SpecText(s: Spec): seq<char> {
    s.flags + (SizeText(s.width) + (PrecisionText(s.precision) + LengthText(s.length)))
  }

  // ---- What it means

  function Argument(args: seq<P.Arg>): int {
    P.Signed32(P.Bits(args))
  }

  /** The arguments left after the star of a size, if it is one. */
  function AfterStar(z: Size, args: seq<P.Arg>): seq<P.Arg> {
    if z.Star? then P.Rest(args) else args
  }

  function Width(s: Spec, args: seq<P.Arg>): nat {
    match s.width
    case Absent => 0
    case Given(digits) => Value(digits, 10)
    case Star => if Argument(args) < 0 then -Argument(args) else Argument(args)
  }

  /** A precision given by a negative argument, which counts as none. */
  predicate NegativePrecision(s: Spec, args: seq<P.Arg>) {
    s.precision.Star? && Argument(AfterStar(s.width, args)) < 0
  }

  function Precision(s: Spec, args: seq<P.Arg>): nat {
    match s.precision
    case Absent => 0
    case Given(digits) => Value(digits, 10)
    case Star => if NegativePrecision(s, args) then 0 else Argument(AfterStar(s.width, args))
  }

  /** Width and precision are numbers of 32 bits. */
  predicate InRange(s: Spec, args: seq<P.Arg>) {
    Width(s, args) < TWO_32 && Precision(s, args) < TWO_32
  }

  predicate Has(s: seq<char>, c: char) {
    c in s
  }

  /** Which flags are set: those written, the minus a negative star stands for, and what precision and length say. */
  function FlagsOf(s: Spec, args: seq<P.Arg>): P.Flags {
    P.Flags(
      zeropad := Has(s.flags, '0'),
      left := Has(s.flags, '-') || (s.width.Star? && Argument(args) < 0),
      plus := Has(s.flags, '+'),
      space := Has(s.flags, ' '),
      hash := Has(s.flags, '#'),
      upper := false,
      char8 := s.length.Char?,
      short := s.length.Char? || s.length.Short?,
      long := !s.length.Plain? && !s.length.Char? && !s.length.Short?,
      precision := !s.precision.Absent? && !NegativePrecision(s, args))
  }

  /** A directive is what a specification written from position `i` on means, with the arguments its stars leave. */
  predicate AsMeant(d: P.Directive, s: Spec, i: nat, args: seq<P.Arg>) {
    && d.flags == FlagsOf(s, args) && d.width == Width(s, args) && d.prec == Precision(s, args)
    && d.at == i + |SpecText(s)| && d.args == AfterStar(s.precision, AfterStar(s.width, args))
  }

  /**
   * What the printer takes it for: numbers modulo 2^32, and a precision from a
   * negative argument still counts as one, of zero.
   */
  function Taken(s: Spec, i: nat, args: seq<P.Arg>): P.Directive {
    var f := FlagsOf(s, args);
    P.Directive(if NegativePrecision(s, args) then f.(precision := true) else f,
                Wrap32(Width(s, args)), Wrap32(Precision(s, args)), i + |SpecText(s)|,
                AfterStar(s.precision, AfterStar(s.width, args)))
  }

  // ---- Reading it

  function Union(f: P.Flags, s: seq<char>): (r: P.Flags)
    ensures r.precision == f.precision
  {
    f.(zeropad := f.zeropad || Has(s, '0'), left := f.left || Has(s, '-'), plus := f.plus || Has(s, '+'),
       space := f.space || Has(s, ' '), hash := f.hash || Has(s, '#'))
  }

  lemma UnionStep(f: P.Flags, c: char, s: seq<char>)
    requires P.IsFlag(c)
    ensures Union(P.SetFlag(f, c), s) == Union(f, [c] + s)
  {
    hide Has;
    HasCons('0', c, s);
    HasCons('-', c, s);
    HasCons('+', c, s);
    HasCons(' ', c, s);
    HasCons('#', c, s);
  }

  lemma HasCons(x: char, c: char, s: seq<char>)
    ensures Has([c] + s, x) <==> x == c || Has(s, x)
  {
  }

  lemma {:induction false} FlagsRead(fmt: seq<char>, i: nat, s: seq<char>, f: P.Flags)
    requires i + |s| <= |fmt| && fmt[i..i + |s|] == s && (forall k :: 0 <= k < |s| ==> P.IsFlag(s[k]))
    requires !P.IsFlag(At(fmt, i + |s|))
    ensures P.ReadFlags(fmt, i, f) == (Union(f, s), i + |s|)
    decreases |s|
  {
    hide Union, P.SetFlag, P.IsFlag;
    if s == [] {
      assert Union(f, s) == f by { UnionNone(f); }
    } else {
      SliceAt(fmt, i, s);
      var t := s[1..];
      assert fmt[i + 1..i + 1 + |t|] == t;
      FlagsRead(fmt, i + 1, t, P.SetFlag(f, s[0]));
      UnionStep(f, s[0], t);
      assert s == [s[0]] + t;
    }
  }

  lemma UnionNone(f: P.Flags)
    ensures Union(f, []) == f
  {
  }

  lemma WrapDigit(v: nat, d: nat)
    ensures Wrap32(Wrap32(v) * 10 + d) == Wrap32(v * 10 + d)
  {
    var q, r := v / TWO_32, v % TWO_32;
    assert v * 10 + d == (r * 10 + d) + (q * 10) * TWO_32;
    WrapMultiple(r * 10 + d, q * 10);
  }

  lemma WrapMultiple(a: nat, q: nat)
    ensures Wrap32(a + q * TWO_32) == Wrap32(a)
  {
  }

  /** Reading on inside a run of digits. */
  lemma {:induction false} DigitsRead(fmt: seq<char>, start: nat, i: nat, end: nat)
    requires start <= i <= end <= |fmt| && AllDigits(fmt[start..end], 10) && !P.IsDigit(At(fmt, end))
    ensures P.ReadNumber(fmt, i, Wrap32(Value(fmt[start..i], 10))) == (Wrap32(Value(fmt[start..end], 10)), end)
    decreases end - i
  {
    hide Value, Wrap32;
    if i < end {
      var v, d := Value(fmt[start..i], 10), DigitValue(fmt[i]);
      assert fmt[start..end][i - start] == fmt[i];
      DigitsRead(fmt, start, i + 1, end);
      ValueStep(fmt, start, i, 10);
      WrapDigit(v, d);
    }
  }

  lemma {:induction false} NumberRead(fmt: seq<char>, i: nat, w: seq<char>)
    requires AllDigits(w, 10)
    requires i + |w| <= |fmt| && fmt[i..i + |w|] == w && !P.IsDigit(At(fmt, i + |w|))
    ensures P.ReadNumber(fmt, i, 0) == (Wrap32(Value(w, 10)), i + |w|)
  {
    hide Value, P.ReadNumber, AllDigits;
    NoDigits(fmt[i..i]);
    DigitsRead(fmt, i, i, i + |w|);
  }

  // ---- Field by field

  /** What follows the flags does not continue them, and so on: first characters of the fields. */
  lemma FieldStarts(z: Size, l: Length, c: char)
    requires IsConversion(c)
    ensures
      var t := LengthText(l) + [c];
      !P.IsFlag(t[0]) && !P.IsDigit(t[0]) && t[0] != '*' && t[0] != '.'
    ensures
      var t := PrecisionText(z) + (LengthText(l) + [c]);
      !P.IsFlag(t[0]) && !P.IsDigit(t[0]) && t[0] != '*'
  {
    hide Numeral;
  }

  lemma WidthStart(s: Spec, rest: seq<char>)
    requires IsSpec(s) && rest != [] && !P.IsFlag(rest[0])
    ensures !P.IsFlag((SizeText(s.width) + rest)[0])
  {
    hide Value;
    assert s.width.Given? ==> DigitValue(s.width.digits[0]) < 10;
  }

  function WithWidth(d: P.Directive, z: Size): (r: P.Directive)
    ensures r.at == d.at + |SizeText(z)| && r.prec == d.prec
  {
    var w := Argument(d.args);
    match z
    case Absent => d
    case Given(digits) => d.(width := Wrap32(Value(digits, 10)), at := d.at + |SizeText(z)|)
    case Star => d.(flags := if w < 0 then d.flags.(left := true) else d.flags, width := if w < 0 then -w else w,
                    at := d.at + 1, args := P.Rest(d.args))
  }

  function WithPrecision(d: P.Directive, z: Size): (r: P.Directive)
    ensures r.at == d.at + |PrecisionText(z)|
  {
    var e := d.(flags := d.flags.(precision := true), at := d.at + |PrecisionText(z)|);
    match z
    case Absent => d
    case Given(digits) => e.(prec := Wrap32(Value(digits, 10)))
    case Star => e.(prec := Max(Argument(d.args), 0), args := P.Rest(d.args))
  }

  function WithLength(d: P.Directive, l: Length): (r: P.Directive)
    ensures r.at == d.at + |LengthText(l)|
  {
    d.(at := d.at + |LengthText(l)|, flags := d.flags.(
      char8 := d.flags.char8 || l.Char?, short := d.flags.short || l.Char? || l.Short?,
      long := d.flags.long || (!l.Plain? && !l.Char? && !l.Short?)))
  }

  lemma WidthRead(fmt: seq<char>, d: P.Directive, z: Size, rest: seq<char>)
    requires IsSize(z) && z != Given([]) && d.at <= |fmt| && fmt[d.at..] == SizeText(z) + rest
    requires rest != [] && !P.IsDigit(rest[0]) && rest[0] != '*' && d.width == 0
    ensures P.ReadWidth(fmt, d) == WithWidth(d, z)
  {
    hide Value, P.ReadNumber;
    StartsWith(fmt, d.at, SizeText(z) + rest);
    if z.Given? {
      assert DigitValue(z.digits[0]) < 10;
      Cut(fmt, d.at, z.digits, rest);
      StartsWith(fmt, d.at + |z.digits|, rest);
      NumberRead(fmt, d.at, z.digits);
    }
  }

  lemma PrecisionRead(fmt: seq<char>, d: P.Directive, z: Size, rest: seq<char>)
    requires IsSize(z) && d.at <= |fmt| && fmt[d.at..] == PrecisionText(z) + rest
    requires rest != [] && !P.IsDigit(rest[0]) && rest[0] != '*' && rest[0] != '.' && d.prec == 0
    ensures P.ReadPrecision(fmt, d) == WithPrecision(d, z)
  {
    hide Value, P.ReadNumber, IsSize;
    StartsWith(fmt, d.at, PrecisionText(z) + rest);
    if !z.Absent? {
      assert PrecisionText(z) + rest == "." + (SizeText(z) + rest);
      Cut(fmt, d.at, ".", SizeText(z) + rest);
      StartsWith(fmt, d.at + 1, SizeText(z) + rest);
      if z.Given? {
        PrecisionDigits(fmt, d, z.digits, rest);
      }
    }
  }

  lemma PrecisionDigits(fmt: seq<char>, d: P.Directive, w: seq<char>, rest: seq<char>)
    requires IsSize(Given(w)) && d.at < |fmt| && fmt[d.at] == '.' && fmt[d.at + 1..] == w + rest
    requires rest != [] && !P.IsDigit(rest[0]) && rest[0] != '*' && d.prec == 0
    ensures P.ReadPrecision(fmt, d) == WithPrecision(d, Given(w))
  {
    hide Value, P.ReadNumber, AllDigits;
    StartsWith(fmt, d.at + 1, w + rest);
    if w == [] {
      NoDigits(w);
    } else {
      FirstDigit(w);
      Cut(fmt, d.at + 1, w, rest);
      StartsWith(fmt, d.at + 1 + |w|, rest);
      NumberRead(fmt, d.at + 1, w);
    }
  }

  lemma FirstDigit(w: seq<char>)
    requires AllDigits(w, 10) && w != []
    ensures P.IsDigit(w[0])
  {
    assert DigitValue(w[0]) < 10;
  }

  lemma NoDigits(w: seq<char>)
    ensures w == [] ==> Value(w, 10) == 0
  {
  }

  lemma RestAt(fmt: seq<char>, i: nat, t: seq<char>, k: nat)
    requires i <= |fmt| && fmt[i..] == t
    ensures At(fmt, i + k) == At(t, k)
  {
  }

  lemma LengthRead(fmt: seq<char>, d: P.Directive, l: Length, c: char, more: seq<char>)
    requires d.at <= |fmt| && fmt[d.at..] == LengthText(l) + ([c] + more) && IsConversion(c)
    ensures P.ReadLength(fmt, d) == WithLength(d, l)
    ensures At(fmt, d.at + |LengthText(l)|) == c
  {
    var t := LengthText(l) + ([c] + more);
    RestAt(fmt, d.at, t, 0);
    RestAt(fmt, d.at, t, 1);
    RestAt(fmt, d.at, t, 2);
    LengthEnd(l, c, more);
    hide At;
    assert d.at + 0 == d.at;
    SameLength(fmt, d, l, c);
  }

  lemma LengthEnd(l: Length, c: char, more: seq<char>)
    ensures
      var t, n := LengthText(l) + ([c] + more), |LengthText(l)|;
      n <= 2 && At(t, n) == c && (n >= 1 ==> At(t, 0) == LengthText(l)[0]) && (n == 2 ==> At(t, 1) == LengthText(l)[1])
  {
  }

  /** The modifier decided by its characters and the conversion behind it. */
  lemma SameLength(fmt: seq<char>, d: P.Directive, l: Length, c: char)
    requires IsConversion(c)
    requires
      var w := LengthText(l);
      && At(fmt, d.at + |w|) == c && (|w| >= 1 ==> At(fmt, d.at) == w[0])
      && (|w| == 2 ==> At(fmt, d.at + 1) == w[1])
    ensures P.ReadLength(fmt, d) == WithLength(d, l)
  {
    hide At;
    match l {
      case Plain =>
      case Char =>
      case Short =>
      case Long =>
      case LongLong =>
      case PtrDiff =>
      case IntMax =>
      case SizeT =>
    }
  }

  /**
   * Every specification of the grammar, before any conversion character and
   * wherever it stands in a format, is read as it is meant, if and only if its
   * precision is not a star with a negative argument and its numbers have 32 bits.
   * Stars take their arguments in order, and reading stops at the conversion
   * character either way.
   */
  lemma SpecRead(fmt: seq<char>, i: nat, s: Spec, c: char, more: seq<char>, args: seq<P.Arg>)
    requires IsSpec(s) && IsConversion(c) && i <= |fmt| && fmt[i..] == SpecText(s) + ([c] + more)
    ensures P.ReadDirective(fmt, i, args) == Taken(s, i, args) && At(fmt, i + |SpecText(s)|) == c
    ensures AsMeant(P.ReadDirective(fmt, i, args), s, i, args) <==> !NegativePrecision(s, args) && InRange(s, args)
  {
    hide SizeText, PrecisionText, LengthText, P.ReadFlags, P.ReadWidth, P.ReadPrecision, P.ReadLength, P.IsFlag,
         WithWidth, WithPrecision, WithLength, Union, FlagsOf, Width, Precision, AfterStar, IsConversion, P.IsDigit;
    var w := SizeText(s.width) + (PrecisionText(s.precision) + (LengthText(s.length) + ([c] + more)));
    Regroup(s.flags, SizeText(s.width), PrecisionText(s.precision), LengthText(s.length), [c] + more);
    Starts(s, c, more);
    Cut(fmt, i, s.flags, w);
    var p1 := i + |s.flags|;
    StartsWith(fmt, p1, w);
    FlagsRead(fmt, i, s.flags, P.NO_FLAGS);
    FieldsRead(fmt, P.Directive(Union(P.NO_FLAGS, s.flags), 0, 0, p1, args), s, c, more);
    Meaning(s, p1, args);
    PrecisionFlag(s, args);
  }

  lemma FieldsRead(fmt: seq<char>, d: P.Directive, s: Spec, c: char, more: seq<char>)
    requires IsSpec(s) && IsConversion(c) && d.at <= |fmt| && d.width == 0 && d.prec == 0
    requires fmt[d.at..] == SizeText(s.width) + (PrecisionText(s.precision) + (LengthText(s.length) + ([c] + more)))
    ensures
      var r := WithLength(WithPrecision(WithWidth(d, s.width), s.precision), s.length);
      P.ReadLength(fmt, P.ReadPrecision(fmt, P.ReadWidth(fmt, d))) == r && At(fmt, r.at) == c
  {
    hide SizeText, PrecisionText, LengthText, P.ReadWidth, P.ReadPrecision, P.ReadLength, WithWidth,
         WithPrecision, WithLength, IsConversion, P.IsDigit;
    var rest := PrecisionText(s.precision) + (LengthText(s.length) + ([c] + more));
    Starts(s, c, more);
    WidthRead(fmt, d, s.width, rest);
    Cut(fmt, d.at, SizeText(s.width), rest);
    LastFieldsRead(fmt, WithWidth(d, s.width), s, c, more);
  }

  lemma LastFieldsRead(fmt: seq<char>, d: P.Directive, s: Spec, c: char, more: seq<char>)
    requires IsSpec(s) && IsConversion(c) && d.at <= |fmt| && d.prec == 0
    requires fmt[d.at..] == PrecisionText(s.precision) + (LengthText(s.length) + ([c] + more))
    ensures
      var r := WithLength(WithPrecision(d, s.precision), s.length);
      P.ReadLength(fmt, P.ReadPrecision(fmt, d)) == r && At(fmt, r.at) == c
  {
    hide SizeText, PrecisionText, LengthText, P.ReadPrecision, P.ReadLength, WithPrecision, WithLength,
         IsConversion, P.IsDigit;
    var rest := LengthText(s.length) + ([c] + more);
    Starts(s, c, more);
    PrecisionRead(fmt, d, s.precision, rest);
    Cut(fmt, d.at, PrecisionText(s.precision), rest);
    LengthRead(fmt, WithPrecision(d, s.precision), s.length, c, more);
  }

  lemma Regroup(a: seq<char>, b: seq<char>, c: seq<char>, d: seq<char>, e: seq<char>)
    ensures a + (b + (c + d)) + e == a + (b + (c + (d + e)))
  {
  }

  /** How each field's remainder begins. */
  lemma Starts(s: Spec, c: char, more: seq<char>)
    requires IsSpec(s) && IsConversion(c)
    ensures
      var l := LengthText(s.length) + ([c] + more);
      var p := PrecisionText(s.precision) + l;
      var w := SizeText(s.width) + p;
      l != [] && !P.IsDigit(l[0]) && l[0] != '*' && l[0] != '.' &&
      p != [] && !P.IsDigit(p[0]) && p[0] != '*' && w != [] && !P.IsFlag(w[0])
  {
    hide Numeral, SizeText, P.IsFlag, P.IsDigit, LengthText, PrecisionText, IsConversion;
    var l := LengthText(s.length) + ([c] + more);
    var p := PrecisionText(s.precision) + l;
    FieldStarts(s.precision, s.length, c);
    assert l == (LengthText(s.length) + [c]) + more;
    assert p == (PrecisionText(s.precision) + (LengthText(s.length) + [c])) + more;
    WidthStart(s, p);
  }

  /** The flags after the width: a negative star stands for a minus. */
  function AfterWidth(f: P.Flags, s: Spec, args: seq<P.Arg>): P.Flags {
    f.(left := f.left || (s.width.Star? && Argument(args) < 0))
  }

  /** Any precision sets the flag. */
  function AfterPrecision(f: P.Flags, s: Spec): P.Flags {
    f.(precision := !s.precision.Absent?)
  }

  lemma Meaning(s: Spec, p1: nat, args: seq<P.Arg>)
    requires IsSpec(s)
    ensures
      var d1 := P.Directive(Union(P.NO_FLAGS, s.flags), 0, 0, p1, args);
      var d := WithLength(WithPrecision(WithWidth(d1, s.width), s.precision), s.length);
      d == P.Directive(AfterPrecision(FlagsOf(s, args), s), Wrap32(Width(s, args)), Wrap32(Precision(s, args)),
                       d.at,
                       AfterStar(s.precision, AfterStar(s.width, args)))
  {
    hide SizeText, PrecisionText, LengthText, Argument, P.Rest, Union, FlagsOf, WithWidth, WithPrecision, WithLength,
         AfterStar, Width, Precision, IsSize, AfterWidth, AfterPrecision;
    var d1 := P.Directive(Union(P.NO_FLAGS, s.flags), 0, 0, p1, args);
    WidthMeans(s, d1);
    var d2 := WithWidth(d1, s.width);
    PrecisionMeans(s, d2, args);
    var d3 := WithPrecision(d2, s.precision);
    LengthMeans(s, d3, args);
  }

  lemma WidthMeans(s: Spec, d: P.Directive)
    requires IsSize(s.width) && d.width == 0 && d.prec == 0
    ensures
      var r := WithWidth(d, s.width);
      r == P.Directive(AfterWidth(d.flags, s, d.args), Wrap32(Width(s, d.args)), 0, r.at, AfterStar(s.width, d.args))
    ensures AfterWidth(d.flags, s, d.args).precision == d.flags.precision
  {
    hide SizeText, Argument, P.Rest, Value, IsSize;
    if !s.width.Star? { assert AfterWidth(d.flags, s, d.args) == d.flags; }
  }

  lemma PrecisionMeans(s: Spec, d: P.Directive, args: seq<P.Arg>)
    requires IsSize(s.precision) && d.prec == 0 && !d.flags.precision && d.args == AfterStar(s.width, args)
    ensures
      var r := WithPrecision(d, s.precision);
      r == P.Directive(AfterPrecision(d.flags, s), d.width, Wrap32(Precision(s, args)), r.at,
                       AfterStar(s.precision, d.args))
  {
    hide PrecisionText, Argument, P.Rest, Value, IsSize;
  }

  lemma LengthMeans(s: Spec, d: P.Directive, args: seq<P.Arg>)
    requires d.flags == AfterPrecision(AfterWidth(Union(P.NO_FLAGS, s.flags), s, args), s)
    ensures
      var r := WithLength(d, s.length);
      r == d.(flags := AfterPrecision(FlagsOf(s, args), s), at := r.at)
  {
    hide LengthText, Argument, Has, NegativePrecision;
  }

  lemma PrecisionFlag(s: Spec, args: seq<P.Arg>)
    ensures
      var f := FlagsOf(s, args);
      if NegativePrecision(s, args) then AfterPrecision(f, s) == f.(precision := true) && !f.precision
      else AfterPrecision(f, s) == f
  {
    hide Argument, Has;
  }
}
