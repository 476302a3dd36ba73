/**
 * Integer fields against ISO C11 section 7.21.6.1.  The standard's field is
 * written down on its own, most significant digit first; the theorems say for
 * which widths, precisions and flags the printer, working through its reversed
 * 32-character buffer, produces exactly that field.
 */
module PrintfIso {
  import opened Bytes
  import opened Numerals
  import opened Printf

  function Sign(negative: bool, f: Flags): seq<char> {
    if negative then "-" else if f.plus then "+" else if f.space then " " else ""
  }

  /** The # prefix: of a number that is not zero in base 16; in octal, a zero unless the digits start with one. */
  function Prefix(v: nat, base: nat, body: seq<char>, f: Flags): seq<char> {
    if !f.hash then ""
    else if base == 16 then (if v == 0 then "" else if f.upper then "0X" else "0x")
    else if base == 8 then (if body != [] && body[0] == '0' then "" else "0")
    else ""
  }

  /** Digits with at least `prec` of them; zero with an explicit precision of zero has none. */
  function Body(v: nat, base: nat, prec: nat, f: Flags): seq<char>
    requires IsBase(base)
  {
    if f.precision && prec == 0 && v == 0 then []
    else Repeat('0', prec - |Numeral(v, base, f.upper)|) + Numeral(v, base, f.upper)
  }

  function Padded(lead: seq<char>, body: seq<char>, width: nat, f: Flags): seq<char> {
    var n := width - |lead| - |body|;
    if f.left then lead + body + Repeat(' ', n)
    else if f.zeropad && !f.precision then lead + Repeat('0', n) + body
    else Repeat(' ', n) + lead + body
  }

  function IsoField(v: nat, negative: bool, base: nat, prec: nat, width: nat, f: Flags): seq<char>
    requires IsBase(base)
  {
    var body := Body(v, base, prec, f);
    Padded(Sign(negative, f) + Prefix(v, base, body, f), body, width, f)
  }

  // ---- What the reversed buffer holds, read forwards

  /** The digits the conversion loop produces, most significant first. */
  function Printed(v: uint64, base: nat, f: Flags): seq<char>
    requires IsBase(base)
  {
    if f.precision && v == 0 then [] else Numeral(v, base, f.upper)
  }

  lemma PrintedDigits(v: uint64, base: nat, f: Flags)
    requires IsBase(base) && base >= 8
    ensures Reverse(Digits(v, base, f)) == Printed(v, base, f) && |Printed(v, base, f)| <= 22
  {
    hide LowDigits, Numeral;
    Numeral64(v, base, f.upper);
    if !(f.precision && v == 0) {
      LowDigitsReverse(v, base, f.upper, NTOA_BUFFER_SIZE);
    }
  }

  lemma ReversePadZeros(rev: seq<char>, n: nat)
    ensures Reverse(PadZeros(rev, n)) == Repeat('0', Min(n, NTOA_BUFFER_SIZE) - |rev|) + Reverse(rev)
  {
  }

  lemma ReversePush(rev: seq<char>, c: char)
    ensures Reverse(Push(rev, c)) == if |rev| < NTOA_BUFFER_SIZE then [c] + Reverse(rev) else Reverse(rev)
  {
  }

  lemma ReverseSign(rev: seq<char>, negative: bool, f: Flags)
    ensures Reverse(WithSign(rev, negative, f))
         == if |rev| < NTOA_BUFFER_SIZE then Sign(negative, f) + Reverse(rev) else Reverse(rev)
  {
    ReversePush(rev, if negative then '-' else if f.plus then '+' else ' ');
    assert [] + Reverse(rev) == Reverse(rev);
  }

  /** Zero padding read forwards: to the precision and, under the 0 flag, to the width. */
  lemma ReverseZeros(rev: seq<char>, prec: uint32, width: uint32, f: Flags)
    requires |rev| <= NTOA_BUFFER_SIZE
    ensures
      var n := if f.left then 0 else Min(Max(prec, if f.zeropad then width else 0), NTOA_BUFFER_SIZE);
      Reverse(WithZeros(rev, prec, width, f)) == Repeat('0', n - |rev|) + Reverse(rev)
  {
    if !f.left {
      ReversePadZeros(rev, prec);
      ReversePadZeros(PadZeros(rev, prec), width);
    }
  }

  // ---- Without the # flag

  /**
   * When the printer's field is the standard's: never with precision padding
   * under the minus flag, and only while zeros and sign fit the buffer.  (A space
   * for a sign may be cut off unnoticed when a padding space stands in its place.)
   */
  predicate Conforms(digits: nat, sign: seq<char>, prec: nat, width: nat, f: Flags) {
    if f.left then prec <= digits
    else if f.precision then
      prec + |sign| <= NTOA_BUFFER_SIZE || (sign == " " && prec == NTOA_BUFFER_SIZE && width > NTOA_BUFFER_SIZE)
    else f.zeropad ==> width <= NTOA_BUFFER_SIZE
  }

  /** The digits, zero padding and sign in the buffer, read forwards. */
  function Forward(d: seq<char>, negative: bool, prec: nat, width: nat, f: Flags): seq<char> {
    var n := if f.left then 0 else Min(Max(prec, if f.zeropad then width else 0), NTOA_BUFFER_SIZE);
    var body := Repeat('0', n - |d|) + d;
    if |body| < NTOA_BUFFER_SIZE then Sign(negative, f) + body else body
  }

  lemma ForwardBuffer(rev: seq<char>, negative: bool, base: nat, prec: uint32, width: uint32, f: Flags)
    requires |rev| <= NTOA_BUFFER_SIZE && !f.hash
    ensures Reverse(FormatRev(rev, negative, base, prec, width, f))
         == Forward(Reverse(rev), negative, prec, ZeroWidth(negative, width, f), f)
  {
    hide WithZeros, WithSign, Sign, Reverse;
    var w := ZeroWidth(negative, width, f);
    ReverseZeros(rev, prec, w, f);
    ReverseSign(WithZeros(rev, prec, w, f), negative, f);
  }

  /** The printer's field read off the buffer, for digits `d`. */
  function Ours(d: seq<char>, negative: bool, prec: nat, width: uint32, f: Flags): seq<char> {
    var w := ZeroWidth(negative, width, f);
    var text := Forward(d, negative, prec, w, f);
    Repeat(' ', if f.left || f.zeropad then 0 else w - |text|) + text + Repeat(' ', if f.left then w - |text| else 0)
  }

  /** The standard's field for digits `d`. */
  function Theirs(d: seq<char>, negative: bool, prec: nat, width: uint32, f: Flags): seq<char> {
    Padded(Sign(negative, f), Repeat('0', prec - |d|) + d, width, f)
  }

  lemma FieldShape(v: uint64, negative: bool, base: nat, prec: uint32, width: uint32, f: Flags)
    requires IsBase(base) && base >= 8 && !f.hash
    ensures IntField(v, negative, base, prec, width, f) == Ours(Printed(v, base, f), negative, prec, width, f)
  {
    hide Digits, Printed, FormatRev, Forward, Reverse, Repeat, ZeroWidth;
    PrintedDigits(v, base, f);
    ForwardBuffer(Digits(v, base, f), negative, base, prec, width, f);
    assert f.(hash := false) == f;
  }

  /** The standard's digits are the printed ones with zeros in front up to the precision. */
  lemma BodyShape(v: uint64, base: nat, prec: nat, f: Flags)
    requires IsBase(base) && base >= 8
    ensures Body(v, base, prec, f) == Repeat('0', prec - |Printed(v, base, f)|) + Printed(v, base, f)
  {
    if f.precision && v == 0 {
      assert Numeral(0, base, f.upper) == ['0'];
    }
  }

  lemma IsoShape(v: uint64, negative: bool, base: nat, prec: uint32, width: uint32, f: Flags)
    requires IsBase(base) && base >= 8 && !f.hash
    ensures IsoField(v, negative, base, prec, width, f) == Theirs(Printed(v, base, f), negative, prec, width, f)
  {
    hide Body, Printed, Padded, Sign, Repeat;
    BodyShape(v, base, prec, f);
    assert Sign(negative, f) + Prefix(v, base, Body(v, base, prec, f), f) == Sign(negative, f);
  }

  predicate PlainFlags(f: Flags, prec: nat) {
    !f.hash && !(f.zeropad && f.precision) && (!f.precision ==> prec == 0)
  }

  lemma SignLength(negative: bool, f: Flags)
    ensures |Sign(negative, f)| == if negative || f.plus || f.space then 1 else 0
    ensures |Sign(negative, f)| == 1 ==> Sign(negative, f) == " " || Sign(negative, f)[0] != ' '
  {
  }

  lemma LeftField(d: seq<char>, negative: bool, prec: uint32, width: uint32, f: Flags)
    requires PlainFlags(f, prec) && f.left && |d| <= 22 && (d != [] && prec != 0 ==> d[0] != '0')
    ensures Ours(d, negative, prec, width, f) == Theirs(d, negative, prec, width, f) <==> prec <= |d|
  {
    hide Sign;
    SignLength(negative, f);
    var k := |Sign(negative, f)|;
    if prec > |d| {
      assert Theirs(d, negative, prec, width, f)[k] == '0';
      assert k < |Ours(d, negative, prec, width, f)| ==> Ours(d, negative, prec, width, f)[k] != '0';
    } else {
      assert Repeat('0', prec - |d|) + d == d;
    }
  }

  lemma NoPadding(c: char, n: int, s: seq<char>)
    requires n <= 0
    ensures Repeat(c, n) + s == s && s + Repeat(c, n) == s
  {
  }

  lemma Associate(a: seq<char>, b: seq<char>, c: seq<char>)
    ensures (a + b) + c == a + (b + c)
  {
  }

  lemma ZeroFits(d: seq<char>, negative: bool, width: uint32, f: Flags)
    requires PlainFlags(f, 0) && !f.left && f.zeropad && |d| <= 22 && width <= NTOA_BUFFER_SIZE
    ensures Ours(d, negative, 0, width, f) == Theirs(d, negative, 0, width, f)
  {
    hide Sign, Repeat;
    SignLength(negative, f);
    var w, k := ZeroWidth(negative, width, f), |Sign(negative, f)|;
    var text := Sign(negative, f) + (Repeat('0', w - |d|) + d);
    assert Forward(d, negative, 0, w, f) == text;
    NoPadding(' ', 0, text);
    NoPadding('0', 0 - |d|, d);
    Associate(Sign(negative, f), Repeat('0', w - |d|), d);
    if width == w + k {
      assert width - k - |d| == w - |d|;
    } else {
      NoPadding('0', w - |d|, d);
      NoPadding('0', width - k - |d|, Sign(negative, f));
    }
  }

  lemma ZeroTooWide(d: seq<char>, negative: bool, width: uint32, f: Flags)
    requires PlainFlags(f, 0) && !f.left && f.zeropad && |d| <= 22 && width > NTOA_BUFFER_SIZE
    ensures |Ours(d, negative, 0, width, f)| < |Theirs(d, negative, 0, width, f)|
  {
    hide Sign;
    SignLength(negative, f);
    assert |Forward(d, negative, 0, ZeroWidth(negative, width, f), f)| == NTOA_BUFFER_SIZE;
    assert |Theirs(d, negative, 0, width, f)| == width;
  }

  lemma ForwardFits(d: seq<char>, negative: bool, prec: nat, width: nat, f: Flags)
    requires !f.left && !f.zeropad && |d| <= 22 && prec + |Sign(negative, f)| <= NTOA_BUFFER_SIZE
    ensures Forward(d, negative, prec, width, f) == Sign(negative, f) + (Repeat('0', prec - |d|) + d)
  {
    hide Sign, Repeat;
    SignLength(negative, f);
    var body := Repeat('0', prec - |d|) + d;
    if |body| == NTOA_BUFFER_SIZE {
      assert Sign(negative, f) == [];
      AppendEmpty(body);
    }
  }

  lemma SpaceField(d: seq<char>, negative: bool, prec: uint32, width: uint32, f: Flags)
    requires PlainFlags(f, prec) && !f.left && !f.zeropad && |d| <= 22 && prec + |Sign(negative, f)| <= NTOA_BUFFER_SIZE
    ensures Ours(d, negative, prec, width, f) == Theirs(d, negative, prec, width, f)
  {
    hide Sign, Repeat, Forward;
    ForwardFits(d, negative, prec, width, f);
    var body := Repeat('0', prec - |d|) + d;
    var text := Sign(negative, f) + body;
    var pad := Repeat(' ', width - |text|);
    NoPadding(' ', 0, pad + text);
    Associate(pad, Sign(negative, f), body);
  }

  lemma LongPrecision(d: seq<char>, negative: bool, prec: uint32, width: uint32, f: Flags)
    requires PlainFlags(f, prec) && !f.left && !f.zeropad && |d| <= 22 && prec + |Sign(negative, f)| > NTOA_BUFFER_SIZE
    ensures Ours(d, negative, prec, width, f) == Theirs(d, negative, prec, width, f)
      <==> Sign(negative, f) == " " && prec == NTOA_BUFFER_SIZE && width > NTOA_BUFFER_SIZE
  {
    hide Sign;
    SignLength(negative, f);
    var ours, theirs := Ours(d, negative, prec, width, f), Theirs(d, negative, prec, width, f);
    var k := |Sign(negative, f)|;
    var n := width - prec - k;
    if n < 0 {
      assert |theirs| > |ours|;
    } else if k == 0 || Sign(negative, f) != " " {
      assert theirs[n] != ' ' && ours[n] == ' ';
    } else if prec > NTOA_BUFFER_SIZE {
      assert theirs[n + 1] == '0' && ours[n + 1] == ' ';
    }
  }

  lemma FieldConforms(d: seq<char>, negative: bool, prec: uint32, width: uint32, f: Flags)
    requires PlainFlags(f, prec) && |d| <= 22 && (d != [] && prec != 0 ==> d[0] != '0')
    ensures Ours(d, negative, prec, width, f) == Theirs(d, negative, prec, width, f)
      <==> Conforms(|d|, Sign(negative, f), prec, width, f)
  {
    hide Sign, Ours, Theirs;
    SignLength(negative, f);
    if f.left { LeftField(d, negative, prec, width, f); }
    else if f.zeropad && width <= NTOA_BUFFER_SIZE { ZeroFits(d, negative, width, f); }
    else if f.zeropad { ZeroTooWide(d, negative, width, f); }
    else if prec + |Sign(negative, f)| <= NTOA_BUFFER_SIZE { SpaceField(d, negative, prec, width, f); }
    else { LongPrecision(d, negative, prec, width, f); }
  }

  /**
   * d, i, u, x, X and o without the # flag: the printed field is the standard's
   * exactly when `Conforms` holds, for every value, width, precision and flags.
   */
  lemma FieldIsIso(v: uint64, negative: bool, base: nat, prec: uint32, width: uint32, f: Flags)
    requires IsBase(base) && base >= 8 && PlainFlags(f, prec)
    ensures IntField(v, negative, base, prec, width, f) == IsoField(v, negative, base, prec, width, f)
      <==> Conforms(|Printed(v, base, f)|, Sign(negative, f), prec, width, f)
  {
    hide Sign, Ours, Theirs, Conforms, Printed, IntField, IsoField;
    PrintedStart(v, base, prec, f);
    FieldShape(v, negative, base, prec, width, f);
    IsoShape(v, negative, base, prec, width, f);
    FieldConforms(Printed(v, base, f), negative, prec, width, f);
  }

  lemma PrintedStart(v: uint64, base: nat, prec: nat, f: Flags)
    requires IsBase(base) && base >= 8 && PlainFlags(f, prec)
    ensures
      var d := Printed(v, base, f);
      |d| <= 22 && (d != [] && prec != 0 ==> d[0] != '0')
  {
    hide Numeral, Digits;
    PrintedDigits(v, base, f);
    NoLeadingZero(v, base, f.upper);
  }

  // ---- With the # flag

  predicate HashFlags(base: nat, f: Flags) {
    f.hash && !f.precision && !f.plus && !f.space && (base == 8 || base == 16)
  }

  function Mark(base: nat, f: Flags): seq<char> {
    if base == 8 then "0" else if f.upper then "0X" else "0x"
  }

  /** The prefix in front of `r`, as far as the buffer holds it. */
  function Fitted(r: seq<char>, base: nat, f: Flags): seq<char> {
    var room := NTOA_BUFFER_SIZE - |r|;
    var mark := Mark(base, f);
    (if room >= |mark| then mark else if room == 1 then mark[1..] else []) + r
  }

  /** The prefix step read forwards: digits dropped when their number equals the width, then the prefix. */
  function Marked(b: seq<char>, base: nat, width: nat, f: Flags): seq<char> {
    var cut := if b != [] && |b| == width then (if |b| > 1 && base == 16 then 2 else 1) else 0;
    Fitted(b[cut..], base, f)
  }

  lemma ReverseCut(rev: seq<char>, n: nat)
    requires n <= |rev|
    ensures Reverse(rev[..n]) == Reverse(rev)[|rev| - n..]
  {
  }

  /** The pushed prefix read forwards. */
  lemma ReverseMark(r: seq<char>, base: nat, f: Flags)
    requires base == 8 || base == 16
    ensures Reverse(Push(if base == 16 then Push(r, if f.upper then 'X' else 'x') else r, '0'))
         == Fitted(Reverse(r), base, f)
  {
    hide Reverse;
    var x := if f.upper then 'X' else 'x';
    AppendEmpty(Reverse(r));
    if base == 16 {
      ReversePush(r, x);
      ReversePush(Push(r, x), '0');
      if |r| + 2 <= NTOA_BUFFER_SIZE {
        Associate(['0'], [x], Reverse(r));
        assert ['0'] + [x] == Mark(base, f);
      } else if |r| + 1 == NTOA_BUFFER_SIZE {
        assert Mark(base, f)[1..] == [x];
      }
    } else {
      ReversePush(r, '0');
    }
  }

  lemma ReverseHash(rev: seq<char>, base: nat, width: uint32, f: Flags)
    requires HashFlags(base, f) && |rev| <= NTOA_BUFFER_SIZE
    ensures Reverse(WithHash(rev, base, 0, width, f)) == Marked(Reverse(rev), base, width, f)
  {
    hide Reverse, Push, Mark;
    var r := HashCut(rev, base, 0, width, f);
    assert r == rev[..|r|];
    ReverseCut(rev, |r|);
    ReverseMark(r, base, f);
    assert Reverse(rev)[0..] == Reverse(rev);
  }

  function HashOurs(d: seq<char>, base: nat, width: uint32, f: Flags): seq<char> {
    var n := if f.left || !f.zeropad then 0 else Min(width, NTOA_BUFFER_SIZE);
    var text := Marked(Repeat('0', n - |d|) + d, base, width, f);
    Repeat(' ', if f.left || f.zeropad then 0 else width - |text|) + text
      + Repeat(' ', if f.left then width - |text| else 0)
  }

  lemma {:induction false} HashShape(v: uint64, base: nat, width: uint32, f: Flags)
    requires HashFlags(base, f) && v != 0
    ensures IntField(v, false, base, 0, width, f) == HashOurs(Numeral(v, base, f.upper), base, width, f)
  {
    hide Digits, Numeral, Marked, WithHash, WithZeros, Reverse;
    var rev := Digits(v, base, f);
    PrintedDigits(v, base, f);
    ReverseZeros(rev, 0, width, f);
    ReverseHash(WithZeros(rev, 0, width, f), base, width, f);
  }

  /** When a # field is the standard's: no digit may be taken for padding. */
  predicate HashConforms(digits: nat, mark: nat, width: nat, f: Flags) {
    if f.zeropad && !f.left then digits > width || (width <= NTOA_BUFFER_SIZE && digits + mark <= width)
    else digits != width
  }

  lemma MarkLength(base: nat, f: Flags)
    requires base == 8 || base == 16
    ensures |Mark(base, f)| == (if base == 16 then 2 else 1) && Mark(base, f)[0] == '0'
  {
  }

  /** Room for the prefix was padded with zeros: it replaces them. */
  lemma HashZeroFits(d: seq<char>, base: nat, width: uint32, f: Flags)
    requires HashFlags(base, f) && 1 <= |d| && f.zeropad && !f.left
    requires width <= NTOA_BUFFER_SIZE && |d| + |Mark(base, f)| <= width
    ensures HashOurs(d, base, width, f) == Padded(Mark(base, f), d, width, f)
  {
    hide Mark;
    MarkLength(base, f);
    var m := |Mark(base, f)|;
    var b, zeros := Repeat('0', width - |d|) + d, Repeat('0', width - m - |d|);
    assert b[m..] == zeros + d by { hide Marked, HashOurs, Padded; }
    var text := Marked(b, base, width, f);
    assert text == Mark(base, f) + (zeros + d);
    hide Marked, Repeat;
    NoPadding(' ', 0, text);
    Associate(Mark(base, f), zeros, d);
  }

  /** The digits alone are wider than the field. */
  lemma HashZeroWide(d: seq<char>, base: nat, width: uint32, f: Flags)
    requires HashFlags(base, f) && 1 <= |d| <= 22 && f.zeropad && !f.left && |d| > width
    ensures HashOurs(d, base, width, f) == Padded(Mark(base, f), d, width, f)
  {
    hide Mark, Repeat;
    MarkLength(base, f);
    NoPadding('0', Min(width, NTOA_BUFFER_SIZE) - |d|, d);
    assert d[0..] == d;
    var text := Mark(base, f) + d;
    assert Marked(d, base, width, f) == text;
    NoPadding(' ', 0, text);
    NoPadding('0', width - |Mark(base, f)| - |d|, Mark(base, f));
  }

  /** The prefix replaces digits, or does not fit the buffer: the field is too short. */
  lemma HashZeroShort(d: seq<char>, base: nat, width: uint32, f: Flags)
    requires HashFlags(base, f) && 1 <= |d| <= 22 && f.zeropad && !f.left && |d| <= width
    requires width > NTOA_BUFFER_SIZE || |d| + |Mark(base, f)| > width
    ensures |HashOurs(d, base, width, f)| < |Padded(Mark(base, f), d, width, f)|
  {
    hide Mark;
    MarkLength(base, f);
    var b := Repeat('0', Min(width, NTOA_BUFFER_SIZE) - |d|) + d;
    assert |b| == Min(width, NTOA_BUFFER_SIZE);
    assert |Padded(Mark(base, f), d, width, f)| == Max(width, |d| + |Mark(base, f)|);
  }

  lemma HashPlainField(d: seq<char>, base: nat, width: uint32, f: Flags)
    requires HashFlags(base, f) && 1 <= |d| <= 22 && (f.left || !f.zeropad)
    ensures HashOurs(d, base, width, f) == Padded(Mark(base, f), d, width, f) <==> |d| != width
  {
    hide Mark, Repeat;
    MarkLength(base, f);
    NoPadding('0', 0 - |d|, d);
    assert d[0..] == d;
    var text := Marked(d, base, width, f);
    var pad := Repeat(' ', width - |text|);
    if |d| == width {
      hide Marked;
      MarkedShort(d, base, width, f);
      assert |HashOurs(d, base, width, f)| < |Padded(Mark(base, f), d, width, f)|;
    } else {
      assert text == Mark(base, f) + d;
      hide Marked;
      NoPadding(' ', 0, text + pad);
      NoPadding(' ', 0, pad + text);
      NoPadding(' ', 0, text);
      Associate(pad, Mark(base, f), d);
    }
  }

  lemma MarkedShort(d: seq<char>, base: nat, width: nat, f: Flags)
    requires HashFlags(base, f) && 1 <= |d| <= 22 && |d| == width
    ensures |Marked(d, base, width, f)| < |Mark(base, f)| + |d| && |Marked(d, base, width, f)| <= Max(width, 2)
  {
  }

  lemma HashFieldConforms(d: seq<char>, base: nat, width: uint32, f: Flags)
    requires HashFlags(base, f) && 1 <= |d| <= 22
    ensures HashOurs(d, base, width, f) == Padded(Mark(base, f), d, width, f)
      <==> HashConforms(|d|, |Mark(base, f)|, width, f)
  {
    hide HashOurs, Padded, Mark;
    if f.left || !f.zeropad { HashPlainField(d, base, width, f); }
    else if |d| > width { HashZeroWide(d, base, width, f); }
    else if width <= NTOA_BUFFER_SIZE && |d| + |Mark(base, f)| <= width { HashZeroFits(d, base, width, f); }
    else { HashZeroShort(d, base, width, f); }
  }

  /**
   * %#x, %#X and %#o without a precision: the field is the standard's exactly
   * when `HashConforms` holds.  The plain rule for other flags is that the width
   * must differ from the number of digits.
   */
  lemma HashFieldIsIso(v: uint64, base: nat, width: uint32, f: Flags)
    requires HashFlags(base, f) && v != 0
    ensures IntField(v, false, base, 0, width, f) == IsoField(v, false, base, 0, width, f)
      <==> HashConforms(|Numeral(v, base, f.upper)|, |Mark(base, f)|, width, f)
  {
    hide Numeral, HashOurs, Padded;
    Numeral64(v, base, f.upper);
    HashShape(v, base, width, f);
    HashFieldConforms(Numeral(v, base, f.upper), base, width, f);
    var d := Numeral(v, base, f.upper);
    assert Repeat('0', 0 - |d|) + d == d;
    NoLeadingZero(v, base, f.upper);
    assert Sign(false, f) + Prefix(v, base, d, f) == Mark(base, f);
  }

  // ---- Zero with the # flag

  predicate ZeroFlags(base: nat, prec: nat, f: Flags) {
    && f.hash && !f.plus && !f.space && (base == 8 || base == 16)
    && !(f.zeropad && f.precision) && (!f.precision ==> prec == 0)
  }

  /** %#.0o of zero: the standard's prefix is the one digit, and the printer drops it. */
  predicate LosesZero(base: nat, prec: nat, f: Flags) {
    base == 8 && f.precision && prec == 0
  }

  lemma HashUnheeded(v: uint64, base: nat, prec: uint32, width: uint32, f: Flags)
    requires IsBase(base) && v == 0
    ensures IntField(v, false, base, prec, width, f) == IntField(v, false, base, prec, width, f.(hash := false))
  {
    hide Digits, FormatRev, RevField;
    assert f.(hash := false).(hash := false) == f.(hash := false);
  }

  lemma NoPrefix(v: uint64, base: nat, prec: uint32, width: uint32, f: Flags)
    requires v == 0 && ZeroFlags(base, prec, f) && !LosesZero(base, prec, f)
    ensures IsoField(v, false, base, prec, width, f) == IsoField(v, false, base, prec, width, f.(hash := false))
  {
    hide Numeral, Repeat, Padded;
    ZeroBody(base, prec, f);
    var g := f.(hash := false);
    assert Body(v, base, prec, f) == Body(v, base, prec, g);
    assert Sign(false, f) + Prefix(v, base, Body(v, base, prec, f), f) == [];
    assert Sign(false, g) + Prefix(v, base, Body(v, base, prec, g), g) == [];
    hide Body, Sign, Prefix;
    PaddedAlike([], Body(v, base, prec, f), width, f);
  }

  lemma PaddedAlike(lead: seq<char>, body: seq<char>, width: nat, f: Flags)
    ensures Padded(lead, body, width, f) == Padded(lead, body, width, f.(hash := false))
  {
    hide Repeat;
  }

  lemma ZeroBody(base: nat, prec: nat, f: Flags)
    requires IsBase(base)
    ensures
      var body := Body(0, base, prec, f);
      if f.precision && prec == 0 then body == [] else body != [] && body[0] == '0'
  {
    assert Numeral(0, base, f.upper) == "0";
  }

  lemma ZeroLost(v: uint64, width: uint32, f: Flags)
    requires v == 0 && ZeroFlags(8, 0, f) && f.precision
    ensures IntField(v, false, 8, 0, width, f) != IsoField(v, false, 8, 0, width, f)
  {
    hide IntField, Numeral, Repeat, Printed;
    var g := f.(hash := false);
    HashUnheeded(v, 8, 0, width, f);
    PrintedZero(v, 8, g);
    FieldIsIso(v, false, 8, 0, width, g);
    var blank, theirs := IsoField(v, false, 8, 0, width, g), IsoField(v, false, 8, 0, width, f);
    var none := Body(v, 8, 0, g);
    assert none == [] && Sign(false, g) + Prefix(v, 8, none, g) == none;
    assert blank == Padded(none, none, width, g);
    assert theirs == Padded("0", [], width, f) by { assert [] + "0" == "0"; }
    assert '0' !in blank && '0' in theirs;
  }

  /** Zero: the printer drops the flag, which is right but for `LosesZero`, and the rule without the flag applies. */
  lemma HashZeroIsIso(base: nat, prec: uint32, width: uint32, f: Flags)
    requires ZeroFlags(base, prec, f)
    ensures IntField(0, false, base, prec, width, f) == IsoField(0, false, base, prec, width, f)
      <==> !LosesZero(base, prec, f) && Conforms(if f.precision then 0 else 1, "", prec, width, f)
  {
    hide IntField, IsoField, Conforms, Printed;
    var v: uint64, g := 0, f.(hash := false);
    FieldIsIso(v, false, base, prec, width, g);
    HashUnheeded(v, base, prec, width, f);
    PrintedZero(v, base, g);
    ConformsIgnores(|Printed(v, base, g)|, prec, width, f, g);
    if LosesZero(base, prec, f) {
      ZeroLost(v, width, f);
    } else {
      NoPrefix(v, base, prec, width, f);
    }
  }

  lemma PrintedZero(v: uint64, base: nat, f: Flags)
    requires IsBase(base) && v == 0
    ensures |Printed(v, base, f)| == if f.precision then 0 else 1
  {
  }

  lemma ConformsIgnores(digits: nat, prec: nat, width: nat, f: Flags, g: Flags)
    requires g == f.(hash := false)
    ensures Conforms(digits, "", prec, width, f) == Conforms(digits, "", prec, width, g)
  {
  }

  // ---- With the # flag and a precision

  predicate PreciseFlags(base: nat, f: Flags) {
    f.hash && f.precision && !f.zeropad && !f.plus && !f.space && (base == 8 || base == 16)
  }

  /** The printer's field: zeros to the precision, then a prefix even where the zeros already stand for it. */
  function PreciseOurs(d: seq<char>, base: nat, prec: nat, width: nat, f: Flags): seq<char> {
    var n := if f.left then 0 else Min(prec, NTOA_BUFFER_SIZE);
    var text := Fitted(Repeat('0', n - |d|) + d, base, f);
    Repeat(' ', if f.left then 0 else width - |text|) + text + Repeat(' ', if f.left then width - |text| else 0)
  }

  /** The standard's: in octal the zeros of the precision are the prefix. */
  function PreciseTheirs(d: seq<char>, base: nat, prec: nat, width: nat, f: Flags): seq<char> {
    Padded(if base == 8 && prec > |d| then [] else Mark(base, f), Repeat('0', prec - |d|) + d, width, f)
  }

  predicate PreciseConforms(digits: nat, base: nat, prec: nat, f: Flags) {
    if base == 16 then prec <= (if f.left then digits else NTOA_BUFFER_SIZE - 2)
    else if f.left then prec <= digits + 1
    else prec <= digits || prec == NTOA_BUFFER_SIZE
  }

  lemma PreciseShape(v: uint64, base: nat, prec: uint32, width: uint32, f: Flags)
    requires PreciseFlags(base, f) && v != 0
    ensures IntField(v, false, base, prec, width, f) == PreciseOurs(Numeral(v, base, f.upper), base, prec, width, f)
  {
    hide Digits, Numeral, Fitted, WithZeros, Reverse, Repeat, Push;
    var rev := Digits(v, base, f);
    PrintedDigits(v, base, f);
    assert |rev| == |Reverse(rev)|;
    ReverseZeros(rev, prec, width, f);
    ReverseMark(WithZeros(rev, prec, width, f), base, f);
  }

  lemma PreciseIsoShape(v: uint64, base: nat, prec: uint32, width: uint32, f: Flags)
    requires PreciseFlags(base, f) && v != 0
    ensures IsoField(v, false, base, prec, width, f) == PreciseTheirs(Numeral(v, base, f.upper), base, prec, width, f)
  {
    hide Numeral, Padded;
    var d := Numeral(v, base, f.upper);
    NoLeadingZero(v, base, f.upper);
    var body := Body(v, base, prec, f);
    assert body[0] == if prec > |d| then '0' else d[0];
    assert Sign(false, f) + Prefix(v, base, body, f) == if base == 8 && prec > |d| then [] else Mark(base, f);
  }

  lemma PreciseLeft(d: seq<char>, base: nat, prec: uint32, width: uint32, f: Flags)
    requires PreciseFlags(base, f) && 1 <= |d| <= 22 && d[0] != '0' && f.left
    ensures PreciseOurs(d, base, prec, width, f) == PreciseTheirs(d, base, prec, width, f)
      <==> PreciseConforms(|d|, base, prec, f)
  {
    MarkLength(base, f);
    NoPadding('0', 0 - |d|, d);
    var ours, theirs := PreciseOurs(d, base, prec, width, f), PreciseTheirs(d, base, prec, width, f);
    var m := |Mark(base, f)|;
    assert ours[m] == d[0];
    if PreciseConforms(|d|, base, prec, f) {
      hide Mark;
      var text := Mark(base, f) + d;
      NoPadding(' ', 0, text + Repeat(' ', width - |text|));
      NoPadding(' ', 0, text);
      if prec > |d| {
        assert [] + (Repeat('0', 1) + d) == text by { assert Repeat('0', 1) == Mark(base, f); }
      } else {
        NoPadding('0', prec - |d|, d);
      }
    } else {
      assert theirs[m] == '0';
    }
  }

  lemma PreciseFits(d: seq<char>, base: nat, prec: uint32, width: uint32, f: Flags)
    requires PreciseFlags(base, f) && 1 <= |d| <= 22 && !f.left && PreciseConforms(|d|, base, prec, f)
    ensures PreciseOurs(d, base, prec, width, f) == PreciseTheirs(d, base, prec, width, f)
  {
    hide Repeat, Mark;
    MarkLength(base, f);
    var body := Repeat('0', prec - |d|) + d;
    assert Repeat('0', Min(prec, NTOA_BUFFER_SIZE) - |d|) + d == body;
    var lead := if base == 8 && prec > |d| then [] else Mark(base, f);
    assert [] + body == body;
    assert Fitted(body, base, f) == lead + body;
    hide Fitted;
    var pad := Repeat(' ', width - |lead + body|);
    NoPadding(' ', 0, pad + (lead + body));
    Associate(pad, lead, body);
  }

  /** Too long for the buffer, or a prefix too many. */
  lemma PreciseFails(d: seq<char>, base: nat, prec: uint32, width: uint32, f: Flags)
    requires PreciseFlags(base, f) && 1 <= |d| <= 22 && !f.left && !PreciseConforms(|d|, base, prec, f)
    ensures PreciseOurs(d, base, prec, width, f) != PreciseTheirs(d, base, prec, width, f)
  {
    hide Mark;
    MarkLength(base, f);
    var ours, theirs := PreciseOurs(d, base, prec, width, f), PreciseTheirs(d, base, prec, width, f);
    var b := Repeat('0', Min(prec, NTOA_BUFFER_SIZE) - |d|) + d;
    var text := Fitted(b, base, f);
    var lead := if base == 16 then |Mark(base, f)| else 0;
    if prec <= NTOA_BUFFER_SIZE && base == 8 {
      assert |text| == prec + 1;
      assert width <= prec ==> |ours| > |theirs|;
      assert width > prec ==> ours[width - prec - 1] != ' ' && theirs[width - prec - 1] == ' ';
    } else {
      assert |text| == NTOA_BUFFER_SIZE;
      assert width < prec + lead ==> |ours| < |theirs|;
      assert width >= prec + lead ==> ours[width - prec - lead] == ' ' && theirs[width - prec - lead] != ' ';
    }
  }

  /**
   * %#x, %#X and %#o with a precision, of a value that is not zero.  In octal the
   * printer puts a prefix in front of the zeros the precision asks for, which the
   * standard takes as the prefix.
   */
  lemma HashPrecisionIsIso(v: uint64, base: nat, prec: uint32, width: uint32, f: Flags)
    requires PreciseFlags(base, f) && v != 0
    ensures IntField(v, false, base, prec, width, f) == IsoField(v, false, base, prec, width, f)
      <==> PreciseConforms(|Numeral(v, base, f.upper)|, base, prec, f)
  {
    hide Numeral, PreciseOurs, PreciseTheirs, PreciseConforms, IntField, IsoField;
    Numeral64(v, base, f.upper);
    NoLeadingZero(v, base, f.upper);
    PreciseShape(v, base, prec, width, f);
    PreciseIsoShape(v, base, prec, width, f);
    var d := Numeral(v, base, f.upper);
    if f.left { PreciseLeft(d, base, prec, width, f); }
    else if PreciseConforms(|d|, base, prec, f) { PreciseFits(d, base, prec, width, f); }
    else { PreciseFails(d, base, prec, width, f); }
  }

  // ---- Every integer field

  /** Flags as a conversion leaves them: no # in decimal, signs only there, no zero padding under a precision. */
  predicate ConversionFlags(base: nat, prec: nat, f: Flags) {
    && (base == 8 || base == 10 || base == 16)
    && (if base == 10 then !f.hash else !f.plus && !f.space)
    && !(f.zeropad && f.precision) && (!f.precision ==> prec == 0)
  }

  predicate AsStandard(v: nat, negative: bool, base: nat, prec: nat, width: nat, f: Flags)
    requires IsBase(base)
  {
    var digits := if f.precision && v == 0 then 0 else |Numeral(v, base, f.upper)|;
    if !f.hash then Conforms(digits, Sign(negative, f), prec, width, f)
    else if v == 0 then !LosesZero(base, prec, f) && Conforms(digits, "", prec, width, f)
    else if f.precision then PreciseConforms(digits, base, prec, f)
    else HashConforms(digits, |Mark(base, f)|, width, f)
  }

  /** The four theorems in one. */
  lemma IntFieldIsIso(v: uint64, negative: bool, base: nat, prec: uint32, width: uint32, f: Flags)
    requires ConversionFlags(base, prec, f) && (negative ==> base == 10)
    ensures IntField(v, negative, base, prec, width, f) == IsoField(v, negative, base, prec, width, f)
      <==> AsStandard(v, negative, base, prec, width, f)
  {
    hide IntField, IsoField, Conforms, PreciseConforms, HashConforms, Sign, Mark, LosesZero;
    if !f.hash {
      FieldIsIso(v, negative, base, prec, width, f);
    } else if v == 0 {
      HashZeroIsIso(base, prec, width, f);
      PrintedZero(v, base, f);
      assert |Printed(v, base, f)| == if f.precision then 0 else 1;
    } else if f.precision {
      HashPrecisionIsIso(v, base, prec, width, f);
    } else {
      HashFieldIsIso(v, base, width, f);
    }
  }

  /** How long the printer's field can be. */
  lemma FieldLength(v: uint64, negative: bool, base: nat, prec: uint32, width: uint32, f: Flags)
    requires IsBase(base)
    ensures |IntField(v, negative, base, prec, width, f)| <= Max(width, NTOA_BUFFER_SIZE)
  {
    hide LowDigits, Repeat, Reverse;
    var g := if v == 0 then f.(hash := false) else f;
    BufferLength(Digits(v, base, g), negative, base, prec, width, g);
  }

  lemma BufferLength(rev: seq<char>, negative: bool, base: nat, prec: uint32, width: uint32, f: Flags)
    requires |rev| <= NTOA_BUFFER_SIZE
    ensures |FormatRev(rev, negative, base, prec, width, f)| <= NTOA_BUFFER_SIZE
  {
  }

  /** And how long the standard's is at least. */
  lemma IsoLength(v: nat, negative: bool, base: nat, prec: nat, width: nat, f: Flags)
    requires IsBase(base)
    ensures |IsoField(v, negative, base, prec, width, f)| >= Max(width, prec)
  {
    hide Numeral, Sign, Prefix;
  }

  // ---- The defects at their smallest

  /** %-.3d of 7 prints one digit: under the minus flag the precision is not honoured. */
  lemma LeftDropsPrecision()
    ensures IntField(7, false, 10, 3, 0, NO_FLAGS.(left := true, precision := true)) == "7"
    ensures IsoField(7, false, 10, 3, 0, NO_FLAGS.(left := true, precision := true)) == "007"
  {
    var f := NO_FLAGS.(left := true, precision := true);
    var v: uint64, prec: uint32, width: uint32 := 7, 3, 0;
    assert Numeral(v, 10, false) == "7";
    FieldShape(v, false, 10, prec, width, f);
    IsoShape(v, false, 10, prec, width, f);
    hide Numeral, IntField, IsoField;
    assert Ours("7", false, prec, width, f) == "7";
    assert Repeat('0', 2) == "00";
    assert Theirs("7", false, prec, width, f) == "007";
  }

  /** %#.4o of 8: the zeros of the precision are the prefix, and the printer adds another. */
  lemma HashAddsZero()
    ensures IntField(8, false, 8, 4, 0, NO_FLAGS.(hash := true, precision := true)) == "00010"
    ensures IsoField(8, false, 8, 4, 0, NO_FLAGS.(hash := true, precision := true)) == "0010"
  {
    var f := NO_FLAGS.(hash := true, precision := true);
    var v: uint64, prec: uint32, width: uint32 := 8, 4, 0;
    Numeral8(v);
    hide Numeral, IntField, IsoField;
    PreciseShape(v, 8, prec, width, f);
    PreciseIsoShape(v, 8, prec, width, f);
    var b := Repeat('0', 2) + "10";
    assert b == "0010";
    hide Repeat;
    assert Fitted(b, 8, f) == "0" + b == "00010";
    hide Fitted, Mark;
    NoPadding(' ', 0 - 5, "00010");
    NoPadding(' ', 0, "00010");
    NoPadding(' ', 0 - 4, [] + b);
    assert PreciseOurs("10", 8, prec, width, f) == "00010";
    assert PreciseTheirs("10", 8, prec, width, f) == "0010";
  }

  lemma Numeral8(v: nat)
    requires v == 8
    ensures Numeral(v, 8, false) == "10"
  {
    assert Numeral(1, 8, false) == "1";
  }

  lemma Numeral1234()
    ensures Numeral(0x1234, 16, false) == "1234"
  {
    assert Numeral(0x1, 16, false) == "1";
    assert Numeral(0x12, 16, false) == "12";
    assert Numeral(0x123, 16, false) == "123";
  }

  /** The defect at its smallest: %#4x of 0x1234 prints "0x34". */
  lemma HashDropsDigits()
    ensures IntField(0x1234, false, 16, 0, 4, NO_FLAGS.(hash := true)) == "0x34"
    ensures IsoField(0x1234, false, 16, 0, 4, NO_FLAGS.(hash := true)) == "0x1234"
  {
    var f := NO_FLAGS.(hash := true);
    Numeral1234();
    hide IntField, Numeral;
    HashShape(0x1234, 16, 4, f);
  }
}
