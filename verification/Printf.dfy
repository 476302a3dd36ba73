/**
 * The formatted printer: the integer, character and string conversions.
 *
 * The first half says, as functions, what text a format and its arguments
 * produce.  The second half is the printer itself: loops that fill a reversed
 * digit buffer and store characters one by one into the caller's buffer, each
 * proved to emit exactly that text and to write nowhere else.
 */
module Printf {
  import opened Bytes
  import opened Numerals
  import CStrings

  const NTOA_BUFFER_SIZE := 32

  datatype Flags = Flags(
    zeropad: bool, left: bool, plus: bool, space: bool, hash: bool, upper: bool,
    char8: bool, short: bool, long: bool, precision: bool)

  const NO_FLAGS := Flags(false, false, false, false, false, false, false, false, false, false)

  /** A variadic argument: a machine word as passed, or a string. */
  datatype Arg = Word(bits: uint64) | Str(text: seq<char>)

  // ---- Integer fields

  function PadZeros(rev: seq<char>, n: nat): seq<char> {
    rev + Repeat('0', Min(n, NTOA_BUFFER_SIZE) - |rev|)
  }

  function ZeroWidth(negative: bool, width: uint32, f: Flags): uint32 {
    if !f.left && width != 0 && f.zeropad && (negative || f.plus || f.space) then width - 1 else width
  }

  function WithZeros(rev: seq<char>, prec: uint32, width: uint32, f: Flags): seq<char> {
    if f.left then rev
    else if f.zeropad then PadZeros(PadZeros(rev, prec), width)
    else PadZeros(rev, prec)
  }

  function HashCut(rev: seq<char>, base: nat, prec: uint32, width: uint32, f: Flags): seq<char> {
    if !f.precision && rev != [] && (|rev| == prec || |rev| == width)
    then rev[..if |rev| > 1 && base == 16 then |rev| - 2 else |rev| - 1]
    else rev
  }

  function Push(rev: seq<char>, c: char): seq<char> {
    if |rev| < NTOA_BUFFER_SIZE then rev + [c] else rev
  }

  function WithHash(rev: seq<char>, base: nat, prec: uint32, width: uint32, f: Flags): seq<char> {
    if !f.hash then rev
    else
      var r := HashCut(rev, base, prec, width, f);
      Push(if base == 16 then Push(r, if f.upper then 'X' else 'x') else if base == 2 then Push(r, 'b') else r, '0')
  }

  function WithSign(rev: seq<char>, negative: bool, f: Flags): seq<char> {
    if negative then Push(rev, '-') else if f.plus then Push(rev, '+') else if f.space then Push(rev, ' ') else rev
  }

  /** The reversed buffer's contents, with padding to the field width. */
  function RevField(rev: seq<char>, width: uint32, f: Flags): seq<char> {
    Repeat(' ', if f.left || f.zeropad then 0 else width - |rev|) + Reverse(rev)
    + Repeat(' ', if f.left then width - |rev| else 0)
  }

  function Digits(v: uint64, base: nat, f: Flags): seq<char>
    requires IsBase(base)
  {
    if f.precision && v == 0 then [] else LowDigits(v, base, f.upper, NTOA_BUFFER_SIZE)
  }

  function FormatRev(rev: seq<char>, negative: bool, base: nat, prec: uint32, width: uint32, f: Flags): seq<char> {
    var w := ZeroWidth(negative, width, f);
    WithSign(WithHash(WithZeros(rev, prec, w, f), base, prec, w, f), negative, f)
  }

  /** The field of an integer conversion: `v` is the magnitude. */
  function IntField(v: uint64, negative: bool, base: nat, prec: uint32, width: uint32, flags: Flags): seq<char>
    requires IsBase(base)
  {
    var f := if v == 0 then flags.(hash := false) else flags;
    RevField(FormatRev(Digits(v, base, f), negative, base, prec, width, f), ZeroWidth(negative, width, f), f)
  }

  function CharField(c: char, width: uint32, f: Flags): seq<char> {
    Repeat(' ', if f.left then 0 else width - 1) + [c] + Repeat(' ', if f.left then width - 1 else 0)
  }

  function StrField(text: seq<char>, prec: uint32, width: uint32, f: Flags): seq<char> {
    var s := if f.precision then text[..Min(|text|, prec)] else text;
    var l := if f.precision then |s| else Wrap32(|text|);
    Repeat(' ', if f.left then 0 else width - l) + s + Repeat(' ', if f.left then width - l else 0)
  }

  // ---- Reading a directive

  predicate IsDigit(c: char) {
    '0' <= c <= '9'
  }

  function SetFlag(f: Flags, c: char): Flags {
    match c
    case '0' => f.(zeropad := true)
    case '-' => f.(left := true)
    case '+' => f.(plus := true)
    case ' ' => f.(space := true)
    case '#' => f.(hash := true)
    case _ => f
  }

  predicate IsFlag(c: char) {
    c == '0' || c == '-' || c == '+' || c == ' ' || c == '#'
  }

  function ReadFlags(fmt: seq<char>, i: nat, f: Flags): (r: (Flags, nat))
    ensures r.1 >= i
    decreases |fmt| - i
  {
    if i < |fmt| && IsFlag(fmt[i]) then ReadFlags(fmt, i + 1, SetFlag(f, fmt[i])) else (f, i)
  }

  function ReadNumber(fmt: seq<char>, i: nat, acc: uint32): (r: (uint32, nat))
    ensures r.1 >= i
    decreases |fmt| - i
  {
    if i < |fmt| && IsDigit(fmt[i]) then ReadNumber(fmt, i + 1, Wrap32(acc * 10 + (fmt[i] - '0') as int)) else (acc, i)
  }

  function Bits(args: seq<Arg>): uint64 {
    if args != [] && args[0].Word? then args[0].bits else 0
  }

  function Text(args: seq<Arg>): seq<char> {
    if args != [] && args[0].Str? then args[0].text else []
  }

  function Rest(args: seq<Arg>): seq<Arg> {
    if args == [] then [] else args[1..]
  }

  /** The low 16 bits of a word read as a two's complement number; likewise for 32 and 64. */
  function Signed16(bits: uint64): int {
    var low := bits % 0x1_0000;
    if low >= 0x8000 then low - 0x1_0000 else low
  }

  function Signed32(bits: uint64): int {
    var low := bits % 0x1_0000_0000;
    if low >= 0x8000_0000 then low - 0x1_0000_0000 else low
  }

  function Signed64(bits: uint64): int {
    if bits >= 0x8000_0000_0000_0000 then bits - 0x1_0000_0000_0000_0000 else bits
  }

  datatype Directive = Directive(flags: Flags, width: uint32, prec: uint32, at: nat, args: seq<Arg>)

  function ReadWidth(fmt: seq<char>, d: Directive): (r: Directive)
    ensures r.at >= d.at
    ensures !r.flags.precision ==> !d.flags.precision && r.prec == d.prec
  {
    if IsDigit(CStrings.At(fmt, d.at)) then
      var (w, j) := ReadNumber(fmt, d.at, 0);
      d.(width := w, at := j)
    else if CStrings.At(fmt, d.at) == '*' then
      var w := Signed32(Bits(d.args));
      d.(flags := if w < 0 then d.flags.(left := true) else d.flags, width := if w < 0 then -w else w,
         at := d.at + 1, args := Rest(d.args))
    else d
  }

  function ReadPrecision(fmt: seq<char>, d: Directive): (r: Directive)
    ensures r.at >= d.at
    ensures !r.flags.precision ==> !d.flags.precision && r.prec == d.prec
  {
    if CStrings.At(fmt, d.at) != '.' then d
    else
      var d' := d.(flags := d.flags.(precision := true), at := d.at + 1);
      if IsDigit(CStrings.At(fmt, d'.at)) then
        var (p, j) := ReadNumber(fmt, d'.at, 0);
        d'.(prec := p, at := j)
      else if CStrings.At(fmt, d'.at) == '*' then
        var p := Signed32(Bits(d.args));
        d'.(prec := if p > 0 then p else 0, at := d'.at + 1, args := Rest(d.args))
      else d'
  }

  /** Length modifiers; on this target long, long long, size_t and ptrdiff_t are all 64 bits. */
  function ReadLength(fmt: seq<char>, d: Directive): (r: Directive)
    ensures r.at >= d.at
    ensures !r.flags.precision ==> !d.flags.precision && r.prec == d.prec
  {
    var c := CStrings.At(fmt, d.at);
    if c == 'l' then
      d.(flags := d.flags.(long := true), at := d.at + (if CStrings.At(fmt, d.at + 1) == 'l' then 2 else 1))
    else if c == 'h' then
      if CStrings.At(fmt, d.at + 1) == 'h' then d.(flags := d.flags.(short := true, char8 := true), at := d.at + 2)
      else d.(flags := d.flags.(short := true), at := d.at + 1)
    else if c == 't' || c == 'j' || c == 'z' then d.(flags := d.flags.(long := true), at := d.at + 1)
    else d
  }

  /** Everything between a percent sign and its conversion character, which is then at `at`. */
  function ReadDirective(fmt: seq<char>, i: nat, args: seq<Arg>): (d: Directive)
    ensures d.at >= i && (!d.flags.precision ==> d.prec == 0)
  {
    var (f, j) := ReadFlags(fmt, i, NO_FLAGS);
    ReadLength(fmt, ReadPrecision(fmt, ReadWidth(fmt, Directive(f, 0, 0, j, args))))
  }

  // ---- Conversions

  predicate IsInteger(c: char) {
    c == 'd' || c == 'i' || c == 'u' || c == 'x' || c == 'X' || c == 'o' || c == 'b'
  }

  function BaseOf(c: char): (base: nat)
    ensures IsBase(base)
  {
    if c == 'x' || c == 'X' then 16 else if c == 'o' then 8 else if c == 'b' then 2 else 10
  }

  /** # means nothing in decimal. */
  function DropHash(c: char, f: Flags): Flags {
    if BaseOf(c) == 10 then f.(hash := false) else f
  }

  function SetUpper(c: char, f: Flags): Flags {
    if c == 'X' then f.(upper := true) else f
  }

  /** Unsigned conversions show no sign. */
  function DropSigns(c: char, f: Flags): Flags {
    if c != 'i' && c != 'd' then f.(plus := false, space := false) else f
  }

  /** A precision turns zero padding off. */
  function DropZeros(f: Flags): Flags {
    if f.precision then f.(zeropad := false) else f
  }

  function IntFlags(c: char, f: Flags): Flags {
    DropZeros(DropSigns(c, SetUpper(c, DropHash(c, f))))
  }

  /** The value a d or i conversion prints; plain char is unsigned on this target. */
  function SignedValue(bits: uint64, f: Flags): int {
    if f.long then Signed64(bits)
    else if f.char8 then bits % 0x100
    else if f.short then Signed16(bits)
    else Signed32(bits)
  }

  function UnsignedValue(bits: uint64, f: Flags): uint64 {
    if f.long then bits else if f.char8 then bits % 0x100 else if f.short then bits % TWO_16 else bits % TWO_32
  }

  function Magnitude(v: int): nat {
    if v < 0 then -v else v
  }

  lemma MagnitudeFits(bits: uint64, f: Flags)
    ensures Magnitude(SignedValue(bits, f)) < TWO_64
  {
  }

  function IntegerText(c: char, d: Directive): seq<char> {
    var f := IntFlags(c, d.flags);
    var bits := Bits(d.args);
    if c == 'd' || c == 'i' then
      var v := SignedValue(bits, f);
      MagnitudeFits(bits, f);
      IntField(Magnitude(v), v < 0, BaseOf(c), d.prec, d.width, f)
    else IntField(UnsignedValue(bits, f), false, BaseOf(c), d.prec, d.width, f)
  }

  /** The text of one directive with conversion character `c`, and the arguments it leaves. */
  function Convert(c: char, d: Directive): (seq<char>, seq<Arg>) {
    if IsInteger(c) then (IntegerText(c, d), Rest(d.args))
    else if c == 'c' then (CharField((Bits(d.args) % 0x100) as char, d.width, d.flags), Rest(d.args))
    else if c == 's' then (StrField(Text(d.args), d.prec, d.width, d.flags), Rest(d.args))
    else if c == 'p' then
      (IntField(Bits(d.args), false, 16, d.prec, 16, d.flags.(zeropad := true, upper := true)), Rest(d.args))
    else ([c], d.args)
  }

  /** The whole output from position `i` of the format on. */
  function Render(fmt: seq<char>, i: nat, args: seq<Arg>): seq<char>
    decreases |fmt| - i
  {
    if i >= |fmt| then []
    else if fmt[i] != '%' then [fmt[i]] + Render(fmt, i + 1, args)
    else
      var d := ReadDirective(fmt, i + 1, args);
      var (s, rest) := Convert(CStrings.At(fmt, d.at), d);
      s + Render(fmt, d.at + 1, rest)
  }

  // ---- The printer: storing characters

  /** A buffer after `s` was stored from index `idx` on, cut off at `maxlen`. */
  function Emitted(buf: seq<char>, idx: nat, maxlen: nat, s: seq<char>): (r: seq<char>)
    ensures |r| == |buf|
  {
    seq(|buf|, i requires 0 <= i < |buf| => if idx <= i < idx + |s| && i < maxlen then s[i - idx] else buf[i])
  }

  lemma EmittedAppend(buf: seq<char>, idx: nat, maxlen: nat, s: seq<char>, t: seq<char>)
    ensures Emitted(Emitted(buf, idx, maxlen, s), idx + |s|, maxlen, t) == Emitted(buf, idx, maxlen, s + t)
  {
  }

  lemma EmittedNone(buf: seq<char>, idx: nat, maxlen: nat)
    ensures Emitted(buf, idx, maxlen, []) == buf
  {
  }

  lemma EmittedNowhere(buf: seq<char>, s: seq<char>)
    ensures Emitted(buf, 0, 0, s) == buf
  {
  }

  method OutBuffer(c: char, buffer: array<char>, idx: nat, maxlen: nat)
    requires maxlen <= buffer.Length
    modifies buffer
    ensures buffer[..] == Emitted(old(buffer[..]), idx, maxlen, [c])
  {
    if idx < maxlen {
      buffer[idx] := c;
    }
  }

  /** The padding loops: spaces while a counter that starts at `l` is below `width`. */
  method OutSpaces(buffer: array<char>, idx: nat, maxlen: nat, l: nat, width: nat) returns (idx': nat)
    requires maxlen <= buffer.Length
    modifies buffer
    ensures idx' == idx + Max(width - l, 0)
    ensures buffer[..] == Emitted(old(buffer[..]), idx, maxlen, Repeat(' ', width - l))
  {
    idx' := idx;
    var i := l;
    while i < width
      invariant i == l + (idx' - idx) && idx <= idx' <= idx + Max(width - l, 0)
      invariant buffer[..] == Emitted(old(buffer[..]), idx, maxlen, Repeat(' ', i - l))
    {
      OutBuffer(' ', buffer, idx', maxlen);
      i, idx' := i + 1, idx' + 1;
    }
  }

  /** The reversed buffer, from its last used character down to its first. */
  method OutRev(buffer: array<char>, idx: nat, maxlen: nat, buf: array<char>, len: nat, width: uint32, f: Flags)
      returns (idx': nat)
    requires maxlen <= buffer.Length && len <= buf.Length && buf != buffer
    modifies buffer
    ensures
      var s := RevField(buf[..len], width, f);
      idx' == idx + |s| && buffer[..] == Emitted(old(buffer[..]), idx, maxlen, s)
  {
    hide Emitted;
    ghost var before, rev := buffer[..], buf[..len];
    EmittedNone(before, idx, maxlen);
    idx' := idx;
    ghost var pad := Repeat(' ', if f.left || f.zeropad then 0 else width - len);
    if !f.left && !f.zeropad {
      idx' := OutSpaces(buffer, idx', maxlen, len, width);
    } else {
      assert pad == [];
    }
    var n := len;
    assert pad + Reverse(rev)[..0] == pad;
    while n > 0
      invariant 0 <= n <= len && idx' == idx + |pad| + (len - n) && buf[..len] == rev
      invariant buffer[..] == Emitted(before, idx, maxlen, pad + Reverse(rev)[..len - n])
    {
      n := n - 1;
      OutBuffer(buf[n], buffer, idx', maxlen);
      EmittedAppend(before, idx, maxlen, pad + Reverse(rev)[..len - n - 1], [rev[n]]);
      idx' := idx' + 1;
      assert pad + Reverse(rev)[..len - n] == pad + Reverse(rev)[..len - n - 1] + [rev[n]];
    }
    assert Reverse(rev)[..len] == Reverse(rev);
    ghost var body := pad + Reverse(rev);
    ghost var tail := Repeat(' ', if f.left then width - len else 0);
    if f.left {
      idx' := OutSpaces(buffer, idx', maxlen, len, width);
      EmittedAppend(before, idx, maxlen, body, tail);
    } else {
      assert body + tail == body;
    }
    assert RevField(rev, width, f) == body + tail;
  }

  // ---- The printer: integers

  /** Append zeros to the digit buffer up to `n` characters, as far as it reaches. */
  method FillZeros(buf: array<char>, len: nat, n: nat) returns (len': nat)
    requires buf.Length == NTOA_BUFFER_SIZE && len <= NTOA_BUFFER_SIZE
    modifies buf
    ensures len' <= NTOA_BUFFER_SIZE && buf[..len'] == PadZeros(old(buf[..len]), n)
  {
    len' := len;
    while len' < n && len' < NTOA_BUFFER_SIZE
      invariant len <= len' <= NTOA_BUFFER_SIZE && (len' == len || len' <= n)
      invariant buf[..len'] == old(buf[..len]) + Repeat('0', len' - len)
    {
      buf[len'] := '0';
      len' := len' + 1;
    }
  }

  /** Append a character to the digit buffer if there is room for one. */
  method PushChar(buf: array<char>, len: nat, c: char) returns (len': nat)
    requires buf.Length == NTOA_BUFFER_SIZE && len <= NTOA_BUFFER_SIZE
    modifies buf
    ensures len' <= NTOA_BUFFER_SIZE && buf[..len'] == Push(old(buf[..len]), c)
  {
    len' := len;
    if len < NTOA_BUFFER_SIZE {
      buf[len] := c;
      len' := len + 1;
    }
  }

  method PushHash(buf: array<char>, len: nat, base: nat, prec: uint32, width: uint32, f: Flags) returns (len': nat)
    requires buf.Length == NTOA_BUFFER_SIZE && len <= NTOA_BUFFER_SIZE
    modifies buf
    ensures len' <= NTOA_BUFFER_SIZE && buf[..len'] == WithHash(old(buf[..len]), base, prec, width, f)
  {
    len' := len;
    if f.hash {
      if !f.precision && len' != 0 && (len' == prec || len' == width) {
        len' := len' - 1;
        if len' != 0 && base == 16 {
          len' := len' - 1;
        }
      }
      assert buf[..len'] == HashCut(old(buf[..len]), base, prec, width, f);
      if base == 16 {
        len' := PushChar(buf, len', if f.upper then 'X' else 'x');
      } else if base == 2 {
        len' := PushChar(buf, len', 'b');
      }
      len' := PushChar(buf, len', '0');
    }
  }

  /** _ntoa_format: padding, prefix and sign go into the digit buffer, which is then output reversed. */
  method NtoaFormat(buffer: array<char>, idx: nat, maxlen: nat, buf: array<char>, len: nat, negative: bool,
                    base: nat, prec: uint32, width: uint32, f: Flags) returns (idx': nat)
    requires maxlen <= buffer.Length && buf != buffer && buf.Length == NTOA_BUFFER_SIZE && len <= NTOA_BUFFER_SIZE
    modifies buffer, buf
    ensures
      var s := RevField(FormatRev(old(buf[..len]), negative, base, prec, width, f), ZeroWidth(negative, width, f), f);
      idx' == idx + |s| && buffer[..] == Emitted(old(buffer[..]), idx, maxlen, s)
  {
    var n, w := len, width;
    if !f.left {
      if width != 0 && f.zeropad && (negative || f.plus || f.space) {
        w := width - 1;
      }
      n := FillZeros(buf, n, prec);
      if f.zeropad {
        n := FillZeros(buf, n, w);
      }
    }
    assert buf[..n] == WithZeros(old(buf[..len]), prec, w, f);
    n := PushHash(buf, n, base, prec, w, f);
    if negative {
      n := PushChar(buf, n, '-');
    } else if f.plus {
      n := PushChar(buf, n, '+');
    } else if f.space {
      n := PushChar(buf, n, ' ');
    }
    idx' := OutRev(buffer, idx, maxlen, buf, n, w, f);
  }

  /** _ntoa_long and _ntoa_long_long: the same code on the same 64-bit type. */
  method Ntoa(buffer: array<char>, idx: nat, maxlen: nat, value: uint64, negative: bool, base: nat,
              prec: uint32, width: uint32, flags: Flags) returns (idx': nat)
    requires maxlen <= buffer.Length && IsBase(base)
    modifies buffer
    ensures
      var s := IntField(value, negative, base, prec, width, flags);
      idx' == idx + |s| && buffer[..] == Emitted(old(buffer[..]), idx, maxlen, s)
  {
    var buf := new char[NTOA_BUFFER_SIZE];
    var len := 0;
    var f := flags;
    if value == 0 {
      f := f.(hash := false);
    }
    if !f.precision || value != 0 {
      len := NtoaDigits(buf, value, base, f.upper);
    }
    assert buf[..len] == Digits(value, base, f);
    idx' := NtoaFormat(buffer, idx, maxlen, buf, len, negative, base, prec, width, f);
  }

  /** One turn of the conversion loop: the lowest digit of `v` and what is left of it. */
  method NextDigit(v: nat, base: nat, upper: bool, ghost n: nat) returns (c: char, q: nat)
    requires IsBase(base) && n > 0
    ensures LowDigits(v, base, upper, n) == [c] + (if q == 0 then [] else LowDigits(q, base, upper, n - 1))
  {
    QuotientIs(v, base);
    c, q := DigitChar(v % base, upper), v / base;
  }

  method NtoaDigits(buf: array<char>, value: uint64, base: nat, upper: bool) returns (len: nat)
    requires buf.Length == NTOA_BUFFER_SIZE && IsBase(base)
    modifies buf
    ensures len <= NTOA_BUFFER_SIZE && buf[..len] == LowDigits(value, base, upper, buf.Length)
  {
    hide LowDigits;
    var v: nat := value;
    len := 0;
    ghost var all := LowDigits(value, base, upper, buf.Length);
    while true
      invariant 0 <= len < buf.Length
      invariant all == buf[..len] + LowDigits(v, base, upper, buf.Length - len)
      decreases buf.Length - len
    {
      ghost var done := buf[..len];
      var c;
      c, v := NextDigit(v, base, upper, buf.Length - len);
      buf[len] := c;
      len := len + 1;
      assert buf[..len] == done + [c];
      if v == 0 || len >= buf.Length {
        break;
      }
    }
  }

  // ---- The printer: characters and strings

  method OutCharField(buffer: array<char>, idx: nat, maxlen: nat, c: char, width: uint32, f: Flags) returns (idx': nat)
    requires maxlen <= buffer.Length
    modifies buffer
    ensures
      var s := CharField(c, width, f);
      idx' == idx + |s| && buffer[..] == Emitted(old(buffer[..]), idx, maxlen, s)
  {
    ghost var before := buffer[..];
    idx' := idx;
    ghost var pre, post := Repeat(' ', if f.left then 0 else width - 1), Repeat(' ', if f.left then width - 1 else 0);
    if !f.left {
      idx' := OutSpaces(buffer, idx', maxlen, 1, width);
    }
    assert buffer[..] == Emitted(before, idx, maxlen, pre);
    OutBuffer(c, buffer, idx', maxlen);
    idx' := idx' + 1;
    EmittedAppend(before, idx, maxlen, pre, [c]);
    if f.left {
      idx' := OutSpaces(buffer, idx', maxlen, 1, width);
    }
    EmittedAppend(before, idx, maxlen, pre + [c], post);
  }

  method OutStrField(buffer: array<char>, idx: nat, maxlen: nat, text: seq<char>, prec: uint32, width: uint32, f: Flags)
      returns (idx': nat)
    requires maxlen <= buffer.Length && (!f.precision ==> prec == 0)
    modifies buffer
    ensures
      var s := StrField(text, prec, width, f);
      idx' == idx + |s| && buffer[..] == Emitted(old(buffer[..]), idx, maxlen, s)
  {
    hide Emitted;
    ghost var before := buffer[..];
    var l := StrnlenS(text, prec);
    if f.precision {
      l := if l < prec then l else prec;
    }
    ghost var shown := if f.precision then text[..Min(|text|, prec)] else text;
    ghost var pre, post := Repeat(' ', if f.left then 0 else width - l), Repeat(' ', if f.left then width - l else 0);
    EmittedNone(before, idx, maxlen);
    idx' := idx;
    if !f.left {
      idx' := OutSpaces(buffer, idx', maxlen, l, width);
    } else {
      assert pre == [];
    }
    var p := 0;
    assert pre + shown[..0] == pre;
    while p < |text| && (!f.precision || p < prec)
      invariant 0 <= p <= |shown| && idx' == idx + |pre| + p
      invariant buffer[..] == Emitted(before, idx, maxlen, pre + shown[..p])
    {
      OutBuffer(text[p], buffer, idx', maxlen);
      EmittedAppend(before, idx, maxlen, pre + shown[..p], [text[p]]);
      assert pre + shown[..p + 1] == pre + shown[..p] + [text[p]];
      p, idx' := p + 1, idx' + 1;
    }
    assert shown[..p] == shown;
    if f.left {
      idx' := OutSpaces(buffer, idx', maxlen, l, width);
      EmittedAppend(before, idx, maxlen, pre + shown, post);
    } else {
      assert pre + shown + post == pre + shown;
    }
    assert StrField(text, prec, width, f) == pre + shown + post;
  }

  /** _strnlen_s, called without a limit when the precision is zero; the length is cut to 32 bits. */
  method StrnlenS(text: seq<char>, prec: uint32) returns (l: uint32)
    ensures l == if prec == 0 then Wrap32(|text|) else Min(|text|, prec)
  {
    var s := 0;
    while s < |text| && (prec == 0 || s < prec)
      invariant 0 <= s <= |text| && (prec != 0 ==> s <= prec)
    {
      s := s + 1;
    }
    l := Wrap32(s);
  }

  // ---- The printer: directives and the main loop

  method ScanFlags(fmt: seq<char>, i: nat) returns (f: Flags, j: nat)
    requires i <= |fmt|
    ensures (f, j) == ReadFlags(fmt, i, NO_FLAGS) && j <= |fmt|
  {
    f, j := NO_FLAGS, i;
    while j < |fmt| && IsFlag(fmt[j])
      invariant i <= j <= |fmt| && ReadFlags(fmt, i, NO_FLAGS) == ReadFlags(fmt, j, f)
    {
      f, j := SetFlag(f, fmt[j]), j + 1;
    }
  }

  /** _atoi */
  method Atoi(fmt: seq<char>, i: nat) returns (n: uint32, j: nat)
    requires i <= |fmt|
    ensures (n, j) == ReadNumber(fmt, i, 0) && j <= |fmt|
  {
    n, j := 0, i;
    while j < |fmt| && IsDigit(fmt[j])
      invariant i <= j <= |fmt| && ReadNumber(fmt, i, 0) == ReadNumber(fmt, j, n)
    {
      n, j := Wrap32(n * 10 + (fmt[j] - '0') as int), j + 1;
    }
  }

  method ScanWidth(fmt: seq<char>, d: Directive) returns (r: Directive)
    requires d.at <= |fmt| && d.width == 0
    ensures r == ReadWidth(fmt, d) && r.at <= |fmt|
  {
    r := d;
    if IsDigit(CStrings.At(fmt, d.at)) {
      var w, k := Atoi(fmt, d.at);
      r := d.(width := w, at := k);
    } else if CStrings.At(fmt, d.at) == '*' {
      var w := Signed32(Bits(d.args));
      r := d.(width := if w < 0 then -w else w, at := d.at + 1, args := Rest(d.args));
      if w < 0 {
        r := r.(flags := r.flags.(left := true));
      }
    }
  }

  method ScanPrecision(fmt: seq<char>, d: Directive) returns (r: Directive)
    requires d.at <= |fmt| && d.prec == 0
    ensures r == ReadPrecision(fmt, d)
  {
    r := d;
    if CStrings.At(fmt, d.at) == '.' {
      r := d.(flags := d.flags.(precision := true), at := d.at + 1);
      if IsDigit(CStrings.At(fmt, r.at)) {
        var p, k := Atoi(fmt, r.at);
        r := r.(prec := p, at := k);
      } else if CStrings.At(fmt, r.at) == '*' {
        var p := Signed32(Bits(r.args));
        r := r.(prec := if p > 0 then p else 0, at := r.at + 1, args := Rest(r.args));
      }
    }
  }

  method ScanDirective(fmt: seq<char>, i: nat, args: seq<Arg>) returns (d: Directive)
    requires i <= |fmt|
    ensures d == ReadDirective(fmt, i, args)
  {
    var f, j := ScanFlags(fmt, i);
    d := ScanWidth(fmt, Directive(f, 0, 0, j, args));
    d := ScanPrecision(fmt, d);
    d := ReadLength(fmt, d);
  }

  method OutInteger(buffer: array<char>, idx: nat, maxlen: nat, c: char, d: Directive) returns (idx': nat)
    requires maxlen <= buffer.Length && IsInteger(c)
    modifies buffer
    ensures
      var s := IntegerText(c, d);
      idx' == idx + |s| && buffer[..] == Emitted(old(buffer[..]), idx, maxlen, s)
  {
    hide IntField;
    var f := IntFlags(c, d.flags);
    if c == 'd' || c == 'i' {
      var v := SignedValue(Bits(d.args), f);
      MagnitudeFits(Bits(d.args), f);
      idx' := Ntoa(buffer, idx, maxlen, if v > 0 then v else 0 - v, v < 0, BaseOf(c), d.prec, d.width, f);
    } else {
      idx' := Ntoa(buffer, idx, maxlen, UnsignedValue(Bits(d.args), f), false, BaseOf(c), d.prec, d.width, f);
    }
  }

  /** The conversion switch. */
  method OutDirective(buffer: array<char>, idx: nat, maxlen: nat, c: char, d: Directive)
      returns (idx': nat, rest: seq<Arg>)
    requires maxlen <= buffer.Length && (!d.flags.precision ==> d.prec == 0)
    modifies buffer
    ensures
      var (s, left) := Convert(c, d);
      rest == left && idx' == idx + |s| && buffer[..] == Emitted(old(buffer[..]), idx, maxlen, s)
  {
    hide IntegerText, IntField, StrField, CharField;
    rest := Rest(d.args);
    if IsInteger(c) {
      idx' := OutInteger(buffer, idx, maxlen, c, d);
    } else if c == 'c' {
      idx' := OutCharField(buffer, idx, maxlen, (Bits(d.args) % 0x100) as char, d.width, d.flags);
    } else if c == 's' {
      idx' := OutStrField(buffer, idx, maxlen, Text(d.args), d.prec, d.width, d.flags);
    } else if c == 'p' {
      idx' := Ntoa(buffer, idx, maxlen, Bits(d.args), false, 16, d.prec, 16, d.flags.(zeropad := true, upper := true));
    } else {
      rest := d.args;
      OutBuffer(c, buffer, idx, maxlen);
      idx' := idx + 1;
    }
  }

  /** What a call leaves in the buffer: the text cut to fit, its terminator, and nothing else changed. */
  function Terminated(before: seq<char>, maxlen: nat, s: seq<char>): (r: seq<char>)
    requires maxlen <= |before|
    ensures |r| == |before|
  {
    if maxlen == 0 then before
    else
      var n := Min(|s|, maxlen - 1);
      s[..n] + ['\0'] + before[n + 1..]
  }

  /** As many characters as there is room for, a zero behind them, and nothing else changed. */
  ghost predicate CutAndEnded(before: seq<char>, after: seq<char>, maxlen: nat, s: seq<char>) {
    var n := if |s| < maxlen then |s| else maxlen - 1;
    && |after| == |before| && (maxlen == 0 ==> after == before)
    && (0 < maxlen <= |after| ==> after[n] as int == 0 && forall k :: 0 <= k < n ==> after[k] == s[k])
    && forall k :: n < k < |after| ==> after[k] == before[k]
  }

  lemma TerminatedIs(before: seq<char>, maxlen: nat, s: seq<char>)
    requires maxlen <= |before|
    ensures CutAndEnded(before, Terminated(before, maxlen, s), maxlen, s)
  {
  }

  /** One position of the format: an ordinary character or a whole directive. */
  method OutItem(buffer: array<char>, idx: nat, maxlen: nat, fmt: seq<char>, i: nat, args: seq<Arg>)
      returns (idx': nat, i': nat, rest: seq<Arg>, ghost s: seq<char>)
    requires maxlen <= buffer.Length && i < |fmt|
    modifies buffer
    ensures i' > i && idx' == idx + |s| && Render(fmt, i, args) == s + Render(fmt, i', rest)
    ensures buffer[..] == Emitted(old(buffer[..]), idx, maxlen, s)
  {
    hide Render, Convert, ReadDirective;
    RenderStep(fmt, i, args);
    rest := args;
    if fmt[i] != '%' {
      s := [fmt[i]];
      OutBuffer(fmt[i], buffer, idx, maxlen);
      idx', i' := idx + 1, i + 1;
    } else {
      var d := ScanDirective(fmt, i + 1, args);
      s := Convert(CStrings.At(fmt, d.at), d).0;
      idx', rest := OutDirective(buffer, idx, maxlen, CStrings.At(fmt, d.at), d);
      i' := d.at + 1;
    }
  }

  lemma RenderEnd(fmt: seq<char>, i: nat, args: seq<Arg>)
    requires i >= |fmt|
    ensures Render(fmt, i, args) == []
  {
  }

  lemma RenderStep(fmt: seq<char>, i: nat, args: seq<Arg>)
    requires i < |fmt|
    ensures Render(fmt, i, args) ==
      if fmt[i] != '%' then [fmt[i]] + Render(fmt, i + 1, args)
      else
        var d := ReadDirective(fmt, i + 1, args);
        var (s, rest) := Convert(CStrings.At(fmt, d.at), d);
        s + Render(fmt, d.at + 1, rest)
  {
  }

  lemma AppendEmpty(s: seq<char>)
    ensures [] + s == s && s + [] == s
  {
  }

  lemma EmittedTerminated(before: seq<char>, maxlen: nat, s: seq<char>)
    requires 0 < maxlen <= |before|
    ensures Emitted(Emitted(before, 0, maxlen, s), if |s| < maxlen then |s| else maxlen - 1, maxlen, ['\0'])
         == Terminated(before, maxlen, s)
  {
  }

  /** _vsnprintf with _out_buffer: the terminator goes after the text or into the last of `maxlen` places. */
  method Vsnprintf(buffer: array<char>, maxlen: nat, fmt: seq<char>, args: seq<Arg>) returns (len: nat)
    requires maxlen <= buffer.Length
    modifies buffer
    ensures len == |Render(fmt, 0, args)|
    ensures buffer[..] == Terminated(old(buffer[..]), maxlen, Render(fmt, 0, args))
    ensures CutAndEnded(old(buffer[..]), buffer[..], maxlen, Render(fmt, 0, args))
  {
    hide Render, CutAndEnded, Emitted;
    ghost var before, all := buffer[..], Render(fmt, 0, args);
    EmittedNone(before, 0, maxlen);
    ghost var done: seq<char> := [];
    var idx, i, rest := 0, 0, args;
    AppendEmpty(all);
    while i < |fmt|
      invariant idx == |done| && all == done + Render(fmt, i, rest)
      invariant buffer[..] == Emitted(before, 0, maxlen, done)
      decreases |fmt| - i
    {
      ghost var s;
      idx, i, rest, s := OutItem(buffer, idx, maxlen, fmt, i, rest);
      EmittedAppend(before, 0, maxlen, done, s);
      done := done + s;
    }
    RenderEnd(fmt, i, rest);
    AppendEmpty(done);
    if maxlen > 0 {
      OutBuffer('\0', buffer, if idx < maxlen then idx else maxlen - 1, maxlen);
      EmittedTerminated(before, maxlen, all);
    } else {
      EmittedNowhere(before, all);
    }
    len := idx;
    TerminatedIs(before, maxlen, all);
  }
}
