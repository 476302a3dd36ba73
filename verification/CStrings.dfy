/**
 * The freestanding string functions.  A C string is a sequence of characters
 * that is read as if a terminator followed its last one; a terminator inside
 * it ends it earlier.
 */
module CStrings {
  import opened Bytes
  import opened Numerals

  const NUL := '\0'

  function At(s: seq<char>, i: nat): char {
    if i < |s| then s[i] else NUL
  }

  /** The string proper: what stands before the first terminator. */
  function Text(s: seq<char>): (t: seq<char>)
    ensures |t| <= |s| && t == s[..|t|] && NUL !in t && At(s, |t|) == NUL
  {
    if s == [] || s[0] == NUL then []
    else
      var t := Text(s[1..]);
      assert s[..|t| + 1] == [s[0]] + s[1..][..|t|];
      assert At(s, |t| + 1) == At(s[1..], |t|);
      [s[0]] + t
  }

  /** There is only one way to cut a string at its first terminator. */
  lemma TextIs(s: seq<char>, n: nat)
    requires n <= |s| && (forall k :: 0 <= k < n ==> s[k] != NUL) && At(s, n) == NUL
    ensures Text(s) == s[..n]
  {
    TextLonger(s, n);
    var t := Text(s);
    assert forall k :: 0 <= k < |t| ==> t[k] == s[k] && t[k] in t;
  }

  lemma TextLonger(s: seq<char>, n: nat)
    requires n <= |s| && (forall k :: 0 <= k < n ==> s[k] != NUL)
    ensures n <= |Text(s)|
  {
    var e := |Text(s)|;
    assert At(s, e) == NUL;
  }

  /** The string is what stands before the first zero character, or all of it. */
  lemma TextEnds(s: seq<char>)
    ensures
      var n := |Text(s)|;
      && n <= |s| && Text(s) == s[..n] && (n < |s| ==> s[n] as int == 0)
      && forall k :: 0 <= k < n ==> s[k] as int != 0
  {
    var t := Text(s);
    assert forall k :: 0 <= k < |t| ==> t[k] == s[k] && t[k] in t;
  }

  function Prefix(s: seq<char>, n: nat): seq<char> {
    s[..Min(n, |s|)]
  }

  /** `dst` after a strncpy of `n` characters to `at`: the string, cut at `n`, filled up with terminators. */
  function Copied(dst: seq<char>, at: nat, src: seq<char>, n: nat): seq<char>
    requires at + n <= |dst|
  {
    var t := Prefix(Text(src), n);
    dst[..at] + t + Repeat(NUL, n - |t|) + dst[at + n..]
  }

  function CopiedChar(dst: seq<char>, at: nat, src: seq<char>, n: nat, k: nat): char
    requires at + n <= |dst| && k < |dst|
  {
    var t := Prefix(Text(src), n);
    if at <= k < at + |t| then src[k - at]
    else if at + |t| <= k < at + n then NUL
    else dst[k]
  }

  lemma CopiedAt(dst: seq<char>, at: nat, src: seq<char>, n: nat)
    requires at + n <= |dst|
    ensures |Copied(dst, at, src, n)| == |dst|
    ensures forall k {:trigger Copied(dst, at, src, n)[k]} :: 0 <= k < |dst| ==>
      Copied(dst, at, src, n)[k] == CopiedChar(dst, at, src, n, k)
  {
  }

  /** Reading a text piece by piece. */
  lemma Cut(s: seq<char>, i: nat, a: seq<char>, b: seq<char>)
    requires i <= |s| && s[i..] == a + b
    ensures i + |a| <= |s| && s[i..i + |a|] == a && s[i + |a|..] == b
  {
    assert s[i..][..|a|] == a && s[i..][|a|..] == b;
  }

  lemma SliceAt(s: seq<char>, i: nat, a: seq<char>)
    requires i + |a| <= |s| && s[i..i + |a|] == a
    ensures forall k :: i <= k < i + |a| ==> s[k] == a[k - i]
  {
    assert forall k :: i <= k < i + |a| ==> s[k] == s[i..i + |a|][k - i];
  }

  /** The first character of what is left of a text. */
  lemma StartsWith(s: seq<char>, i: nat, a: seq<char>)
    requires i <= |s| && s[i..] == a
    ensures At(s, i) == At(a, 0)
  {
  }

  method Strlen(s: seq<char>) returns (n: nat)
    ensures n == |Text(s)|
    ensures n <= |s| && (n < |s| ==> s[n] as int == 0) && forall k :: 0 <= k < n ==> s[k] as int != 0
  {
    n := 0;
    while At(s, n) != NUL
      invariant n <= |s| && forall k :: 0 <= k < n ==> s[k] != NUL
      decreases |s| - n
    {
      n := n + 1;
    }
    TextIs(s, n);
  }

  /** Zero exactly when the first `n` characters of both strings agree; else the first difference. */
  method Strncmp(a: seq<char>, b: seq<char>, n: nat) returns (r: int)
    ensures r == 0 <==> Prefix(Text(a), n) == Prefix(Text(b), n)
    ensures
      var s, t := Text(a), Text(b);
      r == 0 <==> (if |s| < n then s else s[..n]) == (if |t| < n then t else t[..n])
    ensures r != 0 ==> exists i ::
      0 <= i < n && Prefix(Text(a), i) == Prefix(Text(b), i) && r == At(a, i) as int - At(b, i) as int
  {
    var i := 0;
    var ta, tb := Text(a), Text(b);
    while i < n
      invariant 0 <= i <= n && i <= |ta| && i <= |tb| && ta[..i] == tb[..i]
    {
      var ca, cb := At(a, i), At(b, i);
      assert i < |ta| ==> ta[i] == ca;
      assert i < |tb| ==> tb[i] == cb;
      if ca != cb {
        assert ta[..i] == Prefix(ta, i) && tb[..i] == Prefix(tb, i);
        assert Prefix(ta, n) != Prefix(tb, n) by {
          assert i < |ta| ==> Prefix(ta, n)[i] == ca;
          assert i < |tb| ==> Prefix(tb, n)[i] == cb;
        }
        return ca as int - cb as int;
      }
      if ca == NUL {
        assert |ta| == i && |tb| == i;
        return 0;
      }
      i := i + 1;
    }
    assert Prefix(ta, n) == ta[..n] && Prefix(tb, n) == tb[..n];
    return 0;
  }

  /** The first place of `c` in the string, or -1; the terminator counts as a place. */
  method Strchr(s: seq<char>, c: char) returns (i: int)
    ensures i == -1 <==> c != NUL && c !in Text(s)
    ensures i != -1 ==> 0 <= i <= |Text(s)| && At(s, i) == c && c !in s[..i]
  {
    var n := 0;
    while At(s, n) != NUL
      invariant n <= |s| && c !in s[..n] && forall k :: 0 <= k < n ==> s[k] != NUL
      decreases |s| - n
    {
      if s[n] == c {
        TextLonger(s, n + 1);
        assert Text(s)[n] == c;
        return n;
      }
      n := n + 1;
    }
    TextIs(s, n);
    return if c == NUL then n else -1;
  }

  /** Copies at most `n` characters of the string to `dst` at `at` and fills up with terminators. */
  method Strncpy(dst: array<char>, at: nat, src: seq<char>, n: nat)
    requires at + n <= dst.Length
    modifies dst
    ensures dst[..] == Copied(old(dst[..]), at, src, n)
    ensures
      var m := if |Text(src)| < n then |Text(src)| else n;
      && (forall k :: at <= k < at + m ==> dst[k] == src[k - at])
      && (forall k :: at + m <= k < at + n ==> dst[k] as int == 0)
      && forall k :: 0 <= k < dst.Length && !(at <= k < at + n) ==> dst[k] == old(dst[k])
  {
    ghost var before := dst[..];
    var i := 0;
    while i < n && At(src, i) != NUL
      invariant 0 <= i <= n && i <= |src| && forall k :: 0 <= k < i ==> src[k] != NUL
      invariant forall k :: at <= k < at + i ==> dst[k] == src[k - at]
      invariant forall k :: 0 <= k < dst.Length && !(at <= k < at + i) ==> dst[k] == before[k]
    {
      dst[at + i] := At(src, i);
      i := i + 1;
    }
    TextLonger(src, i);
    ghost var copied := i;
    assert |Prefix(Text(src), n)| == copied by { if i < n { TextIs(src, i); } }
    while i < n
      invariant copied <= i <= n
      invariant forall k :: at <= k < at + copied ==> dst[k] == src[k - at]
      invariant forall k :: at + copied <= k < at + i ==> dst[k] == NUL
      invariant forall k :: 0 <= k < dst.Length && !(at <= k < at + i) ==> dst[k] == before[k]
    {
      dst[at + i] := NUL;
      i := i + 1;
    }
    CopiedAt(before, at, src, n);
    assert dst[..] == Copied(before, at, src, n);
  }

  // ---- strtoul

  function SkipBlanks(s: seq<char>, i: nat): (j: nat)
    ensures j >= i
    decreases |s| - i
  {
    if At(s, i) == ' ' || At(s, i) == '\t' then SkipBlanks(s, i + 1) else i
  }

  function Accumulate(s: seq<char>, i: nat, base: nat, acc: uint64): (r: (uint64, nat))
    requires base <= 36
    ensures r.1 >= i
    decreases |s| - i
  {
    var d := DigitValue(At(s, i));
    if d < base then Accumulate(s, i + 1, base, Wrap64(acc * base + d)) else (acc, i)
  }

  /** The base a prefix selects and where the digits start. */
  function BasePrefix(s: seq<char>, p: nat, base: nat): (r: (nat, nat))
    ensures r.1 >= p && (base <= 36 ==> r.0 <= 36)
  {
    if (base == 0 || base == 16) && At(s, p) == '0' && (At(s, p + 1) == 'x' || At(s, p + 1) == 'X') then (16, p + 2)
    else if base == 0 && At(s, p) == '0' then (8, p)
    else if base == 0 then (10, p)
    else (base, p)
  }

  /** Value and end position of the number at `start`. */
  function ParseUnsigned(s: seq<char>, start: nat, base: nat): (r: (uint64, nat))
    requires base <= 36
    ensures r.1 >= start
  {
    var p := SkipBlanks(s, start);
    var (b, q) := BasePrefix(s, if At(s, p) == '+' then p + 1 else p, base);
    Accumulate(s, q, b, 0)
  }

  lemma NulIsNoDigit()
    ensures DigitValue(NUL) == 36
  {
  }

  method Strtoul(s: seq<char>, start: nat, base: nat) returns (val: uint64, end: nat)
    requires base <= 36
    ensures (val, end) == ParseUnsigned(s, start, base)
  {
    hide DigitValue, Wrap64;
    NulIsNoDigit();
    var p := start;
    while At(s, p) == ' ' || At(s, p) == '\t'
      invariant p >= start && SkipBlanks(s, start) == SkipBlanks(s, p)
      decreases |s| - p
    {
      p := p + 1;
    }
    if At(s, p) == '+' {
      p := p + 1;
    }
    var b := base;
    if (base == 0 || base == 16) && At(s, p) == '0' && (At(s, p + 1) == 'x' || At(s, p + 1) == 'X') {
      p, b := p + 2, 16;
    } else if base == 0 && At(s, p) == '0' {
      b := 8;
    } else if base == 0 {
      b := 10;
    }
    ghost var q := p;
    val := 0;
    while true
      invariant Accumulate(s, q, b, 0) == Accumulate(s, p, b, val)
      decreases |s| - p
    {
      var digit := DigitValue(At(s, p));
      if digit >= b {
        break;
      }
      val := Wrap64(val * b + digit);
      p := p + 1;
    }
    end := p;
  }

  // ---- What strtoul reads

  lemma WrapShift(y: int, k: int)
    ensures Wrap64(y + k * TWO_64) == Wrap64(y)
  {
  }

  lemma WrapStep(x: nat, base: nat, d: nat)
    requires IsBase(base)
    ensures Wrap64(Wrap64(x) * base + d) == Wrap64(x * base + d)
  {
    var q, r := x / TWO_64, Wrap64(x);
    assert x == q * TWO_64 + r;
    WrapShift(r * base + d, q * base);
    assert r * base + d + q * base * TWO_64 == x * base + d;
  }

  lemma ValueStep(s: seq<char>, i: nat, j: nat, base: nat)
    requires i <= j < |s|
    ensures Value(s[i..j + 1], base) == Value(s[i..j], base) * base + DigitValue(s[j])
  {
    assert s[i..j + 1][..j - i] == s[i..j];
  }

  /** Reading on from inside a run of digits that ends at `end`. */
  lemma {:induction false} AccumulateValue(s: seq<char>, start: nat, i: nat, end: nat, base: nat)
    requires IsBase(base) && start <= i <= end <= |s|
    requires AllDigits(s[start..end], base) && DigitValue(At(s, end)) >= base
    ensures Accumulate(s, i, base, Wrap64(Value(s[start..i], base))) == (Wrap64(Value(s[start..end], base)), end)
    decreases end - i
  {
    hide Value, Wrap64, DigitValue;
    if i < end {
      assert s[start..end][i - start] == s[i];
      ValueStep(s, start, i, base);
      WrapStep(Value(s[start..i], base), base, DigitValue(s[i]));
      AccumulateValue(s, start, i + 1, end, base);
    }
  }

  lemma NothingRead(s: seq<char>, start: nat, base: nat)
    requires start <= |s|
    ensures Wrap64(Value(s[start..start], base)) == 0
  {
  }

  /** A digit run of base 8, 10 or 16 is read to its end and denotes its value. */
  lemma {:induction false} AccumulateRun(s: seq<char>, start: nat, digits: seq<char>, base: nat)
    requires IsBase(base) && AllDigits(digits, base)
    requires start + |digits| <= |s| && s[start..start + |digits|] == digits
    requires DigitValue(At(s, start + |digits|)) >= base
    ensures Accumulate(s, start, base, 0) == (Wrap64(Value(digits, base)), start + |digits|)
  {
    hide Value, Wrap64, DigitValue, Accumulate, AllDigits;
    NothingRead(s, start, base);
    AccumulateValue(s, start, start, start + |digits|, base);
  }

  /** How a number can be written so that base 0 reads it back. */
  datatype Notation = Decimal | Hex(upper: bool) | Octal

  function Written(v: nat, n: Notation): (s: seq<char>)
    ensures |s| >= 1
  {
    match n
    case Decimal => Numeral(v, 10, false)
    case Hex(upper) => (if upper then "0X" else "0x") + Numeral(v, 16, upper)
    case Octal => "0" + Numeral(v, 8, false)
  }

  /** A numeral starts with a digit, so strtoul finds neither a blank nor a sign there. */
  lemma {:induction false} NumeralStart(v: nat, base: nat, upper: bool)
    requires IsBase(base)
    ensures DigitValue(Numeral(v, base, upper)[0]) < base
    decreases v
  {
    if v >= base { NumeralStart(Quotient(v, base), base, upper); }
  }

  lemma PrefixOf(s: seq<char>, i: nat, w: seq<char>, k: nat)
    requires i + |w| <= |s| && s[i..i + |w|] == w && k < |w|
    ensures At(s, i + k) == w[k]
  {
    assert s[i..i + |w|][k] == s[i + k];
  }

  /** Where a digit stands there is neither a blank nor a sign to skip. */
  lemma DigitAhead(s: seq<char>, i: nat)
    requires DigitValue(At(s, i)) < 16
    ensures SkipBlanks(s, i) == i && At(s, i) != '+' && At(s, i) != 'x' && At(s, i) != 'X'
    ensures ParseUnsigned(s, i, 0) ==
      var (b, q) := BasePrefix(s, i, 0);
      Accumulate(s, q, b, 0)
  {
  }

  predicate IsWordChar(c: char) {
    '0' <= c <= '9' || 'a' <= c <= 'z' || 'A' <= c <= 'Z'
  }

  ghost predicate SpellsDecimal(t: seq<char>, v: nat) {
    t != [] && Uses(t, "0123456789") && (t[0] != '0' || |t| == 1) && Denoted(t, "0123456789") == v
  }

  ghost predicate SpellsOctal(t: seq<char>, v: nat) {
    |t| > 1 && t[0] == '0' && Uses(t, "01234567") && Denoted(t, "01234567") == v
  }

  ghost predicate SpellsHex(t: seq<char>, v: nat, alphabet: seq<char>) {
    |t| > 2 && (t[..2] == "0x" || t[..2] == "0X") && Uses(t[2..], alphabet) && Denoted(t[2..], alphabet) == v
  }

  /** A number as it may be written: decimal, octal behind a zero, or hexadecimal behind 0x with letters of one case. */
  ghost predicate Spells(t: seq<char>, v: nat) {
    var small, capital := "0123456789abcdef", "0123456789ABCDEF";
    SpellsDecimal(t, v) || SpellsOctal(t, v) || SpellsHex(t, v, small) || SpellsHex(t, v, capital)
  }

  /** The whole of a number stands at a place of a text. */
  ghost predicate Stands(s: seq<char>, i: nat, t: seq<char>, v: nat) {
    Spells(t, v) && i + |t| <= |s| && s[i..i + |t|] == t && !IsWordChar(At(s, i + |t|))
  }

  lemma SpelledStart(t: seq<char>, v: nat)
    requires Spells(t, v)
    ensures t != [] && '0' <= t[0] <= '9'
  {
    hide Denoted;
    if t != [] && Uses(t, "0123456789") { assert t[0] in "0123456789"; }
  }

  /** Reading from where the digits of a base begin. */
  lemma {:induction false} DigitsRead(s: seq<char>, i: nat, d: seq<char>, base: nat, upper: bool)
    requires IsBase(base) && base >= 8 && Uses(d, Alphabet(base, upper))
    requires i + |d| <= |s| && s[i..i + |d|] == d && !IsWordChar(At(s, i + |d|))
    ensures Accumulate(s, i, base, 0) == (Wrap64(Denoted(d, Alphabet(base, upper))), i + |d|)
  {
    hide Accumulate, Denoted, Value, Alphabet;
    DenotesValue(d, base, upper);
    AccumulateRun(s, i, d, base);
  }

  /** strtoul reads any number so written to its end, modulo 2^64. */
  lemma NumberRead(s: seq<char>, i: nat, t: seq<char>, v: nat)
    requires Stands(s, i, t, v)
    ensures ParseUnsigned(s, i, 0) == (v % 0x1_0000_0000_0000_0000, i + |t|)
  {
    hide ParseUnsigned, Denoted, SpellsDecimal, SpellsOctal, SpellsHex, Accumulate, SkipBlanks;
    Alphabets();
    SpelledStart(t, v);
    PrefixOf(s, i, t, 0);
    DigitAhead(s, i);
    if SpellsDecimal(t, v) {
      DecimalRead(s, i, t, v);
    } else if SpellsOctal(t, v) {
      OctalRead(s, i, t, v);
    } else if SpellsHex(t, v, "0123456789abcdef") {
      HexRead(s, i, t, v, false);
    } else {
      HexRead(s, i, t, v, true);
    }
  }

  lemma {:induction false} DecimalRead(s: seq<char>, i: nat, t: seq<char>, v: nat)
    requires SpellsDecimal(t, v) && i + |t| <= |s| && s[i..i + |t|] == t && !IsWordChar(At(s, i + |t|))
    ensures
      var (b, q) := BasePrefix(s, i, 0);
      Accumulate(s, q, b, 0) == (v % 0x1_0000_0000_0000_0000, i + |t|)
  {
    hide Accumulate, Denoted;
    Alphabets();
    PrefixOf(s, i, t, 0);
    if t[0] != '0' {
      DigitsRead(s, i, t, 10, false);
    } else {
      ZeroIsOctal(t);
      DigitsRead(s, i, t, 8, false);
    }
  }

  lemma ZeroIsOctal(t: seq<char>)
    requires t == "0"
    ensures Uses(t, "01234567") && Denoted(t, "01234567") == Denoted(t, "0123456789") == 0
  {
    DenotedNone("01234567");
    DenotedNone("0123456789");
    DenotedSnoc([], '0', "01234567");
    DenotedSnoc([], '0', "0123456789");
    assert [] + ['0'] == t;
  }

  lemma {:induction false} OctalRead(s: seq<char>, i: nat, t: seq<char>, v: nat)
    requires SpellsOctal(t, v) && i + |t| <= |s| && s[i..i + |t|] == t && !IsWordChar(At(s, i + |t|))
    ensures
      var (b, q) := BasePrefix(s, i, 0);
      Accumulate(s, q, b, 0) == (v % 0x1_0000_0000_0000_0000, i + |t|)
  {
    hide Accumulate, Denoted;
    Alphabets();
    PrefixOf(s, i, t, 0);
    PrefixOf(s, i, t, 1);
    assert t[1] in "01234567";
    DigitsRead(s, i, t, 8, false);
  }

  lemma HexStart(t: seq<char>)
    requires |t| > 2 && (t[..2] == "0x" || t[..2] == "0X")
    ensures t[0] == '0' && (t[1] == 'x' || t[1] == 'X')
  {
    assert t[0] == t[..2][0] && t[1] == t[..2][1];
  }

  lemma HexPrefix(s: seq<char>, i: nat, t: seq<char>)
    requires |t| > 2 && (t[..2] == "0x" || t[..2] == "0X") && i + |t| <= |s| && s[i..i + |t|] == t
    ensures BasePrefix(s, i, 0) == (16, i + 2) && s[i + 2..i + |t|] == t[2..]
  {
    HexStart(t);
    PrefixOf(s, i, t, 0);
    PrefixOf(s, i, t, 1);
    assert s[i + 2..i + |t|] == s[i..i + |t|][2..];
  }

  lemma {:induction false} HexRead(s: seq<char>, i: nat, t: seq<char>, v: nat, upper: bool)
    requires SpellsHex(t, v, Alphabet(16, upper))
    requires i + |t| <= |s| && s[i..i + |t|] == t && !IsWordChar(At(s, i + |t|))
    ensures
      var (b, q) := BasePrefix(s, i, 0);
      Accumulate(s, q, b, 0) == (v % 0x1_0000_0000_0000_0000, i + |t|)
  {
    hide *;
    HexWrap(v);
    HexParts(t, v, Alphabet(16, upper));
    HexPrefix(s, i, t);
    var d, base := t[2..], 16;
    assert i + 2 + |d| == i + |t|;
    DigitsRead(s, i + 2, d, base, upper);
  }

  lemma HexParts(t: seq<char>, v: nat, alphabet: seq<char>)
    requires SpellsHex(t, v, alphabet)
    ensures |t| > 2 && (t[..2] == "0x" || t[..2] == "0X") && Uses(t[2..], alphabet) && Denoted(t[2..], alphabet) == v
  {
  }

  lemma HexWrap(v: nat)
    ensures IsBase(16) && Wrap64(v) == v % 0x1_0000_0000_0000_0000
  {
  }

  /** Every notation spells its number. */
  lemma WrittenSpells(v: nat, n: Notation)
    ensures Spells(Written(v, n), v)
  {
    hide Numeral, Denoted, Alphabet;
    Alphabets();
    match n
    case Decimal =>
      NumeralIs(v, 10, false);
      assert |Numeral(v, 10, false)| == 1 || v != 0 by { OneZero(v); }
    case Hex(upper) =>
      NumeralIs(v, 16, upper);
      assert Written(v, n)[2..] == Numeral(v, 16, upper);
    case Octal =>
      NumeralIs(v, 8, false);
      LeadingZeros(1, Numeral(v, 8, false), Alphabet(8, false));
      assert Repeat('0', 1) == "0";
  }

  lemma OneZero(v: nat)
    ensures v == 0 ==> |Numeral(v, 10, false)| == 1
  {
  }

  /**
   * strtoul with base 0 reads back every number written in any of its three
   * notations, wherever it stands in a text, and stops at the first character
   * after it, provided that is neither a letter nor a digit.
   */
  lemma ReadsBack(s: seq<char>, i: nat, v: uint64, n: Notation)
    requires i + |Written(v, n)| <= |s| && s[i..i + |Written(v, n)|] == Written(v, n)
    requires DigitValue(At(s, i + |Written(v, n)|)) == 36
    ensures ParseUnsigned(s, i, 0) == (v, i + |Written(v, n)|)
  {
    hide ParseUnsigned, Numeral, Spells, Written;
    WrittenSpells(v, n);
    NumberRead(s, i, Written(v, n), v);
  }

  // ---- Signs

  /** The number that stands at `q`: a base prefix and digits. */
  function NumberAt(s: seq<char>, q: nat, base: nat): (uint64, nat)
    requires base <= 36
  {
    var (b, d) := BasePrefix(s, q, base);
    Accumulate(s, d, b, 0)
  }

  /**
   * At the first character that is not a blank, a sign is passed over if and only if
   * it is a plus; behind a minus, which C also allows there, nothing is read.
   */
  lemma SignTaken(s: seq<char>, i: nat, base: nat)
    requires base <= 36
    ensures
      var p := SkipBlanks(s, i);
      && ParseUnsigned(s, i, base) == NumberAt(s, if At(s, p) == '+' then p + 1 else p, base)
      && (At(s, p) == '-' ==> ParseUnsigned(s, i, base) == (0, p))
      && (At(s, p) == '+' || At(s, p) == '-' ==> (ParseUnsigned(s, i, base).1 > p <==> At(s, p) == '+'))
  {
    hide SkipBlanks;
  }

  lemma NoDigit(s: seq<char>, i: nat)
    requires !('0' <= At(s, i) <= '9')
    ensures BasePrefix(s, i, 0) == (10, i) && Accumulate(s, i, 10, 0) == (0, i)
  {
  }

  /** Blanks and tabs in front are passed over, and one plus; behind a minus nothing is read. */
  lemma InFront(s: seq<char>, i: nat, t: seq<char>, v: nat)
    requires i < |s|
    ensures s[i] == ' ' || s[i] == '\t' ==> ParseUnsigned(s, i, 0) == ParseUnsigned(s, i + 1, 0)
    ensures s[i] == '-' ==> ParseUnsigned(s, i, 0) == (0, i)
    ensures s[i] == '+' && Stands(s, i + 1, t, v) ==>
      ParseUnsigned(s, i, 0) == (v % 0x1_0000_0000_0000_0000, i + 1 + |t|)
  {
    hide Spells, IsWordChar, Accumulate;
    if s[i] == '+' && Stands(s, i + 1, t, v) {
      SpelledStart(t, v);
      PrefixOf(s, i + 1, t, 0);
      DigitAhead(s, i + 1);
      NumberRead(s, i + 1, t, v);
    }
    if s[i] == '-' { NoDigit(s, i); }
  }
}
