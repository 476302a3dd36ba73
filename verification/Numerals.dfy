/** Digit strings: the reference numerals that printing must produce and parsing must read. */
module Numerals {
  import opened Bytes

  predicate IsBase(base: nat) {
    base == 2 || base == 8 || base == 10 || base == 16
  }

  /** `v / base`, with the division by a constant that each base means. */
  function Quotient(v: nat, base: nat): (q: nat)
    requires IsBase(base)
    ensures v >= base ==> q < v
  {
    if base == 2 then v / 2 else if base == 8 then v / 8 else if base == 10 then v / 10 else v / 16
  }

  /** `v % base`, likewise. */
  function Remainder(v: nat, base: nat): (r: nat)
    requires IsBase(base)
    ensures r < base
  {
    if base == 2 then v % 2 else if base == 8 then v % 8 else if base == 10 then v % 10 else v % 16
  }

  lemma QuotientIs(v: nat, base: nat)
    requires IsBase(base)
    ensures Quotient(v, base) == v / base && Remainder(v, base) == v % base
  {
  }

  function DigitChar(d: nat, upper: bool): char
    requires d < 16
  {
    if d < 10 then '0' + d as char else if upper then 'A' + (d - 10) as char else 'a' + (d - 10) as char
  }

  /** The value of a digit in any base up to 36, as strtoul reads it; 36 for any other character. */
  function DigitValue(c: char): nat {
    if '0' <= c <= '9' then (c - '0') as nat
    else if 'a' <= c <= 'z' then (c - 'a') as nat + 10
    else if 'A' <= c <= 'Z' then (c - 'A') as nat + 10
    else 36
  }

  /** The numeral of `v`, most significant digit first, without leading zeros. */
  function Numeral(v: nat, base: nat, upper: bool): (s: seq<char>)
    requires IsBase(base)
    ensures |s| >= 1
    decreases v
  {
    if v < base then [DigitChar(v, upper)]
    else Numeral(Quotient(v, base), base, upper) + [DigitChar(Remainder(v, base), upper)]
  }

  ghost predicate AllDigits(s: seq<char>, base: nat) {
    forall i :: 0 <= i < |s| ==> DigitValue(s[i]) < base
  }

  /** The number a digit string denotes. */
  function Value(s: seq<char>, base: nat): nat
    decreases |s|
  {
    if s == [] then 0 else Value(s[..|s| - 1], base) * base + DigitValue(s[|s| - 1])
  }

  lemma QuotientRemainder(v: nat, base: nat)
    requires IsBase(base)
    ensures Quotient(v, base) * base + Remainder(v, base) == v
  {
  }

  /** Appending a digit to a digit string. */
  lemma ValueAppend(s: seq<char>, d: nat, base: nat, upper: bool)
    requires d < base <= 16 && AllDigits(s, base)
    ensures AllDigits(s + [DigitChar(d, upper)], base)
    ensures Value(s + [DigitChar(d, upper)], base) == Value(s, base) * base + d
  {
    assert DigitValue(DigitChar(d, upper)) == d;
    assert (s + [DigitChar(d, upper)])[..|s|] == s;
  }

  lemma NoDigits(base: nat)
    ensures AllDigits([], base) && Value([], base) == 0
  {
  }

  lemma {:induction false} ValueOfNumeral(v: nat, base: nat, upper: bool)
    requires IsBase(base)
    ensures AllDigits(Numeral(v, base, upper), base) && Value(Numeral(v, base, upper), base) == v
    decreases v
  {
    hide Quotient, Remainder, Value, DigitValue, DigitChar, AllDigits;
    if v < base {
      NoDigits(base);
      ValueAppend([], v, base, upper);
      assert [] + [DigitChar(v, upper)] == Numeral(v, base, upper);
    } else {
      QuotientRemainder(v, base);
      var q, r := Quotient(v, base), Remainder(v, base);
      ValueOfNumeral(q, base, upper);
      ValueAppend(Numeral(q, base, upper), r, base, upper);
    }
  }

  /** Only zero has a numeral that starts with the digit zero. */
  lemma {:induction false} NoLeadingZero(v: nat, base: nat, upper: bool)
    requires IsBase(base)
    ensures Numeral(v, base, upper)[0] == '0' <==> v == 0
    decreases v
  {
    if v >= base {
      NoLeadingZero(Quotient(v, base), base, upper);
    }
  }

  // ---- The digits themselves

  /** A numeral with digits of an alphabet, its base the number of them, read from its characters alone. */
  function Denoted(s: seq<char>, alphabet: seq<char>): nat
    decreases |s|
  {
    if s == [] then 0
    else Denoted(s[..|s| - 1], alphabet) * |alphabet| + Place(s[|s| - 1], alphabet)
  }

  /** Where a character stands in an alphabet. */
  function Place(c: char, alphabet: seq<char>): (k: nat)
    ensures k <= |alphabet| && (k < |alphabet| ==> alphabet[k] == c)
  {
    if alphabet == [] || alphabet[0] == c then 0 else 1 + Place(c, alphabet[1..])
  }

  predicate Uses(s: seq<char>, alphabet: seq<char>) {
    forall k :: 0 <= k < |s| ==> s[k] in alphabet
  }

  lemma PlaceOf(c: char, alphabet: seq<char>, k: nat)
    requires k < |alphabet| && alphabet[k] == c && c !in alphabet[..k]
    ensures Place(c, alphabet) == k
    decreases k
  {
    if k > 0 {
      assert alphabet[..k][0] == alphabet[0];
      assert alphabet[1..][..k - 1] == alphabet[..k][1..];
      PlaceOf(c, alphabet[1..], k - 1);
    }
  }

  /** The digits of a base, in capitals or not. */
  function Alphabet(base: nat, upper: bool): (s: seq<char>)
    requires base <= 16
    ensures |s| == base
  {
    (if upper then "0123456789ABCDEF" else "0123456789abcdef")[..base]
  }

  lemma DigitPlace(d: nat, base: nat, upper: bool)
    requires IsBase(base) && d < base
    ensures Place(DigitChar(d, upper), Alphabet(base, upper)) == d && DigitChar(d, upper) in Alphabet(base, upper)
  {
    var alphabet := Alphabet(base, upper);
    forall j | 0 <= j <= d
      ensures alphabet[j] == DigitChar(j, upper)
    {
      AlphabetAt(j, base, upper);
    }
    hide Alphabet, Place;
    PlaceOf(DigitChar(d, upper), alphabet, d);
  }

  lemma AlphabetAt(d: nat, base: nat, upper: bool)
    requires base <= 16 && d < base
    ensures Alphabet(base, upper)[d] == DigitChar(d, upper)
  {
  }

  /**
   * Every numeral, by its characters alone: the digits 0 to 9 and then letters, capital
   * or not as asked for, as many as the base has; they denote the number, and the
   * first is a zero only in the numeral of zero.
   */
  lemma {:induction false} NumeralIs(v: nat, base: nat, upper: bool)
    requires IsBase(base)
    ensures
      var s := Numeral(v, base, upper);
      Uses(s, Alphabet(base, upper)) && Denoted(s, Alphabet(base, upper)) == v && (s[0] == '0' <==> v == 0)
    decreases v
  {
    hide Alphabet, Denoted, Place, DigitChar, Quotient, Remainder;
    NoLeadingZero(v, base, upper);
    var alphabet := Alphabet(base, upper);
    if v < base {
      DigitPlace(v, base, upper);
      DenotedSnoc([], DigitChar(v, upper), alphabet);
      DenotedNone(alphabet);
      assert [] + [DigitChar(v, upper)] == [DigitChar(v, upper)];
    } else {
      var q, r := Quotient(v, base), Remainder(v, base);
      QuotientRemainder(v, base);
      NumeralIs(q, base, upper);
      DigitPlace(r, base, upper);
      DenotedSnoc(Numeral(q, base, upper), DigitChar(r, upper), alphabet);
    }
  }

  lemma Alphabets()
    ensures Alphabet(10, false) == "0123456789" && Alphabet(8, false) == "01234567"
    ensures Alphabet(16, false) == "0123456789abcdef" && Alphabet(16, true) == "0123456789ABCDEF"
  {
  }

  lemma PlaceIsValue(c: char, base: nat, upper: bool)
    requires IsBase(base) && c in Alphabet(base, upper)
    ensures DigitValue(c) == Place(c, Alphabet(base, upper)) < base
  {
    hide Alphabet, Place;
    var alphabet := Alphabet(base, upper);
    var k :| 0 <= k < base && alphabet[k] == c;
    AlphabetAt(k, base, upper);
    DigitPlace(k, base, upper);
  }

  /** Digits of an alphabet denote the value they are read with. */
  lemma {:induction false} DenotesValue(s: seq<char>, base: nat, upper: bool)
    requires IsBase(base) && Uses(s, Alphabet(base, upper))
    ensures AllDigits(s, base) && Value(s, base) == Denoted(s, Alphabet(base, upper))
    decreases |s|
  {
    hide Alphabet, Place, DigitValue;
    if s != [] {
      DenotesValue(s[..|s| - 1], base, upper);
      PlaceIsValue(s[|s| - 1], base, upper);
    }
  }

  lemma DenotedNone(alphabet: seq<char>)
    ensures Denoted([], alphabet) == 0
  {
  }

  lemma DenotedSnoc(s: seq<char>, c: char, alphabet: seq<char>)
    ensures Denoted(s + [c], alphabet) == Denoted(s, alphabet) * |alphabet| + Place(c, alphabet)
  {
    assert (s + [c])[..|s|] == s;
  }

  function Pow8(n: nat): nat {
    if n == 0 then 1 else 8 * Pow8(n - 1)
  }

  lemma {:induction false} Pow8Add(a: nat, b: nat)
    ensures Pow8(a + b) == Pow8(a) * Pow8(b)
    decreases a
  {
    if a > 0 {
      Pow8Add(a - 1, b);
      assert 8 * (Pow8(a - 1) * Pow8(b)) == 8 * Pow8(a - 1) * Pow8(b);
    }
  }

  lemma {:induction false} NumeralLength(v: nat, base: nat, upper: bool, n: nat)
    requires IsBase(base) && base >= 8 && n >= 1 && v < Pow8(n)
    ensures |Numeral(v, base, upper)| <= n
    decreases n
  {
    if n == 1 {
      assert Pow8(1) == 8;
    } else if v >= base {
      assert Quotient(v, base) <= v / 8 < Pow8(n - 1);
      NumeralLength(Quotient(v, base), base, upper, n - 1);
    }
  }

  /** A 64-bit value has at most 22 digits in base 8 or above. */
  lemma Numeral64(v: uint64, base: nat, upper: bool)
    requires IsBase(base) && base >= 8
    ensures |Numeral(v, base, upper)| <= 22
  {
    assert Pow8(5) == 0x8000;
    Pow8Add(5, 6);
    Pow8Add(11, 11);
    NumeralLength(v, base, upper, 22);
  }

  function Repeat(c: char, n: int): (s: seq<char>)
    ensures |s| == Max(n, 0)
    ensures forall i :: 0 <= i < |s| ==> s[i] == c
  {
    seq(Max(n, 0), _ => c)
  }

  function Reverse(s: seq<char>): (r: seq<char>)
    ensures |r| == |s|
    ensures forall i :: 0 <= i < |s| ==> r[i] == s[|s| - 1 - i]
  {
    seq(|s|, i requires 0 <= i < |s| => s[|s| - 1 - i])
  }

  lemma {:induction false} LeadingZeros(n: nat, s: seq<char>, alphabet: seq<char>)
    requires |alphabet| > 1 && alphabet[0] == '0'
    ensures Denoted(Repeat('0', n) + s, alphabet) == Denoted(s, alphabet)
    decreases n, |s|
  {
    if s != [] {
      LeadingZeros(n, s[..|s| - 1], alphabet);
      DenotedSnoc(Repeat('0', n) + s[..|s| - 1], s[|s| - 1], alphabet);
      assert Repeat('0', n) + s[..|s| - 1] + [s[|s| - 1]] == Repeat('0', n) + s;
    } else if n > 0 {
      LeadingZeros(n - 1, s, alphabet);
      DenotedSnoc(Repeat('0', n - 1), '0', alphabet);
      assert Repeat('0', n - 1) + ['0'] == Repeat('0', n) + s && Repeat('0', n - 1) + s == Repeat('0', n - 1);
    }
  }

  /** The digits of `v` least significant first, at most `n` of them: what the conversion loop produces. */
  function LowDigits(v: nat, base: nat, upper: bool, n: nat): (s: seq<char>)
    requires IsBase(base)
    ensures |s| <= n
    decreases n
  {
    if n == 0 then []
    else
      [DigitChar(Remainder(v, base), upper)]
      + (if Quotient(v, base) == 0 then [] else LowDigits(Quotient(v, base), base, upper, n - 1))
  }

  lemma ReverseAppend(s: seq<char>, c: char)
    ensures Reverse(s + [c]) == [c] + Reverse(s)
  {
  }

  lemma {:induction false} LowDigitsReverse(v: nat, base: nat, upper: bool, n: nat)
    requires IsBase(base) && |Numeral(v, base, upper)| <= n
    ensures LowDigits(v, base, upper, n) == Reverse(Numeral(v, base, upper))
    decreases n
  {
    if v >= base {
      LowDigitsReverse(Quotient(v, base), base, upper, n - 1);
      ReverseAppend(Numeral(Quotient(v, base), base, upper), DigitChar(Remainder(v, base), upper));
    }
  }
}
