/** Printing and parsing undo each other: snprintf with %lu, %#lx, %#lX or %#lo, then strtoul with base 0. */
module PrintParse {
  import opened Bytes
  import opened Numerals
  import CStrings
  import Printf
  import PrintfIso

  type Notation = CStrings.Notation

  /** The format that prints a long in a notation. */
  function Spec(n: Notation): seq<char> {
    match n case Decimal => "%lu" case Hex(upper) => (if upper then "%#lX" else "%#lx") case Octal => "%#lo"
  }

  function SpecFlags(n: Notation): Printf.Flags {
    Printf.NO_FLAGS.(long := true, hash := !n.Decimal?, upper := n.Hex? && n.upper)
  }

  function SpecChar(n: Notation): char {
    match n case Decimal => 'u' case Hex(upper) => (if upper then 'X' else 'x') case Octal => 'o'
  }

  /** What the printer must produce: zero has no prefix. */
  function Form(v: nat, n: Notation): seq<char> {
    CStrings.Written(v, if v == 0 then CStrings.Decimal else n)
  }

  lemma SpecFlagsRead(n: Notation)
    ensures Printf.ReadFlags(Spec(n), 1, Printf.NO_FLAGS) == (Printf.NO_FLAGS.(hash := !n.Decimal?), |Spec(n)| - 2)
  {
    var fmt, f := Spec(n), Printf.NO_FLAGS.(hash := !n.Decimal?);
    assert Printf.ReadFlags(fmt, |fmt| - 2, f) == (f, |fmt| - 2);
  }

  lemma SpecReads(v: uint64, n: Notation)
    ensures Printf.ReadDirective(Spec(n), 1, [Printf.Word(v)])
      == Printf.Directive(Printf.NO_FLAGS.(long := true, hash := !n.Decimal?), 0, 0, |Spec(n)| - 1, [Printf.Word(v)])
    ensures CStrings.At(Spec(n), |Spec(n)| - 1) == SpecChar(n)
  {
    hide Printf.ReadFlags;
    SpecFlagsRead(n);
    var fmt, f := Spec(n), Printf.NO_FLAGS.(hash := !n.Decimal?);
    var d := Printf.Directive(f, 0, 0, |fmt| - 2, [Printf.Word(v)]);
    assert CStrings.At(fmt, |fmt| - 2) == 'l' && CStrings.At(fmt, |fmt| - 1) == SpecChar(n);
    assert Printf.ReadPrecision(fmt, Printf.ReadWidth(fmt, d)) == d;
  }

  /** The one directive is the whole output. */
  lemma SpecRenders(v: uint64, n: Notation)
    ensures Printf.Render(Spec(n), 0, [Printf.Word(v)])
         == Printf.IntField(v, false, if n.Decimal? then 10 else if n.Hex? then 16 else 8, 0, 0, SpecFlags(n))
  {
    hide Printf.Render, Printf.ReadDirective, Printf.IntField;
    var fmt, args := Spec(n), [Printf.Word(v)];
    SpecReads(v, n);
    Printf.RenderStep(fmt, 0, args);
    var d := Printf.ReadDirective(fmt, 1, args);
    Printf.RenderEnd(fmt, d.at + 1, args[1..]);
    Printf.AppendEmpty(Printf.Convert(SpecChar(n), d).0);
  }

  lemma FieldOfZero(base: nat, f: Printf.Flags)
    requires IsBase(base) && base >= 8 && !f.precision && !f.left && !f.zeropad && !f.plus && !f.space
    ensures Printf.IntField(0, false, base, 0, 0, f) == "0"
  {
    var g := f.(hash := false);
    PrintfIso.FieldIsIso(0, false, base, 0, 0, g);
    assert Printf.IntField(0, false, base, 0, 0, f) == Printf.IntField(0, false, base, 0, 0, g) by {
      hide Printf.FormatRev, Printf.RevField;
    }
    assert PrintfIso.IsoField(0, false, base, 0, 0, g) == "0" by { assert Numeral(0, base, g.upper) == ['0']; }
  }

  lemma {:induction false} FieldOfMarked(v: uint64, base: nat, f: Printf.Flags)
    requires (base == 8 || base == 16) && v != 0
    requires f == Printf.NO_FLAGS.(long := true, hash := true, upper := f.upper)
    ensures Printf.IntField(v, false, base, 0, 0, f) == PrintfIso.Mark(base, f) + Numeral(v, base, f.upper)
  {
    hide Printf.IntField, Numeral;
    PrintfIso.HashFieldIsIso(v, base, 0, f);
    var d := Numeral(v, base, f.upper);
    assert Repeat('0', 0 - |d|) + d == d;
    assert [] + PrintfIso.Mark(base, f) == PrintfIso.Mark(base, f);
    NoLeadingZero(v, base, f.upper);
    assert PrintfIso.Sign(false, f) + PrintfIso.Prefix(v, base, d, f) == PrintfIso.Mark(base, f);
  }

  lemma {:induction false} FieldOfDecimal(v: uint64, f: Printf.Flags)
    requires v != 0 && f == Printf.NO_FLAGS.(long := true)
    ensures Printf.IntField(v, false, 10, 0, 0, f) == Numeral(v, 10, false)
  {
    hide Printf.IntField, Numeral;
    PrintfIso.FieldIsIso(v, false, 10, 0, 0, f);
    var d := Numeral(v, 10, false);
    assert Repeat('0', 0 - |d|) + d == d;
    assert PrintfIso.Body(v, 10, 0, f) == d;
    assert PrintfIso.Sign(false, f) + PrintfIso.Prefix(v, 10, d, f) == [];
  }

  /** What is printed is the number in its notation. */
  lemma Prints(v: uint64, n: Notation)
    ensures Printf.Render(Spec(n), 0, [Printf.Word(v)]) == Form(v, n)
  {
    hide Printf.IntField, Printf.Render, Spec;
    SpecRenders(v, n);
    var f := SpecFlags(n);
    if v == 0 {
      FieldOfZero(if n.Decimal? then 10 else if n.Hex? then 16 else 8, f);
      assert Numeral(0, 10, false) == "0";
    } else {
      hide Numeral;
      match n
      case Decimal => FieldOfDecimal(v, f);
      case Hex(upper) => FieldOfMarked(v, 16, f);
      case Octal => FieldOfMarked(v, 8, f);
    }
  }

  /** The round trip: every 64-bit value survives printing and parsing, and parsing stops at the terminator. */
  lemma PrintThenParse(v: uint64, n: Notation)
    ensures
      var s := Printf.Render(Spec(n), 0, [Printf.Word(v)]);
      CStrings.ParseUnsigned(s, 0, 0) == (v, |s|)
  {
    hide Printf.Render, CStrings.ParseUnsigned, CStrings.Written;
    Prints(v, n);
    var s := Form(v, n);
    assert s[0..0 + |s|] == s;
    CStrings.ReadsBack(s, 0, v, if v == 0 then CStrings.Decimal else n);
  }

  /** The round trip through memory: print into a buffer that is large enough, then parse what it holds. */
  method StoreAndLoad(v: uint64, n: Notation, buffer: array<char>) returns (w: uint64, end: nat)
    requires buffer.Length > |Form(v, n)|
    modifies buffer
    ensures w == v && end == |Form(v, n)| && buffer[end] == '\0'
  {
    hide Printf.Render, CStrings.ParseUnsigned, CStrings.Written, Spec;
    Prints(v, n);
    var len := Printf.Vsnprintf(buffer, buffer.Length, Spec(n), [Printf.Word(v)]);
    ghost var s := Form(v, n);
    assert buffer[..][..|s|] == s && buffer[..][|s|] == '\0';
    CStrings.ReadsBack(buffer[..], 0, v, if v == 0 then CStrings.Decimal else n);
    w, end := CStrings.Strtoul(buffer[..], 0, 0);
  }
}
