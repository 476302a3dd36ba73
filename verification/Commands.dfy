/** Choosing a command by name or prefix, completing a prefix, and reading the arguments of a line. */
module Commands {
  import opened Bytes
  import opened Numerals
  import opened CStrings

  const COMMANDS: seq<seq<char>> := ["help", "pmic", "ddr", "sd", "sdw", "usb", "load_sd", "jump", "boot"]

  datatype Resolution = Unknown | Ambiguous | Found(i: nat)

  predicate IsName(s: seq<char>) {
    s != [] && NUL !in s
  }

  predicate AreNames(names: seq<seq<char>>) {
    forall i :: 0 <= i < |names| ==> IsName(names[i])
  }

  // ---- Dispatch

  /** `i` is the first command with this very name. */
  ghost predicate Exact(names: seq<seq<char>>, token: seq<char>, i: nat) {
    i < |names| && names[i] == token && token !in names[..i]
  }

  /** `i` is the only command the token is a prefix of. */
  ghost predicate OnlyPrefixed(names: seq<seq<char>>, token: seq<char>, i: nat) {
    i < |names| && token <= names[i] && forall j :: 0 <= j < |names| && j != i ==> !(token <= names[j])
  }

  /** An exact name wins; otherwise the token must be a prefix of exactly one name. */
  ghost predicate Resolves(names: seq<seq<char>>, token: seq<char>, r: Resolution) {
    match r
    case Found(i) => Exact(names, token, i) || (token !in names && OnlyPrefixed(names, token, i))
    case Unknown => forall j :: 0 <= j < |names| ==> !(token <= names[j])
    case Ambiguous =>
      token !in names && exists j, k :: 0 <= j < k < |names| && token <= names[j] && token <= names[k]
  }

  /** The rule is a function: it leaves no choice. */
  lemma ResolvesOnce(names: seq<seq<char>>, token: seq<char>, r: Resolution, q: Resolution)
    requires Resolves(names, token, r) && Resolves(names, token, q)
    ensures r == q
  {
  }

  lemma PrefixAgrees(token: seq<char>, name: seq<char>)
    ensures Prefix(token, |token|) == Prefix(name, |token|) <==> token <= name
  {
  }

  /** The strncmp test both searches make: is the token a prefix of this name? */
  method Matches(line: seq<char>, name: seq<char>, n: nat) returns (yes: bool)
    requires IsName(name) && n <= |Text(line)|
    ensures yes <==> line[..n] <= name
    ensures yes ==> (At(name, n) == NUL <==> line[..n] == name)
  {
    assert Prefix(Text(line), n) == line[..n] == Prefix(line[..n], n);
    var c := Strncmp(line, name, n);
    TextIs(name, |name|);
    PrefixAgrees(line[..n], name);
    yes := c == 0;
  }

  /** The search of execute_command over the first word of `line`, whose text is the buffer's. */
  method Resolve(names: seq<seq<char>>, line: seq<char>, cmdLen: nat) returns (r: Resolution)
    requires AreNames(names) && cmdLen <= |Text(line)|
    ensures Resolves(names, line[..cmdLen], r)
  {
    hide Text, At;
    ghost var token := line[..cmdLen];
    var found := 0;
    ghost var first := 0;
    var m, i := 0, 0;
    while i < |names|
      invariant i <= |names| && token !in names[..i]
      invariant found == 0 ==> forall j :: 0 <= j < i ==> !(token <= names[j])
      invariant found > 0 ==> m < i && token <= names[m] && first <= m && token <= names[first]
      invariant found == 1 ==> first == m && forall j :: 0 <= j < i && j != m ==> !(token <= names[j])
      invariant found > 1 ==> first < m
    {
      var matches := Matches(line, names[i], cmdLen);
      if matches {
        if At(names[i], cmdLen) == NUL {
          return Found(i);
        }
        if found == 0 {
          first := i;
        }
        found, m := found + 1, i;
      }
      i := i + 1;
    }
    assert names[..i] == names;
    r := if found == 0 then Unknown else if found > 1 then Ambiguous else Found(m);
  }

  // ---- Completion

  /** What completing `text` leaves: the whole name when just one has it as a prefix. */
  ghost function Completion(names: seq<seq<char>>, text: seq<char>): (t: seq<char>)
    ensures text <= t && (t == text || t in names)
  {
    if exists i: nat :: OnlyPrefixed(names, text, i) then
      var i: nat :| OnlyPrefixed(names, text, i);
      names[i]
    else text
  }

  lemma CompletionIs(names: seq<seq<char>>, text: seq<char>, i: nat)
    requires OnlyPrefixed(names, text, i)
    ensures Completion(names, text) == names[i]
  {
  }

  /** Completing finds a command that the completed text then selects, and completing again adds nothing. */
  lemma CompletedResolves(names: seq<seq<char>>, text: seq<char>, i: nat)
    requires OnlyPrefixed(names, text, i)
    ensures Resolves(names, Completion(names, text), Found(i))
    ensures Completion(names, Completion(names, text)) == Completion(names, text)
  {
    var t := names[i];
    CompletionIs(names, text, i);
    assert forall j :: 0 <= j < |names| && t <= names[j] ==> text <= names[j];
    CompletionIs(names, t, i);
  }

  /** The counting loop of cmd_tab_completion: the name to complete to, if it is the only one. */
  method UniqueMatch(names: seq<seq<char>>, line: seq<char>, len: nat) returns (unique: bool, name: seq<char>)
    requires AreNames(names) && len == |Text(line)|
    ensures unique ==> Completion(names, Text(line)) == name && Text(line) <= name && name in names
    ensures !unique ==> Completion(names, Text(line)) == Text(line)
  {
    hide Text, At;
    ghost var text := Text(line);
    assert Prefix(text, len) == text;
    ghost var first, last := 0, 0;
    var matches, i := 0, 0;
    name := [];
    while i < |names|
      invariant i <= |names|
      invariant matches == 0 ==> forall j :: 0 <= j < i ==> !(text <= names[j])
      invariant matches > 0 ==> last < i && first <= last && text <= names[first]
      invariant matches > 0 ==> text <= names[last] && name == names[last]
      invariant matches == 1 ==> forall j :: 0 <= j < i && j != last ==> !(text <= names[j])
      invariant matches > 1 ==> first < last
    {
      var fits := Matches(line, names[i], len);
      if fits {
        if matches == 0 {
          first := i;
        }
        last := i;
        matches, name := matches + 1, names[i];
      }
      i := i + 1;
    }
    unique := matches == 1;
    if unique {
      assert OnlyPrefixed(names, text, last);
    }
  }

  // ---- Arguments

  predicate IsSpace(c: char) {
    c == ' ' || c == '\U{000C}' || c == '\n' || c == '\r' || c == '\t' || c == '\U{000B}'
  }

  predicate IsNameChar(c: char) {
    'A' <= c <= 'Z' || 'a' <= c <= 'z' || c == '_'
  }

  function SkipWord(s: seq<char>, p: nat): (q: nat)
    ensures q >= p
    decreases |s| - p
  {
    if At(s, p) != NUL && !IsSpace(At(s, p)) then SkipWord(s, p + 1) else p
  }

  function SkipSpace(s: seq<char>, p: nat): (q: nat)
    ensures q >= p
    decreases |s| - p
  {
    if IsSpace(At(s, p)) then SkipSpace(s, p + 1) else p
  }

  function SkipLetters(s: seq<char>, p: nat): (q: nat)
    ensures q >= p
    decreases |s| - p
  {
    if IsNameChar(At(s, p)) then SkipLetters(s, p + 1) else p
  }

  /** Behind a `name=` in front of a number, if there is one. */
  function SkipLabel(s: seq<char>, p: nat): (q: nat)
    ensures q >= p
  {
    var q := SkipLetters(s, p);
    if q != p && At(s, q) == '=' then q + 1 else p
  }

  /** Up to `k` numbers from `p` on, each cut to 32 bits. */
  function ReadArgs(s: seq<char>, p: nat, k: nat): (r: seq<uint32>)
    ensures |r| <= k
    decreases k
  {
    if k == 0 || At(s, p) == NUL then []
    else
      var q := SkipLabel(s, p);
      var (v, end) := ParseUnsigned(s, q, 0);
      if end == q then [] else [Wrap32(v)] + ReadArgs(s, SkipSpace(s, end), k - 1)
  }

  function ArgsOf(s: seq<char>): (r: seq<uint32>)
    ensures |r| <= 3
  {
    ReadArgs(s, SkipSpace(s, SkipWord(s, 0)), 3)
  }

  lemma ZeroUnread(s: seq<char>, p: nat)
    requires ParseUnsigned(s, p, 0).1 == p
    ensures Wrap32(ParseUnsigned(s, p, 0).0) == 0
  {
  }

  /** The blank-skipping loop, which the parser runs before each argument. */
  method PassSpace(s: seq<char>, start: nat) returns (p: nat)
    ensures p == SkipSpace(s, start)
  {
    p := start;
    while At(s, p) != NUL && IsSpace(At(s, p))
      invariant SkipSpace(s, start) == SkipSpace(s, p)
      decreases |s| - p
    {
      p := p + 1;
    }
  }

  method PassLabel(s: seq<char>, start: nat) returns (p: nat)
    ensures p == SkipLabel(s, start)
  {
    p := start;
    var q := p;
    while IsNameChar(At(s, q))
      invariant q >= p && SkipLetters(s, p) == SkipLetters(s, q)
      decreases |s| - q
    {
      q := q + 1;
    }
    if q != p && At(s, q) == '=' {
      p := q + 1;
    }
  }

  /** parse_args_uint32: the values land in the caller's three places, which start at zero. */
  method ParseArgs(s: seq<char>, args: array<uint32>) returns (count: nat)
    requires args.Length == 3
    modifies args
    ensures count == |ArgsOf(s)| && args[..count] == ArgsOf(s)
    ensures forall k :: count <= k < 3 ==> args[k] == old(args[k]) || args[k] == 0
  {
    hide ParseUnsigned, Wrap32, SkipSpace, SkipLabel;
    var p := 0;
    while At(s, p) != NUL && !IsSpace(At(s, p))
      invariant SkipWord(s, 0) == SkipWord(s, p)
      decreases |s| - p
    {
      p := p + 1;
    }
    p := PassSpace(s, p);
    count := 0;
    var i := 0;
    assert args[..0] + ReadArgs(s, p, 3) == ReadArgs(s, p, 3);
    while i < 3
      invariant count == i <= 3 && ArgsOf(s) == args[..count] + ReadArgs(s, p, 3 - i)
      invariant forall k :: count <= k < 3 ==> args[k] == old(args[k])
    {
      if At(s, p) == NUL {
        break;
      }
      p := PassLabel(s, p);
      var v, end := Strtoul(s, p, 0);
      ghost var done := args[..count];
      args[i] := Wrap32(v);
      assert args[..count] == done;
      if end == p {
        ZeroUnread(s, p);
        break;
      }
      count := count + 1;
      assert args[..count] == done + [Wrap32(v)];
      p := PassSpace(s, end);
      i := i + 1;
    }
    assert args[..count] + [] == args[..count];
  }

  // ---- What a typed line means

  /** What counts as a blank and as a letter of a name, written out on its own. */
  predicate IsBlank(c: char) {
    c == ' ' || 9 <= c as int <= 13
  }

  predicate AllBlank(s: seq<char>) {
    forall k :: 0 <= k < |s| ==> IsBlank(s[k])
  }

  predicate IsLetter(c: char) {
    'A' <= c <= 'Z' || 'a' <= c <= 'z' || c == '_'
  }

  /** Blanks, perhaps letters and an equals sign, and a number. */
  datatype Arg = Arg(gap: seq<char>, name: seq<char>, number: seq<char>, value: nat)

  ghost predicate IsArg(a: Arg) {
    && a.gap != [] && AllBlank(a.gap) && (forall k :: 0 <= k < |a.name| ==> IsLetter(a.name[k]))
    && Spells(a.number, a.value)
  }

  ghost predicate AreArgs(args: seq<Arg>) {
    forall k :: 0 <= k < |args| ==> IsArg(args[k])
  }

  function Label(a: Arg): seq<char> {
    if a.name == [] then [] else a.name + "="
  }

  function Line(args: seq<Arg>, tail: seq<char>): seq<char> {
    if args == [] then tail
    else args[0].gap + (Label(args[0]) + (args[0].number + Line(args[1..], tail)))
  }

  /** A word that no number begins: `m` letters at its start are followed by something else. */
  predicate NoNumber(j: seq<char>, m: nat) {
    && m <= |j| && (forall k :: 0 <= k < m ==> IsLetter(j[k])) && !IsLetter(At(j, m))
    && if m > 0 && At(j, m) == '=' then NoSign(At(j, m + 1)) else m == 0 ==> NoSign(At(j, 0))
  }

  predicate NoSign(c: char) {
    !('0' <= c <= '9') && c != '+' && c != ' ' && c != '\t'
  }

  /** What may follow the last argument: blanks, and perhaps a word that is no number and anything behind it. */
  ghost predicate Ends(tail: seq<char>, n: nat, m: nat) {
    && n <= |tail| && AllBlank(tail[..n]) && (n == 0 ==> tail == [])
    && (n < |tail| ==> !IsBlank(tail[n]) && NoNumber(tail[n..], m))
  }

  lemma {:induction false} WordSkipped(s: seq<char>, i: nat, n: nat)
    requires i + n <= |s| && (forall k :: i <= k < i + n ==> s[k] != NUL && !IsSpace(s[k]))
    requires At(s, i + n) == NUL || IsSpace(At(s, i + n))
    ensures SkipWord(s, i) == i + n
    decreases n
  {
    if n > 0 { WordSkipped(s, i + 1, n - 1); }
  }

  lemma {:induction false} BlanksSkipped(s: seq<char>, i: nat, n: nat)
    requires i + n <= |s| && (forall k :: i <= k < i + n ==> IsBlank(s[k])) && !IsBlank(At(s, i + n))
    ensures SkipSpace(s, i) == i + n
    decreases n
  {
    if n > 0 { BlanksSkipped(s, i + 1, n - 1); }
  }

  lemma SameBlanks(c: char)
    ensures IsSpace(c) <==> IsBlank(c)
    ensures IsNameChar(c) <==> IsLetter(c)
  {
  }

  lemma {:induction false} LettersPassed(s: seq<char>, p: nat, m: nat)
    requires p + m <= |s| && (forall k :: p <= k < p + m ==> IsLetter(s[k])) && !IsLetter(At(s, p + m))
    ensures SkipLetters(s, p) == p + m
    decreases m
  {
    if m > 0 { LettersPassed(s, p + 1, m - 1); }
  }

  /** Nothing is read from a word that is no number. */
  lemma NothingFrom(s: seq<char>, p: nat, m: nat, k: nat)
    requires p <= |s| && NoNumber(s[p..], m)
    ensures ReadArgs(s, p, k) == []
  {
    hide SkipLetters, Accumulate, IsLetter, Wrap32;
    var j := s[p..];
    assert forall k :: p <= k < p + m ==> s[k] == j[k - p];
    assert At(s, p + m) == At(j, m) && At(s, p + m + 1) == At(j, m + 1) && At(s, p) == At(j, 0);
    LettersPassed(s, p, m);
    var q := SkipLabel(s, p);
    if m > 0 && At(j, m) == '=' {
      assert q == p + m + 1;
    } else {
      assert q == p;
      if m > 0 { LetterNoSign(j[0]); }
    }
    assert NoSign(At(s, q));
    NoDigit(s, q);
  }

  lemma LetterNoSign(c: char)
    requires IsLetter(c)
    ensures NoSign(c)
  {
  }

  /** The values of the first `k` arguments, modulo 2^32. */
  function Values(args: seq<Arg>, k: nat): (r: seq<uint32>)
    ensures |r| == (if |args| < k then |args| else k)
    ensures forall n :: 0 <= n < |r| ==> r[n] == args[n].value % 0x1_0000_0000
    decreases k
  {
    if k == 0 || args == [] then [] else [args[0].value % 0x1_0000_0000] + Values(args[1..], k - 1)
  }

  lemma CutTwice(v: nat)
    ensures Wrap32(v % 0x1_0000_0000_0000_0000) == v % 0x1_0000_0000
  {
    var q, r := v / 0x1_0000_0000_0000_0000, v % 0x1_0000_0000_0000_0000;
    SameResidue(r, 0x1_0000_0000 * q);
    assert v == r + 0x1_0000_0000 * (0x1_0000_0000 * q);
  }

  lemma SameResidue(r: int, k: int)
    ensures (r + 0x1_0000_0000 * k) % 0x1_0000_0000 == r % 0x1_0000_0000
  {
  }

  /** Behind an argument there is a blank or the end. */
  lemma Follows(args: seq<Arg>, tail: seq<char>, n: nat, m: nat)
    requires AreArgs(args) && Ends(tail, n, m)
    ensures var c := At(Line(args, tail), 0); IsBlank(c) || c == NUL
  {
    hide Spells, NoNumber;
    if args != [] {
      assert IsArg(args[0]);
      assert Line(args, tail)[0] == args[0].gap[0];
    } else if tail != [] {
      assert tail[0] == tail[..n][0];
    }
  }

  lemma BlankIsNoWord(c: char)
    requires IsBlank(c) || c == NUL
    ensures !IsWordChar(c)
  {
  }

  /** Where the parts of an argument stand. */
  lemma ArgParts(s: seq<char>, i: nat, a: Arg, rest: seq<char>)
    requires i <= |s| && s[i..] == a.gap + (Label(a) + (a.number + rest))
    ensures
      var p := i + |a.gap|;
      var q := p + |Label(a)|;
      var end := q + |a.number|;
      && end <= |s| && s[i..p] == a.gap && s[p..q] == Label(a) && s[q..end] == a.number && s[end..] == rest
  {
    hide Label;
    var p := i + |a.gap|;
    Cut(s, i, a.gap, Label(a) + (a.number + rest));
    Cut(s, p, Label(a), a.number + rest);
    Cut(s, p + |Label(a)|, a.number, rest);
  }

  /** Where one argument begins, where its number does, and what is left. */
  lemma OneArg(s: seq<char>, i: nat, args: seq<Arg>, tail: seq<char>, n: nat, m: nat)
      returns (p: nat, q: nat, end: nat)
    requires i <= |s| && s[i..] == Line(args, tail) && args != [] && AreArgs(args) && Ends(tail, n, m)
    ensures p == SkipSpace(s, i) && At(s, p) != NUL && q == SkipLabel(s, p) && q < end <= |s|
    ensures Stands(s, q, args[0].number, args[0].value) && end == q + |args[0].number|
    ensures s[end..] == Line(args[1..], tail)
  {
    hide Spells, IsLetter, SkipSpace, SkipLetters, SkipLabel, IsBlank, IsWordChar, Ends, NoNumber, Label;
    var a, rest := args[0], Line(args[1..], tail);
    assert IsArg(a);
    ArgParts(s, i, a, rest);
    hide Line;
    p, q := i + |a.gap|, i + |a.gap| + |Label(a)|;
    end := q + |a.number|;
    SpelledStart(a.number, a.value);
    PrefixOf(s, q, a.number, 0);
    SliceAt(s, i, a.gap);
    LabelStart(s, p, a);
    BlanksSkipped(s, i, |a.gap|);
    Follows(args[1..], tail, n, m);
    StartsWith(s, end, rest);
    BlankIsNoWord(At(s, end));
    LabelPassed(s, p, a);
  }

  lemma LabelStart(s: seq<char>, p: nat, a: Arg)
    requires (forall k :: 0 <= k < |a.name| ==> IsLetter(a.name[k])) && p + |Label(a)| < |s|
    requires s[p..p + |Label(a)|] == Label(a) && '0' <= s[p + |Label(a)|] <= '9'
    ensures At(s, p) != NUL && !IsBlank(At(s, p))
  {
    if a.name != [] { PrefixOf(s, p, Label(a), 0); }
  }

  lemma LabelPassed(s: seq<char>, p: nat, a: Arg)
    requires (forall k :: 0 <= k < |a.name| ==> IsLetter(a.name[k])) && p + |Label(a)| < |s|
    requires s[p..p + |Label(a)|] == Label(a) && '0' <= s[p + |Label(a)|] <= '9'
    ensures SkipLabel(s, p) == p + |Label(a)|
  {
    SliceAt(s, p, Label(a));
    LettersPassed(s, p, |a.name|);
  }

  lemma {:induction false} ArgsRead(s: seq<char>, i: nat, args: seq<Arg>, tail: seq<char>, n: nat, m: nat, k: nat)
    requires i <= |s| && s[i..] == Line(args, tail) && AreArgs(args) && Ends(tail, n, m)
    ensures ReadArgs(s, SkipSpace(s, i), k) == Values(args, k)
    decreases k
  {
    hide ParseUnsigned, SkipSpace, SkipLabel, IsArg, Spells, NoNumber, IsBlank, IsWordChar, Stands, Wrap32, Line;
    if args == [] {
      TailRead(s, i, tail, n, m, k);
    } else if k > 0 {
      var p, q, end := OneArg(s, i, args, tail, n, m);
      NumberRead(s, q, args[0].number, args[0].value);
      CutTwice(args[0].value);
      ArgsRead(s, end, args[1..], tail, n, m, k - 1);
    }
  }

  lemma TailRead(s: seq<char>, i: nat, tail: seq<char>, n: nat, m: nat, k: nat)
    requires i <= |s| && s[i..] == Line([], tail) && Ends(tail, n, m)
    ensures ReadArgs(s, SkipSpace(s, i), k) == []
  {
    hide SkipSpace, NoNumber, ReadArgs, IsBlank;
    assert s[i..i + n] == tail[..n];
    SliceAt(s, i, tail[..n]);
    assert n < |tail| ==> At(s, i + n) == tail[n];
    assert !IsBlank(NUL) by { BlankIsNoWord(NUL); NulNoBlank(); }
    BlanksSkipped(s, i, n);
    if n < |tail| {
      assert s[i + n..] == tail[n..];
      NothingFrom(s, i + n, m, k);
    } else {
      ReadNone(s, i + n, k);
    }
  }

  lemma NulNoBlank()
    ensures !IsBlank(NUL)
  {
  }

  lemma ReadNone(s: seq<char>, p: nat, k: nat)
    requires p >= |s|
    ensures ReadArgs(s, p, k) == []
  {
    hide ParseUnsigned;
  }

  /**
   * Behind any word, whatever blanks, labels and notations are used: the first three
   * numbers, each modulo 2^32, as far as a word comes that is none.
   */
  lemma ArgsOfLine(word: seq<char>, args: seq<Arg>, tail: seq<char>, n: nat, m: nat)
    requires (forall k :: 0 <= k < |word| ==> word[k] != NUL && !IsBlank(word[k]))
    requires AreArgs(args) && Ends(tail, n, m)
    ensures ArgsOf(word + Line(args, tail)) == Values(args, 3)
  {
    hide ReadArgs, SkipSpace, Line, IsBlank, Ends, AreArgs;
    var s := word + Line(args, tail);
    assert s[|word|..] == Line(args, tail);
    StartsWith(s, |word|, Line(args, tail));
    Follows(args, tail, n, m);
    forall c: char ensures IsSpace(c) <==> IsBlank(c) { SameBlanks(c); }
    assert forall k :: 0 <= k < |word| ==> s[k] == word[k];
    WordSkipped(s, 0, |word|);
    ArgsRead(s, |word|, args, tail, n, m, 3);
  }
}
