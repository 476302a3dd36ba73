/**
 * The command line, key by key and line by line, in characters and numbers written
 * out: what every key does to the line on screen and to the lines remembered, what an
 * entered line calls, and which numbers it passes on.  Runs are joined from shorter
 * runs, so that these laws settle every run of keys.
 */
module LineLaws {
  import opened Bytes
  import opened Numerals
  import opened CStrings
  import opened Commands
  import opened LineEditor

  // ---- Lines and tables

  /** From the blank to the tilde, 31 of them at most. */
  predicate Graphic(s: seq<char>) {
    |s| <= 31 && forall k :: 0 <= k < |s| ==> ' ' <= s[k] <= '~'
  }

  predicate Usable(names: seq<seq<char>>) {
    forall i :: 0 <= i < |names| ==> Graphic(names[i]) && names[i] != ""
  }

  /** An editor that expects a key: no escape sequence has begun, eight lines at most are remembered. */
  predicate Ready(e: Editor) {
    && Graphic(e.text) && e.esc == 0 && |e.past| <= 8 && -1 <= e.age < |e.past|
    && forall i :: 0 <= i < |e.past| ==> Graphic(e.past[i]) && e.past[i] != ""
  }

  lemma ReadyIsSound(names: seq<seq<char>>, e: Editor)
    ensures Usable(names) <==> IsTable(names)
    ensures Ready(e) <==> Sound(e) && e.esc == 0
  {
    hide IsLine;
    GraphicIsLine(e.text);
    forall i | 0 <= i < |names| ensures Graphic(names[i]) && names[i] != "" <==> IsName(names[i]) && IsLine(names[i]) {
      GraphicIsLine(names[i]);
    }
    forall i | 0 <= i < |e.past| ensures Graphic(e.past[i]) <==> IsLine(e.past[i]) {
      GraphicIsLine(e.past[i]);
    }
  }

  lemma GraphicIsLine(s: seq<char>)
    ensures Graphic(s) <==> IsLine(s)
    ensures Graphic(s) ==> NUL !in s
  {
  }

  /** The only name that starts with `part`. */
  ghost predicate OnlyOne(names: seq<seq<char>>, part: seq<char>, i: nat) {
    i < |names| && part <= names[i] && forall j :: 0 <= j < |names| && part <= names[j] ==> j == i
  }

  // ---- Single keys

  lemma OneKey(names: seq<seq<char>>, e: Editor, c: char)
    requires IsTable(names) && Sound(e)
    ensures After(names, e, [c]) == Press(names, e, c)
  {
    hide Press;
    AfterNone(names, e);
    AfterSnoc(names, e, [], c);
    assert [] + [c] == [c];
  }

  /** Characters go to the end of the line, up to 31 of them; backspace and delete take the last one away. */
  lemma CharacterKeys(names: seq<seq<char>>, e: Editor, c: char)
    requires IsTable(names) && Sound(e) && Ready(e)
    ensures ' ' <= c <= '~' ==> After(names, e, [c]) == if |e.text| < 31 then e.(text := e.text + [c]) else e
    ensures c as int == 8 || c as int == 127 ==>
      After(names, e, [c]) == if e.text == "" then e else e.(text := e.text[..|e.text| - 1])
  {
    hide After, Sound, IsTable;
    OneKey(names, e, c);
  }

  /** Enter takes the line to the remembered ones, in front of at most seven others. */
  lemma EnterKeys(names: seq<seq<char>>, e: Editor, c: char)
    requires IsTable(names) && Sound(e) && Ready(e) && (c as int == 13 || c as int == 10)
    ensures After(names, e, [c])
         == if e.text == "" then e else Editor("", [e.text] + e.past[..if |e.past| < 8 then |e.past| else 7], -1, 0)
  {
    hide After, Sound, IsTable;
    OneKey(names, e, c);
    var n := if |e.past| < 8 then |e.past| else 7;
    assert ([e.text] + e.past)[..n + 1] == [e.text] + e.past[..n];
  }

  /** Tab completes a line that only one name starts with, and does nothing to any other. */
  lemma TabKey(names: seq<seq<char>>, e: Editor, i: nat)
    requires IsTable(names) && Sound(e) && Ready(e)
    ensures OnlyOne(names, e.text, i) ==> After(names, e, ['\t']) == e.(text := names[i])
    ensures (forall j: nat :: !OnlyOne(names, e.text, j)) ==> After(names, e, ['\t']) == e
  {
    hide After, Sound, IsTable;
    OneKey(names, e, '\t');
    assert forall j: nat :: OnlyOne(names, e.text, j) <==> OnlyPrefixed(names, e.text, j);
    if OnlyOne(names, e.text, i) { CompletionIs(names, e.text, i); }
  }

  /** Ctrl-L clears the line; every other control character and every byte beyond the tilde does nothing. */
  lemma OtherKeys(names: seq<seq<char>>, e: Editor, c: char)
    requires IsTable(names) && Sound(e) && Ready(e)
    ensures c as int == 12 ==> After(names, e, [c]) == e.(text := "")
    ensures (c < ' ' || c as int > 127) && c as int !in {8, 9, 10, 12, 13, 27} ==> After(names, e, [c]) == e
  {
    hide After, Sound, IsTable;
    OneKey(names, e, c);
  }

  // ---- Escape sequences

  lemma TwoKeys(names: seq<seq<char>>, e: Editor, a: char, b: char)
    requires IsTable(names) && Sound(e) && Sound(Press(names, e, a))
    ensures After(names, e, [a, b]) == Press(names, Press(names, e, a), b)
  {
    hide Press, Sound;
    OneKey(names, e, a);
    AfterSnoc(names, e, [a], b);
    assert [a] + [b] == [a, b];
  }

  /** Escape swallows the next byte, or the next two when the first is a bracket. */
  lemma EscapeKeys(names: seq<seq<char>>, e: Editor, c: char)
    requires IsTable(names) && Sound(e) && Ready(e)
    ensures c != '[' ==> After(names, e, [0x1B as char, c]) == e
    ensures c != 'A' && c != 'B' ==> After(names, e, [0x1B as char, '[', c]) == e
  {
    hide After, Sound, IsTable;
    var e1 := e.(esc := 1);
    PressSound(names, e, 0x1B as char);
    TwoKeys(names, e, 0x1B as char, c);
    TwoKeys(names, e, 0x1B as char, '[');
    AfterSnoc(names, e, [0x1B as char, '['], c);
    assert [0x1B as char, '['] + [c] == [0x1B as char, '[', c];
  }

  /** The arrow up shows the line before the one shown, or the newest, and stops at the oldest. */
  lemma {:induction false} ArrowUp(names: seq<seq<char>>, e: Editor)
    requires IsTable(names) && Sound(e) && Ready(e)
    ensures
      var r := After(names, e, [0x1B as char, '[', 'A']);
      if e.past == [] then r == e
      else if e.age + 1 < |e.past| then r == e.(text := e.past[e.age + 1], age := e.age + 1)
      else r == e.(text := e.past[e.age])
  {
    hide After;
    ArrowKeys(names, e);
  }

  /** The arrow down shows the line behind it, and an empty line behind the newest. */
  lemma ArrowDown(names: seq<seq<char>>, e: Editor)
    requires IsTable(names) && Sound(e) && Ready(e)
    ensures
      var r := After(names, e, [0x1B as char, '[', 'B']);
      if e.age == -1 then r == e
      else if e.age == 0 then r == e.(text := "", age := -1)
      else r == e.(text := e.past[e.age - 1], age := e.age - 1)
  {
    hide After, Graphic, Sound, IsTable;
    ArrowKeys(names, e);
  }

  // ---- Runs

  /** A run is its first part and then the rest. */
  lemma {:induction false} RunJoin(names: seq<seq<char>>, e: Editor, a: seq<char>, b: seq<char>)
    requires IsTable(names) && Sound(e)
    ensures After(names, e, a + b) == After(names, After(names, e, a), b)
    decreases |a|
  {
    hide Press, IsTable;
    if a == [] {
      assert [] + b == b;
      AfterNone(names, e);
    } else {
      PressSound(names, e, a[0]);
      assert (a + b)[0] == a[0] && (a + b)[1..] == a[1..] + b;
      RunJoin(names, Press(names, e, a[0]), a[1..], b);
    }
  }

  /** The calls of a run are those of its first part and then those of the rest. */
  lemma {:induction false} CallsJoin(names: seq<seq<char>>, e: Editor, a: seq<char>, b: seq<char>,
                                     os: seq<Outcome>, more: seq<Outcome>)
    requires IsTable(names) && Sound(e) && Calls(names, e, a, os) && Calls(names, After(names, e, a), b, more)
    ensures Calls(names, e, a + b, os + more)
    decreases |b|
  {
    hide After, Sound, IsTable, Runs;
    var mid := After(names, e, a);
    if b == [] {
      assert a + b == a && os + more == os;
    } else {
      var n := |b| - 1;
      var now := After(names, mid, b[..n]);
      RunJoin(names, e, a, b[..n]);
      assert (a + b[..n]) + [b[n]] == a + b;
      if Enters(now, b[n]) {
        var last := more[|more| - 1];
        CallsJoin(names, e, a, b[..n], os, more[..|more| - 1]);
        CallsSnoc(names, e, a + b[..n], b[n], os + more[..|more| - 1], last);
        assert os + more[..|more| - 1] + [last] == os + more;
      } else {
        CallsJoin(names, e, a, b[..n], os, more);
        CallsSnoc(names, e, a + b[..n], b[n], os + more, Blank);
      }
    }
  }

  function Chosen(o: Outcome): Resolution {
    match o
    case Unclear => Ambiguous
    case Invoke(i, _) => Found(i)
    case _ => Unknown
  }

  lemma RunsOnce(names: seq<seq<char>>, line: seq<char>, o: Outcome, p: Outcome)
    requires Runs(names, line, o) && Runs(names, line, p)
    ensures o == p
  {
    hide Resolves;
    if line != "" { ResolvesOnce(names, FirstWord(line), Chosen(o), Chosen(p)); }
  }

  /** The keys settle the calls. */
  lemma {:induction false} CallsOnce(names: seq<seq<char>>, e: Editor, keys: seq<char>,
                                     os: seq<Outcome>, ps: seq<Outcome>)
    requires IsTable(names) && Sound(e) && Calls(names, e, keys, os) && Calls(names, e, keys, ps)
    ensures os == ps
    decreases |keys|
  {
    hide After, Sound, IsTable, Runs;
    if keys != [] {
      var n := |keys| - 1;
      var now := After(names, e, keys[..n]);
      if Enters(now, keys[n]) {
        CallsOnce(names, e, keys[..n], os[..|os| - 1], ps[..|ps| - 1]);
        RunsOnce(names, now.text, os[|os| - 1], ps[|ps| - 1]);
        assert os == os[..|os| - 1] + [os[|os| - 1]] && ps == ps[..|ps| - 1] + [ps[|ps| - 1]];
      } else {
        CallsOnce(names, e, keys[..n], os, ps);
      }
    }
  }

  /** A single key calls something when it is Enter. */
  lemma OneCall(names: seq<seq<char>>, e: Editor, c: char, o: Outcome)
    requires IsTable(names) && Sound(e) && Ready(e)
    ensures c as int != 13 && c as int != 10 ==> Calls(names, e, [c], [])
    ensures (c as int == 13 || c as int == 10) && Runs(names, e.text, o) ==> Calls(names, e, [c], [o])
  {
    hide After, Sound, IsTable, Runs, Calls;
    AfterNone(names, e);
    assert [] + [c] == [c] && [] + [o] == [o];
    if (c as int == 13 || c as int == 10) ==> Runs(names, e.text, o) { CallsSnoc(names, e, [], c, [], o); }
  }

  /** Typing calls nothing. */
  lemma {:induction false} TypingCallsNothing(names: seq<seq<char>>, e: Editor, s: seq<char>)
    requires IsTable(names) && Sound(e) && Ready(e) && Graphic(s) && |e.text| + |s| <= 31
    ensures Calls(names, e, s, []) && After(names, e, s) == e.(text := e.text + s)
    decreases |s|
  {
    hide After, Sound, IsTable, Runs, Calls;
    if s == [] {
      AfterNone(names, e);
      assert e.text + s == e.text;
    } else {
      var n := |s| - 1;
      TypingCallsNothing(names, e, s[..n]);
      var now := e.(text := e.text + s[..n]);
      AfterSnoc(names, e, s[..n], s[n]);
      assert s[..n] + [s[n]] == s && now.text + [s[n]] == e.text + s;
      CallsSnoc(names, e, s[..n], s[n], [], Blank);
      OneKey(names, now, s[n]);
      CharacterKeys(names, now, s[n]);
    }
  }

  // ---- What a line calls

  /** The first word of a line: nothing but blanks and what follows them may stand behind it. */
  predicate Splits(line: seq<char>, w: seq<char>) {
    |w| <= |line| && line[..|w|] == w && ' ' !in w && (|w| < |line| ==> line[|w|] == ' ')
  }

  /** The command a word selects: the first of that very name, or else the only one it starts. */
  ghost predicate Selects(names: seq<seq<char>>, w: seq<char>, i: nat) {
    i < |names| && ((w == names[i] && w !in names[..i]) || (w !in names && OnlyOne(names, w, i)))
  }

  /** Two names start with the word, which is none of them. */
  predicate TwoStart(names: seq<seq<char>>, w: seq<char>, i: nat, j: nat) {
    w !in names && i < j < |names| && w <= names[i] && w <= names[j]
  }

  lemma LineOutcome(names: seq<seq<char>>, line: seq<char>, w: seq<char>, i: nat, j: nat)
    requires Splits(line, w)
    ensures line == "" ==> Runs(names, line, Blank)
    ensures line != "" && (forall k :: 0 <= k < |names| ==> !(w <= names[k])) ==> Runs(names, line, NotFound)
    ensures line != "" && TwoStart(names, w, i, j) ==> Runs(names, line, Unclear)
    ensures line != "" && Selects(names, w, i) ==> Runs(names, line, Invoke(i, ArgsOf(line)))
  {
    hide ArgsOf, FirstWord;
    WordIs(line, |w|);
  }

  /** A line typed from an empty one and entered. */
  lemma LineEntered(names: seq<seq<char>>, e: Editor, line: seq<char>, c: char, o: Outcome, os: seq<Outcome>)
    requires IsTable(names) && Sound(e) && Ready(e) && e.text == "" && Graphic(line)
    requires (c as int == 13 || c as int == 10) && Runs(names, line, o)
    ensures Calls(names, e, line + [c], os) <==> os == [o]
  {
    hide After, Sound, IsTable, Runs, Calls;
    TypingCallsNothing(names, e, line);
    assert e.text + line == line;
    OneCall(names, e.(text := line), c, o);
    CallsJoin(names, e, line, [c], [], [o]);
    assert [] + [o] == [o];
    if Calls(names, e, line + [c], os) { CallsOnce(names, e, line + [c], os, [o]); }
  }

  /** What calls nothing: an empty line, a word no command starts with, and one that two start with. */
  lemma NothingCalled(names: seq<seq<char>>, e: Editor, line: seq<char>, w: seq<char>, i: nat, j: nat, c: char,
                      os: seq<Outcome>)
    requires IsTable(names) && Sound(e) && Ready(e) && e.text == "" && Graphic(line) && Splits(line, w)
    requires c as int == 13 || c as int == 10
    ensures line == "" ==> (Calls(names, e, line + [c], os) <==> os == [Blank])
    ensures line != "" && (forall k :: 0 <= k < |names| ==> !(w <= names[k])) ==>
      (Calls(names, e, line + [c], os) <==> os == [NotFound])
    ensures line != "" && TwoStart(names, w, i, j) ==>
      (Calls(names, e, line + [c], os) <==> os == [Unclear])
  {
    hide After, Sound, IsTable, Runs, Calls, Splits, Ready;
    LineOutcome(names, line, w, i, j);
    if line == "" {
      LineEntered(names, e, line, c, Blank, os);
    } else if forall k :: 0 <= k < |names| ==> !(w <= names[k]) {
      LineEntered(names, e, line, c, NotFound, os);
    } else if TwoStart(names, w, i, j) {
      LineEntered(names, e, line, c, Unclear, os);
    }
  }

  /** A selected command is called with the first three numbers behind it. */
  lemma CommandCalled(names: seq<seq<char>>, e: Editor, w: seq<char>, i: nat, args: seq<Arg>, tail: seq<char>,
                      n: nat, m: nat, c: char, os: seq<Outcome>)
    requires IsTable(names) && Sound(e) && Ready(e) && e.text == "" && (c as int == 13 || c as int == 10)
    requires w != "" && Selects(names, w, i) && AreArgs(args) && Ends(tail, n, m)
    requires var line := w + Line(args, tail); Graphic(line) && Splits(line, w)
    ensures Calls(names, e, w + Line(args, tail) + [c], os) <==> os == [Invoke(i, Values(args, 3))]
  {
    hide After, Sound, IsTable, Runs, Calls, Ready, Line, ArgsOf, Ends, AreArgs, IsBlank;
    var line := w + Line(args, tail);
    LineOutcome(names, line, w, i, 0);
    assert forall k :: 0 <= k < |w| ==> w[k] == line[k] && w[k] in w;
    forall k | 0 <= k < |w| ensures w[k] != NUL && !IsBlank(w[k]) { GraphicNoBlank(w[k]); }
    ArgsOfLine(w, args, tail, n, m);
    LineEntered(names, e, line, c, Invoke(i, Values(args, 3)), os);
  }

  lemma GraphicNoBlank(c: char)
    requires ' ' < c <= '~'
    ensures c != NUL && !IsBlank(c)
  {
  }

  /**
   * The start of a single name, Tab, numbers and Enter: the name is completed and its
   * command is called with them.
   */
  lemma CompletedAndCalled(names: seq<seq<char>>, e: Editor, part: seq<char>, i: nat, args: seq<Arg>, tail: seq<char>,
                           n: nat, m: nat, c: char, os: seq<Outcome>)
    requires IsTable(names) && Sound(e) && Ready(e) && e.text == "" && (c as int == 13 || c as int == 10)
    requires OnlyOne(names, part, i) && ' ' !in names[i] && AreArgs(args) && Ends(tail, n, m)
    requires var line := names[i] + Line(args, tail); Graphic(line) && Splits(line, names[i])
    ensures After(names, e, part + ['\t']).text == names[i]
    ensures Calls(names, e, part + ['\t'] + Line(args, tail) + [c], os) <==> os == [Invoke(i, Values(args, 3))]
  {
    hide After, Sound, IsTable, Runs, Calls, Line, Ends, AreArgs, Splits;
    var name, rest := names[i], Line(args, tail);
    var line := name + rest;
    assert Graphic(part) && Graphic(name) && Graphic(rest) by { GraphicParts(part, name, rest); }
    TypingCallsNothing(names, e, part);
    assert e.text + part == part;
    var e1, e2, e3 := e.(text := part), e.(text := name), e.(text := line);
    TabKey(names, e1, i);
    OneCall(names, e1, '\t', Blank);
    var none: seq<Outcome> := [];
    assert none + none == none;
    CallsJoin(names, e, part, ['\t'], [], []);
    RunJoin(names, e, part, ['\t']);
    TypingCallsNothing(names, e2, rest);
    CallsJoin(names, e, part + ['\t'], rest, [], []);
    RunJoin(names, e, part + ['\t'], rest);
    var o := Invoke(i, Values(args, 3));
    NameSelects(names, part, i);
    TypedOutcome(names, i, args, tail, n, m);
    OneCall(names, e3, c, o);
    assert none + [o] == [o];
    CallsJoin(names, e, part + ['\t'] + rest, [c], [], [o]);
    var keys := part + ['\t'] + rest + [c];
    if Calls(names, e, keys, os) { CallsOnce(names, e, keys, os, [o]); }
  }

  lemma GraphicParts(part: seq<char>, name: seq<char>, rest: seq<char>)
    requires part <= name && Graphic(name + rest)
    ensures Graphic(part) && Graphic(name) && Graphic(rest)
  {
    var line := name + rest;
    assert forall k :: 0 <= k < |name| ==> name[k] == line[k];
    assert forall k :: 0 <= k < |rest| ==> rest[k] == line[|name| + k];
    assert forall k :: 0 <= k < |part| ==> part[k] == line[k];
  }

  lemma NameSelects(names: seq<seq<char>>, part: seq<char>, i: nat)
    requires OnlyOne(names, part, i)
    ensures Selects(names, names[i], i)
  {
  }

  lemma TypedOutcome(names: seq<seq<char>>, i: nat, args: seq<Arg>, tail: seq<char>, n: nat, m: nat)
    requires IsTable(names) && i < |names| && Selects(names, names[i], i) && AreArgs(args) && Ends(tail, n, m)
    requires var line := names[i] + Line(args, tail); Graphic(line) && Splits(line, names[i])
    ensures Runs(names, names[i] + Line(args, tail), Invoke(i, Values(args, 3)))
  {
    hide Line, ArgsOf, Ends, AreArgs, IsBlank, Runs;
    var w := names[i];
    var line := w + Line(args, tail);
    LineOutcome(names, line, w, i, 0);
    assert forall k :: 0 <= k < |w| ==> w[k] == line[k] && w[k] in w;
    forall k | 0 <= k < |w| ensures w[k] != NUL && !IsBlank(w[k]) { GraphicNoBlank(w[k]); }
    ArgsOfLine(w, args, tail, n, m);
  }

  // ---- The commands of the program

  /** Every command by its own name, and by its start where no other command has the same one. */
  lemma ProgramCommands()
    ensures |COMMANDS| == 9 && Selects(COMMANDS, "help", 0) && Selects(COMMANDS, "pmic", 1)
    ensures Selects(COMMANDS, "ddr", 2) && Selects(COMMANDS, "sd", 3) && Selects(COMMANDS, "sdw", 4)
    ensures Selects(COMMANDS, "usb", 5) && Selects(COMMANDS, "load_sd", 6) && Selects(COMMANDS, "jump", 7)
    ensures Selects(COMMANDS, "boot", 8)
  {
    assert COMMANDS[0] == "help" && COMMANDS[1] == "pmic" && COMMANDS[2] == "ddr" && COMMANDS[3] == "sd";
    assert COMMANDS[4] == "sdw" && COMMANDS[5] == "usb" && COMMANDS[6] == "load_sd" && COMMANDS[7] == "jump";
  }

  lemma FirstLetters()
    ensures |COMMANDS| == 9 && forall k :: 0 <= k < 9 ==> COMMANDS[k] != ""
    ensures COMMANDS[0][0] == 'h' && COMMANDS[1][0] == 'p' && COMMANDS[2][0] == 'd' && COMMANDS[3][0] == 's'
    ensures COMMANDS[4][0] == 's' && COMMANDS[5][0] == 'u' && COMMANDS[6][0] == 'l' && COMMANDS[7][0] == 'j'
    ensures COMMANDS[8][0] == 'b'
  {
  }

  lemma OneLetter(part: seq<char>, i: nat)
    requires |COMMANDS| == 9 && i < 9 && (forall k :: 0 <= k < 9 ==> COMMANDS[k] != "") && part == [COMMANDS[i][0]]
    requires forall k :: 0 <= k < 9 && k != i ==> COMMANDS[k][0] != part[0]
    ensures OnlyOne(COMMANDS, part, i)
  {
    hide COMMANDS;
    assert forall k :: 0 <= k < 9 && part <= COMMANDS[k] ==> COMMANDS[k][0] == part[0];
  }

  /** The first letter is enough for all but sd and sdw. */
  lemma ProgramStarts()
    ensures OnlyOne(COMMANDS, "h", 0) && OnlyOne(COMMANDS, "p", 1) && OnlyOne(COMMANDS, "d", 2)
    ensures OnlyOne(COMMANDS, "u", 5) && OnlyOne(COMMANDS, "l", 6) && OnlyOne(COMMANDS, "j", 7)
    ensures OnlyOne(COMMANDS, "b", 8) && TwoStart(COMMANDS, "s", 3, 4)
  {
    hide COMMANDS, OnlyOne, TwoStart;
    FirstLetters();
    OneLetter("h", 0);
    OneLetter("p", 1);
    OneLetter("d", 2);
    OneLetter("u", 5);
    OneLetter("l", 6);
    OneLetter("j", 7);
    OneLetter("b", 8);
    OnlyS();
  }

  lemma OnlyS()
    ensures TwoStart(COMMANDS, "s", 3, 4)
  {
    assert "s" <= COMMANDS[3] && "s" <= COMMANDS[4];
  }

  /** p, m, Tab and Enter. */
  lemma PmicCompleted(e: Editor, os: seq<Outcome>)
    requires IsTable(COMMANDS) && Sound(e) && Ready(e) && e.text == ""
    ensures After(COMMANDS, e, "pm\t").text == "pmic"
    ensures Calls(COMMANDS, e, "pm\t\r", os) <==> os == [Invoke(1, [])]
  {
    hide After, Calls, Sound, IsTable, Ready;
    ProgramStarts();
    var part, name, none: seq<Arg> := "pm", "pmic", [];
    assert COMMANDS[1] == name && part <= name && "p" <= part;
    assert OnlyOne(COMMANDS, part, 1) by { hide COMMANDS; LongerStart(COMMANDS, "p", part, 1); }
    assert part + ['\t'] == "pm\t" && name + Line(none, "") == name;
    assert part + ['\t'] + Line(none, "") + ['\r'] == "pm\t\r";
    assert Graphic(name) && Splits(name, name);
    CompletedAndCalled(COMMANDS, e, part, 1, none, "", 0, 0, '\r', os);
    assert Values(none, 3) == [];
  }

  lemma LongerStart(names: seq<seq<char>>, part: seq<char>, longer: seq<char>, i: nat)
    requires OnlyOne(names, part, i) && part <= longer <= names[i]
    ensures OnlyOne(names, longer, i)
  {
  }
}
