/**
 * The command line as a plain string editor: a text, the lines remembered with
 * the newest first, the recall cursor as an age, and how far into an escape
 * sequence the input is.  What it does over whole runs of keys is proved here;
 * CommandLine shows that the buffers and the ring of the program behave like it.
 */
module LineEditor {
  import opened Bytes
  import opened Commands

  const CMD_MAX_LEN := 32
  const HISTORY_SIZE := 8

  const ESC := 0x1B as char
  const BACKSPACE := 8 as char
  const DELETE := 0x7F as char
  const CTRL_L := 0x0C as char

  /** `age` counts back from the newest remembered line; -1 means none is selected. */
  datatype Editor = Editor(text: seq<char>, past: seq<seq<char>>, age: int, esc: nat)

  predicate IsPrintable(c: char) {
    0x20 as char <= c <= 0x7E as char
  }

  predicate IsLine(s: seq<char>) {
    |s| < CMD_MAX_LEN && forall k :: 0 <= k < |s| ==> IsPrintable(s[k])
  }

  /** A command table whose names fit the line buffer. */
  predicate IsTable(names: seq<seq<char>>) {
    forall i :: 0 <= i < |names| ==> IsName(names[i]) && IsLine(names[i])
  }

  function Remember(line: seq<char>, past: seq<seq<char>>): seq<seq<char>> {
    ([line] + past)[..Min(|past| + 1, HISTORY_SIZE)]
  }

  function Up(e: Editor): Editor
    requires -1 <= e.age < |e.past|
  {
    if e.past == [] then e
    else
      var a := Min(e.age + 1, |e.past| - 1);
      e.(text := e.past[a], age := a)
  }

  function Down(e: Editor): Editor
    requires -1 <= e.age < |e.past|
  {
    if e.age < 0 then e
    else if e.age == 0 then e.(text := "", age := -1)
    else e.(text := e.past[e.age - 1], age := e.age - 1)
  }

  /** A line that is entered is remembered; an empty one leaves the history and its cursor alone. */
  function Enter(e: Editor): Editor {
    if e.text == "" then e else e.(text := "", past := Remember(e.text, e.past), age := -1)
  }

  ghost function Press(names: seq<seq<char>>, e: Editor, c: char): Editor
    requires -1 <= e.age < |e.past|
  {
    if e.esc == 1 then e.(esc := if c == '[' then 2 else 0)
    else if e.esc == 2 then (if c == 'A' then Up(e) else if c == 'B' then Down(e) else e).(esc := 0)
    else if c == ESC then e.(esc := 1)
    else if c == '\r' || c == '\n' then Enter(e)
    else if c == BACKSPACE || c == DELETE then e.(text := if e.text == "" then "" else e.text[..|e.text| - 1])
    else if IsPrintable(c) then e.(text := if |e.text| < CMD_MAX_LEN - 1 then e.text + [c] else e.text)
    else if c == '\t' then e.(text := Completion(names, e.text))
    else if c == CTRL_L then e.(text := "")
    else e
  }

  predicate Sound(e: Editor) {
    IsLine(e.text) && |e.past| <= HISTORY_SIZE && -1 <= e.age < |e.past| && e.esc <= 2 &&
    forall i :: 0 <= i < |e.past| ==> IsLine(e.past[i]) && e.past[i] != ""
  }

  // ---- Runs

  /**
   * At most 31 printable characters in the line and in every remembered one; the cursor names a
   * line that was entered.
   */
  lemma PressSound(names: seq<seq<char>>, e: Editor, c: char)
    requires IsTable(names) && Sound(e)
    ensures Sound(Press(names, e, c))
  {
  }

  /** The lines a run of keys enters, newest first, in front of what was entered before. */
  ghost function Entered(names: seq<seq<char>>, e: Editor, keys: seq<char>, before: seq<seq<char>>): seq<seq<char>>
    requires IsTable(names) && Sound(e)
    decreases |keys|
  {
    if keys == [] then before
    else
      PressSound(names, e, keys[0]);
      Entered(names, Press(names, e, keys[0]), keys[1..],
              if e.esc == 0 && (keys[0] == '\r' || keys[0] == '\n') && e.text != "" then [e.text] + before else before)
  }

  ghost function After(names: seq<seq<char>>, e: Editor, keys: seq<char>): (r: Editor)
    requires IsTable(names) && Sound(e)
    ensures Sound(r)
    decreases |keys|
  {
    if keys == [] then e
    else
      PressSound(names, e, keys[0]);
      After(names, Press(names, e, keys[0]), keys[1..])
  }

  function Newest(lines: seq<seq<char>>): seq<seq<char>> {
    lines[..Min(|lines|, HISTORY_SIZE)]
  }

  /** The history is always the last eight non-empty lines entered, or all of them if there are fewer. */
  lemma {:induction false} HistoryIsNewest(names: seq<seq<char>>, e: Editor, keys: seq<char>, before: seq<seq<char>>)
    requires IsTable(names) && Sound(e) && e.past == Newest(before)
    ensures After(names, e, keys).past == Newest(Entered(names, e, keys, before))
    decreases |keys|
  {
    if keys != [] {
      var c := keys[0];
      PressSound(names, e, c);
      var now := if e.esc == 0 && (c == '\r' || c == '\n') && e.text != "" then [e.text] + before else before;
      assert Press(names, e, c).past == Newest(now) by { RememberNewest(e.text, before); }
      HistoryIsNewest(names, Press(names, e, c), keys[1..], now);
    }
  }

  lemma RememberNewest(line: seq<char>, before: seq<seq<char>>)
    ensures Remember(line, Newest(before)) == Newest([line] + before)
  {
  }

  // ---- Recalling

  function Ups(e: Editor, k: nat): (r: Editor)
    requires -1 <= e.age < |e.past|
    ensures -1 <= r.age < |r.past|
  {
    if k == 0 then e else Up(Ups(e, k - 1))
  }

  function Downs(e: Editor, k: nat): (r: Editor)
    requires -1 <= e.age < |e.past|
    ensures -1 <= r.age < |r.past|
  {
    if k == 0 then e else Down(Downs(e, k - 1))
  }

  /** Three bytes make one arrow key. */
  lemma ArrowKeys(names: seq<seq<char>>, e: Editor)
    requires IsTable(names) && Sound(e) && e.esc == 0
    ensures After(names, e, [ESC, '[', 'A']) == Up(e)
    ensures After(names, e, [ESC, '[', 'B']) == Down(e)
  {
    forall c | c == 'A' || c == 'B'
      ensures After(names, e, [ESC, '[', c]) == if c == 'A' then Up(e) else Down(e)
    {
      var keys := [ESC, '[', c];
      assert keys[1..] == ['[', c] && keys[1..][1..] == [c] && [c][1..] == [];
      var e1 := Press(names, e, ESC);
      var e2 := Press(names, e1, '[');
      assert After(names, e2, [c]) == After(names, Press(names, e2, c), []);
      assert After(names, e1, ['[', c]) == After(names, e2, [c]);
    }
  }

  /** k arrows up from no selection show the k-th newest line, or the oldest there is. */
  lemma {:induction false} UpsRecall(e: Editor, k: nat)
    requires e.age == -1 && e.past != []
    ensures k > 0 ==> Ups(e, k) == e.(text := e.past[Min(k, |e.past|) - 1], age := Min(k, |e.past|) - 1)
  {
    if k > 1 { UpsRecall(e, k - 1); }
  }

  /** j arrows down take back the last j of k arrows up; as many as there were ups leave an empty line. */
  lemma {:induction false} DownsUndoUps(e: Editor, k: nat, j: nat)
    requires e.age == -1 && e.past != [] && 0 < k <= |e.past|
    ensures 0 < j < k ==> Downs(Ups(e, k), j) == Ups(e, k - j)
    ensures j >= k ==> Downs(Ups(e, k), j) == e.(text := "")
  {
    hide Ups;
    UpsRecall(e, k);
    if j > 0 {
      DownsUndoUps(e, k, j - 1);
      if j < k {
        UpsRecall(e, k - j);
        UpsRecall(e, k - j + 1);
      } else if j == k {
        UpsRecall(e, 1);
      }
    }
  }

  // ---- Typing

  /** Characters typed in a row are appended, as far as the line has room. */
  lemma {:induction false} Typed(names: seq<seq<char>>, e: Editor, s: seq<char>)
    requires IsTable(names) && Sound(e) && e.esc == 0 && forall k :: 0 <= k < |s| ==> IsPrintable(s[k])
    ensures After(names, e, s) == e.(text := (e.text + s)[..Min(|e.text| + |s|, CMD_MAX_LEN - 1)])
    decreases |s|
  {
    if s == [] {
      assert (e.text + s)[..|e.text|] == e.text;
    } else {
      PressSound(names, e, s[0]);
      var e' := Press(names, e, s[0]);
      Typed(names, e', s[1..]);
      assert e.text + [s[0]] + s[1..] == e.text + s;
      if |e.text| == CMD_MAX_LEN - 1 {
        assert (e.text + s[1..])[..CMD_MAX_LEN - 1] == e.text == (e.text + s)[..CMD_MAX_LEN - 1];
      }
    }
  }

  /** A backspace takes back the character just typed, unless the line was full. */
  lemma BackspaceUndoes(names: seq<seq<char>>, e: Editor, c: char)
    requires IsTable(names) && Sound(e) && e.esc == 0 && IsPrintable(c)
    ensures Press(names, Press(names, e, c), DELETE) == e <==> |e.text| < CMD_MAX_LEN - 1
  {
    if |e.text| < CMD_MAX_LEN - 1 {
      assert (e.text + [c])[..|e.text|] == e.text;
    }
  }

  // ---- Running a line

  datatype Outcome = Blank | NotFound | Unclear | Invoke(i: nat, args: seq<uint32>)

  /** The first word: up to a blank, or the whole line. */
  function FirstWord(line: seq<char>): (w: seq<char>)
    ensures w <= line && ' ' !in w && (w == line || line[|w|] == ' ')
  {
    if line == [] || line[0] == ' ' then []
    else
      var w := FirstWord(line[1..]);
      assert [line[0]] + w <= [line[0]] + line[1..] == line;
      [line[0]] + w
  }

  /** What entering a line does. */
  ghost predicate Runs(names: seq<seq<char>>, line: seq<char>, o: Outcome) {
    match o
    case Blank => line == ""
    case NotFound => line != "" && Resolves(names, FirstWord(line), Unknown)
    case Unclear => line != "" && Resolves(names, FirstWord(line), Ambiguous)
    case Invoke(i, args) => line != "" && Resolves(names, FirstWord(line), Found(i)) && args == ArgsOf(line)
  }

  lemma WordIs(line: seq<char>, n: nat)
    requires n <= |line| && ' ' !in line[..n] && (n == |line| || line[n] == ' ')
    ensures FirstWord(line) == line[..n]
  {
    var w := FirstWord(line);
    assert forall k :: 0 <= k < |w| ==> w[k] == line[k] && w[k] in w;
    assert forall k :: 0 <= k < n ==> line[k] == line[..n][k] && line[k] in line[..n];
  }

  /**
   * From the key strokes to the call: a command word, typed in full or as a prefix
   * of one name only, runs that command with exactly the numbers that follow it.
   */
  lemma LineRuns(names: seq<seq<char>>, word: seq<char>, args: seq<Arg>, tail: seq<char>, n: nat, m: nat, i: nat)
    requires (forall k :: 0 <= k < |word| ==> word[k] != CStrings.NUL && !IsBlank(word[k])) && word != []
    requires AreArgs(args) && Ends(tail, n, m) && Resolves(names, word, Found(i))
    requires Line(args, tail) == [] || Line(args, tail)[0] == ' '
    ensures Runs(names, word + Line(args, tail), Invoke(i, Values(args, 3)))
  {
    hide Line, Ends, AreArgs, IsBlank;
    var s := word + Line(args, tail);
    ArgsOfLine(word, args, tail, n, m);
    assert s[..|word|] == word;
    assert IsBlank(' ') by { BlankItself(); }
    WordIs(s, |word|);
  }

  lemma BlankItself()
    ensures IsBlank(' ')
  {
  }

  ghost predicate Enters(e: Editor, c: char) {
    e.esc == 0 && (c == '\r' || c == '\n')
  }

  /** The outcomes of a run of keys: one for each Enter, that of the line then on screen. */
  ghost predicate Calls(names: seq<seq<char>>, e: Editor, keys: seq<char>, os: seq<Outcome>)
    requires IsTable(names) && Sound(e)
    decreases |keys|
  {
    if keys == [] then os == []
    else
      var n := |keys| - 1;
      var e' := After(names, e, keys[..n]);
      if Enters(e', keys[n]) then
        os != [] && Runs(names, e'.text, os[|os| - 1]) && Calls(names, e, keys[..n], os[..|os| - 1])
      else Calls(names, e, keys[..n], os)
  }

  lemma AfterNone(names: seq<seq<char>>, e: Editor)
    requires IsTable(names) && Sound(e)
    ensures After(names, e, []) == e && Calls(names, e, [], [])
  {
  }

  lemma {:induction false} AfterSnoc(names: seq<seq<char>>, e: Editor, keys: seq<char>, c: char)
    requires IsTable(names) && Sound(e)
    ensures After(names, e, keys + [c]) == Press(names, After(names, e, keys), c)
    decreases |keys|
  {
    hide Press;
    if keys == [] {
      assert [] + [c] == [c] && [c][1..] == [];
      PressSound(names, e, c);
      assert After(names, Press(names, e, c), []) == Press(names, e, c);
    } else {
      PressSound(names, e, keys[0]);
      assert (keys + [c])[1..] == keys[1..] + [c];
      AfterSnoc(names, Press(names, e, keys[0]), keys[1..], c);
    }
  }

  lemma CallsSnoc(names: seq<seq<char>>, e: Editor, keys: seq<char>, c: char, os: seq<Outcome>, o: Outcome)
    requires IsTable(names) && Sound(e) && Calls(names, e, keys, os)
    requires Enters(After(names, e, keys), c) ==> Runs(names, After(names, e, keys).text, o)
    ensures Calls(names, e, keys + [c], if Enters(After(names, e, keys), c) then os + [o] else os)
  {
    hide After, Enters, Runs;
    assert (keys + [c])[..|keys|] == keys;
    assert (os + [o])[..|os|] == os;
  }

  /** The table of the program is one. */
  lemma CommandsAreTable()
    ensures IsTable(COMMANDS) && AreNames(COMMANDS)
  {
  }
}
