/**
 * The command line of the program: a zero-terminated buffer, a ring of eight
 * history rows and a recall index, updated in place.  Every operation is proved
 * to act on them as the plain editor of LineEditor acts on strings.
 */
module CommandLine {
  import opened Bytes
  import opened Numerals
  import opened CStrings
  import opened Commands
  import opened LineEditor
  import Console

  const HISTORY_BYTES := HISTORY_SIZE * CMD_MAX_LEN

  /** Where the ring keeps the line entered `age` lines before the newest. */
  function SlotOf(head: nat, age: nat): (i: nat)
    requires head < HISTORY_SIZE && age < HISTORY_SIZE
    ensures i < HISTORY_SIZE
  {
    if age < head then head - 1 - age else head + (HISTORY_SIZE - 1) - age
  }

  /** The age of the row the recall index names. */
  function AgeOf(head: nat, index: int): (a: int)
    requires head < HISTORY_SIZE && -1 <= index < HISTORY_SIZE
    ensures -1 <= a < HISTORY_SIZE && (a >= 0 <==> index >= 0) && (a >= 0 ==> SlotOf(head, a) == index)
  {
    if index < 0 then -1 else if index < head then head - 1 - index else head + (HISTORY_SIZE - 1) - index
  }

  /** Index arithmetic of history_prev: from nothing to the newest row, else one older, stopping at the oldest. */
  lemma PrevAge(head: nat, count: nat, index: int)
    requires head < HISTORY_SIZE && 0 < count <= HISTORY_SIZE
    requires -1 <= index < HISTORY_SIZE && AgeOf(head, index) < count
    ensures AgeOf(head, (head - 1 + HISTORY_SIZE) % HISTORY_SIZE) == 0
    ensures index >= 0 ==>
      (index == (head - count + HISTORY_SIZE) % HISTORY_SIZE <==> AgeOf(head, index) == count - 1)
    ensures index >= 0 && AgeOf(head, index) < count - 1 ==>
      AgeOf(head, (index - 1 + HISTORY_SIZE) % HISTORY_SIZE) == AgeOf(head, index) + 1
  {
  }

  /** Index arithmetic of history_next: past the newest row the index meets the head. */
  lemma NextAge(head: nat, index: nat)
    requires head < HISTORY_SIZE && index < HISTORY_SIZE
    ensures (index + 1) % HISTORY_SIZE == head <==> AgeOf(head, index) == 0
    ensures AgeOf(head, index) > 0 ==> AgeOf(head, (index + 1) % HISTORY_SIZE) == AgeOf(head, index) - 1
    ensures AgeOf(head, -1) == -1
  {
  }

  function Row(h: seq<char>, i: nat): (r: seq<char>)
    requires |h| == HISTORY_BYTES && i < HISTORY_SIZE
    ensures |r| == CMD_MAX_LEN
  {
    h[CMD_MAX_LEN * i..CMD_MAX_LEN * i + CMD_MAX_LEN]
  }

  function Past(h: seq<char>, head: nat, count: nat): (p: seq<seq<char>>)
    requires |h| == HISTORY_BYTES && head < HISTORY_SIZE && count <= HISTORY_SIZE
    ensures |p| == count && forall a :: 0 <= a < count ==> p[a] == Text(Row(h, SlotOf(head, a)))
  {
    seq(count, a requires 0 <= a < count => Text(Row(h, SlotOf(head, a))))
  }

  /** Writing one row and moving the head adds a line to the history and drops the oldest of eight. */
  lemma PastAdd(h: seq<char>, g: seq<char>, head: nat, count: nat, t: seq<char>)
    requires |h| == |g| == HISTORY_BYTES && head < HISTORY_SIZE && count <= HISTORY_SIZE
    requires Text(Row(g, head)) == t && forall i :: 0 <= i < HISTORY_SIZE && i != head ==> Row(g, i) == Row(h, i)
    ensures Past(g, (head + 1) % HISTORY_SIZE, Min(count + 1, HISTORY_SIZE)) == Remember(t, Past(h, head, count))
  {
    hide Row, Text;
    var next, n := (head + 1) % HISTORY_SIZE, Min(count + 1, HISTORY_SIZE);
    var was, now := Past(h, head, count), Past(g, next, n);
    assert SlotOf(next, 0) == head;
    forall a | 0 < a < n ensures now[a] == was[a - 1] {
      assert SlotOf(next, a) == SlotOf(head, a - 1) != head;
    }
  }

  /** A line in a buffer of `CMD_MAX_LEN`, zeros behind it. */
  function Filled(t: seq<char>): (s: seq<char>)
    requires |t| < CMD_MAX_LEN
    ensures |s| == CMD_MAX_LEN
  {
    t + Repeat(NUL, CMD_MAX_LEN - |t|)
  }

  lemma FilledText(t: seq<char>)
    requires IsLine(t)
    ensures Text(Filled(t)) == t
  {
    assert Filled(t)[..|t|] == t;
    TextIs(Filled(t), |t|);
  }

  function Added(e: Editor): Editor {
    if e.text == "" then e else e.(past := Remember(e.text, e.past), age := -1)
  }

  lemma RowsKept(h: seq<char>, g: seq<char>, head: nat)
    requires |h| == |g| == HISTORY_BYTES && head < HISTORY_SIZE
    requires forall k :: 0 <= k < |h| && !(CMD_MAX_LEN * head <= k < CMD_MAX_LEN * head + CMD_MAX_LEN) ==> g[k] == h[k]
    ensures forall i :: 0 <= i < HISTORY_SIZE && i != head ==> Row(g, i) == Row(h, i)
  {
    forall i | 0 <= i < HISTORY_SIZE && i != head
      ensures Row(g, i) == Row(h, i)
    {
      assert i < head || i > head;
    }
  }

  /** One row rewritten in place, at the head. */
  lemma RowAdded(h: seq<char>, g: seq<char>, head: nat, count: nat, t: seq<char>)
    requires |h| == |g| == HISTORY_BYTES && head < HISTORY_SIZE && count <= HISTORY_SIZE && IsLine(t)
    requires g[CMD_MAX_LEN * head..CMD_MAX_LEN * head + CMD_MAX_LEN] == Filled(t)
    requires forall k :: 0 <= k < |h| && !(CMD_MAX_LEN * head <= k < CMD_MAX_LEN * head + CMD_MAX_LEN) ==> g[k] == h[k]
    ensures Past(g, (head + 1) % HISTORY_SIZE, Min(count + 1, HISTORY_SIZE)) == Remember(t, Past(h, head, count))
  {
    hide Past, Remember, Text, Filled;
    FilledText(t);
    RowsKept(h, g, head);
    PastAdd(h, g, head, count, t);
  }

  lemma SoundLine(e: Editor)
    requires Sound(e)
    ensures IsLine(e.text) && (e.text != "" ==> e.text[0] != NUL)
  {
  }

  lemma TextSound(e: Editor, t: seq<char>)
    requires Sound(e) && IsLine(t)
    ensures Sound(e.(text := t)) && |t| < CMD_MAX_LEN
  {
  }

  lemma AgeSound(e: Editor, age: int)
    requires Sound(e) && -1 <= age < |e.past|
    ensures Sound(e.(age := age))
  {
  }

  lemma AddedSound(e: Editor)
    requires Sound(e)
    ensures Sound(Added(e))
  {
  }

  /** The idiom of both copies: strncpy over a whole row, then a terminator in its last place. */
  method CopyLine(buf: array<char>, at: nat, src: seq<char>)
    requires at + CMD_MAX_LEN <= buf.Length && IsLine(Text(src))
    modifies buf
    ensures buf[at..at + CMD_MAX_LEN] == Filled(Text(src))
    ensures forall k :: 0 <= k < buf.Length && !(at <= k < at + CMD_MAX_LEN) ==> buf[k] == old(buf[k])
  {
    hide Text;
    CopiedAt(buf[..], at, src, CMD_MAX_LEN);
    Strncpy(buf, at, src, CMD_MAX_LEN);
    assert Prefix(Text(src), CMD_MAX_LEN) == Text(src);
    assert buf[..][at..at + CMD_MAX_LEN] == Filled(Text(src));
    assert buf[at..at + CMD_MAX_LEN] == Filled(Text(src));
    buf[at + CMD_MAX_LEN - 1] := NUL;
    assert buf[at..at + CMD_MAX_LEN] == Filled(Text(src));
  }

  class Line {
    const names: seq<seq<char>>
    const lineBuf: array<char>
    const history: array<char>
    var lineLen: nat
    var historyHead: nat
    var historyCount: nat
    var historyIndex: int
    var escState: nat

    ghost predicate Shaped()
      reads this
    {
      lineBuf.Length == CMD_MAX_LEN && history.Length == HISTORY_BYTES && lineBuf != history &&
      lineLen < CMD_MAX_LEN && historyHead < HISTORY_SIZE && historyCount <= HISTORY_SIZE &&
      -1 <= historyIndex < HISTORY_SIZE && AgeOf(historyHead, historyIndex) < historyCount && IsTable(names)
    }

    /** The state as a plain editor. */
    ghost function Model(): (e: Editor)
      reads this, lineBuf, history
      requires Shaped()
      ensures -1 <= e.age < |e.past|
    {
      Editor(lineBuf[..lineLen], Past(history[..], historyHead, historyCount),
             AgeOf(historyHead, historyIndex), escState)
    }

    /** Behind the text there are only zeros, up to the end of the buffer. */
    ghost predicate Valid()
      reads this, lineBuf, history
    {
      Shaped() && Sound(Model()) && lineBuf[..] == Filled(lineBuf[..lineLen])
    }

    constructor (table: seq<seq<char>>)
      requires IsTable(table)
      ensures Valid() && Model() == Editor("", [], -1, 0) && names == table && fresh(lineBuf) && fresh(history)
    {
      names := table;
      lineBuf := new char[CMD_MAX_LEN](_ => NUL);
      history := new char[HISTORY_BYTES](_ => NUL);
      lineLen, historyHead, historyCount, historyIndex, escState := 0, 0, 0, -1, 0;
    }

    /** cmd_prompt: an empty line. */
    method Prompt()
      requires Shaped() && Sound(Model())
      modifies this`lineLen, lineBuf
      ensures Valid() && Model() == old(Model()).(text := "")
    {
      hide Text, SlotOf, AgeOf, Past;
      ghost var was := Model();
      lineLen := 0;
      forall i | 0 <= i < CMD_MAX_LEN {
        lineBuf[i] := NUL;
      }
      assert history[..] == old(history[..]);
      assert lineBuf[..lineLen] == "" && lineBuf[..] == Filled("");
      assert Model() == was.(text := "");
    }

    /** The copy into the buffer, and its length. */
    method LoadText(src: seq<char>)
      requires lineBuf.Length == CMD_MAX_LEN && IsLine(Text(src))
      modifies this`lineLen, lineBuf
      ensures lineLen == |Text(src)| < CMD_MAX_LEN && lineBuf[..lineLen] == Text(src)
      ensures lineBuf[..] == Filled(Text(src))
    {
      hide Text;
      ghost var t := Text(src);
      CopyLine(lineBuf, 0, src);
      assert lineBuf[..] == lineBuf[0..CMD_MAX_LEN] == Filled(t);
      FilledText(t);
      lineLen := Strlen(lineBuf[..]);
      assert lineBuf[..lineLen] == Filled(t)[..|t|] == t;
    }

    /** line_load: the line becomes a remembered one, or empty. */
    method LineLoad(src: seq<char>)
      requires Shaped() && Sound(Model()) && IsLine(Text(src))
      modifies this`lineLen, lineBuf
      ensures Valid() && Model() == old(Model()).(text := Text(src))
    {
      hide Text, SlotOf, AgeOf, Past, Row, Sound, IsLine, IsTable, Filled;
      Prompt();
      ghost var t, was := Text(src), Model();
      TextSound(was, t);
      LoadText(src);
      assert history[..] == old(history[..]);
      assert Model() == was.(text := t);
    }

    /** history_add: the entered line goes into the row at the head. */
    method HistoryAdd()
      requires Valid()
      modifies this`historyHead, this`historyCount, this`historyIndex, lineBuf, history
      ensures Valid()
      ensures Model() == Added(old(Model()))
    {
      hide Text, SlotOf, AgeOf, Past, Remember, Row, Sound;
      SoundLine(Model());
      ghost var line, before := lineBuf[..lineLen], history[..];
      lineBuf[lineLen] := NUL;
      assert lineBuf[..] == Filled(line);
      if lineBuf[0] == NUL {
        return;
      }
      AddedSound(old(Model()));
      FilledText(line);
      hide Filled;
      CopyLine(history, CMD_MAX_LEN * historyHead, lineBuf[..]);
      RowAdded(before, history[..], historyHead, historyCount, line);
      historyHead := (historyHead + 1) % HISTORY_SIZE;
      if historyCount < HISTORY_SIZE {
        historyCount := historyCount + 1;
      }
      historyIndex := -1;
      assert lineBuf[..lineLen] == line;
    }

    /** The row the recall index names, as line_load is handed it. */
    method LoadRow()
      requires Shaped() && Sound(Model()) && historyIndex >= 0
      modifies this`lineLen, lineBuf
      ensures Valid() && Model() == old(Model()).(text := old(Model()).past[old(Model()).age])
    {
      assert Model().past[Model().age] == Text(Row(history[..], historyIndex));
      var row := CMD_MAX_LEN * historyIndex;
      assert history[row..row + CMD_MAX_LEN] == Row(history[..], historyIndex);
      LineLoad(history[row..row + CMD_MAX_LEN]);
    }

    /** One row back in the ring, but not past the oldest. */
    method GoBack()
      requires Shaped() && historyCount > 0
      modifies this`historyIndex
      ensures 0 <= historyIndex < HISTORY_SIZE
      ensures AgeOf(historyHead, historyIndex) == Min(old(AgeOf(historyHead, historyIndex)) + 1, historyCount - 1)
    {
      hide AgeOf, IsTable;
      PrevAge(historyHead, historyCount, historyIndex);
      if historyIndex < 0 {
        historyIndex := (historyHead - 1 + HISTORY_SIZE) % HISTORY_SIZE;
      } else {
        var oldest := (historyHead - historyCount + HISTORY_SIZE) % HISTORY_SIZE;
        if historyIndex != oldest {
          historyIndex := (historyIndex - 1 + HISTORY_SIZE) % HISTORY_SIZE;
        }
      }
    }

    method HistoryPrev()
      requires Valid()
      modifies this`historyIndex, this`lineLen, lineBuf
      ensures Valid() && Model() == Up(old(Model()))
    {
      hide Text, Row, Past, SlotOf, AgeOf, Sound, Filled, IsTable;
      if historyCount == 0 {
        return;
      }
      ghost var e := Model();
      AgeSound(e, Min(e.age + 1, |e.past| - 1));
      GoBack();
      assert Model() == e.(age := Min(e.age + 1, |e.past| - 1));
      LoadRow();
    }

    method HistoryNext()
      requires Valid()
      modifies this`historyIndex, this`lineLen, lineBuf
      ensures Valid() && Model() == Down(old(Model()))
    {
      hide Text, Row, Past, SlotOf, AgeOf;
      if historyIndex < 0 {
        return;
      }
      ghost var e := Model();
      NextAge(historyHead, historyIndex);
      historyIndex := (historyIndex + 1) % HISTORY_SIZE;
      if historyIndex == historyHead {
        historyIndex := -1;
        assert Model() == e.(age := -1);
        TextIs("", 0);
        LineLoad("");
      } else {
        assert Model() == e.(age := e.age - 1);
        LoadRow();
      }
    }

    /** The lookup and the argument parser, on the line up to its terminator. */
    method Dispatch(line: seq<char>) returns (o: Outcome)
      requires line != "" && NUL !in line && IsTable(names)
      ensures Runs(names, line, o)
    {
      hide Text, Resolves, ArgsOf;
      assert Text(line) == line by { TextIs(line, |line|); }
      var space := Strchr(line, ' ');
      var cmdLen := if space != -1 then space else |line|;
      WordIs(line, cmdLen);
      var r := Resolve(names, line, cmdLen);
      match r {
        case Unknown => o := NotFound;
        case Ambiguous => o := Unclear;
        case Found(i) =>
          var args := new uint32[3](_ => 0);
          var argc := ParseArgs(line, args);
          o := Invoke(i, args[..argc]);
      }
    }

    /** execute_command: choose a command by the first word, read its numbers, clear the line. */
    method ExecuteCommand() returns (o: Outcome)
      requires Valid()
      modifies this`lineLen, lineBuf
      ensures Valid() && Model() == old(Model()).(text := "") && Runs(names, old(Model()).text, o)
    {
      hide Text, Row, Past, Resolves, ArgsOf, SlotOf, AgeOf;
      ghost var e := Model();
      o := Blank;
      if lineLen == 0 {
        assert e.text == "";
      } else {
        lineBuf[lineLen] := NUL;
        assert lineBuf[..] == Filled(e.text) && lineBuf[..lineLen] == e.text;
        assert history[..] == old(history[..]);
        o := Dispatch(lineBuf[..lineLen]);
      }
      assert Model() == e;
      Prompt();
    }

    method TabCompletion()
      requires Valid()
      modifies this`lineLen, lineBuf
      ensures Valid() && Model() == old(Model()).(text := Completion(names, old(Model()).text))
    {
      hide Row, Past, Completion, SlotOf, AgeOf, Text;
      ghost var e := Model();
      var text := lineBuf[..lineLen];
      assert Text(text) == text by { TextIs(text, |text|); }
      var unique, name := UniqueMatch(names, text, lineLen);
      if unique {
        while lineLen < |name|
          invariant lineLen <= |name| && lineBuf[..] == Filled(name[..lineLen])
          invariant Shaped() && IsLine(name) && historyHead == old(historyHead) && history[..] == old(history[..])
        {
          lineBuf[lineLen] := name[lineLen];
          lineLen := lineLen + 1;
        }
        assert lineBuf[..lineLen] == name;
      }
    }

    /** try_handle_escape: arrow keys arrive as three bytes. */
    method TryHandleEscape(c: char) returns (handled: bool)
      requires Valid()
      modifies this`escState, this`historyIndex, this`lineLen, lineBuf
      ensures Valid() && (handled <==> old(escState) != 0 || c == ESC)
      ensures handled ==> Model() == Press(names, old(Model()), c)
      ensures !handled ==> Model() == old(Model())
    {
      hide Text, Row, Past, SlotOf, AgeOf, Completion, Up, Down, Enter;
      ghost var e := Model();
      handled := true;
      if escState == 1 {
        escState := if c == '[' then 2 else 0;
        assert Model() == e.(esc := escState);
        return;
      }
      if escState == 2 {
        if c == 'A' {
          HistoryPrev();
        } else if c == 'B' {
          HistoryNext();
        }
        ghost var f := Model();
        escState := 0;
        assert Model() == f.(esc := 0);
        return;
      }
      if c == ESC {
        escState := 1;
        assert Model() == e.(esc := 1);
        return;
      }
      handled := false;
    }

    method Backspace()
      requires Valid()
      modifies this`lineLen, lineBuf
      ensures Valid()
      ensures
        var e := old(Model());
        Model() == e.(text := if e.text == "" then "" else e.text[..|e.text| - 1])
    {
      hide Text, Row, Past, SlotOf, AgeOf;
      ghost var e := Model();
      if lineLen > 0 {
        lineLen := lineLen - 1;
        lineBuf[lineLen] := NUL;
        assert lineBuf[..lineLen] == e.text[..lineLen] && lineBuf[..] == Filled(lineBuf[..lineLen]);
        assert history[..] == old(history[..]);
        assert Model() == e.(text := e.text[..|e.text| - 1]);
      }
    }

    method Append(c: char)
      requires Valid() && IsPrintable(c)
      modifies this`lineLen, lineBuf
      ensures Valid()
      ensures
        var e := old(Model());
        Model() == e.(text := if |e.text| < CMD_MAX_LEN - 1 then e.text + [c] else e.text)
    {
      hide Text, Row, Past, SlotOf, AgeOf;
      ghost var e := Model();
      if lineLen < CMD_MAX_LEN - 1 {
        lineBuf[lineLen] := c;
        lineLen := lineLen + 1;
        assert lineBuf[..lineLen] == e.text + [c] && lineBuf[..] == Filled(lineBuf[..lineLen]);
        assert history[..] == old(history[..]);
        assert Model() == e.(text := e.text + [c]);
      }
    }

    /** One byte of input; an Enter also runs the line, with outcome `o`. */
    method Key(c: char) returns (ran: bool, o: Outcome)
      requires Valid()
      modifies this, lineBuf, history
      ensures Valid() && Model() == Press(names, old(Model()), c)
      ensures ran <==> Enters(old(Model()), c)
      ensures ran ==> Runs(names, old(Model()).text, o)
    {
      hide Text, Row, Past, SlotOf, AgeOf, Completion, Up, Down, Runs;
      ran, o := false, Blank;
      var handled := TryHandleEscape(c);
      if handled {
        return;
      }
      if c == '\r' || c == '\n' {
        HistoryAdd();
        o := ExecuteCommand();
        ran := true;
      } else if c == BACKSPACE || c == DELETE {
        Backspace();
      } else if IsPrintable(c) {
        Append(c);
      } else if c == '\t' {
        TabCompletion();
      } else if c == CTRL_L {
        Prompt();
      }
    }

    /** One turn of cmd_poll: the next waiting byte; `done` are the bytes before it. */
    method TakeKey(console: Console.Ring, ghost e: Editor, ghost done: seq<char>, os: seq<Outcome>)
        returns (os': seq<Outcome>, c: char)
      requires Valid() && console.Valid() && {console.rxBuf} !! {lineBuf, history} && Sound(e)
      requires console.Contents().queue != [] && Model() == After(names, e, done) && Calls(names, e, done, os)
      modifies this, lineBuf, history, console
      ensures Valid() && console.Valid()
      ensures console.Contents() == old(console.Contents()).(queue := console.Contents().queue)
      ensures old(console.Contents()).queue == [c] + console.Contents().queue
      ensures Model() == After(names, e, done + [c]) && Calls(names, e, done + [c], os')
    {
      hide Press, Runs, After, Enters, Filled, Sound, IsTable, Calls;
      c := console.RxGet();
      AfterSnoc(names, e, done, c);
      var ran, o := Key(c);
      CallsSnoc(names, e, done, c, os, o);
      os' := if ran then os + [o] else os;
    }

    /** cmd_poll: all waiting bytes, then an interrupt clears the line. */
    method Poll(console: Console.Ring) returns (os: seq<Outcome>)
      requires Valid() && console.Valid() && {console.rxBuf} !! {lineBuf, history}
      modifies this, lineBuf, history, console
      ensures Valid() && console.Valid()
      ensures console.Contents() == old(console.Contents()).(queue := [], interrupted := false)
      ensures Calls(names, old(Model()), old(console.Contents()).queue, os)
      ensures
        var e := After(names, old(Model()), old(console.Contents()).queue);
        Model() == if old(console.Contents()).interrupted then e.(text := "") else e
    {
      hide Text, Row, Past, SlotOf, AgeOf, Press, Runs, After, Enters, Filled, Sound, IsTable, Calls;
      ghost var e, keys := Model(), console.Contents().queue;
      ghost var done: seq<char> := [];
      os := [];
      AfterNone(names, e);
      var empty := console.RxEmpty();
      while !empty
        invariant Valid() && console.Valid() && empty == (console.Contents().queue == [])
        invariant console.Contents() == old(console.Contents()).(queue := console.Contents().queue)
        invariant keys == done + console.Contents().queue
        invariant Model() == After(names, e, done) && Calls(names, e, done, os)
        decreases |console.Contents().queue|
      {
        var c;
        os, c := TakeKey(console, e, done, os);
        assert keys == (done + [c]) + console.Contents().queue;
        done := done + [c];
        empty := console.RxEmpty();
      }
      assert keys == done;
      EndPoll(console);
    }

    /** The end of cmd_poll: an interrupt clears the line. */
    method EndPoll(console: Console.Ring)
      requires Valid() && console.Valid() && {console.rxBuf} !! {lineBuf, history}
      modifies this`lineLen, lineBuf, console`interruptFlag
      ensures Valid() && console.Valid() && console.Contents() == old(console.Contents()).(interrupted := false)
      ensures Model() == if old(console.Contents()).interrupted then old(Model()).(text := "") else old(Model())
    {
      hide Text, Row, Past, SlotOf, AgeOf, Filled, Sound, IsTable;
      var interrupted := console.Interrupted();
      if interrupted {
        Prompt();
      }
    }
  }
}
