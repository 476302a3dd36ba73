/**
 * The main loop's part in the console: bytes from the UART are pushed into the
 * receive ring and drained by the command line, turn after turn.  Over any such
 * run the command line is the plain editor fed with the bytes the ring accepted,
 * its line cleared at the end of every poll that finds an interrupt.
 */
module Session {
  import Console
  import Editor = LineEditor
  import CommandLine

  /** One event of the loop: a byte arrives, or the command line looks at what is waiting. */
  datatype Input = Byte(c: char) | Polled

  datatype State = State(line: Console.Line, editor: Editor.Editor)

  ghost predicate Good(names: seq<seq<char>>, s: State) {
    Editor.IsTable(names) && Editor.Sound(s.editor)
  }

  ghost function Next(names: seq<seq<char>>, s: State, i: Input): (r: State)
    requires Good(names, s)
    ensures Good(names, r)
  {
    match i
    case Byte(c) => s.(line := Console.Received(s.line, c))
    case Polled =>
      var e := Editor.After(names, s.editor, s.line.queue);
      State(s.line.(queue := [], interrupted := false), if s.line.interrupted then e.(text := "") else e)
  }

  ghost function Run(names: seq<seq<char>>, s: State, inputs: seq<Input>): (r: State)
    requires Good(names, s)
    ensures Good(names, r)
    decreases |inputs|
  {
    if inputs == [] then s else Run(names, Next(names, s, inputs[0]), inputs[1..])
  }

  // ---- The same run for the plain editor

  /** What the editor does: a key, or clearing its line. */
  datatype Act = Key(c: char) | Clear

  ghost function Play(names: seq<seq<char>>, e: Editor.Editor, acts: seq<Act>): (r: Editor.Editor)
    requires Editor.IsTable(names) && Editor.Sound(e)
    ensures Editor.Sound(r)
    decreases |acts|
  {
    if acts == [] then e else Play(names, Played(names, e, acts[0]), acts[1..])
  }

  ghost function Played(names: seq<seq<char>>, e: Editor.Editor, a: Act): (r: Editor.Editor)
    requires Editor.IsTable(names) && Editor.Sound(e)
    ensures Editor.Sound(r)
  {
    match a
    case Key(c) => Editor.PressSound(names, e, c); Editor.Press(names, e, c)
    case Clear => e.(text := "")
  }

  function Keys(s: seq<char>): (r: seq<Act>)
    ensures |r| == |s|
  {
    seq(|s|, i requires 0 <= i < |s| => Key(s[i]))
  }

  /** The data bytes that find room, in order, and a clearing at the end of each poll since which an interrupt came. */
  function Acts(l: Console.Line, inputs: seq<Input>): seq<Act>
    decreases |inputs|
  {
    if inputs == [] then []
    else
      match inputs[0]
      case Byte(c) =>
        (if Console.IsData(c) && !Console.Full(l) then [Key(c)] else []) + Acts(Console.Received(l, c), inputs[1..])
      case Polled =>
        (if l.interrupted then [Clear] else []) + Acts(l.(queue := [], interrupted := false), inputs[1..])
  }

  lemma {:induction false} PlayAppend(names: seq<seq<char>>, e: Editor.Editor, a: seq<Act>, b: seq<Act>)
    requires Editor.IsTable(names) && Editor.Sound(e)
    ensures Play(names, e, a + b) == Play(names, Play(names, e, a), b)
    decreases |a|
  {
    hide Played;
    if a == [] {
      assert a + b == b;
    } else {
      assert (a + b)[1..] == a[1..] + b;
      PlayAppend(names, Played(names, e, a[0]), a[1..], b);
    }
  }

  /** Keys alone are a run of the editor. */
  lemma {:induction false} PlayKeys(names: seq<seq<char>>, e: Editor.Editor, s: seq<char>)
    requires Editor.IsTable(names) && Editor.Sound(e)
    ensures Play(names, e, Keys(s)) == Editor.After(names, e, s)
    decreases |s|
  {
    hide Editor.Press;
    if s != [] {
      assert Keys(s)[1..] == Keys(s[1..]);
      Editor.PressSound(names, e, s[0]);
      PlayKeys(names, Editor.Press(names, e, s[0]), s[1..]);
    }
  }

  lemma PlayClear(names: seq<seq<char>>, e: Editor.Editor)
    requires Editor.IsTable(names) && Editor.Sound(e)
    ensures Play(names, e, [Clear]) == e.(text := "")
  {
    assert [Clear][1..] == [];
  }

  /**
   * Whatever arrives, interrupts included, and however often the line is polled in
   * between: the editor, once it has taken what is still waiting, is where the
   * accepted bytes and the clearings take it, none lost, doubled or reordered.
   */
  lemma {:induction false} RunIsEditor(names: seq<seq<char>>, s: State, inputs: seq<Input>)
    requires Good(names, s)
    ensures
      var r := Run(names, s, inputs);
      Play(names, r.editor, Keys(r.line.queue)) == Play(names, s.editor, Keys(s.line.queue) + Acts(s.line, inputs))
    decreases |inputs|
  {
    hide Editor.After, Editor.Sound, Play, Keys;
    if inputs == [] {
      assert Keys(s.line.queue) + [] == Keys(s.line.queue);
    } else {
      var i, rest := inputs[0], inputs[1..];
      var t := Next(names, s, i);
      var more := Acts(t.line, rest);
      RunIsEditor(names, t, rest);
      if i.Polled? {
        PollPlays(names, s, t, more);
      } else {
        BytePlays(names, s, i.c, t, more);
      }
    }
  }

  lemma PollPlays(names: seq<seq<char>>, s: State, t: State, more: seq<Act>)
    requires Good(names, s) && t == Next(names, s, Polled)
    ensures Play(names, t.editor, Keys(t.line.queue) + more)
      == Play(names, s.editor, Keys(s.line.queue) + ((if s.line.interrupted then [Clear] else []) + more))
  {
    hide Editor.After, Editor.Sound, Play;
    var q := Keys(s.line.queue);
    PlayKeys(names, s.editor, s.line.queue);
    PlayAppend(names, s.editor, q, (if s.line.interrupted then [Clear] else []) + more);
    assert Keys([]) + more == more == [] + more;
    if s.line.interrupted {
      var e := Play(names, s.editor, q);
      PlayAppend(names, e, [Clear], more);
      PlayClear(names, e);
    }
  }

  lemma BytePlays(names: seq<seq<char>>, s: State, c: char, t: State, more: seq<Act>)
    requires Good(names, s) && t == Next(names, s, Byte(c))
    ensures Keys(t.line.queue) + more
      == Keys(s.line.queue) + ((if Console.IsData(c) && !Console.Full(s.line) then [Key(c)] else []) + more)
    ensures t.editor == s.editor
  {
    if Console.IsData(c) && !Console.Full(s.line) {
      assert Keys(s.line.queue + [c]) == Keys(s.line.queue) + [Key(c)];
    }
  }

  /** After a poll nothing is waiting: the editor is exactly there. */
  lemma PolledRun(names: seq<seq<char>>, s: State, inputs: seq<Input>)
    requires Good(names, s) && inputs != [] && inputs[|inputs| - 1] == Polled
    ensures Run(names, s, inputs).editor == Play(names, s.editor, Keys(s.line.queue) + Acts(s.line, inputs))
  {
    hide Play, Run;
    RunIsEditor(names, s, inputs);
    EndsEmpty(names, s, inputs);
    var e := Run(names, s, inputs).editor;
    PlayKeys(names, e, []);
    Editor.AfterNone(names, e);
  }

  /** The data bytes that found room in the ring. */
  function Accepted(l: Console.Line, inputs: seq<Input>): seq<char>
    decreases |inputs|
  {
    if inputs == [] then []
    else
      match inputs[0]
      case Byte(c) =>
        (if Console.IsData(c) && !Console.Full(l) then [c] else []) + Accepted(Console.Received(l, c), inputs[1..])
      case Polled => Accepted(l.(queue := [], interrupted := false), inputs[1..])
  }

  lemma {:induction false} ActsAreKeys(l: Console.Line, inputs: seq<Input>)
    requires !l.interrupted && Byte(Console.INTERRUPT) !in inputs
    ensures Acts(l, inputs) == Keys(Accepted(l, inputs))
    decreases |inputs|
  {
    if inputs != [] {
      var rest := inputs[1..];
      assert inputs == [inputs[0]] + rest;
      if inputs[0].Polled? {
        ActsAreKeys(l.(queue := [], interrupted := false), rest);
      } else {
        ActsAreKeys(Console.Received(l, inputs[0].c), rest);
      }
    }
  }

  /** Without an interrupt there are only keys: the run is the editor's own on the accepted bytes. */
  lemma UninterruptedRun(names: seq<seq<char>>, s: State, inputs: seq<Input>)
    requires Good(names, s) && !s.line.interrupted && Byte(Console.INTERRUPT) !in inputs
    requires inputs != [] && inputs[|inputs| - 1] == Polled
    ensures Run(names, s, inputs).editor == Editor.After(names, s.editor, s.line.queue + Accepted(s.line, inputs))
  {
    hide Play, Run, Editor.After;
    PolledRun(names, s, inputs);
    ActsAreKeys(s.line, inputs);
    var q, a := s.line.queue, Accepted(s.line, inputs);
    assert Keys(q) + Keys(a) == Keys(q + a);
    PlayKeys(names, s.editor, q + a);
  }

  lemma {:induction false} EndsEmpty(names: seq<seq<char>>, s: State, inputs: seq<Input>)
    requires Good(names, s) && inputs != [] && inputs[|inputs| - 1] == Polled
    ensures Run(names, s, inputs).line.queue == []
    decreases |inputs|
  {
    hide Editor.After, Editor.Sound;
    if |inputs| > 1 {
      EndsEmpty(names, Next(names, s, inputs[0]), inputs[1..]);
    } else {
      assert inputs[1..] == [];
    }
  }

  // ---- One turn in characters

  function Arrivals(turn: seq<char>): (s: seq<Input>)
    ensures |s| == |turn|
  {
    seq(|turn|, i requires 0 <= i < |turn| => Byte(turn[i]))
  }

  lemma {:induction false} RunAppend(names: seq<seq<char>>, s: State, a: seq<Input>, b: seq<Input>)
    requires Good(names, s)
    ensures Run(names, s, a + b) == Run(names, Run(names, s, a), b)
    decreases |a|
  {
    hide Next, Good;
    if a == [] {
      assert a + b == b;
    } else {
      assert (a + b)[1..] == a[1..] + b;
      RunAppend(names, Next(names, s, a[0]), a[1..], b);
    }
  }

  lemma RunOne(names: seq<seq<char>>, s: State, i: Input)
    requires Good(names, s)
    ensures Run(names, s, [i]) == Next(names, s, i)
  {
    hide Next, Good;
    assert [i][1..] == [];
  }

  /** What is left of a turn's bytes without zeros and interrupt keys. */
  function Data(turn: seq<char>): (s: seq<char>)
    ensures |s| <= |turn|
  {
    if turn == [] then []
    else (if turn[0] as int == 0 || turn[0] as int == 3 then [] else [turn[0]]) + Data(turn[1..])
  }

  lemma {:induction false} PushesAre(names: seq<seq<char>>, s: State, turn: seq<char>)
    requires Good(names, s) && |s.line.queue| + |turn| <= 63
    ensures
      var r := Run(names, s, Arrivals(turn));
      && r.line.queue == s.line.queue + Data(turn) && r.editor == s.editor
      && (r.line.interrupted <==> s.line.interrupted || 3 as char in turn)
    decreases |turn|
  {
    if turn == [] {
      assert Arrivals(turn) == [] && s.line.queue + [] == s.line.queue;
    } else {
      hide Next, Good;
      var t := Next(names, s, Byte(turn[0]));
      OnePush(names, s, turn[0]);
      assert turn == [turn[0]] + turn[1..];
      assert Arrivals(turn)[0] == Byte(turn[0]) && Arrivals(turn)[1..] == Arrivals(turn[1..]);
      PushesAre(names, t, turn[1..]);
      var first := if turn[0] as int == 0 || turn[0] as int == 3 then [] else [turn[0]];
      assert (s.line.queue + first) + Data(turn[1..]) == s.line.queue + (first + Data(turn[1..]));
    }
  }

  lemma OnePush(names: seq<seq<char>>, s: State, c: char)
    requires Good(names, s) && |s.line.queue| < 63
    ensures
      var t := Next(names, s, Byte(c));
      && t.line.queue == s.line.queue + (if c as int == 0 || c as int == 3 then [] else [c]) && t.editor == s.editor
      && (t.line.interrupted <==> s.line.interrupted || c as int == 3)
  {
  }

  /**
   * A turn with up to 63 bytes, nothing waiting before it: the editor takes them in
   * order but for zeros and interrupt keys, and one interrupt key among them clears the line.
   */
  lemma {:induction false} TurnIs(names: seq<seq<char>>, s: State, turn: seq<char>)
    requires Good(names, s) && s.line.queue == [] && |turn| <= 63
    ensures
      var r, e := Run(names, s, Arrivals(turn) + [Polled]), Editor.After(names, s.editor, Data(turn));
      && r.line.queue == [] && !r.line.interrupted
      && r.editor == if s.line.interrupted || 3 as char in turn then e.(text := "") else e
  {
    hide Editor.After, Editor.Sound, Editor.IsTable, Run;
    PushesAre(names, s, turn);
    RunAppend(names, s, Arrivals(turn), [Polled]);
    RunOne(names, Run(names, s, Arrivals(turn)), Polled);
    assert [] + Data(turn) == Data(turn);
  }

  // ---- The loop

  /** What the loop does in some turns, each with the bytes the UART has then. */
  function Inputs(turns: seq<seq<char>>): seq<Input> {
    if turns == [] then [] else Arrivals(turns[0]) + [Polled] + Inputs(turns[1..])
  }

  lemma {:induction false} InputsSnoc(turns: seq<seq<char>>, turn: seq<char>)
    ensures Inputs(turns + [turn]) == Inputs(turns) + (Arrivals(turn) + [Polled])
  {
    if turns == [] {
      assert [turn][1..] == [];
      assert turns + [turn] == [turn];
    } else {
      assert (turns + [turn])[1..] == turns[1..] + [turn];
      InputsSnoc(turns[1..], turn);
      assert Arrivals(turns[0]) + [Polled] + (Inputs(turns[1..]) + (Arrivals(turn) + [Polled]))
          == Arrivals(turns[0]) + [Polled] + Inputs(turns[1..]) + (Arrivals(turn) + [Polled]);
    }
  }

  lemma InputsNext(turns: seq<seq<char>>, i: nat)
    requires i < |turns|
    ensures Inputs(turns[..i + 1]) == Inputs(turns[..i]) + (Arrivals(turns[i]) + [Polled])
  {
    hide Inputs, Arrivals;
    InputsSnoc(turns[..i], turns[i]);
    assert turns[..i + 1] == turns[..i] + [turns[i]];
  }

  ghost predicate Ready(console: Console.Ring, line: CommandLine.Line)
    reads console, line, line.lineBuf, line.history
  {
    console.Valid() && line.Valid() && {console.rxBuf} !! {line.lineBuf, line.history}
  }

  ghost function Now(console: Console.Ring, line: CommandLine.Line): (s: State)
    requires Ready(console, line)
    reads console, console.rxBuf, line, line.lineBuf, line.history
    ensures Good(line.names, s)
  {
    State(console.Contents(), line.Model())
  }

  /** One byte from the UART. */
  method PushOne(console: Console.Ring, line: CommandLine.Line, c: char, ghost s: State, ghost before: seq<Input>)
    requires Ready(console, line) && Good(line.names, s) && Now(console, line) == Run(line.names, s, before)
    modifies console, console.rxBuf
    ensures Ready(console, line) && Now(console, line) == Run(line.names, s, before + [Byte(c)])
  {
    hide Editor.After, Editor.Sound, Editor.IsTable, Run;
    RunAppend(line.names, s, before, [Byte(c)]);
    RunOne(line.names, Now(console, line), Byte(c));
    console.Push(c);
    assert line.Model() == old(line.Model());
  }

  /** One poll. */
  method PollOne(console: Console.Ring, line: CommandLine.Line, ghost s: State, ghost before: seq<Input>)
    requires Ready(console, line) && Good(line.names, s) && Now(console, line) == Run(line.names, s, before)
    modifies console, line, line.lineBuf, line.history
    ensures Ready(console, line) && Now(console, line) == Run(line.names, s, before + [Polled])
  {
    hide Editor.After, Editor.Sound, Editor.IsTable, Run;
    RunAppend(line.names, s, before, [Polled]);
    RunOne(line.names, Now(console, line), Polled);
    var os := line.Poll(console);
  }

  /** One turn: push what the UART has, then poll. */
  method Turn(console: Console.Ring, line: CommandLine.Line, turn: seq<char>, ghost s: State, ghost before: seq<Input>)
    requires Ready(console, line) && Good(line.names, s) && Now(console, line) == Run(line.names, s, before)
    modifies console, console.rxBuf, line, line.lineBuf, line.history
    ensures Ready(console, line)
    ensures Now(console, line) == Run(line.names, s, before + (Arrivals(turn) + [Polled]))
  {
    hide Now, Run, Ready, Good, Arrivals;
    ghost var done := before;
    ArrivalsNone(before, turn);
    var i := 0;
    while i < |turn|
      invariant i <= |turn| && Ready(console, line) && Now(console, line) == Run(line.names, s, done)
      invariant done == before + Arrivals(turn[..i])
    {
      ArrivalsSnoc(before, turn, i);
      PushOne(console, line, turn[i], s, done);
      done := done + [Byte(turn[i])];
      i := i + 1;
    }
    PollOne(console, line, s, done);
    ArrivalsAll(before, turn);
  }

  lemma ArrivalsNone(before: seq<Input>, turn: seq<char>)
    ensures before + Arrivals(turn[..0]) == before
  {
  }

  lemma ArrivalsSnoc(before: seq<Input>, turn: seq<char>, i: nat)
    requires i < |turn|
    ensures before + Arrivals(turn[..i + 1]) == before + Arrivals(turn[..i]) + [Byte(turn[i])]
  {
  }

  lemma ArrivalsAll(before: seq<Input>, turn: seq<char>)
    ensures before + Arrivals(turn[..|turn|]) + [Polled] == before + (Arrivals(turn) + [Polled])
  {
    assert turn[..|turn|] == turn;
  }

  lemma NothingYet(names: seq<seq<char>>, s: State, turns: seq<seq<char>>)
    requires Good(names, s)
    ensures Run(names, s, Inputs(turns[..0])) == s
  {
  }

  /** The console part of the main loop, for any number of turns. */
  method MainLoop(console: Console.Ring, line: CommandLine.Line, turns: seq<seq<char>>)
    requires Ready(console, line)
    modifies console, console.rxBuf, line, line.lineBuf, line.history
    ensures Ready(console, line)
    ensures Now(console, line) == Run(line.names, old(Now(console, line)), Inputs(turns))
  {
    hide Now, Run, Ready, Good, Inputs, Arrivals;
    ghost var s := Now(console, line);
    NothingYet(line.names, s, turns);
    var i := 0;
    while i < |turns|
      invariant i <= |turns| && Ready(console, line)
      invariant Now(console, line) == Run(line.names, s, Inputs(turns[..i]))
    {
      InputsNext(turns, i);
      Turn(console, line, turns[i], s, Inputs(turns[..i]));
      i := i + 1;
    }
    assert turns[..|turns|] == turns;
  }
}
