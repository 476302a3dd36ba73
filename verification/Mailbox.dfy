/**
 * The DDR PHY training mailbox: what the words mean, and the host code that
 * reads them (major messages, streaming blocks, the receive loop).
 */
module Mailbox {
  import opened Bytes

  const TRAINING_SUCCESS := 0x07
  const START_STREAMING := 0x08
  const TRAINING_FAILED := 0xFF

  /** What the receive loop is waiting for. */
  datatype Mode = Major | Length | Stream(left: nat) | Finished(success: bool)

  /** What the host reads of a posted word: only the low half of a major message. */
  function View(mode: Mode, word: uint32): uint32 {
    if mode.Major? then word % TWO_16 else word
  }

  /** The receive loop's reaction to one message. */
  function Next(mode: Mode, word: uint32): Mode {
    match mode
    case Major =>
      var code := word % TWO_16;
      if code == START_STREAMING then Length
      else if code == TRAINING_SUCCESS then Finished(true)
      else if code == TRAINING_FAILED then Finished(false)
      else Major
    case Length => if word % TWO_16 == 0 then Major else Stream(word % TWO_16)
    case Stream(left) => if left <= 1 then Major else Stream(left - 1)
    case Finished(_) => mode
  }

  function ModeAfter(words: seq<uint32>): Mode {
    if words == [] then Major else Next(ModeAfter(words[..|words| - 1]), words[|words| - 1])
  }

  lemma ModeStep(words: seq<uint32>, n: nat)
    requires n < |words|
    ensures ModeAfter(words[..n + 1]) == Next(ModeAfter(words[..n]), words[n])
  {
    assert words[..n + 1][..n] == words[..n];
  }

  // ---- Firmware logs

  /** A major message, or a streaming block: its announcement, a length word and that many words. */
  datatype Message = Plain(code: uint32) | Block(announce: uint32, length: uint32, words: seq<uint32>)

  predicate WellFormed(m: Message) {
    match m
    case Plain(code) => code % TWO_16 != START_STREAMING
    case Block(announce, length, words) => announce % TWO_16 == START_STREAMING && length % TWO_16 == |words|
  }

  predicate Terminal(m: Message) {
    m.Plain? && (m.code % TWO_16 == TRAINING_SUCCESS || m.code % TWO_16 == TRAINING_FAILED)
  }

  function Words(m: Message): seq<uint32> {
    match m
    case Plain(code) => [code]
    case Block(announce, length, words) => [announce, length] + words
  }

  function Encode(log: seq<Message>): seq<uint32> {
    if log == [] then [] else Words(log[0]) + Encode(log[1..])
  }

  /** Reading on from a given mode; `ModeAfter` reads from the start. */
  function ModeFrom(mode: Mode, words: seq<uint32>): Mode
    decreases |words|
  {
    if words == [] then mode else ModeFrom(Next(mode, words[0]), words[1..])
  }

  lemma {:induction false} ModeFromAppend(mode: Mode, a: seq<uint32>, b: seq<uint32>)
    ensures ModeFrom(mode, a + b) == ModeFrom(ModeFrom(mode, a), b)
    decreases |a|
  {
    if a == [] {
      assert a + b == b;
    } else {
      assert (a + b)[1..] == a[1..] + b;
      ModeFromAppend(Next(mode, a[0]), a[1..], b);
    }
  }

  lemma {:induction false} ModeAfterIsModeFrom(words: seq<uint32>)
    ensures ModeAfter(words) == ModeFrom(Major, words)
    decreases |words|
  {
    if words != [] {
      var init, last := words[..|words| - 1], words[|words| - 1];
      ModeAfterIsModeFrom(init);
      ModeFromAppend(Major, init, [last]);
      assert init + [last] == words;
      assert ModeFrom(ModeFrom(Major, init), [last]) == Next(ModeFrom(Major, init), last);
    }
  }

  lemma {:induction false} Streams(words: seq<uint32>)
    requires words != []
    ensures ModeFrom(Stream(|words|), words) == Major
    ensures forall i :: 0 <= i < |words| ==> !ModeFrom(Stream(|words|), words[..i]).Finished?
    decreases |words|
  {
    if |words| > 1 {
      Streams(words[1..]);
      forall i | 0 <= i < |words| ensures !ModeFrom(Stream(|words|), words[..i]).Finished? {
        if i > 0 {
          assert words[..i][1..] == words[1..][..i - 1];
        }
      }
    } else {
      assert words[..0] == [];
    }
  }

  /** One message that is not terminal is consumed exactly, without stopping inside it. */
  lemma MessageConsumed(m: Message)
    requires WellFormed(m) && !Terminal(m)
    ensures ModeFrom(Major, Words(m)) == Major
    ensures forall i :: 0 <= i < |Words(m)| ==> !ModeFrom(Major, Words(m)[..i]).Finished?
  {
    match m
    case Plain(code) => assert Words(m)[..0] == [];
    case Block(announce, length, words) =>
      var all := Words(m);
      assert all[1..][1..] == words;
      assert ModeFrom(Major, all) == ModeFrom(Length, all[1..]);
      if words != [] { Streams(words); }
      forall i | 0 <= i < |all| ensures !ModeFrom(Major, all[..i]).Finished? {
        if i >= 2 {
          assert all[..i][1..] == [length] + words[..i - 2];
          assert ModeFrom(Length, [length] + words[..i - 2]) == ModeFrom(Next(Length, length), words[..i - 2]) by {
            assert ([length] + words[..i - 2])[1..] == words[..i - 2];
          }
        } else if i == 1 {
          assert all[..1][1..] == [];
        }
      }
  }

  /**
   * For every firmware log the loop stops exactly after the first terminal
   * major message, whatever the streamed words are, and reports that message.
   */
  lemma {:induction false} LogConsumed(log: seq<Message>, t: nat, rest: seq<uint32>)
    requires t < |log| && Terminal(log[t])
    requires forall i :: 0 <= i <= t ==> WellFormed(log[i])
    requires forall i :: 0 <= i < t ==> !Terminal(log[i])
    ensures
      var words := Encode(log[..t + 1]);
      && ModeFrom(Major, words + rest) == Finished(log[t].code % TWO_16 == TRAINING_SUCCESS)
      && forall i :: 0 <= i < |words| ==> !ModeFrom(Major, (words + rest)[..i]).Finished?
    decreases t
  {
    var words := Encode(log[..t + 1]);
    var head, tail := Words(log[0]), Encode(log[1..t + 1]);
    assert log[..t + 1][1..] == log[1..t + 1];
    if t == 0 {
      assert words == head;
      Stays(Finished(log[0].code % TWO_16 == TRAINING_SUCCESS), rest);
      assert (head + rest)[1..] == rest && (head + rest)[..0] == [];
    } else {
      assert words == head + tail;
      hide ModeFrom, Words, Encode, WellFormed, Terminal;
      assert log[1..][..t] == log[1..t + 1];
      LogConsumed(log[1..], t - 1, rest);
      MessageConsumed(log[0]);
      OneMore(head, tail, rest);
    }
  }

  /** A message that is read whole in front of words that are not stopped in. */
  lemma OneMore(head: seq<uint32>, tail: seq<uint32>, rest: seq<uint32>)
    requires ModeFrom(Major, head) == Major
    requires forall i :: 0 <= i < |head| ==> !ModeFrom(Major, head[..i]).Finished?
    requires forall i :: 0 <= i < |tail| ==> !ModeFrom(Major, (tail + rest)[..i]).Finished?
    ensures ModeFrom(Major, head + tail + rest) == ModeFrom(Major, tail + rest)
    ensures forall i :: 0 <= i < |head + tail| ==> !ModeFrom(Major, (head + tail + rest)[..i]).Finished?
  {
    hide ModeFrom;
    assert head + tail + rest == head + (tail + rest);
    ModeFromAppend(Major, head, tail + rest);
    forall i | 0 <= i < |head + tail| ensures !ModeFrom(Major, (head + tail + rest)[..i]).Finished? {
      if i < |head| {
        assert (head + tail + rest)[..i] == head[..i];
      } else {
        assert (head + tail + rest)[..i] == head + (tail + rest)[..i - |head|];
        ModeFromAppend(Major, head, (tail + rest)[..i - |head|]);
      }
    }
  }

  /** A reader that has not stopped earlier stops at the first terminal message and nowhere else. */
  lemma StopsAtTerminal(log: seq<Message>, t: nat, words: seq<uint32>, n: nat)
    requires t < |log| && Terminal(log[t])
    requires forall i :: 0 <= i <= t ==> WellFormed(log[i])
    requires forall i :: 0 <= i < t ==> !Terminal(log[i])
    requires Encode(log[..t + 1]) <= words && n <= |words|
    requires forall i :: 0 <= i < n ==> !ModeAfter(words[..i]).Finished?
    ensures ModeAfter(words[..n]).Finished? <==> n == |Encode(log[..t + 1])|
    ensures ModeAfter(words[..n]).Finished? ==>
      ModeAfter(words[..n]).success == (log[t].code % TWO_16 == TRAINING_SUCCESS)
  {
    var all := Encode(log[..t + 1]);
    LogConsumed(log, t, []);
    assert all + [] == all && words[..|all|] == all;
    ModeAfterIsModeFrom(all);
    if n < |all| {
      assert (all + [])[..n] == words[..n];
      ModeAfterIsModeFrom(words[..n]);
    } else if n == |all| {
      assert words[..n] == all;
    }
  }

  lemma {:induction false} Stays(mode: Mode, words: seq<uint32>)
    requires mode.Finished?
    ensures ModeFrom(mode, words) == mode
    decreases |words|
  {
    if words != [] { Stays(mode, words[1..]); }
  }

  // ---- The same in words and numbers

  /**
   * Where the messages of a log of words start: a low half of 8 announces a block,
   * whose second word holds in its low half how many more follow; any other message
   * is one word.  The last one is the first whose low half is 7 or 0xFF.
   */
  ghost predicate Starts(words: seq<uint32>, starts: seq<nat>) {
    var t := |starts| - 1;
    && t >= 0 && starts[0] == 0
    && (forall k :: 0 <= k <= t ==> starts[k] < |words|)
    && (forall k :: 0 <= k < t ==>
          && words[starts[k]] % 0x1_0000 != 7 && words[starts[k]] % 0x1_0000 != 0xFF
          && After(words, starts[k], starts[k + 1]))
    && (words[starts[t]] % 0x1_0000 == 7 || words[starts[t]] % 0x1_0000 == 0xFF)
  }

  /** The message behind the one at `s` starts at `next`. */
  predicate After(words: seq<uint32>, s: nat, next: nat)
    requires s < |words|
  {
    if words[s] % 0x1_0000 == 8 then s + 1 < |words| && next == s + 2 + words[s + 1] % 0x1_0000 else next == s + 1
  }

  ghost predicate Running(words: seq<uint32>, from: nat, to: nat)
    requires to <= |words|
  {
    forall i :: from <= i < to ==> !ModeAfter(words[..i]).Finished?
  }

  /** Inside a streaming block, `j` words behind its length. */
  lemma {:induction false} InBlock(words: seq<uint32>, at: nat, len: nat, j: nat)
    requires at + len <= |words| && j <= len && at <= |words|
    requires ModeAfter(words[..at]) == if len == 0 then Major else Stream(len)
    ensures ModeAfter(words[..at + j]) == if j == len then Major else Stream(len - j)
    decreases j
  {
    if j > 0 {
      InBlock(words, at, len, j - 1);
      ModeStep(words, at + j - 1);
    }
  }

  /** One message that does not end the log. */
  lemma OneMessage(words: seq<uint32>, s: nat, next: nat)
    requires s < |words| && ModeAfter(words[..s]) == Major && After(words, s, next) && next <= |words|
    requires words[s] % 0x1_0000 != 7 && words[s] % 0x1_0000 != 0xFF
    ensures ModeAfter(words[..next]) == Major && Running(words, s, next)
    ensures forall i :: s < i < next ==> !ModeAfter(words[..i]).Major?
  {
    ModeStep(words, s);
    if words[s] % 0x1_0000 == 8 {
      var len := words[s + 1] % 0x1_0000;
      ModeStep(words, s + 1);
      InBlock(words, s + 2, len, len);
      forall i | s < i < next
        ensures !ModeAfter(words[..i]).Finished? && !ModeAfter(words[..i]).Major?
      {
        if i >= s + 2 { InBlock(words, s + 2, len, i - (s + 2)); }
      }
    }
  }

  lemma {:induction false} AtStart(words: seq<uint32>, starts: seq<nat>, k: nat)
    requires Starts(words, starts) && k < |starts|
    ensures ModeAfter(words[..starts[k]]) == Major && Running(words, 0, starts[k])
    ensures forall i :: 0 <= i < starts[k] ==> (ModeAfter(words[..i]).Major? <==> i in starts[..k])
    ensures forall i :: i in starts[..k] ==> i < starts[k]
    decreases k
  {
    if k == 0 {
      assert words[..0] == [];
    } else {
      AtStart(words, starts, k - 1);
      OneMessage(words, starts[k - 1], starts[k]);
      assert starts[..k] == starts[..k - 1] + [starts[k - 1]];
    }
  }

  /** A log is read to the word that ends it, and that word decides. */
  lemma ReadsToEnd(words: seq<uint32>, starts: seq<nat>)
    requires Starts(words, starts)
    ensures
      var last := starts[|starts| - 1];
      ModeAfter(words[..last + 1]) == Finished(words[last] % 0x1_0000 == 7) && Running(words, 0, last + 1)
  {
    var t := |starts| - 1;
    AtStart(words, starts, t);
    ModeStep(words, starts[t]);
  }

  // ---- The host code

  /**
   * The host's end of the mailbox.  `words` are the messages the firmware will
   * post; each bounded wait sees the next one, except that the host gives up
   * when there is none left or its patience is over.
   */
  class Host {
    const words: seq<uint32>
    const patience: nat
    var taken: nat

    constructor (words: seq<uint32>, patience: nat)
      ensures this.words == words && this.patience == patience && taken == 0
    {
      this.words, this.patience, taken := words, patience, 0;
    }

    ghost predicate GivesUp()
      reads this
    {
      taken >= |words| || taken >= patience
    }

    /** Nothing before the words taken so far ended the training. */
    ghost predicate Unfinished()
      reads this
    {
      taken <= |words| && taken <= patience && forall i :: 0 <= i < taken ==> !ModeAfter(words[..i]).Finished?
    }

    ghost function Now(): Mode
      reads this
      requires taken <= |words|
    {
      ModeAfter(words[..taken])
    }

    method GetMajorMessage() returns (ret: int, msg: uint32)
      requires Unfinished() && Now() == Major
      modifies this
      ensures Unfinished()
      ensures old(GivesUp()) ==> ret == -1 && taken == old(taken)
      ensures !old(GivesUp()) ==> ret == 0 && taken == old(taken) + 1 && msg == View(Major, words[old(taken)])
      ensures !old(GivesUp()) ==> Now() == Next(Major, msg)
    {
      if taken >= |words| || taken >= patience {
        return -1, 0;
      }
      ModeStep(words, taken);
      ret, msg := 0, words[taken] % TWO_16;
      taken := taken + 1;
    }

    method GetStreamingMessage() returns (ret: int, msg: uint32)
      requires Unfinished() && (Now() == Length || Now().Stream?)
      modifies this
      ensures Unfinished()
      ensures old(GivesUp()) ==> ret == -1 && taken == old(taken)
      ensures !old(GivesUp()) ==> ret == 0 && taken == old(taken) + 1 && msg == View(Length, words[old(taken)])
      ensures !old(GivesUp()) ==> Now() == Next(old(Now()), msg)
    {
      if taken >= |words| || taken >= patience {
        return -1, 0;
      }
      ModeStep(words, taken);
      var lower, upper := words[taken] % TWO_16, words[taken] / TWO_16;
      ret, msg := 0, lower + upper * TWO_16;
      taken := taken + 1;
    }

    /** The streaming block: a length word, then that many words. */
    method SkipBlock() returns (ret: int)
      requires Unfinished() && Now() == Length
      modifies this
      ensures Unfinished() && taken >= old(taken)
      ensures ret == 0 ==> Now() == Major && taken > old(taken)
      ensures ret != 0 ==> GivesUp() && !Now().Finished?
    {
      var readData: uint32;
      ret, readData := GetStreamingMessage();
      if ret != 0 {
        return;
      }
      var streamLen := readData % TWO_16;
      var i := 0;
      while i < streamLen
        invariant 0 <= i <= streamLen && taken > old(taken) && Unfinished()
        invariant Now() == if i == streamLen then Major else Stream(streamLen - i)
      {
        ret, readData := GetStreamingMessage();
        if ret != 0 {
          return;
        }
        i := i + 1;
      }
    }

    /** The receive loop: returns 0 exactly when it stopped at a success message. */
    method WaitFwDone() returns (ret: int)
      requires taken == 0
      modifies this
      ensures Unfinished()
      ensures ret == 0 ==> Now() == Finished(true)
      ensures ret != 0 ==> Now() == Finished(false) || (GivesUp() && !Now().Finished?)
      ensures forall starts: seq<nat> :: Starts(words, starts) ==>
        var last := starts[|starts| - 1];
        if patience <= last then ret != 0 && taken == patience
        else taken == last + 1 && (ret == 0 <==> words[last] % 0x1_0000 == 7)
    {
      var fwMajorMessage: uint32 := 0;
      assert words[..0] == [];
      while fwMajorMessage != TRAINING_SUCCESS && fwMajorMessage != TRAINING_FAILED
        invariant Unfinished()
        invariant Now() ==
          if fwMajorMessage == TRAINING_SUCCESS then Finished(true)
          else if fwMajorMessage == TRAINING_FAILED then Finished(false)
          else Major
        decreases |words| - taken
      {
        ret, fwMajorMessage := GetMajorMessage();
        if ret != 0 {
          EndsThere();
          return;
        }
        if fwMajorMessage == START_STREAMING {
          ret := SkipBlock();
          if ret != 0 {
            EndsThere();
            return;
          }
        }
      }
      ret := if fwMajorMessage == TRAINING_FAILED then -1 else 0;
      EndsThere();
    }

    /** Where a reader that has stopped, or given up before, stands. */
    lemma EndsThere()
      requires Unfinished() && (Now().Finished? || GivesUp())
      ensures forall starts: seq<nat> :: Starts(words, starts) ==>
        var last := starts[|starts| - 1];
        if patience <= last then !Now().Finished? && taken == patience
        else taken == last + 1 && Now() == Finished(words[last] % 0x1_0000 == 7)
    {
      forall starts: seq<nat> | Starts(words, starts)
        ensures
          var last := starts[|starts| - 1];
          if patience <= last then !Now().Finished? && taken == patience
          else taken == last + 1 && Now() == Finished(words[last] % 0x1_0000 == 7)
      {
        ReadsToEnd(words, starts);
        var last := starts[|starts| - 1];
        var end := ModeAfter(words[..last + 1]);
        assert taken <= last + 1;
      }
    }
  }
}
