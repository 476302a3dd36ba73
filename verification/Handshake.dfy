/**
 * The mailbox handshake as two interleaved parties.
 *
 * The host's steps are those of wait_uctwriteprotshadow, ack_message_receipt and
 * the two get_message functions, one register access per step, run by the
 * receive loop of Mailbox.  The firmware is the dual of that protocol: it fills
 * the two data registers, lowers the shadow flag, waits for the acknowledge,
 * raises the flag and waits for the acknowledge to be withdrawn.
 */
module Handshake {
  import opened Bytes
  import opened Mailbox

  datatype HostPc = Poll | ReadLow | ReadHigh | Ack | PollAck | Release | GaveUp | Done

  datatype FirmwarePc = Quiet | LowWritten | HighWritten | Posted | Withdrawn

  datatype State = State(
    script: seq<uint32>,
    firmware: FirmwarePc, sent: nat,
    uctFree: bool,   // UctWriteProtShadow bit 0: true when no message is pending
    dctFree: bool,   // DctWriteProt: false while the host acknowledges
    lowReg: uint16, highReg: uint16,
    host: HostPc, mode: Mode, low: uint16, high: uint16,
    received: seq<uint32>)

  function Start(script: seq<uint32>): State {
    State(script, Quiet, 0, true, true, 0, 0, Poll, Major, 0, 0, [])
  }

  function FirmwareStep(s: State): State {
    match s.firmware
    case Quiet =>
      if s.sent < |s.script| then s.(lowReg := s.script[s.sent] % TWO_16, firmware := LowWritten) else s
    case LowWritten =>
      if s.sent < |s.script| then s.(highReg := s.script[s.sent] / TWO_16, firmware := HighWritten) else s
    case HighWritten => s.(uctFree := false, sent := s.sent + 1, firmware := Posted)
    case Posted => if s.dctFree then s else s.(uctFree := true, firmware := Withdrawn)
    case Withdrawn => if s.dctFree then s.(firmware := Quiet) else s
  }

  function HostStep(s: State): State {
    match s.host
    case Poll => if s.uctFree then s else s.(host := ReadLow)
    case ReadLow => s.(low := s.lowReg, high := 0, host := if s.mode.Major? then Ack else ReadHigh)
    case ReadHigh => s.(high := s.highReg, host := Ack)
    case Ack => s.(dctFree := false, host := PollAck)
    case PollAck => if s.uctFree then s.(host := Release) else s
    case Release =>
      var word: uint32 := s.low as int + TWO_16 * s.high as int;
      var mode := Next(s.mode, word);
      s.(dctFree := true, received := s.received + [word], mode := mode, host := if mode.Finished? then Done else Poll)
    case GaveUp => s
    case Done => s
  }

  /** A bounded wait may end without having seen its condition. */
  function TimeoutStep(s: State): State {
    if s.host == Poll || s.host == PollAck then s.(host := GaveUp) else s
  }

  datatype Turn = FirmwareTurn | HostTurn | HostTimeout

  function Step(s: State, t: Turn): State {
    match t
    case FirmwareTurn => FirmwareStep(s)
    case HostTurn => HostStep(s)
    case HostTimeout => TimeoutStep(s)
  }

  function Run(s: State, turns: seq<Turn>): State
    decreases |turns|
  {
    if turns == [] then s else Run(Step(s, turns[0]), turns[1..])
  }

  lemma {:induction false} NothingMore(s: State, turns: seq<Turn>)
    requires s.host == GaveUp
    ensures Run(s, turns).host == GaveUp && Run(s, turns).received == s.received && Run(s, turns).dctFree == s.dctFree
    decreases |turns|
  {
    if turns != [] { NothingMore(Step(s, turns[0]), turns[1..]); }
  }

  /**
   * A wait that ends without its condition ends the reception, whatever turns follow:
   * nothing more is received and no register written; outside the two waits nothing times out.
   */
  lemma TimeoutEnds(s: State, turns: seq<Turn>)
    ensures s.host == Poll || s.host == PollAck ==>
      var r := Run(Step(s, HostTimeout), turns);
      r.host == GaveUp && r.received == s.received && r.dctFree == s.dctFree
    ensures s.host != Poll && s.host != PollAck ==> Step(s, HostTimeout) == s
  {
    if s.host == Poll || s.host == PollAck { NothingMore(Step(s, HostTimeout), turns); }
  }

  // ---- The invariant

  /** Where the two parties can be relative to each other, and what is in transit. */
  ghost predicate InStep(s: State) {
    var n := |s.received|;
    match s.host
    case Poll => Between(s)
    case Done => Between(s)
    case ReadLow => Pending(s) && s.firmware == Posted && s.dctFree
    case ReadHigh => Pending(s) && s.firmware == Posted && s.dctFree
                     && !s.mode.Major? && s.low == s.script[n] % TWO_16
    case Ack => Pending(s) && s.firmware == Posted && s.dctFree && Holds(s)
    case PollAck => Pending(s) && (s.firmware == Posted || s.firmware == Withdrawn) && !s.dctFree && Holds(s)
    case Release => Pending(s) && s.firmware == Withdrawn && !s.dctFree && Holds(s)
    case GaveUp => if s.dctFree then Between(s) else Pending(s) && (s.firmware == Posted || s.firmware == Withdrawn)
  }

  /** The host is outside a handshake: at most one word is posted and not yet received. */
  ghost predicate Between(s: State) {
    s.dctFree && s.sent == |s.received| + (if s.firmware == Posted then 1 else 0)
  }

  /** Exactly one word is posted and not yet received. */
  ghost predicate Pending(s: State) {
    s.sent == |s.received| + 1 && |s.received| < |s.script|
  }

  /** The host's copy is what it should read of the pending word. */
  ghost predicate Holds(s: State)
    requires |s.received| < |s.script|
  {
    s.low as int + TWO_16 * s.high as int == View(s.mode, s.script[|s.received|])
  }

  /** While a word is posted the data registers hold it; before that they are being filled with it. */
  ghost predicate Registers(s: State) {
    && s.sent <= |s.script|
    && (s.firmware == LowWritten || s.firmware == HighWritten ==> s.sent < |s.script|)
    && (s.uctFree <==> s.firmware != Posted)
    && (s.firmware == LowWritten ==> s.lowReg == s.script[s.sent] % TWO_16)
    && (s.firmware == HighWritten ==> s.lowReg == s.script[s.sent] % TWO_16 && s.highReg == s.script[s.sent] / TWO_16)
    && (s.firmware == Posted ==>
          s.sent > 0 && s.lowReg == s.script[s.sent - 1] % TWO_16 && s.highReg == s.script[s.sent - 1] / TWO_16)
  }

  /** What was received is what was sent, as far as each message is read, up to the end of training. */
  ghost predicate Delivered(s: State) {
    var n := |s.received|;
    && n <= |s.script|
    && (forall i :: 0 <= i < n ==> s.received[i] == View(ModeAfter(s.script[..i]), s.script[i]))
    && (forall i :: 0 <= i < n ==> !ModeAfter(s.script[..i]).Finished?)
    && s.mode == ModeAfter(s.script[..n])
    && (s.host == Done <==> s.mode.Finished?)
  }

  ghost predicate Inv(s: State) {
    Registers(s) && InStep(s) && |s.received| <= s.sent <= |s.received| + 1 && Delivered(s)
  }

  lemma StartInv(script: seq<uint32>)
    ensures Inv(Start(script))
  {
    assert script[..0] == [];
  }

  lemma FirmwareStepInv(s: State)
    requires Inv(s)
    ensures Inv(FirmwareStep(s)) && FirmwareStep(s).script == s.script && FirmwareStep(s).host == s.host
  {
    hide ModeAfter, View, Next;
  }

  /** Only what is read of a message decides what happens next. */
  lemma NextOfView(mode: Mode, word: uint32)
    ensures Next(mode, View(mode, word)) == Next(mode, word)
  {
  }

  lemma ReleaseInv(s: State)
    requires Inv(s) && s.host == Release
    ensures Inv(HostStep(s))
  {
    hide ModeAfter, View, Next;
    var n := |s.received|;
    ModeStep(s.script, n);
    NextOfView(s.mode, s.script[n]);
    var r := HostStep(s);
    assert r.received[..n] == s.received && r.received[n] == View(s.mode, s.script[n]);
  }

  lemma ReadHighInv(s: State)
    requires Inv(s) && s.host == ReadHigh
    ensures Inv(HostStep(s))
  {
    var w := s.script[|s.received|];
    assert w % TWO_16 + TWO_16 * (w / TWO_16) == w;
  }

  lemma HostStepInv(s: State)
    requires Inv(s)
    ensures Inv(HostStep(s)) && HostStep(s).script == s.script
    ensures s.host != GaveUp ==> HostStep(s).host != GaveUp
  {
    hide ModeAfter, Next;
    if s.host == Release {
      ReleaseInv(s);
    } else if s.host == ReadHigh {
      ReadHighInv(s);
    }
  }

  lemma StepInv(s: State, t: Turn)
    requires Inv(s)
    ensures Inv(Step(s, t)) && Step(s, t).script == s.script
  {
    hide ModeAfter, View, Next, FirmwareStep, HostStep;
    FirmwareStepInv(s);
    HostStepInv(s);
  }

  /**
   * Safety over every interleaving: the host has received a prefix of what the
   * firmware sent, at most one word behind, each word exactly as posted.
   */
  lemma {:induction false} RunSafe(s: State, turns: seq<Turn>)
    requires Inv(s)
    ensures Inv(Run(s, turns)) && Run(s, turns).script == s.script
    decreases |turns|
  {
    hide Inv, Step;
    if turns != [] {
      StepInv(s, turns[0]);
      RunSafe(Step(s, turns[0]), turns[1..]);
    }
  }

  lemma Prefix(script: seq<uint32>, turns: seq<Turn>)
    ensures
      var r := Run(Start(script), turns);
      var n := |r.received|;
      && n <= r.sent <= n + 1 && r.sent <= |script|
      && (forall i :: 0 <= i < n ==> r.received[i] == View(ModeAfter(script[..i]), script[i]))
  {
    StartInv(script);
    RunSafe(Start(script), turns);
  }

  /** The host reads a data register only while the firmware leaves both alone. */
  lemma ReadsAreStable(script: seq<uint32>, turns: seq<Turn>)
    ensures
      var r := Run(Start(script), turns);
      r.host == ReadLow || r.host == ReadHigh ==>
        && FirmwareStep(r) == r
        && 0 < r.sent <= |script| && r.lowReg == script[r.sent - 1] % TWO_16 && r.highReg == script[r.sent - 1] / TWO_16
  {
    StartInv(script);
    RunSafe(Start(script), turns);
  }

  /** End to end: if the host stops without giving up, it took exactly the log up to its first terminal message. */
  lemma TrainingOutcome(log: seq<Message>, t: nat, turns: seq<Turn>)
    requires t < |log| && Terminal(log[t])
    requires forall i :: 0 <= i <= t ==> WellFormed(log[i])
    requires forall i :: 0 <= i < t ==> !Terminal(log[i])
    ensures
      var r := Run(Start(Encode(log)), turns);
      && |r.received| <= |Encode(log[..t + 1])|
      && (r.host == Done <==> |r.received| == |Encode(log[..t + 1])|)
      && (r.host == Done ==> r.mode == Finished(log[t].code % TWO_16 == TRAINING_SUCCESS))
  {
    StartInv(Encode(log));
    RunSafe(Start(Encode(log)), turns);
    StopsThere(log, t, Run(Start(Encode(log)), turns));
  }

  lemma StopsThere(log: seq<Message>, t: nat, r: State)
    requires t < |log| && Terminal(log[t])
    requires forall i :: 0 <= i <= t ==> WellFormed(log[i])
    requires forall i :: 0 <= i < t ==> !Terminal(log[i])
    requires Inv(r) && r.script == Encode(log)
    ensures |Encode(log[..t + 1])| <= |r.script|
    ensures |r.received| <= |Encode(log[..t + 1])|
    ensures r.host == Done <==> |r.received| == |Encode(log[..t + 1])|
    ensures r.host == Done ==> r.mode == Finished(log[t].code % TWO_16 == TRAINING_SUCCESS)
  {
    var stop := Encode(log[..t + 1]);
    EncodePrefix(log, t + 1);
    if |r.received| > |stop| {
      StopsAtTerminal(log, t, r.script, |stop|);
      assert false;
    }
    StopsAtTerminal(log, t, r.script, |r.received|);
  }

  lemma {:induction false} EncodePrefix(log: seq<Message>, n: nat)
    requires n <= |log|
    ensures Encode(log[..n]) <= Encode(log)
    decreases n
  {
    hide Words;
    if n > 0 {
      var a, b := Encode(log[1..][..n - 1]), Encode(log[1..]);
      EncodePrefix(log[1..], n - 1);
      assert log[..n][1..] == log[1..][..n - 1];
      assert Encode(log[..n]) == Words(log[0]) + a && Encode(log) == Words(log[0]) + b;
      assert b == a + b[|a|..];
    }
  }

  // ---- Progress

  /** Nothing is left to do: the host has stopped, or everything sent has been received. */
  ghost predicate Terminated(s: State) {
    || s.host == Done || s.host == GaveUp
    || (s.host == Poll && s.firmware == Quiet && s.sent == |s.script|)
  }

  /** Register accesses still to be made; every step that is not a fruitless poll uses one up. */
  function Work(s: State): int {
    var f := match s.firmware
             case Quiet => 0 case LowWritten => -1 case HighWritten => -2 case Posted => 2 case Withdrawn => 1;
    var h := match s.host
             case Poll => 0 case ReadLow => 1 case ReadHigh => 2 case Ack => 3 case PollAck => 4 case Release => 5
             case GaveUp => 0 case Done => 0;
    5 * (|s.script| - s.sent) + f + 6 * (|s.script| - |s.received|) - h
  }

  lemma WorkBound(s: State)
    requires Inv(s)
    ensures 0 <= Work(s)
  {
  }

  /** A step that changes anything uses up work, and one of the parties can always take one. */
  lemma NoDeadlock(s: State)
    requires Inv(s)
    ensures FirmwareStep(s) != s ==> Work(FirmwareStep(s)) < Work(s)
    ensures HostStep(s) != s ==> Work(HostStep(s)) < Work(s)
    ensures !Terminated(s) ==> FirmwareStep(s) != s || HostStep(s) != s
  {
    if s.host == Release {
      var r := HostStep(s);
      assert |r.received| == |s.received| + 1;
    }
  }

  /** A stretch of turns in which nobody gives up and each party has its turn. */
  ghost predicate Fair(turns: seq<Turn>) {
    HostTimeout !in turns && FirmwareTurn in turns && HostTurn in turns
  }

  function Joined(pieces: seq<seq<Turn>>): seq<Turn> {
    if pieces == [] then [] else pieces[0] + Joined(pieces[1..])
  }

  lemma {:induction false} RunAppend(s: State, a: seq<Turn>, b: seq<Turn>)
    ensures Run(s, a + b) == Run(Run(s, a), b)
    decreases |a|
  {
    hide Step;
    if a == [] {
      assert a + b == b;
    } else {
      assert (a + b)[1..] == a[1..] + b;
      RunAppend(Step(s, a[0]), a[1..], b);
    }
  }

  /** Once everything is done it stays done. */
  lemma TerminatedStays(s: State, t: Turn)
    requires Inv(s) && Terminated(s)
    ensures Terminated(Step(s, t))
  {
    hide ModeAfter, View, Next;
  }

  /** A stretch without time-outs never adds work, and if it does none then none of its turns could do any. */
  lemma {:induction false} StretchWorks(s: State, turns: seq<Turn>)
    requires Inv(s) && s.host != GaveUp && HostTimeout !in turns
    ensures Inv(Run(s, turns)) && Run(s, turns).host != GaveUp && Work(Run(s, turns)) <= Work(s)
    ensures Terminated(s) ==> Terminated(Run(s, turns))
    ensures Work(Run(s, turns)) == Work(s) ==> Run(s, turns) == s && forall t :: t in turns ==> Step(s, t) == s
    decreases |turns|
  {
    hide Inv, FirmwareStep, HostStep, Work, Terminated;
    if turns != [] {
      var t, rest := turns[0], turns[1..];
      assert turns == [t] + rest;
      StepInv(s, t);
      FirmwareStepInv(s);
      HostStepInv(s);
      NoDeadlock(s);
      if Terminated(s) { TerminatedStays(s, t); }
      StretchWorks(Step(s, t), rest);
    }
  }

  /**
   * If nobody gives up, any fair sequence of turns finishes the exchange: `Work(s)`
   * stretches are enough, in whatever order and however often each party has its turn in them.
   */
  lemma {:induction false} FairRunTerminates(s: State, pieces: seq<seq<Turn>>)
    requires Inv(s) && s.host != GaveUp && |pieces| >= Work(s) && forall i :: 0 <= i < |pieces| ==> Fair(pieces[i])
    ensures Inv(Run(s, Joined(pieces))) && Terminated(Run(s, Joined(pieces))) && Run(s, Joined(pieces)).host != GaveUp
    decreases |pieces|
  {
    hide Inv, FirmwareStep, HostStep, Work, Terminated;
    WorkBound(s);
    NoDeadlock(s);
    if pieces == [] {
      FirmwareStepInv(s);
      HostStepInv(s);
      WorkBound(FirmwareStep(s));
      WorkBound(HostStep(s));
    } else {
      var first, rest := pieces[0], Joined(pieces[1..]);
      RunAppend(s, first, rest);
      StretchWorks(s, first);
      var r := Run(s, first);
      if Terminated(s) {
        NoTimeouts(pieces[1..]);
        StretchWorks(r, rest);
      } else {
        assert Step(s, FirmwareTurn) == FirmwareStep(s) && Step(s, HostTurn) == HostStep(s);
        assert Work(r) < Work(s);
        FairRunTerminates(r, pieces[1..]);
      }
    }
  }

  lemma {:induction false} NoTimeouts(pieces: seq<seq<Turn>>)
    requires forall i :: 0 <= i < |pieces| ==> Fair(pieces[i])
    ensures HostTimeout !in Joined(pieces)
  {
    if pieces != [] { NoTimeouts(pieces[1..]); }
  }

  /** Every log with a terminal message is received up to it, and its result reported, under any fair turns. */
  lemma TrainingCompletes(log: seq<Message>, t: nat, pieces: seq<seq<Turn>>)
    requires t < |log| && Terminal(log[t])
    requires forall i :: 0 <= i <= t ==> WellFormed(log[i])
    requires forall i :: 0 <= i < t ==> !Terminal(log[i])
    requires |pieces| >= 11 * |Encode(log)| && forall i :: 0 <= i < |pieces| ==> Fair(pieces[i])
    ensures
      var r := Run(Start(Encode(log)), Joined(pieces));
      r.host == Done && r.mode == Finished(log[t].code % TWO_16 == TRAINING_SUCCESS)
  {
    var s := Start(Encode(log));
    StartInv(Encode(log));
    FairRunTerminates(s, pieces);
    RunSafe(s, Joined(pieces));
    StopsThere(log, t, Run(s, Joined(pieces)));
  }

  // ---- In words and numbers

  /** Of the first words of messages the low half, of all others the whole word. */
  ghost predicate ReadOf(words: seq<uint32>, starts: seq<nat>, received: seq<uint32>) {
    |received| <= |words| &&
    forall i :: 0 <= i < |received| ==> received[i] == if i in starts then words[i] % 0x1_0000 else words[i]
  }

  lemma ReceivedIs(words: seq<uint32>, starts: seq<nat>, r: State)
    requires Starts(words, starts) && Delivered(r) && r.script == words && |r.received| <= starts[|starts| - 1] + 1
    ensures ReadOf(words, starts, r.received)
  {
    hide ModeAfter, After;
    var t := |starts| - 1;
    AtStart(words, starts, t);
    assert starts == starts[..t] + [starts[t]];
    forall i | 0 <= i < |r.received|
      ensures r.received[i] == if i in starts then words[i] % 0x1_0000 else words[i]
    {
      assert ModeAfter(words[..i]).Major? <==> i in starts;
    }
  }

  /** Where a run over a log of words stands relative to the word that ends it. */
  lemma StandsThere(words: seq<uint32>, starts: seq<nat>, r: State)
    requires Starts(words, starts) && Inv(r) && r.script == words
    ensures
      var last := starts[|starts| - 1];
      && |r.received| <= last + 1 && (r.host == Done <==> |r.received| == last + 1)
      && (r.host == Done ==> r.mode == Finished(words[last] % 0x1_0000 == 7))
      && ReadOf(words, starts, r.received)
  {
    hide ModeAfter, After, Registers, InStep, ReadOf;
    var last := starts[|starts| - 1];
    ReadsToEnd(words, starts);
    var end := ModeAfter(words[..last + 1]);
    assert |r.received| <= last + 1;
    ReceivedIs(words, starts, r);
  }

  /**
   * In every interleaving: the host has received the words of the log in order, of a
   * message's first word its low half and of the others all, and it stops exactly at
   * the word that ends the log, with success if its low half is 7.
   */
  lemma OutcomeByWords(words: seq<uint32>, starts: seq<nat>, turns: seq<Turn>)
    requires Starts(words, starts)
    ensures
      var r, last := Run(Start(words), turns), starts[|starts| - 1];
      && |r.received| <= last + 1 && (r.host == Done <==> |r.received| == last + 1)
      && (r.host == Done ==> r.mode == Finished(words[last] % 0x1_0000 == 7))
      && ReadOf(words, starts, r.received)
  {
    hide Inv, Starts;
    StartInv(words);
    RunSafe(Start(words), turns);
    StandsThere(words, starts, Run(Start(words), turns));
  }

  /** And under fair turns it gets there. */
  lemma CompletesByWords(words: seq<uint32>, starts: seq<nat>, pieces: seq<seq<Turn>>)
    requires Starts(words, starts)
    requires |pieces| >= 11 * |words| && forall i :: 0 <= i < |pieces| ==> Fair(pieces[i])
    ensures
      var r, last := Run(Start(words), Joined(pieces)), starts[|starts| - 1];
      r.host == Done && r.mode == Finished(words[last] % 0x1_0000 == 7) && |r.received| == last + 1
  {
    var s := Start(words);
    StartInv(words);
    FairRunTerminates(s, pieces);
    RunSafe(s, Joined(pieces));
    StandsThere(words, starts, Run(s, Joined(pieces)));
  }
}
