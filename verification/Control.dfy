/**
 * Control transfers on endpoint 0: how the device core drives the data stage
 * from completion to completion until the status stage.  `avoidSplit` is the
 * build option that leaves the splitting into packets to the controller.  The
 * controller does that anyway: it is programmed with the whole of a transfer, and
 * the theorems about the wire say when the core's own splitting fits it.
 */
module Control {
  import opened Bytes

  datatype Stage = Setup | DataIn | DataOut | StatusIn | StatusOut

  /**
   * The fields of the endpoint the stage uses; `dataLen` is wLength of the request; `armed` lists
   * the transfer lengths programmed so far.
   */
  datatype Pipe = Pipe(stage: Stage, dataLen: nat, total: nat, rem: nat, armed: seq<nat>)

  function TransmitEp0(p: Pipe, len: nat, avoidSplit: bool): Pipe {
    Pipe(if len != 0 then DataIn else StatusIn, p.dataLen, len, if avoidSplit then 0 else len, p.armed + [len])
  }

  function ReceiveEp0(p: Pipe, len: nat, avoidSplit: bool): Pipe {
    Pipe(if len != 0 then DataOut else StatusOut, p.dataLen, len, if avoidSplit then 0 else len, p.armed + [len])
  }

  /** A zero-length packet is due: the data filled its last packet and the host asked for more. */
  predicate NeedsZlp(p: Pipe, mps: nat)
    requires mps > 0
  {
    p.total % mps == 0 && mps <= p.total < p.dataLen
  }

  /** usb_core_data_in on endpoint 0.  Receives armed beside the data only prepare for an early status stage. */
  function OnDataIn(p: Pipe, mps: nat): Pipe
    requires mps > 0
  {
    if p.stage != DataIn then p
    else if p.rem > mps then p.(rem := p.rem - mps, armed := p.armed + [p.rem - mps])
    else if NeedsZlp(p, mps) then p.(dataLen := 0, armed := p.armed + [0])
    else p.(stage := StatusOut)
  }

  /** usb_core_data_out on endpoint 0. */
  function OnDataOut(p: Pipe, mps: nat): Pipe
    requires mps > 0
  {
    if p.stage != DataOut then p
    else if p.rem > mps then p.(rem := p.rem - mps, armed := p.armed + [Min(p.rem - mps, mps)])
    else p.(stage := StatusIn)
  }

  function DataIns(p: Pipe, mps: nat, k: nat): Pipe
    requires mps > 0
    decreases k
  {
    if k == 0 then p else DataIns(OnDataIn(p, mps), mps, k - 1)
  }

  function DataOuts(p: Pipe, mps: nat, k: nat): Pipe
    requires mps > 0
    decreases k
  {
    if k == 0 then p else DataOuts(OnDataOut(p, mps), mps, k - 1)
  }

  // ---- The packets a data stage must consist of (USB 2.0, section 8.5.3)

  /** `n` bytes in full packets and a last one of 1 to `mps` bytes. */
  function Packets(n: nat, mps: nat): (s: seq<nat>)
    requires n > 0 && mps > 0
    ensures |s| > 0
  {
    if n <= mps then [n] else [mps] + Packets(n - mps, mps)
  }

  function Sum(s: seq<nat>): nat {
    if s == [] then 0 else s[0] + Sum(s[1..])
  }

  /** The lengths still to go at each packet: what is programmed each time. */
  function Remainders(n: nat, mps: nat): (s: seq<nat>)
    requires n > 0 && mps > 0
    ensures |s| == |Packets(n, mps)|
  {
    if n <= mps then [n] else [n] + Remainders(n - mps, mps)
  }

  lemma DivIs(n: nat, mps: nat, q: nat, r: nat)
    requires 0 <= r < mps && n == mps * q + r
    ensures n / mps == q && n % mps == r
  {
    var d: int := q - n / mps;
    assert mps * d == n % mps - r;
    assert d >= 1 ==> mps * d >= mps;
    assert d <= -1 ==> mps * d <= 0 - mps;
  }

  lemma DivStep(n: nat, mps: nat)
    requires mps > 0 && n >= mps
    ensures n / mps == (n - mps) / mps + 1 && n % mps == (n - mps) % mps
  {
    var q, r := (n - mps) / mps, (n - mps) % mps;
    assert mps * (q + 1) == mps * q + mps;
    DivIs(n, mps, q + 1, r);
  }

  /** There are n / mps of them, rounded up; they are n bytes; all are full but perhaps the last. */
  lemma {:induction false} PacketsAre(n: nat, mps: nat)
    requires n > 0 && mps > 0
    ensures
      var s := Packets(n, mps);
      |s| == (n + mps - 1) / mps && Sum(s) == n &&
      (forall i :: 0 <= i < |s| - 1 ==> s[i] == mps) && 0 < s[|s| - 1] <= mps &&
      (s[|s| - 1] == mps <==> n % mps == 0)
  {
    if n > mps {
      PacketsAre(n - mps, mps);
      DivStep(n + mps - 1, mps);
      DivStep(n, mps);
      assert n - mps + mps - 1 == n - 1;
      var s := Packets(n - mps, mps);
      assert Packets(n, mps) == [mps] + s;
      hide Packets;
      SumCons(mps, s);
    } else {
      OnlyPacket(n, mps);
    }
  }

  lemma SumCons(x: nat, s: seq<nat>)
    ensures Sum([x] + s) == x + Sum(s)
  {
    assert ([x] + s)[1..] == s;
  }

  lemma OnlyPacket(n: nat, mps: nat)
    requires 0 < n <= mps
    ensures (n + mps - 1) / mps == 1 && Sum([n]) == n && (n == mps <==> n % mps == 0)
  {
    DivStep(n + mps - 1, mps);
    assert [n][1..] == [];
    if n == mps {
      DivStep(n, mps);
    }
  }

  /**
   * The lengths programmed would suit a controller that sends one packet of each
   * transfer and leaves the rest to the next.
   */
  lemma {:induction false} OnePacketEach(n: nat, mps: nat, i: nat)
    requires n > 0 && mps > 0 && i < |Packets(n, mps)|
    ensures Packets(n, mps)[i] == Min(Remainders(n, mps)[i], mps)
    decreases n
  {
    if i > 0 { OnePacketEach(n - mps, mps, i - 1); }
  }

  // ---- The IN data stage

  predicate Zlp(n: nat, mps: nat, asked: nat)
    requires mps > 0
  {
    n % mps == 0 && n < asked
  }

  /** From a state with `rem` bytes to go: the rest of the stage. */
  lemma {:induction false} RestOfStage(p: Pipe, mps: nat, k: nat)
    requires mps > 0 && p.stage == DataIn && 0 < p.rem <= p.total && p.total % mps == p.rem % mps
    ensures
      var packets := |Packets(p.rem, mps)|;
      var z := if Zlp(p.total, mps, p.dataLen) then 1 else 0;
      (k < packets + z ==> DataIns(p, mps, k).stage == DataIn) &&
      (k >= packets + z ==>
         DataIns(p, mps, k) == Pipe(StatusOut, if z == 1 then 0 else p.dataLen, p.total, DataIns(p, mps, k).rem,
                                    p.armed + Remainders(p.rem, mps)[1..] + Zero(z)))
    decreases k
  {
    var q := OnDataIn(p, mps);
    if p.rem <= mps {
      LastPacket(p, mps, k);
    } else if k > 0 {
      DivStep(p.rem, mps);
      OnePacketOn(p, q, mps, k);
      hide DataIns, Packets, Remainders, OnDataIn, Zlp;
      RestOfStage(q, mps, k - 1);
    }
  }

  /** A packet that is not the last: one completion nearer, one transfer more. */
  lemma OnePacketOn(p: Pipe, q: Pipe, mps: nat, k: nat)
    requires mps > 0 && p.stage == DataIn && p.rem > mps && q == OnDataIn(p, mps) && k > 0
    ensures q.stage == DataIn && q.rem == p.rem - mps && q.total == p.total && q.dataLen == p.dataLen
    ensures |Packets(p.rem, mps)| == 1 + |Packets(q.rem, mps)| && DataIns(p, mps, k) == DataIns(q, mps, k - 1)
    ensures q.armed + Remainders(q.rem, mps)[1..] == p.armed + Remainders(p.rem, mps)[1..]
  {
    RemaindersOn(p.rem, mps);
    hide Packets, Remainders;
    Rejoin(p.armed, Remainders(q.rem, mps));
  }

  lemma RemaindersOn(n: nat, mps: nat)
    requires n > mps > 0
    ensures Remainders(n, mps)[1..] == Remainders(n - mps, mps) && Remainders(n - mps, mps)[0] == n - mps
    ensures |Packets(n, mps)| == 1 + |Packets(n - mps, mps)| && |Remainders(n - mps, mps)| > 0
  {
    assert Packets(n, mps) == [mps] + Packets(n - mps, mps);
    hide Packets;
    assert Remainders(n, mps) == [n] + Remainders(n - mps, mps);
  }

  lemma Rejoin(a: seq<nat>, rest: seq<nat>)
    requires rest != []
    ensures a + [rest[0]] + rest[1..] == a + rest
  {
  }

  /** The zero-length packet, if there is one. */
  function Zero(z: nat): seq<nat> {
    if z == 0 then [] else [0]
  }

  lemma Stays(p: Pipe, mps: nat, k: nat)
    requires mps > 0 && p.stage == StatusOut
    ensures DataIns(p, mps, k) == p
  {
  }

  lemma LastPacket(p: Pipe, mps: nat, k: nat)
    requires mps > 0 && p.stage == DataIn && p.rem <= mps && p.total > 0
    ensures
      var z := if Zlp(p.total, mps, p.dataLen) then 1 else 0;
      (k < 1 + z ==> DataIns(p, mps, k).stage == DataIn) &&
      (k >= 1 + z ==>
         DataIns(p, mps, k) == Pipe(StatusOut, if z == 1 then 0 else p.dataLen, p.total, p.rem, p.armed + Zero(z)))
  {
    var q := OnDataIn(p, mps);
    assert p.total % mps == 0 ==> p.total >= mps;
    if Zlp(p.total, mps, p.dataLen) {
      assert q == p.(dataLen := 0, armed := p.armed + [0]) && Zero(1) == [0];
      if k >= 2 { Stays(OnDataIn(q, mps), mps, k - 2); }
    } else {
      assert p.armed + Zero(0) == p.armed;
      if k >= 1 { Stays(q, mps, k - 1); }
    }
  }

  /**
   * The IN data stage of any length and any packet size: the status stage is reached
   * after exactly one completion a packet, and one more for a zero-length packet,
   * which is sent if and only if the data fills its last packet and is less than
   * what was asked for.  What is programmed is the data's remaining length each time.
   */
  lemma InDataStage(p: Pipe, n: nat, mps: nat, k: nat)
    requires n > 0 && mps > 0
    ensures
      var z := if Zlp(n, mps, p.dataLen) then 1 else 0;
      var end := DataIns(TransmitEp0(p, n, false), mps, k);
      (k < (n + mps - 1) / mps + z ==> end.stage == DataIn) &&
      (k >= (n + mps - 1) / mps + z ==>
         end.stage == StatusOut && end.armed == p.armed + Remainders(n, mps) + Zero(z))
  {
    hide DataIns;
    PacketsAre(n, mps);
    RestOfStage(TransmitEp0(p, n, false), mps, k);
    assert Remainders(n, mps) == [n] + Remainders(n, mps)[1..];
    assert p.armed + [n] + Remainders(n, mps)[1..] == p.armed + Remainders(n, mps);
  }

  /** With splitting left to the controller there is one completion for all the data. */
  lemma WholeDataStage(p: Pipe, n: nat, mps: nat, k: nat)
    requires n > 0 && mps > 0
    ensures
      var z := if Zlp(n, mps, p.dataLen) then 1 else 0;
      var end := DataIns(TransmitEp0(p, n, true), mps, k);
      (k < 1 + z ==> end.stage == DataIn) &&
      (k >= 1 + z ==> end.stage == StatusOut && end.armed == p.armed + [n] + Zero(z))
  {
    LastPacket(TransmitEp0(p, n, true), mps, k);
  }

  // ---- What goes over the wire

  /** A programmed transfer is sent whole: in packets, or as one packet without data. */
  function Sent(len: nat, mps: nat): (s: seq<nat>)
    requires mps > 0
    ensures |s| > 0
  {
    if len == 0 then [0] else Packets(len, mps)
  }

  function Wire(armed: seq<nat>, mps: nat): seq<nat>
    requires mps > 0
  {
    if armed == [] then [] else Sent(armed[0], mps) + Wire(armed[1..], mps)
  }

  /** The bytes of these transfers, each taken from the start of the same buffer. */
  function Payload<T>(armed: seq<nat>, buf: seq<T>): seq<T>
    requires forall i :: 0 <= i < |armed| ==> armed[i] <= |buf|
  {
    if armed == [] then [] else buf[..armed[0]] + Payload(armed[1..], buf)
  }

  /** The transfers a stage has programmed so far, for a stage that started at `p`. */
  function Programmed(p: Pipe, n: nat, mps: nat, avoidSplit: bool, k: nat): (s: seq<nat>)
    requires mps > 0
  {
    var armed := DataIns(TransmitEp0(p, n, avoidSplit), mps, k).armed;
    if |p.armed| <= |armed| then armed[|p.armed|..] else []
  }

  ghost predicate Finished(p: Pipe, n: nat, mps: nat, avoidSplit: bool, k: nat)
    requires mps > 0
  {
    DataIns(TransmitEp0(p, n, avoidSplit), mps, k).stage == StatusOut
  }

  lemma ProgrammedIs(p: Pipe, n: nat, mps: nat, avoidSplit: bool, k: nat)
    requires n > 0 && mps > 0 && Finished(p, n, mps, avoidSplit, k)
    ensures Programmed(p, n, mps, avoidSplit, k)
         == (if avoidSplit then [n] else Remainders(n, mps)) + Zero(if Zlp(n, mps, p.dataLen) then 1 else 0)
  {
    hide DataIns, Remainders;
    if avoidSplit {
      WholeDataStage(p, n, mps, k);
    } else {
      InDataStage(p, n, mps, k);
    }
  }

  lemma {:induction false} SumAppend(a: seq<nat>, b: seq<nat>)
    ensures Sum(a + b) == Sum(a) + Sum(b)
  {
    if a == [] {
      assert a + b == b;
    } else {
      assert (a + b)[1..] == a[1..] + b;
      SumAppend(a[1..], b);
    }
  }

  /** As many bytes go over the wire as were programmed. */
  lemma {:induction false} WireSum(armed: seq<nat>, mps: nat)
    requires mps > 0
    ensures Sum(Wire(armed, mps)) == Sum(armed)
  {
    hide Packets;
    if armed != [] {
      SumAppend(Sent(armed[0], mps), Wire(armed[1..], mps));
      WireSum(armed[1..], mps);
      if armed[0] > 0 {
        PacketsAre(armed[0], mps);
      } else {
        assert [0][1..] == [];
      }
    }
  }

  lemma {:induction false} PayloadLength<T>(armed: seq<nat>, buf: seq<T>)
    requires forall i :: 0 <= i < |armed| ==> armed[i] <= |buf|
    ensures |Payload(armed, buf)| == Sum(armed)
  {
    if armed != [] { PayloadLength(armed[1..], buf); }
  }

  lemma PayloadOnce<T>(buf: seq<T>, z: nat)
    requires z <= 1
    ensures Payload([|buf|] + Zero(z), buf) == buf
  {
    assert ([|buf|] + Zero(z))[1..] == Zero(z);
    assert buf[..|buf|] == buf;
    assert Payload(Zero(z), buf) == [] by { if z == 1 { assert Zero(1)[1..] == []; } }
  }

  /**
   * The core's splitting programs the remainder again with every packet: more than
   * the data unless there is one packet.
   */
  lemma SplitSum(n: nat, mps: nat, z: nat)
    requires n > 0 && mps > 0 && z <= 1
    ensures Sum(Remainders(n, mps) + Zero(z)) >= n
    ensures Sum(Remainders(n, mps) + Zero(z)) == n <==> n <= mps
    ensures forall i :: 0 <= i < |Remainders(n, mps)| ==> Remainders(n, mps)[i] <= n
  {
    SumAppend(Remainders(n, mps), Zero(z));
    RemaindersBound(n, mps);
    if n > mps {
      assert Remainders(n, mps)[1..] == Remainders(n - mps, mps);
      RemaindersBound(n - mps, mps);
    } else {
      assert [n][1..] == [];
    }
  }

  lemma {:induction false} RemaindersBound(n: nat, mps: nat)
    requires n > 0 && mps > 0
    ensures Sum(Remainders(n, mps)) >= n
    ensures forall i :: 0 <= i < |Remainders(n, mps)| ==> Remainders(n, mps)[i] <= n
    decreases n
  {
    if n > mps {
      RemaindersBound(n - mps, mps);
      assert Remainders(n, mps)[1..] == Remainders(n - mps, mps);
    }
  }

  /** One transfer of the data, and the packet without data if there is one. */
  lemma WholeOnWire(n: nat, mps: nat, z: nat)
    requires n > 0 && mps > 0 && z <= 1
    ensures Wire([n] + Zero(z), mps) == Packets(n, mps) + Zero(z)
  {
    hide Packets;
    assert ([n] + Zero(z))[1..] == Zero(z);
    assert Wire(Zero(z), mps) == Zero(z) by { if z == 1 { assert Zero(1)[1..] == []; } }
  }

  /**
   * What a finished IN data stage has put on the wire: the packets of the data, and
   * one without data where it is due, if and only if splitting is left to the
   * controller or the data is one packet.
   */
  lemma StageOnWire(p: Pipe, n: nat, mps: nat, avoidSplit: bool, k: nat)
    requires n > 0 && mps > 0 && Finished(p, n, mps, avoidSplit, k)
    ensures
      var z := if Zlp(n, mps, p.dataLen) then 1 else 0;
      Wire(Programmed(p, n, mps, avoidSplit, k), mps) == Packets(n, mps) + Zero(z) <==> avoidSplit || n <= mps
  {
    hide Packets, Wire, Programmed, Finished;
    var z := if Zlp(n, mps, p.dataLen) then 1 else 0;
    ProgrammedIs(p, n, mps, avoidSplit, k);
    if avoidSplit || n <= mps {
      WholeOnWire(n, mps, z);
    } else {
      hide Remainders;
      SplitSum(n, mps, z);
      WireSum(Remainders(n, mps) + Zero(z), mps);
      PacketsAre(n, mps);
      SumAppend(Packets(n, mps), Zero(z));
    }
  }

  /** And the host receives the data, not some of it twice, under the same condition. */
  lemma HostGetsData<T>(p: Pipe, mps: nat, avoidSplit: bool, k: nat, data: seq<T>)
    requires data != [] && mps > 0 && Finished(p, |data|, mps, avoidSplit, k)
    ensures
      var armed := Programmed(p, |data|, mps, avoidSplit, k);
      (forall i :: 0 <= i < |armed| ==> armed[i] <= |data|) &&
      (Payload(armed, data) == data <==> avoidSplit || |data| <= mps)
  {
    hide Programmed, Finished;
    var n := |data|;
    var z := if Zlp(n, mps, p.dataLen) then 1 else 0;
    ProgrammedIs(p, n, mps, avoidSplit, k);
    if avoidSplit || n <= mps {
      PayloadOnce(data, z);
    } else {
      hide Remainders;
      SplitSum(n, mps, z);
      PayloadLength(Remainders(n, mps) + Zero(z), data);
    }
  }

  /** A data stage of `n` bytes as the host reads it: it ends at a short packet, or with all that was asked for. */
  predicate EndsRight(s: seq<nat>, n: nat, mps: nat, asked: nat)
    requires mps > 0
  {
    && s != [] && Sum(s) == n && (forall i :: 0 <= i < |s| - 1 ==> s[i] == mps)
    && (s[|s| - 1] < mps <==> !(n == asked && n % mps == 0))
  }

  /**
   * The host can tell where the data ends (USB 2.0, section 8.5.3.2): every packet
   * before the last is full, the last is short unless the host got all it asked
   * for, and together they are the n bytes, if and only if splitting is left to the
   * controller or the data is one packet.
   */
  lemma HostSeesTheEnd(p: Pipe, n: nat, mps: nat, avoidSplit: bool, k: nat)
    requires 0 < n <= p.dataLen && mps > 0 && Finished(p, n, mps, avoidSplit, k)
    ensures EndsRight(Wire(Programmed(p, n, mps, avoidSplit, k), mps), n, mps, p.dataLen) <==> avoidSplit || n <= mps
  {
    hide Wire, Packets, Programmed, Finished;
    var z := if Zlp(n, mps, p.dataLen) then 1 else 0;
    StageOnWire(p, n, mps, avoidSplit, k);
    PacketsAre(n, mps);
    SumAppend(Packets(n, mps), Zero(z));
    if !(avoidSplit || n <= mps) {
      ProgrammedIs(p, n, mps, avoidSplit, k);
      SplitSum(n, mps, z);
      WireSum(Remainders(n, mps) + Zero(z), mps);
    }
  }

  /** 65 bytes in packets of 64: the first transfer sends them all, and the second sends the first byte again. */
  lemma SplitSendsTwice(p: Pipe)
    requires p.dataLen == 65
    ensures Finished(p, 65, 64, false, 2) && Programmed(p, 65, 64, false, 2) == [65, 1]
    ensures Wire([65, 1], 64) == [64, 1, 1] && Packets(65, 64) == [64, 1]
  {
    var q := TransmitEp0(p, 65, false);
    var r := OnDataIn(q, 64);
    assert r == q.(rem := 1, armed := p.armed + [65] + [1]);
    assert OnDataIn(r, 64) == r.(stage := StatusOut);
    assert DataIns(q, 64, 2) == DataIns(r, 64, 1) == OnDataIn(r, 64);
    assert r.armed[|p.armed|..] == [65, 1];
    assert Packets(65, 64) == [64] + Packets(1, 64);
    assert [65, 1][1..] == [1] && [1][1..] == [];
  }

  /** Every completion brings the end of the data stage nearer, whatever the state. */
  function Rank(p: Pipe, mps: nat): nat
    requires mps > 0
  {
    match p.stage
    case DataIn => 1 + p.rem + (if NeedsZlp(p, mps) then 1 else 0)
    case DataOut => 1 + p.rem
    case _ => 0
  }

  lemma RankDecreases(p: Pipe, mps: nat)
    requires mps > 0
    ensures p.stage == DataIn ==> Rank(OnDataIn(p, mps), mps) < Rank(p, mps)
    ensures p.stage == DataOut ==> Rank(OnDataOut(p, mps), mps) < Rank(p, mps)
  {
  }

  // ---- The OUT data stage

  lemma {:induction false} RestOfOut(p: Pipe, mps: nat, k: nat)
    requires mps > 0 && p.stage == DataOut && p.rem > 0
    ensures k < |Packets(p.rem, mps)| ==> DataOuts(p, mps, k).stage == DataOut
    ensures k >= |Packets(p.rem, mps)| ==> DataOuts(p, mps, k).stage == StatusIn
    ensures k >= |Packets(p.rem, mps)| ==> DataOuts(p, mps, k).armed == p.armed + Packets(p.rem, mps)[1..]
    decreases k
  {
    var q := OnDataOut(p, mps);
    if p.rem > mps && k > 0 {
      RestOfOut(q, mps, k - 1);
      assert Packets(p.rem, mps)[1..] == Packets(q.rem, mps);
      assert q.armed + Packets(q.rem, mps)[1..] == p.armed + Packets(q.rem, mps) by {
        assert Packets(q.rem, mps) == [Min(q.rem, mps)] + Packets(q.rem, mps)[1..];
      }
    } else if k > 0 {
      StaysOut(q, mps, k - 1);
    }
  }

  lemma StaysOut(p: Pipe, mps: nat, k: nat)
    requires mps > 0 && p.stage == StatusIn
    ensures DataOuts(p, mps, k) == p
  {
  }

  /**
   * The OUT data stage: one completion a packet, then the status stage; after the first, single
   * packets are asked for.
   */
  lemma OutDataStage(p: Pipe, n: nat, mps: nat, k: nat)
    requires n > 0 && mps > 0
    ensures
      var end := DataOuts(ReceiveEp0(p, n, false), mps, k);
      (k < (n + mps - 1) / mps ==> end.stage == DataOut) &&
      (k >= (n + mps - 1) / mps ==>
         end.stage == StatusIn && end.armed == p.armed + [n] + Packets(n, mps)[1..])
  {
    PacketsAre(n, mps);
    RestOfOut(ReceiveEp0(p, n, false), mps, k);
  }

  /** It asks for all the bytes at first and for those behind the first packet again. */
  lemma OutAsksTwice(p: Pipe, n: nat, mps: nat, k: nat)
    requires n > 0 && mps > 0 && DataOuts(ReceiveEp0(p, n, false), mps, k).stage == StatusIn
    ensures
      var armed := DataOuts(ReceiveEp0(p, n, false), mps, k).armed;
      |armed| > |p.armed| && Sum(armed[|p.armed|..]) == n + (n - Min(n, mps))
  {
    hide DataOuts;
    OutDataStage(p, n, mps, k);
    PacketsAre(n, mps);
    var s := Packets(n, mps);
    assert s == [Min(n, mps)] + s[1..];
    hide Packets, Sum;
    SumCons(Min(n, mps), s[1..]);
    SumCons(n, s[1..]);
    assert DataOuts(ReceiveEp0(p, n, false), mps, k).armed[|p.armed|..] == [n] + s[1..];
  }

  // ---- The device core

  /** The fields of the device handle these functions work on. */
  class Core {
    const mps: nat
    const avoidSplit: bool
    var stage: Stage
    var dataLen: nat
    var totalLength: nat
    var remLength: nat
    var armed: seq<nat>

    constructor (maxPacket: nat, avoid: bool)
      requires maxPacket > 0
      ensures mps == maxPacket && avoidSplit == avoid && State() == Pipe(Setup, 0, 0, 0, [])
    {
      mps, avoidSplit := maxPacket, avoid;
      stage, dataLen, totalLength, remLength, armed := Setup, 0, 0, 0, [];
    }

    ghost function State(): Pipe
      reads this
    {
      Pipe(stage, dataLen, totalLength, remLength, armed)
    }

    /** The start of usb_core_setup_stage: wLength is the last little-endian word of the packet. */
    method SetupStage(packet: seq<byte>)
      requires |packet| == 8
      modifies this`stage, this`dataLen
      ensures State() == old(State()).(stage := Setup, dataLen := dataLen)
      ensures dataLen < TWO_16 && Le16(dataLen) == packet[6..]
      ensures dataLen == packet[6] as int + 256 * packet[7] as int
    {
      stage := Setup;
      dataLen := packet[6] as int + packet[7] as int * 0x100;
    }

    /** The end of usb_core_get_desc: no more of a descriptor than was asked for. */
    method GetDesc(len: nat)
      modifies this
      ensures State() ==
        if len != 0 && old(dataLen) != 0 then TransmitEp0(old(State()), Min(len, old(dataLen)), avoidSplit)
        else old(State())
    {
      if len != 0 && dataLen != 0 {
        StartIn(if len < dataLen then len else dataLen);
      }
    }

    /** usb_core_transmit_ep0 */
    method StartIn(len: nat)
      modifies this
      ensures State() == TransmitEp0(old(State()), len, avoidSplit)
    {
      stage := if len != 0 then DataIn else StatusIn;
      totalLength := len;
      remLength := if avoidSplit then 0 else len;
      armed := armed + [len];
    }

    /** usb_core_receive_ep0 */
    method StartOut(len: nat)
      modifies this
      ensures State() == ReceiveEp0(old(State()), len, avoidSplit)
    {
      stage := if len != 0 then DataOut else StatusOut;
      totalLength := len;
      remLength := if avoidSplit then 0 else len;
      armed := armed + [len];
    }

    method DataInDone()
      requires mps > 0
      modifies this
      ensures State() == OnDataIn(old(State()), mps)
    {
      if stage == DataIn {
        if remLength > mps {
          remLength := remLength - mps;
          armed := armed + [remLength];
        } else if totalLength % mps == 0 && totalLength >= mps && totalLength < dataLen {
          armed := armed + [0];
          dataLen := 0;
        } else {
          stage := StatusOut;
        }
      }
    }

    method DataOutDone()
      requires mps > 0
      modifies this
      ensures State() == OnDataOut(old(State()), mps)
    {
      if stage == DataOut {
        if remLength > mps {
          remLength := remLength - mps;
          armed := armed + [if remLength < mps then remLength else mps];
        } else {
          stage := StatusIn;
        }
      }
    }
  }
}
