/**
 * What the host finds on the wire, byte by byte: the fields of the wrappers and
 * replies of Bulk-Only Transport and of the SCSI commands are written out here as
 * positions and numbers, and nothing is taken from the code that reads them.
 */
module ScsiBytes {
  import opened Bytes
  import opened BulkOnly
  import opened BlockDevice
  import opened SdCard

  /** The commands a run from configuration has finished, and their status wrappers. */
  function Finished(d: Device, es: seq<Event>): seq<Done>
    requires Shape(d)
  {
    Run(Boot(d), es).log
  }

  function Statuses(d: Device, es: seq<Event>): seq<seq<byte>>
    requires Shape(d)
  {
    Run(Boot(d), es).csws
  }

  ghost predicate Start(d: Device, es: seq<Event>) {
    Shape(d) && CardFits(d) && Live(Configured(d), es)
  }

  // ---- One command after the other

  lemma {:induction false} HistoryAt(k0: Disk, log: seq<Done>, k: Disk, i: nat)
    requires History(k0, log, k) && i < |log|
    ensures Executed(log[i]) && log[i].before == (if i == 0 then k0 else log[i - 1].after)
    decreases |log|
  {
    hide Executed;
    if i < |log| - 1 {
      HistoryAt(k0, log[..|log| - 1], log[|log| - 1].before, i);
    } else if i > 0 {
      HistoryEnd(k0, log[..i], log[i].before);
    }
  }

  lemma HistoryEnd(k0: Disk, log: seq<Done>, k: Disk)
    requires History(k0, log, k) && log != []
    ensures log[|log| - 1].after == k
  {
  }

  /** Each command finds the card and the sense pair as the one before left them, the first as they were. */
  lemma OneAfterTheOther(d: Device, es: seq<Event>, i: nat)
    requires Start(d, es) && i < |Finished(d, es)|
    ensures Executed(Finished(d, es)[i]) && |Finished(d, es)[i].cbw| == 31
    ensures
      var before := Finished(d, es)[i].before;
      before == if i == 0 then Disk(d.card, d.senseKey, d.senseAsc) else Finished(d, es)[i - 1].after
  {
    hide Run, History, Inv, InCommand, Live, Executed;
    RunRefines(d, es);
    var s := Run(Boot(d), es);
    HistoryAt(DiskOf(d), s.log, if s.d.state == Idle then DiskOf(s.d) else s.current.before, i);
  }

  /**
   * Every finished command has one status wrapper of 13 bytes: the signature, the
   * four tag bytes of its own wrapper, a residue of zero and the status.
   */
  lemma {:induction false} StatusBytes(d: Device, es: seq<Event>, i: nat)
    requires Start(d, es) && i < |Finished(d, es)|
    ensures |Statuses(d, es)| == |Finished(d, es)| && |Finished(d, es)[i].cbw| == 31
    ensures
      var c := Finished(d, es)[i];
      Statuses(d, es)[i] == [0x55, 0x53, 0x42, 0x53] + c.cbw[4..8] + [0, 0, 0, 0] + [c.status]
  {
    hide Run, Boot, History, Inv, InCommand, Live, Configured;
    RunRefines(d, es);
    StatusImage(Finished(d, es)[i].cbw, Finished(d, es)[i].status);
  }

  lemma StatusImage(cbw: seq<byte>, status: byte)
    requires |cbw| == 31
    ensures CswImage(Tag(cbw), status) == [0x55, 0x53, 0x42, 0x53] + cbw[4..8] + [0, 0, 0, 0] + [status]
  {
    WordBack(cbw[4..8]);
    assert Le32(CSW_SIGNATURE) == [0x55, 0x53, 0x42, 0x53];
    assert Le32(0) == [0, 0, 0, 0];
  }

  lemma WordBack(s: seq<byte>)
    requires |s| == 4
    ensures Le32(FromLe32(s)) == s
  {
    var a, b, c, e := s[0] as int, s[1] as int, s[2] as int, s[3] as int;
    var v := FromLe32(s);
    assert v == a + 0x100 * (b + 0x100 * (c + 0x100 * e));
    assert v / 0x100 == b + 0x100 * (c + 0x100 * e);
    assert v / 0x100 / 0x100 == c + 0x100 * e;
  }

  // ---- The commands

  /** A wrapper that arrived with its 31 bytes and its signature. */
  predicate Sealed(c: Done)
    requires |c.cbw| == 31
  {
    c.whole && c.cbw[0] == 0x55 && c.cbw[1] == 0x53 && c.cbw[2] == 0x42 && c.cbw[3] == 0x43
  }

  /** READ(10): the blocks of the range, in order, and without an SD error nothing else. */
  ghost predicate ReadServed(c: Done)
    requires |c.cbw| == 31
  {
    var w, card := c.cbw, c.before.bytes;
    var lba := 0x100_0000 * w[17] as int + 0x1_0000 * w[18] as int + 0x100 * w[19] as int + w[20] as int;
    var cnt := 0x100 * w[22] as int + w[23] as int;
    Sealed(c) && w[15] == 0x28 ==>
      if cnt == 0 then c.status == 0 && c.got == [] && c.after == c.before
      else if 512 * (lba + cnt) > |card| then
        c.status == 1 && c.got == [] && c.after == Disk(card, 0x05, 0x21)
      else if c.status == 0 then
        c.got == card[512 * lba..512 * (lba + cnt)] && c.after == c.before && c.transfers == (cnt + 31) / 32
      else
        c.faulted && c.status == 1 && c.after == Disk(card, 0x04, 0x11) &&
        32 * c.transfers < cnt && c.got == card[512 * lba..512 * (lba + 32 * c.transfers)]
  }

  /** WRITE(10): exactly the range is replaced, by what was sent if no data phase was short. */
  ghost predicate WriteServed(c: Done)
    requires |c.cbw| == 31
  {
    var w := c.cbw;
    Sealed(c) && w[15] == 0x2A ==>
      Written(c, 0x100_0000 * w[17] as int + 0x1_0000 * w[18] as int + 0x100 * w[19] as int + w[20] as int,
              0x100 * w[22] as int + w[23] as int)
  }

  ghost predicate Written(c: Done, lba: nat, cnt: nat) {
    var card := c.before.bytes;
    c.got == [] && (!c.short ==> c.out == c.sent) &&
    if cnt == 0 then c.status == 0 && c.after == c.before
    else if 512 * (lba + cnt) > |card| then c.status == 1 && c.after == Disk(card, 0x05, 0x21)
    else if c.status == 0 then
      |c.out| == 512 * cnt && c.transfers == (cnt + 31) / 32 &&
      c.after == c.before.(bytes := card[..512 * lba] + c.out + card[512 * (lba + cnt)..])
    else
      c.faulted && c.status == 1 && c.after.senseKey == 0x04 && c.after.senseAsc == 0x03 &&
      1 <= c.transfers && 32 * (c.transfers - 1) < cnt && |c.after.bytes| == |card| &&
      16384 * (c.transfers - 1) <= |c.out| &&
      c.after.bytes[..512 * (lba + 32 * (c.transfers - 1))]
        == card[..512 * lba] + c.out[..16384 * (c.transfers - 1)] &&
      c.after.bytes[512 * (lba + cnt)..] == card[512 * (lba + cnt)..]
  }

  function Ascii(s: string): (r: seq<byte>)
    requires forall k :: 0 <= k < |s| ==> s[k] < 0x80 as char
    ensures |r| == |s|
  {
    seq(|s|, k requires 0 <= k < |s| => s[k] as int)
  }

  /** The bytes of a number, most significant first. */
  function Word(n: nat): (s: seq<byte>)
    requires n < TWO_32
    ensures |s| == 4
  {
    [n / 0x100_0000, n / 0x1_0000 % 0x100, n / 0x100 % 0x100, n % 0x100]
  }

  /** The commands that reply with data, cut to the length in the wrapper, and leave the card alone. */
  ghost predicate Replied(c: Done)
    requires |c.cbw| == 31
  {
    var w, k := c.cbw, c.before;
    var room := w[8] as int + 0x100 * w[9] as int + 0x1_0000 * w[10] as int + 0x100_0000 * w[11] as int;
    var blocks := |k.bytes| / 512;
    Sealed(c) ==>
      && (w[15] == 0x12 ==>
            RepliesWith([0, 0x80, 2, 2, 31, 0, 0, 0] + Ascii("STM32MP2FSBL SD card    1.0 "), room, c, k))
      && (w[15] == 0x25 ==>
            RepliesWith(Word(if blocks == 0 then 0xFFFF_FFFF else (blocks - 1) % TWO_32) + [0, 0, 2, 0], room, c, k))
      && (w[15] == 0x23 ==> RepliesWith([0, 0, 0, 8] + Word(blocks % TWO_32) + [2, 0, 2, 0], room, c, k))
      && (w[15] == 0x1A ==> RepliesWith([3, 0, 0, 0], room, c, k))
      && (w[15] == 0x03 ==>
            RepliesWith([0x70, 0, k.senseKey, 0, 0, 0, 0, 10, 0, 0, 0, 0, k.senseAsc, 0, 0, 0, 0, 0], room, c,
                  Disk(k.bytes, 0, 0)))
  }

  predicate RepliesWith(data: seq<byte>, room: nat, c: Done, after: Disk) {
    c.status == 0 && c.got == data[..Min(|data|, room)] && c.after == after && c.transfers <= 1
  }

  /** All others: three commands that only succeed, unknown ones, and wrappers that are none. */
  ghost predicate Answered(c: Done)
    requires |c.cbw| == 31
  {
    var op, k := c.cbw[15], c.before;
    if !Sealed(c) then c.status == 1 && c.got == [] && c.after == Disk(k.bytes, 0x05, 0x24)
    else if op == 0x00 || op == 0x1B || op == 0x1E then c.status == 0 && c.got == [] && c.after == k
    else if op in {0x12, 0x25, 0x23, 0x1A, 0x03, 0x28, 0x2A} then true
    else c.status == 1 && c.got == [] && c.after == Disk(k.bytes, 0x05, 0x20)
  }

  // ---- They are the commands of the reference device

  lemma FieldsAre(w: seq<byte>)
    requires |w| == 31
    ensures Lba(w) == 0x100_0000 * w[17] as int + 0x1_0000 * w[18] as int + 0x100 * w[19] as int + w[20] as int
    ensures Count(w) == 0x100 * w[22] as int + w[23] as int && Opcode(w) == w[15]
    ensures DataLength(w)
         == w[8] as int + 0x100 * w[9] as int + 0x1_0000 * w[10] as int + 0x100_0000 * w[11] as int
    ensures Signature(w) == CBW_SIGNATURE <==> w[0] == 0x55 && w[1] == 0x53 && w[2] == 0x42 && w[3] == 0x43
  {
    assert w[17..21] == [w[17], w[18], w[19], w[20]];
    assert w[8..12] == [w[8], w[9], w[10], w[11]];
    SignatureIs(w);
  }

  lemma SignatureIs(w: seq<byte>)
    requires |w| == 31
    ensures Signature(w) == CBW_SIGNATURE <==> w[0] == 0x55 && w[1] == 0x53 && w[2] == 0x42 && w[3] == 0x43
  {
    var s := w[0..4];
    assert s == [w[0], w[1], w[2], w[3]];
    WordBack(s);
    assert Le32(0x4342_5355) == [0x55, 0x53, 0x42, 0x43];
  }

  lemma ReadIs(c: Done)
    requires Executed(c)
    ensures ReadServed(c)
  {
    hide FromLe32, FromBe32, SenseData, InquiryData, Le32, Be32;
    FieldsAre(c.cbw);
    hide Lba, Count, DataLength, Opcode, Signature;
  }

  lemma WriteIs(c: Done)
    requires Executed(c)
    ensures WriteServed(c)
  {
    hide Lba, Count, DataLength, Opcode, Signature, Executed, Written, FromLe32, FromBe32;
    Length(c);
    FieldsAre(c.cbw);
    if Sealed(c) && c.cbw[15] == 0x2A {
      WrittenIs(c, Lba(c.cbw), Count(c.cbw));
    }
  }

  lemma Length(c: Done)
    requires Executed(c)
    ensures |c.cbw| == 31
  {
  }

  lemma WrittenIs(c: Done, lba: nat, cnt: nat)
    requires Executed(c) && c.whole && Signature(c.cbw) == CBW_SIGNATURE && Opcode(c.cbw) == 0x2A
    requires lba == Lba(c.cbw) && cnt == Count(c.cbw)
    ensures Written(c, lba, cnt)
  {
    hide Lba, Count, DataLength, Opcode, Signature, Executed, Execute, MovesBlocks, WriteDone, Written;
    Length(c);
    WriteExecuted(c);
    InRangeIs(c.before, c.cbw);
    if !MovesBlocks(c.before, c.cbw) {
      NotMoved(c, lba, cnt);
    } else if c.status != 0 {
      WriteFault(c, lba, cnt);
    } else {
      WriteWhole(c, lba, cnt);
    }
  }

  lemma WriteExecuted(c: Done)
    requires Executed(c) && c.whole && Signature(c.cbw) == CBW_SIGNATURE && Opcode(c.cbw) == 0x2A
    ensures !c.short ==> c.out == c.sent
    ensures MovesBlocks(c.before, c.cbw) ==> WriteDone(c) && c.got == []
    ensures !MovesBlocks(c.before, c.cbw) ==> Execute(c.before, c.cbw) == (c.after, Reply(c.got, c.status))
  {
    hide Lba, Count, Signature;
  }

  lemma InRangeIs(k: Disk, w: seq<byte>)
    requires |w| == 31 && Opcode(w) == 0x2A
    ensures MovesBlocks(k, w) <==> Count(w) != 0 && 512 * (Lba(w) + Count(w)) <= |k.bytes|
  {
    hide Lba, Count;
  }

  lemma NotMoved(c: Done, lba: nat, cnt: nat)
    requires |c.cbw| == 31 && Opcode(c.cbw) == 0x2A && lba == Lba(c.cbw) && cnt == Count(c.cbw)
    requires (!c.short ==> c.out == c.sent) && !MovesBlocks(c.before, c.cbw)
    requires Execute(c.before, c.cbw) == (c.after, Reply(c.got, c.status))
    ensures Written(c, lba, cnt)
  {
    hide Lba, Count, DataLength;
  }

  /** A write that failed: the chunks before the last one are on the card, and behind the range nothing changed. */
  lemma WriteFault(c: Done, lba: nat, cnt: nat)
    requires |c.cbw| == 31 && MovesBlocks(c.before, c.cbw) && WriteDone(c) && c.status != 0
    requires lba == Lba(c.cbw) && cnt == Count(c.cbw) && (!c.short ==> c.out == c.sent) && c.got == []
    ensures Written(c, lba, cnt)
  {
    hide Lba, Count, Opcode, Splice;
    var m: nat, residue: seq<byte> :|
      && CHUNK_BLOCKS * m < cnt && c.transfers == m + 1
      && |residue| == BLOCK * Min(cnt - CHUNK_BLOCKS * m, CHUNK_BLOCKS)
      && |c.out| == BLOCK * CHUNK_BLOCKS * m + |residue|
      && c.after.bytes == Splice(c.before.bytes, BLOCK * lba, c.out[..BLOCK * CHUNK_BLOCKS * m] + residue);
    FaultIs(c, lba, cnt, m, residue);
  }

  lemma FaultIs(c: Done, lba: nat, cnt: nat, m: nat, residue: seq<byte>)
    requires c.got == [] && (!c.short ==> c.out == c.sent) && cnt > 0 && 512 * (lba + cnt) <= |c.before.bytes|
    requires c.faulted && c.status == 1 && c.after.senseKey == 0x04 && c.after.senseAsc == 0x03
    requires 32 * m < cnt && c.transfers == m + 1 && |residue| <= 512 * (cnt - 32 * m)
    requires |c.out| == 16384 * m + |residue|
    requires c.after.bytes == Splice(c.before.bytes, 512 * lba, c.out[..16384 * m] + residue)
    ensures Written(c, lba, cnt)
  {
    SpliceKeeps(c.before.bytes, 512 * lba, c.out[..16384 * m], residue, 512 * (lba + cnt));
    hide Splice;
    assert 512 * lba + |c.out[..16384 * m]| == 512 * (lba + 32 * m);
  }

  lemma SpliceKeeps(s: seq<byte>, at: nat, kept: seq<byte>, residue: seq<byte>, end: nat)
    requires at + |kept| + |residue| <= end <= |s|
    ensures
      var r := Splice(s, at, kept + residue);
      r[..at + |kept|] == s[..at] + kept && r[end..] == s[end..] && |r| == |s|
  {
    var r := Splice(s, at, kept + residue);
    assert r == s[..at] + kept + residue + s[at + |kept| + |residue|..];
    assert |s[..at] + kept| == at + |kept|;
  }

  lemma WriteWhole(c: Done, lba: nat, cnt: nat)
    requires |c.cbw| == 31 && MovesBlocks(c.before, c.cbw) && WriteDone(c) && c.status == 0
    requires lba == Lba(c.cbw) && cnt == Count(c.cbw) && (!c.short ==> c.out == c.sent) && c.got == []
    ensures Written(c, lba, cnt)
  {
    hide Lba, Count, Opcode;
  }

  lemma WordIs(n: uint32)
    ensures Be32(n) == Word(n)
  {
  }

  lemma InquiryIs()
    ensures InquiryData() == [0, 0x80, 2, 2, 31, 0, 0, 0] + Ascii("STM32MP2FSBL SD card    1.0 ")
  {
  }

  lemma RepliesAre(c: Done)
    requires Executed(c)
    ensures Replied(c)
  {
    var blocks := |c.before.bytes| / 512;
    FieldsAre(c.cbw);
    InquiryIs();
    WordIs(blocks % TWO_32);
    WordIs(if blocks == 0 then 0xFFFF_FFFF else (blocks - 1) % TWO_32);
    hide Lba, Count, DataLength, Opcode, Signature, FromLe32, FromBe32, InquiryData, Le32, Be32, Word, Ascii;
  }

  lemma AnswersAre(c: Done)
    requires Executed(c)
    ensures Answered(c)
  {
    hide FromLe32, FromBe32, SenseData, InquiryData, Le32, Be32;
    FieldsAre(c.cbw);
    hide Lba, Count, DataLength, Opcode, Signature;
  }

  /**
   * Over every run each finished command is what its 31 bytes ask for, on the card
   * and the sense pair the command before it left.
   */
  lemma CommandServed(d: Device, es: seq<Event>, i: nat)
    requires Start(d, es) && i < |Finished(d, es)|
    ensures |Finished(d, es)[i].cbw| == 31
    ensures
      var c := Finished(d, es)[i];
      ReadServed(c) && WriteServed(c) && Replied(c) && Answered(c)
    ensures
      var before := Finished(d, es)[i].before;
      before == if i == 0 then Disk(d.card, d.senseKey, d.senseAsc) else Finished(d, es)[i - 1].after
  {
    hide Executed, ReadServed, WriteServed, Replied, Answered, Finished;
    OneAfterTheOther(d, es, i);
    var c := Finished(d, es)[i];
    ReadIs(c);
    WriteIs(c);
    RepliesAre(c);
    AnswersAre(c);
  }

  /** The main case in one statement: without an SD error, whatever came before, a READ(10) brings the card's bytes. */
  lemma ReadDelivers(d: Device, es: seq<Event>, i: nat, lba: nat, cnt: nat)
    requires Start(d, es) && i < |Finished(d, es)|
    requires
      var c := Finished(d, es)[i];
      var w := c.cbw;
      && |w| == 31 && c.whole && !c.faulted && w[..4] == [0x55, 0x53, 0x42, 0x43] && w[15] == 0x28
      && lba == 0x100_0000 * w[17] as int + 0x1_0000 * w[18] as int + 0x100 * w[19] as int + w[20] as int
      && cnt == 0x100 * w[22] as int + w[23] as int && 512 * (lba + cnt) <= |c.before.bytes|
    ensures
      var c := Finished(d, es)[i];
      c.status == 0 && c.after == c.before && c.got == c.before.bytes[512 * lba..512 * (lba + cnt)]
  {
    hide Finished;
    CommandServed(d, es, i);
    var w := Finished(d, es)[i].cbw;
    assert w[..4][0] == w[0] && w[..4][1] == w[1] && w[..4][2] == w[2] && w[..4][3] == w[3];
  }

  /** And a WRITE(10) whose data phases were full replaces exactly these bytes by what the host sent. */
  lemma WriteReplaces(d: Device, es: seq<Event>, i: nat, lba: nat, cnt: nat)
    requires Start(d, es) && i < |Finished(d, es)|
    requires
      var c := Finished(d, es)[i];
      var w := c.cbw;
      && |w| == 31 && c.whole && !c.faulted && !c.short && w[..4] == [0x55, 0x53, 0x42, 0x43] && w[15] == 0x2A
      && lba == 0x100_0000 * w[17] as int + 0x1_0000 * w[18] as int + 0x100 * w[19] as int + w[20] as int
      && cnt == 0x100 * w[22] as int + w[23] as int && 512 * (lba + cnt) <= |c.before.bytes|
    ensures
      var c := Finished(d, es)[i];
      var card := c.before.bytes;
      && c.status == 0 && c.after.senseKey == c.before.senseKey && c.after.senseAsc == c.before.senseAsc
      && c.after.bytes == (if cnt == 0 then card else card[..512 * lba] + c.sent + card[512 * (lba + cnt)..])
      && (cnt > 0 ==> |c.sent| == 512 * cnt)
  {
    hide Finished;
    CommandServed(d, es, i);
    var w := Finished(d, es)[i].cbw;
    assert w[..4][0] == w[0] && w[..4][1] == w[1] && w[..4][2] == w[2] && w[..4][3] == w[3];
  }
}
