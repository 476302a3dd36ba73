/**
 * The device the host believes it is talking to: a plain run of bytes with a
 * sense pair, executing one SCSI command at a time.  The main theorem says that
 * over every run of completions the Bulk-Only machine is that device: each
 * command the host saw finished did what the reference says, on the state the
 * command before it left.
 */
module BlockDevice {
  import opened Bytes
  import opened BulkOnly
  import opened SdCard

  // ---- Reference device

  datatype Disk = Disk(bytes: seq<byte>, senseKey: byte, senseAsc: byte)

  datatype Reply = Reply(data: seq<byte>, status: byte)

  function InRange(k: Disk, cbw: seq<byte>): bool
    requires |cbw| == CBW_LENGTH
  {
    Lba(cbw) + Count(cbw) <= |k.bytes| / BLOCK
  }

  function Capped(data: seq<byte>, cbw: seq<byte>): seq<byte>
    requires |cbw| == CBW_LENGTH
  {
    data[..Min(|data|, DataLength(cbw))]
  }

  predicate MovesBlocks(k: Disk, cbw: seq<byte>)
    requires |cbw| == CBW_LENGTH
  {
    (Opcode(cbw) == READ10 || Opcode(cbw) == WRITE10) && Count(cbw) != 0 && InRange(k, cbw)
  }

  /** What a command that moves no blocks does. */
  function Execute(k: Disk, cbw: seq<byte>): (Disk, Reply)
    requires |cbw| == CBW_LENGTH && !MovesBlocks(k, cbw)
  {
    var op := Opcode(cbw);
    var blocks := |k.bytes| / BLOCK;
    if op == 0x00 || op == 0x1B || op == 0x1E then (k, Reply([], 0))
    else if op == READ10 || op == WRITE10 then
      if Count(cbw) == 0 then (k, Reply([], 0)) else (k.(senseKey := 0x05, senseAsc := 0x21), Reply([], 1))
    else if op == REQUEST_SENSE then
      (k.(senseKey := 0, senseAsc := 0), Reply(Capped(SenseData(k.senseKey, k.senseAsc), cbw), 0))
    else if op == INQUIRY then (k, Reply(Capped(InquiryData(), cbw), 0))
    else if op == MODE_SENSE6 then (k, Reply(Capped([3, 0, 0, 0], cbw), 0))
    else if op == READ_CAPACITY10 then
      var last := if blocks == 0 then TWO_32 - 1 else Wrap32(blocks - 1);
      (k, Reply(Capped(Be32(last) + [0, 0, 2, 0], cbw), 0))
    else if op == READ_FORMAT_CAPACITY then
      (k, Reply(Capped([0, 0, 0, 8] + Be32(Wrap32(blocks)) + [2, 0, 2, 0], cbw), 0))
    else (k.(senseKey := 0x05, senseAsc := 0x20), Reply([], 1))
  }

  /** Number of transfers that move `n` blocks. */
  function Chunks(n: nat): nat {
    (n + CHUNK_BLOCKS - 1) / CHUNK_BLOCKS
  }

  /**
   * One command as the host saw it: the wrapper (and whether it had its length),
   * the data it sent and got, the number of data transfers, the status, and
   * whether some SD access failed meanwhile; with the disk before and after.
   * `out` is the data the device took: what the host sent, each short data phase
   * filled up with what the transfer buffer held.
   */
  datatype Done = Done(
    before: Disk, cbw: seq<byte>, whole: bool, faulted: bool, short: bool,
    sent: seq<byte>, out: seq<byte>, got: seq<byte>, transfers: nat, status: byte, after: Disk)

  ghost predicate ReadDone(c: Done)
    requires |c.cbw| == CBW_LENGTH && MovesBlocks(c.before, c.cbw)
  {
    var lba, cnt := Lba(c.cbw), Count(c.cbw);
    if c.status == 0 then
      c.got == Blocks(c.before.bytes, lba, cnt) && c.after == c.before && c.transfers == Chunks(cnt)
    else
      && c.status == 1 && c.faulted && c.after == c.before.(senseKey := 0x04, senseAsc := 0x11)
      && exists m: nat ::
           CHUNK_BLOCKS * m < cnt && c.transfers == m && c.got == Blocks(c.before.bytes, lba, CHUNK_BLOCKS * m)
  }

  ghost predicate WriteDone(c: Done)
    requires |c.cbw| == CBW_LENGTH && MovesBlocks(c.before, c.cbw)
  {
    var lba, cnt := Lba(c.cbw), Count(c.cbw);
    if c.status == 0 then
      && |c.out| == BLOCK * cnt && c.transfers == Chunks(cnt)
      && c.after == c.before.(bytes := Splice(c.before.bytes, BLOCK * lba, c.out))
    else
      && c.status == 1 && c.faulted && c.after.senseKey == 0x04 && c.after.senseAsc == 0x03
      && exists m: nat, residue: seq<byte> ::
           && CHUNK_BLOCKS * m < cnt && c.transfers == m + 1
           && |residue| == BLOCK * Min(cnt - CHUNK_BLOCKS * m, CHUNK_BLOCKS)
           && |c.out| == BLOCK * CHUNK_BLOCKS * m + |residue|
           && c.after.bytes == Splice(c.before.bytes, BLOCK * lba, c.out[..BLOCK * CHUNK_BLOCKS * m] + residue)
  }

  /** The command did what the reference device does. */
  ghost predicate Executed(c: Done) {
    && |c.cbw| == CBW_LENGTH && (!c.short ==> c.out == c.sent)
    && if !c.whole || Signature(c.cbw) != CBW_SIGNATURE then
         c.after == c.before.(senseKey := 0x05, senseAsc := 0x24) && c.got == [] && c.status == 1 && c.transfers == 0
       else if !MovesBlocks(c.before, c.cbw) then
         Execute(c.before, c.cbw) == (c.after, Reply(c.got, c.status)) && c.transfers <= 1
       else if Opcode(c.cbw) == READ10 then ReadDone(c)
       else WriteDone(c) && c.got == []
  }

  /** The finished commands, each executed on the disk the one before it left; `k` is the disk now. */
  ghost predicate History(k0: Disk, log: seq<Done>, k: Disk)
    decreases |log|
  {
    if log == [] then k == k0
    else
      var last := log[|log| - 1];
      History(k0, log[..|log| - 1], last.before) && Executed(last) && last.after == k
  }

  // ---- The system: the device and what the host has seen

  datatype System = System(d: Device, current: Done, log: seq<Done>, csws: seq<seq<byte>>, asked: nat)

  function DiskOf(d: Device): Disk {
    Disk(d.card, d.senseKey, d.senseAsc)
  }

  /** The chunk the device takes when a data phase brings `data`. */
  function Chunk(d: Device, data: seq<byte>): seq<byte>
    requires Shape(d)
  {
    Overlay(d.xfer, data)[..BLOCK * d.ioChunk]
  }

  function Observe(s: System, e: Event): (r: System)
    requires Shape(s.d)
    ensures Shape(r.d)
  {
    var d' := Step(s.d, e);
    var failed := e.sd.SdError?;
    var c := s.current.(faulted := s.current.faulted || failed);
    match s.d.state
    case Idle =>
      var cbw := Overlay(s.d.cbw, e.data);
      var whole := |e.data| == CBW_LENGTH;
      s.(d := d', current := Done(DiskOf(s.d), cbw, whole, failed, false, [], [], [], 0, 0, DiskOf(s.d)),
        asked := s.asked + 1)
    case DataIn =>
      s.(d := d', current := c.(got := c.got + s.d.xfer[..Min(e.t.len, CHUNK_BYTES)], transfers := c.transfers + 1))
    case DataOut =>
      s.(d := d', current := c.(short := c.short || |e.data| < e.t.len, sent := c.sent + e.data,
                                out := c.out + Chunk(s.d, e.data), transfers := c.transfers + 1))
    case Status =>
      s.(d := d', log := s.log + [s.current.(status := s.d.csw[12], after := DiskOf(s.d))], csws := s.csws + [s.d.csw])
  }

  function Boot(d: Device): System {
    System(Configured(d), Done(DiskOf(d), [], false, false, false, [], [], [], 0, 0, DiskOf(d)), [], [], 0)
  }

  function Run(s: System, es: seq<Event>): System
    requires Shape(s.d)
    decreases |es|
  {
    if es == [] then s
    else
      Run(Observe(s, es[0]), es[1..])
  }

  // ---- Refinement invariant

  /** Blocks of the current command already moved through the SD card. */
  ghost function Moved(d: Device): int
    requires Shape(d)
  {
    Count(d.cbw) - d.ioLeft
  }

  ghost predicate Reading(d: Device, c: Done)
    requires Shape(d) && c.cbw == d.cbw
  {
    var lba, n := Lba(d.cbw), d.ioChunk;
    && MovesBlocks(c.before, d.cbw)
    && DiskOf(d) == c.before && c.out == [] == c.sent
    && 1 <= n <= Moved(d) && (d.ioLeft != 0 ==> n == CHUNK_BLOCKS)
    && Moved(d) - n == CHUNK_BLOCKS * c.transfers
    && d.armed == multiset{Transmit(XferBuffer, BLOCK * n)}
    && c.got == Blocks(c.before.bytes, lba, Moved(d) - n)
    && d.xfer[..BLOCK * n] == Blocks(c.before.bytes, lba + Moved(d) - n, n)
  }

  ghost predicate Writing(d: Device, c: Done)
    requires Shape(d) && c.cbw == d.cbw
  {
    && MovesBlocks(c.before, d.cbw)
    && 0 <= Moved(d) == CHUNK_BLOCKS * c.transfers
    && c.got == [] && |c.out| == BLOCK * Moved(d) && (!c.short ==> c.out == c.sent)
    && DiskOf(d) == c.before.(bytes := Splice(c.before.bytes, BLOCK * Lba(d.cbw), c.out))
  }

  ghost predicate Replying(d: Device, c: Done)
    requires Shape(d) && c.cbw == d.cbw
  {
    && !MovesBlocks(c.before, d.cbw)
    && d.ioLeft == 0 && c.got == [] && c.transfers == 0 && c.out == [] == c.sent
    && exists len: nat :: len <= CHUNK_BYTES && d.armed == multiset{Transmit(XferBuffer, len)}
         && Execute(c.before, d.cbw) == (DiskOf(d), Reply(d.xfer[..len], 0))
  }

  ghost predicate InCommand(d: Device, c: Done)
    requires Shape(d)
  {
    && c.cbw == d.cbw
    && match d.state
       case Idle => true
       case Status => Executed(c.(status := d.csw[12], after := DiskOf(d)))
       case DataOut => c.whole && Signature(c.cbw) == CBW_SIGNATURE && Writing(d, c)
       case DataIn =>
         c.whole && Signature(c.cbw) == CBW_SIGNATURE &&
         if Opcode(d.cbw) == READ10 then Reading(d, c) else Replying(d, c)
  }

  ghost predicate Refines(k0: Disk, s: System) {
    && Inv(s.d)
    && History(k0, s.log, if s.d.state == Idle then DiskOf(s.d) else s.current.before)
    && s.asked == |s.log| + (if s.d.state == Idle then 0 else 1)
    && (s.d.state != Idle ==> InCommand(s.d, s.current))
    && |s.csws| == |s.log|
    && forall i :: 0 <= i < |s.log| ==>
         |s.log[i].cbw| == CBW_LENGTH && s.csws[i] == CswImage(Tag(s.log[i].cbw), s.log[i].status)
  }

  lemma CswStatus(tag: uint32, status: byte)
    ensures CswImage(tag, status)[12] == status
  {
  }

  /** Answering with a status finishes the command that has been executed. */
  lemma Answered(d: Device, c: Done, status: byte)
    requires Shape(d) && c.cbw == d.cbw
    requires Executed(c.(status := status, after := DiskOf(d)))
    ensures InCommand(SendCsw(d, status), c)
  {
    CswStatus(Tag(d.cbw), status);
  }

  /** A READ(10) with its next chunk still on the card. */
  ghost predicate Fetching(d: Device, c: Done) {
    && Shape(d) && CardFits(d) && c.cbw == d.cbw
    && c.whole && Signature(c.cbw) == CBW_SIGNATURE && Opcode(d.cbw) == READ10 && MovesBlocks(c.before, d.cbw)
    && DiskOf(d) == c.before && c.out == [] == c.sent && d.armed == multiset{}
    && d.ioLeft != 0 && 0 <= Moved(d) == CHUNK_BLOCKS * c.transfers && d.ioLba == Lba(d.cbw) + Moved(d)
    && c.got == Blocks(c.before.bytes, Lba(d.cbw), Moved(d))
  }

  lemma ContinueReadRefines(d: Device, c: Done, sd: SdOutcome)
    requires Fetching(d, c) && (sd.SdError? ==> c.faulted)
    ensures ContinueRead(d, sd).state == DataIn || ContinueRead(d, sd).state == Status
    ensures InCommand(ContinueRead(d, sd), c)
  {
    if sd.SdError? {
      ReadFails(d, c, sd);
    } else {
      ChunkRead(d, c, sd);
    }
  }

  lemma ReadFails(d: Device, c: Done, sd: SdOutcome)
    requires Fetching(d, c) && sd.SdError? && c.faulted
    ensures ContinueRead(d, sd).state == Status && InCommand(ContinueRead(d, sd), c)
  {
    hide FromLe32, Le32, FromBe32, CswImage;
    var n := Min(d.ioLeft, CHUNK_BLOCKS);
    var failed := CardRead(d, d.ioLba, n, sd).1.(senseKey := 0x04, senseAsc := 0x11);
    assert ReadDone(c.(status := 1, after := DiskOf(failed)));
    Answered(failed, c, 1);
  }

  lemma ChunkRead(d: Device, c: Done, sd: SdOutcome)
    requires Fetching(d, c) && sd.SdOk?
    ensures ContinueRead(d, sd).state == DataIn && InCommand(ContinueRead(d, sd), c)
  {
    hide FromLe32, Le32, FromBe32, CswImage, Executed;
    var n := Min(d.ioLeft, CHUNK_BLOCKS);
    var d' := CardRead(d, d.ioLba, n, sd).1;
    assert d'.xfer[..BLOCK * n] == Blocks(c.before.bytes, d.ioLba, n);
  }

  /** The replies the machine computes are the reference's. */
  lemma RepliesAgree(d: Device, c: Done)
    requires Shape(d) && CardFits(d) && c.cbw == d.cbw && DiskOf(d) == c.before && IsReply(Opcode(d.cbw))
    ensures !MovesBlocks(c.before, d.cbw)
    ensures
      var (d', data) := ReplyOf(d);
      Execute(c.before, d.cbw) == (DiskOf(d'), Reply(Capped(data, d.cbw), 0))
  {
    hide InquiryData, SenseData, Be32, FromLe32, FromBe32;
    var n := CardBlocks(d);
    if Opcode(d.cbw) == READ_CAPACITY10 {
      assert Wrap32(Wrap32(n) - 1) == if n == 0 then TWO_32 - 1 else Wrap32(n - 1);
    }
  }

  lemma ReplyRefines(d: Device, c: Done)
    requires Shape(d) && CardFits(d) && c.cbw == d.cbw && DiskOf(d) == c.before && d.armed == multiset{}
    requires c.whole && Signature(c.cbw) == CBW_SIGNATURE && IsReply(Opcode(d.cbw))
    requires c.got == [] && c.out == [] == c.sent && c.transfers == 0
    ensures Dispatch(d, SdOk).state == DataIn && InCommand(Dispatch(d, SdOk), c)
  {
    hide FromLe32, Le32, FromBe32, CswImage;
    RepliesAgree(d, c);
    var (d', data) := ReplyOf(d);
    var len := Min(|data|, DataLength(d.cbw));
    var r := SendData(d', data);
    assert r.armed == multiset{Transmit(XferBuffer, len)};
    assert r.xfer[..len] == Capped(data, d.cbw);
  }

  /** A command that moves no block and sends no data is answered at once. */
  lemma AtOnceRefines(d: Device, c: Done, sd: SdOutcome)
    requires Shape(d) && CardFits(d) && c.cbw == d.cbw && DiskOf(d) == c.before && d.armed == multiset{}
    requires c.whole && Signature(c.cbw) == CBW_SIGNATURE
    requires c.got == [] && c.out == [] == c.sent && c.transfers == 0
    requires !IsReply(Opcode(d.cbw)) && !MovesBlocks(c.before, d.cbw)
    ensures Dispatch(d, sd).state == Status && InCommand(Dispatch(d, sd), c)
  {
    hide FromLe32, Le32, FromBe32, CswImage;
    var op := Opcode(d.cbw);
    if IsPing(op) || ((op == READ10 || op == WRITE10) && Count(d.cbw) == 0) {
      Answered(d, c, 0);
    } else if op == READ10 || op == WRITE10 {
      Answered(d.(senseKey := 0x05, senseAsc := 0x21), c, 1);
    } else {
      Answered(d.(senseKey := 0x05, senseAsc := 0x20), c, 1);
    }
  }

  lemma BlocksRefine(d: Device, c: Done, sd: SdOutcome)
    requires Shape(d) && CardFits(d) && c.cbw == d.cbw && DiskOf(d) == c.before && d.armed == multiset{}
    requires c.whole && Signature(c.cbw) == CBW_SIGNATURE
    requires c.got == [] && c.out == [] == c.sent && c.transfers == 0 && (sd.SdError? ==> c.faulted)
    requires MovesBlocks(c.before, d.cbw)
    ensures Dispatch(d, sd).state != Idle && InCommand(Dispatch(d, sd), c)
  {
    hide FromLe32, Le32, FromBe32, CswImage;
    var d' := d.(ioLba := Lba(d.cbw), ioLeft := Count(d.cbw));
    assert c.got == Blocks(c.before.bytes, Lba(d.cbw), 0);
    if Opcode(d.cbw) == READ10 {
      ContinueReadRefines(d', c, sd);
    } else {
      assert Splice(d.card, BLOCK * Lba(d.cbw), c.out) == d.card;
    }
  }

  /** A fresh command, from its wrapper to the first transfer it arms. */
  lemma {:induction false} DispatchRefines(d: Device, c: Done, sd: SdOutcome)
    requires Shape(d) && CardFits(d) && c.cbw == d.cbw && DiskOf(d) == c.before && d.armed == multiset{}
    requires c.whole && Signature(c.cbw) == CBW_SIGNATURE
    requires c.got == [] && c.out == [] == c.sent && c.transfers == 0 && (sd.SdError? ==> c.faulted)
    ensures Dispatch(d, sd).state != Idle && InCommand(Dispatch(d, sd), c)
  {
    hide FromLe32, Le32, FromBe32, CswImage;
    if IsReply(Opcode(d.cbw)) {
      ReplyRefines(d, c);
    } else if MovesBlocks(c.before, d.cbw) {
      BlocksRefine(d, c, sd);
    } else {
      AtOnceRefines(d, c, sd);
    }
  }

  // ---- One completion

  lemma IdleRefines(d: Device, c: Done, e: Event)
    requires Inv(d) && d.state == Idle && Enabled(d, e)
    requires c == Done(DiskOf(d), Overlay(d.cbw, e.data), |e.data| == CBW_LENGTH, e.sd.SdError?, false,
                       [], [], [], 0, 0, DiskOf(d))
    ensures Step(d, e).state != Idle && InCommand(Step(d, e), c)
  {
    hide FromLe32, Le32, FromBe32, CswImage;
    var l := Land(d.(armed := d.armed - multiset{e.t}), CbwBuffer, e.data);
    assert l.armed == multiset{};
    if c.whole && Signature(l.cbw) == CBW_SIGNATURE {
      DispatchRefines(l, c, e.sd);
    } else {
      Answered(l.(senseKey := 0x05, senseAsc := 0x24), c, 1);
    }
  }

  /** The chunk the host has just taken belongs to the blocks it got so far. */
  lemma Taken(d: Device, c: Done)
    requires Inv(d) && d.state == DataIn && c.cbw == d.cbw && Reading(d, c)
    ensures c.got + d.xfer[..BLOCK * d.ioChunk] == Blocks(c.before.bytes, Lba(d.cbw), Moved(d))
  {
    var lba, n := Lba(d.cbw), d.ioChunk;
    SliceJoin(c.before.bytes, BLOCK * lba, BLOCK * (lba + Moved(d) - n), BLOCK * (lba + Moved(d)));
  }

  lemma ReadingRefines(d: Device, c: Done, c': Done, e: Event)
    requires Inv(d) && d.state == DataIn && Enabled(d, e) && Opcode(d.cbw) == READ10 && InCommand(d, c)
    requires c' == c.(faulted := c.faulted || e.sd.SdError?, got := c.got + d.xfer[..Min(e.t.len, CHUNK_BYTES)],
                      transfers := c.transfers + 1)
    requires e.t == Transmit(XferBuffer, BLOCK * d.ioChunk)
    ensures Step(d, e).state != Idle && InCommand(Step(d, e), c')
  {
    hide FromLe32, Le32, FromBe32, CswImage;
    var r := d.(armed := d.armed - multiset{e.t});
    assert r.armed == multiset{};
    Taken(d, c);
    if d.ioLeft != 0 {
      ContinueReadRefines(r, c', e.sd);
    } else {
      assert ReadDone(c'.(status := 0, after := DiskOf(r)));
      Answered(r, c', 0);
    }
  }

  lemma ReplyingRefines(d: Device, c: Done, c': Done, e: Event)
    requires Inv(d) && d.state == DataIn && Enabled(d, e) && Opcode(d.cbw) != READ10 && InCommand(d, c)
    requires c' == c.(faulted := c.faulted || e.sd.SdError?, got := c.got + d.xfer[..Min(e.t.len, CHUNK_BYTES)],
                      transfers := c.transfers + 1)
    ensures Step(d, e).state != Idle && InCommand(Step(d, e), c')
  {
    hide FromLe32, Le32, FromBe32, CswImage;
    var r := d.(armed := d.armed - multiset{e.t});
    var len: nat :| len <= CHUNK_BYTES && d.armed == multiset{Transmit(XferBuffer, len)}
                 && Execute(c.before, d.cbw) == (DiskOf(d), Reply(d.xfer[..len], 0));
    assert e.t == Transmit(XferBuffer, len);
    assert [] + d.xfer[..len] == d.xfer[..len];
    Answered(r, c', 0);
  }

  /** What one chunk write does to the card, relative to the start of the command. */
  lemma ChunkStored(d: Device, c: Done, part: seq<byte>)
    requires Inv(d) && d.state == DataOut && c.cbw == d.cbw && Writing(d, c) && |part| == BLOCK * d.ioChunk
    ensures BLOCK * d.ioLba + |part| <= |d.card|
    ensures BLOCK * Lba(d.cbw) + |c.out| + |part| <= |c.before.bytes|
    ensures Splice(d.card, BLOCK * d.ioLba, part) == Splice(c.before.bytes, BLOCK * Lba(d.cbw), c.out + part)
  {
    SpliceAppend(c.before.bytes, BLOCK * Lba(d.cbw), c.out, part);
  }

  /** The device after a chunk reached the card, before the next transfer is armed. */
  function Stored(d: Device, data: seq<byte>, part: seq<byte>): Device
    requires Shape(d) && BLOCK * d.ioLba + |part| <= |d.card| && d.ioChunk <= d.ioLeft
  {
    d.(armed := multiset{}, xfer := Overlay(d.xfer, data), card := Splice(d.card, BLOCK * d.ioLba, part),
       accesses := d.accesses + [Access(true, d.ioLba, d.ioChunk)],
       ioLba := Wrap32(d.ioLba + d.ioChunk), ioLeft := d.ioLeft - d.ioChunk)
  }

  lemma StepStores(d: Device, e: Event)
    requires Inv(d) && d.state == DataOut && Enabled(d, e) && e.sd.SdOk?
    ensures BLOCK * d.ioLba + BLOCK * d.ioChunk <= |d.card|
    ensures
      var r := Stored(d, e.data, Chunk(d, e.data));
      Step(d, e) == if r.ioLeft != 0 then ArmWriteChunk(r) else SendCsw(r, 0)
  {
    hide ArmWriteChunk, SendCsw, Splice;
    var l := Land(d.(armed := d.armed - multiset{e.t}), XferBuffer, e.data);
    assert l.armed == multiset{};
    assert l.xfer[..BLOCK * d.ioChunk] == Chunk(d, e.data);
    assert Wrap32(d.ioLeft - d.ioChunk) == d.ioLeft - d.ioChunk;
  }

  lemma StepStoreFails(d: Device, e: Event, residue: seq<byte>)
    requires Inv(d) && d.state == DataOut && Enabled(d, e) && e.sd.SdError?
    requires BLOCK * d.ioLba + BLOCK * d.ioChunk <= |d.card|
    requires residue == Overlay(d.card[BLOCK * d.ioLba..BLOCK * d.ioLba + BLOCK * d.ioChunk], e.sd.residue)
    ensures
      var r := Stored(d, e.data, residue);
      Step(d, e) == Fail(r.(ioLba := d.ioLba, ioLeft := d.ioLeft), 0x04, 0x03)
  {
    var l := Land(d.(armed := d.armed - multiset{e.t}), XferBuffer, e.data);
    assert l.armed == multiset{};
    assert l.xfer[..BLOCK * d.ioChunk] == Chunk(d, e.data);
  }

  /** A full data phase is taken as it was sent. */
  lemma FullPhase(d: Device, c: Done, c': Done, e: Event)
    requires Inv(d) && d.state == DataOut && Enabled(d, e) && (!c.short ==> c.out == c.sent)
    requires c'.short == (c.short || |e.data| < e.t.len)
    requires c'.sent == c.sent + e.data && c'.out == c.out + Chunk(d, e.data)
    ensures !c'.short ==> c'.out == c'.sent
  {
    if !c'.short {
      assert Chunk(d, e.data) == e.data;
    }
  }

  ghost predicate Took(d: Device, c: Done, c': Done, e: Event)
    requires Shape(d)
  {
    c' == c.(faulted := c.faulted || e.sd.SdError?, short := c.short || |e.data| < e.t.len, sent := c.sent + e.data,
             out := c.out + Chunk(d, e.data), transfers := c.transfers + 1)
  }

  lemma WriteFaultRefines(d: Device, c: Done, c': Done, e: Event)
    requires Inv(d) && d.state == DataOut && Enabled(d, e) && InCommand(d, c) && e.sd.SdError? && Took(d, c, c', e)
    ensures Step(d, e).state == Status && InCommand(Step(d, e), c')
  {
    hide FromLe32, Le32, FromBe32, CswImage;
    var residue := Overlay(d.card[BLOCK * d.ioLba..BLOCK * d.ioLba + BLOCK * d.ioChunk], e.sd.residue);
    StepStoreFails(d, e, residue);
    ChunkStored(d, c, residue);
    FullPhase(d, c, c', e);
    var failed := Stored(d, e.data, residue).(ioLba := d.ioLba, ioLeft := d.ioLeft, senseKey := 0x04, senseAsc := 0x03);
    FaultDone(c'.(status := 1, after := DiskOf(failed)), c.out, Chunk(d, e.data), c.transfers, residue);
    Answered(failed, c', 1);
  }

  lemma FaultDone(c: Done, kept: seq<byte>, lost: seq<byte>, m: nat, residue: seq<byte>)
    requires |c.cbw| == CBW_LENGTH && MovesBlocks(c.before, c.cbw) && Opcode(c.cbw) == WRITE10 && c.got == []
    requires c.whole && Signature(c.cbw) == CBW_SIGNATURE && (!c.short ==> c.out == c.sent)
    requires c.status == 1 && c.faulted && c.after.senseKey == 0x04 && c.after.senseAsc == 0x03
    requires CHUNK_BLOCKS * m < Count(c.cbw) && c.transfers == m + 1
    requires |residue| == BLOCK * Min(Count(c.cbw) - CHUNK_BLOCKS * m, CHUNK_BLOCKS)
    requires c.out == kept + lost && |kept| == BLOCK * CHUNK_BLOCKS * m && |lost| == |residue|
    requires BLOCK * Lba(c.cbw) + |kept| + |residue| <= |c.before.bytes|
    requires c.after.bytes == Splice(c.before.bytes, BLOCK * Lba(c.cbw), kept + residue)
    ensures Executed(c)
  {
    assert c.out[..BLOCK * CHUNK_BLOCKS * m] == kept;
  }

  lemma WritingRefines(d: Device, c: Done, c': Done, e: Event)
    requires Inv(d) && d.state == DataOut && Enabled(d, e) && InCommand(d, c) && e.sd.SdOk? && Took(d, c, c', e)
    ensures Step(d, e).state != Idle && InCommand(Step(d, e), c')
  {
    hide FromLe32, Le32, FromBe32, CswImage;
    StepStores(d, e);
    ChunkStored(d, c, Chunk(d, e.data));
    FullPhase(d, c, c', e);
    var r := Stored(d, e.data, Chunk(d, e.data));
    if r.ioLeft == 0 {
      assert WriteDone(c'.(status := 0, after := DiskOf(r)));
      Answered(r, c', 0);
    } else {
      assert Writing(r, c');
    }
  }

  /** Reading(s) and replies pin down the transfer a data-in completion ends. */
  lemma DataInRefines(d: Device, c: Done, c': Done, e: Event)
    requires Inv(d) && d.state == DataIn && Enabled(d, e) && InCommand(d, c)
    requires c' == c.(faulted := c.faulted || e.sd.SdError?, got := c.got + d.xfer[..Min(e.t.len, CHUNK_BYTES)],
                      transfers := c.transfers + 1)
    ensures Step(d, e).state != Idle && InCommand(Step(d, e), c')
  {
    if Opcode(d.cbw) == READ10 {
      assert e.t == Transmit(XferBuffer, BLOCK * d.ioChunk);
      ReadingRefines(d, c, c', e);
    } else {
      ReplyingRefines(d, c, c', e);
    }
  }

  lemma DataOutRefines(d: Device, c: Done, c': Done, e: Event)
    requires Inv(d) && d.state == DataOut && Enabled(d, e) && InCommand(d, c) && Took(d, c, c', e)
    ensures Step(d, e).state != Idle && InCommand(Step(d, e), c')
  {
    if e.sd.SdError? {
      WriteFaultRefines(d, c, c', e);
    } else {
      WritingRefines(d, c, c', e);
    }
  }

  lemma StatusRefines(k0: Disk, s: System, e: Event)
    requires Refines(k0, s) && s.d.state == Status && Enabled(s.d, e)
    ensures
      var r := Observe(s, e);
      && r.d.state == Idle && History(k0, r.log, DiskOf(r.d)) && r.asked == |r.log|
      && |r.csws| == |r.log|
      && forall i :: 0 <= i < |r.log| ==>
           |r.log[i].cbw| == CBW_LENGTH && r.csws[i] == CswImage(Tag(r.log[i].cbw), r.log[i].status)
  {
    var r := Observe(s, e);
    var done := s.current.(status := s.d.csw[12], after := DiskOf(s.d));
    assert r.log[..|s.log|] == s.log && r.log[|s.log|] == done;
    var status: byte :| status <= 1 && s.d.csw == CswImage(Tag(s.d.cbw), status);
    CswStatus(Tag(s.d.cbw), status);
  }

  /** The part of the refinement that only a status completion changes. */
  lemma Unchanged(k0: Disk, s: System, e: Event)
    requires Refines(k0, s) && s.d.state != Status && Enabled(s.d, e)
    requires Inv(Step(s.d, e)) && Step(s.d, e).state != Idle && InCommand(Step(s.d, e), Observe(s, e).current)
    ensures Refines(k0, Observe(s, e))
  {
    hide FromLe32, Le32, FromBe32, CswImage, Step, InCommand, History, Enabled;
    var r := Observe(s, e);
    assert r.log == s.log && r.csws == s.csws && r.d == Step(s.d, e);
    assert r.current.before == if s.d.state == Idle then DiskOf(s.d) else s.current.before;
  }

  /** Every completion but the one of a status is a step of some command. */
  lemma CommandRefines(s: System, e: Event)
    requires Inv(s.d) && Enabled(s.d, e) && s.d.state != Status && (s.d.state != Idle ==> InCommand(s.d, s.current))
    ensures Step(s.d, e).state != Idle && InCommand(Step(s.d, e), Observe(s, e).current)
  {
    hide FromLe32, Le32, FromBe32, CswImage, Step, InCommand;
    var c' := Observe(s, e).current;
    match s.d.state
    case Idle => IdleRefines(s.d, c', e);
    case DataIn => DataInRefines(s.d, s.current, c', e);
    case DataOut => DataOutRefines(s.d, s.current, c', e);
  }

  /** One completion keeps the refinement. */
  lemma ObserveRefines(k0: Disk, s: System, e: Event)
    requires Refines(k0, s) && Enabled(s.d, e)
    ensures Refines(k0, Observe(s, e))
  {
    hide FromLe32, Le32, FromBe32, CswImage;
    StepInv(s.d, e);
    if s.d.state == Status {
      StatusRefines(k0, s, e);
    } else {
      CommandRefines(s, e);
      Unchanged(k0, s, e);
    }
  }

  /**
   * Main theorem.  In every run from configuration, whatever the host sends, the
   * commands it saw finished are, in order, executions of the reference device, each
   * on the disk the one before it left; every wrapper but the one being served has
   * had exactly one status, with its tag.  A command whose data phases were all full
   * length stored what the host sent (`Executed`).  A run with wrappers of more than
   * 31 bytes supposes that nothing of the program stands behind the wrapper buffer;
   * in any other that memory is not touched (`BulkOnly.BehindKept`).
   */
  lemma RunRefines(d: Device, es: seq<Event>)
    requires Shape(d) && CardFits(d) && Live(Configured(d), es)
    ensures Refines(DiskOf(d), Run(Boot(d), es))
  {
    ConfiguredInv(d);
    RunKeeps(DiskOf(d), Boot(d), es);
  }

  lemma {:induction false} RunKeeps(k0: Disk, s: System, es: seq<Event>)
    requires Refines(k0, s) && Live(s.d, es)
    ensures Refines(k0, Run(s, es))
    decreases |es|
  {
    if es != [] {
      ObserveRefines(k0, s, es[0]);
      RunKeeps(k0, Observe(s, es[0]), es[1..]);
    }
  }

  /** Without an SD error, every finished command ended in a status the reference computes alone. */
  lemma {:induction false} NoFaultNoSurprise(k0: Disk, log: seq<Done>, k: Disk, i: nat)
    requires History(k0, log, k) && i < |log| && !log[i].faulted && log[i].whole && |log[i].cbw| == CBW_LENGTH
    requires Signature(log[i].cbw) == CBW_SIGNATURE && MovesBlocks(log[i].before, log[i].cbw)
    ensures log[i].status == 0
    ensures Opcode(log[i].cbw) == READ10 ==>
      log[i].got == Blocks(log[i].before.bytes, Lba(log[i].cbw), Count(log[i].cbw)) && log[i].after == log[i].before
    ensures Opcode(log[i].cbw) == WRITE10 ==>
      && |log[i].out| == BLOCK * Count(log[i].cbw) && (!log[i].short ==> log[i].out == log[i].sent)
      && log[i].after.bytes == Splice(log[i].before.bytes, BLOCK * Lba(log[i].cbw), log[i].out)
    ensures log[i].transfers == Chunks(Count(log[i].cbw))
    decreases |log|
  {
    if i < |log| - 1 {
      NoFaultNoSurprise(k0, log[..|log| - 1], log[|log| - 1].before, i);
    }
  }

  /** Block `b` after a write is the written block inside the range and the old block outside it. */
  lemma ReadBack(k: Disk, lba: nat, out: seq<byte>, b: nat)
    requires |out| % BLOCK == 0 && BLOCK * lba + |out| <= |k.bytes| && BLOCK * (b + 1) <= |k.bytes|
    ensures
      var k' := k.(bytes := Splice(k.bytes, BLOCK * lba, out));
      var cnt := |out| / BLOCK;
      Blocks(k'.bytes, b, 1) ==
        if lba <= b < lba + cnt then out[BLOCK * (b - lba)..BLOCK * (b - lba + 1)]
        else Blocks(k.bytes, b, 1)
  {
    var r := Splice(k.bytes, BLOCK * lba, out);
    forall i | 0 <= i < BLOCK
      ensures Blocks(r, b, 1)[i] == r[BLOCK * b + i] && Blocks(k.bytes, b, 1)[i] == k.bytes[BLOCK * b + i]
    {
    }
  }

  // ---- Sense data

  predicate Wrapped(c: Done) {
    c.whole && |c.cbw| == CBW_LENGTH && Signature(c.cbw) == CBW_SIGNATURE
  }

  /** The sense pair a failed command stands for. */
  function FailureOf(c: Done): (byte, byte)
    requires |c.cbw| == CBW_LENGTH
  {
    if !Wrapped(c) then (0x05, 0x24)
    else if MovesBlocks(c.before, c.cbw) then (if Opcode(c.cbw) == READ10 then (0x04, 0x11) else (0x04, 0x03))
    else if Opcode(c.cbw) == READ10 || Opcode(c.cbw) == WRITE10 then (0x05, 0x21)
    else (0x05, 0x20)
  }

  /** The last failure in the log since the last answered REQUEST SENSE: `first` if there is neither. */
  function LastFailure(log: seq<Done>, first: (byte, byte)): (byte, byte)
    requires forall i :: 0 <= i < |log| ==> |log[i].cbw| == CBW_LENGTH
    decreases |log|
  {
    if log == [] then first
    else
      var c := log[|log| - 1];
      if c.status != 0 then FailureOf(c)
      else if Opcode(c.cbw) == REQUEST_SENSE then (0, 0)
      else LastFailure(log[..|log| - 1], first)
  }

  lemma SenseOf(c: Done)
    requires Executed(c)
    ensures (c.after.senseKey, c.after.senseAsc) ==
      if c.status != 0 then FailureOf(c)
      else if Opcode(c.cbw) == REQUEST_SENSE then (0, 0)
      else (c.before.senseKey, c.before.senseAsc)
  {
    hide Le32, FromLe32, FromBe32, InquiryData, SenseData, Be32, Capped;
  }

  /** The device remembers exactly the last failure since the last REQUEST SENSE. */
  lemma {:induction false} SenseIsLastFailure(k0: Disk, log: seq<Done>, k: Disk)
    requires History(k0, log, k) && forall i :: 0 <= i < |log| ==> |log[i].cbw| == CBW_LENGTH
    ensures (k.senseKey, k.senseAsc) == LastFailure(log, (k0.senseKey, k0.senseAsc))
    decreases |log|
  {
    if log != [] {
      hide Executed;
      var n := |log| - 1;
      SenseIsLastFailure(k0, log[..n], log[n].before);
      SenseOf(log[n]);
    }
  }

  /** And that is what REQUEST SENSE reports, cut to the length the host asked for. */
  lemma SenseReported(k0: Disk, log: seq<Done>, k: Disk)
    requires History(k0, log, k) && log != [] && forall i :: 0 <= i < |log| ==> |log[i].cbw| == CBW_LENGTH
    requires
      var c := log[|log| - 1];
      Wrapped(c) && Opcode(c.cbw) == REQUEST_SENSE
    ensures
      var c := log[|log| - 1];
      var sense := LastFailure(log[..|log| - 1], (k0.senseKey, k0.senseAsc));
      c.status == 0 && c.got == Capped(SenseData(sense.0, sense.1), c.cbw)
  {
    hide Le32, FromLe32, FromBe32, InquiryData, SenseData, Be32, Capped;
    SenseIsLastFailure(k0, log[..|log| - 1], log[|log| - 1].before);
  }

  // ---- Every command ends

  /** Decreases at every completion until the device waits for the next wrapper. */
  function Rank(d: Device): nat {
    match d.state
    case Idle => 0
    case Status => 1
    case _ => 2 + d.ioLeft
  }

  lemma StepRank(d: Device, e: Event)
    requires Inv(d) && Enabled(d, e) && d.state != Idle
    ensures Rank(Step(d, e)) < Rank(d)
  {
    var r := d.(armed := d.armed - multiset{e.t});
    if d.state == DataOut {
      StoreRank(Land(r, XferBuffer, e.data), |e.data|, e.sd);
    } else if d.state == DataIn && d.ioLeft != 0 {
      ContinueReadRank(r, e.sd);
    }
  }

  lemma StoreRank(d: Device, count: nat, sd: SdOutcome)
    requires Shape(d) && d.state == DataOut && 1 <= d.ioChunk <= d.ioLeft
    ensures Rank(OnDataOut(d, count, sd)) < 2 + d.ioLeft
  {
    var r := CardWrite(d, d.ioLba, d.ioChunk, sd).1;
    assert r.ioLeft == d.ioLeft;
    hide CardWrite, FromLe32, Le32, CswImage;
    assert Wrap32(d.ioLeft - d.ioChunk) == d.ioLeft - d.ioChunk;
  }

  lemma ContinueReadRank(d: Device, sd: SdOutcome)
    requires Shape(d) && d.ioLeft != 0
    ensures Rank(ContinueRead(d, sd)) < 2 + d.ioLeft
  {
  }

  lemma StepsNone(d: Device, es: seq<Event>)
    requires Shape(d)
    ensures Steps(d, es[..0]) == d
  {
  }

  lemma StepsCons(d: Device, es: seq<Event>, m: nat)
    requires Shape(d) && m < |es|
    ensures Steps(d, es[..m + 1]) == Steps(Step(d, es[0]), es[1..][..m])
  {
    hide Step;
    assert es[..m + 1][1..] == es[1..][..m];
  }

  /** However the completions go, full length or not, a command is over after at most `Rank` of them. */
  lemma {:induction false} CommandEnds(d: Device, es: seq<Event>) returns (n: nat)
    requires Inv(d) && Live(d, es) && |es| >= Rank(d)
    ensures n <= Rank(d) && Steps(d, es[..n]).state == Idle
    decreases |es|
  {
    assert Shape(d);
    hide Inv, Step, Enabled, Shape, Steps;
    if d.state == Idle {
      StepsNone(d, es);
      n := 0;
    } else {
      StepInv(d, es[0]);
      StepRank(d, es[0]);
      var d' := Step(d, es[0]);
      var m := CommandEnds(d', es[1..]);
      n := m + 1;
      StepsCons(d, es, m);
    }
  }
}
