/**
 * The Bulk-Only Transport device as a state machine on values.
 *
 * Every function here is one callback of the mass-storage class, on the whole
 * state of the device: its statics, its three buffers, the SD card behind it
 * and the transfers the USB controller currently owns.  The class in
 * MassStorage.dfy performs these steps in place.
 */
module BulkOnly {
  import opened Bytes
  import opened SdCard
  import Endpoint

  const CHUNK_BLOCKS := 32
  const CHUNK_BYTES := 16384
  const CBW_LENGTH := 31
  const CSW_LENGTH := 13
  const PACKET := 512
  const CBW_SIGNATURE := 0x43425355
  const CSW_SIGNATURE := 0x53425355

  datatype BotState = Idle | DataIn | DataOut | Status

  datatype Buffer = CbwBuffer | CswBuffer | XferBuffer

  /** A transfer handed to the controller: device to host, or host to device. */
  datatype Transfer = Transmit(buffer: Buffer, len: nat) | Receive(buffer: Buffer, len: nat)

  /** One access to the SD card, as it was made. */
  datatype Access = Access(write: bool, lba: nat, blocks: nat)

  /**
   * `behind` is the memory that follows the wrapper buffer, as far as one packet
   * reaches; `armed` and `accesses` record what the controller owns and what the
   * card was asked for.
   */
  datatype Device = Device(
    state: BotState,
    cbw: seq<byte>, behind: seq<byte>, csw: seq<byte>, xfer: seq<byte>,
    ioLba: uint32, ioLeft: uint32, ioChunk: uint32,
    senseKey: byte, senseAsc: byte,
    card: seq<byte>,
    accesses: seq<Access>,
    armed: multiset<Transfer>)

  /** Sizes of the buffers; what every function below needs to be defined. */
  ghost predicate Shape(d: Device) {
    |d.cbw| == CBW_LENGTH && |d.behind| == PACKET - CBW_LENGTH && |d.csw| == CSW_LENGTH &&
    |d.xfer| == CHUNK_BYTES && d.ioChunk <= CHUNK_BLOCKS
  }

  // ---- Fields of the command block wrapper

  function Signature(cbw: seq<byte>): uint32 requires |cbw| == CBW_LENGTH { FromLe32(cbw[0..4]) }
  function Tag(cbw: seq<byte>): uint32 requires |cbw| == CBW_LENGTH { FromLe32(cbw[4..8]) }
  function DataLength(cbw: seq<byte>): uint32 requires |cbw| == CBW_LENGTH { FromLe32(cbw[8..12]) }
  function Opcode(cbw: seq<byte>): byte requires |cbw| == CBW_LENGTH { cbw[15] }
  function Lba(cbw: seq<byte>): uint32 requires |cbw| == CBW_LENGTH { FromBe32(cbw[17..21]) }

  function Count(cbw: seq<byte>): uint16
    requires |cbw| == CBW_LENGTH
  {
    0x100 * cbw[22] as int + cbw[23] as int
  }

  predicate IsPing(op: byte) { op == 0x00 || op == 0x1B || op == 0x1E }
  const INQUIRY: byte := 0x12
  const READ_CAPACITY10: byte := 0x25
  const READ_FORMAT_CAPACITY: byte := 0x23
  const MODE_SENSE6: byte := 0x1A
  const REQUEST_SENSE: byte := 0x03
  predicate IsReply(op: byte) {
    op == INQUIRY || op == READ_CAPACITY10 || op == READ_FORMAT_CAPACITY || op == MODE_SENSE6 || op == REQUEST_SENSE
  }

  const READ10: byte := 0x28
  const WRITE10: byte := 0x2A

  function InquiryData(): (s: seq<byte>)
    ensures |s| == 36
  {
    [0x00, 0x80, 0x02, 0x02, 31, 0, 0, 0,
     0x53, 0x54, 0x4D, 0x33, 0x32, 0x4D, 0x50, 0x32,
     0x46, 0x53, 0x42, 0x4C, 0x20, 0x53, 0x44, 0x20,
     0x63, 0x61, 0x72, 0x64, 0x20, 0x20, 0x20, 0x20,
     0x31, 0x2E, 0x30, 0x20]
  }

  function SenseData(key: byte, asc: byte): (s: seq<byte>)
    ensures |s| == 18
  {
    [0x70, 0, key, 0, 0, 0, 0, 10, 0, 0, 0, 0, asc, 0, 0, 0, 0, 0]
  }

  function CswImage(tag: uint32, status: byte): (s: seq<byte>)
    ensures |s| == CSW_LENGTH
  {
    Le32(CSW_SIGNATURE) + Le32(tag) + Le32(0) + [status]
  }

  function CardBlocks(d: Device): nat { |d.card| / BLOCK }

  // ---- Card accesses, recorded

  function CardRead(d: Device, lba: nat, blocks: nat, sd: SdOutcome): (r: (bool, Device))
    requires Shape(d) && blocks <= CHUNK_BLOCKS
    ensures Shape(r.1) && r.1 == d.(xfer := r.1.xfer, accesses := d.accesses + [Access(false, lba, blocks)])
  {
    var (ok, got) := SdRead(d.card, lba, blocks, d.xfer[..BLOCK * blocks], sd);
    (ok, d.(xfer := Overlay(d.xfer, got), accesses := d.accesses + [Access(false, lba, blocks)]))
  }

  function CardWrite(d: Device, lba: nat, blocks: nat, sd: SdOutcome): (r: (bool, Device))
    requires Shape(d) && blocks <= CHUNK_BLOCKS
    ensures Shape(r.1) && |r.1.card| == |d.card|
    ensures r.1 == d.(card := r.1.card, accesses := d.accesses + [Access(true, lba, blocks)])
  {
    var (ok, card) := SdWrite(d.card, lba, d.xfer[..BLOCK * blocks], sd);
    (ok, d.(card := card, accesses := d.accesses + [Access(true, lba, blocks)]))
  }

  // ---- The class's own helpers

  function ArmCbw(d: Device): Device {
    d.(state := Idle, armed := d.armed + multiset{Receive(CbwBuffer, CBW_LENGTH)})
  }

  function SendCsw(d: Device, status: byte): (r: Device)
    requires Shape(d)
    ensures Shape(r) && r.card == d.card && r.cbw == d.cbw
  {
    d.(csw := CswImage(Tag(d.cbw), status), state := Status,
       armed := d.armed + multiset{Transmit(CswBuffer, CSW_LENGTH)})
  }

  function Fail(d: Device, key: byte, asc: byte): (r: Device)
    requires Shape(d)
    ensures Shape(r) && r.card == d.card && r.cbw == d.cbw
  {
    SendCsw(d.(senseKey := key, senseAsc := asc), 1)
  }

  function SendData(d: Device, data: seq<byte>): (r: Device)
    requires Shape(d) && |data| <= CHUNK_BYTES
    ensures Shape(r) && r.card == d.card && r.cbw == d.cbw
  {
    var len := Min(|data|, DataLength(d.cbw));
    d.(xfer := Overlay(d.xfer, data[..len]), state := DataIn, ioLeft := 0,
       armed := d.armed + multiset{Transmit(XferBuffer, len)})
  }

  /** A chunk that was read is counted and sent. */
  function SendChunk(d: Device, blocks: nat): (r: Device)
    requires Shape(d) && blocks <= CHUNK_BLOCKS && blocks <= d.ioLeft
    ensures Shape(r) && r.card == d.card && r.cbw == d.cbw
  {
    d.(ioLba := Wrap32(d.ioLba + blocks), ioLeft := d.ioLeft - blocks, ioChunk := blocks,
       state := DataIn, armed := d.armed + multiset{Transmit(XferBuffer, BLOCK * blocks)})
  }

  function ContinueRead(d: Device, sd: SdOutcome): (r: Device)
    requires Shape(d)
    ensures Shape(r) && r.card == d.card && r.cbw == d.cbw
  {
    var blocks := Min(d.ioLeft, CHUNK_BLOCKS);
    var (ok, d') := CardRead(d, d.ioLba, blocks, sd);
    if ok then SendChunk(d', blocks) else Fail(d', 0x04, 0x11)
  }

  function ArmWriteChunk(d: Device): (r: Device)
    ensures Shape(d) ==> Shape(r)
  {
    var blocks := Min(d.ioLeft, CHUNK_BLOCKS);
    d.(ioChunk := blocks, state := DataOut, armed := d.armed + multiset{Receive(XferBuffer, BLOCK * blocks)})
  }

  function ReplyLength(op: byte): nat {
    if op == INQUIRY then 36 else if op == READ_CAPACITY10 then 8 else if op == READ_FORMAT_CAPACITY then 12
    else if op == MODE_SENSE6 then 4 else 18
  }

  /** The data an inquiry-like command replies with, and the state it leaves the sense pair in. */
  function ReplyOf(d: Device): (r: (Device, seq<byte>))
    requires Shape(d)
    ensures Shape(r.0) && (IsReply(Opcode(d.cbw)) ==> |r.1| == ReplyLength(Opcode(d.cbw)))
  {
    var op := Opcode(d.cbw);
    if op == INQUIRY then (d, InquiryData())
    else if op == READ_CAPACITY10 then (d, Be32(Wrap32(Wrap32(CardBlocks(d)) - 1)) + [0, 0, 2, 0])
    else if op == READ_FORMAT_CAPACITY then (d, [0, 0, 0, 8] + Be32(Wrap32(CardBlocks(d))) + [2, 0, 2, 0])
    else if op == MODE_SENSE6 then (d, [3, 0, 0, 0])
    else (d.(senseKey := 0, senseAsc := 0), SenseData(d.senseKey, d.senseAsc))
  }

  function Dispatch(d: Device, sd: SdOutcome): (r: Device)
    requires Shape(d)
    ensures Shape(r) && r.card == d.card && r.cbw == d.cbw
  {
    var op := Opcode(d.cbw);
    if IsPing(op) then SendCsw(d, 0)
    else if IsReply(op) then
      var (d', data) := ReplyOf(d);
      SendData(d', data)
    else if op == READ10 || op == WRITE10 then
      var lba, cnt := Lba(d.cbw), Count(d.cbw);
      if cnt == 0 then SendCsw(d, 0)
      else if lba + cnt > CardBlocks(d) then Fail(d, 0x05, 0x21)
      else
        var d' := d.(ioLba := lba, ioLeft := cnt);
        if op == READ10 then ContinueRead(d', sd) else ArmWriteChunk(d')
    else Fail(d, 0x05, 0x20)
  }

  /** Callback for a completed device-to-host transfer on the bulk endpoint. */
  function OnDataIn(d: Device, sd: SdOutcome): (r: Device)
    requires Shape(d)
    ensures Shape(r) && r.card == d.card && r.cbw == d.cbw
  {
    match d.state
    case DataIn => if d.ioLeft != 0 then ContinueRead(d, sd) else SendCsw(d, 0)
    case Status => ArmCbw(d)
    case _ => d
  }

  /** A chunk of data the host has sent goes to the card. */
  function OnChunk(d: Device, sd: SdOutcome): (r: Device)
    requires Shape(d)
    ensures Shape(r) && r.cbw == d.cbw
  {
    var (ok, w) := CardWrite(d, d.ioLba, d.ioChunk, sd);
    if !ok then Fail(w, 0x04, 0x03)
    else
      var d' := w.(ioLba := Wrap32(w.ioLba + w.ioChunk), ioLeft := Wrap32(w.ioLeft - w.ioChunk));
      if d'.ioLeft != 0 then ArmWriteChunk(d') else SendCsw(d', 0)
  }

  /** Callback for a completed host-to-device transfer of `count` bytes. */
  function OnDataOut(d: Device, count: nat, sd: SdOutcome): (r: Device)
    requires Shape(d)
    ensures Shape(r)
  {
    match d.state
    case Idle =>
      if count == CBW_LENGTH && Signature(d.cbw) == CBW_SIGNATURE then Dispatch(d, sd) else Fail(d, 0x05, 0x24)
    case DataOut => OnChunk(d, sd)
    case _ => d
  }

  // ---- Completions: the host's moves

  /** The controller finishes transfer `t`, having received `data` if it was a receive. */
  datatype Event = Complete(t: Transfer, data: seq<byte>, sd: SdOutcome)

  /**
   * What the controller takes for a transfer: the programmed size, which for the
   * wrapper, received through the bounce buffer, is a whole packet.
   */
  function Room(t: Transfer): nat {
    if t.buffer.CbwBuffer? then PACKET else t.len
  }

  ghost predicate Enabled(d: Device, e: Event) {
    e.t in d.armed && (e.t.Receive? ==> |e.data| <= Room(e.t))
  }

  /** What of a received wrapper does not fit its buffer. */
  function Overrun(data: seq<byte>): seq<byte> {
    if |data| <= CBW_LENGTH then [] else data[CBW_LENGTH..]
  }

  /** Received bytes are stored from the start of the buffer on, however many they are. */
  function Land(d: Device, b: Buffer, data: seq<byte>): (r: Device)
    requires Shape(d)
    ensures Shape(r)
  {
    match b
    case CbwBuffer => d.(cbw := Overlay(d.cbw, data), behind := Overlay(d.behind, Overrun(data)))
    case CswBuffer => d.(csw := Overlay(d.csw, data))
    case XferBuffer => d.(xfer := Overlay(d.xfer, data))
  }

  function Step(d: Device, e: Event): (r: Device)
    requires Shape(d)
    ensures Shape(r)
  {
    var released := d.(armed := d.armed - multiset{e.t});
    if e.t.Receive?
    then OnDataOut(Land(released, e.t.buffer, e.data), |e.data|, e.sd)
    else OnDataIn(released, e.sd)
  }

  /** The state just after the host selects the configuration. */
  function Configured(d: Device): Device {
    ArmCbw(d.(armed := multiset{}))
  }

  // ---- The invariant

  /** Progress of a READ(10) or WRITE(10) whose wrapper is still in the CBW buffer. */
  ghost predicate Progress(d: Device)
    requires Shape(d)
  {
    && Lba(d.cbw) <= d.ioLba
    && d.ioLba + d.ioLeft == Lba(d.cbw) + Count(d.cbw)
    && Lba(d.cbw) + Count(d.cbw) <= CardBlocks(d)
  }

  /** The length of the data sent: the chunk read, or the reply cut to what the host asked for. */
  function InLength(d: Device): nat
    requires Shape(d)
  {
    if Opcode(d.cbw) == READ10 then BLOCK * d.ioChunk else Min(ReplyLength(Opcode(d.cbw)), DataLength(d.cbw))
  }

  /** bot_state alone decides which transfer the controller owns, and only one is owned. */
  ghost predicate OneTransfer(d: Device)
    requires Shape(d)
  {
    match d.state
    case Idle => d.armed == multiset{Receive(CbwBuffer, CBW_LENGTH)}
    case Status => d.armed == multiset{Transmit(CswBuffer, CSW_LENGTH)}
    case DataOut =>
      d.armed == multiset{Receive(XferBuffer, BLOCK * d.ioChunk)} && 1 <= d.ioChunk == Min(d.ioLeft, CHUNK_BLOCKS)
    case DataIn => d.armed == multiset{Transmit(XferBuffer, InLength(d))}
  }

  ghost predicate CardFits(d: Device) {
    CardBlocks(d) <= TWO_32
  }

  ghost predicate Inv(d: Device) {
    && Shape(d)
    && CardFits(d)
    && OneTransfer(d)
    && (d.state == DataOut ==> Opcode(d.cbw) == WRITE10 && Progress(d))
    && (d.state == DataIn ==> (Opcode(d.cbw) == READ10 && 1 <= d.ioChunk) || (IsReply(Opcode(d.cbw)) && d.ioLeft == 0))
    && (d.state == DataIn && d.ioLeft != 0 ==> Progress(d))
    && (d.state == Status ==> exists status: byte :: status <= 1 && d.csw == CswImage(Tag(d.cbw), status))
  }

  lemma ConfiguredInv(d: Device)
    requires Shape(d) && CardFits(d)
    ensures Inv(Configured(d))
  {
  }

  lemma SendCswInv(d: Device, status: byte)
    requires Shape(d) && CardFits(d) && d.armed == multiset{} && status <= 1
    ensures Inv(SendCsw(d, status))
  {
  }

  lemma SendDataInv(d: Device, data: seq<byte>)
    requires Shape(d) && CardFits(d) && d.armed == multiset{}
    requires IsReply(Opcode(d.cbw)) && |data| == ReplyLength(Opcode(d.cbw))
    ensures Inv(SendData(d, data))
  {
    var len := Min(|data|, DataLength(d.cbw));
    assert SendData(d, data).armed == multiset{Transmit(XferBuffer, len)};
  }

  /** A read step is inside the card, so without an SD error it never fails. */
  lemma ContinueReadInv(d: Device, sd: SdOutcome)
    requires Shape(d) && CardFits(d) && d.armed == multiset{} && Progress(d) && Opcode(d.cbw) == READ10 && d.ioLeft != 0
    ensures Inv(ContinueRead(d, sd))
    ensures sd.SdOk? ==> ContinueRead(d, sd).state == DataIn
  {
    hide FromLe32, Le32, FromBe32, CswImage;
    var blocks := Min(d.ioLeft, CHUNK_BLOCKS);
    var read := CardRead(d, d.ioLba, blocks, sd);
    if !read.0 {
      SendCswInv(read.1.(senseKey := 0x04, senseAsc := 0x11), 1);
    } else {
      var r := ContinueRead(d, sd);
      assert d.ioLba + blocks == TWO_32 || r.ioLba == d.ioLba + blocks;
      assert r.armed == multiset{Transmit(XferBuffer, BLOCK * blocks)};
      assert OneTransfer(r);
    }
  }

  lemma ArmWriteChunkInv(d: Device)
    requires Shape(d) && CardFits(d) && d.armed == multiset{}
    requires Progress(d) && Opcode(d.cbw) == WRITE10 && d.ioLeft != 0
    ensures Inv(ArmWriteChunk(d))
  {
  }

  lemma DispatchTransferInv(d: Device, sd: SdOutcome)
    requires Shape(d) && CardFits(d) && d.armed == multiset{}
    requires Opcode(d.cbw) == READ10 || Opcode(d.cbw) == WRITE10
    ensures Inv(Dispatch(d, sd))
  {
    hide FromLe32, Le32, FromBe32, CswImage;
    if Count(d.cbw) == 0 {
      SendCswInv(d, 0);
    } else if Lba(d.cbw) + Count(d.cbw) > CardBlocks(d) {
      SendCswInv(d.(senseKey := 0x05, senseAsc := 0x21), 1);
    } else {
      var d' := d.(ioLba := Lba(d.cbw), ioLeft := Count(d.cbw));
      if Opcode(d.cbw) == READ10 { ContinueReadInv(d', sd); } else { ArmWriteChunkInv(d'); }
    }
  }

  lemma DispatchInv(d: Device, sd: SdOutcome)
    requires Shape(d) && CardFits(d) && d.armed == multiset{}
    ensures Inv(Dispatch(d, sd))
  {
    hide FromLe32, Le32, FromBe32, CswImage;
    var op := Opcode(d.cbw);
    if op == READ10 || op == WRITE10 {
      DispatchTransferInv(d, sd);
    } else if IsReply(op) {
      var (d', data) := ReplyOf(d);
      SendDataInv(d', data);
    } else {
      SendCswInv(d, 0);
      SendCswInv(d.(senseKey := 0x05, senseAsc := 0x20), 1);
    }
  }

  /** Main invariant: every completion the host can cause keeps it. */
  lemma StepInv(d: Device, e: Event)
    requires Inv(d) && Enabled(d, e)
    ensures Inv(Step(d, e))
  {
    hide FromLe32, Le32, FromBe32, CswImage, CardWrite, CardRead, Dispatch, ContinueRead;
    var r := d.(armed := d.armed - multiset{e.t});
    assert r.armed == multiset{};
    match d.state
    case Idle =>
      var l := Land(r, CbwBuffer, e.data);
      DispatchInv(l, e.sd);
      SendCswInv(l.(senseKey := 0x05, senseAsc := 0x24), 1);
    case Status =>
    case DataIn =>
      if d.ioLeft != 0 { ContinueReadInv(r, e.sd); } else { SendCswInv(r, 0); }
    case DataOut =>
      var l := Land(r, XferBuffer, e.data);
      StoreInv(l, e.sd);
  }

  lemma StoreInv(d: Device, sd: SdOutcome)
    requires Shape(d) && CardFits(d) && d.armed == multiset{}
    requires d.state == DataOut && Opcode(d.cbw) == WRITE10 && Progress(d)
    requires 1 <= d.ioChunk == Min(d.ioLeft, CHUNK_BLOCKS)
    ensures Inv(OnDataOut(d, BLOCK * d.ioChunk, sd))
  {
    hide FromLe32, Le32, FromBe32, CswImage, CardWrite, SendCsw, ArmWriteChunk;
    var write := CardWrite(d, d.ioLba, d.ioChunk, sd);
    if !write.0 {
      SendCswInv(write.1.(senseKey := 0x04, senseAsc := 0x03), 1);
    } else {
      var d' := write.1.(ioLba := Wrap32(d.ioLba + d.ioChunk), ioLeft := d.ioLeft - d.ioChunk);
      assert Wrap32(d.ioLeft - d.ioChunk) == d.ioLeft - d.ioChunk;
      if d'.ioLeft != 0 {
        assert Wrap32(d.ioLba + d.ioChunk) == d.ioLba + d.ioChunk;
        ArmWriteChunkInv(d');
      } else {
        SendCswInv(d', 0);
      }
    }
  }

  // ---- SD accesses

  /** An access inside the range a wrapper names, of the kind it names. */
  predicate InCommandRange(cbw: seq<byte>, a: Access)
    requires |cbw| == CBW_LENGTH
  {
    && Opcode(cbw) == (if a.write then WRITE10 else READ10)
    && Lba(cbw) <= a.lba && 1 <= a.blocks <= CHUNK_BLOCKS && a.lba + a.blocks <= Lba(cbw) + Count(cbw)
  }

  ghost predicate OneAccess(d: Device, r: Device)
    requires Shape(r)
  {
    || r.accesses == d.accesses
    || exists a: Access ::
         r.accesses == d.accesses + [a] && InCommandRange(r.cbw, a) && a.lba + a.blocks <= CardBlocks(d)
  }

  lemma ReadAccess(d: Device, sd: SdOutcome)
    requires Shape(d) && Progress(d) && Opcode(d.cbw) == READ10 && d.ioLeft != 0
    ensures OneAccess(d, ContinueRead(d, sd))
  {
    var a := Access(false, d.ioLba, Min(d.ioLeft, CHUNK_BLOCKS));
    assert ContinueRead(d, sd).accesses == d.accesses + [a];
  }

  lemma DispatchAccess(d: Device, sd: SdOutcome)
    requires Shape(d)
    ensures OneAccess(d, Dispatch(d, sd))
  {
    var op := Opcode(d.cbw);
    if (op == READ10 || op == WRITE10) && Count(d.cbw) != 0 && Lba(d.cbw) + Count(d.cbw) <= CardBlocks(d) {
      var d' := d.(ioLba := Lba(d.cbw), ioLeft := Count(d.cbw));
      if op == READ10 { ReadAccess(d', sd); }
    }
  }

  lemma WriteAccess(d: Device, sd: SdOutcome)
    requires Shape(d) && Progress(d) && Opcode(d.cbw) == WRITE10 && d.state == DataOut
    requires 1 <= d.ioChunk == Min(d.ioLeft, CHUNK_BLOCKS)
    ensures OneAccess(d, OnDataOut(d, BLOCK * d.ioChunk, sd))
  {
    var a := Access(true, d.ioLba, d.ioChunk);
    assert OnDataOut(d, BLOCK * d.ioChunk, sd).accesses == d.accesses + [a];
  }

  /**
   * Every completion makes at most one access to the card, read or write, failing
   * or not; it is of the kind and inside the range its command names, and on the card.
   */
  lemma AccessInRange(d: Device, e: Event)
    requires Inv(d) && Enabled(d, e)
    ensures OneAccess(d, Step(d, e))
  {
    hide FromLe32, Le32, FromBe32, CswImage;
    var r := d.(armed := d.armed - multiset{e.t});
    match d.state
    case Idle => DispatchAccess(Land(r, CbwBuffer, e.data), e.sd);
    case Status =>
    case DataIn => if d.ioLeft != 0 { ReadAccess(r, e.sd); }
    case DataOut => WriteAccess(Land(r, XferBuffer, e.data), e.sd);
  }

  /** One completion changes no byte of the card outside its write access, even when that fails. */
  lemma CardFrame(d: Device, e: Event, i: nat)
    requires Inv(d) && Enabled(d, e) && i < |d.card|
    requires d.state == DataOut ==> !(BLOCK * d.ioLba <= i < BLOCK * (d.ioLba + d.ioChunk))
    ensures |Step(d, e).card| == |d.card| && Step(d, e).card[i] == d.card[i]
  {
    hide Dispatch, ContinueRead, SendCsw, Fail, CardWrite, SdWrite, Overlay, InLength, Progress;
    if d.state == DataOut {
      var l := Land(d.(armed := d.armed - multiset{e.t}), XferBuffer, e.data);
      StoredCard(l, e.sd);
      WriteFrame(d.card, d.ioLba, l.xfer[..BLOCK * d.ioChunk], e.sd, i);
    }
  }

  lemma StoredCard(d: Device, sd: SdOutcome)
    requires Shape(d)
    ensures OnChunk(d, sd).card == SdWrite(d.card, d.ioLba, d.xfer[..BLOCK * d.ioChunk], sd).1
  {
    hide SdWrite;
  }

  lemma WriteFrame(card: seq<byte>, lba: nat, data: seq<byte>, sd: SdOutcome, i: nat)
    requires |data| % BLOCK == 0 && i < |card| && !(BLOCK * lba <= i < BLOCK * lba + |data|)
    ensures SdWrite(card, lba, data, sd).1[i] == card[i]
  {
  }

  /** A WRITE(10) chunk is stored whole: a short data phase is filled up with what the buffer held. */
  lemma ShortWriteKeepsStale(d: Device, e: Event)
    requires Inv(d) && d.state == DataOut && Enabled(d, e) && e.sd.SdOk?
    ensures |e.data| <= BLOCK * d.ioChunk
    ensures Step(d, e).card[BLOCK * d.ioLba..BLOCK * (d.ioLba + d.ioChunk)]
         == e.data + d.xfer[|e.data|..BLOCK * d.ioChunk]
  {
    var l := Land(d.(armed := d.armed - multiset{e.t}), XferBuffer, e.data);
    var chunk := l.xfer[..BLOCK * d.ioChunk];
    assert chunk == e.data + d.xfer[|e.data|..BLOCK * d.ioChunk];
  }

  // ---- Runs

  function Steps(d: Device, es: seq<Event>): (r: Device)
    requires Shape(d)
    ensures Shape(r)
    decreases |es|
  {
    if es == [] then d else Steps(Step(d, es[0]), es[1..])
  }

  /** A run the host can cause: each completion ends a transfer the controller owns. */
  ghost predicate Live(d: Device, es: seq<Event>)
    requires Shape(d)
    decreases |es|
  {
    es == [] || (Enabled(d, es[0]) && Live(Step(d, es[0]), es[1..]))
  }

  /** Over every run, every access to the card lies on the card, and the card keeps its size. */
  lemma {:induction false} RunStaysOnCard(d: Device, es: seq<Event>)
    requires Inv(d) && Live(d, es) && forall a :: a in d.accesses ==> OnCard(d.card, a.lba, a.blocks)
    ensures Inv(Steps(d, es)) && |Steps(d, es).card| == |d.card|
    ensures forall a :: a in Steps(d, es).accesses ==> OnCard(d.card, a.lba, a.blocks)
    decreases |es|
  {
    assert Shape(d);
    hide Inv, Step, Enabled, Shape;
    if es != [] {
      StepInv(d, es[0]);
      AccessInRange(d, es[0]);
      CardSize(d, es[0]);
      OnCardStill(d, Step(d, es[0]));
      RunStaysOnCard(Step(d, es[0]), es[1..]);
    }
  }

  lemma CardSize(d: Device, e: Event)
    requires Inv(d) && Enabled(d, e)
    ensures |Step(d, e).card| == |d.card| && CardFits(d)
  {
    hide FromLe32, Le32, FromBe32, CswImage, CardWrite, CardRead, Dispatch, ContinueRead;
  }

  lemma OnCardStill(d: Device, r: Device)
    requires Shape(d) && Shape(r) && OneAccess(d, r) && |r.card| == |d.card| && CardFits(d)
    requires forall a :: a in d.accesses ==> OnCard(d.card, a.lba, a.blocks)
    ensures forall a :: a in r.accesses ==> OnCard(r.card, a.lba, a.blocks)
  {
  }

  // ---- A wrapper that is too long

  /** The room of every transfer the class arms is what the driver programs for it. */
  lemma RoomIsProgrammed(blocks: nat)
    requires 1 <= blocks <= CHUNK_BLOCKS
    ensures Room(Receive(CbwBuffer, CBW_LENGTH)) == Endpoint.AlignMultiple(CBW_LENGTH, PACKET)
    ensures Room(Receive(XferBuffer, BLOCK * blocks)) == Endpoint.AlignMultiple(BLOCK * blocks, PACKET)
  {
    Endpoint.ProgrammedSize(CBW_LENGTH, PACKET);
    Endpoint.ChunksNeverBounce(blocks);
  }

  /**
   * A completion writes behind the wrapper buffer only when it brings a wrapper of more than 31
   * bytes, and then all of the rest.
   */
  lemma BehindWrapper(d: Device, e: Event)
    requires Inv(d) && Enabled(d, e)
    ensures
      var n := if d.state == Idle then |Overrun(e.data)| else 0;
      Step(d, e).behind == (if n > 0 then Overrun(e.data) else []) + d.behind[n..]
  {
    hide FromLe32, Le32, FromBe32, CswImage, CardWrite, CardRead;
  }

  /** So where every wrapper has room in its buffer, a run leaves the memory behind it alone. */
  lemma {:induction false} BehindKept(d: Device, es: seq<Event>)
    requires Inv(d) && Live(d, es)
    requires forall i :: 0 <= i < |es| ==> !es[i].t.buffer.CbwBuffer? || |es[i].data| <= CBW_LENGTH
    ensures Steps(d, es).behind == d.behind
    decreases |es|
  {
    assert Shape(d);
    if es != [] {
      WrapperWhenIdle(d, es[0]);
      hide Inv, Step, Enabled, Shape;
      StepInv(d, es[0]);
      BehindWrapper(d, es[0]);
      assert d.behind[0..] == d.behind;
      BehindKept(Step(d, es[0]), es[1..]);
    }
  }

  lemma WrapperWhenIdle(d: Device, e: Event)
    requires Inv(d) && Enabled(d, e)
    ensures d.state == Idle ==> e.t.buffer.CbwBuffer?
    ensures Overrun(e.data) == [] <==> |e.data| <= CBW_LENGTH
  {
  }

  /**
   * What a receive leaves in the machine's buffers is what the driver leaves in
   * memory where they stand: the splice of what arrived, at the wrapper over the
   * buffer and the memory behind it.
   */
  lemma LandIsSplice(d: Device, m: seq<byte>, at: nat, data: seq<byte>)
    requires Shape(d) && |data| <= PACKET && at + PACKET <= |m| && m[at..at + PACKET] == d.cbw + d.behind
    ensures
      var l := Land(d, CbwBuffer, data);
      Splice(m, at, data)[at..at + PACKET] == l.cbw + l.behind
  {
    var r, l := Splice(m, at, data), Land(d, CbwBuffer, data);
    forall i | 0 <= i < PACKET
      ensures r[at..at + PACKET][i] == (l.cbw + l.behind)[i]
    {
      assert m[at + i] == m[at..at + PACKET][i] == (d.cbw + d.behind)[i];
      assert r[at + i] == if i < |data| then data[i] else m[at + i];
    }
  }

  /** The same at the transfer buffer. */
  lemma LandIsSpliceOfData(d: Device, m: seq<byte>, at: nat, data: seq<byte>)
    requires Shape(d) && |data| <= |d.xfer| && at + |d.xfer| <= |m| && m[at..at + |d.xfer|] == d.xfer
    ensures Splice(m, at, data)[at..at + |d.xfer|] == Land(d, XferBuffer, data).xfer
  {
    var r, n := Splice(m, at, data), |d.xfer|;
    forall i | 0 <= i < n
      ensures r[at..at + n][i] == Land(d, XferBuffer, data).xfer[i]
    {
      assert m[at + i] == m[at..at + n][i] == d.xfer[i];
      assert r[at + i] == if i < |data| then data[i] else m[at + i];
    }
  }

  /**
   * Apart from what it writes behind its buffer such a wrapper is refused like any
   * other malformed one.  (`behind` holds nothing of the program here: if the linker
   * puts other state there, that is overwritten too.)
   */
  lemma LongWrapperRefused(d: Device, e: Event)
    requires Inv(d) && Enabled(d, e) && d.state == Idle && |e.data| != CBW_LENGTH
    ensures
      var r := Step(d, e);
      && r.state == Status && r.csw == CswImage(Tag(Overlay(d.cbw, e.data)), 1)
      && (r.senseKey, r.senseAsc) == (0x05, 0x24)
      && (r.card, r.xfer, r.accesses) == (d.card, d.xfer, d.accesses)
  {
    hide FromLe32, Le32, FromBe32, CswImage;
  }

  // ---- Bulk-only reset

  /** The reset re-arms the wrapper without cancelling anything: two transfers are armed, whatever the state. */
  lemma ResetArmsTwo(d: Device)
    requires Inv(d)
    ensures |ArmCbw(d).armed| == 2 && !Inv(ArmCbw(d))
    ensures d.state == Idle <==> ArmCbw(d).armed[Receive(CbwBuffer, CBW_LENGTH)] == 2
  {
    assert |d.armed| == 1;
    assert |ArmCbw(d).armed| == |d.armed| + 1;
  }
}
