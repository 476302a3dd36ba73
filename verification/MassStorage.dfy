/**
 * The mass-storage class itself: static state, three buffers and the callbacks
 * that update them in place.  `Abs()` is the state as a value; every method is
 * proved to be one function of BulkOnly on it.
 *
 * The SD card and the armed transfers stand for the hardware around the class.
 * `Complete` is the controller's move: it stores the received bytes in the buffer
 * it owns and calls the class back.  Every other write to a buffer demands that
 * no armed transfer names it.
 */
module MassStorage {
  import opened Bytes
  import opened Bot = BulkOnly
  import opened SdCard

  class Class {
    var state: BotState
    const cbw: array<byte>
    const behind: array<byte>
    const csw: array<byte>
    const xferBuf: array<byte>
    var ioLba: uint32
    var ioBlocksLeft: uint32
    var ioChunkBlocks: uint32
    var senseKey: byte
    var senseAsc: byte
    var card: seq<byte>
    var accesses: seq<Access>
    var armed: multiset<Transfer>

    ghost predicate Valid()
      reads this
    {
      && cbw.Length == CBW_LENGTH && behind.Length == PACKET - CBW_LENGTH
      && csw.Length == CSW_LENGTH && xferBuf.Length == CHUNK_BYTES
      && cbw != csw && cbw != xferBuf && csw != xferBuf
      && behind != cbw && behind != csw && behind != xferBuf
      && ioChunkBlocks <= CHUNK_BLOCKS
    }

    function Memory(b: Buffer): array<byte> {
      match b
      case CbwBuffer => cbw
      case CswBuffer => csw
      case XferBuffer => xferBuf
    }

    /** The controller does not own this buffer. */
    ghost predicate Free(b: Buffer)
      reads this`armed
    {
      forall t :: t in armed ==> t.buffer != b
    }

    ghost function Abs(): (d: Device)
      reads this, cbw, behind, csw, xferBuf
      requires Valid()
      ensures Shape(d)
    {
      Device(state, cbw[..], behind[..], csw[..], xferBuf[..], ioLba, ioBlocksLeft, ioChunkBlocks, senseKey, senseAsc,
             card, accesses, armed)
    }

    constructor (card: seq<byte>)
      ensures Valid() && fresh(cbw) && fresh(behind) && fresh(csw) && fresh(xferBuf)
      ensures Abs() == Configured(Abs()) && this.card == card && senseKey == 0 && senseAsc == 0
    {
      state := Idle;
      cbw := new byte[CBW_LENGTH];
      behind := new byte[PACKET - CBW_LENGTH];
      csw := new byte[CSW_LENGTH];
      xferBuf := new byte[CHUNK_BYTES];
      ioLba, ioBlocksLeft, ioChunkBlocks := 0, 0, 0;
      senseKey, senseAsc := 0, 0;
      this.card := card;
      accesses := [];
      armed := multiset{};
      new;
      ArmCbw();
    }

    /** Little-endian store of a 32-bit field into a packed struct. */
    method PutLe32(b: Buffer, at: nat, v: uint32)
      requires Valid() && Free(b) && at + 4 <= Memory(b).Length
      modifies Memory(b)
      ensures Memory(b)[..] == old(Memory(b)[..at]) + Le32(v) + old(Memory(b)[at + 4..])
    {
      var a, image := Memory(b), Le32(v);
      a[at], a[at + 1], a[at + 2], a[at + 3] := image[0], image[1], image[2], image[3];
    }

    method PutByte(b: Buffer, at: nat, v: byte)
      requires Valid() && Free(b) && at < Memory(b).Length
      modifies Memory(b)
      ensures Memory(b)[..] == old(Memory(b)[..])[at := v]
    {
      Memory(b)[at] := v;
    }

    /** memcpy into the start of a buffer. */
    method Fill(b: Buffer, src: seq<byte>)
      requires Valid() && Free(b) && |src| <= Memory(b).Length
      modifies Memory(b)
      ensures Memory(b)[..] == Overlay(old(Memory(b)[..]), src)
    {
      Memcpy(Memory(b), src);
    }

    method ArmCbw()
      requires Valid()
      modifies this`state, this`armed
      ensures Valid() && Abs() == Bot.ArmCbw(old(Abs()))
    {
      state := Idle;
      armed := armed + multiset{Receive(CbwBuffer, CBW_LENGTH)};
    }

    method SendCsw(status: byte)
      requires Valid() && Free(CswBuffer)
      modifies this`state, this`armed, csw
      ensures Valid() && Abs() == Bot.SendCsw(old(Abs()), status)
    {
      hide FromLe32, Le32;
      PutLe32(CswBuffer, 0, CSW_SIGNATURE);
      PutLe32(CswBuffer, 4, FromLe32(cbw[4..8]));
      PutLe32(CswBuffer, 8, 0);
      PutByte(CswBuffer, 12, status);
      assert cbw[4..8] == cbw[..][4..8];
      assert csw[..] == CswImage(Tag(cbw[..]), status);
      state := Status;
      armed := armed + multiset{Transmit(CswBuffer, CSW_LENGTH)};
    }

    method Fail(key: byte, asc: byte)
      requires Valid() && Free(CswBuffer)
      modifies this`state, this`armed, this`senseKey, this`senseAsc, csw
      ensures Valid() && Abs() == Bot.Fail(old(Abs()), key, asc)
    {
      senseKey, senseAsc := key, asc;
      SendCsw(1);
    }

    method SendData(data: seq<byte>)
      requires Valid() && Free(XferBuffer) && |data| <= CHUNK_BYTES
      modifies this`state, this`armed, this`ioBlocksLeft, xferBuf
      ensures Valid() && Abs() == Bot.SendData(old(Abs()), data)
    {
      var len := |data|;
      if len > DataLength(cbw[..]) {
        len := DataLength(cbw[..]);
      }
      Fill(XferBuffer, data[..len]);
      state := DataIn;
      ioBlocksLeft := 0;
      armed := armed + multiset{Transmit(XferBuffer, len)};
    }

    /** sd_read: fills the start of the transfer buffer, or fails and leaves some bytes in it. */
    method ReadCard(lba: nat, blocks: nat, sd: SdOutcome) returns (ok: bool)
      requires Valid() && Free(XferBuffer) && blocks <= CHUNK_BLOCKS
      modifies this`accesses, xferBuf
      ensures Valid() && (ok, Abs()) == CardRead(old(Abs()), lba, blocks, sd)
    {
      hide SdRead, FromLe32, Le32;
      assert xferBuf[..BLOCK * blocks] == xferBuf[..][..BLOCK * blocks];
      var (good, got) := SdRead(card, lba, blocks, xferBuf[..BLOCK * blocks], sd);
      Fill(XferBuffer, got);
      accesses := accesses + [Access(false, lba, blocks)];
      ok := good;
    }

    /** sd_write from the start of the transfer buffer. */
    method WriteCard(lba: nat, blocks: nat, sd: SdOutcome) returns (ok: bool)
      requires Valid() && blocks <= CHUNK_BLOCKS
      modifies this`accesses, this`card
      ensures Valid() && (ok, Abs()) == CardWrite(old(Abs()), lba, blocks, sd)
    {
      hide SdWrite, FromLe32, Le32;
      assert xferBuf[..BLOCK * blocks] == xferBuf[..][..BLOCK * blocks];
      var (good, card') := SdWrite(card, lba, xferBuf[..BLOCK * blocks], sd);
      card := card';
      accesses := accesses + [Access(true, lba, blocks)];
      ok := good;
    }

    method ContinueRead(sd: SdOutcome)
      requires Valid() && Free(CswBuffer) && Free(XferBuffer)
      modifies this`state, this`armed, this`accesses, this`ioLba, this`ioBlocksLeft, this`ioChunkBlocks
      modifies this`senseKey, this`senseAsc, csw, xferBuf
      ensures Valid() && Abs() == Bot.ContinueRead(old(Abs()), sd)
    {
      hide FromLe32, FromBe32, CswImage, CardRead, Bot.Fail, Bot.SendChunk;
      var blocks := ioBlocksLeft;
      if blocks > CHUNK_BLOCKS {
        blocks := CHUNK_BLOCKS;
      }
      var ok := ReadCard(ioLba, blocks, sd);
      if ok { SendChunk(blocks); } else { Fail(0x04, 0x11); }
    }

    method SendChunk(blocks: nat)
      requires Valid() && blocks <= CHUNK_BLOCKS && blocks <= ioBlocksLeft
      modifies this`state, this`armed, this`ioLba, this`ioBlocksLeft, this`ioChunkBlocks
      ensures Valid() && Abs() == Bot.SendChunk(old(Abs()), blocks)
    {
      ioLba := Wrap32(ioLba + blocks);
      ioBlocksLeft := ioBlocksLeft - blocks;
      ioChunkBlocks := blocks;
      state := DataIn;
      armed := armed + multiset{Transmit(XferBuffer, BLOCK * blocks)};
    }

    method ArmWriteChunk()
      requires Valid()
      modifies this`state, this`armed, this`ioChunkBlocks
      ensures Valid() && Abs() == Bot.ArmWriteChunk(old(Abs()))
    {
      var blocks := ioBlocksLeft;
      if blocks > CHUNK_BLOCKS {
        blocks := CHUNK_BLOCKS;
      }
      ioChunkBlocks := blocks;
      state := DataOut;
      armed := armed + multiset{Receive(XferBuffer, BLOCK * blocks)};
    }

    /** The dispatch cases that answer with data. */
    method DispatchReply(op: byte)
      requires Valid() && Free(XferBuffer) && op == Opcode(cbw[..]) && IsReply(op)
      modifies this, csw, xferBuf
      ensures Valid() && Abs() == Bot.Dispatch(old(Abs()), SdOk)
    {
      hide InquiryData, SenseData, Be32, FromLe32, FromBe32, Bot.SendData;
      var blocks := |card| / BLOCK;
      if op == INQUIRY {
        SendData(InquiryData());
      } else if op == READ_CAPACITY10 {
        SendData(Be32(Wrap32(Wrap32(blocks) - 1)) + [0, 0, 2, 0]);
      } else if op == READ_FORMAT_CAPACITY {
        SendData([0, 0, 0, 8] + Be32(Wrap32(blocks)) + [2, 0, 2, 0]);
      } else if op == MODE_SENSE6 {
        SendData([3, 0, 0, 0]);
      } else {
        var sense := SenseData(senseKey, senseAsc);
        senseKey, senseAsc := 0, 0;
        SendData(sense);
      }
    }

    /** The dispatch cases of READ(10) and WRITE(10). */
    method DispatchBlocks(op: byte, sd: SdOutcome)
      requires Valid() && Free(CswBuffer) && Free(XferBuffer)
      requires op == Opcode(cbw[..]) && (op == READ10 || op == WRITE10)
      modifies this, csw, xferBuf
      ensures Valid() && Abs() == Bot.Dispatch(old(Abs()), sd)
    {
      hide FromLe32, FromBe32, CswImage, Bot.Fail, Bot.SendCsw, Bot.ArmWriteChunk, Bot.ContinueRead;
      var lba, cnt := Lba(cbw[..]), Count(cbw[..]);
      if cnt == 0 {
        SendCsw(0);
      } else if lba + cnt > |card| / BLOCK {
        Fail(0x05, 0x21);
      } else {
        ioLba := lba;
        ioBlocksLeft := cnt;
        if op == READ10 { ContinueRead(sd); } else { ArmWriteChunk(); }
      }
    }

    method CmdDispatch(sd: SdOutcome)
      requires Valid() && Free(CswBuffer) && Free(XferBuffer)
      modifies this, csw, xferBuf
      ensures Valid() && Abs() == Bot.Dispatch(old(Abs()), sd)
    {
      var op := Opcode(cbw[..]);
      if IsPing(op) {
        SendCsw(0);
      } else if IsReply(op) {
        DispatchReply(op);
      } else if op == READ10 || op == WRITE10 {
        DispatchBlocks(op, sd);
      } else {
        Fail(0x05, 0x20);
      }
    }

    method OnDataIn(sd: SdOutcome)
      requires Valid() && Free(CswBuffer) && Free(XferBuffer)
      modifies this, csw, xferBuf
      ensures Valid() && Abs() == Bot.OnDataIn(old(Abs()), sd)
    {
      if state == DataIn {
        if ioBlocksLeft != 0 { ContinueRead(sd); } else { SendCsw(0); }
      } else if state == Status {
        ArmCbw();
      }
    }

    /** The write case of the data-out callback. */
    method OnChunk(sd: SdOutcome)
      requires Valid() && Free(CswBuffer)
      modifies this, csw
      ensures Valid() && Abs() == Bot.OnChunk(old(Abs()), sd)
    {
      hide FromLe32, FromBe32, CswImage, CardWrite, Bot.Fail, Bot.SendCsw, Bot.ArmWriteChunk;
      var ok := WriteCard(ioLba, ioChunkBlocks, sd);
      if !ok {
        Fail(0x04, 0x03);
        return;
      }
      ioLba := Wrap32(ioLba + ioChunkBlocks);
      ioBlocksLeft := Wrap32(ioBlocksLeft - ioChunkBlocks);
      if ioBlocksLeft != 0 { ArmWriteChunk(); } else { SendCsw(0); }
    }

    method OnDataOut(xferCount: nat, sd: SdOutcome)
      requires Valid() && Free(CswBuffer) && Free(XferBuffer)
      modifies this, csw, xferBuf
      ensures Valid() && Abs() == Bot.OnDataOut(old(Abs()), xferCount, sd)
    {
      hide FromLe32, FromBe32, CswImage, Bot.Fail, Bot.Dispatch, Bot.OnChunk;
      if state == Idle {
        if xferCount == CBW_LENGTH && Signature(cbw[..]) == CBW_SIGNATURE {
          CmdDispatch(sd);
        } else {
          Fail(0x05, 0x24);
        }
      } else if state == DataOut {
        OnChunk(sd);
      }
    }

    /** The controller's own write, to a buffer it owns; a long wrapper reaches the memory behind its buffer. */
    method Store(t: Transfer, data: seq<byte>)
      requires Valid() && t in armed && t.Receive? && |data| <= Room(t)
      requires (t.buffer.CswBuffer? ==> |data| <= CSW_LENGTH)
      requires t.buffer.XferBuffer? ==> |data| <= CHUNK_BYTES
      modifies cbw, behind, csw, xferBuf
      ensures Valid() && Abs() == Land(old(Abs()), t.buffer, data)
    {
      match t.buffer
      case CbwBuffer =>
        if |data| <= CBW_LENGTH {
          Memcpy(cbw, data);
          assert Overlay(behind[..], []) == behind[..];
        } else {
          Memcpy(cbw, data[..CBW_LENGTH]);
          Memcpy(behind, data[CBW_LENGTH..]);
        }
      case CswBuffer => Memcpy(csw, data);
      case XferBuffer => Memcpy(xferBuf, data);
    }

    /** The controller ends a transfer it owns and the class is called back. */
    method Complete(e: Event)
      requires Valid() && Enabled(Abs(), e) && Inv(Abs())
      modifies this, cbw, behind, csw, xferBuf
      ensures Valid() && Abs() == Step(old(Abs()), e)
      ensures Inv(Abs())
    {
      hide Inv, FromLe32, FromBe32, CswImage, Bot.OnDataIn, Bot.OnDataOut;
      ghost var d := Abs();
      StepInv(d, e);
      OnlyTransfer(d, e);
      if e.t.Receive? {
        Store(e.t, e.data);
      }
      armed := armed - multiset{e.t};
      assert armed == multiset{};
      if e.t.Transmit? {
        OnDataIn(e.sd);
      } else {
        OnDataOut(|e.data|, e.sd);
      }
    }
  }

  /** The completed transfer was the only one armed, and what it brings fits the buffer but for a long wrapper. */
  lemma OnlyTransfer(d: Device, e: Event)
    requires Inv(d) && Enabled(d, e)
    ensures d.armed == multiset{e.t} && (e.t.Receive? ==> !e.t.buffer.CswBuffer?)
    ensures e.t.Receive? && e.t.buffer.XferBuffer? ==> |e.data| <= CHUNK_BYTES
  {
  }

  /** memcpy into the start of an array. */
  method Memcpy(dst: array<byte>, src: seq<byte>)
    requires |src| <= dst.Length
    modifies dst
    ensures dst[..] == Overlay(old(dst[..]), src)
  {
    var i := 0;
    while i < |src|
      invariant 0 <= i <= |src|
      invariant dst[..i] == src[..i]
      invariant dst[i..] == old(dst[i..])
    {
      dst[i] := src[i];
      i := i + 1;
    }
  }
}
