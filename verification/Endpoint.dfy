/**
 * An OUT endpoint of the DWC3 driver: a short request goes through a bounce
 * buffer of one packet, every other one straight to the caller; completion works
 * out how much arrived from what the controller left of the programmed size.
 */
module Endpoint {
  import opened Bytes
  import opened SdCard

  const TRB_SIZE_LIMIT := 0x100_0000

  /** The driver's ALIGN_MULTIPLE. */
  function AlignMultiple(x: nat, a: nat): nat
    requires a > 0
  {
    a * (x / a + (if x % a != 0 then 1 else 0))
  }

  /** It rounds up to the next multiple, and keeps multiples. */
  lemma AlignIs(x: nat, a: nat)
    requires a > 0
    ensures x <= AlignMultiple(x, a) < x + a && AlignMultiple(x, a) % a == 0
    ensures AlignMultiple(x, a) == x <==> x % a == 0
    ensures 0 < x < a ==> AlignMultiple(x, a) == a
  {
    var q, r := x / a, x % a;
    assert x == a * q + r;
    assert a * (q + 1) == a * q + a;
    if 0 < x < a { assert q == 0; }
    MultipleOf(a, q);
    MultipleOf(a, q + 1);
  }

  lemma MultipleOf(a: nat, q: nat)
    requires a > 0
    ensures (a * q) % a == 0
  {
    var p: int := a * q;
    var d: int := q - p / a;
    assert p % a == a * d;
    assert d >= 1 ==> a * d >= a;
    assert d <= -1 ==> a * d <= 0 - a;
  }

  predicate Bounces(len: nat, mps: nat) {
    0 < len < mps
  }

  /** A request whose transfer cannot write past the caller's `len` bytes. */
  predicate Contained(len: nat, mps: nat)
    requires mps > 0
  {
    len < mps || len % mps == 0
  }

  /** Exactly these requests leave the controller no room behind the caller's buffer. */
  lemma ContainedIff(len: nat, mps: nat)
    requires mps > 0
    ensures Contained(len, mps) <==> (Bounces(len, mps) || AlignMultiple(len, mps) <= len)
  {
    AlignIs(len, mps);
  }

  /** One packet for a bounced request, the request itself for any other that is contained. */
  lemma ProgrammedSize(len: nat, mps: nat)
    requires mps > 0 && Contained(len, mps)
    ensures AlignMultiple(len, mps) == if Bounces(len, mps) then mps else len
    ensures len <= AlignMultiple(len, mps)
  {
    AlignIs(len, mps);
  }

  // ---- What a transfer may write

  /** Whatever `n` bytes arrive for a request of `len` bytes at `at`, memory outside the request keeps its contents. */
  ghost predicate Harmless(m: seq<byte>, at: nat, len: nat, n: nat)
    requires at + n <= |m|
  {
    forall data: seq<byte> :: |data| == n ==> SameOutside(m, Splice(m, at, data), at, at + len)
  }

  /** Exactly when no more bytes arrive than were asked for. */
  lemma HarmlessIff(m: seq<byte>, at: nat, len: nat, n: nat)
    requires at + n <= |m|
    ensures Harmless(m, at, len, n) <==> n <= len
  {
    if n > len {
      var other: byte := if m[at + len] == 0 then 1 else 0;
      var data: seq<byte> := seq(n, _ => other);
      assert Splice(m, at, data)[at + len] == other;
    }
  }

  /**
   * For a contained request, and any number of bytes the controller may take for
   * it: memory outside the caller's buffer is safe if and only if the request does
   * not bounce or no more arrives than was asked for.
   */
  lemma HarmlessUnlessBounced(m: seq<byte>, at: nat, len: nat, mps: nat, n: nat)
    requires mps > 0 && Contained(len, mps) && n <= AlignMultiple(len, mps) && at + n <= |m|
    ensures Harmless(m, at, len, n) <==> (!Bounces(len, mps) || n <= len)
  {
    HarmlessIff(m, at, len, n);
    ProgrammedSize(len, mps);
  }

  /** The case at hand: a 31-byte wrapper bounces, a whole packet of 512 bytes fits, and 481 of them go astray. */
  lemma WrapperOverrun(m: seq<byte>, at: nat, data: seq<byte>)
    requires |data| == 512 && at + 512 <= |m|
    ensures Bounces(31, 512) && AlignMultiple(31, 512) == 512
    ensures Splice(m, at, data)[at + 31..at + 512] == data[31..]
    ensures !Harmless(m, at, 31, 512)
  {
    ProgrammedSize(31, 512);
    HarmlessIff(m, at, 31, 512);
  }

  /** Where a transfer buffer is: nowhere, the endpoint's bounce buffer, or an address in memory. */
  datatype Pointer = Null | Bounce | Ram(at: nat)

  class OutEndpoint {
    const maxPacket: nat
    const bounceBuf: array<byte>
    const ram: array<byte>
    var xferBuff: Pointer
    var xferLen: nat
    var xferCount: nat
    var xferDestBuff: Pointer
    var xferDestLen: nat
    /** The size word of the transfer descriptor: set by the driver, counted down by the controller. */
    var trbSize: nat
    var queued: bool

    ghost predicate Valid()
      reads this
    {
      0 < maxPacket <= 1024 && bounceBuf.Length == maxPacket && bounceBuf != ram
    }

    constructor (mps: nat, memory: array<byte>)
      requires 0 < mps <= 1024
      ensures Valid() && maxPacket == mps && ram == memory && fresh(bounceBuf) && !queued
    {
      maxPacket, ram := mps, memory;
      bounceBuf := new byte[mps](_ => 0);
      xferBuff, xferDestBuff := Null, Null;
      xferLen, xferCount, xferDestLen, trbSize := 0, 0, 0, 0;
      queued := false;
    }

    /** What is armed for a request of `len` bytes into `buf`. */
    ghost predicate Armed(buf: Pointer, len: nat)
      reads this
    {
      Valid() && queued && xferLen == AlignMultiple(len, maxPacket) && trbSize == xferLen % TRB_SIZE_LIMIT &&
      (if Bounces(len, maxPacket) then xferBuff == Bounce && xferDestBuff == buf && xferDestLen == len
       else xferBuff == buf)
    }

    /** usb_dwc3_ep_start_xfer for an OUT endpoint; the controller accepts the command or not. */
    method StartXfer(ep0: bool, enabled: bool, accepted: bool) returns (ok: bool)
      requires Valid() && xferLen < TWO_32
      modifies this
      ensures Valid() && ok == ((enabled || ep0) && accepted) && xferCount == old(xferCount)
      ensures ok ==> Armed(old(xferBuff), old(xferLen))
      ensures ok ==>
        if 0 < old(xferLen) < maxPacket
        then xferBuff == Bounce && xferDestBuff == old(xferBuff) && xferDestLen == old(xferLen)
        else xferBuff == old(xferBuff)
      ensures ok ==>
        && old(xferLen) <= xferLen < old(xferLen) + maxPacket && xferLen % maxPacket == 0
        && queued && trbSize == xferLen % 0x100_0000
      ensures !enabled && !ep0 ==> unchanged(this)
      ensures (enabled || ep0) && !accepted ==> !queued
    {
      var len := xferLen;
      AlignIs(len, maxPacket);
      if !enabled && !ep0 {
        return false;
      }
      if len != 0 && len < maxPacket {
        xferDestBuff := xferBuff;
        xferDestLen := xferLen;
        xferBuff := Bounce;
        xferLen := AlignMultiple(len, maxPacket);
      } else {
        xferLen := AlignMultiple(len, maxPacket);
      }
      trbSize := xferLen % TRB_SIZE_LIMIT;
      queued := true;
      if !accepted {
        queued := false;
        return false;
      }
      ok := true;
    }

    /** usb_core_receive. */
    method Receive(ep0: bool, enabled: bool, accepted: bool, buf: Pointer, len: nat) returns (ok: bool)
      requires Valid() && len < TWO_32
      modifies this
      ensures Valid() && ok == ((enabled || ep0) && accepted) && xferCount == 0
      ensures ok ==> Armed(buf, len)
    {
      xferBuff := buf;
      xferLen := len;
      xferCount := 0;
      ok := StartXfer(ep0, enabled, accepted);
    }

    /** The controller: stores what the host sent where the transfer points and counts the size down. */
    method Deliver(data: seq<byte>)
      requires Valid() && queued && |data| <= trbSize
      requires match xferBuff
               case Null => data == []
               case Bounce => |data| <= maxPacket
               case Ram(at) => at + |data| <= ram.Length
      modifies this`trbSize, bounceBuf, ram
      ensures Valid() && trbSize == old(trbSize) - |data|
      ensures bounceBuf[..] == if xferBuff.Bounce? then Overlay(old(bounceBuf[..]), data) else old(bounceBuf[..])
      ensures ram[..] == if xferBuff.Ram? then Splice(old(ram[..]), xferBuff.at, data) else old(ram[..])
    {
      if xferBuff.Bounce? {
        forall i | 0 <= i < |data| {
          bounceBuf[i] := data[i];
        }
      } else if xferBuff.Ram? {
        var at := xferBuff.at;
        forall i | 0 <= i < |data| {
          ram[at + i] := data[i];
        }
      }
      trbSize := trbSize - |data|;
      assert bounceBuf[..] == if xferBuff.Bounce? then Overlay(old(bounceBuf[..]), data) else old(bounceBuf[..]);
      assert ram[..] == if xferBuff.Ram? then Splice(old(ram[..]), xferBuff.at, data) else old(ram[..]);
    }

    /**
     * The transfer-complete event of an OUT endpoint.  A bounced transfer is copied
     * to its destination whole: its length there is not looked at.
     */
    method Complete()
      requires Valid() && queued && trbSize <= xferLen
      requires xferBuff.Bounce? ==> xferLen <= maxPacket && xferDestBuff.Ram?
      requires xferBuff.Bounce? ==> xferDestBuff.at + (xferLen - trbSize) <= ram.Length
      modifies this, ram
      ensures Valid() && !queued && xferLen == old(xferLen) && xferCount == old(xferLen) - old(trbSize)
      ensures xferBuff == if old(xferBuff).Bounce? then old(xferDestBuff) else old(xferBuff)
      ensures ram[..] ==
        if old(xferBuff).Bounce? then Splice(old(ram[..]), old(xferDestBuff).at, bounceBuf[..xferCount])
          else old(ram[..])
    {
      xferCount := xferLen - trbSize;
      queued := false;
      if xferBuff.Bounce? {
        var at := xferDestBuff.at;
        forall i | 0 <= i < xferCount {
          ram[at + i] := bounceBuf[i];
        }
        xferBuff := xferDestBuff;
        assert ram[..] == Splice(old(ram[..]), at, bounceBuf[..xferCount]);
      }
    }

    /**
     * A whole OUT transfer, for any request and whatever the controller takes of it:
     * exactly the bytes that arrived stand at the caller's address and are counted,
     * and no other memory has changed.  Whether that stays inside the caller's buffer
     * is the matter of `HarmlessIff`.
     */
    method Transfer(at: nat, len: nat, data: seq<byte>)
      requires Valid() && AlignMultiple(len, maxPacket) < TRB_SIZE_LIMIT
      requires |data| <= AlignMultiple(len, maxPacket) && at + |data| <= ram.Length
      modifies this, ram, bounceBuf
      ensures Valid() && xferBuff == Ram(at) && xferCount == |data|
      ensures ram[..] == Splice(old(ram[..]), at, data)
      ensures xferLen == AlignMultiple(len, maxPacket)
      ensures !Bounces(len, maxPacket) ==> bounceBuf[..] == old(bounceBuf[..])
    {
      SizeFits(len, maxPacket);
      hide AlignMultiple, Bounces;
      var ok := Receive(false, true, true, Ram(at), len);
      assert trbSize == xferLen;
      Deliver(data);
      ghost var arrived := bounceBuf[..];
      Complete();
      assert Bounces(len, maxPacket) ==> arrived[..|data|] == data;
    }
  }

  /** The programmed size of a bounced request is one packet, and no size is smaller than its request. */
  lemma SizeFits(len: nat, mps: nat)
    requires mps > 0
    ensures len <= AlignMultiple(len, mps) && (Bounces(len, mps) ==> AlignMultiple(len, mps) == mps)
  {
    AlignIs(len, mps);
  }

  /** The mass-storage data chunks are whole packets: they go straight into the transfer buffer at their exact size. */
  lemma ChunksNeverBounce(blocks: nat)
    requires 1 <= blocks && BLOCK * blocks < TRB_SIZE_LIMIT
    ensures !Bounces(BLOCK * blocks, BLOCK) && Contained(BLOCK * blocks, BLOCK)
    ensures AlignMultiple(BLOCK * blocks, BLOCK) == BLOCK * blocks
  {
    MultipleOf(BLOCK, blocks);
    AlignIs(BLOCK * blocks, BLOCK);
  }
}
