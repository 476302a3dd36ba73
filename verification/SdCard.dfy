/**
 * The SD card as its users see it: a run of 512-byte blocks, read and written in
 * whole blocks by accesses that may fail.  The driver below is not part of this
 * model.
 */
module SdCard {
  import opened Bytes

  const BLOCK := 512

  /** What one access does.  A failing one leaves any bytes in its target. */
  datatype SdOutcome = SdOk | SdError(residue: seq<byte>)

  predicate OnCard(card: seq<byte>, lba: nat, blocks: nat) {
    BLOCK * (lba + blocks) <= |card|
  }

  function Blocks(card: seq<byte>, lba: nat, blocks: nat): (s: seq<byte>)
    requires OnCard(card, lba, blocks)
    ensures |s| == BLOCK * blocks
  {
    card[BLOCK * lba..BLOCK * (lba + blocks)]
  }

  function SdRead(card: seq<byte>, lba: nat, blocks: nat, target: seq<byte>, sd: SdOutcome): (r: (bool, seq<byte>))
    requires |target| == BLOCK * blocks
    ensures |r.1| == |target|
  {
    match sd
    case SdError(residue) => (false, Overlay(target, residue))
    case SdOk =>
      if OnCard(card, lba, blocks) then (true, Blocks(card, lba, blocks)) else (false, target)
  }

  function SdWrite(card: seq<byte>, lba: nat, data: seq<byte>, sd: SdOutcome): (r: (bool, seq<byte>))
    requires |data| % BLOCK == 0
    ensures |r.1| == |card|
  {
    if !OnCard(card, lba, |data| / BLOCK) then (false, card)
    else match sd
      case SdOk => (true, Splice(card, BLOCK * lba, data))
      case SdError(residue) => (false,
        Splice(card, BLOCK * lba, Overlay(card[BLOCK * lba..BLOCK * lba + |data|], residue)))
  }
}
