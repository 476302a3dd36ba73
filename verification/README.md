# A model of the STM32MP257 bootloader

A Dafny model of three stacks of the bootloader and of two smaller cores, with
proofs of what they promise.

* **USB mass storage.** `BulkOnly` is the Bulk-Only Transport class as a state
  machine on values; `MassStorage` performs its steps in place on the statics and
  buffers of the program; `BlockDevice` proves that every run refines a plain
  block device with a sense pair, and `ScsiBytes` says in byte positions and
  numbers what the host finds on the wire. `Endpoint` is the DWC3 driver's start and
  completion of OUT transfers with their bounce buffer, `Control` the data stages
  of control transfers on endpoint 0.
* **Console.** `Printf` is the formatted printer, down to its reversed digit
  buffer; `PrintfGrammar` and `PrintfIso` compare the specifications it reads and the
  fields it prints with the C standard, and `PrintfDirective` whole directives and
  formats; `PrintfPlain` spells out what plain directives print, character by
  character. `CStrings` has the string functions, and
  `PrintParse` the round trip through both. `Console` is the
  receive ring, `Commands` command lookup, completion and the argument parser,
  `LineEditor` the command line as a plain string editor, `CommandLine` the
  buffer, history ring and indices that refine it, and `Session` the main loop's
  pushes and polls over whole runs; `LineLaws` has what every key does and what every
  line calls, in characters.
* **DDR training.** `Mailbox` is the message format and the host's receive loop,
  `Handshake` the four-phase protocol as two interleaved parties. `Retention` is
  the tracked-register list that survives a reset, `RetentionList` the routine
  that fills it, and `RetentionNumbers` its list by places and addresses.
* **Images.** `ImageHeader` compares the C and the Python builder of boot images,
  `ImageBytes` gives their files by offsets, and `Boot` is the chunked loader of
  the boot command.

`Bytes` and `Numerals` hold machine integers, byte orders and digit strings,
`SdCard` whole-block accesses to the card that may fail.
Code that updates state in place is a class or a method over arrays, proved
against functions on values; the lemmas are about those functions.

Where the code and its documentation disagree, the model follows the code:

* `strtoul` is announced with an optional sign but takes only a plus
  (`CStrings.SignTaken`).
* The retention list is meant to hold 283 registers, but its test lets in 284. A
  save then stores the 284th value outside the retention area
  (`Retention.OverfullIff`, `Retention.OverfullTaken`); the LPDDR4 configuration of
  8 address blocks and 4 bytes uses exactly 283.
* A transfer shorter than a packet is received through the bounce buffer and then
  copied whole, however long its destination is. A wrapper of more than 31 bytes
  therefore overwrites what stands behind the wrapper buffer
  (`Endpoint.HarmlessUnlessBounced`, `Endpoint.WrapperOverrun`,
  `BulkOnly.BehindWrapper`), before it is refused (`BulkOnly.LongWrapperRefused`).
* On endpoint 0 the core programs the remaining length again after every packet, each
  time from the start of the buffer, while the driver has the whole of it sent at
  once. A control IN data stage of more than one packet therefore sends too much
  (`Control.StageOnWire`, `Control.HostGetsData`, `Control.SplitSendsTwice`).
* The bulk-only reset arms the wrapper receive without cancelling anything
  (`BulkOnly.ResetArmsTwo`).
* Conversions differ from ISO C11 section 7.21.6.1, with the exact conditions
  in `PrintfDirective.DirectiveIsIso`. Under `-` the precision is not
  honoured (`PrintfIso.LeftDropsPrecision`). `#` with a width equal to the digit
  count removes digits (`PrintfIso.HashDropsDigits`) and with an octal precision
  adds a zero (`PrintfIso.HashAddsZero`). `%hhd` of a negative byte prints a positive
  number (`PrintfDirective.ByteLosesSign`). A negative star precision counts as zero
  instead of none (`PrintfDirective.NegativePrecisionLosesZero`,
  `PrintfDirective.NegativePrecisionLosesString`). Widths and precisions are taken
  modulo 2^32 (`PrintfDirective.OutOfRangeText`). Fields of more than 32 zeros or
  digits are cut by the buffer, and lose a minus (`PrintfPlain.ZerosCut`).
* A kernel image of more than 65536 blocks overlaps the dtb in memory, but on the
  card it overlaps it in the same place, so that both images stay intact
  (`Boot.BothIntact`).

Hardware and the far side of each interface are parameters: the outcome of every
SD access, the data of every completion, the firmware's words and time-outs as
"gave up", the controller's acceptance of a command, the PHY's state after a reset.

## Model

| member | source | states |
|---|---|---|
| BulkOnly.ConfiguredInv | bootloader/drivers/usb/usb_msc.c:280-292 | selecting the configuration establishes the invariant: one transfer is armed, the 31-byte wrapper |
| BulkOnly.StepInv | bootloader/drivers/usb/usb_msc.c:110-384 | every completion the host can cause, with any data the armed transfer has room for (512 bytes for a wrapper) and any SD outcome, keeps the invariant: exactly one armed transfer, counted with multiplicity, its direction and buffer decided by bot_state, its length by bot_state, the chunk and the wrapper, block progress inside the command's range and the range on the card |
| BulkOnly.ContinueReadInv | bootloader/drivers/usb/usb_msc.c:145-165 | a READ(10) step keeps the invariant, and without an SD error it arms data rather than fail |
| BulkOnly.ArmWriteChunkInv | bootloader/drivers/usb/usb_msc.c:167-179 | an armed WRITE(10) chunk is between 1 and 32 blocks and no more than is left |
| BulkOnly.DispatchInv | bootloader/drivers/usb/usb_msc.c:181-276 | whatever the wrapper asks for, dispatching it leaves exactly one transfer armed |
| BulkOnly.StoreInv | bootloader/drivers/usb/usb_msc.c:364-378 | the write step keeps the invariant through its 32-bit block arithmetic, failing or not |
| BulkOnly.AccessInRange | bootloader/drivers/usb/usb_msc.c:145-179 | every completion of the machine makes at most one card access, recorded where the machine reads or writes, failing or not; it is of the kind and inside the range its command names, and on the card |
| BulkOnly.RunStaysOnCard | bootloader/drivers/usb/usb_msc.c:145-179 | over every run from a state of the invariant, no access is ever off the card |
| BulkOnly.RoomIsProgrammed | bootloader/drivers/usb/usb_dwc3.c:817-825 | the room of the wrapper receive and of every data chunk is the size the driver programs for it |
| BulkOnly.BehindWrapper | bootloader/drivers/usb/usb_msc.c:348-358 | a completion writes behind the wrapper buffer exactly the bytes of a wrapper from the 32nd on, and nothing otherwise |
| BulkOnly.BehindKept | bootloader/drivers/usb/usb_msc.c:110-384 | over every run in which no wrapper exceeds 31 bytes the memory behind the wrapper buffer keeps its contents |
| BulkOnly.LongWrapperRefused | bootloader/drivers/usb/usb_msc.c:348-358 | supposing that nothing of the program stands behind the wrapper buffer, a wrapper of any length but 31 is refused with status 1 and sense 05/24 and touches neither card, transfer buffer nor accesses |
| BulkOnly.LandIsSplice | bootloader/drivers/usb/usb_dwc3.c:1337-1381 | what a wrapper receive leaves in the machine's buffer and behind it is, byte for byte, what the driver's transfer leaves in memory there: the splice of the bytes that arrived |
| BulkOnly.LandIsSpliceOfData | bootloader/drivers/usb/usb_dwc3.c:1337-1381 | likewise at the transfer buffer |
| BulkOnly.CardFrame | bootloader/drivers/usb/usb_msc.c:364-378 | a completion changes no byte of the card outside its own write access, even a failing one |
| BulkOnly.ShortWriteKeepsStale | bootloader/drivers/usb/usb_msc.c:364-366 | a short WRITE(10) data phase is filled up with what the transfer buffer held before |
| BulkOnly.ResetArmsTwo | bootloader/drivers/usb/usb_msc.c:312-314 | the bulk-only reset, which cancels nothing, leaves two transfers armed in every state, in the idle state the same one twice |
| MassStorage.Class.constructor | bootloader/drivers/usb/usb_msc.c:91-103 | the statics after configuration are the machine's initial state |
| MassStorage.Class.ArmCbw | bootloader/drivers/usb/usb_msc.c:110-114 | re-arming the wrapper in place: the buffers and statics updated in place become exactly the machine's next state |
| MassStorage.Class.SendCsw | bootloader/drivers/usb/usb_msc.c:116-124 | filling the status wrapper in place, tag copied, residue zero, and arming it: the buffers and statics updated in place become exactly the machine's next state |
| MassStorage.Class.Fail | bootloader/drivers/usb/usb_msc.c:126-131 | setting the sense pair and answering with status 1: the buffers and statics updated in place become exactly the machine's next state |
| MassStorage.Class.SendData | bootloader/drivers/usb/usb_msc.c:134-143 | copying a reply, cut to the host's length, into the transfer buffer and arming it: the buffers and statics updated in place become exactly the machine's next state |
| MassStorage.Class.ReadCard | bootloader/drivers/usb/usb_msc.c:153-156 | a card read into the transfer buffer that may fail and leave anything there: the buffers and statics updated in place become exactly the machine's next state |
| MassStorage.Class.WriteCard | bootloader/drivers/usb/usb_msc.c:365-368 | a card write from the transfer buffer: the buffers and statics updated in place become exactly the machine's next state |
| MassStorage.Class.SendChunk | bootloader/drivers/usb/usb_msc.c:157-164 | arming a chunk that was read: the buffers and statics updated in place become exactly the machine's next state |
| MassStorage.Class.OnChunk | bootloader/drivers/usb/usb_msc.c:364-378 | the write case of the data-out callback: the buffers and statics updated in place become exactly the machine's next state |
| MassStorage.Class.ContinueRead | bootloader/drivers/usb/usb_msc.c:145-165 | the next read chunk: the buffers and statics updated in place become exactly the machine's next state |
| MassStorage.Class.ArmWriteChunk | bootloader/drivers/usb/usb_msc.c:167-179 | the next write chunk: the buffers and statics updated in place become exactly the machine's next state |
| MassStorage.Class.DispatchReply | bootloader/drivers/usb/usb_msc.c:192-245 | the replying commands: the buffers and statics updated in place become exactly the machine's next state |
| MassStorage.Class.DispatchBlocks | bootloader/drivers/usb/usb_msc.c:247-270 | the range check and start of READ(10) and WRITE(10): the buffers and statics updated in place become exactly the machine's next state |
| MassStorage.Class.CmdDispatch | bootloader/drivers/usb/usb_msc.c:181-276 | the command switch: the buffers and statics updated in place become exactly the machine's next state |
| MassStorage.Class.OnDataIn | bootloader/drivers/usb/usb_msc.c:323-346 | the data-in callback: the buffers and statics updated in place become exactly the machine's next state |
| MassStorage.Class.OnDataOut | bootloader/drivers/usb/usb_msc.c:348-384 | the data-out callback: the buffers and statics updated in place become exactly the machine's next state |
| MassStorage.Class.Fill | bootloader/drivers/usb/usb_msc.c:134-143 | every write of the class to a buffer, this one and the stores into the status wrapper, demands that no armed transfer names the buffer |
| MassStorage.Class.Store | bootloader/drivers/usb/usb_dwc3.c:1337-1381 | the controller writes only the buffer of a transfer it owns, and behind the wrapper buffer what a long wrapper brings |
| MassStorage.Class.Complete | bootloader/drivers/usb/usb_msc.c:323-384 | one whole completion, in place, is one step of the machine and keeps its invariant |
| BlockDevice.RunRefines | bootloader/drivers/usb/usb_msc.c:110-384 | main refinement: in every run, whatever data of whatever lengths the host sends, supposing for wrappers above 31 bytes that nothing of the program stands behind their buffer, the finished commands are, in order, executions of a plain block device, each on the disk the one before left; each wrapper but the one in service has had exactly one status wrapper carrying its tag; a WRITE(10) whose data phases were full stored what the host sent |
| BlockDevice.ObserveRefines | bootloader/drivers/usb/usb_msc.c:323-384 | one completion, in any state of any command, keeps the refinement |
| BlockDevice.ContinueReadRefines | bootloader/drivers/usb/usb_msc.c:145-165 | each read chunk holds the next blocks of the range, in order, and a failing one ends the command as the reference does |
| BlockDevice.WritingRefines | bootloader/drivers/usb/usb_msc.c:364-378 | each stored chunk makes the card the old card with the chunks so far spliced in at the command's address, a short one filled up with the buffer's old bytes |
| BlockDevice.FullPhase | bootloader/drivers/usb/usb_msc.c:364-378 | as long as no data phase was short the chunks stored are the bytes the host sent |
| BlockDevice.WriteFaultRefines | bootloader/drivers/usb/usb_msc.c:365-368 | a failing write leaves the earlier chunks stored, damages at most its own chunk, and ends the command with write fault |
| BlockDevice.RepliesAgree | bootloader/drivers/usb/usb_msc.c:192-245 | inquiry, capacity, format capacity, mode sense and request sense replies are the reference's, cut to the host's length |
| BlockDevice.NoFaultNoSurprise | bootloader/drivers/usb/usb_msc.c:145-179 | without an SD error a READ(10) delivers exactly the blocks [lba, lba+cnt), a WRITE(10) replaces exactly those, the status is 0 and there are exactly cnt/32, rounded up, data transfers |
| BlockDevice.ReadBack | bootloader/drivers/usb/usb_msc.c:364-378 | after a write, a block inside the range is the written block and any other is unchanged |
| BlockDevice.SenseIsLastFailure | bootloader/drivers/usb/usb_msc.c:234-245 | over any command history the sense pair is that of the last failure since the last REQUEST SENSE, or zero after it |
| BlockDevice.SenseReported | bootloader/drivers/usb/usb_msc.c:234-245 | REQUEST SENSE reports exactly that pair, cut to the host's length |
| BlockDevice.StepRank | bootloader/drivers/usb/usb_msc.c:145-179 | every completion of a running command strictly decreases blocks left plus stages left |
| BlockDevice.CommandEnds | bootloader/drivers/usb/usb_msc.c:323-384 | however completions, data lengths and SD errors go, the device is back waiting for a wrapper after at most that many |
| ScsiBytes.CommandServed | bootloader/drivers/usb/usb_msc.c:110-384 | over every run each finished command does what its 31 bytes ask for, by byte positions and numbers alone: READ(10) and WRITE(10) with their outcomes, the bytes of the five replies, cut to bytes 8 to 11, and the status and sense pair of every other wrapper; each on the card and sense pair the one before left |
| ScsiBytes.ReadDelivers | bootloader/drivers/usb/usb_msc.c:145-165 | a sealed wrapper with byte 15 at 0x28, block number in bytes 17 to 20 and count in bytes 22 and 23, highest first, brings card[512*lba..512*(lba+cnt)] if no SD access failed |
| ScsiBytes.WriteReplaces | bootloader/drivers/usb/usb_msc.c:364-378 | with byte 15 at 0x2A it replaces exactly that slice by what the host sent, if also no data phase was short |
| ScsiBytes.StatusBytes | bootloader/drivers/usb/usb_msc.c:116-124 | the 13 bytes of every status wrapper: 55 53 42 53, bytes 4 to 7 of the command's own wrapper, four zeros, the status |
| ScsiBytes.OneAfterTheOther | bootloader/drivers/usb/usb_msc.c:323-384 | each command finds the card and the sense pair as the command before it left them |
| Endpoint.AlignIs | bootloader/drivers/usb/usb_dwc3.c:469 | the rounding macro gives the least multiple that is not smaller, and keeps multiples |
| Endpoint.ContainedIff | bootloader/drivers/usb/usb_dwc3.c:817-825 | the transfer leaves the controller no room behind the caller's buffer if and only if the request is shorter than a packet or a multiple of it |
| Endpoint.ProgrammedSize | bootloader/drivers/usb/usb_dwc3.c:817-825 | a contained request is programmed as one packet if it bounces and at its own length otherwise |
| Endpoint.OutEndpoint.StartXfer | bootloader/drivers/usb/usb_dwc3.c:800-854 | starting an OUT transfer arms the rounded size, through the bounce buffer iff 0 < length < packet size; the size word keeps 24 bits; a refused command queues nothing |
| Endpoint.OutEndpoint.Receive | bootloader/drivers/usb/usb_device.c:625-648 | the core's receive call resets the count and arms the caller's buffer |
| Endpoint.HarmlessIff | bootloader/drivers/usb/usb_dwc3.c:1337-1381 | storing n bytes at the caller's address leaves the memory behind the caller's buffer alone, whatever the bytes, if and only if n is at most the request |
| Endpoint.HarmlessUnlessBounced | bootloader/drivers/usb/usb_dwc3.c:817-825 | for a request that is shorter than a packet or a multiple of it, and any number of bytes the controller takes, memory outside the caller's buffer is safe if and only if the transfer did not bounce or no more arrived than was asked for |
| Endpoint.WrapperOverrun | bootloader/drivers/usb/usb_dwc3.c:1337-1381 | a 512-byte packet for the 31-byte wrapper request puts its last 481 bytes behind the buffer |
| Endpoint.OutEndpoint.Deliver | bootloader/drivers/usb/usb_dwc3.c:800-854 | the controller stores what arrives where the transfer points, in memory or in the bounce buffer, and counts the size down |
| Endpoint.OutEndpoint.Complete | bootloader/drivers/usb/usb_dwc3.c:1337-1381 | completion counts size minus what is left, copies all of a bounced transfer to its destination, whatever was asked for, and gives the pointer back |
| Endpoint.OutEndpoint.Transfer | bootloader/drivers/usb/usb_dwc3.c:800-854 | start, any n bytes up to the programmed size, completion: exactly those n bytes stand at the caller's address, no other memory has changed and the count is n |
| Endpoint.ChunksNeverBounce | bootloader/drivers/usb/usb_msc.c:60-62 | a request of whole 512-byte blocks below 2^24 bytes, as every mass-storage data chunk is, neither bounces nor exceeds its length |
| Control.PacketsAre | bootloader/drivers/usb/usb_device.c:410-441 | n bytes make n/m packets, rounded up, all full but perhaps the last, which is full iff m divides n |
| Control.InDataStage | bootloader/drivers/usb/usb_device.c:410-441 | without packet-split avoidance the IN data stage reaches the status stage after exactly n/m completions, rounded up, plus one zero-length packet iff m divides n and n < wLength |
| Control.WholeDataStage | bootloader/drivers/usb/usb_device.c:410-441 | with packet-split avoidance it does so after one completion, plus one under the same condition |
| Control.OnePacketEach | bootloader/drivers/usb/usb_device.c:417-421 | the lengths the core programs, cut to one packet each, are the packets of the data: its splitting is made for a controller that sends one packet of each transfer, which the driver's does not |
| Control.StageOnWire | bootloader/drivers/usb/usb_dwc3.c:741-743 | the controller sends a programmed transfer whole; so a finished IN data stage has put the packets of its n bytes on the wire, and one without data iff m divides n and n < wLength, if and only if packet-split avoidance is built in or n <= m |
| Control.HostGetsData | bootloader/drivers/usb/usb_device.c:410-441 | the bytes sent, each transfer taking its from the start of the same buffer, are the data under exactly the same condition |
| Control.SplitSendsTwice | bootloader/drivers/usb/usb_device.c:410-441 | 65 bytes in packets of 64: transfers of 65 and 1 bytes are programmed and packets of 64, 1 and 1 bytes sent |
| Control.HostSeesTheEnd | bootloader/drivers/usb/usb_device.c:427-436 | every packet on the wire before the last is full, together they are n bytes, and the last is short unless the host got all it asked for (USB 2.0 section 8.5.3.2), if and only if packet-split avoidance is built in or n <= m |
| Control.RankDecreases | bootloader/drivers/usb/usb_device.c:371-441 | every completion in the IN and in the OUT data stage strictly decreases a measure |
| Control.OutDataStage | bootloader/drivers/usb/usb_device.c:371-400 | the OUT data stage reaches its status stage after exactly n/m completions, rounded up, asking for single packets after the first |
| Control.OutAsksTwice | bootloader/drivers/usb/usb_device.c:371-400 | it asks for n bytes at first and for all behind the first packet again, for more than n in all iff n > m |
| Control.Core.SetupStage | bootloader/drivers/usb/usb_device.c:328-341 | wLength is the number whose little-endian image ends the setup packet |
| Control.Core.GetDesc | bootloader/drivers/usb/usb_device.c:120-125 | a descriptor is cut to the length asked for, and nothing is sent if either is zero |
| Control.Core.StartIn | bootloader/drivers/usb/usb_device.c:721-740 | starting the IN stage sets the stage, total and remainder |
| Control.Core.StartOut | bootloader/drivers/usb/usb_device.c:692-711 | starting the OUT stage likewise |
| Control.Core.DataInDone | bootloader/drivers/usb/usb_device.c:410-441 | the data-in handler, updating its fields in place, is the stage function |
| Control.Core.DataOutDone | bootloader/drivers/usb/usb_device.c:371-400 | the data-out handler likewise |
| Mailbox.LogConsumed | bootloader/drivers/ddr/phyinit/ddrphy_phyinit_usercustom_g_waitfwdone.c:135-184 | for every firmware log, with streaming blocks of any length and any words, the loop's reading stops exactly behind the first terminal major message and gives its result |
| Mailbox.StopsAtTerminal | bootloader/drivers/ddr/phyinit/ddrphy_phyinit_usercustom_g_waitfwdone.c:135-184 | reading word by word, the loop has stopped iff exactly the log up to that message was read |
| Mailbox.MessageConsumed | bootloader/drivers/ddr/phyinit/ddrphy_phyinit_usercustom_g_waitfwdone.c:150-170 | a streaming block is consumed whole, whatever its words, 0x07 and 0xFF included |
| Mailbox.Host.GetMajorMessage | bootloader/drivers/ddr/phyinit/ddrphy_phyinit_usercustom_g_waitfwdone.c:65-87 | a major message is the low half of the next word; giving up consumes nothing |
| Mailbox.Host.GetStreamingMessage | bootloader/drivers/ddr/phyinit/ddrphy_phyinit_usercustom_g_waitfwdone.c:89-116 | a streaming word is put together from both halves |
| Mailbox.Host.SkipBlock | bootloader/drivers/ddr/phyinit/ddrphy_phyinit_usercustom_g_waitfwdone.c:150-170 | the streaming loop reads the length word and exactly that many words |
| Mailbox.ReadsToEnd | bootloader/drivers/ddr/phyinit/ddrphy_phyinit_usercustom_g_waitfwdone.c:135-184 | for every log in which each message begins where the one before ends, a low half of 8 announcing a block of as many words as the low half of its second word says: the reading stops exactly behind the first message whose low half is 7 or 0xFF |
| Mailbox.Host.WaitFwDone | bootloader/drivers/ddr/phyinit/ddrphy_phyinit_usercustom_g_waitfwdone.c:135-184 | the receive loop returns 0 iff it stopped at a success message, and fails only at a failure message or when a wait gave up; in numbers, with enough patience it takes the log up to the first message whose low half is 7 or 0xFF and returns 0 iff that is 7 |
| Handshake.StepInv | bootloader/drivers/ddr/phyinit/ddrphy_phyinit_usercustom_g_waitfwdone.c:23-63 | every register access of either party, and every time-out, keeps the handshake invariant |
| Handshake.RunSafe | bootloader/drivers/ddr/phyinit/ddrphy_phyinit_usercustom_g_waitfwdone.c:23-116 | the invariant holds over every interleaving |
| Handshake.Prefix | bootloader/drivers/ddr/phyinit/ddrphy_phyinit_usercustom_g_waitfwdone.c:23-116 | in every interleaving the received words are a prefix of those sent, each as posted, and at most one behind |
| Handshake.ReadsAreStable | bootloader/drivers/ddr/phyinit/ddrphy_phyinit_usercustom_g_waitfwdone.c:75-104 | whenever the host reads a data register the firmware is not changing it and it holds the posted word |
| Handshake.TrainingOutcome | bootloader/drivers/ddr/phyinit/ddrphy_phyinit_usercustom_g_waitfwdone.c:135-184 | end to end: if the host stops without giving up it took exactly the log up to its first terminal message and reports that message |
| Handshake.TimeoutEnds | bootloader/drivers/ddr/phyinit/ddrphy_phyinit_usercustom_g_waitfwdone.c:23-63 | a wait that gives up ends the reception for good: whatever turns follow, the host receives nothing more and writes no register |
| Handshake.NoDeadlock | bootloader/drivers/ddr/phyinit/ddrphy_phyinit_usercustom_g_waitfwdone.c:23-63 | some party can always move, and every move that changes anything uses up a finite amount of work |
| Handshake.FairRunTerminates | bootloader/drivers/ddr/phyinit/ddrphy_phyinit_usercustom_g_waitfwdone.c:23-63 | without time-outs, as many stretches of turns as there is work end the exchange, if each stretch holds a turn of both parties, in whatever order and number |
| Handshake.TrainingCompletes | bootloader/drivers/ddr/phyinit/ddrphy_phyinit_usercustom_g_waitfwdone.c:135-184 | every log with a terminal message is received up to it and its result reported under any such fair turns |
| Handshake.OutcomeByWords | bootloader/drivers/ddr/phyinit/ddrphy_phyinit_usercustom_g_waitfwdone.c:135-184 | the outcome in numbers: a host that stops without giving up took the log up to the first message whose low half is 7 or 0xFF and reports success iff it is 7 |
| Handshake.CompletesByWords | bootloader/drivers/ddr/phyinit/ddrphy_phyinit_usercustom_g_waitfwdone.c:135-184 | and under any fair turns every log with such a message is received up to it, with success reported iff its low half is 7 |
| Printf.OutBuffer | bootloader/utils/printf.c:130-136 | a character is stored iff its index is below the limit, and nothing else changes |
| Printf.OutSpaces | bootloader/utils/printf.c:217-219 | a padding loop emits exactly width minus length spaces |
| Printf.OutRev | bootloader/utils/printf.c:209-235 | the digit buffer is emitted backwards with its padding, each character at its index or not at all |
| Printf.FillZeros | bootloader/utils/printf.c:249-255 | zeros are added up to the wanted length or the end of the 32-character buffer |
| Printf.PushHash | bootloader/utils/printf.c:259-279 | the # step with its removal of digits, as a function of the buffer |
| Printf.NtoaFormat | bootloader/utils/printf.c:238-292 | padding, prefix, sign and reversal together emit the field of the buffer's digits |
| Printf.NtoaDigits | bootloader/utils/printf.c:310-316 | the conversion loop stores the number's low digits, least significant first, at most 32 |
| Printf.Ntoa | bootloader/utils/printf.c:295-321 | a number is emitted as its field, through the reversed buffer |
| Printf.OutCharField | bootloader/utils/printf.c:852-870 | %c emits the padded character |
| Printf.OutStrField | bootloader/utils/printf.c:872-896 | %s emits the string cut at the precision, padded to the width |
| Printf.StrnlenS | bootloader/utils/printf.c:183-189 | the bounded length of a string |
| Printf.Atoi | bootloader/utils/printf.c:199-206 | the decimal number in the format, modulo 2^32, and where it ends |
| Printf.ScanDirective | bootloader/utils/printf.c:639-737 | flags, width, precision and length are read as the directive's grammar says, arguments for stars included |
| Printf.OutInteger | bootloader/utils/printf.c:741-827 | an integer conversion picks base, flags and 8-, 16-, 32- or 64-bit value and emits its field |
| Printf.OutDirective | bootloader/utils/printf.c:740-928 | the conversion switch emits the directive's text and consumes its argument |
| Printf.OutItem | bootloader/utils/printf.c:627-929 | one turn of the main loop emits the next piece of the rendered text |
| Printf.Vsnprintf | bootloader/utils/printf.c:616-936 | for every format, arguments and limit n: the result is the length of the full text, whatever n is; the first min(length, n-1) characters and a NUL are stored; nothing else of the buffer changes (ISO C11 section 7.21.6.5) |
| Printf.EmittedAppend | bootloader/utils/printf.c:130-136 | emitting two pieces one after the other is emitting them joined, however the limit cuts them |
| Printf.EmittedTerminated | bootloader/utils/printf.c:931-932 | the final NUL lands behind the text or in the last place |
| PrintfGrammar.SpecRead | bootloader/utils/printf.c:639-737 | every conversion specification of the grammar in ISO C11 section 7.21.6.1, stars, bare periods and length modifiers included, before any conversion character and anywhere in a format, is read as it is meant, arguments in order, if and only if its precision is not a star with a negative argument, which is read as a precision of zero, and width and precision are below 2^32, modulo which they are read |
| PrintfGrammar.FlagsRead | bootloader/utils/printf.c:641-670 | flags in any order and number set exactly the flags written |
| PrintfGrammar.NumberRead | bootloader/utils/printf.c:199-206 | the digits of a width or precision are read as the number they denote, modulo 2^32 |
| PrintfIso.FieldIsIso | bootloader/utils/printf.c:209-321 | without #, for every value, width, precision and flags: the field is the one of ISO C11 section 7.21.6.1 if and only if an explicit condition on digits, sign, precision and width holds |
| PrintfIso.HashFieldIsIso | bootloader/utils/printf.c:209-321 | with # and no precision: the field is the standard's if and only if the width differs from the digit count, or for zero padding an explicit condition on width, digits and prefix |
| PrintfIso.HashZeroIsIso | bootloader/utils/printf.c:303-306 | for zero # is dropped, and the field is the standard's if and only if the condition without # holds and it is not octal with precision zero |
| PrintfIso.HashPrecisionIsIso | bootloader/utils/printf.c:238-292 | with # and a precision, of a nonzero value: the field is the standard's if and only if the precision is at most the digits (one more in octal) under -, and otherwise at most 30 in hexadecimal, at most the digits or exactly 32 in octal |
| PrintfIso.IntFieldIsIso | bootloader/utils/printf.c:209-321 | the four cases in one: every integer field of every base, flags, width and precision |
| PrintfIso.LeftDropsPrecision | bootloader/utils/printf.c:244-256 | %-.3d of 7 prints 7 where the standard has 007 |
| PrintfIso.HashAddsZero | bootloader/utils/printf.c:268-279 | %#.4o of 8 prints 00010 where the standard has 0010 |
| PrintfIso.HashDropsDigits | bootloader/utils/printf.c:260-266 | %#4x of 0x1234 prints 0x34 where the standard has 0x1234 |
| PrintfIso.PrintedDigits | bootloader/utils/printf.c:310-316 | read backwards the buffer is the numeral, most significant digit first, of at most 22 digits |
| PrintfIso.LeftField | bootloader/utils/printf.c:244-256 | under the minus flag the field is the standard's iff the precision does not exceed the digits |
| PrintfIso.ZeroTooWide | bootloader/utils/printf.c:252-255 | zero padding beyond 32 characters is cut short |
| PrintfIso.LongPrecision | bootloader/utils/printf.c:249-251 | with a precision that does not fit the buffer the field is the standard's only in one exactly described case |
| PrintfDirective.DirectiveIsIso | bootloader/utils/printf.c:639-896 | the whole directive: for every specification of the grammar with d, i, u, x, X, o, c or s, anywhere in a format, and any arguments, the printed text is the standard's field if and only if `Agrees` holds: width and precision below 2^32 and, for integers, no negative byte under hh, for a negative star precision a nonzero value that zeros need not pad, otherwise the condition on the field; for strings, no character too few taken that is not a blank in place of padding; the arguments left are the standard's either way |
| PrintfDirective.TextIsIso | bootloader/utils/printf.c:739-827 | its integer part: reading of the flags, conversion of the value and field together |
| PrintfDirective.StringIsIso | bootloader/utils/printf.c:872-896 | its string part, for strings of any length |
| PrintfDirective.CharIsIso | bootloader/utils/printf.c:852-870 | its character part |
| PrintfDirective.OutOfRangeText | bootloader/utils/printf.c:199-206 | with a width or precision of 2^32 or more an integer field always comes out too short |
| PrintfDirective.FormatIsIso | bootloader/utils/printf.c:627-929 | a whole format of characters, %% and such directives prints the standard's output when every directive meets its condition |
| PrintfDirective.FlagsAgree | bootloader/utils/printf.c:757-776 | the four flag adjustments of the integer conversions leave exactly the flags that mean something there |
| PrintfDirective.ByteText | bootloader/utils/printf.c:794-800 | %hhd and %hhi of a byte from 0x80 on never print the standard's text, whatever flags, width and precision |
| PrintfDirective.ImposedOnValue | bootloader/utils/printf.c:683-698 | a precision flag set for a negative star changes a nonzero field exactly when zeros should have padded it |
| PrintfDirective.ImposedOnZero | bootloader/utils/printf.c:683-698 | for zero it always changes the field |
| PrintfDirective.ByteLosesSign | bootloader/utils/printf.c:794-800 | %hhd of -1 prints 255 |
| PrintfDirective.NegativePrecisionLosesZero | bootloader/utils/printf.c:683-698 | %.*d of 0 with -1 prints nothing where the standard has 0 |
| PrintfDirective.NegativePrecisionLosesString | bootloader/utils/printf.c:872-896 | %.*s of any string with -1 prints nothing where the standard has the string |
| PrintfPlain.DecimalShown | bootloader/utils/printf.c:739-827 | %d, %i, %hd and %ld print a minus for a negative number and digits 0 to 9 that denote its magnitude, a zero in front only for zero; the number is the argument's in 32, 16 or 64 bits, two's complement |
| PrintfPlain.UnsignedShown | bootloader/utils/printf.c:739-827 | %u, %x, %X, %o, %hhu, %hx and %lX likewise for the argument modulo 2^32, 2^8, 2^16 or 2^64, with the digits of the base listed, small letters for x and capitals for X |
| PrintfPlain.PointerShown | bootloader/utils/printf.c:898-917 | %p prints sixteen digits 0 to 9 and A to F that denote all 64 bits |
| PrintfPlain.BinaryShown | bootloader/utils/printf.c:739-827 | %b prints the low 32 bits in zeros and ones |
| PrintfPlain.TextShown | bootloader/utils/printf.c:852-922 | %c prints the character of the low byte, %s the string and %% a percent sign |
| PrintfPlain.OtherShown | bootloader/utils/printf.c:924-927 | any character behind % that neither continues a specification nor converts anything stands for itself |
| PrintfPlain.WidthShown | bootloader/utils/printf.c:209-235 | with a width, written in digits, %d fills up with blanks in front, and behind under the minus flag |
| PrintfPlain.ZerosShown | bootloader/utils/printf.c:249-255 | and under the 0 flag, up to 32 places, with zeros behind the minus |
| PrintfPlain.ZerosCut | bootloader/utils/printf.c:249-292 | in a wider field there are exactly 32 places, and a minus has none of them |
| PrintfPlain.PrecisionShown | bootloader/utils/printf.c:249-255 | a precision, up to 31, puts zeros between sign and digits |
| PrintfPlain.SignsShown | bootloader/utils/printf.c:282-290 | %+d and % d show a plus or a blank of a number that is not negative |
| PrintfPlain.PrefixShown | bootloader/utils/printf.c:259-279 | %#x, %#X and %#o put 0x, 0X and 0 in front of a number that is not zero |
| PrintfPlain.ReportShown | bootloader/src/boot.c:96-99 | %08X, as load_sd reports, fills %X up to eight digits with zeros |
| PrintfPlain.ReportedAs | bootloader/utils/printf.c:312-314 | 0xABCDEF is shown as 00ABCDEF by %08X and as abcdef by %x |
| Numerals.ValueOfNumeral | bootloader/utils/printf.c:310-316 | the numeral of a number denotes it, in each base |
| Numerals.LowDigitsReverse | bootloader/utils/printf.c:310-316 | the low digits reversed are the numeral |
| Numerals.NumeralIs | bootloader/utils/printf.c:310-316 | every numeral consists of the digits of its base as listed, letters in the case asked for, denotes its number by their places in that list, and starts with a zero only for zero |
| CStrings.TextEnds | bootloader/utils/string.c:50-57 | a string is what stands before its first zero character |
| CStrings.Strlen | bootloader/utils/string.c:50-57 | the length up to the terminator |
| CStrings.Strncmp | bootloader/utils/string.c:59-72 | zero iff the first n characters agree; otherwise the difference at the first disagreement |
| CStrings.Strchr | bootloader/utils/string.c:74-82 | the first place of the character, terminator included, or none |
| CStrings.Strncpy | bootloader/utils/string.c:84-94 | the string cut at n, filled up with NULs, and the rest of the destination untouched |
| CStrings.Strtoul | bootloader/utils/string.c:97-141 | the loops compute the value, modulo 2^64, and the end position of the parse function |
| CStrings.AccumulateRun | bootloader/utils/string.c:117-135 | a run of digits of the base is read to its end and denotes its value modulo 2^64 |
| CStrings.SignTaken | bootloader/utils/string.c:102-107 | at the first non-blank a sign is passed over if and only if it is a plus; behind a minus nothing is read and the end is the minus |
| CStrings.NumberRead | bootloader/utils/string.c:97-141 | base 0 reads every number as it may be written, in digits 0 to 9, behind a zero in digits 0 to 7, or behind 0x or 0X in digits 0 to 9 and letters of either case, wherever it stands and up to the first character that is no letter or digit, modulo 2^64 |
| CStrings.InFront | bootloader/utils/string.c:100-107 | blanks, tabs and one plus in front are passed over; at a minus nothing is read |
| CStrings.ReadsBack | bootloader/utils/string.c:97-141 | base 0 reads back every 64-bit number written in decimal, 0x or 0X hex, or octal, anywhere in a text, and stops right behind it |
| PrintParse.Prints | bootloader/utils/printf.c:739-827 | %lu, %#lx, %#lX and %#lo print a number in its notation, zero without a prefix |
| PrintParse.PrintThenParse | bootloader/utils/string.c:97-141 | for every 64-bit value and each of the four formats, strtoul with base 0 returns the value and stops at the terminator |
| PrintParse.StoreAndLoad | bootloader/utils/string.c:97-141 | the same through memory: printed into a caller's buffer and parsed from it |
| Console.Ring.constructor | bootloader/src/console.c:16-21 | the ring starts empty with its flags clear |
| Console.Ring.Push | bootloader/src/console.c:23-39 | break bytes vanish, the interrupt byte sets its flag, any other byte is appended unless 63 are waiting, and sets the key flag |
| Console.Ring.RxEmpty | bootloader/src/console.c:59-62 | empty iff nothing waits |
| Console.Ring.RxGet | bootloader/src/console.c:64-69 | the oldest byte is taken; called on an empty ring it would bring back 63 old ones |
| Console.Ring.Interrupted | bootloader/src/console.c:41-48 | the interrupt flag is reported once and cleared |
| Console.Ring.KeyPressed | bootloader/src/console.c:50-57 | the key flag likewise |
| Console.Fifo | bootloader/src/console.c:23-69 | over every sequence of pushes and takes: delivered bytes followed by waiting ones are the accepted ones, in order, at most 63 waiting |
| Console.LosslessIff | bootloader/src/console.c:33-37 | all data bytes are accepted if and only if none of them met a full ring |
| Commands.Resolve | bootloader/src/cmd.c:269-285 | the search finds the exact name if there is one, else the only command the token is a prefix of, else none or ambiguous |
| Commands.ResolvesOnce | bootloader/src/cmd.c:269-285 | that rule determines the answer |
| Commands.Matches | bootloader/src/cmd.c:274-276 | comparing the token's length decides whether it is a prefix, and the next character whether it is the whole name |
| Commands.UniqueMatch | bootloader/src/cmd.c:312-327 | the counting loop finds the name to complete to iff exactly one has the text as a prefix |
| Commands.CompletedResolves | bootloader/src/cmd.c:312-331 | a completed prefix selects the command it was completed to, and completing again adds nothing |
| Commands.PassLabel | bootloader/src/cmd.c:239-245 | a name= in front of a number is passed over, and nothing else is |
| Commands.ParseArgs | bootloader/src/cmd.c:223-260 | the parser's loops store the numbers of the parse function, at most three, and count them; a failed one stores zero |
| Commands.OneArg | bootloader/src/cmd.c:235-257 | any gap of blanks, optional name= and number in any notation are read as that number, up to its last digit |
| Commands.NothingFrom | bootloader/src/cmd.c:247-249 | from a word that no number begins, behind a name= or without one, nothing is read |
| Commands.ArgsOfLine | bootloader/src/cmd.c:223-260 | for every command word and arguments, whatever blanks, names and notations, the parser returns exactly the first three values, each modulo 2^32, as far as a word comes that is no number |
| LineEditor.PressSound | bootloader/src/cmd.c:312-417 | every key keeps the line and all remembered lines at most 31 printable characters and the cursor on a line that was entered |
| LineEditor.HistoryIsNewest | bootloader/src/cmd.c:163-181 | over every run of keys the history is the last min(8, n) non-empty lines entered |
| LineEditor.ArrowKeys | bootloader/src/cmd.c:341-369 | three bytes make one arrow key |
| LineEditor.UpsRecall | bootloader/src/cmd.c:183-199 | k ups from no selection recall the k-th newest line, or the oldest |
| LineEditor.DownsUndoUps | bootloader/src/cmd.c:201-215 | downs take back ups one by one, and past the newest leave an empty line |
| LineEditor.Typed | bootloader/src/cmd.c:391-396 | printable characters are appended as far as 31 allow |
| LineEditor.BackspaceUndoes | bootloader/src/cmd.c:383-389 | backspace takes back a typed character iff the line was not full |
| LineEditor.LineRuns | bootloader/src/cmd.c:262-310 | a line of a word and arguments runs the command the word resolves to with exactly the numbers behind it |
| LineEditor.CommandsAreTable | bootloader/src/cmd.c:44-119 | the command table's names fit the line buffer |
| LineEditor.AfterSnoc | bootloader/src/cmd.c:371-412 | runs of keys compose |
| CommandLine.PastAdd | bootloader/src/cmd.c:163-181 | writing the row at the head and moving it makes the ring hold the new line in front and drop the ninth |
| CommandLine.PrevAge | bootloader/src/cmd.c:183-199 | the modular index arithmetic of history_prev is one step older, stopping at the oldest |
| CommandLine.NextAge | bootloader/src/cmd.c:201-215 | that of history_next is one step newer, meeting the head past the newest |
| CommandLine.CopyLine | bootloader/src/cmd.c:154-159 | strncpy over a row and a last terminator leave the string followed by zeros only |
| CommandLine.Line.constructor | bootloader/src/cmd.c:123-133 | the zeroed statics are the empty editor |
| CommandLine.Line.Prompt | bootloader/src/cmd.c:135-140 | the line becomes empty and its buffer all zeros |
| CommandLine.Line.LineLoad | bootloader/src/cmd.c:154-161 | the line becomes the loaded string, zeros behind it |
| CommandLine.Line.HistoryAdd | bootloader/src/cmd.c:163-181 | a non-empty line is remembered and resets the cursor; an empty one changes nothing |
| CommandLine.Line.HistoryPrev | bootloader/src/cmd.c:183-199 | the ring index and row load are the editor's recall of an older line |
| CommandLine.Line.HistoryNext | bootloader/src/cmd.c:201-215 | likewise of a newer one |
| CommandLine.Line.Dispatch | bootloader/src/cmd.c:262-310 | the outcome of a line is the one its first word and numbers determine |
| CommandLine.Line.ExecuteCommand | bootloader/src/cmd.c:262-310 | executing decides the outcome from the buffer and leaves an empty line |
| CommandLine.Line.TabCompletion | bootloader/src/cmd.c:312-331 | the buffer becomes the completed name if it is unique and stays as it is otherwise |
| CommandLine.Line.TryHandleEscape | bootloader/src/cmd.c:341-369 | escape bytes are swallowed and drive recall |
| CommandLine.Line.Key | bootloader/src/cmd.c:371-412 | one input byte does to buffer, ring, index and escape state what it does to the plain editor; Enter also yields the line's outcome |
| CommandLine.Line.Poll | bootloader/src/cmd.c:371-417 | draining the receive ring refines running the plain editor over the waiting bytes, with one outcome for each Enter, and an interrupt clears the line |
| CommandLine.Line.TakeKey | bootloader/src/cmd.c:371-417 | one waiting byte is taken from the ring and acts as its key |
| LineLaws.ReadyIsSound | bootloader/src/cmd.c:33-34 | the lines and tables of these laws, 31 characters from blank to tilde at most and eight remembered lines, are those of the editor |
| LineLaws.CharacterKeys | bootloader/src/cmd.c:383-396 | a character from blank to tilde is appended while fewer than 31 stand there; 8 and 127 take the last one away |
| LineLaws.EnterKeys | bootloader/src/cmd.c:377-381 | 13 and 10 leave an empty line and put a line that was not empty in front of at most seven remembered ones |
| LineLaws.TabKey | bootloader/src/cmd.c:312-331 | Tab makes the line the only name that starts with it, and without exactly one changes nothing |
| LineLaws.OtherKeys | bootloader/src/cmd.c:404-411 | 12 clears the line; any other control character and any byte beyond 127 changes nothing |
| LineLaws.EscapeKeys | bootloader/src/cmd.c:341-369 | 27 swallows the next byte, or two when the first is a bracket and the second neither A nor B |
| LineLaws.ArrowUp | bootloader/src/cmd.c:183-199 | 27 [ A shows the line before the one shown, the newest at first, and stops at the oldest |
| LineLaws.ArrowDown | bootloader/src/cmd.c:201-215 | 27 [ B shows the line behind it, behind the newest an empty one, and does nothing if none is shown |
| LineLaws.RunJoin | bootloader/src/cmd.c:371-412 | a run of keys is its first part and then the rest, so these laws settle every run |
| LineLaws.CallsJoin | bootloader/src/cmd.c:371-412 | and so are its calls |
| LineLaws.CallsOnce | bootloader/src/cmd.c:262-310 | the keys determine the calls |
| LineLaws.NothingCalled | bootloader/src/cmd.c:262-300 | an empty line, a first word no command starts with, and one that is no name but starts two call nothing, with these three outcomes |
| LineLaws.CommandCalled | bootloader/src/cmd.c:262-310 | a first word that is a name, or starts a single one, calls that command with the first three numbers behind it, and nothing else is called |
| LineLaws.CompletedAndCalled | bootloader/src/cmd.c:312-331 | the start of a single name, Tab, arguments and Enter: Tab leaves the name on the line and the only call is that command with those numbers |
| LineLaws.ProgramCommands | bootloader/src/cmd.c:44-119 | each of the nine names selects its own command |
| LineLaws.ProgramStarts | bootloader/src/cmd.c:44-119 | one letter is enough for all but sd and sdw |
| LineLaws.PmicCompleted | bootloader/src/cmd.c:312-331 | p, m and Tab leave pmic on the line, and Enter calls it |
| Session.RunIsEditor | bootloader/src/cmd.c:371-417 | whatever bytes arrive, interrupts included, and however often the line is polled in between: the editor, once it has taken what still waits, is where the accepted bytes take it with its line cleared at the end of each poll that finds an interrupt, none lost, doubled or reordered |
| Session.PolledRun | bootloader/src/cmd.c:371-417 | after a poll it is exactly there |
| Session.UninterruptedRun | bootloader/src/cmd.c:371-417 | without an interrupt it is where the accepted bytes alone take it |
| Session.TurnIs | bootloader/src/main.c:100-106 | a turn with up to 63 bytes: the editor takes them in order but for 0 and 3, and a 3 among them clears the line |
| Session.Turn | bootloader/src/main.c:100-106 | one turn of the loop, pushing what the UART has and polling, is that many pushes and one poll of the run |
| Session.MainLoop | bootloader/src/main.c:100-106 | any number of turns take ring and line to the state of the run of all their pushes and polls |
| Retention.Registers.TrackReg | bootloader/drivers/ddr/phyinit/ddrphy_phyinit_reginterface.c:64-92 | a new address is appended, a known one or a call with tracking off changes nothing, and the call fails iff 284 are listed |
| Retention.Registers.SaveRegs | bootloader/drivers/ddr/phyinit/ddrphy_phyinit_reginterface.c:124-143 | the values of all tracked registers and their number go to retention memory |
| Retention.Registers.RestoreRegs | bootloader/drivers/ddr/phyinit/ddrphy_phyinit_reginterface.c:144-158 | the saved values are written back in order |
| Retention.StepDistinct | bootloader/drivers/ddr/phyinit/ddrphy_phyinit_reginterface.c:71-91 | the tracked addresses never contain a duplicate |
| Retention.StepHolds | bootloader/drivers/ddr/phyinit/ddrphy_phyinit_reginterface.c:64-155 | what was saved stays restorable under any event but a save, if and only if the event does not overwrite an entry |
| Retention.RestoreAfterAnything | bootloader/drivers/ddr/phyinit/ddrphy_phyinit_reginterface.c:124-155 | after a save and any run of resets, PHY changes and harmless tracking, restoring puts back exactly the registers tracked at the save, at their values then, and changes no other |
| Retention.OverwritingLoses | bootloader/drivers/ddr/phyinit/ddrphy_phyinit_reginterface.c:88-89 | tracking another address after a reset and before the next save makes the restore write a foreign value |
| Retention.RestoredAgrees | bootloader/drivers/ddr/phyinit/ddrphy_phyinit_reginterface.c:145-155 | a restore writes exactly the listed registers |
| Retention.Registers.SetTracking | bootloader/drivers/ddr/phyinit/ddrphy_phyinit_reginterface.c:158-165 | starting or stopping tracking changes that switch and nothing else |
| Retention.TrackStaysInside | bootloader/drivers/ddr/phyinit/ddrphy_phyinit_reginterface.c:79-89 | the one write of a tracking call, the new entry's address, stays inside the retention area, that of a 284th entry ending with it |
| Retention.SaveFitsIff | bootloader/drivers/ddr/phyinit/ddrphy_phyinit_reginterface.c:133-141 | a save stays inside the area if and only if at most 283 registers are tracked |
| Retention.OverfullIff | bootloader/drivers/ddr/phyinit/ddrphy_phyinit_reginterface.c:79-89 | from at most 283 entries, a tracking call leads to a save outside the area if and only if tracking is on, the register is new and 283 are listed |
| Retention.OverfullTaken | bootloader/drivers/ddr/phyinit/ddrphy_phyinit_reginterface.c:79-89 | that call is not refused, and the value of its entry lies outside the area |
| RetentionList.SaveListOnce | bootloader/drivers/ddr/phyinit/ddrphy_phyinit_usercustom_saveretregs.c:65-343 | no register occurs twice among those the routine tracks |
| RetentionList.TrackAllIs | bootloader/drivers/ddr/phyinit/ddrphy_phyinit_reginterface.c:64-92 | different registers tracked from an empty list are the list, in order |
| RetentionList.TracksNew | bootloader/drivers/ddr/phyinit/ddrphy_phyinit_reginterface.c:64-92 | tracking registers on top of any list keeps what is listed, in order, and adds exactly those that are new, each once, when no call is refused |
| RetentionList.ListedAlready | bootloader/drivers/ddr/phyinit/ddrphy_phyinit_reginterface.c:71-77 | registers that are all listed are tracked without a change or a refusal |
| RetentionList.TracksExactly | bootloader/drivers/ddr/phyinit/ddrphy_phyinit_usercustom_saveretregs.c:65-343 | on top of any list the routine adds exactly those of its registers that are not listed yet; from an empty one these are 19 + anibs + 64 * dbytes when they fit, which for 8 and 4 is the limit of 283 |
| RetentionList.AddressIsOne | bootloader/drivers/ddr/phyinit/ddrphy_phyinit_usercustom_saveretregs.c:72-77 | address fields do not overlap: an address determines block, unit, lane and register |
| RetentionList.TrackFirsts | bootloader/drivers/ddr/phyinit/ddrphy_phyinit_usercustom_saveretregs.c:71-146 | the first loop over the bytes tracks its 29 registers for each, in order, with its early returns |
| RetentionList.TrackAnibs | bootloader/drivers/ddr/phyinit/ddrphy_phyinit_usercustom_saveretregs.c:155-162 | the loop over the address blocks |
| RetentionList.TrackSecond | bootloader/drivers/ddr/phyinit/ddrphy_phyinit_usercustom_saveretregs.c:165-250 | the body of the second loop tracks its 35 registers |
| RetentionList.SaveRetRegs | bootloader/drivers/ddr/phyinit/ddrphy_phyinit_usercustom_saveretregs.c:65-399 | the routine tracks the whole list and saves it while the internal registers are open; it fails if and only if a tracking call is refused, and then saves nothing |
| RetentionNumbers.TrackIs | bootloader/drivers/ddr/phyinit/ddrphy_phyinit_reginterface.c:64-92 | one tracking call on 284 places: a new address goes behind those listed while one is free, any other call changes nothing, and it fails iff tracking is on, all are taken and the address is none of them |
| RetentionNumbers.FirstNumbers | bootloader/drivers/ddr/phyinit/ddrphy_phyinit_usercustom_saveretregs.c:71-146 | for every byte, from place 1 + 29 * byte on: 0x10068 and 0x10069 for each of nine lanes, then 0x100AA, 0x10062, 0x10001 and 0x100A0 to 0x100A7, plus 0x1000 for each byte and 0x100 for each lane |
| RetentionNumbers.NibbleNumbers | bootloader/drivers/ddr/phyinit/ddrphy_phyinit_usercustom_saveretregs.c:165-223 | from place 2 + 29 * dbytes + anibs + 35 * byte on: 0x10020, 0x10043 for two nibbles, and six delays for each of them |
| RetentionNumbers.LaneNumbers | bootloader/drivers/ddr/phyinit/ddrphy_phyinit_usercustom_saveretregs.c:225-250 | then 0x100C0 and 0x100C1 for each of nine lanes, 0x100AE and 0x100AF |
| RetentionNumbers.SingleNumbers | bootloader/drivers/ddr/phyinit/ddrphy_phyinit_usercustom_saveretregs.c:65-162 | 0x200CB first, 0x200B2 behind the first pass, 0x80 + 0x1000 * k for the k-th address block, and the number of all |
| RetentionNumbers.LastNumbers | bootloader/drivers/ddr/phyinit/ddrphy_phyinit_usercustom_saveretregs.c:253-343 | the seventeen addresses at the end, 0x90201 to 0x90208 and nine single ones |
| RetentionNumbers.SavedIs | bootloader/drivers/ddr/phyinit/ddrphy_phyinit_usercustom_saveretregs.c:367-399 | the values are those with 0xD0000 at 0 and 0xC0080 at 3; afterwards these are 1 and 0 and the rest of the PHY is as it was |
| RetentionNumbers.AreaIs | bootloader/drivers/ddr/phyinit/ddrphy_phyinit_reginterface.c:133-141 | a count of four bytes and eight for each register, its address in front of its value; a save stays inside 2272 bytes iff at most 283 are listed |
| ImageHeader.MappedChecksum | baremetal/hello/scripts/stm32image.c:113-133 | the C sum is the byte sum of what follows the header, modulo 2^32, and 0 for a file shorter than that |
| ImageHeader.ListChecksum | bootloader/scripts/stm32_header.py:33-37 | the Python sum is the byte sum modulo 2^32 |
| ImageHeader.WriteIsUpdate | baremetal/hello/scripts/stm32image.c:36-95 | writing a structure member in place replaces that field in the header's list of fields and nothing else |
| ImageHeader.SetCommon | baremetal/hello/scripts/stm32image.c:190-240 | the shared assignments, in their order, fill the common fields, length and checksum taken from the mapped file |
| ImageHeader.SetHeaderV1 | baremetal/hello/scripts/stm32image.c:223-250 | the version 1 header in place |
| ImageHeader.SetHeaderV2 | baremetal/hello/scripts/stm32image.c:223-264 | the version 2 header in place |
| ImageHeader.SetHeaderV23 | baremetal/hello/scripts/stm32image.c:203-222 | the subversion 3 header in place |
| ImageHeader.CreateHeaderFile | baremetal/hello/scripts/stm32image.c:266-353 | the C builder's file is the header of its version followed by the payload, or an error for an unknown version or an empty payload, which cannot be mapped |
| ImageHeader.Generate | bootloader/scripts/stm32_header.py:86-164 | the Python builder's file is its packed fields followed by the payload, or an error for a binary type that does not fit |
| ImageHeader.Sizes | baremetal/hello/scripts/stm32image.c:36-95 | the three headers are 256, 512 and 576 bytes |
| ImageHeader.ImageLengths | bootloader/scripts/stm32_header.py:86-164 | the length of the header each builder writes |
| ImageHeader.BuildersAgree | bootloader/scripts/stm32_header.py:86-164 | for every payload and parameters the two images are byte-identical if and only if the payload is not empty, the version is 1 or 2, the subversion is not 3, the version number is 0 and a version 1 binary type fits a byte |
| ImageBytes.CImageIs | baremetal/hello/scripts/stm32image.c:190-264 | the C builder's file byte by byte for each header version: magic number at 0, checksum, version bytes, length, entry, load address and version number at their offsets, lowest byte first, the fields of each version, zeros in between, and the payload at 256, 512 or 576 |
| ImageBytes.PythonImageIs | bootloader/scripts/stm32_header.py:86-164 | the same for the Python builder's two versions, with version number 0 |
| ImageBytes.SumIs | baremetal/hello/scripts/stm32image.c:113-133 | the checksum counts every byte once |
| Boot.LoadRegion | bootloader/src/boot.c:51-68 | the chunk loop, with its 32-bit wrapping addresses and an error at any read, does to memory what the load function says and reads exactly the chunk list, or a prefix of it |
| Boot.LoadIs | bootloader/src/boot.c:51-68 | a load that succeeds and whose chunks all start below 2^32 puts exactly the card's blocks at the destination and changes nothing else |
| Boot.LoadStaysInside | bootloader/src/boot.c:51-68 | any load, wrapping or not, failed or not, changes no byte that none of its reads covers |
| Boot.LoadKeepsRest | bootloader/src/boot.c:51-68 | so a load without a wrap, failed or not, changes nothing outside its destination |
| Boot.ReadsCover | bootloader/src/boot.c:53-66 | the k-th read is of the k-th chunk of the range, at block and address modulo 2^32, at most 2048 blocks each, for every range |
| Boot.StraightIff | bootloader/src/boot.c:53-66 | block and address are the range's own if and only if every chunk starts below 2^32 |
| Boot.LoadSd | bootloader/src/boot.c:70-100 | the checksum load_sd reports is the word sum, modulo 2^32, of what it has in memory, and without a wrap of the card's blocks, which then are in memory; in numbers: length, first block and address in this order, 49152, 262144 and 0x84000000 when missing, byte k of the destination is byte k of the card's range and everything else as before, and without a fault within the card it succeeds |
| Boot.LoadSucceeds | bootloader/src/boot.c:51-68 | a load within the card fails only when a read does |
| Boot.WordSumIs | bootloader/src/boot.c:90-95 | the word sum counts every four bytes once, the lowest first |
| Boot.SumWords | bootloader/src/boot.c:90-95 | the checksum loop, for every destination and length, its word count taken modulo 2^32 |
| Boot.LoadBoth | bootloader/src/boot.c:141-157 | the boot command's two loads, the second only after the first succeeded; when the hand-off is reached and the kernel's chunks start below 2^32 both images stand at their addresses and nothing else of memory has changed; in numbers: 49152 blocks, or as many as asked for, from block 262144 at 0x84000000, and over them 512 from block 327680 at 0x86000000 |
| Boot.BothIntact | bootloader/src/boot.c:141-157 | the dtb load leaves the kernel image intact for every kernel length whose image fits the 32-bit addresses |

## Left out

- The data residue of the status wrapper is always 0 in the code, so the residue rule of Bulk-Only Transport is not claimed; nor are its host and device disagreement cases, which the code does not implement.
- BlockDevice.RunRefines: covers runs up to a bulk-only reset, which cancels no transfer (BulkOnly.ResetArmsTwo).
- BulkOnly.BehindWrapper: which variables stand behind the wrapper buffer is the linker's choice; they are modelled as 481 bytes that no other part of the program uses, so what their overwriting does to the rest of the state is not modelled.
- The endpoint-number checks, the counters and the class requests GET MAX LUN and unknown ones of the mass-storage class.
- Endpoint.OutEndpoint.Transfer: the programmed size is below 2^24 bytes, the width of the size field, and what arrives fits the memory there is; IN transfers, isochronous transfers, stalls and event decoding are not modelled.
- Control.InDataStage: addresses, configuration, stalls and the order of descriptor requests; when the driver reports a completion of endpoint 0, which waits for the host's status request.
- Control.StageOnWire: a transfer of length zero counts as one packet without data, though the driver marks it as a status stage; splitting is the path the build takes, as nothing in it defines the packet-split option.
- MassStorage.Class.ArmCbw: arming always succeeds, here and in all other transfers; the code ignores the status of usb_core_receive and usb_core_transmit, and what a refused one leaves is not modelled.
- The SD card below sd_read and sd_write: commands, FIFO polling, capacity decoding. A failing read may leave anything in its destination, a failing write anything in its blocks.
- Printf.Vsnprintf: floating point, which the build switches off, and the character and function output back ends; a directive that the format or the argument list ends in the middle of, which in C is undefined, reads as if zeros followed; the output length is unbounded where the code's size_t and int would wrap; plain char is unsigned as on this target.
- CStrings.Strtoul: bases above 36, which no caller uses; memcpy, memset and memcmp.
- CommandLine.Line.Poll: console echo, the help text and the handlers behind the table; bytes arrive between polls, as the main loop pushes them, and Session.MainLoop says how.
- Session.MainLoop: the tick counter, the LED and everything else the main loop does besides the console.
- PrintfGrammar.SpecRead: a star width of INT_MIN, which the printer negates in int.
- PrintfDirective.DirectiveIsIso: # with d, i or u, 0 and # with c and s, and a precision with c, which the standard leaves undefined, are taken as absent, and so are missing arguments as zeros; d and i of the smallest int or long, which the printer negates in its own type, read as wrapping; c and s with a length modifier; the b conversion, which is not the standard's, and p, which it leaves to the implementation.
- PrintfDirective.FormatIsIso: is one way, as two wrong directives may happen to print one right text together.
- PrintfPlain.WidthShown: flags one at a time; their combinations are those of PrintfDirective.DirectiveIsIso.
- PrintParse.StoreAndLoad: is not a function of the program but its two functions called one after the other.
- Handshake.RunSafe: the firmware is assumed to be the dual of the host's protocol; real time is left out, a time-out may happen at any wait.
- Retention.Registers.SaveRegs: the registers are an array indexed by register address; the mapping to bus addresses is left out, as is the STM32MP2 DDR3 and DDR4 variant of the list.
- Retention.SaveFitsIff: what stands behind the retention area is not modelled.
- RetentionList.TracksExactly: at most 16 address blocks and bytes, as their numbers are four-bit fields of a register address.
- RetentionList.SaveRetRegs: runs of calls without a loop around them are made by one loop over a list of registers.
- ImageHeader.CreateHeaderFile: file handling beyond the failing map of an empty payload, argument parsing, the ELF reader and the printout; the host is little-endian; payloads are small enough for the 32-bit file size of the C builder; parameters are given as the byte or word they are stored in.
- Boot.LoadSd: bringing up DDR and SD; of a load that wraps, Boot.LoadRegion, Boot.LoadStaysInside and Boot.ReadsCover say what it reads and where, but no checksum of the card is claimed.
- Boot.LoadBoth: everything behind the loads: supplies, firewalls, interrupt controller and the jump.
- Board bring-up with fixed register sequences, PSCI, and the DDR PHY tables: their claims would only restate constants or rest on assumptions about hardware.
