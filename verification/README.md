# Joypad OS adapters: a verified model

A Dafny model of the parts of the adapter firmware and its tools where a promise spans several
functions and a run of steps: flashing a second chip over its debug port, the UART peer link and
the two console relays that use it, the journaled pad configuration, the GBA multiboot cipher,
the I2C peer, and the UF2 and Ogg codecs. `dafny verify dfyconfig.toml` checks everything.

| files | what they model |
|---|---|
| `Common`, `Bytes` | options and the wrapping clock; bytes, little-endian words, stores into an address space |
| `ReadCache`, `Adi` | the read cache over a run; the MEM-AP, the cached SELECT and CSW registers, the block writer |
| `FlashTarget`, `FlashStream`, `FlashB` | NOR flash and the routine on the target; the 64 KB accumulator; the retrying image streamer |
| `CombineUf2`, `StagedFlash` | staging the image in the first chip's flash, and the whole chain from combined file to flashed chip |
| `Crc`, `Slip`, `LinkRing` | the checksum, the framing, the transmit ring and the deframer |
| `PeerEvents`, `PeerLink`, `PeerRefresh`, `PeerTalk` | tapped events and their extensions across the link; the periodic refresh and what it restores; every interleaving of the two |
| `P5gLink`, `Ps4Link`, `Ps4Rounds` | report signing with retries; the signature relay and its rounds |
| `PadJournal`, `PadConfig` | the 16-slot flash journal; the configuration record and its check |
| `GcKey`, `GbaMultiboot`, `GbaFinal`, `GbaBridge` | the multiboot key and its inverse; the cipher and its capture; the checksum in the last word; the command parser |
| `I2cPeer` | the slave's interrupt handler and main loop, and the polling master |
| `Uf2Conv`, `Ogg` | the UF2 converter; the Ogg packet parser |

Code that changes state is a class whose methods are proved against functions on values; what the
source promises is then proved about those functions, for every input, every run or every reachable
state. Failing transfers, lost frames, power cuts, interrupts and other chips are steps or
nondeterministic choices of the model.

## Where the code departs from what it is meant to do

Each of these is isolated by an exact condition or a concrete run.

- `flash.c:256` takes the size of a changed block from `length - offset`, so a full second chunk (offset
  equal to length) with one or two changed blocks is erased and left blank
  (`FlashTarget.ChunkWrittenExactly`, `FlashStream.ImageWrittenExactly`, `FlashStream.LossIsPossible`). An image is
  safe from this, whatever the flash held, exactly when it has no full second chunk or an all-0xFF one
  (`FlashStream.NothingLostIff`).
- `mem_write_block` does not advance past its word block, so a tail of one to three bytes after it is
  never written, and an empty request writes one byte (`Adi.BlockCopiesExactlyWhenDeliverable`).
- `mem_write*` leave the read cache alone: read, write, read repeats the old word (`Adi.Driver.ReadWriteRead`).
  In every run a cached read is right exactly when memory holds the word it held when the line was filled
  (`ReadCache.ReadRightIffUnchanged`).
- A refresh carries one player's buttons and axes only. Touch and motion come back exactly when the extension
  still waiting has them, and other players' events never do (`PeerRefresh.RefreshRepeatsExactly`). A refresh is
  routed exactly when the receiver holds no part of a frame (`PeerRefresh.RefreshRoutedIff`,
  `Slip.RxReceivesIff`); one byte left over spoils it (`Slip.LeftByteSpoils`) and the next one restores the state
  (`PeerRefresh.QuietLinkRestores`).
- A report built in the same gap between two device tasks as the previous answer waits for the retry timer
  (the run `P5gLink.ReportHeldBack`); that it was built behind a young request is the exact condition
  (`P5gLink.OwnRequestIsYoungIff`).
- After a retry an answer can be taken for the next report's (the run `P5gLink.RetryCanMisanswer`); a report is
  safe from this exactly when every copy left on its way is of that same report (`P5gLink.AnsweredTrulyIffOwnCopies`),
  so every report is exactly when none is left (`P5gLink.AnsweredTrulyIffDrained`).
- READY is accepted without comparing nonce ids: a restart while anything of an old round is left that can still
  end in a READY can be answered with the old signature, and one with nothing left cannot, whatever went wrong
  before it (`Ps4Rounds.RestartHonestIffQuiet`).
- The journal's last sequence number looks like an erased slot, so the save that reaches it is not found again
  (`PadJournal.SaveThenLoad`).
- Expander pins 100-115 and 200-215 are documented and saved, but every such configuration is rejected on
  load (`PadConfig.ExpanderConfigsAreRejected`); a touch sensor saved as disabled comes back on pin 0
  (`PadConfig.StoredWhole`).
- A capture that fills its 256 KB buffer loses the image's last word (`GbaMultiboot.CaptureRecoversIffItFits`).
- A tap inside an event read splices two events (`I2cPeer.TornRead`), and the status buffer is never emptied,
  so only the first 46 bytes ever written are seen (`I2cPeer.OnlyFirstBytesLand`, `I2cPeer.LatestWriteIffFirst`).
- In `uf2conv.py` the message about a bad magic adds a string to a number and raises, so one such block stops
  the whole conversion instead of being skipped (`Uf2Conv.BadMagicStops`, the exact condition per block
  `Uf2Conv.BlockReadIff`, and the input `Uf2Conv.ZerosStop`); the model follows the code.

## Model

| member | source | states |
|---|---|---|
| Adi.StreamAddress | src/swd_flash/adi.c:403-411 | the auto-increment, which wraps at 1 KB, gives the next word if and only if no boundary follows, so TAR is rewritten exactly where it must be |
| Adi.BlockCopiesExactlyWhenDeliverable | src/swd_flash/adi.c:451-494 | a block write equals a plain byte copy for every memory exactly when the part after alignment is under 4 bytes or a multiple of 4, and not empty |
| Adi.ByteAccess | src/swd_flash/adi.c:365-369 | the byte lane shift puts exactly that byte at any address |
| Adi.HalfAccess | src/swd_flash/adi.c:371-377 | the halfword shift puts the two bytes, low first, at any even address |
| Adi.WordAccess | src/swd_flash/adi.c:378-382 | a word access stores the four little-endian bytes |
| Adi.Driver.DpInit | src/swd_flash/adi.c:1276-1280 | whatever happens on the wire, both register caches are consistent with the target afterwards and memory is unchanged |
| Adi.Driver.DpSelectBank | src/swd_flash/adi.c:160-170 | on success the cached SELECT equals the target's and holds the bank; only SELECT can have changed |
| Adi.Driver.ApSelectWithBank | src/swd_flash/adi.c:179-191 | on success the target's SELECT addresses the access port and bank, written or skipped |
| Adi.Driver.ApWrite | src/swd_flash/adi.c:282-292 | the register write reaches the MEM-AP, or the call fails and the target is as if it had or had not |
| Adi.Driver.ApMemSetCsw | src/swd_flash/adi.c:322-331 | on success the target's CSW is the wanted one and the cache says so, whether or not it was written |
| Adi.Driver.MemWrite | src/swd_flash/adi.c:365-382 | the cached driver leaves the target as one that writes CSW, TAR and DRW every time; a failed one did that access or none |
| Adi.Driver.MemWrite8 | src/swd_flash/adi.c:365-369 | on success memory gains exactly the byte; otherwise nothing outside that byte changes |
| Adi.Driver.MemWrite16 | src/swd_flash/adi.c:371-377 | the same for a halfword at an even address |
| Adi.Driver.MemWrite32 | src/swd_flash/adi.c:378-382 | the same for a word at an aligned address |
| ReadCache.LinesHoldFetched | src/swd_flash/adi.c:113-141 | in every run of reads, writes and invalidations, each usable line holds the word that was in memory when its address was last read from there |
| ReadCache.ReadRightIffUnchanged | src/swd_flash/adi.c:334-344 | in every such run a read is right if and only if the address is not in the cache or memory holds what it held at that time |
| ReadCache.HitIffAmongLastFour | src/swd_flash/adi.c:104-141 | in every such run an address is served from the cache if and only if it is below 0x30000000 and one of the four latest read from memory since the latest invalidation |
| Adi.Driver.MemCacheFind | src/swd_flash/adi.c:128-138 | finds an address exactly when it is cached, and serves the cached line's word; a coherent cache gives the word in memory |
| Adi.Driver.MemCacheAdd | src/swd_flash/adi.c:113-127 | the oldest line is replaced, all of them emptied first after an invalidation; adding the word in memory keeps the cache coherent and caches the address if it is cacheable |
| Adi.Driver.MemCacheInvalidate | src/swd_flash/adi.c:139-141 | makes any cache coherent |
| Adi.Driver.MemRead32 | src/swd_flash/adi.c:334-344 | a successful read answers and fills the cache exactly as one step of that run, and a failed one changes neither; it is the word in memory exactly when the address is not cached or its cached line holds that word; a coherent cache stays so |
| Adi.Driver.ReadWriteRead | src/swd_flash/adi.c:334-382 | after a successful write a second read repeats the first, so it is right exactly when the write stored the same word |
| Adi.Driver.StreamWord | src/swd_flash/adi.c:403-411 | one stream step stores the word and leaves TAR at the next one, across the 1 KB wrap |
| Adi.Driver.MemWriteBlockAligned | src/swd_flash/adi.c:395-413 | on success the words are copied; a failure changes nothing outside the destination |
| Adi.Driver.MemWriteBlockUnaligned | src/swd_flash/adi.c:425-449 | the same, assembling words from an unaligned source |
| Adi.Driver.MemWriteBlock | src/swd_flash/adi.c:451-494 | for every alignment and count, success copies exactly the delivered prefix; a failure changes nothing outside the request |
| FlashTarget.AndBlank | src/swd_flash/flash.c:260-261 | programming clears bits, so programming an erased cell leaves exactly the data |
| FlashTarget.ChunkWrittenExactly | src/swd_flash/flash.c:183-289 | after the routine the chunk is in flash exactly when it is not the case that offset equals length with one or two changed blocks, one of them not blank |
| FlashTarget.OutsideChunk | src/swd_flash/flash.c:272-281 | nothing outside the chunk's own 64 KB is touched |
| FlashTarget.BehindTheData | src/swd_flash/flash.c:272-281 | behind the data, inside its 64 KB: erased up to 32 or 64 KB when three 4 KB blocks differ, and unchanged otherwise |
| FlashTarget.ByteAfterLocal | src/swd_flash/flash.c:219-240 | what the routine leaves inside a chunk depends on nothing outside it |
| FlashTarget.ProgramSize | src/swd_flash/flash.c:256 | in 32-bit unsigned arithmetic the programmed size is a whole block, or nothing when offset equals length |
| FlashTarget.Nor.Differs | src/swd_flash/flash.c:227-235 | finds a difference in a block exactly when there is one |
| FlashTarget.Nor.FindChanged | src/swd_flash/flash.c:215-240 | lists exactly the changed blocks in order when there are at most two, and stops at a third |
| FlashTarget.Nor.RewriteBlock | src/swd_flash/flash.c:254-262 | erases and programs one block and nothing else |
| FlashTarget.Nor.RewriteAll | src/swd_flash/flash.c:272-281 | the whole-chunk path leaves the data and erases the rest of its 32 or 64 KB |
| FlashTarget.Nor.FlashBlock | src/swd_flash/flash.c:183-289 | the delta routine has the effect of the byte-by-byte specification |
| FlashStream.ImageWrittenExactly | src/swd_flash/flash_b_app.c:67-83 | streaming an image of whole sectors leaves it in flash exactly when its second chunk loses no block |
| FlashStream.SecondChunkLost | src/swd_flash/flash.c:254-262 | whenever the second chunk loses a block, the image is not in flash |
| FlashStream.LossIsPossible | src/swd_flash/flash.c:254-262 | a concrete flash and image for which that happens |
| FlashStream.NothingLostIff | src/swd_flash/flash.c:254-262 | whatever the image's chunks held before, no flashing loses a block if and only if the image has no full second chunk or an all-0xFF one; one byte of flash that differs is enough otherwise |
| FlashStream.ByteOfImage | src/swd_flash/flash_b_app.c:71-80 | what ends up at an image address is what its own chunk left there, whatever the other chunks did |
| FlashStream.OtherChunksUntouched | src/swd_flash/flash_b_app.c:71-80 | nothing below the first or above the last chunk written changes |
| FlashStream.SectorsDeliverable | src/swd_flash/flash.c:137 | whole sectors at word addresses are always delivered whole by the block writer |
| FlashStream.Flasher.CallFlashBlock | src/swd_flash/flash.c:74-76 | if the remote call succeeds with the routine in place the chunk is written; if it fails anything may have happened, but inside the chunk's 64 KB |
| FlashStream.Flasher.ProgramFlashChunk | src/swd_flash/flash.c:55-87 | success leaves flash as the routine does on the gathered bytes, copying the code first if needed; failure stays inside the 64 KB |
| FlashStream.Flasher.GatherStep | src/swd_flash/flash.c:125-157 | one round appends what fits and writes a full chunk; the target's buffer always holds the gathered bytes |
| FlashStream.Flasher.AddFlashBit | src/swd_flash/flash.c:106-159 | refines the accumulator's specification on success; a failed call leaves no new bytes gathered, and a flush leaves none at all |
| FlashB.CopyWords | src/swd_flash/flash_b_app.c:73-75 | the word copy stages the mapped bytes |
| FlashB.Outcomes | src/swd_flash/flash_b_app.c:69-84 | a completed attempt leaves the image exactly when its starting contents lose no block, and always when the image alone rules that out |
| FlashB.SendChunk | src/swd_flash/flash_b_app.c:72-78 | staging and sending one chunk keeps the attempt's invariant, and a failure leaves no bytes gathered |
| FlashB.Flush | src/swd_flash/flash_b_app.c:81-84 | the final call completes the image; failed or not, no bytes stay gathered |
| FlashB.Attempt | src/swd_flash/flash_b_app.c:69-84 | a successful attempt leaves what the image makes of the contents it started from; nothing above the image's chunks changes |
| FlashB.Retry | src/swd_flash/flash_b_app.c:67-86 | the same after any pattern of failed attempts; an image without a full, non-blank second chunk is held on every success; it fails only after as many failed attempts as it may make |
| FlashB.RefusedIffBad | src/swd_flash/flash_b_app.c:49-58 | by the bytes at 0x40000: refused if and only if the first four are not 47 4D 49 42 or the little-endian length behind them is 0 or over 0x200000 |
| FlashB.FlashBApp | src/swd_flash/flash_b_app.c:45-94 | a header is bad exactly when refused by its bytes, and then, or without a link, nothing changes; the image is the length's bytes from 0x40008; success means flash holds it exactly when the last attempt lost no block of a full second chunk, and always if the image has none or a blank one; failure means three failed attempts; nothing above the image's chunks is ever touched |
| FlashB.FlashBSide | src/swd_flash/flash_b_side.c:86-150 | the same for the boot relay's four attempts |
| CombineUf2.PaddedImage | tools/combine_uf2.py:111-113 | the image is kept as a prefix and filled with 0xFF to whole sectors, by less than a sector |
| CombineUf2.MaxFlashAddr | tools/combine_uf2.py:59-65 | the guard's bound is at most the slot exactly when every block stays below the slot |
| CombineUf2.MakeUf2Block | tools/combine_uf2.py:68-76 | the block's 256 carried bytes are the payload followed by zeros, at its address, under the family flag; the other 220 bytes are zero |
| CombineUf2.BlocksForBytes | tools/combine_uf2.py:79-84 | the blocks carry every byte of the payload and nothing else, and are as many as needed |
| CombineUf2.Combine | tools/combine_uf2.py:87-153 | rejects exactly a firmware with a block beyond 0x10040000, or an image that would end beyond 0x101FC000; otherwise emits the firmware's blocks and then as many as the image needs, each with its number, address, flags and family, numbered consecutively; in relay mode each claims one block more than the longer of the two lists has |
| CombineUf2.BelowSlotUntouched | tools/combine_uf2.py:115-121 | for every order of the blocks the firmware's bytes are what its own blocks alone would leave |
| CombineUf2.InSlot | tools/combine_uf2.py:79-84 | for every order a byte from the slot up is untouched or the staged payload's, zero in the last block's rounding |
| CombineUf2.AnyOrderStages | tools/combine_uf2.py:123-153 | in any order: the header is accepted and the staged image is the padded image, the firmware is intact, and the settings reserve is untouched |
| StagedFlash.FlashFromCombined | src/swd_flash/flash_b_app.c:45-94 | the whole chain: from the emitted blocks in any order to success meaning the padded image, unless the last attempt lost a block, which the image's own bytes can rule out |
| Crc.RunInjective | src/uart_peer/uart_peer.c:92-101 | the same bytes never bring two different registers together |
| Crc.RunWord | src/uart_peer/uart_peer.c:92-101 | feeding four bytes is xoring their little-endian word into the register and shifting 32 bits out |
| Crc.Bits32Injective | src/uart_peer/uart_peer.c:92-101 | shifting 32 bits out never brings two registers together |
| Crc.AcceptedIsResidue | src/uart_peer/uart_peer.c:198-205 | a frame is accepted exactly when the register over all of it ends on one fixed value |
| Crc.BurstRejected | src/uart_peer/uart_peer.c:198-205 | two frames of any equal length that differ only within four consecutive bytes are not both accepted |
| Crc.ByteErrorRejected | src/uart_peer/uart_peer.c:198-205 | any single damaged byte of an accepted frame is noticed |
| Crc.CheckValue | src/uart_peer/uart_peer.c:92-101 | the checksum of the digits 123456789 is CBF43926, the published check value of this CRC-32 |
| Crc.ComputeCrc32 | src/uart_peer/uart_peer.c:92-101 | the loop computes the checksum the laws are about |
| Crc.ComputeReportCrc | src/uart_peer/ps4_auth_link.c:28-41 | the relay's branch-free two-pass routine is the same checksum over the report id and the data |
| Slip.WireBytes | src/uart_peer/uart_peer.c:111-133 | on the wire a frame is its bytes in order, C0 as DB DC and DB as DB DD, with C0 behind |
| Slip.FrameBytes | src/uart_peer/uart_peer.c:118-133 | a frame is its kind, its payload and the checksum of both, low byte first |
| Slip.FrameFits | src/uart_peer/uart_peer.c:118-133 | 139 bytes are enough for any frame the sender makes |
| Slip.FrameAccepted | src/uart_peer/uart_peer.c:118-133 | a sent frame is accepted and decodes to what was sent |
| Slip.RxEncoded | src/uart_peer/uart_peer.c:261-281 | from a clean receiver one encoded frame dispatches exactly that frame |
| Slip.RxExact | src/uart_peer/uart_peer.c:261-281 | a clean receiver dispatches exactly the frames sent, in order |
| Slip.RxResync | src/uart_peer/uart_peer.c:261-281 | from any state one encoded frame leaves the receiver clean and dispatches at most one frame |
| Slip.AfterNoise | src/uart_peer/uart_peer.c:261-281 | after any noise at most the first frame is lost |
| Slip.PartialPrefix | src/uart_peer/uart_peer.c:261-281 | receiving part of the wire dispatches a prefix of the frames |
| Slip.RxReceivesIff | src/uart_peer/uart_peer.c:261-281 | whatever state the receiver is in, an encoded frame dispatches exactly itself if and only if the buffer is empty and no stray escape stands in front of a first byte it would change |
| Slip.LeftByteSpoils | src/uart_peer/uart_peer.c:261-281 | one byte left in the buffer comes out in front of the next frame |
| Slip.OverflowStartsOver | src/uart_peer/uart_peer.c:261-281 | with no end among them the 129th byte empties the buffer, and so does every 129th after it |
| LinkRing.TxRing.Push | src/uart_peer/uart_peer.c:103-109 | the queue gains the byte, or the ring is full and the drop is counted |
| LinkRing.TxRing.SlipPush | src/uart_peer/uart_peer.c:111-115 | queues the stuffed byte as far as it fits |
| LinkRing.TxRing.FrameSend | src/uart_peer/uart_peer.c:118-133 | the encoded frame goes in as far as it fits and every other byte is counted; a payload over 64 bytes changes nothing |
| LinkRing.TxRing.Drain | src/uart_peer/uart_peer.c:324-328 | sends the oldest bytes in order, as many as the UART takes |
| LinkRing.Deframer.RxByte | src/uart_peer/uart_peer.c:261-281 | the buffer refines the receiver's specification and hands over its frames |
| LinkRing.BytesConserved | src/uart_peer/uart_peer.c:103-133 | for every interleaving of sends and drains, bytes encoded are sent, queued or counted as dropped |
| LinkRing.NothingLost | src/uart_peer/uart_peer.c:315-328 | with no drop, wire and queue together are the encoded frames |
| LinkRing.Delivered | src/uart_peer/uart_peer.c:261-328 | with no drop the receiver has dispatched a prefix of the frames sent, all of them once the ring is empty |
| LinkRing.RoomMeansNoDrop | src/uart_peer/uart_peer.c:118-133 | if every send finds 139 free bytes nothing is dropped |
| PeerEvents.SilentIffPeerAddress | src/uart_peer/uart_peer.c:367-369 | a tap sends nothing if and only if the event's address is from 0xC0 to 0xCF |
| PeerEvents.TapBytes | src/uart_peer/uart_peer.c:371-406 | every other tap sends an EVENT of kind 1 with these twelve bytes, behind an EXT of kind 10 with these 27 exactly when it has touch or motion |
| PeerEvents.EchoedIffBeyond15 | src/uart_peer/uart_peer.c:158 | an event the consumer has submitted is never sent out again, for players below 16 and no others |
| PeerEvents.PackedRoundTrip | src/uart_peer/uart_peer.c:371-380 | the 12-byte event reads back field by field |
| PeerEvents.ExtRoundTrip | src/uart_peer/uart_peer.c:384-404 | the 27-byte extension reads back field by field |
| PeerEvents.PairedIsExpected | src/uart_peer/uart_peer.c:154-196 | an event paired with its own extension is the tapped event |
| PeerEvents.TapArrives | src/uart_peer/uart_peer.c:154-251 | one tap's messages submit the expected event and leave no extension waiting |
| PeerEvents.AllArrive | src/uart_peer/uart_peer.c:154-251 | every tapped event whose address is not from 0xC0 to 0xCF is submitted, in order, with type, buttons, axes, touch and motion, and every packed event repeated anywhere between is submitted with neither touch nor motion |
| PeerLink.EventsCrossTheLink | src/uart_peer/uart_peer.c:118-281 | the same through frames, checksums and the byte stream |
| PeerTalk.EveryTapIsSaid | src/uart_peer/uart_peer.c:315-411 | in every run of taps and tasks the producer says every tap of an event without a peer's address, once and in order, and between them only repeats of the latest one |
| PeerTalk.TalkIsHeard | src/uart_peer/uart_peer.c:154-411 | in every such run, at any clock readings and UART speeds, if no byte was dropped the router has heard a prefix of what was said, and all of it once the ring is empty |
| PeerTalk.RoomMeansHeard | src/uart_peer/uart_peer.c:103-133 | if every tap finds room for two frames no byte is dropped, because a refresh is only queued on an empty ring |
| PeerTalk.TapRuns | src/uart_peer/uart_peer.c:364-411 | the tap leaves ring, drop counter, remembered event and timer where the run says |
| PeerTalk.TaskRuns | src/uart_peer/uart_peer.c:315-343 | the task and the receiver behind it leave both ends where the run says, and route what it says |
| PeerRefresh.RefreshRoutedIff | src/uart_peer/uart_peer.c:261-281 | for every receiver state and waiting extensions, a refresh is routed with its player's extension if and only if the receiver holds no part of a frame, and nothing is otherwise; the receiver is clean after it |
| PeerRefresh.RefreshRepeatsExactly | src/uart_peer/uart_peer.c:337-343 | for any waiting extensions, it repeats the tapped event exactly when the one waiting has that event's touch and motion, its own always; it is never for another player |
| PeerRefresh.RefreshesRepeat | src/uart_peer/uart_peer.c:154-281 | n refreshes in a row route the state n times, or once less behind part of a frame: the first with the extension that was waiting, the others without |
| PeerRefresh.HeardInRun | src/uart_peer/uart_peer.c:154-343 | in every run of the quiet task, whatever the UART takes when, the router has heard what the queued bytes gave and then the state as often as whole refreshes have been sent and got through |
| PeerRefresh.QuietRefresh | src/uart_peer/uart_peer.c:324-343 | after every task of a quiet run the state was queued less than 100 ms ago, clock wrap included, or bytes are still queued, and have been for at most the time the UART needs |
| PeerRefresh.QuietLinkRestores | src/uart_peer/uart_peer.c:324-343 | after any bytes, with any queue that the UART empties within h ms over as many tasks as it needs: one refresh period into a quiet run the router's latest event has the last tapped player's type, buttons and axes if the receiver was left with no part of a frame, two periods in any case; every event since is that player's, with the touch and motion of a waiting extension at most once |
| PeerRefresh.RegularIsSteady | src/uart_peer/uart_peer.c:324-328 | a UART that takes at least w bytes at every task, tasks at most d ms apart, empties any queue within d ms for every w bytes |
| PeerRefresh.RegularLinkRestores | src/uart_peer/uart_peer.c:324-343 | so the same holds for every such UART, however small its buffer and however full the ring |
| PeerRefresh.Receive | src/uart_peer/uart_peer.c:315-322 | the receiving loop takes deframer, extensions and router where the specification of a byte string says |
| PeerRefresh.QuietTask | src/uart_peer/uart_peer.c:315-343 | one task at the sender and its bytes at the receiver move ring, timer, deframer, extensions and routed events as one step of that run |
| PeerLink.Producer.Tap | src/uart_peer/uart_peer.c:364-411 | queues extension before event and remembers the event; events with an address from 0xC0 to 0xCF change nothing |
| PeerLink.Producer.Task | src/uart_peer/uart_peer.c:324-343 | drains, then resends the last event exactly when the ring is empty and 100 ms have passed |
| PeerLink.RefreshDueAfter | src/uart_peer/uart_peer.c:337-343 | the timer has run out exactly when 100 ms have passed, across the clock's wrap |
| PeerLink.Consumer.DispatchFrame | src/uart_peer/uart_peer.c:198-259 | routes an accepted event with its extension and changes nothing but the drop counter for a damaged frame |
| P5gLink.DeviceSide.Task | src/uart_peer/p5general_link.c:84-114 | sends a request exactly when one is pending and none is in flight or the last is 20 ms old |
| P5gLink.NeverWedged | src/uart_peer/p5general_link.c:84-114 | in every run over a lossy link, right after a device task with a report pending, a request less than 20 ms old is in flight, across the clock's wrap; it is the report's own unless the report was built behind another |
| P5gLink.OwnRequestIsYoungIff | src/uart_peer/p5general_link.c:105-114 | in every reachable state, after a device task the pending report's own request is less than 20 ms old if and only if the report was not waiting behind one in flight that is still that young |
| P5gLink.RequestComesDue | src/uart_peer/p5general_link.c:105-111 | a report still waiting is sent at the first task 20 ms after the last request |
| P5gLink.ResponseAnswersPending | src/uart_peer/p5general_link.c:25-55 | while no retry has fired, a response signs the report that is pending |
| P5gLink.ReportHeldBack | src/uart_peer/p5general_link.c:105-114 | a run in which a new report is pending but nothing is sent for it |
| P5gLink.RetryCanMisanswer | src/uart_peer/p5general_link.c:49-55 | a run with a retry in which a report is answered with the signature of the one before |
| P5gLink.AnsweredTrulyIffOwnCopies | src/uart_peer/p5general_link.c:49-55 | a given report about to be built is only ever answered with its own signature, in every continuation without another build, if and only if every copy left on its way in either direction is of that report |
| P5gLink.AnsweredTrulyIffDrained | src/uart_peer/p5general_link.c:49-55 | so all reports are safe to build if and only if no copy of any is left |
| P5gLink.MisfitComesHome | src/uart_peer/p5general_link.c:25-55 | a copy of another report, wherever it is and whatever is in front of it, can come home as the answer to a given one |
| P5gLink.LeftoverComesHome | src/uart_peer/p5general_link.c:25-55 | the copy furthest on its way can come home as the answer to whatever is pending |
| Ps4Link.DeviceSide.SendNonce | src/uart_peer/ps4_auth_link.c:50-62 | relays a complete nonce page, and page 0 restarts the round |
| Ps4Link.DeviceSide.OnSigFrame | src/uart_peer/ps4_auth_link.c:157-160 | stores a complete page numbered 0 to 18 in its place and touches no other page |
| Ps4Link.DeviceSide.GetSignature | src/uart_peer/ps4_auth_link.c:71-91 | 63 bytes: nonce id, page number, 0, the 56 bytes of that page or zeros until ready, and a checksum the console's own check under 0xF1 passes; moves on only when ready and not on the last page |
| Ps4Link.DeviceSide.GetStatus | src/uart_peer/ps4_auth_link.c:93-109 | 15 bytes: nonce id, 0 when ready and 16 until then, nine zeros, and a checksum that passes under 0xF2 |
| Ps4Link.HostSide.Task | src/uart_peer/ps4_auth_link.c:112-136 | sends one page per call, READY behind the last, and nothing again until the controller signs anew |
| Ps4Link.CallSendsPage | src/uart_peer/ps4_auth_link.c:112-136 | from the signature getting ready, call n sends page n up to page 18, and later calls nothing until it was not ready again |
| Ps4Rounds.HostTaskSound | src/uart_peer/ps4_auth_link.c:112-136 | a streamed page keeps what will have arrived equal to this round's pages so far |
| Ps4Rounds.StepSound | src/uart_peer/ps4_auth_link.c:50-164 | a restart with nothing left over establishes the invariant from any state at all, and every other step of console, link, controller and both chips keeps it |
| Ps4Rounds.ServesTheRightSignature | src/uart_peer/ps4_auth_link.c:50-164 | in every run whose latest restart came with nothing left over, whatever earlier ones did, ready means all 19 pages are this round's; reads give pages 0, 1, ... 18, 18, ...; before ready no read moves on |
| Ps4Rounds.RestartHonestIffQuiet | src/uart_peer/ps4_auth_link.c:161-164 | in every reachable state, a restart can only be answered with its own signature if and only if nothing was left that could still end in a READY |
| Ps4Rounds.RestartWhenReadyIsQuiet | src/uart_peer/ps4_auth_link.c:54-55 | restarting once the device is ready is safe whenever the round that got ready began safely |
| Ps4Rounds.NonceHasFivePages | src/uart_peer/ps4_auth_link.c:50-62 | a round sends nonce pages 0 to 4 in order, however often the console asks for another |
| Ps4Rounds.FifthPageSigns | src/usb/usbh/hid/devices/vendors/sony/sony_ds4.c:542-554 | the fifth nonce page, and no other, makes the controller sign and voids every earlier signature |
| PadJournal.PadStorage.FindNewest | src/pad/pad_config_storage_rp2040.c:38-51 | the scan finds the live slot with the highest sequence |
| PadJournal.PadStorage.FindEmpty | src/pad/pad_config_storage_rp2040.c:53-58 | the scan finds the first slot with an erased sequence |
| PadJournal.PadStorage.Init | src/pad/pad_config_storage_rp2040.c:108-118 | the counter is taken from the newest slot |
| PadJournal.PadStorage.Load | src/pad/pad_config_storage_rp2040.c:120-126 | returns the newest record and takes its sequence |
| PadJournal.PadStorage.Save | src/pad/pad_config_storage_rp2040.c:128-143 | programs the next slot with the numbered record, erasing a full sector first |
| PadJournal.PadStorage.Erase | src/pad/pad_config_storage_rp2040.c:145-149 | leaves an erased sector and a zero counter |
| PadJournal.BlankTakesRecord | src/pad/pad_config_storage_rp2040.c:71-74 | programming an erased page leaves exactly the record |
| PadJournal.RecordBytes | src/pad/pad_config_storage_rp2040.c:128-143 | the bytes of a record: the magic 43 44 41 50, the sequence number low byte first, then the caller's bytes from 8 on |
| PadJournal.NewestIsLast | src/pad/pad_config_storage_rp2040.c:38-51 | with the written slots a prefix of increasing sequence, the newest is the last one written |
| PadJournal.SavedMeans | src/pad/pad_config_storage_rp2040.c:128-143 | a save keeps the written slots a prefix with strictly increasing sequence and the rest erased |
| PadJournal.SavesGoRound | src/pad/pad_config_storage_rp2040.c:128-143 | from an erased sector the n-th save in a row is in slot (n - 1) mod 16 with sequence number n, and behind it the sector is erased |
| PadJournal.SaveThenLoad | src/pad/pad_config_storage_rp2040.c:128-143 | the next load returns the record just written if and only if the counter was not at 0xFFFFFFFE |
| PadJournal.DoMeans | src/pad/pad_config_storage_rp2040.c:108-149 | every operation, power cuts included, does to the journal what it does to one optional value |
| PadJournal.JournalIsOneVariable | src/pad/pad_config_storage_rp2040.c:108-149 | from an erased sector every run leaves exactly that one value |
| PadJournal.LoadReturnsLastSave | src/pad/pad_config_storage_rp2040.c:120-143 | load returns the last save, unless power failed between erase and write of a full sector |
| PadJournal.CutAtWriteLosesValue | src/pad/pad_config_storage_rp2040.c:134-142 | in that one case the value is gone |
| PadConfig.ConversionRoundTrip | src/pad/pad_config_flash.c:21-217 | converting to the record and back keeps every stored field; the name is cut to 31 characters |
| PadConfig.UnpackPack | src/pad/pad_config_flash.h:31-152 | the packed 256-byte record unpacks to the same fields |
| PadConfig.PackSlices | src/pad/pad_config_flash.h:31-152 | the offset of every part of the packed record |
| PadConfig.PackHalves | src/pad/pad_config_flash.h:31-152 | the offset of every 16-bit field, low byte first and negative numbers in two's complement |
| PadConfig.PackSmall | src/pad/pad_config_flash.h:31-152 | the offset of every single-byte pin, bus and address |
| PadConfig.CheckedByNumbers | src/pad/pad_config_flash.c:246-271 | a record is accepted exactly when each of its 48 checked pins is from -1 to 29 and both buses are from -1 to 1 |
| PadConfig.FlashValid | src/pad/pad_config_flash.c:250-271 | the check computes that |
| PadConfig.CheckedIffInRange | src/pad/pad_config_flash.c:246-271 | the record of a configuration is accepted exactly when its own 48 named pins are from -1 to 29 and its buses from -1 to 1 |
| PadConfig.PadFlash.Save | src/pad/pad_config_flash.c:299-303 | saves the configuration's record in the journal |
| PadConfig.PadFlash.LoadRuntime | src/pad/pad_config_flash.c:273-297 | a schema byte other than 1 wipes the journal, a bad pin is ignored, and otherwise the converted record is returned |
| PadConfig.SchemaByte | src/pad/pad_config_flash.c:285-290 | the schema version is byte 170 of a record; with any other than 1 the runtime gets nothing |
| PadConfig.SavedIsNotStale | src/pad/pad_config_flash.c:285-290 | a record the firmware saved itself is never wiped as stale |
| PadConfig.SaveThenLoadRuntime | src/pad/pad_config_flash.c:273-303 | saving and loading returns every stored field if and only if each checked pin is from -1 (unused) to 29 and both buses are from -1 to 1; otherwise nothing comes back |
| PadConfig.EdgePins | src/pad/pad_config_flash.c:246-248 | with every checked pin -1 or 29 the configuration comes back; with a 30 or a -2 in any position it does not |
| PadConfig.WholeConfigIff | src/pad/pad_config_flash.c:121-217 | the configuration comes back whole exactly when, besides, its name fits and everything without room in the record is zero |
| PadConfig.StoredWhole | src/pad/pad_config_flash.c:123 | what has no room comes back as zero, the touch pins included |
| PadConfig.ExpanderConfigsAreRejected | src/pad/pad_config_flash.c:246-256 | a configuration with any button on an expander pin never comes back |
| GcKey.KeyBytes | tools/gba-bridge/eth-multiboot.js:33-49 | the bytes of a key under its magic: three parts of the size and, on top, their sum, each with bit 7 set |
| GcKey.KnownKeys | tools/gba-bridge/eth-multiboot.js:33-49 | two keys worked out, one under each magic |
| GcKey.RightMagic | tools/gba-bridge/index.js:358-366 | under the magic a key was made with, its length is recovered |
| GcKey.KeysAreDistinct | tools/gba-bridge/index.js:130-146 | no two lengths a key can carry share a key, across both magics |
| GcKey.ReverseKey | tools/gba-bridge/index.js:358-367 | the loop over the magics returns the first length that round-trips |
| GcKey.ReverseRecoversIffCarried | tools/gba-bridge/index.js:130-146 | the inverse recovers a length if and only if it is at least 512, a multiple of 8, and its size field fits 15 bits |
| GcKey.UnknownIffNoKey | tools/gba-bridge/index.js:358-367 | for every key the inverse gives a length that has it, and gives none if and only if no length at all has it |
| GbaMultiboot.CipherTwice | tools/gba-bridge/eth-multiboot.js:184-187 | decrypting a word with the same key and offset undoes encrypting it |
| GbaMultiboot.CrcStep | tools/gba-bridge/eth-multiboot.js:51-58 | the loop computes the checksum step, and keeps a 16-bit checksum in 16 bits |
| GbaMultiboot.BodyCrcSixteen | tools/gba-bridge/eth-multiboot.js:177-183 | the running checksum never leaves 16 bits |
| GbaMultiboot.Multiboot | tools/gba-bridge/eth-multiboot.js:111-217 | the loops write exactly the specified command stream |
| GbaFinal.BodyFolds | tools/gba-bridge/eth-multiboot.js:177-187 | after n words the running checksum is that of the patched image's first n body words in order, and the key has been advanced n times |
| GbaFinal.LastWriteSays | tools/gba-bridge/eth-multiboot.js:199-210 | the last write, decrypted at its place, is the checksum of the whole patched body below and the length's low half above; the first write is the key of the length |
| GbaFinal.FirstWriteGivesLength | tools/gba-bridge/eth-multiboot.js:160-167 | the receiver recovers the length from the first write if and only if a key can carry it |
| GbaFinal.ChangedByteShows | tools/gba-bridge/eth-multiboot.js:51-58 | two images of equal length that differ in one body byte outside the channel word end in different checksums |
| GbaFinal.KnownChecksum | tools/gba-bridge/eth-multiboot.js:51-58 | the checksum of the one word 0x12345678 is 0x690c |
| GbaFinal.KnownMasks | tools/gba-bridge/eth-multiboot.js:184-187 | the mask worked out at 0xC0 and at 0x1000 |
| GbaFinal.CipherAdds | tools/gba-bridge/eth-multiboot.js:184-187 | encrypting adds the key and the offset's mask to the word |
| GbaFinal.ChannelBytes | tools/gba-bridge/eth-multiboot.js:181-182 | the patched image has 0, the channel's low byte, 0, 0 at 0xC4 and every other byte of the ROM |
| GbaMultiboot.WordCaptured | tools/gba-bridge/index.js:477-490 | a body write is decrypted to the word sent, as long as the buffer has room |
| GbaMultiboot.CaptureRecoversIffItFits | tools/gba-bridge/index.js:468-497 | for every word-sized ROM from the header up and every key, the capture recovers the ROM with the channel word replaced if and only if ROM and last word fit 256 KB |
| GbaMultiboot.ShortCaptures | tools/gba-bridge/index.js:492-497 | a capture ended right behind the key gives 0x3FFFC zeros, one ended behind a single word gives nothing |
| GbaBridge.CutConcat | tools/gba-bridge/index.js:420-427 | an incomplete command waits for the bytes behind it and nothing else changes |
| GbaBridge.ChunksDoNotMatter | tools/gba-bridge/index.js:420-427 | feeding chunks one by one is feeding them joined |
| GbaBridge.Drainer.CaptureWrite | tools/gba-bridge/index.js:469-490 | the buffer refines the capture's specification |
| GbaBridge.Drainer.Drain | tools/gba-bridge/index.js:420-536 | one chunk handles its complete commands in order and keeps the rest |
| GbaBridge.StreamCapturedIffItFits | tools/gba-bridge/index.js:420-497 | the sender's bytes in chunks cut anywhere capture the ROM exactly when it fits |
| I2cPeer.SlaveSide.OnReceive | src/i2c_peer/i2c_peer.c:66-80 | the first byte selects a register, the rest fill the status until it is full |
| I2cPeer.SlaveSide.OnRequest | src/i2c_peer/i2c_peer.c:82-121 | answers from the selected register and moves on inside the event and the name |
| I2cPeer.RegisterReads | src/i2c_peer/i2c_peer.c:82-121 | byte k of a read with no tap inside, for each register: version and data flag, device count, event, name, or 0xFF, zeros behind event and name |
| I2cPeer.TapReplacesEvent | src/i2c_peer/i2c_peer.c:162-192 | a tap changes nothing for an address from 0xE0 to 0xEF and replaces the event served for any other |
| I2cPeer.EchoedIffBeyond15 | src/i2c_peer/i2c_peer.c:162-168 | an event the master has submitted is not served again, for players below 16 and no others |
| I2cPeer.SlaveSide.Tap | src/i2c_peer/i2c_peer.c:162-192 | replaces the served event as a whole, except for events from such a peer |
| I2cPeer.SlaveSide.GetStatus | src/i2c_peer/i2c_peer.c:194-203 | returns the status once, only when one was announced |
| I2cPeer.ReadsEventAt | src/i2c_peer/i2c_peer.c:95-103 | in every interleaving, byte k of a read comes from the event as it stands when it is requested |
| I2cPeer.QuietReadIsWhole | src/i2c_peer/i2c_peer.c:95-103 | with no tap inside the read its 12 bytes are one whole event |
| I2cPeer.TornRead | src/i2c_peer/i2c_peer.c:186-191 | with a tap inside, the bytes are the old event up to it and the new one from there, one whole event only if the two agree on either part |
| I2cPeer.OnlyFirstBytesLand | src/i2c_peer/i2c_peer.c:73-78 | in every run the status buffer holds the first 46 of all status bytes written |
| I2cPeer.FullStatusIsFixed | src/i2c_peer/i2c_peer.c:73-78 | once full it never changes |
| I2cPeer.StatusAfterWrite | src/i2c_peer/i2c_peer.c:123-131 | after a complete write a status is returned: the first 46 bytes ever written |
| I2cPeer.TransferAnnouncesIff | src/i2c_peer/i2c_peer.c:66-131 | any transfer announces a status exactly when it went to register 0x80 and, with those before, 46 bytes have been written |
| I2cPeer.LatestWriteIffFirst | src/i2c_peer/i2c_peer.c:194-203 | the latest write is what is returned, whatever it is, if and only if nothing was written before it |
| I2cPeer.MasterSide.Task | src/i2c_peer/i2c_peer.c:297-368 | one poll: submits the event read, or a neutral one when the slave is given up |
| I2cPeer.ConnectedIffRecentlyAnswered | src/i2c_peer/i2c_peer.c:311-349 | in every run the slave counts as connected exactly while it has answered and fewer than three polls in a row have failed since, although the counter is a byte |
| I2cPeer.ThirdFailureNeutralises | src/i2c_peer/i2c_peer.c:313-331 | in every run a failing poll submits something exactly at the third failure in a row of a slave that had answered: one event with sticks centred and nothing pressed |
| I2cPeer.AnsweredPollSubmits | src/i2c_peer/i2c_peer.c:351-360 | an answered poll submits the event read exactly when status bit 0 is set and 12 bytes came |
| I2cPeer.DueInTime | src/i2c_peer/i2c_peer.c:302-308 | polls are due 4 ms after the latest while connected and 500 ms after the latest retry otherwise, across the clock's wrap |
| I2cPeer.PollDeliversLastTap | src/i2c_peer/i2c_peer.c:351-356 | a poll with no tap in between submits the event tapped last, from address 0xE0 and up, with its type, buttons and axes and nothing of the rest |
| Uf2Conv.BlockFields | esp/tools/uf2conv.py:127-140 | every word of every block's header, its number and count included, its 256 bytes of the zero-filled input, the zeros behind and the end magic |
| Uf2Conv.Converter.ToUf2 | esp/tools/uf2conv.py:120-141 | the loops emit exactly those blocks, or fail when an address does not fit 32 bits |
| Uf2Conv.Converter.FromUf2 | esp/tools/uf2conv.py:36-108 | the block loop computes the specified fold, and sets the start address |
| Uf2Conv.RoundTrip | esp/tools/uf2conv.py:36-141 | converting to UF2 and back gives the input filled with zeros to a multiple of 256, for every input, base and family, and the base comes back |
| Uf2Conv.ReadsImage | esp/tools/uf2conv.py:54-107 | blocks of one family the reader accepts come out as the memory image they describe: every payload at its address from the first, zeros between; the end of the file leaves that |
| Uf2Conv.UnwantedLeavesZeros | esp/tools/uf2conv.py:66-75 | blocks of another family than the wanted one leave only the zeros between them |
| Uf2Conv.TwoFamiliesGiveNothing | esp/tools/uf2conv.py:103-107 | with two families and none wanted the last block leaves nothing, at address 0 |
| Uf2Conv.ThereAndBack | esp/tools/uf2conv.py:36-141 | the two conversions in a row, with the globals as they were |
| Ogg.LacesGiveSegments | tools/ds5-scream/encode.py:48-53 | the inner loop reads exactly the segments the lacing list announces |
| Ogg.PagesGiveSegments | tools/ds5-scream/encode.py:43-54 | the page loop reads every page's segments and ends with the data |
| Ogg.NoPageFails | tools/ds5-scream/encode.py:43-54 | data that does not begin with "OggS", or is too short for a page header, does not parse |
| Ogg.LacedAssembles | tools/ds5-scream/encode.py:48-53 | a packet of any length comes back from its segments, an empty last one included |
| Ogg.ParsesLacedPackets | tools/ds5-scream/encode.py:38-55 | packets laced into well-formed pages at any page breaks parse to exactly those packets |
| Ogg.ParsePackets | tools/ds5-scream/encode.py:38-55 | the loops terminate on any data and compute the specified parse |

## Left out

- Adi.Driver.DpInit: the power-up and rescue sequences and the choice of core are one step that leaves SELECT, CSW and TAR unknown, as is core selection in the flashing loop; a failed initialisation that leaves no core selected, and a failing reset-and-halt, are not modelled.
- Adi.Driver.MemWriteBlock: addresses do not wrap past 2^32; the block reads, the posted reads, and the 8-bit and 16-bit reads are not modelled.
- FlashStream.Flasher.CallFlashBlock: the call into the target (`core_*`, `reg_*`, ROM lookup, trampoline) is assumed to run the routine when it reports success; the stage-2 bootloader calls and XIP switching inside the routine are not modelled, nor is the returned statistics word.
- FlashStream.Flasher.ProgramFlashChunk: the routine's own code must have a length the block writer delivers whole; its bytes are a parameter.
- FlashStream.Flasher.AddFlashBit: `flash_code_copied` stays set after a failed command or attempt, and the model assumes the target's RAM keeps the routine between them; a target that lost its RAM in between is excluded.
- FlashB.FlashBApp: the same holds between attempts. Images are whole sectors, as the combining tool makes them and the relay's chunk alignment relies on (flash_b_side.c:121-122); what the ROM does with other lengths is not in the source; logging and the reboot of the target at the end are not modelled.
- FlashB.FlashBSide: clock set-up, XIP re-entry, watchdog and the progress words are not modelled.
- CombineUf2.Combine: blocks are records of their header fields and data; reading and writing files and the magic words are not modelled.
- LinkRing.TxRing.FrameSend: the link is initialised; UART registers and flow control are not modelled.
- PeerRefresh.QuietLinkRestores: on a quiet link nothing more is lost, tasks are at most d ms apart and bytes leave the ring within h ms; the latest transmission before it is less than the clock's period old.
- PeerLink.Consumer.DispatchFrame: STATUS and DEBUG messages, device names and link statistics other than the checksum counter are not modelled; relay messages go to the relay modules.
- P5gLink.NeverWedged: device tasks are less than the clock's period apart; the F0, F1 and F2 pass-through and the dongle presence broadcast are not modelled, and the dongle signs what it is handed.
- Ps4Rounds.ServesTheRightSignature: the console sends nonce pages 0 to 4 once each in order; the host task runs at least once while a signature, which takes dozens of transfers, is being made; nonce ids are not part of the rounds, and page contents are tags that say whose signature they are.
- Ps4Link.DeviceSide.GetSignature: logging and the diagnostic pulse are not modelled.
- PadJournal.DoMeans: erasing and programming a page are each atomic, also under a power cut; the fallback when the flash lock is not obtained does the same programming and is not distinguished.
- PadConfig.UnpackPack: the structure is packed in declaration order, as its size assertion requires.
- PadConfig.FlashValid: the pin limit is the RP2040's 29; the limits of other chips are not modelled. The magic is checked by the journal's scan already.
- GcKey.ReverseRecoversIffCarried: lengths are 32-bit words.
- GbaMultiboot.Multiboot: the reset, status and seed exchanges before the key, the answers to writes, and errors and timeouts are not modelled; the seed arrives as the session key. A ROM shorter than the header, or not whole words, makes the source throw; the model starts behind that.
- GbaBridge.Drainer.Drain: answers to the socket are not modelled. The source has the capture switched off (it never leaves pass-through); the model starts it behind the session key read. The native upload after the capture is not modelled.
- I2cPeer.MasterSide.Task: bus transfers are parameters; reading the device name and logging are not modelled.
- Uf2Conv.Converter.FromUf2: the printed header information and the family names are not modelled; hex and C array formats are left out.
- Ogg.ParsePackets: page fields other than the capture pattern and the lacing list are not read by the source, and pages are not checked against their checksums.
- The NVS back ends of other chips, the router, the controllers and consoles at the ends of the relays, and everything about display, LEDs, audio and scripts.
