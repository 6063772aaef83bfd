# VMR firmware: verified model

A Dafny model of the state-heavy parts of the Versal Management Runtime firmware, with proofs of what
they promise. It covers the boot-flash driver and the A/B image update on top of it, the shared-memory
command rings and the tasks behind them, the updater of the satellite controller (SC), the removal of
sections from an axlf container, the search for the interface UUID in a devicetree blob, and the framing
of SC messages. `dafny verify dfyconfig.toml` checks everything.

## How it is organised

| file | models | main results |
|---|---|---|
| `Bits.dfy`, `Machine.dfy` | bit masks on naturals, 32/64-bit wrap-around, little-endian words | the power-of-two test is exact |
| `NorFlash.dfy` | a NOR device: an array of bytes, sector erase to 0xFF, programming ANDs bits in | every prefix of a plan is a cut of it; what a plan leaves alone |
| `Ospi.dfy` | the flash driver as a class over two chips | two stacked chips are one flat flash; the erase count in closed form |
| `FlashResults.dfy` | completed driver calls | when a safe write changes nothing but its range; erase and copy agree |
| `PdiUpdate.dfy`, `UpdateSafety.dfy`, `NextUpdate.dfy`, `RepeatedUpdate.dfy` | the A/B update of the boot image, and the one after it | after any prefix of device operations a complete image exists and none is torn and bootable, if and only if no erase reaches from one partition into the other; after which cut points another request keeps that |
| `XgqRing.dfy`, `XgqChannel.dfy`, `XgqAlloc.dfy` | ring queues, the shared memory of one in use, their layout and attachment | first in, first out over all interleavings; the slot count is the largest that fits |
| `Completion.dfy`, `CommandPaths.dfy`, `Tasks.dfy` | the tasks between submission and completion ring, as a state machine and on the rings themselves | every command is completed once, under its own id, for any schedule, by the task of its kind and in order; the unchecked reservation never fails; the tasks never get stuck |
| `Crc16.dfy` | the checksum of SC packets | the byte step is bit-serial division; one wrong byte is always detected; it yields the checksums the source writes out |
| `ScImage.dfy`, `ScParser.dfy` | TI-TXT text, packets, the resumable parser | the packets laid at their addresses are the image the text denotes |
| `ScUpdate.dfy`, `ScWire.dfy`, `ScDriver.dfy` | the updater's handlers, what replies mean byte for byte, and the loop | state order, bounded preparation on any line, the code read off the line packet by packet; code 0 means the image is there if and only if every packet with data arrived |
| `Axlf.dfy`, `AxlfRemove.dfy` | the container as a value, and the removal in place in a byte buffer | other sections keep order and bytes; a kind is gone exactly when no two neighbours had it |
| `Fdt.dfy`, `XclbinUuid.dfy` | devicetree tokens, trees and the walk, from the container down | the first property in document order, if within 1001 tokens; which error for which container |
| `Framing.dfy` | escape-stuffed frames and a receiver for them | a stream of frames comes apart into what was sent; undoubled, a frame ends in the sum of its bytes |

Objects whose methods update fields are classes, loops over buffers are methods on arrays, and each such
method is proved against a specification function or a plan of device operations. A driver call's
contract says `Grew(before, after, plan, complete)`: the history of device operations grew by a prefix
of the plan, by all of it when the call succeeds. A crash, a failed transfer and a lost power supply are
therefore the same thing, a prefix, and the safety theorems quantify over prefixes. The driver also counts
the failures that have a cause outside the code (`faults`): a refused or failed command, a chip that cannot
be selected, no memory, a read-back that disagrees. Each call succeeds if and only if that count has not
grown and its guards, written out in its contract, hold; nothing fails without a cause.

## What the code does that its comments do not say

- The guard of the safe write tests one bit of the offset (`offset & 256`), not page alignment: offset 8
  passes, offset 256 is refused. Sector-aligned offsets always pass (`GuardIsNotAlignment`).
- A safe write whose range ends on a sector boundary erases the next sector and does not restore it.
  `SafeWriteExact` says exactly when nothing behind the range is lost.
- Erasing for a length equal to the partition size erases the first sector of the neighbour
  (`EraseStaysInPartition`), and the guards accept such images and such backups. With B directly behind A, or
  A directly behind B, an update then has a moment at which neither holds an image
  (`FullSizeImageErasesNeighbour`, `FullSizeBackupErasesNeighbour`); `RecoverableExactly` shows that these are
  the only two cases.
- A length of the whole flash selects the bulk erase of every chip, whose results are not looked at. The
  sector count it is compared with is doubled for stacked parts. No accepted update has that length
  (`NoUpdateErasesChips`); the legacy path may.
- A request that fails after the erase of A does not count as flashed, and A's metadata still says that A
  holds the old image. Another request before the next boot then copies the erased A over the good B, and no
  image is left. `RepeatExactly` says after which cut points another request keeps a whole image;
  `EraseIsNotRepeatable` is the cut point right after the erase.
- An update cut short between the image in A and A's metadata leaves the new image under the old size. The
  next update backs up as many bytes as that size says, which for a longer new image is its beginning only
  (`BetweenImageAndMetadata`, `NextBackupTruncated`); cut while the metadata is
  written, it refuses or goes by the new size.
- Removing sections of a kind skips the one that moves into the removed place. Of two neighbours of the
  kind one stays (`PassRemovesKind`).
- A packet that cannot be sent, or draws no answer in time, is not sent again, and the update goes on. For
  every image there is a line on which it ends with code 0 and nothing is programmed
  (`SuccessWithoutImage`); with code 0 the device holds the image if and only if every packet with data
  arrived (`DeliveredImage`, and the last `ensures` of `UpdateScfw`). A lost or invalid read-back counts as
  a match.
- The comment above the updater speaks of ten retries; the constant is five. The response size tried by
  the first state is kept from one update to the next when the controller was found in SC mode.
- The sender of SC messages ignores the flags it is passed and sends the enumeration constant 3.
- The caller's buffer is left with its boot tag masked exactly when the erase succeeded and the masked
  write did not (the `ensures` of `FlashImage` on the buffer and on the stage reached).

## Model

| member | source | states |
|---|---|---|
| NorFlash.ProgramFacts | vmr/src/rmgmt/rmgmt_fpt.c:533-549 | programming erased cells stores the data, and rewriting stored data, or ones over data, changes nothing |
| NorFlash.RunErase | vmr/src/common/cl_ospi_polled.c:600-677 | consecutive sector erases, run in order, blank exactly the span they cover |
| NorFlash.RunWrite | vmr/src/common/cl_ospi_polled.c:406-490 | chunk programs of at most 8 bytes, run in order, merge the data in as one |
| NorFlash.ErasePlanPrefix | vmr/src/common/cl_ospi_polled.c:600-677 | an erase cut short has erased a run of sectors from the lowest up |
| NorFlash.WritePlanPrefix | vmr/src/common/cl_ospi_polled.c:406-490 | a write cut short has written a prefix of the data, cut at a chunk boundary |
| NorFlash.WritePlanConcat | vmr/src/common/cl_ospi_polled.c:1366-1389 | writing page by page is writing the joined data, chunk by chunk |
| NorFlash.Frame | vmr/src/common/cl_ospi_polled.c:406-490 | operations confined to a range leave every byte outside it as it was |
| Ospi.TableIsGeometric | vmr/src/common/xospipsv_flash_config.h:110-140 | every supported part has power-of-two sizes, and its sector mask and count fit them; the count in use, doubled when stacked, is that of the whole flash |
| Ospi.ChipAddressFlat | vmr/src/common/cl_ospi_polled.c:1184-1198 | chip select and chip address are quotient and remainder of the flat address by the device size |
| Ospi.ChipAddressBijection | vmr/src/common/cl_ospi_polled.c:1184-1198 | translation is a bijection between flat addresses and cells of the two chips |
| Ospi.NumSectClosedForm | vmr/src/common/cl_ospi_polled.c:583-598 | the driver's count, with its mask comparison, is the number of sectors from A/S through (A+L)/S |
| Ospi.EraseCoverage | vmr/src/common/cl_ospi_polled.c:583-677 | the erase covers the range, changes nothing outside the touched sectors, and overshoots by a whole sector exactly when the range ends on a sector boundary |
| Ospi.WholeFlashErase | vmr/src/common/cl_ospi_polled.c:525-575 | an erase of the flash's length leaves no byte of any chip, whatever the address |
| Ospi.PageBitTest | vmr/src/common/cl_ospi_polled.c:1502-1509 | the guard of the safe write looks at one bit of the offset |
| Ospi.CachedIsPatched | vmr/src/common/cl_ospi_polled.c:1525-1532 | the cached sector is the tail of the buffer followed by what the flash held behind it |
| Ospi.Flash.EraseCommand | vmr/src/common/cl_ospi_polled.c:606-675 | one sector erase at the flat address of the selected chip, or no effect; a failure is counted |
| Ospi.Flash.BulkErase | vmr/src/common/cl_ospi_polled.c:769-862 | one chip erased as a whole, or no effect, and nobody is told |
| Ospi.Flash.ProgramCommand | vmr/src/common/cl_ospi_polled.c:411-489 | one chunk programmed at the flat address of the selected chip, or no effect; a failure is counted |
| Ospi.Flash.ReadCommand | vmr/src/common/cl_ospi_polled.c:699-753 | the bytes of one chip are the flat bytes at its address; a failure is counted |
| Ospi.Flash.FlashIoWrite | vmr/src/common/cl_ospi_polled.c:393-492 | a prefix of the chunk plan of exactly the requested bytes, all of it on success, if no chunk crosses a page; it fails if and only if a command did |
| Ospi.Flash.FlashRead | vmr/src/common/cl_ospi_polled.c:699-753 | the flat contents of any range, also across the chip boundary; it fails if and only if a command did |
| Ospi.Flash.FlashErase | vmr/src/common/cl_ospi_polled.c:511-679 | a prefix of the closed-form erase plan, all of it on success; for the flash's length every chip is bulk-erased instead, as far as the bulk erases take effect; it fails if and only if a sector erase or a chip select did |
| Ospi.Flash.AreaRead | vmr/src/common/cl_ospi_polled.c:1315-1334 | flat contents at the area's base plus offset; it fails if and only if a command did |
| Ospi.Flash.AreaErase | vmr/src/common/cl_ospi_polled.c:1435-1452 | the driver's erase at the area's base plus offset; it fails if and only if that did |
| Ospi.Flash.AreaWrite | vmr/src/common/cl_ospi_polled.c:1336-1433 | whole pages written, the last one in full whatever the length is; it fails if and only if a command or the read-back did |
| Ospi.Flash.AreaCopy | vmr/src/common/cl_ospi_polled.c:1454-1480 | len/256+1 pages, each read as the pages before it left the flash; it fails if and only if a command or a read-back did |
| Ospi.Flash.SafeWrite | vmr/src/common/cl_ospi_polled.c:1490-1561 | refused exactly for another area or an odd page; else a prefix of erase, write, rewrite of the cached sector, which fails if and only if a command, a read-back or the allocation did |
| FlashResults.BoundsFollow | vmr/src/common/cl_ospi_polled.c:1490-1561 | for a sector-aligned range inside the flash all bounds the safe write needs hold |
| FlashResults.SafeWriteStagesRun | vmr/src/common/cl_ospi_polled.c:1538-1551 | the three stages of a completed safe write as effects on the whole flash |
| FlashResults.SafeWriteContents | vmr/src/common/cl_ospi_polled.c:1490-1561 | every cell after a completed safe write in terms of its old value and the buffer |
| FlashResults.SafeWriteExact | vmr/src/common/cl_ospi_polled.c:1490-1561 | the range holds the buffer and all other bytes are unchanged if and only if what the erase takes behind the range is restored or was blank |
| FlashResults.SafeWriteWholePages | vmr/src/common/cl_ospi_polled.c:1490-1561 | whole pages not ending on a sector boundary: exactly the range changes |
| FlashResults.SafeWriteWholeFlash | vmr/src/common/cl_ospi_polled.c:1490-1561 | for the flash's length the flash is then the buffer |
| FlashResults.GuardIsNotAlignment | vmr/src/common/cl_ospi_polled.c:1502-1509 | offsets 8 and 256 as witnesses; sector-aligned offsets always pass |
| FlashResults.CopyPlanDisjoint | vmr/src/common/cl_ospi_polled.c:1454-1480 | pages read from an area the copy does not write are the original ones |
| FlashResults.EraseThenCopy | vmr/src/rmgmt/rmgmt_fpt.c:413-420 | after erase and copy the target equals the source on every copied page, the extra one included, and only the erased sectors changed |
| FlashResults.EraseThenCopyWhole | vmr/src/rmgmt/rmgmt_fpt.c:413-420 | for whole pages the target equals the source even if the extra page is read from what the copy wrote |
| FlashResults.CopyPlanWithin | vmr/src/common/cl_ospi_polled.c:1464-1475 | a copy writes only the pages of its target |
| FlashResults.CopiedPagesErased | vmr/src/common/cl_ospi_polled.c:1464-1475 | the extra page of a copy always falls in an erased sector |
| PdiUpdate.MetaRoundTrip | vmr/src/rmgmt/rmgmt_fpt.h:54-61 | metadata decoded from a page is the metadata written to it |
| PdiUpdate.MetaWords | vmr/src/rmgmt/rmgmt_fpt.h:54-61 | magic and size are the first and third little-endian words of the metadata page |
| PdiUpdate.Updater.MetaGet | vmr/src/rmgmt/rmgmt_fpt.c:76-97 | the metadata in the flash, if and only if the base is not zero and no command failed |
| PdiUpdate.Updater.MetaSet | vmr/src/rmgmt/rmgmt_fpt.c:99-120 | a safe write of the metadata page; success if and only if the base is not zero and on an even page and nothing failed |
| PdiUpdate.Updater.MetaErase | vmr/src/rmgmt/rmgmt_fpt.c:59-74 | an erase of one page's sectors; success if and only if the base is not zero and no command failed |
| PdiUpdate.TagIsWord5 | vmr/src/rmgmt/rmgmt_fpt.c:539-546 | masking sets the word at 0x14 to all ones and changes nothing else |
| PdiUpdate.Updater.CopyDefaultToBackup | vmr/src/rmgmt/rmgmt_fpt.c:357-430 | a prefix of erase, copy, metadata of B; success if and only if nothing failed, not booted from B, no address is zero, B's metadata is on an even page, A's is recognised and its size is from 1 to B's; B's own metadata may be anything |
| PdiUpdate.Updater.FlashImage | vmr/src/rmgmt/rmgmt_fpt.c:533-549 | a prefix of erase, masked image, first page with the tag, and which of the three failed; success if and only if nothing failed; the caller's buffer is masked exactly when the masked write failed |
| PdiUpdate.Updater.FlashDefault | vmr/src/rmgmt/rmgmt_fpt.c:498-556 | a prefix of the plan for partition A, metadata reset first when not recognised; success if and only if nothing failed, the image fits, no address is zero and the metadata is on an even page; the buffer masked exactly when the masked write failed |
| PdiUpdate.Updater.FlashRpuPdi | vmr/src/rmgmt/rmgmt_fpt.c:443-563 | nothing once flashed; else a prefix of the whole update plan, all of it on success; success if and only if nothing failed and every guard, written out in the fields of the table and of A's metadata, holds; the buffer masked exactly when the masked write failed |
| PdiUpdate.NoUpdateErasesChips | vmr/src/common/cl_ospi_polled.c:525-531 | no erase of an accepted update is as long as the flash |
| UpdateSafety.EraseBlanksTagFirst | vmr/src/rmgmt/rmgmt_fpt.c:534-540 | any non-empty prefix of the erase leaves the boot tag all ones |
| UpdateSafety.MaskedWriteKeepsTagBlank | vmr/src/rmgmt/rmgmt_fpt.c:538-543 | the tag stays all ones throughout the masked write |
| UpdateSafety.FirstPagePrefix | vmr/src/rmgmt/rmgmt_fpt.c:545-549 | while page 0 is rewritten the tag is blank or the whole image is in place, because rewritten bytes keep their value |
| UpdateSafety.CrashConsistent | vmr/src/rmgmt/rmgmt_fpt.c:533-549 | after every prefix of device operations: untouched, tag blank, or the whole new image in place; complete means in place |
| UpdateSafety.EraseStaysInPartition | vmr/src/rmgmt/rmgmt_fpt.c:498-502 | the erase stays in the partition if and only if the length is less than its size; equality takes one more sector |
| UpdateSafety.ImageWithin | vmr/src/rmgmt/rmgmt_fpt.c:533-549 | an image write touches nothing outside what its erase touches |
| UpdateSafety.EraseClear | vmr/src/rmgmt/rmgmt_fpt.c:413-416 | an erase for a partition is clear of any other range unless it is for all of it and the range lies directly behind |
| UpdateSafety.BackupKeepsA | vmr/src/rmgmt/rmgmt_fpt.c:413-427 | no moment of the backup disturbs partition A |
| UpdateSafety.BackupKeeps | vmr/src/rmgmt/rmgmt_fpt.c:413-427 | nor of anything else clear of its erase and of B's metadata sector |
| UpdateSafety.BackupResult | vmr/src/rmgmt/rmgmt_fpt.c:357-430 | after the backup B holds the image of A, also one that fills A, A is unchanged, and B's metadata has A's size |
| UpdateSafety.MetaSetStores | vmr/src/rmgmt/rmgmt_fpt.c:99-120 | metadata read after a completed metadata write is what was written |
| UpdateSafety.MetaSetWithin | vmr/src/rmgmt/rmgmt_fpt.c:99-120 | a metadata write touches only the metadata sector |
| UpdateSafety.FlashKeeps | vmr/src/rmgmt/rmgmt_fpt.c:498-556 | flashing A disturbs nothing clear of its erase and of A's metadata sector, at any moment |
| UpdateSafety.FlashNotTorn | vmr/src/rmgmt/rmgmt_fpt.c:498-556 | at every moment A is old, not bootable, or entirely new |
| UpdateSafety.AlwaysRecoverable | vmr/src/rmgmt/rmgmt_fpt.c:443-563 | at every moment of an update whose erases stay inside the flash and spare the other partition A is not torn and bootable, and a complete image exists in A or in B |
| UpdateSafety.UpdateCompletes | vmr/src/rmgmt/rmgmt_fpt.c:443-563 | a completed update leaves the new image in A, its size in A's metadata, and on the copy path A's old image and size in B |
| UpdateSafety.UpdateRecords | vmr/src/rmgmt/rmgmt_fpt.c:552-556 | the metadata a completed update leaves, word by word: the magic and the new size in A's, the magic and the size copied in B's, versions and checksums kept, the debug type cleared |
| UpdateSafety.ResetBlanks | vmr/src/rmgmt/rmgmt_fpt.c:512-524 | metadata of A that is not recognised is erased before the image, recognised metadata is not touched |
| UpdateSafety.FullSizeImageErasesNeighbour | vmr/src/rmgmt/rmgmt_fpt.c:498-537 | for an image as long as A with B directly behind there is a moment at which A and the first sector of B are blank |
| UpdateSafety.FullSizeBackupErasesNeighbour | vmr/src/rmgmt/rmgmt_fpt.c:392-416 | for a backup as long as B with A directly behind there is a moment at which B and the first sector of A are blank |
| UpdateSafety.RecoverableExactly | vmr/src/rmgmt/rmgmt_fpt.c:443-563 | every moment of an accepted update is recoverable if and only if neither of these two cases applies |
| UpdateSafety.HistoryRecoverable | vmr/src/rmgmt/rmgmt_fpt.c:443-563 | the same for the device's own history since the update began |
| NextUpdate.MetaDuringSet | vmr/src/rmgmt/rmgmt_fpt.c:99-120 | metadata read while it is being written is as before, not recognised or of blank size, or has the new magic and size |
| NextUpdate.BetweenImageAndMetadata | vmr/src/rmgmt/rmgmt_fpt.c:545-556 | cut after the image: the image is in place, and the next update refuses to back up, backs up all of it, or, only before the first metadata operation, goes by the old size |
| NextUpdate.NextBackup | vmr/src/rmgmt/rmgmt_fpt.c:386-425 | with the image in place, a backup holds and records as much of it as A's metadata says: all of it if that is the new size |
| NextUpdate.NextBackupTruncated | vmr/src/rmgmt/rmgmt_fpt.c:386-425 | in that last case, with a longer new image, the next backup holds and records only its beginning |
| RepeatedUpdate.Cut | vmr/src/rmgmt/rmgmt_fpt.c:443-563 | where a request may have been cut: A and its metadata untouched, or A not bootable or new, with the old size or the new one or a refusal |
| RepeatedUpdate.RepeatExactly | vmr/src/rmgmt/rmgmt_fpt.c:455-496 | another request keeps the old or the new image whole at every moment if and only if the first was cut before flashing A began, or the backup is refused, or the new image is in place and the backup takes all of it |
| RepeatedUpdate.RepeatLosesTorn | vmr/src/rmgmt/rmgmt_fpt.c:386-416 | with A not bootable but its metadata recognised, right after the erase of B both tags are blank |
| RepeatedUpdate.EraseIsNotRepeatable | vmr/src/rmgmt/rmgmt_fpt.c:534-536 | every request has a cut point after which another one loses both images: right after the erase of A |
| RepeatedUpdate.RepeatFromBackup | vmr/src/rmgmt/rmgmt_fpt.c:491-496 | running from B, no failed requests touch B |
| XgqRing.Ring.CanProduce | vmr/src/common/xgq_impl.h:283-295 | refreshes the cached consumer counter only when the cached copy says full |
| XgqRing.Ring.CanConsume | vmr/src/common/xgq_impl.h:297-309 | refreshes the cached producer counter only when the cached copy says empty |
| XgqRing.Ring.Produce | vmr/src/common/xgq_impl.h:518-531 | the slot and the new counters, or no slot |
| XgqRing.Ring.Consume | vmr/src/common/xgq_impl.h:533-560 | the slot and the new counters, or no slot |
| XgqRing.Ring.FastForward | vmr/src/common/xgq_impl.h:314-318 | both published counters are adopted |
| XgqRing.Ring.SoftReset | vmr/src/common/xgq_impl.h:324-329 | the ring is empty at whatever the producer counter says, and that counter is to be published |
| XgqRing.Slot | vmr/src/common/xgq_impl.h:261-281 | the masked counter is a valid slot index |
| XgqRing.SlotOfCounter | vmr/src/common/xgq_impl.h:261-281 | for a power-of-two count the masked 32-bit counter is the unbounded counter modulo the count, across wrap-around |
| XgqRing.WrappedDifference | vmr/src/common/xgq_impl.h:212-220 | differences and equality of wrapped counters are those of the unbounded ones |
| XgqRing.TestsAreExact | vmr/src/common/xgq_impl.h:212-220 | full, empty and the slot pointers in terms of unbounded counters |
| XgqRing.FillStep | vmr/src/common/xgq_impl.h:518-531 | writing a reserved slot keeps every published entry not yet given back |
| XgqRing.NextInvariant | vmr/src/common/xgq_impl.h:518-579 | produce, fill, consume and both notifications keep the counter order and the entries in their slots |
| XgqRing.FifoOverAllRuns | vmr/src/common/xgq_impl.h:518-579 | over every interleaving the consumed entries are a prefix of the produced ones, in order |
| XgqRing.FifoFromFresh | vmr/src/common/xgq_impl.h:314-329 | the same from any starting counter value, with at most n entries in flight |
| XgqRing.HistoryKept | vmr/src/common/xgq_impl.h:518-579 | no step takes back what was read or alters what was published |
| XgqRing.ReservedSlotIsFree | vmr/src/common/xgq_impl.h:518-531 | a slot given to the producer holds nothing the consumer may still read |
| XgqRing.GrantsAreExact | vmr/src/common/xgq_impl.h:283-309 | stale copies cost nothing: a slot is granted exactly when there is room, an entry exactly when one is published |
| XgqChannel.Channel.Put | vmr/src/common/xgq_impl.h:518-570 | an entry is written and published exactly when the consumer has published room; nothing else of the history changes |
| XgqChannel.Channel.Take | vmr/src/common/xgq_impl.h:533-560 | the slot of the next published entry, exactly when there is one |
| XgqChannel.Channel.Release | vmr/src/common/xgq_impl.h:572-579 | everything taken is given back |
| XgqChannel.Channel.Holds | vmr/src/common/xgq_impl.h:261-281 | an entry not given back is still in its slot, also in memory |
| Bits.PowerOfTwoTest | vmr/src/common/xgq_impl.h:485-487 | `n & (n - 1)` is zero exactly for powers of two |
| XgqAlloc.RingLen | vmr/src/common/xgq_impl.h:176-179 | bytes of one ring: header, submission slots, completion slots |
| XgqAlloc.SumRingLens | vmr/src/common/xgq_impl.h:394-395 | the running total is the true total reduced to 32 bits |
| XgqAlloc.TotalDoubles | vmr/src/common/xgq_impl.h:392-396 | doubling the slots at most doubles the bytes, which is why the total cannot wrap before the loop ends |
| XgqAlloc.AllocNumSlots | vmr/src/common/xgq_impl.h:384-398 | a power of two up to 2^30; it fits when at least two, and twice as many do not |
| XgqAlloc.LargestThatFits | vmr/src/common/xgq_impl.h:384-398 | a power of two fits if and only if it is no larger than the result |
| XgqAlloc.GroupAlloc | vmr/src/common/xgq_impl.h:437-467 | refused exactly for an unaligned slot size; too big only if two slots do not fit; else rings laid out within the buffer, and unless the limit was reached twice the slots do not fit |
| XgqAlloc.PlaceRings | vmr/src/common/xgq_impl.h:460-465 | each ring starts where the one before it ends |
| XgqAlloc.GroupDisjoint | vmr/src/common/xgq_impl.h:460-465 | the rings of a group are disjoint and inside the buffer |
| XgqAlloc.AreasInOrder | vmr/src/common/xgq_impl.h:331-382 | header, submission slots and completion slots of a ring follow one another without overlap |
| XgqAlloc.SlotsDisjoint | vmr/src/common/xgq_impl.h:261-281 | slots of an area are disjoint and inside it |
| XgqAlloc.RingMemory.Init | vmr/src/common/xgq_impl.h:331-382 | the header written, both queues empty at the producer counters |
| XgqAlloc.RingMemory.Attach | vmr/src/common/xgq_impl.h:469-516 | only power-of-two slot counts from two up are accepted, and with the right magic and version no others refused; each queue gets its own pair of counters, its slots and its slot size from the header |
| XgqAlloc.AttachShowsPending | vmr/src/common/xgq_impl.h:503-514 | a ring attached with entries pending shows them on the queue they are on |
| XgqAlloc.AttachAfterInit | vmr/src/common/xgq_impl.h:469-516 | attaching succeeds exactly for a power of two of at least two, with the geometry of the initialisation; both queues are empty unless the attaching side wrongly claims in-memory counters over non-zero registers |
| XgqAlloc.AttachedIsARing | vmr/src/common/xgq_impl.h:469-516 | whatever the header holds, attaching accepts only slot counts the ring theorems hold for, and with the right magic and version refuses only others and 1 |
| Completion.StartInvariant | vmr/src/common/cl_xgq_receive.c:617-632 | the invariant holds when the tasks start |
| Completion.StepConserves | vmr/src/common/cl_xgq_receive.c:380-472 | one step moves an id from one place to the next or completes it, never losing or repeating it |
| Completion.MovingConserves | vmr/src/common/cl_xgq_program.c:86-95 | a task taking a message from its queue moves its id and loses none; likewise for the receive, opcode and SC tasks |
| Completion.CompletingConserves | vmr/src/common/cl_xgq_program.c:58-79 | dispatching, running a program or opcode command and resuming complete or hand on exactly the id in hand, before or after the callback |
| Completion.StepDetour | vmr/src/common/cl_vmc_sc_comms.c:52-60 | the queues to and from the SC task hold exactly the command the program task waits for, so the unchecked send of the response cannot fail |
| Completion.ResponseIsForTheWaiting | vmr/src/common/cl_xgq_program.c:31-44 | the id in the SC task's response, which the completion uses, is that of the command waited for |
| Completion.NextInvariant | vmr/src/common/cl_xgq_receive.c:617-632 | conservation, the SC detour, routing and the count of outstanding commands are kept by every step |
| Completion.StepBalanced | vmr/src/common/cl_xgq_receive.c:399-402 | with a client that keeps to its limit there is room for every pending completion |
| Completion.ConservationOverAllRuns | vmr/src/common/cl_xgq_receive.c:617-632 | the invariant over all schedules of all tasks |
| Completion.CompletedOnce | vmr/src/common/cl_xgq_receive.c:380-472 | no completion is lost, none exceeds what was taken, and when nothing is pending the counts are equal, id by id |
| Completion.DistinctCompletions | vmr/src/common/cl_xgq_receive.c:380-412 | with ids used again only after their completion was given back, the completions not given back are for different commands, each outstanding once |
| Completion.TooManyOutstandingLosesACompletion | vmr/src/common/cl_xgq_receive.c:399-402 | from an idle server one more bad command loses its completion exactly when the client was over its limit |
| CommandPaths.DispatchQueues | vmr/src/common/cl_xgq_receive.c:418-472 | a known command with a good payload goes to the end of the queue of its task if there is a place, and is not answered; otherwise it is answered at once and no queue changes |
| CommandPaths.TasksTake | vmr/src/common/cl_main.c:238-249 | a task that is free takes the oldest command of its queue |
| CommandPaths.ResetsAnswerFirst | vmr/src/common/cl_xgq_program.c:58-73 | a VMR program command, and an opcode command that resets, is answered before its callback, and the worker takes nothing until that returns; other opcode commands leave it free |
| CommandPaths.StepInOrder | vmr/src/common/cl_main.c:221-249 | a step adds at the end of a queue and takes from its front |
| CommandPaths.ServedInOrder | vmr/src/common/cl_main.c:221-249 | over any run, what the tasks took from a ring or queue, in order, followed by what is still there, is what was there and what was put in, in order |
| CommandPaths.StepJustified | vmr/src/common/cl_xgq_program.c:53-79 | a step that answers a command answers the one its task holds, or refuses it at dispatch |
| CommandPaths.EveryAnswerJustified | vmr/src/common/cl_xgq_receive.c:380-472 | in any run each completion was posted by the task of the command's kind, holding it, or for a command without handler, good payload or place in the queue |
| CommandPaths.ScTaskHadIt | vmr/src/common/cl_vmc_sc_comms.c:52-60 | a response is there only after the SC task had the command, while the program task waited for it |
| CommandPaths.EveryAnswer | vmr/src/common/cl_xgq_program.c:31-44 | from the start, every completion has its cause, and that of a firmware update comes after the SC task had it |
| CommandPaths.StepWorks | vmr/src/common/cl_xgq_program.c:86-95 | a step of a task changes nothing or leaves less to do |
| CommandPaths.NeverStuck | vmr/src/common/cl_xgq_program.c:86-95 | while anything is to be done some task can do it: the wait for the SC task is not a deadlock |
| CommandPaths.WorkBoundsMoves | vmr/src/common/cl_xgq_program.c:86-95 | however the tasks are scheduled, only so many of their steps do anything |
| CommandPaths.AtRest | vmr/src/common/cl_xgq_receive.c:380-472 | when no task can do anything, every id is completed as often as it was submitted |
| Tasks.Shared.HandleComplete | vmr/src/common/cl_xgq_receive.c:380-409 | the completion ring, with its stale 32-bit counters, refuses an id exactly when the abstract count says it is full; the failure is not checked |
| Tasks.Shared.Consume | vmr/src/common/cl_xgq_receive.c:617-632 | the ring yields the oldest command not yet taken, and nothing exactly when there is none |
| Tasks.Shared.NotifyPeerConsumed | vmr/src/common/cl_xgq_receive.c:625-630 | gives slots back without the tasks noticing, never that of the command in hand |
| Tasks.Shared.InHand | vmr/src/common/cl_xgq_receive.c:418-429 | the slot being dispatched still holds the command the client submitted |
| Tasks.Shared.SubmitCommand | vmr/src/common/xgq_impl.h:518-531 | a client within its limit is refused exactly while a slot of an answered command has not been given back |
| Tasks.Shared.TakeCompletion | vmr/src/common/xgq_impl.h:533-579 | the client gets the oldest completion it has not taken |
| Tasks.Shared.SubmitToQueue | vmr/src/common/cl_xgq_receive.c:418-450 | queues a known command with a good payload at the end of the queue of its task, by the handler table, and fails if and only if there is no handler, the payload is bad or the queue is full; then nothing changes |
| Tasks.Shared.ProcessMessage | vmr/src/common/cl_xgq_receive.c:452-472 | the command read from its slot is queued for its task and not answered, or, exactly if it cannot be, completed with no queue changed |
| Tasks.Shared.OneTurn | vmr/src/common/cl_xgq_receive.c:617-632 | one turn on the rings is one step of the state machine, and when the client's turn is none |
| Tasks.Shared.Run | vmr/src/common/cl_xgq_receive.c:617-632 | any schedule at all on the rings is a run of the state machine: no completion is lost, every command is accounted for |
| Crc16.ComputeCrc | vmr/src/vmc/vmc_update_sc.c:61-75 | the loop computes the fold of the byte step |
| Crc16.StepsAgree | vmr/src/vmc/vmc_update_sc.c:66-72 | one shift-and-xor byte step is eight steps of division by x^16+x^12+x^5+1 |
| Crc16.FastIsBitSerial | vmr/src/vmc/vmc_update_sc.c:61-75 | for every message the checksum is the bit-serial remainder from the same start |
| Crc16.KnownChecksums | vmr/src/vmc/vmc_update_sc.c:849-1000 | the checksums written out in the fixed requests are those of their commands, and an acknowledgement's is 0xC460 |
| Crc16.FoldInjective | vmr/src/vmc/vmc_update_sc.c:61-75 | over the same tail, different registers stay different |
| Crc16.OneByteDetected | vmr/src/vmc/vmc_update_sc.c:107-125 | changing one byte of a message always changes the checksum |
| ScImage.CutCovers | vmr/src/vmc/vmc_update_sc.c:330-459 | a packet takes the first bytes of what is left and leaves the others |
| ScImage.PacketsCoverWhatIsLeft | vmr/src/vmc/vmc_update_sc.c:906-942 | from any resumption point the packets laid at their addresses are what was left to send |
| ScImage.PacketsAreTheImage | vmr/src/vmc/vmc_update_sc.c:265-315 | for every text the packets laid at their addresses are the memory image the text denotes |
| ScImage.AddressIsHex | vmr/src/vmc/vmc_update_sc.c:77-86 | an address is read as the hexadecimal number it is written as |
| ScImage.ShortExample | vmr/src/vmc/vmc_update_sc.c:265-315 | a short text byte for byte, and the memory it denotes |
| ScImage.PacketSizes | vmr/src/vmc/vmc_update_sc.c:402-404 | no packet carries more than 256 data bytes |
| ScImage.FrameRoundTrip | vmr/src/vmc/vmc_update_sc.c:437-450 | a framed packet is at most 266 bytes and a receiver that recomputes the checksum gets its address and data |
| ScParser.HexRoundTrip | vmr/src/vmc/vmc_update_sc.c:77-98 | the character conversions undo the documented rendering |
| ScParser.Parser.ReadAddress | vmr/src/vmc/vmc_update_sc.c:350-365 | the digits up to the new line, as a 32-bit value |
| ScParser.Parser.ReadData | vmr/src/vmc/vmc_update_sc.c:392-428 | at most 256 data bytes in text order; the position left is the next section, the end, or the new line after a full packet |
| ScParser.Parser.CutAddress | vmr/src/vmc/vmc_update_sc.c:340-390 | an @ is passed, an address read, or the old address advanced by the packet before |
| ScParser.Parser.SealPacket | vmr/src/vmc/vmc_update_sc.c:436-450 | header, length, command and both checksums around the data |
| ScParser.Parser.CutData | vmr/src/vmc/vmc_update_sc.c:392-452 | the data state as a whole: packet sealed, position and flags set for the next call |
| ScParser.Parser.ParseFptSc | vmr/src/vmc/vmc_update_sc.c:330-459 | one call cuts exactly the next packet, framed, moves forward, and stops where the following one starts |
| ScUpdate.SyncProgress | vmr/src/vmc/vmc_update_sc.c:628-703 | a call in the first state keeps the invariant and the order, and spends budget: retries, response sizes 11, 8, 1, mode confirmations |
| ScUpdate.RetryProgress | vmr/src/vmc/vmc_update_sc.c:711-881 | the same for the four states after it |
| ScUpdate.PrepareStepCorrect | vmr/src/vmc/vmc_update_sc.c:628-881 | for every reply each call before the data state makes progress; the budget is at most 65 |
| ScUpdate.PreparationEnds | vmr/src/vmc/vmc_update_sc.c:628-881 | on every line, within the budget of calls the updater has failed or reached the data state without an error |
| ScUpdate.GivesUpAfterRefusals | vmr/src/vmc/vmc_update_sc.c:711-881 | a run that ends with the error of a retry state had five answers in a row there that were not what it waits for |
| ScUpdate.RefusalsEndIt | vmr/src/vmc/vmc_update_sc.c:711-881 | and five such answers in a row make it end so |
| ScUpdate.DataNeedsAcknowledgements | vmr/src/vmc/vmc_update_sc.c:795-881 | a run that reaches the data state has had the unlock and, later, the erase acknowledged |
| ScUpdate.VerdictsStop | vmr/src/vmc/vmc_update_sc.c:906-942 | sending stops at the first failed packet and only there |
| ScUpdate.SendStepCorrect | vmr/src/vmc/vmc_update_sc.c:949-961 | the data state hands over to Load-PC if and only if every packet was sent and none failed; else an error is set |
| ScUpdate.LostPacketsAreSkipped | vmr/src/vmc/vmc_update_sc.c:914-940 | with no data transaction sent, all packets are passed over, once each, and none counts as failed |
| ScUpdate.StoredExactly | vmr/src/vmc/vmc_update_sc.c:906-942 | a boot loader that checks blocks stores the packets laid at their addresses, or less data if one with data did not arrive |
| ScUpdate.ExtendPath | vmr/src/vmc/vmc_update_sc.c:1043-1110 | a run extended by a permitted state is a run, and visits Load-PC only if it did or does now |
| ScUpdate.DeliveredImage | vmr/src/vmc/vmc_update_sc.c:906-942 | the device holds exactly the image the text denotes if and only if every packet with data arrived |
| ScUpdate.SuccessWithoutImage | vmr/src/vmc/vmc_update_sc.c:914-961 | for every image a line on which the update reaches an accepted Load-PC without an error and the device holds nothing |
| ScUpdate.DecidedNext | vmr/src/vmc/vmc_update_sc.c:1129-1145 | no call before the data changes what the update comes to on a given line |
| ScWire.ValidExactly | vmr/src/vmc/vmc_update_sc.c:107-125 | an answer is valid if and only if it starts with 0 and 0x80 and its last two bytes, low first, are the checksum of as many bytes as its length says, the fill of the buffer behind it included |
| ScWire.ReplyIsValid | vmr/src/vmc/vmc_update_sc.c:107-125 | a reply with a content of any length is valid if and only if it carries the checksum of its content |
| ScWire.AcknowledgedExactly | vmr/src/vmc/vmc_update_sc.c:914-926 | a message is an acknowledgement if and only if its command is 0x3B, its code 0 and its checksum right |
| ScWire.TheAcknowledgement | vmr/src/vmc/vmc_update_sc.c:914-926 | of the answers with two bytes of content exactly one is an acknowledgement, given byte for byte |
| ScWire.ContradictsExactly | vmr/src/vmc/vmc_update_sc.c:603-616 | a read-back with a right checksum of its own fails if and only if it does not carry the checksum of the data |
| ScWire.SyncOnTheLine | vmr/src/vmc/vmc_update_sc.c:628-703 | the first state over the line: what leads to the request for the boot loader, what skips it after three times, and when it gives up |
| ScWire.RetriesOnTheLine | vmr/src/vmc/vmc_update_sc.c:711-988 | what each later state waits for, byte for byte, when it gives up, and with which code |
| ScWire.PacketBytes | vmr/src/vmc/vmc_update_sc.c:436-450 | the bytes of a data packet: header, length, command, address, data and their checksum |
| ScWire.VerdictIs | vmr/src/vmc/vmc_update_sc.c:914-940 | what becomes of packet k is read off the line at the time it is sent |
| ScWire.DeliveryOnTheLine | vmr/src/vmc/vmc_update_sc.c:906-942 | the delivery goes on, and succeeds after its last packet, exactly while packets are acknowledged or not heard of; a packet refused in time is the last one sent and the code is 0xE8, one read back otherwise gives 0xE7 |
| ScWire.UpdateOnTheLine | vmr/src/vmc/vmc_update_sc.c:1117-1188 | the same for a whole update: without preparation no data is sent and the code is from 0xE1 to 0xE5; without @ it is 0xE6 |
| ScDriver.Updater.Transaction | vmr/src/vmc/vmc_update_sc.c:518-563 | not sent unless receiver and request succeed; an answer only in time and of the size asked for |
| ScDriver.Updater.SyncScBsl | vmr/src/vmc/vmc_update_sc.c:628-703 | the handler's transition, reply by reply |
| ScDriver.Updater.EnableScBsl | vmr/src/vmc/vmc_update_sc.c:711-737 | the handler's transition |
| ScDriver.Updater.SyncVmcBsl | vmr/src/vmc/vmc_update_sc.c:745-787 | the handler's transition |
| ScDriver.Updater.UnlockBsl | vmr/src/vmc/vmc_update_sc.c:795-837 | the handler's transition |
| ScDriver.Updater.MassEraseBsl | vmr/src/vmc/vmc_update_sc.c:845-881 | the handler's transition |
| ScDriver.Updater.MatchCrcPostWrite | vmr/src/vmc/vmc_update_sc.c:572-620 | fails only on a valid response that disagrees |
| ScDriver.Updater.SendPacket | vmr/src/vmc/vmc_update_sc.c:907-942 | the next packet goes out framed; over the line: not sent, not heard of, refused if and only if an 8-byte answer in time is not an acknowledgement, else passed or contradicted by its read-back |
| ScDriver.Updater.SendPackets | vmr/src/vmc/vmc_update_sc.c:907-942 | all packets in order up to the first that fails, each framed |
| ScDriver.Updater.SendDataToBsl | vmr/src/vmc/vmc_update_sc.c:889-963 | refused when the image does not start with @; else the packets sent and the state that follows |
| ScDriver.Updater.LoadPcBsl | vmr/src/vmc/vmc_update_sc.c:971-988 | ends in success exactly when accepted, else stays |
| ScDriver.Updater.RebootBsl | vmr/src/vmc/vmc_update_sc.c:996-1010 | ends when the request could be sent, else stays |
| ScDriver.Updater.WhileGoing | vmr/src/vmc/vmc_update_sc.c:1129-1165 | at every turn of the loop the status is in progress if and only if the state is not idle |
| ScDriver.Updater.Turns | vmr/src/vmc/vmc_update_sc.c:1129-1165 | on any line at all: after 66 turns the update has ended or only its last request, Load-PC or reboot, is still not granted |
| ScDriver.ErrorSettled | vmr/src/vmc/vmc_update_sc.c:949-1010 | before the last request there is no error if and only if that request is Load-PC |
| ScDriver.Updater.CodeOnTheLine | vmr/src/vmc/vmc_update_sc.c:1117-1188 | the code of an update that starts now is decided by the line |
| ScDriver.Updater.UpdateScfw | vmr/src/vmc/vmc_update_sc.c:1117-1188 | the states follow the documented order; the packets sent and the code are read off the line, so that a refused packet is the last and gives 0xE8; the code is 0 exactly when Load-PC was reached, exactly when all packets went out and none failed; then Load-PC was accepted last and the image is there if and only if every packet with data arrived |
| Axlf.RemoveWellFormed | vmr/src/rmgmt/rmgmt_xclbin.c:96-155 | removing a section keeps the container well formed and shortens it by the removed span and a header |
| Axlf.RemoveKeepsOthers | vmr/src/rmgmt/rmgmt_xclbin.c:96-155 | all other sections keep order, names and bytes |
| Axlf.LoweredEnds | vmr/src/rmgmt/rmgmt_xclbin.c:129-153 | each moved header still points at the bytes it pointed at |
| Axlf.PassSections | vmr/src/rmgmt/rmgmt_xclbin.c:108-154 | the pass over headers and data is the pass over the list of sections |
| Axlf.PassKeepsOthers | vmr/src/rmgmt/rmgmt_xclbin.c:108-154 | no section of another kind is lost, added, changed or moved |
| Axlf.PassRemovesKind | vmr/src/rmgmt/rmgmt_xclbin.c:108-113 | the kind is gone if and only if no two neighbouring sections had it |
| Axlf.PassMeaning | vmr/src/rmgmt/rmgmt_xclbin.c:96-155 | both, for any number of sections of the kind |
| Axlf.PassOnce | vmr/src/rmgmt/rmgmt_xclbin.c:96-155 | for a kind that occurs once: the other sections exactly, and the new length |
| AxlfRemove.SectionInfo | vmr/src/rmgmt/rmgmt_xclbin.c:41-67 | for any container, well formed or not: found exactly when a header within the count has the kind and its wrapped end is within the length |
| AxlfRemove.LocatedWellFormed | vmr/src/rmgmt/rmgmt_xclbin.c:41-67 | in a well-formed container that is exactly when the kind is present, and the fields delimit that section's data |
| AxlfRemove.CopyDown | vmr/src/rmgmt/rmgmt_xclbin.c:125-127 | an overlapping copy to a lower address moves the old bytes |
| AxlfRemove.LowerOffsets | vmr/src/rmgmt/rmgmt_xclbin.c:131-133 | the offsets from an index on are lowered, nothing else changes |
| AxlfRemove.Span | vmr/src/rmgmt/rmgmt_xclbin.c:116-119 | the bytes to remove end where the next section starts, or where the last one ends |
| AxlfRemove.MoveData | vmr/src/rmgmt/rmgmt_xclbin.c:115-127 | everything behind the removed span moves down over it |
| AxlfRemove.CutData | vmr/src/rmgmt/rmgmt_xclbin.c:115-133 | and length and later offsets fit again |
| AxlfRemove.ClearOnly | vmr/src/rmgmt/rmgmt_xclbin.c:134-141 | the header of an only section is cleared and not moved |
| AxlfRemove.DropHeader | vmr/src/rmgmt/rmgmt_xclbin.c:142-153 | the header leaves the table, everything behind it moves up, count, length and offsets are corrected |
| AxlfRemove.RemoveSection | vmr/src/rmgmt/rmgmt_xclbin.c:115-153 | the bytes of the container become the bytes of the container without the section |
| AxlfRemove.SectionRemove | vmr/src/rmgmt/rmgmt_xclbin.c:96-155 | the buffer that held a container holds the container after the pass, for any number of sections of the kind |
| Fdt.FlattenKeepsOrder | vmr/src/rmgmt/rmgmt_xfer.c:572-605 | the structure block lists the properties of a tree in document order |
| Fdt.FirstAgree | vmr/src/rmgmt/rmgmt_xfer.c:599-603 | the first wanted token is the first wanted property |
| Fdt.WrittenBlock | vmr/src/rmgmt/rmgmt_xfer.c:572-605 | a block written with the prescribed alignment is one the walk accepts |
| Fdt.StartsWith | vmr/src/rmgmt/rmgmt_xfer.c:599-599 | the comparison succeeds exactly when the name begins with the wanted text |
| Fdt.StrNCpy | vmr/src/rmgmt/rmgmt_xfer.c:601-601 | the bytes before the first zero, then zeros; as text: a string that ends within the output, then zeros, or the first bytes |
| Fdt.CStringHoldsText | vmr/src/rmgmt/rmgmt_xfer.c:601-601 | the copy of a string with its zero is the string and zeros behind it, and a value without a zero in reach is copied as it is |
| Fdt.WantedIs | vmr/src/rmgmt/rmgmt_xfer.c:599-599 | a name is wanted exactly if it begins with interface_uuid |
| Fdt.CopiedValue | vmr/src/rmgmt/rmgmt_xfer.c:601-601 | a value with its terminating zero is copied without looking behind it |
| Fdt.TakeProperty | vmr/src/rmgmt/rmgmt_xfer.c:589-604 | the value is copied if the name is wanted, else the cursor is at the next token |
| Fdt.GetUuids | vmr/src/rmgmt/rmgmt_xfer.c:569-610 | success exactly when a wanted property is among the first 1001 tokens, with its value as text; else -ENOENT and the output untouched |
| Fdt.GetUuidsOfBlob | vmr/src/rmgmt/rmgmt_xfer.c:557-611 | the same in terms of the tree: the text of the first property in document order whose name begins with interface_uuid, zeros behind it |
| XclbinUuid.Validate | vmr/src/rmgmt/rmgmt_xclbin.c:157-165 | accepted exactly with the magic and its terminating zero |
| XclbinUuid.GetUuids | vmr/src/rmgmt/rmgmt_xfer.c:526-611 | -EINVAL exactly without the magic; 0 exactly if the metadata is found, is not empty and has a wanted property in reach; then the text of the first one, zeros behind it, else the output untouched |
| Framing.CalculateChecksum | vmr/src/vmc/vmc_sc_comms.c:46-60 | the 16-bit sum of id, flags, length and payload, as a plain sum of those bytes |
| Framing.Append | vmr/src/vmc/vmc_sc_comms.c:354-357 | an escape character is doubled |
| Framing.FrameTxPacket | vmr/src/vmc/vmc_sc_comms.c:322-391 | the buffer holds the frame and the length is its length; undoubled, it is id, flags 3, length, payload and their sum modulo 2^16, low byte first |
| Framing.StuffedAt | vmr/src/vmc/vmc_sc_comms.c:353-390 | where each byte of the content stands in the frame, with its double behind it if it is the escape |
| Framing.FrameCarries | vmr/src/vmc/vmc_sc_comms.c:322-391 | the content of a frame ends in the little-endian sum of all its bytes before |
| Framing.FrameFits | vmr/src/vmc/vmc_sc_comms.c:322-391 | the frame fits its one-byte length if and only if payload and doubled bytes come to at most 246; 120 payload bytes always fit |
| Framing.ScanStuffed | vmr/src/vmc/vmc_sc_comms.c:353-390 | undoing the doubling meets the end mark only where it was put, whatever the content |
| Framing.FrameReceived | vmr/src/vmc/vmc_sc_comms.c:322-391 | a frame yields its id, flags, payload and checked sum, and ends where it ends, whatever follows |
| Framing.FramesPrefixFree | vmr/src/vmc/vmc_sc_comms.c:322-391 | no two messages share a frame and no frame is the beginning of another |
| Framing.StreamReceived | vmr/src/vmc/vmc_sc_comms.c:322-391 | a run of frames comes apart into the messages that were sent |
| Framing.ByteErrorDetected | vmr/src/vmc/vmc_sc_comms.c:46-60 | changing one byte of the content, id, flags, length, payload or sum, makes the sum wrong |

## Left out

- Ospi.Flash.AreaWrite: asks for a start aligned to chunks, since its pages would otherwise cross device pages; the read-back comparison after a write is an arbitrary success or failure, the failure counted; its sampling step is zero for two to nine pages and it does not change the flash. The linear write path of the DAC mode is not modelled.
- Ospi.Flash.BulkErase: takes effect on the whole chip or not at all; a chip left half erased by a power cut is not a state of the model; since its result is ignored, a refusal is not counted. Die by die erase is left out because every supported part has one die.
- Ospi.Flash.FlashIoWrite: asks that no chunk crosses a page, because a device wraps inside the page and the source does not say what it then expects.
- Ospi.Flash.AreaCopy: asks for a target aligned to chunks, for the same reason.
- Ospi.Flash.SafeWrite: asks for an offset aligned to chunks, for the same reason.
- UpdateSafety.AlwaysRecoverable: excludes `flash_no_backup` and `flash_to_legacy`, which give up the backup on purpose; `UpdateCompletes` covers the first, `PdiUpdate.LegacyPlan` is all that is said of the second. Erases and copies stay inside the flash; when they do, the exact condition is `RecoverableExactly`.
- PdiUpdate.Updater.FlashRpuPdi: addresses plus sizes stay inside the flash, the byte behind an erased range included; a partition table that points outside it is not modelled, and its values, read by the partition table query, are parameters.
- RepeatedUpdate.RepeatExactly: the old image leaves room in A and B, the new one leaves room in A and does not have B's exact size; both requests see the same partition table.
- XgqAlloc.AllocNumSlots: its bounds are stated when ring length and one-slot total are at most 2^31, where the 32-bit total cannot wrap.
- XgqRing.System: memory order between a slot's contents and the counter that publishes it is taken as given; the doubled register reads and the in-order flag are not modelled.
- Completion.Next: callbacks of the workers have no effect but to return or not, and completions carry the id without the result code; the handler table is reduced to which task serves a command; a queue refuses when its 8 places are taken.
- Tasks.Shared.HandleComplete: when the reservation fails the source writes to an address it never set; the model only records that a completion was lost, and `Run` shows that it does not happen. The client gives each completion back as it takes it.
- ScParser.Parser.ParseFptSc: texts are in the documented format (sixteen bytes a line but for a section's last, a space before each new line, lower-case addresses, upper-case data); other texts, the version parser and the progress counters are not modelled.
- ScDriver.Updater.UpdateScfw: asks that Load-PC or reboot, which are retried without end, is granted in the end where the update comes to it; `Turns` says what holds without that. Bytes behind the answer in the receive buffer, and in the memory behind the buffer, read as 0xFF; delays, semaphores and the debug-only version query are not modelled.
- ScUpdate.Stored: the device is an ideal boot loader: a block that arrives arrives whole.
- AxlfRemove.SectionInfo: the buffer holds the headers that the count announces; reading past the buffer is not modelled.
- AxlfRemove.CopyDown: overlapping `memcpy` is taken to copy upwards byte by byte, which the C library does not promise.
- Fdt.GetUuids: blobs are blocks as the Devicetree Specification prescribes, with room behind the value for the copy to read.
- Framing.FrameTxPacket: frames longer than 255 bytes, where the one-byte length wraps, are excluded; the condition is `FrameFits`.
- The repository's check of incoming SC packets, which does not undo the doubling, is not the inverse of the sender; the receiver in `Framing.dfy` is.
- Device transfers, opcodes, dummy cycles, polling and cache maintenance: a transfer fails before any effect, or takes effect.
- Serialisation of sensor records against their announced size, clock throttling, sensors, logging, platform tables and register access.
