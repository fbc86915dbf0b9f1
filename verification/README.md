# Verified model of flashrom's write path

flashrom changes the contents of NOR flash chips. This project models, in Dafny, the part of it
that decides what to erase and what to program, the image-level driver around that planner, and
several smaller protocol cores, and proves what they promise for every input, every layout and
every outcome of the device.

Verify everything with `dafny verify dfyconfig.toml`.

## What is modelled

| file | part of flashrom |
|---|---|
| `Granularity.dfy` | write granularity: when a chunk can be programmed, need_erase, get_next_write |
| `EraseBlocks.dfy` | eraser tables, selfcheck_eraseblocks, create_erase_layout |
| `Selection.dfy` | which erase blocks are chosen, as a function of the planning problem; all its theorems |
| `Planner.dfy` | the recursive selection on the mutable `selected` flags |
| `Flash.dfy`, `RegionWalk.dfy` | a NOR chip behind a programmer; read_flash, write_flash, verify_range |
| `WritePhase.dfy` | the get_next_write / write_flash loop |
| `EraseHelper.dfy`, `EraseWrite.dfy` | erase_write_helper, align_region, erase_write |
| `EraseWriteTheorems.dfy` | what a successful erase_write means, and exactly when it obeys the NOR rule |
| `Layout.dfy` | layouts, their checks and iterators, combine_image_by_layout |
| `LayoutSteps.dfy`, `LayoutTheorems.dfy` | the included regions one after the other, and exactly when the whole is lawful |
| `ImageWrite.dfy` | write_by_layout, erase_by_layout, verify_by_layout, flashrom_image_write |
| `ImageRuns.dfy` | runs of these on chips that never fail |
| `Undo.dfy` | the shutdown stack that restores MMIO and PCI registers |
| `Numerals.dfy`, `Pages.dfy`, `Helpers.dfy` | registers as digit sequences, page-wise flash memory, helpers |
| `IchOpcodes.dfy`, `HwSeq.dfy` | ICH opcode table and hardware sequencer |
| `BitbangSpi.dfy` | SPI by driving pins |
| `Edi.dfy`, `At45db.dfy` | ENE debug interface, AT45DB DataFlash |
| `FmapSearch.dfy`, `FmapOffset.dfy` | searches for a flash map, from the start of the chip and from elsewhere |

The device is not assumed to work. A chip carries an oracle that decides for each command whether
it completes; a command that does not reports so and leaves arbitrary bytes in its range. A chip also logs every
erase and program command and records, for a program command, whether each chunk obeyed the NOR
rule at that moment: it was erased, or (at one-bit granularity) only needs bits to change from 1
to 0. A chunk programmed against the rule ends up with arbitrary contents, except that at one-bit
granularity it has the wanted bits cleared. Failed commands and failed reads are counted, so that
contracts can say that nothing fails unless the device does.

The access-protection map is a function from addresses to regions. It is honest if the region
reported for an address contains it and is reported for each of its addresses. The map of the ICH
hardware sequencer is not an instance where its gaps reach one byte into the next region.

## Hypotheses the code relies on

- Addresses and lengths are unbounded numbers; chips are smaller than 2^31 bytes, so that sums do
  not wrap. combine_image_by_layout is modelled with its 32-bit wrap at 4 GiB.
- At least one eraser is usable (flashrom/flashrom.c:1752-1756), and the borders of coarser erase
  blocks are borders of finer ones. `EraseBlocks.CreateEraseLayout` proves that the layout is
  properly linked if and only if that holds.
- Erase blocks and protection regions start and end on write chunks; `len / stride` ignores a
  remainder (flashrom/flashrom.c:720, 866).
- One-bit granularity goes with the erased value 0xFF (flashrom/flashrom.c:754-760).
- The reads that extend a region to erase-block borders are not checked by the code. What is said
  about contents holds for runs in which no read failed and the padding is readable; what is said
  about protection holds for all runs.
- ORs of fields that do not overlap are sums.
- AT45DB addresses fit the three bytes in which they are sent and the 32 bits in which they are
  shifted (flashrom/at45db.c:269, 534-539); the model keeps the whole number.

## What turned out

- A chunk that needs an erase in an erase block that a protection-region border cuts is programmed
  without an erase. That is the only way to break the NOR rule. For one region the exact condition
  is `EraseWriteTheorems.LawfulIffCutsLegal` (`LawfulIffNothingCut` for an exact image), for a
  layout `ImageWrite.WriteByLayout` with `Clean`. At one-bit granularity the contents after any
  successful run are known to the byte (`EraseWriteTheorems.OneBitMeaning`).
  `EraseWriteTheorems.CutBlockIsNotErased` is a run on a chip that never fails which reports success
  and leaves 0x00 where 0x01 was asked for.
- erase_by_layout starts from an image that claims every byte to be unerased. It reports success
  over a cut block without erasing it (`ImageRuns.CutBlockSurvivesErase`). Its commands are lawful
  exactly if every included writable byte of a cut block sits in a chunk that is erased already, or
  in one that is spared: all its included bytes are erased, and the first region to reach the chunk
  reads it as padding (`LayoutTheorems.EraseSteps`). The second case depends on the order of the
  regions (`ImageRuns.SparedChunk`) and does not exist at one-bit granularity
  (`LayoutTheorems.OneBitEraseClean`).
- Verification after a write covers write-protected bytes, which the write skips, so that the
  comparison mismatches exactly if such an included byte should have changed
  (`ImageWrite.MismatchIffWithheld`). But flashrom_image_write compares only if a command was issued
  (flashrom/flashrom.c:2161). It returns 3 exactly if verification is asked for, a byte is withheld
  and some included writable byte had to change (`ImageWrite.FlashromImageWrite`,
  `ImageRuns.WithheldIsReported`). If all that had to change is withheld it returns 0, unverified,
  over bytes that do not match (`ImageRuns.WithheldIsOverlooked`).
- verify_range reports success on reaching an unreadable byte that it is not told to skip, whatever
  follows (`RegionWalk.VerifyRange`, `RegionWalk.VerifyOverlooks`).
- An undo record that is not accepted, as the 33rd, is dropped without an error while the register
  is still written (`Undo.FullStackLosesWrite`). `Undo.RestoresIffUndoable` is the exact condition.
- The stride search for a flash map is called with the smallest stride 256 (flashrom/fmap.c:310).
  From offset 0 it probes every multiple of 256 exactly once if `len` is at least 256
  (`FmapSearch.SearchRom`), and nothing otherwise: 100 bytes are not searched although a header fits
  (`FmapSearch.ShortRangeMissed`). The test that skips offsets probed before assumes that the search
  starts at 0. From another rom_offset every offset at a distance divisible by 256 is probed exactly
  if rom_offset is not a multiple of 256, or the largest power of two in it lies above `len - 56` and
  not above `len`; none is probed twice exactly if `len` is below 512 or below twice that power
  (`FmapOffset.SearchFrom`). A header at rom_offset itself can be missed (`FmapOffset.StartMissed`);
  the linear search that follows is what finds it.
- The EDI write takes a status that cannot be read for idle (flashrom/edi.c:372-380): a page is
  reported as written although the controller was never seen idle (`Edi.Driver.WritePage`).
- A programmer that takes no more than 1 to 4 bytes in a command is sent a whole AT45DB page in one;
  every larger limit is kept (`At45db.Dataflash.ProgramPage`).
- write_by_layout fails when nothing is included, while erase_by_layout succeeds;
  combine_image_by_layout overwrites the caller's buffer outside the included regions.

## Model

| member | source | states |
|---|---|---|
| `Granularity.NeedErase` | flashrom/flashrom.c:747-798 | true exactly if some chunk differs in a way that programming alone cannot reach |
| `Granularity.GetNextWrite` | flashrom/flashrom.c:823-888 | finds the first maximal run of differing chunks among the whole chunks of the range, or shows that they all agree; a remainder is ignored |
| `Granularity.DifferingChunkLegal` | flashrom/flashrom.c:716-731 | programming a differing chunk obeys the NOR rule exactly if need_erase does not ask for an erase |
| `Granularity.ErasedNotBad` | flashrom/flashrom.c:747-798 | an erased chunk never needs another erase |
| `EraseBlocks.SumRegions` | flashrom/flashrom.c:1096-1121 | sums sizes and counts of an eraser's regions and finds every region of which only one of size and count is zero |
| `EraseBlocks.SelfcheckEraseblocks` | flashrom/flashrom.c:1084-1157 | accepts a table exactly if every eraser is well formed and covers the chip or nothing, and those that cover it and have a function have at most as many blocks as each such eraser before them and as the chip has bytes, and share their function with no later one |
| `EraseBlocks.CalculateBlockCount` | flashrom/erasure_layout.c:18-30 | the number of blocks of an accepted eraser, without leaving the region array |
| `EraseBlocks.InitEraseblock` | flashrom/erasure_layout.c:32-52 | the scan for sub-blocks takes the longest run of finer blocks inside the block |
| `EraseBlocks.CreateEraseLayout` | flashrom/erasure_layout.c:83-135 | one level for each eraser, in order, that has a function, blocks in its first region and opcodes the bus master can send, and for no other; each tiles the chip in order with blocks of the sizes its regions list; the levels are properly linked if and only if they nest |
| `EraseBlocks.ScanLinksNestedLevels` | flashrom/erasure_layout.c:32-52 | the sub-block scan partitions the finer level exactly if the two levels nest |
| `EraseBlocks.Laminar` | flashrom/erasure_layout.c:83-135 | blocks of different levels are disjoint or nested |
| `EraseBlocks.SmallestAtEnds` | flashrom/erasure_layout.c:32-52 | every block begins and ends with a block of the finest level |
| `Selection.SelectionCovers` | flashrom/erasure_layout.c:216-277 | every smallest block in the region that needs erasing lies in exactly one selected block |
| `Selection.SelectionDisjoint` | flashrom/erasure_layout.c:184-261 | selected blocks of all levels are pairwise disjoint |
| `Selection.SelectionUseful` | flashrom/erasure_layout.c:216-277 | selected blocks lie in the region; a smallest block is selected only if it needs erasing; for every ratio below 100 each selected block contains one that does |
| `Selection.SelectionRatio` | flashrom/erasure_layout.c:240-259 | for any ratio: a block inside the region replaces what is selected below it exactly if at most that percentage of its sub-blocks is not selected; then it alone is selected, otherwise exactly what is selected below it |
| `Selection.SelectionExact` | flashrom/erasure_layout.c:216-261 | with ratio 0 the erased bytes are exactly those of the smallest blocks that need erasing |
| `Selection.SelectionMaximal` | flashrom/erasure_layout.c:240-259 | a block all of whose parts need erasing is erased by one command |
| `Selection.SelectionMinimal` | flashrom/erasure_layout.c:216-261 | with ratio 0 no set of erase blocks covering exactly the same bytes has fewer members |
| `Planner.EraseLayout.Deselect` | flashrom/erasure_layout.c:184-202 | clears exactly the flags of the given blocks and of everything below them |
| `Planner.EraseLayout.Select` | flashrom/erasure_layout.c:216-261 | adds exactly the chosen blocks of one tree to the flags, for any ratio |
| `Planner.EraseLayout.SelectAll` | flashrom/erasure_layout.c:269-277 | from no flags, sets exactly those of the selection of the whole layout |
| `RegionWalk.CheckForUnwritableRegions` | flashrom/flashrom.c:394-409 | succeeds exactly if every byte of the range is writable |
| `RegionWalk.ReadFlash` | flashrom/flashrom.c:599-640 | succeeds exactly if every command completes, one for each readable region, and every byte is readable or unreadable ones are to be skipped; then every readable byte is the chip's and every skipped one the erased value; nothing outside the range changes |
| `RegionWalk.WriteFlash` | flashrom/flashrom.c:1043-1081 | programs only writable bytes of the range; succeeds exactly if no command fails and no protected byte is refused, and then every writable byte is programmed |
| `RegionWalk.CompareRange` | flashrom/flashrom.c:521-539 | zero exactly if the two images agree on the range |
| `RegionWalk.VerifyRange` | flashrom/flashrom.c:649-713 | succeeds exactly if every byte matches or is to be skipped and every read completes, up to the first unreadable byte that is not to be skipped, where the code gives up |
| `RegionWalk.VerifyOverlooks` | flashrom/flashrom.c:685-690 | a run that succeeds although a readable byte differs |
| `RegionWalk.CheckErasedRange` | flashrom/flashrom.c:542-557 | succeeds exactly if the range is erased in the sense of verify_range and every read of it completes |
| `WritePhase.WriteDiffering` | flashrom/erasure_layout.c:313-334 | for any image of the chip, the loop ends; it programs the chunks that differ from the image as maximal runs, each chunk once, and changes no other byte; it fails exactly if a command fails; the image then equals the target; the skipped flag survives only if no command was issued |
| `WritePhase.Round` | flashrom/erasure_layout.c:315-334 | one round extends the written part by one maximal run, for any image, with the legality of each command on record |
| `WritePhase.RunsAccount` | flashrom/erasure_layout.c:315-334 | the commands all obey the NOR rule exactly if every differing chunk may be programmed on the chip as it was |
| `WritePhase.Finish` | flashrom/flashrom.c:823-888 | when no run is left, everything is written |
| `EraseHelper.EraseSelected` | flashrom/erasure_layout.c:280-311 | issues exactly the erase commands of the selected blocks, one each, on the chip and in its image, and clears all flags; fails exactly if a command or a read fails |
| `EraseHelper.EraseDevice` | flashrom/erasure_layout.c:295-302 | succeeds exactly if the erase command completes and, with verification on, so do the reads of the block that follow it |
| `EraseHelper.BadAfterErase` | flashrom/erasure_layout.c:216-311 | after erasing the selection, a chunk still needs an erase exactly if it did before and its smallest block sticks out of the stretch |
| `EraseHelper.CombinePhases` | flashrom/erasure_layout.c:263-337 | for any image, the two phases make erased chunks as wanted and treat the others as the write loop does; they obey the NOR rule exactly if every differing chunk that was not erased may be programmed |
| `EraseHelper.EraseWriteHelper` | flashrom/erasure_layout.c:263-337 | in every run only writable bytes of the stretch change; fails exactly if the device does; success issues one erase per selected block followed by the maximal runs that then differ, with the result above, and leaves no flag set |
| `EraseHelper.HelperFacts` | flashrom/erasure_layout.c:216-311 | the erased bytes lie in blocks inside the stretch and include every chunk there that needs an erase |
| `EraseHelper.NothingToDo` | flashrom/erasure_layout.c:263-337 | for a ratio below 100 no command is issued if the image already equals the target in the stretch |
| `EraseHelper.NoCommands` | flashrom/erasure_layout.c:263-337 | if no command was issued, the image equals the target in the stretch and the chip is unchanged there |
| `EraseWrite.AlignRegion` | flashrom/erasure_layout.c:150-181 | widens a region exactly to the borders of the smallest blocks that hold its ends |
| `EraseWrite.WriteStretches` | flashrom/erasure_layout.c:392-419 | walks the protection regions of the aligned region; protected stretches are passed over, writable ones written, with the exact result for any image |
| `EraseWrite.ExtendBoth` | flashrom/erasure_layout.c:364-390 | if the reads succeed, both buffers hold the chip's contents in the padding |
| `EraseWrite.Restore` | flashrom/erasure_layout.c:421-433 | puts the caller's bytes back |
| `EraseWrite.WriteRegion` | flashrom/erasure_layout.c:351-433 | in every run, failed ones included, the caller's buffer is returned unchanged, only bytes of the aligned region change and no write-protected byte is touched; without a device failure it fails exactly if the aligned region holds a protected byte that is not to be skipped, and then touches nothing; success leaves no flag set and writes every stretch; without verification failed reads do not make it fail |
| `EraseWriteTheorems.EraseWriteMeaning` | flashrom/erasure_layout.c:351-433 | with an image that is right or shows bytes to be erased as unerased, and if every differing chunk of a cut block may be programmed, every writable byte of the region is new, every other byte of the chip keeps its value, and all commands obey the NOR rule |
| `EraseWriteTheorems.ImageStep` | flashrom/erasure_layout.c:364-433 | the image afterwards, whatever it was: padding as read, writable bytes as wanted, all others unchanged |
| `EraseWriteTheorems.CommandsIffDiffering` | flashrom/erasure_layout.c:392-419 | for a ratio below 100 one region issues a command if and only if a writable byte of it differs between image and target; without a command the chip is as it was |
| `EraseWriteTheorems.LawfulIffCutsLegal` | flashrom/erasure_layout.c:393-419 | for such an image the commands obey the NOR rule if and only if every differing chunk of a cut block may be programmed |
| `EraseWriteTheorems.LawfulIffNothingCut` | flashrom/erasure_layout.c:393-419 | for an exact image that is: no byte needs an erase in a cut erase block |
| `EraseWriteTheorems.OneBitMeaning` | flashrom/erasure_layout.c:351-433 | at one-bit granularity every byte after a successful run: uncut ones as wanted, cut ones with the wanted bits cleared |
| `EraseWriteTheorems.OneBitRightIffNothingCut` | flashrom/erasure_layout.c:393-419 | at one-bit granularity and for an exact image the contents are right if and only if no byte needs an erase in a cut block |
| `EraseWriteTheorems.CutBlockIsNotErased` | flashrom/erasure_layout.c:393-419 | a run on a chip that never fails: success is reported and byte 0 is wrong |
| `Layout.LayoutSanityChecks` | flashrom/layout.c:340-363 | accepts exactly the layouts whose entries are ordered and whose included entries fit the chip |
| `Layout.IncludedRegionsOverlap` | flashrom/layout.c:296-325 | true exactly if two included entries meet; for entries that are not inverted, if an address lies in both |
| `Layout.LayoutNextIncluded` | flashrom/layout.c:395-403 | the next included entry in list order |
| `Layout.LayoutNextIncludedRegion` | flashrom/layout.c:378-393 | the included entry with the lowest start among those that end at or after a position, the first of them in list order |
| `Layout.CombineImageByLayout` | flashrom/flashrom.c:2033-2055 | for entries in any order and overlap, exactly the included regions of the new contents over the old ones |
| `LayoutSteps.StaysPlausible` | flashrom/flashrom.c:1498-1512 | the image stays usable for the regions still to come, even if they overlap or share erase blocks with those written |
| `LayoutSteps.WalkStepsOn` | flashrom/flashrom.c:1498-1512 | one region more: the commands are lawful exactly if the intended run is legal so far, and then chip and image are where it is |
| `LayoutSteps.OneBitStepsOn` | flashrom/flashrom.c:1498-1512 | at one-bit granularity one region more keeps the closed form of the contents, lawful or not |
| `LayoutSteps.QuietStepsOn` | flashrom/flashrom.c:1498-1512 | one region more: still no command exactly if no included writable byte so far had to change |
| `LayoutTheorems.ExactSteps` | flashrom/flashrom.c:1483-1520 | with an exact image the run is legal if and only if no region, reached with those before it written, needs an erase in a cut block |
| `LayoutTheorems.UncutIsClean` | flashrom/flashrom.c:1483-1520 | a layout whose erase blocks no border cuts is clean |
| `LayoutTheorems.ImageSeen` | flashrom/erasure_layout.c:364-390 | the image tells the truth about a writable byte once a region has reached it, as data or as padding |
| `LayoutTheorems.EraseSteps` | flashrom/flashrom.c:1437-1481 | erasing from the false image is legal if and only if every included writable byte of a cut block sits in an erased or spared chunk |
| `LayoutTheorems.OneBitEraseClean` | flashrom/flashrom.c:1437-1481 | at one-bit granularity that is: no included writable byte of a cut block is unerased |
| `ImageWrite.WriteByLayout` | flashrom/flashrom.c:1483-1520 | for any included regions in any order, overlapping or sharing erase blocks: no run touches a protected byte; it fails only if the device fails, a region is refused or nothing is included; with an exact image, readable padding and no failed read, a successful run is lawful if and only if the layout is clean, and then the included writable bytes are new and everything else is old; for a ratio below 100 it issues no command if and only if every included writable byte is as wanted already |
| `ImageWrite.OneBitRight` | flashrom/flashrom.c:1483-1520 | at one-bit granularity the contents after any successful run are right if and only if no included writable byte of a cut block needs a bit set |
| `ImageWrite.EraseByLayout` | flashrom/flashrom.c:1437-1481 | no run touches a protected byte; it fails only if the device fails or a region is refused; although it starts from a false image, a successful run with readable padding and no failed read is lawful if and only if every included writable byte of a cut block sits in an erased or spared chunk, and then every included writable byte is erased and all others keep their real old value; at one-bit granularity exactly the included writable bytes of uncut blocks are erased, in any case |
| `ImageRuns.CutBlockSurvivesErase` | flashrom/flashrom.c:1437-1481 | a run on a chip that never fails: success is reported and nothing is erased |
| `ImageRuns.SparedChunk` | flashrom/flashrom.c:1437-1481 | a layout that is clean in one order of its regions and not in the other |
| `ImageWrite.ReadByLayout` | flashrom/flashrom.c:1419-1435 | succeeds exactly if every command completes, one for each readable part of an included region, and every included byte is readable or unreadable ones are to be skipped; success delivers every included byte |
| `ImageWrite.VerifyByLayout` | flashrom/flashrom.c:1536-1557 | 0 exactly if every read completes, none is refused and all included bytes match; 3 only if one does not, 1 only if a read failed or was refused |
| `ImageWrite.MismatchIffWithheld` | flashrom/flashrom.c:2180-2200 | after a layout write, the comparison finds a mismatch if and only if an included write-protected byte should have changed |
| `ImageWrite.UnprotectedOverlay` | flashrom/flashrom.c:363-376 | on a programmer without protection every layout is clean, nothing is refused or withheld, and the result of a layout write is exactly the combined image |
| `ImageWrite.FlashromImageWrite` | flashrom/flashrom.c:2057-2210 | end to end: no run touches a protected byte; if the chip has to be read first and a command of that read fails or is refused, the result is 1 and nothing is written; otherwise a failed command, a refused region or an empty layout gives 2, and 1 or 3 only come from a verification after something was written; result 0 after a verification means that every included byte was read back without a failure and as given, for any reference image; for an exact image the commands of a successful write are lawful if and only if the layout is clean, and then included writable bytes are new, the rest is old, and for a ratio below 100 the result is 3 if and only if verification is asked for, a byte is withheld and an included writable byte had to change |
| `ImageRuns.WithheldIsReported` | flashrom/flashrom.c:2140-2200 | a run on a chip that never fails: a byte is written, another withheld, and the result is 3 |
| `ImageRuns.WithheldIsOverlooked` | flashrom/flashrom.c:2140-2200 | a run on a chip that never fails: the only byte to change is withheld, nothing is compared, and the result is 0 |
| `ImageRuns.WriteUnprotected` | flashrom/flashrom.c:2057-2210 | without protection and on a chip that never fails, writing any image to any layout with an included region returns 0 and leaves exactly the included regions of the image over the old contents |
| `Undo.RestoresIffUndoable` | flashrom/flashrom.c:78-95 | after an action shutdown still restores everything if and only if what the action overwrites is saved or keeps its value and a PCI record is pushed only while PCI access is open |
| `Undo.UnwindAgrees` | flashrom/flashrom.c:188-201 | shutdown forgets the current value of exactly the saved bytes |
| `Undo.ShutdownRestores` | flashrom/hwaccess_physmap.c:471-569 | any interleaving of registered and raw writes to registered locations, of any width, is undone |
| `Undo.FreshRunRestores` | flashrom/pcidev.c:213-238 | from a fresh start with at most 32 registrations every byte is restored without an error, so PCI undo records run before access is closed |
| `Undo.FullStackLosesWrite` | flashrom/flashrom.c:78-95 | from a fresh start, 32 registrations and one more registered write: shutdown does not restore the register |
| `Undo.Programmer.RegisterShutdown` | flashrom/flashrom.c:78-95 | pushes the record, or refuses without effect when full or locked |
| `Undo.Programmer.RmmioWrite` | flashrom/hwaccess_physmap.c:520-554 | saves the present contents, then writes |
| `Undo.Programmer.RmmioVal` | flashrom/hwaccess_physmap.c:556-569 | saves the present contents |
| `Undo.Programmer.PciInitCommon` | flashrom/pcidev.c:225-238 | opens PCI access once and registers its closing |
| `Undo.Programmer.RpciWrite` | flashrom/pcidev.c:358-397 | saves the present contents of configuration space, then writes |
| `Undo.Programmer.ProgrammerShutdown` | flashrom/flashrom.c:188-201 | runs all records, last registered first, and empties the stack |
| `IchOpcodes.DecodeEncode` | flashrom/ichspi.c:562-626 | decoding the programmed registers gives the table back |
| `IchOpcodes.EncodeDecode` | flashrom/ichspi.c:731-783 | the table read from a locked chipset encodes to exactly its registers |
| `IchOpcodes.FindOpcode` | flashrom/ichspi.c:315-330 | the first slot of the table with an opcode |
| `IchOpcodes.LookupSpiType` | flashrom/ichspi.c:550-560 | the type in the first entry of the list with an opcode; 0xFF exactly if it is not listed |
| `IchOpcodes.SearchMenu` | flashrom/ichspi.c:915-928 | if the registers stand for the table, the search in them finds the slot that the search in the table finds |
| `IchOpcodes.IchSpi.ProgramOpcodes` | flashrom/ichspi.c:562-626 | makes the registers stand for the table |
| `IchOpcodes.IchSpi.GenerateOpcodes` | flashrom/ichspi.c:731-783 | decodes the registers |
| `IchOpcodes.IchSpi.InitOpcodes` | flashrom/ichspi.c:790-818 | table and registers agree afterwards, locked or not; a locked chipset is not written, and a second call changes nothing |
| `IchOpcodes.IchSpi.ReprogramOpcode` | flashrom/ichspi.c:628-662 | keeps table and registers in agreement; slot 4 receives the opcode with its listed type, or with the one guessed from the lengths, and nothing else changes; it is refused exactly if the opcode is not listed and no type goes with the lengths |
| `IchOpcodes.IchSpi.ResolveOpcode` | flashrom/ichspi.c:1134-1161 | a command in the table is found in its first slot by both searches and nothing changes; another one is refused on a locked chipset, and otherwise found by both searches in slot 4 unless its type can neither be looked up nor guessed |
| `HwSeq.FillData` | flashrom/ichspi.c:825-845 | the data registers hold the bytes, a partial last word included; registers beyond are kept |
| `HwSeq.ReadData` | flashrom/ichspi.c:852-863 | reads the bytes the registers hold |
| `HwSeq.HoldUnique` | flashrom/ichspi.c:825-863 | what was filled in is what is read back |
| `HwSeq.Sequencer.HwseqRead` | flashrom/ichspi.c:1705-1736 | splits a request into adjoining transfers inside one page, each as long as 64 bytes, the page and the request allow; a request inside the chip succeeds exactly if no transfer fails, and then delivers exactly the range |
| `HwSeq.Sequencer.HwseqWrite` | flashrom/ichspi.c:1738-1768 | likewise for writes; success stores exactly the bytes, and no run changes anything outside the range |
| `BitbangSpi.Master.constructor` | flashrom/bitbang_spi.c:166-173 | registration leaves chip select high and the clock low |
| `BitbangSpi.Master.WriteByte` | flashrom/bitbang_spi.c:79-89 | a mode-0 slave samples the eight bits, most significant first |
| `BitbangSpi.Master.ReadByte` | flashrom/bitbang_spi.c:61-77 | the byte packs what the slave answers at eight rising edges, at which it samples MOSI as it was and low at the last |
| `BitbangSpi.Master.SendCommand` | flashrom/bitbang_spi.c:96-124 | exactly 8 * (writecnt + readcnt) rising edges under one selection; the first sample writearr, the answers at the others are readarr; MOSI changes only into a low clock and chip select only while the clock is low, over any sequence of commands |
| `BitbangSpi.BytesFromBits` | flashrom/bitbang_spi.c:61-89 | the bits on the wire determine the bytes |
| `Edi.ScanReply` | flashrom/edi.c:66-93 | returns the byte after the first ready mark, and asks for a retry exactly if the reply ends before it |
| `Edi.Driver.EdiRead` | flashrom/edi.c:96-124 | always ends; the buffer length never shrinks and stays at most 32; with a constant delay it succeeds if and only if the longest buffer suffices, with the shortest length that does |
| `Edi.Driver.WaitIdle` | flashrom/edi.c:366-382 | polls as often as the timeout allows: only polls that find the controller busy use it up, so it lasts if the controller is idle in time, and it runs out if the controller stays busy |
| `Edi.Driver.SpiAddress` | flashrom/edi.c:212-235 | writing only the changed bytes leaves the address registers as writing all three would; succeeds exactly if no write fails |
| `Edi.AddressedAt` | flashrom/edi.c:212-235 | below 2^24 the three registers spell the address |
| `Edi.Driver.ChipRead` | flashrom/edi.c:392-450 | a sequential read delivers the flash contents across all boundaries and closes the controller; succeeds on a link that works |
| `Edi.Driver.FetchData` | flashrom/edi.c:424-441 | retries until the link works, as long as the controller is idle in time; gives up if the controller stays busy |
| `Edi.Driver.SpiEnable` | flashrom/edi.c:164-180 | opens the controller to commands and changes nothing else, or fails without effect; succeeds on a link that works, and only after the register was read and written |
| `Edi.Driver.WritePage` | flashrom/edi.c:343-380 | programs exactly one page at the address meant; success means that the last status read was idle or could not be read, the latter only on a link that does not work; on a link that works it succeeds if the controller is idle 63 transactions after PROGRAM |
| `Edi.Driver.ChipWrite` | flashrom/edi.c:316-390 | whole pages only; success programs exactly the range and closes the controller, an error leaves whole pages done and the rest unchanged; whole pages succeed on a link that works if the controller is idle 63 transactions after each PROGRAM |
| `At45db.AddressToBits` | flashrom/helpers.c:16-22 | the exact bit length of a positive 32-bit number |
| `At45db.SegmentedParts` | flashrom/at45db.c:266-273 | page number and offset can be read off a converted address |
| `At45db.SegmentedIncreasing` | flashrom/at45db.c:266-273 | conversion is strictly increasing, hence injective |
| `At45db.SegmentedIdentity` | flashrom/at45db.c:261-273 | conversion is the identity if and only if the page size is a power of two |
| `At45db.ReadOutRun` | flashrom/at45db.c:285-291 | a continuous read that crosses pages delivers consecutive bytes |
| `At45db.Dataflash.SpiRead` | flashrom/at45db.c:275-302 | in reads as long as the chunk limit allows, a request inside the chip succeeds exactly if no command fails, and then delivers the range; out-of-range requests are refused |
| `At45db.Dataflash.FillBuffer1` | flashrom/at45db.c:499-529 | in buffer writes as long as the chunk limit allows, succeeds exactly if no command fails, and then the buffer holds the page |
| `At45db.Dataflash.ProgramPage` | flashrom/at45db.c:557-572 | programs exactly one page, at the address meant; succeeds if nothing fails or takes too long; its buffer writes keep to the limit of the programmer exactly if that is above 4 bytes |
| `At45db.Dataflash.SpiWrite` | flashrom/at45db.c:574-599 | whole pages only; success programs exactly the range, an error leaves whole pages done; succeeds if nothing fails or takes too long |
| `At45db.Dataflash.WriteReadBack` | flashrom/at45db.c:574-599 | if nothing fails or takes too long, writing erased pages and reading them succeeds and gives the data back |
| `Pages.StoredOnErased` | flashrom/at45db.c:574-599 | programming erased flash stores the data and keeps everything around it |
| `FmapSearch.FinalStrideTight` | flashrom/fmap.c:196-243 | the last stride is below twice the minimum stride |
| `FmapSearch.PowerStride` | flashrom/fmap.c:196-243 | between powers of two the last stride is the minimum stride |
| `FmapSearch.Bsearch` | flashrom/fmap.c:196-243 | what is found is valid and lies in the range; without a result every probe was rejected; from offset 0 on a chip whose size is a power of two it then probed every multiple of the final stride that leaves room for a header exactly once if that stride is at most len, and nothing otherwise; from any other offset the number of probes of each offset is the number of strides that hit it |
| `FmapSearch.SearchRom` | flashrom/fmap.c:292-317 | as called, from offset 0: complete exactly if len is at least 256 |
| `FmapSearch.ShortRangeMissed` | flashrom/fmap.c:292-317 | a header at offset 0 of a range of 100 bytes is not found |
| `FmapOffset.ProbedIff` | flashrom/fmap.c:187-204 | from a nonzero offset, an offset on the grid is probed exactly if the largest power of two that divides it does not exceed that of its distance from the start, and the start itself if that power does not exceed len |
| `FmapOffset.AllProbedIff` | flashrom/fmap.c:187-204 | every offset on the grid is probed if and only if the start is no multiple of the last stride or the largest power of two in it just fits the range |
| `FmapOffset.NoneTwiceIff` | flashrom/fmap.c:187-204 | no offset is probed twice if and only if twice the last stride, or twice the largest power of two in the start, exceeds len |
| `FmapOffset.SearchFrom` | flashrom/fmap.c:292-317 | both conditions for the search as called |
| `FmapOffset.StartMissed` | flashrom/fmap.c:198-204 | a header at the very start of a range is not found |
| `FmapSearch.Lsearch` | flashrom/fmap.c:64-88 | the first valid header, -1 exactly if there is none, -2 if its map does not fit |

## Left out

- Chip, board, chipset and programmer tables, probing, command line, logging, progress, file I/O.
- Delays, polling intervals and memory allocation failures; their outcomes are part of the oracles.
- prepare_flash_access, the coreboot image check and write-protection unlocking: prepare_flash_access is a parameter of `ImageWrite.FlashromImageWrite`, the others are absent.
- Region maps that are not honest, such as the one ich_get_region gives in a gap between regions.
- Sums that wrap at 32 bits, in selfcheck_eraseblocks and in requests near the end of the address space.
- ImageWrite.WriteByLayout: says nothing about contents if the padding of a region cannot be read, because the code ignores that and writes back what it has; the erase levels are a parameter, EraseBlocks.CreateEraseLayout makes them.
- Edi.Driver.ChipRead: assumes that the link works from some transaction on, because the retry loop of the code has no bound of its own.
- BitbangSpi.Master.constructor: says nothing about the pins before registration, which may deselect the chip while the clock is high; requesting and releasing the bus is not modelled.
- IchOpcodes.IchSpi.ProgramOpcodes: the registration of undo records for these registers, preopcodes and atomic cycles are not modelled.
- HwSeq.Sequencer.HwseqRead: a transfer is one step; the control and status registers of the hardware sequencer are not modelled.
- FmapSearch.Bsearch: from offset 0 on a chip whose size is not a power of two it says only that all probes were rejected, because the strides are not multiples of each other; reading and checking a header is a predicate on offsets.
- Undo.Programmer.ProgrammerShutdown: records other than MMIO, PCI and the closing of PCI access are not modelled.
- flashrom_layout_add_region, include and exclude arguments: list editing with no deep property.
- spi_read_at45db_e8, the AT45DB erase commands and the size adjustment for 264-byte pages.
