# ESP32-C3 second-stage bootloader: a verified model

The bootloader has no allocator and almost no code that is hard to read line by line; what is hard is
what holds across lines, across boots and across power losses. This project models its core and the
programs around it, and proves what they promise together:

- **Flash and crashes** (`FlashOps`, `Flash`). The chip is a sequence of cells. Erasing sets a sector
  to 0xFF, programming clears bits one word at a time, and losing power is stopping between any two
  such operations. Every method that changes flash is proved to perform an exact list of operations,
  so the theorems can cut that list anywhere.
- **OTA records** (`OtaData`, `BootRecords`, `OtaSelect`). The record of a confirmed or new image with
  the greatest sequence number is selected. Any number of interrupted boots selects the same one and
  leaves its sector alone, and the exact condition for that is proved.
- **Images** (`ImageFormat`, `ImageLoad`, `MemoryMap`, `TestImage`, `OverlongImage`). The loader accepts
  exactly the printed images whose checks hold, keeps the bootloader's own memory intact, returns every
  resource on every exit; which bytes the application then reads is decided byte by byte on the flash
  of the jump.
- **SHA-256 and CRC-32** (`Fips180`, `Sha256`, `Crc`, `SigBlock`). The streaming hash equals FIPS 180-4
  on any split of the message (the constants are proved to be the roots sections 4.2.2 and 5.3.3 name);
  the CRC register is an invertible linear map, which gives burst detection and the residue.
- **The boot flow** (`PartitionTable`, `BootSweep`, `FactoryReset`, `Boot`). Table verification is
  exact, the sweep tries every partition once in the documented order, and a good factory image keeps
  the device bootable through any run of interrupted boots.
- **The update system** (`OtaTransfer`, `OtaSystem`, `OtaLink`). Boots, transfers and confirmations,
  each cut anywhere and in any order, refine a two-field abstract machine; the chunk protocol between
  host and device cannot deadlock before the device is done. `BuiltUpdateSticks` joins the pieces: an
  image from the build script, transferred in any reachable state, is what every later boot starts, and
  `BuiltUpdateBoots` says what that boot does.

`Words`, `Wrappers` and `BootTypes` hold what the others share; `Numbers` and `Fips180Vector` state the
shared definitions by digits: addresses, magic bytes, texts, and the published SHA-256 example. `dafny verify dfyconfig.toml` checks
everything.

## Reading the model

- Addresses are integers below 2^32 with the wrap-around of the release build written out; flash words,
  sequence numbers and CRCs are 32-bit vectors; bytes are 8-bit vectors.
- Code that updates state is a method over a class (`Flash`, `Sha256Context`, `Sha256Pool`, `Ram`,
  `EspImageMetadata`, `BootloaderState`, `Mmu`, `Uart`). Long functions of the source are split into
  several methods at their own step boundaries.
- Fault model: an operation that completes succeeds inside the chip, and power may be lost between any
  two operations, a record being written word by word. ROM reads may fail at will; `Reliable` names
  the runs in which those inside the chip do not, and only completeness claims ask for it.
- ROM contract: a raw read at `a` delivers the cells from `a + 1` on (the driver subtracts one) and
  fails beyond the end of the chip, so address 0 cannot be read. Cache mapping calls map consecutive
  64 KB pages, and the data and the instruction bus have separate page tables.
- RAM is one flat address space: the instruction and the data view of the same SRAM are different
  addresses and are not identified. The memory-safety theorems speak of addresses.
- Where code and documentation differ, the model follows the code: RAM segments load from 0x4037C000
  up (`BOOTLOADER.md:300` says 0x40370000), DROM ends at 0x3E000000 (`BOOTLOADER.md:302` says
  0x3C800000), and a started slot is always recorded (`BOOTLOADER.md:413` says only when it changed).

## What turned out false

Each of these is kept as the code has it, with the exact condition and a concrete run or record.

- `README.md:10` promises automatic rollback. A record that is still new is never taken back: boots
  leave the selection alone for ever (`NewRecordIsNeverRolledBack`).
- Crash stability has one exception: a pending record carrying sequence number 0x6DD90A9D, whose CRC is
  all ones, settles while its rollback is half written. Every run of interrupted boots acts on the same
  record if and only if a chosen record outranks each such pending one (`ChoiceIsStableIff`), and
  selects the same index if and only if that holds or factory was selected anyway
  (`IndexIsStableIff`); `PendingTornSeqMovesSelection` is a flash on which two operations of the next
  boot move the device from a slot to factory. No record with a number from 1 to 16, all the code
  writes, is such a one.
- When the records cannot be read during selection but can be afterwards, the attempt record
  overwrites the good one exactly if the other record is pending, valid and outranks it
  (`SkippedRollbackHitsChoiceIff`).
- A boot stays inside the OTA-info partition exactly when that partition is sector-aligned or only its
  second sector is written (`FrameOfWrites`); nothing in table verification checks alignment.
- The cached read route delivers the flash contents exactly when the source is word-aligned or the
  read ends before its 64 KB page does (`StaysInWindowIff`).
- The application reads a verified byte of a mapped segment if and only if load and flash address are
  congruent modulo 64 KB and the byte is outside what noting the attempt rewrites, or equal to what
  that leaves (`AppSeesVerifiedBytes`). Neither is checked, since the image is not compared with its
  partition: `CongruenceIsNotEnough` is an accepted image with a congruent segment whose byte is erased
  at the jump. For a good image inside its own partition of a verified table, congruence alone decides
  (`GoodImageIsSeen`).
- Without a free SHA-256 context the loader would compare the stored digest with zeros
  (`ExpectedDigest` in `ImageLoad`); the resource theorems show the boot flow never gets there.
- A transfer over a selected ota_0 keeps it selected until the image is whole (`TransferKeepsSelection`).
  Cut while it erases, the slot does not load and factory is started (`ErasePhaseFallsBack`); cut while
  it programs, the firmware is whole if and only if all bytes to come are 0xFF
  (`ProgramPhaseIsWholeIff`). A confirmation cut in the middle loses the selection
  (`ConfirmRefines`).
- The host learns of success exactly when at most three bytes of the final message came in one piece with
  the last acknowledgement (`StopsOnlyWhenDone`, `CoalescedOkIsLost`).
- Signing twice hashes the same content unless the unsigned image already looks signed
  (`ResigningHashesTheSameContent`).

## Model

| member | source | states |
|---|---|---|
| `Crc.Crc32Le` | src/rom.rs:315-328 | the bit loop (the same in sha256.rs and test_app.c) computes the CRC register, defined byte by byte over the 0xEDB88320 polynomial |
| `Crc.Crc32Bytes` | src/sha256.rs:24-26 | all-ones start and final complement |
| `Crc.CheckValue` | src/sha256.rs:22-26 | the CRC-32 of the digits 123456789 is CBF43926 |
| `Crc.BitUndone` | src/sha256.rs:12-18 | one register step can be undone: the top bit of the result tells whether the polynomial was added |
| `Crc.BitsLinear` | src/sha256.rs:8-21 | any number of register steps is linear over exclusive or |
| `Crc.RegisterOfWord` | src/sha256.rs:8-21 | four data bytes act on the register like the word they form, added before 32 steps |
| `Crc.RegisterInjective` | src/sha256.rs:8-21 | on the same data, different starting registers end differently |
| `Crc.BurstDetected` | src/sha256.rs:8-21 | for messages of any length differing only within 4 consecutive bytes, the CRC is equal if and only if the messages are |
| `Crc.ResidueCharacterisesCheck` | tools/sign_image/src/sig_block.rs:50-52 | a stored little-endian CRC matches the data if and only if the register run over data and CRC ends in 0xDEBB20E3 |
| `SigBlocks.ToBytes` | tools/sign_image/src/sig_block.rs:27-42 | fills the 4096-byte block in place with magic, version, digest, signature, key, CRC of the first 164 bytes, and 0xFF padding |
| `SigBlocks.FromBytes` | tools/sign_image/src/sig_block.rs:45-69 | returns exactly what the layout holds, or nothing when magic, version or CRC is wrong |
| `SigBlocks.ParseOfLayout` | tools/sign_image/src/sig_block.rs:27-69 | parsing a serialised block gives the block back |
| `SigBlocks.LayoutOfParse` | tools/sign_image/src/sig_block.rs:45-69 | serialising what was parsed gives the same block if and only if the reserved bytes are zero and the padding is all 0xFF; nothing else is lost |
| `SigBlocks.AcceptedIffResidue` | tools/sign_image/src/sig_block.rs:45-58 | a block with the right magic and version is accepted if and only if the CRC register over its 168 bytes ends in the residue |
| `SigBlocks.BurstRejected` | tools/sign_image/src/sig_block.rs:45-58 | any change of an accepted block within 4 consecutive bytes of the first 168 is rejected |
| `SigBlocks.ResigningHashesTheSameContent` | tools/sign_image/src/sig_block.rs:75-83 | the content length of a signed image is that of the unsigned one, and signing again hashes the same bytes unless the bare image already ends like a block |
| `Numbers.BlockByNumbers` | tools/sign_image/src/sig_block.rs:27-42 | the block byte by byte: E7 02 00 00, digest at 4, signature at 36, key at 100, CRC at 164 lowest byte first, FF up to 4096 |
| `Numbers.ContentByNumbers` | tools/sign_image/src/sig_block.rs:75-83 | the content ends 4096 bytes early exactly when E7 02 stands there |
| `Fips180.InitialHashIsSquareRoots` | src/sha256.rs:37-46 | the eight initial words are the first 32 fraction bits of the square roots of the first eight primes (FIPS 180-4 section 5.3.3) |
| `Fips180.RoundConstantsAreCubeRoots` | src/sha256.rs:49-66 | the 64 round constants are the first 32 fraction bits of the cube roots of the first 64 primes (section 4.2.2) |
| `Fips180.BeWordIsNumber` | src/sha256.rs:127-129 | a message word is its four bytes as a number, big end first |
| `Fips180.WordBeIsNumber` | src/sha256.rs:249-261 | a digest word is written as its number, big end first |
| `Fips180.U64BeIsNumber` | src/sha256.rs:241-243 | the length field is the bit count as a number, big end first |
| `Fips180Vector.AbcVector` | src/sha256.rs:122-262 | SHA-256 of "abc" is the digest the standard publishes, computed round by round |
| `Fips180.PadZerosIsLeast` | src/sha256.rs:219-262 | the padding is the smallest that fills whole blocks (section 5.1.1) |
| `Fips180.HashBlocksConcat` | src/sha256.rs:178-216 | hashing whole blocks piece by piece equals hashing them at once |
| `Sha256Streaming.Sigma0IsStandard` | src/sha256.rs:78-80 | rotation by the language operator is the rotation of section 3.2 in the large sigma 0 |
| `Sha256Streaming.Sigma1IsStandard` | src/sha256.rs:83-85 | likewise for the large sigma 1 |
| `Sha256Streaming.Gamma0IsStandard` | src/sha256.rs:88-90 | likewise for the small sigma 0 |
| `Sha256Streaming.Gamma1IsStandard` | src/sha256.rs:93-95 | likewise for the small sigma 1 |
| `Sha256Streaming.MessageSchedule` | src/sha256.rs:122-135 | the in-place schedule array equals the recursive schedule of section 6.2.2 |
| `Sha256Streaming.CompressionRounds` | src/sha256.rs:137-164 | the 64-round loop computes the rounds of section 6.2.2 |
| `Sha256Streaming.Sha256Context.Compress` | src/sha256.rs:122-175 | updates the state in place by one standard compression |
| `Sha256Streaming.Sha256Context.Update` | src/sha256.rs:178-216 | absorbs a chunk of any length: state, buffered tail, fill index and bit count track everything absorbed so far |
| `Sha256Streaming.Sha256Context.Finalize` | src/sha256.rs:219-262 | writes the FIPS 180-4 hash of everything absorbed, padded per section 5.1.1 |
| `Sha256Streaming.PaddingIsStandard` | src/sha256.rs:219-262 | mark, zeros and count written around the buffered tail are the standard padding, in one block or two |
| `Sha256Streaming.Sha256Pool.Start` | src/sha256.rs:290-306 | hands out a fresh context and takes one slot, or returns none exactly when both are taken |
| `Sha256Streaming.Sha256Pool.Data` | src/sha256.rs:309-315 | feeds one live context; the other live one keeps what it absorbed |
| `Sha256Streaming.Sha256Pool.Finish` | src/sha256.rs:325-342 | delivers the hash and returns the slot |
| `Sha256Streaming.HashChunks` | src/sha256.rs:290-342 | start, any list of chunks, finish gives the standard hash of their concatenation and restores the pool |
| `FlashDriver.StaysInWindowIff` | src/flash.rs:832-856 | a cached read loses no byte if and only if it is word-aligned or ends before the page does |
| `FlashDriver.Flash.ReadRaw` | src/flash.rs:815-824 | the off-by-one of the ROM routine cancels: the bytes at the asked address are delivered; address 0 fails, as the source expects |
| `FlashDriver.Flash.ReadViaCache` | src/flash.rs:832-856 | every byte delivered is the one its own word sees through the remembered window, across any number of page changes; the window is forgotten at the end |
| `FlashDriver.Flash.Mmap` | src/flash.rs:776-803 | rejects sizes 0 and above 4093 and a second mapping, never overruns the buffer, and on success the buffer starts with the flash bytes, by either route |
| `FlashDriver.Flash.Munmap` | src/flash.rs:806-811 | ends the mapping and leaves the buffer contents |
| `FlashDriver.Flash.Write` | src/flash.rs:363-379 | programs the words in address order, nothing else |
| `FlashDriver.Flash.EraseRange` | src/flash.rs:388-397 | erases exactly the sectors of the range before the first one outside the chip; succeeds if and only if that is all of them |
| `FlashDriver.ErasePrefix` | src/flash.rs:388-397 | the first k erases blank the first k sectors and leave every other cell |
| `FlashOps.ProgrammedWord` | src/flash.rs:363-379 | programming an erased word stores exactly that word, although programming only clears bits |
| `Numbers.EraseByNumbers` | src/flash.rs:381-386 | erasing sector s sets cells 4096 s to 4096 s + 4095 to FF and no other |
| `Numbers.ProgramByNumbers` | src/flash.rs:363-379 | programming a word ands its bytes, lowest first, into four cells |
| `Numbers.SectorsByNumbers` | src/flash.rs:388-391 | a range gets the least number of 4096-byte sectors that hold it |
| `Numbers.WindowByNumbers` | src/flash.rs:832-856 | the window ends at 64 KB |
| `FlashOps.WithinLeavesRest` | src/flash.rs:363-397 | operations inside a range leave every cell outside it |
| `OtaData.ChosenIsGreatestSettled` | src/utility.rs:268-323 | after the rollback pass the active record is the confirmed or new valid one with the greater unsigned sequence number, the first in a tie, none if and only if there is none |
| `OtaData.StateWordsDecide` | src/utility.rs:34-38 | with a matching CRC and a number that is not blank, a record can win unless its state word is 1, 3 or 4; rollback turns 1 into 4 |
| `OtaData.GreaterNumberWins` | src/utility.rs:288-312 | of two such records the numerically greater unsigned number wins, the first in a tie |
| `Numbers.SlotsByNumbers` | src/utility.rs:495-499 | numbers 1 to 16 name slots 0 to 15, no other names one |
| `OtaData.CrcOfOne` | src/utility.rs:262-264 | the CRC of sequence number 1 is 66074786 |
| `OtaData.SeqCrcIsBijective` | src/utility.rs:262-264 | the CRC of a sequence number is a bijection on 32-bit values, with its inverse |
| `OtaData.SeqChangeDetected` | src/utility.rs:268-273 | any change confined to the sequence number invalidates a valid record |
| `OtaData.TornSeqIsUnique` | src/utility.rs:262-273 | exactly one sequence number has the all-ones CRC of an erased word |
| `OtaData.WrittenSeqsAreNotTorn` | src/utility.rs:335-379 | no sequence number 1 to 16 is that one or blank, and each names its slot |
| `OtaData.TornWriteNeverSettles` | src/utility.rs:335-379 | a record that does not count counts at no cut of its write if and only if its sequence number is not the special one |
| `OtaData.EntryAfterCut` | test_app.c:131-143 | a record write cut after any number of operations leaves exactly the old, the blank, the partial or the new record |
| `OtaData.WriteEntryCell` | src/utility.rs:466-476 | every cell after a whole record write: the sector of the address blank but for the record, cleared bits only where the record leaves that sector |
| `OtaData.WriteEntryWithin` | test_app.c:131-143 | a record write to an aligned sector stays in that sector |
| `BootRecords.CutWriteEffect` | src/utility.rs:443-486 | a cut record write tears its own record and changes no byte of the other sector |
| `BootRecords.RecordsAfterSelect` | src/utility.rs:460-481 | after the rollback pass each pending record is aborted with a fresh CRC and any other is unchanged |
| `BootRecords.RecordsAfterBoot` | src/utility.rs:335-509 | a completed boot of a slot leaves the pending attempt for that slot in the sector the choice does not rest on, and the other record as rollback made it |
| `BootRecords.BytesAfterBoot` | src/utility.rs:335-379 | the same in bytes: slot plus one and state 1 in one sector; where the other record had state 1, state 4 |
| `BootRecords.StateByteSelects` | src/utility.rs:443-509 | a flash with the literal record of slot 0 and a blank second sector selects slot 0 for state byte 0 or 2, factory for 1, 3 or 4 |
| `BootRecords.BootWritesAreHarmless` | src/utility.rs:335-486 | every record a boot writes is pending or aborted, goes to a sector the choice does not rest on, and carries the all-ones-CRC number only if outranked |
| `BootRecords.CutBootKeepsSelection` | src/utility.rs:335-509 | a boot cut after any flash operation keeps the selected index and every byte of the sector it rests on |
| `BootRecords.SelectionIsCrashStable` | src/utility.rs:335-509 | the same over any number of boots, each cut anywhere |
| `BootRecords.NewRecordIsNeverRolledBack` | README.md:10 | what the rollback promise comes to: an unconfirmed new record stays new and selected through any number of boots |
| `BootRecords.ChoiceIsStableIff` | src/utility.rs:443-509 | for an aligned readable partition, every run of boots, each cut anywhere, acts on the same record if and only if every pending record with the all-ones-CRC number is outranked by a chosen one |
| `BootRecords.IndexIsStableIff` | src/utility.rs:443-509 | every such run selects the same index if and only if that holds or factory was selected |
| `BootRecords.UnsafeCut` | src/utility.rs:460-481 | otherwise a cut of the next boot hands the choice to the half-written rollback |
| `BootRecords.PendingTornSeqMovesSelection` | src/utility.rs:460-481 | the failure on a flash: two operations into the next boot, the selection moves from a slot to factory |
| `BootRecords.SkippedRollbackHitsChoiceIff` | src/utility.rs:335-379 | if selection could not read the records, the attempt record hits the good sector if and only if a valid pending record outranks it |
| `BootRecords.FrameOfWrites` | src/utility.rs:335-486 | boot writes stay in the two OTA sectors if and only if the partition is sector-aligned or only its second sector is written |
| `BootRecords.BootsLeaveOtherFlash` | src/utility.rs:335-509 | with an aligned OTA-info partition no boot changes a byte outside its two sectors |
| `OtaSelect.ReadOtadata` | src/utility.rs:215-256 | reads both records, and fails for an absent or small partition or a failed read |
| `OtaSelect.PickIndex` | src/utility.rs:483-509 | aborted entry, slot out of range and empty slot lead to factory; otherwise the slot of the active sequence number |
| `OtaSelect.RollbackOne` | src/utility.rs:460-481 | one turn of the rollback loop: record and flash both change as specified, or neither does |
| `OtaSelect.GetSelectedBootPartition` | src/utility.rs:443-509 | returns the selected index and performs exactly the rollback writes |
| `OtaSelect.SetActualOtaSeq` | src/utility.rs:335-379 | performs exactly the write of a pending record to the inactive sector, nothing for factory or unreadable records |
| `PartitionTable.LabelIsValid` | src/partition.rs:99-113 | true if and only if the label is printable characters followed by NULs only |
| `PartitionTable.RangeTestIsExact` | src/partition.rs:144-155 | the 32-bit range test rejects exactly empty, low, high and wrapped ranges |
| `PartitionTable.PartitionTableVerify` | src/partition.rs:128-185 | true if and only if every entry before the first wrong magic is in range and well labelled and all pairs are disjoint; counts those entries |
| `PartitionTable.VerifiedByNumbers` | src/partition.rs:144-180 | verification by numbers: not empty, from 0x8C00, to 16 MB, valid labels, pairwise disjoint, and nothing more |
| `PartitionTable.MagicBytes` | src/partition.rs:139-141 | an entry is in use when it starts with AA 50 |
| `PartitionTable.TablePlace` | src/partition.rs:192-199 | entry i is the 32 bytes at 0x8000 + 32 i |
| `PartitionTable.BootloaderState.Register` | src/partition.rs:212-233 | one entry updates exactly its own field, and the slot count for a higher slot |
| `PartitionTable.RoleByNumbers` | src/partition.rs:213-233 | the role by type and subtype number: application 0 factory, 1 test, with bit 16 the slot in the low four bits; data 0 OTA-info; anything else none |
| `PartitionTable.SlotSubtype` | src/partition.rs:220-222 | subtype 0x10 + s is slot s |
| `PartitionTable.SixteenSlots` | src/partition.rs:211-234 | a table with one entry for each of the sixteen slot subtypes fills every slot from its own entry and counts sixteen |
| `PartitionTable.StateAfterOneMore` | src/partition.rs:211-234 | entering one more entry keeps the state that of the entries so far |
| `PartitionTable.LoadPartitionTable` | src/partition.rs:191-242 | succeeds if and only if the table in flash verifies, and then the state is the last-entry-wins reading of it; keeps the state on failure |
| `PartitionTable.SlotsAboveCountAreEmpty` | src/partition.rs:220-228 | slots at or above the count are empty and the highest one below it is not |
| `PartitionTable.StatePartitionsInRange` | src/partition.rs:191-242 | every partition of the state is absent or in range |
| `PartitionTable.RolesAreDisjoint` | src/partition.rs:157-174 | partitions of different roles share no byte |
| `ImageFormat.ParseSegmentsIff` | src/image.rs:429-498 | a segment list is parsed if and only if its printed form lies there, each at most 4093 bytes |
| `ImageFormat.DecodeIffPrinted` | src/image.rs:386-582 | an image is decoded if and only if its printed form with the format's sizes lies in flash |
| `ImageFormat.AcceptedIffPrinted` | src/image.rs:386-582 | an image is accepted if and only if its printed form lies there, checksum and digest match and, when loading, all addresses are admissible |
| `ImageFormat.ImageLengthBound` | src/image.rs:500-545 | an image is at most 24 + 16 * 4101 + 16 + 32 bytes, no address wraps below 16 MB, and checksum lines end on 16 |
| `ImageFormat.AcceptedDependsOnImageBytes` | src/image.rs:386-582 | acceptance looks at the image's own bytes only |
| `ImageFormat.FieldsOfPacked` | src/image.rs:31-51 | every header accessor reads its own field, two-byte fields low byte first, the entry address at offset 4 |
| `ImageFormat.HeaderGate` | src/image.rs:228-248 | magic E9, 1 to 16 segments, valid chip |
| `ImageFormat.ChipGate` | src/image.rs:745-767 | chip 5, a revision in range, no upper bound for 0 and 65535 or when the fuse disables it |
| `ImageFormat.FlipShows` | src/image.rs:345-349 | the checksum is an exclusive or: flipping bits of any payload byte flips the same bits of it |
| `ImageFormat.ChangedByteIsRefused` | src/image.rs:526-535 | a flash that differs from an accepted image in exactly one payload byte holds no acceptable image there |
| `Numbers.LoadedRegions` | src/image.rs:184-202 | segments are copied to DRAM, IRAM and RTC memory by these addresses, nothing else |
| `Numbers.MappedRegions` | src/image.rs:206-217 | segments are mapped by these addresses, and none of them is copied |
| `Numbers.AddressRule` | src/image.rs:256-295 | the address rule: clear of code and data, and of the 64 KB around the stack start |
| `TestImage.AdmissibleIff` | src/image.rs:256-295 | under the linker's layout the exact admissible places of a copied segment |
| `ImageLoad.AdmissibleStoreIsSafe` | src/image.rs:184-295 | the range test on the wrapped end, the load regions and the 4093 limit together keep every stored byte out of the bootloader's code and data |
| `ImageLoad.ProcessSegmentData` | src/image.rs:324-365 | sums, hashes and copies exactly the flash bytes of the payload, or fails without touching RAM |
| `ImageLoad.ReadSegmentHeader` | src/image.rs:430-448 | hashes and returns the eight header bytes, still intact in the buffer after unmapping |
| `ImageLoad.ProcessSegment` | src/image.rs:430-497 | one segment is processed if and only if it parses and is admissible; RAM then holds it and stays safe |
| `ImageLoad.ProcessSegments` | src/image.rs:429-498 | the walk records each header and data address, and succeeds if and only if all segments do |
| `ImageLoad.BeginImage` | src/image.rs:396-427 | header check and start of the hash with the header bytes |
| `ImageLoad.ChecksumAddress` | src/image.rs:503 | the bit mask picks the last byte of the line the image ends in |
| `ImageLoad.CheckDigest` | src/image.rs:537-566 | compares the digest read before the computation finished with the computed one, and returns the context on every path |
| `ImageLoad.FinishImage` | src/image.rs:500-566 | checksum and digest verdict and the final length |
| `ImageLoad.TrailerDecides` | src/image.rs:500-566 | once header and segments are through, acceptance is exactly the trailer check |
| `ImageLoad.ProcessImage` | src/image.rs:386-582 | with reliable reads succeeds if and only if the image is accepted; RAM then holds its loaded segments and the metadata describe it; on every exit nothing is mapped, the pool is as before, and the bootloader's memory is intact |
| `MemoryMap.ExtractSegmentInfo` | src/utility.rs:730-765 | picks the first non-empty segment of each window |
| `MemoryMap.Mmu.SetCache` | src/utility.rs:824-847 | maps exactly the pages of the chosen segments after clearing the rest |
| `MemoryMap.MapsOwnBytesIff` | src/utility.rs:824-847 | every byte of the segment shows at its own address if and only if load and flash address are congruent modulo 64 KB |
| `MemoryMap.PageCountIsMinimal` | src/utility.rs:829 | with any smaller page count the last byte is unmapped |
| `Numbers.PagesByNumbers` | src/utility.rs:824-847 | a worked mapping: 64 KB pages, a second one only when the segment crosses |
| `MemoryMap.ChosenFromImage` | src/utility.rs:730-765 | what is chosen is the first such segment of the accepted image itself, nothing left over from earlier attempts |
| `MemoryMap.VerifiedByteIsSeenIff` | src/utility.rs:824-847 | on any flash the application starts with, a byte of an accepted segment is read in its place if and only if the addresses are congruent and the cell still holds what was verified |
| `BootSweep.CheckAntiRollback` | src/utility.rs:533-553 | false if and only if a readable descriptor has the magic and a version below the fuse; otherwise fails open |
| `Numbers.DescriptorByNumbers` | src/utility.rs:533-553 | the descriptor is at 32 with bytes 32 54 CD AB, its version behind it |
| `BootSweep.TryLoadPartition` | src/utility.rs:558-575 | with reliable reads true if and only if the partition is non-empty, passes the gate and its image is accepted |
| `BootSweep.SweepIsExhaustive` | src/utility.rs:588-629 | factory and every slot below the count appear exactly once, the test partition exactly when chosen, nothing else |
| `BootSweep.OrderAt` | src/utility.rs:602-626 | each index has its fixed place: from the start down to factory, then from the start up to the last slot, behind the test partition when that is chosen |
| `BootSweep.FirstLoadableIsFirst` | src/utility.rs:588-629 | the result loads and nothing before it does; none means nothing loads |
| `BootSweep.EntryInFlash` | src/utility.rs:769-797 | the entry point is the little-endian word at offset 4 of the image |
| `BootSweep.JumpCellIff` | src/utility.rs:335-379 | a cell is the same at the jump as at verification if and only if it is outside what the attempt record touches or equals what that leaves |
| `BootSweep.AppSeesVerifiedBytes` | src/utility.rs:769-862 | on the flash of the jump, both page maps show the accepted image's own first segments, each byte in its place if and only if congruent and kept |
| `OverlongImage.CongruenceIsNotEnough` | src/utility.rs:606-609 | an accepted image longer than its partition, in a verified layout: a congruent mapped byte that was verified is erased at the jump |
| `BootSweep.TryIndex` | src/utility.rs:600-625 | one attempt: a jump exactly when the partition loads, to the word at offset 4 of its image, with its segments in RAM, recorded by exactly one pending record, none for factory and test |
| `BootSweep.LoadBootImage` | src/utility.rs:588-629 | attempts follow the sweep order; the outcome is a jump to the first loadable partition, with the application's view of the flash left behind, or a reset after all failed |
| `FactoryReset.SplitIff` | src/utility.rs:156-157 | the pieces of the list are the comma-free texts that commas join into it, and only those |
| `FactoryReset.ResetListNames` | src/utility.rs:414 | the list "nvs, phy, otadata" names exactly these three labels |
| `Numbers.ResetText` | src/utility.rs:414 | the list is the text nvs, phy, otadata |
| `FactoryReset.LabelListed` | src/utility.rs:155-171 | true if and only if some trimmed non-empty piece equals the label |
| `FactoryReset.ErasePartTypeData` | src/utility.rs:109-176 | performs exactly the erases of the matching data partitions, read through the mapping while flash changes, nothing when the table cannot be read; finds one if and only if there is one |
| `FactoryReset.WipeIsExact` | src/utility.rs:109-176 | for whole-sector partitions exactly the cells of named data partitions become 0xFF |
| `FactoryReset.ResetSelectsFactory` | src/utility.rs:414-417 | when the OTA-info partition carries the label, selection then returns factory with nothing to roll back |
| `Boot.StateIsUnique` | src/partition.rs:191-242 | a table stands for one boot state |
| `Boot.SelectedIsBelowCount` | src/utility.rs:495-508 | the selected index is factory or below the slot count |
| `Boot.TableSurvivesBoots` | src/partition.rs:128-185 | interrupted boots leave the table, so later boots derive the same state |
| `Boot.BootsLeaveOtherPartitions` | src/utility.rs:335-509 | every other partition of a verified table survives any number of boots byte for byte |
| `Boot.SelfContainedKept` | src/image.rs:386-582 | an image inside its partition stays loadable as long as the partition's bytes stay |
| `Boot.NeverBricked` | src/utility.rs:588-629 | with a good factory image, after any number of interrupted boots every boot finds an image from any start index |
| `Boot.NeverDiverted` | src/utility.rs:443-629 | a good image in the selected partition is the one every boot starts, whatever was interrupted before |
| `Boot.ResetAndReselect` | src/utility.rs:408-419 | the factory-reset branch, whatever it reaches and whichever reads succeed: the operations and the index selected afterwards |
| `Boot.SelectedBootPartition` | src/utility.rs:399-435 | for every hold and every read behaviour, the index and exactly the operations performed |
| `Boot.ResetHoldSelectsFactory` | src/utility.rs:408-419 | a factory-reset hold that reaches the OTA-info partition starts from factory and erases exactly the named partitions |
| `Boot.GoodImageIsSeen` | src/utility.rs:769-862 | a good image of a verified table sees all its verified bytes at the jump, exactly under congruence |
| `Boot.TestHoldStartsTest` | src/utility.rs:421-430 | a test-app hold with a loadable test partition starts it and writes no attempt record |
| `Boot.BootFrom` | src/utility.rs:387-435 | for every hold and every read behaviour: operations, attempts in order, what the jump rests on and what the application sees; with reliable reads the first loadable partition from the hold's index |
| `Boot.CallStartCpu0` | src/main.rs:74-94 | a table that cannot be read or verified resets with flash untouched, and nothing else does so early; otherwise the boot is as for BootFrom from the table's own state |
| `OtaTransfer.FirmwareStored` | test_app.c:183-211 | erasing and programming leaves exactly the firmware in ota_0 |
| `OtaTransfer.StoreWithin` | test_app.c:183-211 | only sectors inside ota_0 are erased or programmed before the record |
| `OtaTransfer.CutTransfer` | test_app.c:183-214 | until the whole image is stored both OTA sectors are untouched; from then on the image stays and the record is the torn one |
| `OtaTransfer.RecordLands` | test_app.c:131-143 | a record write leaves at 0x3E000 number 1, the state word and its CRC, byte by byte |
| `OtaTransfer.TransferLands` | test_app.c:183-214 | a completed transfer leaves the firmware at 0x20000 and the record bytes at 0x3E000 |
| `OtaTransfer.PartlyStoredIff` | test_app.c:190-211 | a transfer cut while it programs holds the whole firmware if and only if every byte to come is 0xFF |
| `OtaTransfer.OneMoreChunk` | test_app.c:196-209 | programming padded chunks one after the other is programming the padded image |
| `OtaTransfer.WriteOtaDataEntry` | test_app.c:131-143 | erases and writes the record with its CRC and one zero word |
| `OtaTransfer.MarkOtaValid` | test_app.c:148-153 | writes 01 00 00 00 02 00 00 00 and the CRC to 0x3E000 |
| `OtaTransfer.ReceiveChunk` | test_app.c:191-205 | the buffer holds the received bytes, padded with zeros to whole words |
| `OtaTransfer.CmdOta` | test_app.c:167-224 | refuses sizes 0 and above 0x1E000; otherwise leaves exactly the received bytes at 0x20000 and the new record 01 00 00 00 00 00 00 00 with its CRC at 0x3E000, acknowledges each chunk, and writes the record last |
| `OtaSystem.DemoTableIsGood` | build_partition_table.py:24-34 | the demo table passes verification and gives the state used here |
| `OtaSystem.DemoTableDecodes` | build_partition_table.py:24-34 | on a chip holding the bytes the script writes, the bootloader reads exactly the three entries and derives the demo state |
| `Numbers.DemoTableBytes` | build_partition_table.py:24-36 | those bytes, one by one |
| `OtaSystem.BootsArePossible` | src/utility.rs:588-629 | a boot of the demo table starts factory or slot 0 |
| `OtaSystem.BlankIsFine` | build_qemu_flash.py:4-10 | a chip with erased OTA sectors satisfies the invariant and selects factory |
| `OtaSystem.SelectedIffCommitted` | src/utility.rs:288-323 | ota_0 is selected if and only if sector 0 holds a complete new or confirmed record |
| `OtaSystem.BootingRefines` | src/utility.rs:335-509 | a cut boot keeps the invariant and changes nothing of the abstract state |
| `OtaSystem.TransferRefines` | test_app.c:167-224 | a cut transfer spoils the image, completes it, drops the selection, makes it, in that order |
| `OtaSystem.ConfirmRefines` | test_app.c:148-153 | a cut confirmation drops the selection before it makes it again |
| `OtaSystem.RunRefines` | test_app.c:131-224 | every run of boots, transfers and confirmations cut anywhere keeps the invariant and refines the abstract machine |
| `OtaSystem.SelectionOfRun` | src/utility.rs:443-509 | what the next boot selects and what ota_0 holds are decided by the events alone |
| `OtaSystem.BelowOtaIsKept` | test_app.c:100-103 | no run touches bootloader, table or factory image |
| `OtaSystem.SystemNeverBricked` | src/utility.rs:588-629 | with a good factory image, after any run the next boot finds an image |
| `OtaSystem.UpdateSticks` | test_app.c:167-224 | a transfer complete up to the record, or completely, of a good image is what every later boot starts, through any number of interrupted boots |
| `OtaSystem.CompletedTransfer` | test_app.c:167-224 | the flash the transfer command leaves is that of a transfer with no cut |
| `OtaSystem.GateDecides` | src/utility.rs:533-553 | on a stored built image the anti-rollback gate is decided by the first eight payload bytes, padded with zeros |
| `OtaSystem.BuiltLoadsIff` | build_test_app.py:34-64 | a built image in a 16-aligned partition loads if and only if its payload fits one mapping and passes the gate |
| `OtaSystem.BuiltIsSelfContained` | build_test_app.py:34-64 | an image the builder printed is a good one in any 16-aligned partition that holds it |
| `OtaSystem.BuiltUpdateSticks` | test_app.c:167-224 | from build script to boot: transferring a built image whose payload passes the gate, in any reachable state, makes every later boot start slot 0 with exactly that image |
| `OtaSystem.CompletedUpdateSticks` | test_app.c:167-224 | the same for the flash the completed transfer command leaves |
| `OtaSystem.BuiltUpdateBoots` | src/utility.rs:588-629 | and what such a boot does: it jumps to 0x40380000 in slot 0 with the payload in RAM from there on |
| `OtaSystem.TransferKeepsSelection` | test_app.c:183-211 | a transfer over a selected ota_0 keeps it selected at every cut up to the record's own erase |
| `OtaSystem.ErasePhaseFallsBack` | test_app.c:183-187 | cut while it erases, ota_0 does not load and the next boot starts a good factory image |
| `OtaSystem.ProgramPhaseIsWholeIff` | test_app.c:190-211 | cut while it programs, ota_0 holds the firmware if and only if every byte to come is 0xFF |
| `OtaSystem.ErasedImageStaysSelected` | test_app.c:183-187 | the concrete run: one erase into a transfer, ota_0 is still selected over a blank sector |
| `OtaLink.MoveKeeps` | ota_push.py:88-102 | every move of host or device keeps the link invariant |
| `OtaLink.ReachableStates` | ota_push.py:88-102 | the device is never ahead of the host and at most one chunk behind, flash holds a prefix of the firmware, runs are bounded |
| `OtaLink.FinishOnTheWire` | test_app.c:23-29 | the final message as the console routine puts it on the wire: eight bytes |
| `Numbers.LinkCodes` | test_app.c:210-216 | the acknowledgement is a full stop and success is the letters OK |
| `OtaLink.EveryRun` | ota_push.py:88-102 | every run from the ready state: invariant, offsets at most one chunk apart, bounded length |
| `OtaLink.AckNeverLost` | ota_push.py:98-99 | while the host waits, either its chunk is unread in part and no acknowledgement is on the line, or exactly one is |
| `OtaLink.WriteIsStoreChunk` | test_app.c:190-211 | a chunk written on the link is one turn of the receive loop: its flash operations and its one dot |
| `OtaLink.StopsAsCmdOta` | test_app.c:167-224 | where the link stops, the device has performed exactly the operations of the transfer command on the firmware |
| `OtaLink.StopsOnlyWhenDone` | ota_push.py:88-109 | the link stops only when the device holds the whole firmware and wrote its record; the host knows if and only if at most three bytes of the final message were discarded |
| `OtaLink.CoalescedOkIsLost` | ota_push.py:21-34 | a concrete run whose final OK is swallowed behind the last acknowledgement |
| `TestImage.BuildEspImage` | build_test_app.py:34-64 | the loops produce header, segment, least zero padding and the running checksum |
| `TestImage.HeaderIsPacked` | build_test_app.py:43-54 | the header is the packed fields of the script |
| `TestImage.BuiltEntry` | build_test_app.py:43-47 | a built image is entered at 0x40380000 |
| `TestImage.EmptyChecksum` | build_test_app.py:57-64 | without payload the checksum, the last of 48 bytes, is EF |
| `TestImage.LastByte` | build_test_app.py:57-64 | one more payload byte flips its bits in the last byte of the image |
| `TestImage.PaddingEnds` | build_test_app.py:62-63 | the builder's padding loop stops where the loader's mask looks for the checksum |
| `TestImage.BuildThenLoad` | build_test_app.py:34-64 | a built image at a 16-aligned address decodes to itself and is accepted if and only if the payload is at most 4093 bytes |
| `TestImage.LoadedPayload` | build_test_app.py:9 | after the load, RAM from 0x40380000 on is the payload |

## Left out

- Encryption: the loader is modelled on the raw read route, which is the one in use
  (`src/flash.rs:741`); the cached route is modelled as reads of plain cells, and the cipher and the
  encrypted write are not modelled.
- Erases and word writes that are themselves interrupted (half-erased sectors, marginal bits), wear, and
  operations that report failure inside the chip.
- CmdOta: does not model a host that stops sending; that is a transfer cut at the same operation, which
  `CutTransfer` and `OtaSystem` cover. Draining the line before `READY`, `parse_dec` and console text
  are not modelled.
- OtaLink: does not model the host's timeouts, reconnection, the prompt and command phase; it starts
  after `READY` with any of the line's end still under way.
- `load_image`, `bootloader_atexit`, cache disable and resume, RNG and the final jump: the model ends
  with the entry point and the two page maps.
- The loader never compares the image with the partition's size (`src/image.rs:386`), so statements
  about images that must survive ask for images inside their partition (`SelfContained`).
- AdmissibleStoreIsSafe: speaks of the bootloader's code and data between the linker symbols; its stack
  between `_bss_end` and the end of its DRAM is not checked by the code and not claimed.
- BootFrom, TryIndex, LoadBootImage: with unreliable reads a started image is an accepted one and the
  attempts follow the order, but which partition loads is left to the reads; the anti-rollback gate
  fails open when the descriptor cannot be read.
- NeverBricked, NeverDiverted, SelectionIsCrashStable: speak of runs of boots with reliable reads and
  without a factory-reset hold; what one boot with such a hold performs is stated by `CallStartCpu0`.
- `CTX_POOL`, `MMAP_BUF` and the other statics are fields of objects; two callers never interleave.
  The slot, segment and page tables are fields of sequence type that the methods reassign.
- `prev.magic` in the overlap loop of table verification: the loop only sees entries that passed the
  magic test, so the branch is dropped.
- `split` and `trim` for non-ASCII text.
- Secure-boot signatures, key tools and the command line: library cryptography; the boot-time check
  maps 4096 bytes, which `Mmap` always refuses.
- Deep-sleep fast boot and RTC retain memory, GPIO long-hold timing (its outcome is an input), shells,
  UART and USB, SPI registers, flash identification and unlocking, clocks, eFuse reads (constants of a
  run), linker scripts beyond the address ranges, `esp_image_get_flash_size`, `should_map`: easy or
  hardware.
