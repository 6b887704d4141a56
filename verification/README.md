# Boot loader and factory test: a Dafny model

This project models the parts of the Zynq UltraScale+ first-stage boot loader (FSBL) and of the
factory-test application that hold real algorithms, protocols and state machines, and proves what
they are for. Code that updates state in place is modelled by classes and methods with the same
fields, loops and branches; each method is proved against a function of its inputs and its old
state, and the theorems are about those functions and about the histories the objects keep.

| file | what it models |
|---|---|
| `PlDecrypt.dfy` | streaming decryption of an encrypted bitstream, chunk by chunk |
| `PlPartition.dfy` | block-wise authentication: pass one signs off the hashes, pass two re-reads, compares and releases |
| `Qspi.dfy` | address translation for one or two flash chips, the banked 24-bit copy and the 32-bit copy |
| `FlashTest.dfy` | the arithmetic of the flash test on a NOR device: sectors, pages, pattern, configuration table |
| `FlashSequence.dfy` | the flash test in place, with the address mode and the write-enable latch of every chip |
| `Headers.dfy` | partition headers and their validation |
| `Tcm.dfy` | loading into the R5 memories (TCM) with lazy ECC initialisation |
| `PartitionLoad.dfy` | loading a partition, and the hand-off table |
| `StageMachine.dfy` | the main loop, early and regular hand-off |
| `ImageHeader.dfy` | the image header walk, from flash or from its OCM copy, and the ATF table |
| `FactoryProtocol.dfy` | host and board of the factory test as communicating processes |
| `MsgPool.dfy` | the board's message ring |
| `Dfu.dfy` | the USB DFU class requests (sections 6.1.1 and 6.1.2 of the Device Class Specification for Device Firmware Upgrade 1.1) |
| `Bits.dfy`, `Common.dfy` | bitwise operators on words, shared names |

Some conventions. The hardware, the fuses, the secure services and the bus are parameters: functions
of everything they were given so far, or of a running count of requests, so that every theorem is
about every answer they may give. Two reads of the same memory address may differ. Unsigned 32-bit
wrap-around is written out where the code depends on it. An error return is a value of a datatype.
Ghost fields record histories (transfers, loads, releases, requests); `Valid()`-like predicates tie
them to the real fields.

## Where the code falls short of a plain statement

- The next-block test of the decryptor adds the header size twice, where the skip adds header and
  tag. `PlDecrypt.StreamRefines` therefore has an exact condition on where a chunk may end, which is
  read off the byte parser alone (`CleanAt`); a chunk that ends elsewhere loses bytes.
- The number of blocks is kept in a byte. `PlPartition.LastLenExact`: the length computed for a
  partial last block is right exactly when the block number fits it; `PlPartition.TooManyBlocks`
  is the first that does not.
- A striped (parallel) read halves its address, so an odd source starts one byte early:
  `Qspi.OddStripeShifts` says for which requests the copy can be relied on.
- The length test of both copies wraps around: `Qspi.LengthTestWraps` says which requests pass it
  although they leave the flash.
- The 32-bit copy never splits at the boundary of stacked chips: `Qspi.WideReadsAtHome`, and
  `Qspi.WideCopyRollsOver` for what it reads instead.
- Entering four-byte addresses reaches the wrong chips: Spansion chips are switched while only the
  lower one is selected, Micron and ISSI chips get their write enable there.
  `FlashSequence.Tester.PolledFlashExample` has the exact condition, `FlashSequence.SevenRowsFail`
  evaluates it for the configuration table after power-up, and `FlashSequence.StackedSpansionFails`
  is one row.
- An erase that ends with the flash visits one sector more, which is the first one:
  `FlashTest.FlashErased`.
- In the build with early hand-off the loader can leave before the last partition, or without the
  regular hand-off: `StageMachine.Machine.Boot` and `StageMachine.LeavesEarly` say that this happens
  exactly when some partition calls for an early hand-off and there were fewer R5s loaded than such
  calls (`Overdue`); one R5 partition of another owner is enough (`StageMachine.ForeignR5Leaves`).
- `TcmEccInitStatus` is overwritten, not accumulated. `Tcm.KeptIsSafe` gives the exact orders of TCM
  partitions for which no ECC fill destroys loaded bytes; `Tcm.ComingBackDestroys` is the shortest
  other one.
- The length check for TCM partitions looks at the length alone. `Tcm.ArrivesReady`: the bytes meet
  initialised memory exactly when the partition also ends inside the bank it starts in.
- The range test on the partition-present device can never fail: `ImageHeader.DeviceRangeNeverFails`.
- A partition without a destination CPU is announced to ATF as A53-3:
  `ImageHeader.FlagsNameTarget`.
- The host takes a reply to another request for a success. Without duplicated replies this never
  decides a verdict (`FactoryProtocol.RepliesMatch`); `FactoryProtocol.ForeignReplies` says after
  which steps the next reply belongs to another request, and a single duplicate can turn three failed
  tests into a success on both sides (`FactoryProtocol.DuplicateDecides`).
- The board shows success after a failed run exactly when the verdict got lost
  (`FactoryProtocol.LostVerdictShowsGreen`).
- A DFU status request can count a download that brought no data: `Dfu.CountsWithData` has the exact
  request sequences, `Dfu.PairsWithData` those without a detach in plain terms, and
  `Dfu.CountsWithoutData` is the shortest other one.
- Nothing keeps a DFU download inside its buffer: `Dfu.Device.ClassReq` overruns it exactly when the
  lengths since the last block 0 add up to more than it holds (`Inside`).
- A secure partition is measured twice against its TCM bank, without its certificate before the copy
  and with it afterwards. `PartitionLoad.Loader.PartitionLoad`: one that fits without it is copied and
  then refused; `PartitionLoad.RefusedRange` says which ones those are, and
  `PartitionLoad.OneWordTooMany` is the shortest.

Collision resistance of SHA3 is a premise on the run at hand only: the inputs that pass two compared
by their running hash are not a collision (`NoCollision`). Nothing is assumed about other inputs.

## Model

| member | source | states |
|---|---|---|
| PlPartition.OnlySignedBytes | boe_factory_fsbl/src/xfsbl_plpartition_valid.c:337-432 | whatever memory returns on the second read and wherever the run stops, the released bytes are a prefix of the bytes whose signature was checked, and all of them if no block is partial |
| PlPartition.ReleasedOfBlock | boe_factory_fsbl/src/xfsbl_plpartition_valid.c:337-432 | comparing only the running hash after each chunk is enough for one block |
| PlPartition.Partition.PcapGetsSignedBytes | boe_factory_fsbl/src/xfsbl_plpartition_valid.c:164-209 | PCAP has received a prefix of the signed bytes of an unencrypted partition, all of them after a success |
| PlPartition.Partition.AesGetsSignedStream | boe_factory_fsbl/src/xfsbl_plpartition_valid.c:164-209 | for an encrypted partition with cleanly cut chunks the AES engine has been fed, wherever the run stopped, a prefix of what the byte parser makes of the signed bytes, and all of it after a success |
| PlPartition.Partition.ReleasesTheImage | boe_factory_fsbl/src/xfsbl_plpartition_valid.c:164-209 | with steady memory the released bytes are exactly the image between its start and its certificates |
| PlPartition.Partition.SecPlPartition | boe_factory_fsbl/src/xfsbl_plpartition_valid.c:117-228 | the whole call: not secure exactly without authentication or with encryption the build has no AES for, key missing exactly when its key source is; any other failure has its own reason (`Excuse`), for the laid-out partition in one of its blocks: a copy that failed, a certificate that is not trusted or does not sign the block, chunks that read differently, too many of them, or a sink that refused; and a partition read from steady memory that gives none of these reasons is processed to its end. Everything released is accounted for by accepted blocks; on success all of them are complete and tile the data with certificate i beside block i |
| PlPartition.NoExcuse | boe_factory_fsbl/src/xfsbl_plpartition_valid.c:246-317 | block i of a wholesome partition gives no reason for any failure: its copies succeed, its certificate is trusted and signs it, both reads agree, its chunks have slots |
| PlPartition.Partition.NoRefusal | boe_factory_fsbl/src/xfsbl_plpartition_valid.c:164-209 | a sink that takes every beginning of the image refuses nothing that is released, encrypted or not |
| PlPartition.Partition.ReleasedIsCut | boe_factory_fsbl/src/xfsbl_plpartition_valid.c:337-432 | wherever the run stops, what was released is a beginning of the image cut into blocks and chunks |
| PlPartition.Partition.BlockAuthenticate | boe_factory_fsbl/src/xfsbl_plpartition_valid.c:246-317 | one block: the certificate is trusted, the signature covers the chunks of pass one and the certificate, pass two visited the same chunks; refused for want of hash slots exactly when it has more chunks than slots; every failure has its reason (`Excuse`) |
| PlPartition.Partition.HashBlock | boe_factory_fsbl/src/xfsbl_plpartition_valid.c:490-522 | pass one reads consecutive chunks that make up the block and leaves the running hash after chunk i in slot i; it fails only if a copy from the block does |
| PlPartition.Partition.SignVer | boe_factory_fsbl/src/xfsbl_plpartition_valid.c:452-583 | success means the RSA signature of the certificate matches the hash of the chunks followed by the certificate without its signature; each error has its reason in the certificate, the hash or a copy that failed |
| PlPartition.Partition.ReAuthenticate | boe_factory_fsbl/src/xfsbl_plpartition_valid.c:337-432 | pass two releases a chunk only after its running hash was the stored one, in order, with the lengths of pass one; it stops only for a copy that fails, bytes of the block that two reads hash differently, or a sink that refuses |
| PlPartition.ChunkStep | boe_factory_fsbl/src/xfsbl_plpartition_valid.c:355-400 | both passes visit the same chunks: full ones, then the rest of the block, each a multiple of four bytes |
| PlPartition.EightMegabytesFit | boe_factory_fsbl/src/xfsbl_plpartition_valid.c:266-274 | with the boot loader's buffers, of Bootgen's block sizes those up to 8 MB, and no others, have room for their hashes |
| PlPartition.TooManyBlocks | boe_factory_fsbl/src/xfsbl_plpartition_valid.c:176-190 | 256 blocks of 4 MB: the length of the last one comes out wrong |
| PlPartition.ChunkCount | boe_factory_fsbl/src/xfsbl_plpartition_valid.c:254-264 | the computed number of chunks covers the block, with none left over |
| PlPartition.LastLenExact | boe_factory_fsbl/src/xfsbl_plpartition_valid.c:176-190 | for Bootgen's block sizes the length computed for a partial last block is what is left of the data exactly when there are fewer than 256 blocks |
| PlPartition.TilesRead | boe_factory_fsbl/src/xfsbl_plpartition_valid.c:164-209 | blocks that tile the data and read it faithfully join up to the data |
| PlDecrypt.StreamRefines | boe_factory_fsbl/src/xfsbl_plpartition_valid.c:812-915 | if all chunks but the last are cut cleanly, the AES engine has been fed the byte parser's payloads and trailers in order exactly when the last one is too |
| PlDecrypt.ChunkRefines | boe_factory_fsbl/src/xfsbl_plpartition_valid.c:812-915 | one chunk, any number of blocks in it: the code and the byte parser agree exactly when the chunk is cut cleanly; the mutual recursion ends because the chunk shrinks |
| PlDecrypt.OpeningRefines | boe_factory_fsbl/src/xfsbl_plpartition_valid.c:932-996 | the same for the chunk that opens the stream with its secure header |
| PlDecrypt.CuttingIsInvisible | boe_factory_fsbl/src/xfsbl_plpartition_valid.c:812-915 | two ways of cutting the same stream feed the AES engine the same bytes |
| PlDecrypt.ShortTail | boe_factory_fsbl/src/xfsbl_plpartition_valid.c:854-861 | a chunk that ends soon after a trailer is not cut cleanly, and all of its tail is lost |
| PlDecrypt.ParseConcat | boe_factory_fsbl/src/xfsbl_plpartition_valid.c:745-794 | the reference parser does not depend on how its input is cut |
| PlDecrypt.AnnouncedWords | boe_factory_fsbl/src/xfsbl_plpartition_valid.c:745-794 | after a header and tag that announce w words the next 4 * w bytes are payload and the byte behind them begins a header |
| PlDecrypt.NothingAnnounced | boe_factory_fsbl/src/xfsbl_plpartition_valid.c:745-794 | no words announced: the stream is over, whatever follows |
| PlDecrypt.FedAsAnnounced | boe_factory_fsbl/src/xfsbl_plpartition_valid.c:812-915 | the AES engine of a cleanly cut stream is fed the header, its tag, the vector, as much payload as announced and the next header, in this order |
| PlDecrypt.AllSupervised | boe_factory_fsbl/src/xfsbl_plpartition_valid.c:745-915 | the vector is fed back only after the tag was found good, a header follows payload only after PCAP was done, and every result is what the engine said last |
| PlDecrypt.ApprovedSucceeds | boe_factory_fsbl/src/xfsbl_plpartition_valid.c:932-996 | a cleanly cut stream that neither the engine nor PCAP objects to is decrypted to its end |
| PlDecrypt.Decryptor.DecryptPl | boe_factory_fsbl/src/xfsbl_plpartition_valid.c:812-915 | the method on the carried fields computes the specification of a chunk |
| PlDecrypt.Decryptor.DecryptPlChunks | boe_factory_fsbl/src/xfsbl_plpartition_valid.c:932-996 | the same for the entry point, including the opening chunk |
| PlDecrypt.Decryptor.DecryptSetUpNextBlk | boe_factory_fsbl/src/xfsbl_plpartition_valid.c:745-794 | the set-up of the next block computes its specification; where no data is behind the trailer, the vector is fed and the lengths kept are four times the words the engine announces, zero at the end of the stream |
| Qspi.Controller.Copy24 | boe_factory_fsbl/src/xfsbl_qspi.c:593-798 | memory changes only in the destination, where the first bytes of the copy stand; on success all of them; for Micron, Spansion and Macronix chips they are the flat flash contents whatever banks were found, for Winbond and ISSI they are if the registers are right for the request; a request beyond the flash is refused; with a bus that never fails there is no other failure; every transfer is non-empty and inside one bank of one chip |
| Qspi.CopyIsFlat | boe_factory_fsbl/src/xfsbl_qspi.c:593-798 | the 24-bit copy is a flat copy, whatever bank each chip was left in |
| Qspi.RegistersDecide | boe_factory_fsbl/src/xfsbl_qspi.c:437-573 | for Winbond and ISSI a copy is right for all contents exactly when no banks are needed or the register of every byte read happens to be right |
| Qspi.FlatLayout | boe_factory_fsbl/src/xfsbl_qspi.c:364-421 | what flat means: one chip, two one after the other, or two byte by byte |
| Qspi.ReadsAtHome | boe_factory_fsbl/src/xfsbl_qspi.c:437-573 | a byte is read at home exactly when no banks are needed, the make can switch banks, or the register happens to be right |
| Qspi.OddStripeShifts | boe_factory_fsbl/src/xfsbl_qspi.c:655-665 | the copy is right for all contents exactly when the chips are not striped, the source is even, or nothing is asked for |
| Qspi.ChunkServes | boe_factory_fsbl/src/xfsbl_qspi.c:672-683 | a transfer cut by the bank test stays in its bank, moves at least one byte and reads its part of the copy |
| Qspi.MaskFindsBank | boe_factory_fsbl/src/xfsbl_qspi.c:619-630 | the bank mask, doubled or not, finds the beginning of a bank |
| Qspi.Controller.SendBankSelect | boe_factory_fsbl/src/xfsbl_qspi.c:437-573 | Micron, Macronix and Spansion chips that are selected get the bank, the others keep theirs, with the commands of each make in order; Winbond and ISSI chips are left alone; an error means that a command failed |
| Qspi.Controller.GetQspiAddr | boe_factory_fsbl/src/xfsbl_qspi.c:364-421 | chips selected and address on them |
| Qspi.Controller.Copy32 | boe_factory_fsbl/src/xfsbl_qspi.c:977-1119 | all or nothing; the flat contents whenever the request does not cross stacked chips; an error means that it leaves the flash or that a transfer failed |
| Qspi.LengthTestWraps | boe_factory_fsbl/src/xfsbl_qspi.c:611-617 | the length test lets through exactly the requests on the flash and those that end on it after the end of the address space; the latter leave the flash |
| Qspi.WideReadsAtHome | boe_factory_fsbl/src/xfsbl_qspi.c:1001-1025 | byte i is read at home exactly when no chip boundary was crossed by then |
| Qspi.WideCopyRollsOver | boe_factory_fsbl/src/xfsbl_qspi.c:1001-1025 | past the boundary the copy reads the lower chip again, from its beginning |
| Qspi.CopiesAgree | boe_factory_fsbl/src/xfsbl_qspi.c:977-1119 | both copies deliver the same for every request the 24-bit copy gets right that does not cross stacked chips |
| Qspi.StackedBijection | boe_factory_fsbl/src/xfsbl_qspi.c:378-400 | stacked translation is one-to-one onto chip and offset |
| FlashSequence.Tester.PolledFlashExample | boe_factory_test/src/flashtest.c:451-552 | on every NOR device with room at the test address, with any contents, the test passes exactly when no transfer fails and the upper chip is not needed, already takes four address bytes, or can be switched; after a pass the pages hold the pattern and the chips of the test expect three address bytes again |
| FlashSequence.Tester.EnterExit4BAddMode | boe_factory_test/src/flashtest.c:1640-1797 | which chips change their address mode, by make, chip select and write-enable latch |
| FlashSequence.EntryServes | boe_factory_test/src/flashtest.c:1640-1797 | after the lower chip was selected, entering four-byte addresses serves all chips of the test address exactly under that condition |
| FlashSequence.ExitServes | boe_factory_test/src/flashtest.c:1640-1797 | leaving four-byte addresses after the read always serves the chips of the test, whatever the make |
| FlashSequence.SevenRowsFail | boe_factory_test/src/flashtest.c:257-318 | after power-up the condition fails for exactly seven of the rows that reach the test address: stacked Spansion and Micron of 256 Mbit and all parallel ones of these makes |
| FlashSequence.StackedSpansionFails | boe_factory_test/src/flashtest.c:1680-1701 | one of them, where the test address is the first of the upper chip |
| FlashSequence.ClashStep | boe_factory_test/src/flashtest.c:801-835 | a chip that was missed takes the fourth address byte for data, and the shifted pages clear a bit that is never set again |
| FlashSequence.ClashRead | boe_factory_test/src/flashtest.c:1137-1209 | so the first byte read from it is wrong, whatever the flash held |
| FlashSequence.EraseRunDecoded | boe_factory_test/src/flashtest.c:992-1086 | where all selected chips decode their commands, erasing is erasing sectors of the flash |
| FlashSequence.PageStepDecoded | boe_factory_test/src/flashtest.c:770-835 | and writing a page is writing it to the flash |
| FlashSequence.Tester.FlashErase | boe_factory_test/src/flashtest.c:976-1090 | as many turns of select, write enable and erase as sectors are counted, from the first byte's address on |
| FlashTest.FlashErased | boe_factory_test/src/flashtest.c:976-1086 | of a range on the flash the sectors it touches are erased, the one behind it if it ends on a boundary, and the first of the flash if it ends with the flash |
| FlashTest.EraseCovers | boe_factory_test/src/flashtest.c:976-990 | for every power-of-two sector size the sectors visited cover the range, with one too many exactly when it ends on a sector boundary |
| FlashTest.SectorCountExact | boe_factory_test/src/flashtest.c:976-990 | the counted sectors run to that of the byte after the range, even where the addition wraps |
| FlashTest.SectorsErased | boe_factory_test/src/flashtest.c:992-1086 | erasing through chip addresses sets exactly the bytes of the visited sectors of the whole flash; one past the end is the first |
| FlashTest.AddressWraps | boe_factory_test/src/flashtest.c:1573-1621 | an address past the end leads back to the beginning in every connection mode |
| FlashTest.PageWritten | boe_factory_test/src/flashtest.c:770-886 | a page-aligned write that all selected chips decode clears exactly the bits of its bytes, through any connection mode |
| FlashTest.ReadsBack | boe_factory_test/src/flashtest.c:1113-1209 | after the erase and 32 pages the read returns one unbroken pattern |
| FlashTest.TranslationsAgree | boe_factory_test/src/flashtest.c:1573-1621 | the bit-test translation equals the compare-and-subtract one on every address of the flash |
| FlashTest.TableSound | boe_factory_test/src/flashtest.c:257-318 | every row of the configuration table is consistent, and reaches the test address exactly when the flash is larger than 32 MB |
| Bits.AndRoundsDown | boe_factory_test/src/flashtest.c:984-988 | a mask of ones above bit k rounds an address down to a multiple of 2^k |
| Bits.HalfBit | boe_factory_test/src/flashtest.c:1584-1592 | below twice a power of two, its bit tells the upper half and clearing it subtracts it |
| Headers.TargetIsCpu | boe_factory_fsbl/src/xfsbl_image_header.c:602-881 | a partition that passes validation targets one of eight CPUs |
| Headers.AcceptedExactly | boe_factory_fsbl/src/xfsbl_image_header.c:602-881 | a partition is passed over as another owner's, or passes all checks, exactly under these conditions |
| Headers.ValidAddressExactly | boe_factory_fsbl/src/xfsbl_image_header.c:478-560 | the addresses a partition may be loaded to |
| Headers.FieldsReadBack | boe_factory_fsbl/src/xfsbl_image_header.h:147-158 | each attribute field reads back from its place in the attribute word |
| Tcm.KeptIsSafe | boe_factory_fsbl/src/xfsbl_initialization.c:1584-1681 | no ECC fill overwrites bytes loaded before it exactly when a lockstep partition comes first, or there is none and each R5 is loaded in one piece |
| Tcm.EagerIsSafe | boe_factory_fsbl/src/xfsbl_initialization.c:1696-1735 | in the build that fills all banks first no order destroys anything |
| Tcm.ContiguousIsSafe | boe_factory_fsbl/src/xfsbl_initialization.c:1584-1681 | in particular for images that load each R5 in one piece and do not mix split and lockstep |
| Tcm.ArrivesReady | boe_factory_fsbl/src/xfsbl_partition_load.c:671-789 | whatever was loaded before, the bytes of a TCM partition meet filled memory exactly when it ends in the bank it starts in |
| Tcm.RemappedIsRecognised | boe_factory_fsbl/src/xfsbl_partition_load.c:566-651 | a valid load address is remapped exactly when the memory set-up recognises it |
| Tcm.RemapPlace | boe_factory_fsbl/src/xfsbl_partition_load.c:566-651 | a low address leads to bank A or B of its R5 at the same offset, for the lockstep pair to one of the four banks in the order A0, A1, B0, B1 |
| Tcm.RunTruthful | boe_factory_fsbl/src/xfsbl_partition_load.c:702-780 | a status bit that is set means that both banks of that R5 are filled, and fills never leave the banks |
| Tcm.FillHits | boe_factory_fsbl/src/xfsbl_initialization.c:1608-1662 | a lockstep fill hits all TCM loads; one of a single R5 hits its own loads and the lockstep loads that reach its banks |
| Tcm.ComingBackDestroys | boe_factory_fsbl/src/xfsbl_initialization.c:1671 | R5-0, R5-1, R5-0: the second fill of R5-0 destroys what was loaded for it |
| Tcm.TransfersTile | boe_factory_fsbl/src/xfsbl_initialization.c:1422-1520 | for every length the DMA transfers follow one another without gap, none empty or longer than the limit, and fill the range |
| Tcm.FillsExactly | boe_factory_fsbl/src/xfsbl_initialization.c:1584-1681 | which bytes a fill initialises: both banks of a single R5, the four of the lockstep pair, without the first 32 bytes of R5-0 while the loader is not on A53-0 |
| Tcm.ModeFollows | boe_factory_fsbl/src/xfsbl_partition_load.c:671-789 | the mode of the R5s follows the CPU of the last partition for their TCM, and never changes for the loader's own |
| PartitionLoad.TableIsExact | boe_factory_fsbl/src/xfsbl_partition_load.c:1605-1620 | the hand-off table of an image has one entry per CPU that a loaded partition targets; entry k has the CPU, the execution state and the execution address of the first such partition; and at most eight entries |
| PartitionLoad.LoadedExactly | boe_factory_fsbl/src/xfsbl_partition_load.c:803-966 | which partitions leave an entry, and of which bytes are copied |
| PartitionLoad.JobExactly | boe_factory_fsbl/src/xfsbl_partition_load.c:803-966 | what is copied, and to where: all words but the authentication certificate, to the load address, a bitstream without one to DDR |
| PartitionLoad.AtMostEight | boe_factory_fsbl/src/xfsbl_main.h:108 | distinct CPUs fit the ten slots, with room for any CPU still missing |
| PartitionLoad.ImageKeepsTcm | boe_factory_fsbl/src/xfsbl_partition_load.c:946-966 | the TCM theorems for the headers of a whole image |
| PartitionLoad.EntryKeepsCpu | boe_factory_fsbl/src/xfsbl_partition_load.c:1610-1616 | CPU and execution state can be read back from the packed settings |
| PartitionLoad.Loader.CheckHandoffCpu | boe_factory_fsbl/src/xfsbl_partition_load.c:319-344 | the search says whether the CPU has an entry |
| PartitionLoad.Loader.UpdateHandoff | boe_factory_fsbl/src/xfsbl_partition_load.c:1605-1620 | an entry is added for a CPU without one, and only then, with the header's CPU, execution state and execution address; the array index stays in bounds |
| PartitionLoad.Loader.EccInit | boe_factory_fsbl/src/xfsbl_initialization.c:1422-1520 | on success the transfers it made tile the range in order, none longer than the limit |
| PartitionLoad.Loader.TcmEccInit | boe_factory_fsbl/src/xfsbl_initialization.c:1584-1681 | banks filled and status word after it |
| PartitionLoad.Loader.ConfigureMemory | boe_factory_fsbl/src/xfsbl_partition_load.c:671-789 | mode, status and fills after it |
| PartitionLoad.Loader.PartitionCopy | boe_factory_fsbl/src/xfsbl_partition_load.c:803-966 | what an XIP, PL or ordinary partition leaves in the table and in memory |
| PartitionLoad.Loader.PartitionValidation | boe_factory_fsbl/src/xfsbl_partition_load.c:1091-1625 | an entry is added for every partition but PL and PMU ones that pass; a secure one also fits its TCM bank with its certificate |
| PartitionLoad.Loader.PartitionLoad | boe_factory_fsbl/src/xfsbl_partition_load.c:140-235 | a successful load extends table and memory as specified, an added entry holds CPU, execution state and execution address of the header, and both length checks were met; a header error is reported exactly for the header that has it, any other error has its cause, and hardware that answers leaves no outcome but the specified one; a partition refused for its length is in memory exactly when only the second check refuses it; the table stays well-formed |
| PartitionLoad.RefusedRange | boe_factory_fsbl/src/xfsbl_partition_load.c:566-651 | refused after the copy are exactly the authenticated partitions that exceed their TCM bank by no more than the certificate |
| PartitionLoad.OneWordTooMany | boe_factory_fsbl/src/xfsbl_partition_load.c:566-651 | a header one word longer than the bank of R5-0, certificate included, is such a partition |
| StageMachine.Machine.Boot | boe_factory_fsbl/src/xfsbl_main.c:81-326 | the main loop ends; loads are 1, 2, ... in order, once each; the run ends over JTAG without a load, or locked down after a failure that it names and that has its cause, or with all loads up to the first overdue partition, and with the regular hand-off exactly when none is overdue; that one jumps to the execution address of the first partition loaded for the CPU of the loader, in its execution state, and without a hand-off address exactly if there is none; for planned images releases are unique, in time and complete |
| StageMachine.Machine.RunsThrough | boe_factory_fsbl/src/xfsbl_main.c:81-326 | if initialisation succeeds, every partition loads, power management and CPUs answer, and no application of the own CPU differs in execution state, the run ends with the loader leaving |
| StageMachine.JumpIsRight | boe_factory_fsbl/src/xfsbl_handoff.c:1037-1051 | the jump at the end of a hand-off, read off the partition headers alone |
| StageMachine.RunningClash | boe_factory_fsbl/src/xfsbl_handoff.c:945-968 | an entry of the running CPU is refused only if the first partition loaded for it differs from the loader in execution state |
| StageMachine.NoClash | boe_factory_fsbl/src/xfsbl_handoff.c:945-968 | and is not refused only if that one does not |
| StageMachine.LeavesEarly | boe_factory_fsbl/src/xfsbl_main.c:202-217 | a flash boot that no failure stops loads all partitions exactly when none before the last is overdue |
| StageMachine.CountedEarly | boe_factory_fsbl/src/xfsbl_handoff.c:839-1000 | for every image the early hand-off finds an entry exactly when the partition is not overdue |
| StageMachine.PlannedNeverOverdue | boe_factory_fsbl/src/xfsbl_handoff.c:1094-1146 | no partition is overdue when each R5 is loaded in one piece by the loader itself |
| StageMachine.ForeignR5Leaves | boe_factory_fsbl/src/xfsbl_main.c:202-217 | with an R5 partition of another owner in front, the A53 partition behind it is never loaded |
| StageMachine.Machine.BootKeepsTcm | boe_factory_fsbl/src/xfsbl_main.c:166-234 | after a run that no failure stopped no TCM partition was overwritten by an ECC fill exactly when the partitions it loaded keep the order |
| StageMachine.QuietLoad | boe_factory_fsbl/src/xfsbl_handoff.c:1094-1146 | a load that ends no R5 keeps the schedule: entries before the static index are started, those behind it are not |
| StageMachine.EarlyLoad | boe_factory_fsbl/src/xfsbl_handoff.c:839-1000 | after the last partition of an R5 the early hand-off finds exactly its entry, starts it in time, and the index never passes an R5 that is not started |
| StageMachine.NextEarlyIsOurs | boe_factory_fsbl/src/xfsbl_handoff.c:839-1000 | the first early entry from the index on belongs to the R5 just loaded, and it is the last one |
| StageMachine.EarlyIsLast | boe_factory_fsbl/src/xfsbl_handoff.c:1094-1146 | the check by the next partition's CPU means that no later partition is for this R5 |
| StageMachine.EarlyDueExactly | boe_factory_fsbl/src/xfsbl_handoff.c:1094-1146 | in the build that has it, an early hand-off is due exactly after a partition for an R5 other than the loader's that the next partition is not for; the default CPU plays no part |
| StageMachine.EarlySucceeds | boe_factory_fsbl/src/xfsbl_main.c:258-285 | what follows an early hand-off: the next load, or the regular hand-off after the last one |
| StageMachine.RegularFinishes | boe_factory_fsbl/src/xfsbl_handoff.c:839-1000 | the regular hand-off leaves every CPU of the table but the running one released, once and after all loads |
| StageMachine.LoadSucceeds | boe_factory_fsbl/src/xfsbl_main.c:188-233 | what follows a load: an early hand-off exactly when it is due, else the next load, and the regular hand-off only after the last partition of the image, with none overdue |
| StageMachine.Machine.EarlyLoop | boe_factory_fsbl/src/xfsbl_handoff.c:839-990 | which entry an early call handles, what it returns, where it leaves the index |
| StageMachine.Machine.RegularLoop | boe_factory_fsbl/src/xfsbl_handoff.c:839-1050 | the releases of a regular call, in table order, and the exit to the entry of the running CPU, if there is one; it stops before the end only at an entry that is refused, and never passes an entry of the running CPU that differs in execution state |
| StageMachine.Machine.LoadTurn | boe_factory_fsbl/src/xfsbl_main.c:166-234 | stage 3: the next partition, the hand-off, or the error stage |
| StageMachine.Machine.HandoffTurn | boe_factory_fsbl/src/xfsbl_main.c:236-285 | stage 4: back to loading, once more with the regular hand-off, gone, or failed |
| ImageHeader.OcmReadIsFlashRead | boe_factory_fsbl/src/xfsbl_image_header.c:344-465 | for every image whose header chain lies in the copied range, reading the OCM copy with rebased offsets gives the table and headers that flash holds |
| ImageHeader.OcmWalkIsFlashWalk | boe_factory_fsbl/src/xfsbl_image_header.c:390-462 | the same for the chain from any of its headers on |
| ImageHeader.HeadersAreLinked | boe_factory_fsbl/src/xfsbl_image_header.c:376-462 | the first header stands at the word offset in the table, every other one at the word offset in the header before it |
| ImageHeader.HeaderLayout | boe_factory_fsbl/src/xfsbl_image_header.h:254-272 | which of the sixteen words in memory is which field of a partition header |
| ImageHeader.TableLayout | boe_factory_fsbl/src/xfsbl_image_header.h:238-248 | and of the image header table |
| ImageHeader.WordsReadBack | boe_factory_fsbl/src/xfsbl_image_header.h:238-272 | the words read are exactly those whose bytes stand in memory, the least significant first |
| ImageHeader.TableExactly | boe_factory_fsbl/src/xfsbl_image_header.c:232-299 | each outcome of the validation of the table, and when it comes |
| ImageHeader.QualifyingIndices | boe_factory_fsbl/src/xfsbl_image_header.c:905-930 | the partitions listed for ATF are exactly those with index above 1, an execution address and an A53 target, in order, with entry point and flags |
| ImageHeader.Reader.ReadImageHeader | boe_factory_fsbl/src/xfsbl_image_header.c:327-475 | on success the chain of all partitions, and for ATF exactly the first eight with index above 1, an execution address and an A53 target; a table that is refused or a header that cannot be read fails the call, with the status of its cause, and nothing else does |
| ImageHeader.FlagsDecode | boe_factory_fsbl/src/xfsbl_image_header.c:905-913 | the packed flags decode back to execution state, endianness, security and exception level |
| ImageHeader.FlagsNameTarget | boe_factory_fsbl/src/xfsbl_image_header.c:916-930 | the CPU number decodes to the target exactly when the header names a CPU |
| ImageHeader.ValidateChecksum | boe_factory_fsbl/src/xfsbl_image_header.c:167-214 | the loop decides whether the last word is the complement of the 32-bit sum of the others |
| ImageHeader.OneWordIsNoticed | boe_factory_fsbl/src/xfsbl_image_header.c:167-214 | the checksum notices every change of a single word |
| ImageHeader.DeviceRangeNeverFails | boe_factory_fsbl/src/xfsbl_image_header.c:251-272 | no table is refused for its device; a success means the same device and 2 to 32 partitions |
| FactoryProtocol.VerdictsAgree | factory_test/ftest.c:185-233 | for every interleaving, loss and timeout, as long as the verdict and the final request are delivered, the board stops with success exactly when the host returns 0, and then has passed the connection, the DRAM, the flash and the ECC test; once the host is done and its requests have arrived the board has stopped |
| FactoryProtocol.LostVerdictShowsGreen | factory_test/ftest.c:209-233 | whatever is lost or comes twice, a board that stops shows success exactly when the host returns 0 or some step of the run lost the verdict |
| FactoryProtocol.ForeignReplies | factory_test/ftest.c:124-145 | in every run, with losses and duplicates, the next reply belongs to another request exactly when an observer that counts frames by the steps alone has one of the earlier requests left |
| FactoryProtocol.RepliesMatch | factory_test/ftest.c:106-145 | in the main sequence every reply read carries the pid just sent |
| FactoryProtocol.HostProgram.RunTests | factory_test/ftest.c:185-233 | the sequential program, whatever each wait ends with, makes the requests and returns the value of the host in the protocol |
| FactoryProtocol.HostProgram.Do | factory_test/ftest.c:106-145 | one request with a fresh pid, and what its answer counts for |
| FactoryProtocol.BoardProgram.MainLoop | boe_factory_test/src/main.c:44-104 | the board's loop serves its messages like the board of the protocol, drops frames that fail the check, and stops green exactly with the verdict 0 |
| FactoryProtocol.ServedExactly | boe_factory_test/src/main.c:44-104 | the board answers exactly the intact messages up to the first final request, in order, each with its pid and what its test returned |
| FactoryProtocol.StepKeeps | boe_factory_test/src/main.c:44-97 | every step of host, board and network keeps the invariant |
| FactoryProtocol.DuplicateDecides | factory_test/ftest.c:124-145 | with one duplicated reply there is a run in which every test fails and both sides report success |
| MsgPool.PushRefines | boe_factory_test/src/community.c:209-223 | in a ring of any size a push appends to the queue and leaves the slot last handed out alone |
| MsgPool.FetchRefines | boe_factory_test/src/community.c:283-290 | a fetch takes the head of the queue and hands out its slot |
| MsgPool.ReceivedKeepsOrder | boe_factory_test/src/community.c:141-175 | a receive keeps the first frames that fit, in order, and skips empty ones |
| MsgPool.Pool.Push | boe_factory_test/src/community.c:209-223 | in place: appended, or refused when full; first in, first out over the life of the pool |
| MsgPool.Pool.FifoReceive | boe_factory_test/src/community.c:141-175 | the receive loop, and the slot last handed out survives it |
| MsgPool.Pool.Fetch | boe_factory_test/src/community.c:270-298 | the oldest message of all polls so far, in its slot, or none after the timeout |
| Dfu.Device.ClassReq | boe_factory_fsbl/src/xfsbl_dfu_util.c:706-782 | after every history the buffer begins with the payloads since the last block 0, as many bytes as counted, unless it was overrun, which it was exactly if their lengths say so |
| Dfu.Device.SetIntf | boe_factory_fsbl/src/xfsbl_dfu_util.c:677-693 | the interface setting as one step of the machine |
| Dfu.Device.SetState | boe_factory_fsbl/src/xfsbl_dfu_util.c:580-645 | each requested state with its fall-through |
| Dfu.CountsAreSeparated | boe_factory_fsbl/src/xfsbl_dfu_util.c:744-756 | a fresh entry to DFU_IDLE, and which request made it, separates any two counted downloads |
| Dfu.DoneIsCounted | boe_factory_fsbl/src/xfsbl_dfu_util.c:744-756 | the counter is the number of status requests in DFU_IDLE |
| Dfu.CountsWithData | boe_factory_fsbl/src/xfsbl_dfu_util.c:706-782 | every counted download has brought data exactly for the request sequences an observer of the requests accepts: no status request while ready to count and without data since the last count |
| Dfu.PairsWithData | boe_factory_fsbl/src/xfsbl_dfu_util.c:706-782 | without a detach, that is: between any two pairs of an empty download or interface selection and a status request, and before the first, a download with data |
| Dfu.CountsArePairs | boe_factory_fsbl/src/xfsbl_dfu_util.c:744-756 | without a detach, exactly these pairs count |
| Dfu.CountsAtOnce | boe_factory_fsbl/src/xfsbl_dfu_util.c:744-756 | a count follows at once on the detach, empty download or interface setting that made the device ready |
| Dfu.CountsWithoutData | boe_factory_fsbl/src/xfsbl_dfu_util.c:744-756 | two requests without data are enough for a count |

## Left out

- RSA, SHA3, AES, CSU DMA and PCAP internals are functions of the bytes they are fed; the SHA2 block path is not part of this model, the code calls it unsupported.
- PlDecrypt.StreamRefines: chunks are whole words and shorter than 2^32 - 96 bytes; an opening chunk shorter than header and tag, whose remaining length wraps in the code, ends the model's run with its own status.
- PlDecrypt.Decryptor.DecryptPlChunks: the AES engine and PCAP are deterministic functions of everything fed to them.
- PlPartition.Partition.SecPlPartition: the caller's buffers have the sizes of `xfsbl_bs.h`, word-multiple lengths below 2^32 and the number of hashes that fits the store, as the only caller sets them; addresses do not wrap.
- PlPartition.Partition.AesGetsSignedStream: says nothing about a run with a chunk that is not cut cleanly.
- Qspi.Controller.Copy24: for stacked chips smaller than a bank (64 Mbit) the request must not cross them; the sum of source and length stays below 2^32; an offset beyond a chip wraps inside it.
- Qspi.Controller.Copy32: the sum of source and length stays below 2^32.
- Qspi.Controller.Read24: a read that fails leaves memory as it was, where a failed DMA may have written part of the destination; the same holds for the 32-bit read.
- FlashSequence.Tester.FlashErase: an erase of exactly the whole flash, which uses bulk or die erase, is not modelled; the range must lie on the flash.
- FlashSequence.Tester.PolledFlashExample: the row of the configuration table describes the chips; how often a status register is polled is not modelled (one transfer stands for a wait). A chip that expects three address bytes ignores an erase with four, takes the fourth for data in a page program, and counts it as dummy clocks in a read; the sources leave that to the data sheets.
- Headers.TargetIsCpu: the memory map is that of the default build (2 GB of PS DDR, no PL DDR and no upper DDR).
- Tcm.KeptIsSafe: for a loader on the A53 whose other partitions stay clear of the TCM addresses; a loader on an R5, with its own vectors in TCM, is not modelled beyond the 32 bytes its fills leave out.
- PartitionLoad.Loader.PartitionLoad: secure services, PL configuration and the PMU wake-up answer success or failure; resets, clocks and power registers are not modelled. DDR ECC initialisation is left out.
- StageMachine.Machine.Boot: initialisation, header reading and the hooks answer success or failure; partitions are read from the primary boot device; halting exits and the error lock-down end the run.
- StageMachine.Machine.HandoffTurn: reset vectors and power settings are not modelled beyond the order of the releases; the address a released CPU starts at is that of its table entry (`PartitionLoad.TableIsExact`), the loader's own jump is part of its exit.
- ImageHeader.OcmReadIsFlashRead: image offset, table offset and size do not wrap; authentication of the copy is not modelled.
- FactoryProtocol.VerdictsAgree: the interleaving is modelled on values, with the functions the two programs are proved against; the verdict and the final request are delivered, in order, and replies are not duplicated (`FactoryProtocol.LostVerdictShowsGreen` is for all other runs); raw sockets and the retransmission they lack are not modelled.
- MsgPool.Pool.FifoReceive: frames fit their slot; word-wise copying and zero padding are not modelled.
- Dfu.Device.ClassReq: what an overrun overwrites; descriptors, endpoint retries and USB reset events are not modelled.
- The interface with ATF beyond the table, the vector backup of R5 builds, performance timing and debug output.
- NAND, SD, USB descriptors, the SD, memory and network tests, the LEDs, and the board support package: drivers, or loops that would only add easy members.
- Bits.HalfBit: addresses are natural numbers and `And` works bit by bit; the other operators of C appear as bit vectors or as arithmetic.
