# Verified models of the recovery's algorithms and protocols

This project states in Dafny what the self-contained algorithms and protocols of the recovery do, and proves
what they are for. The models take the form of the code: a class with the fields of the original and methods
with its loops where the code changes state, functions where it computes. Each such method is proved equal to a
function of its old state, and the laws are proved about those functions and about whole runs of them.

| files | what they model |
|---|---|
| `Sideload`, `SideloadProgram`, `SideloadRereads`, `SideloadContents` | the block cache of the sideload file system over a host that may send anything, with a pinned digest for each block and 32-bit offset arithmetic, and what readers get of a host that has the file |
| `SequenceLock` | one writer and any number of readers of a property, interleaved byte by byte |
| `PropertyArea`, `PropertyMemory`, `PropertyService` | the property table, its layout in 32768 bytes of memory, and the program that works on those bytes |
| `TableWalk`, `TableReaders` | readers that look names up while the service stores into the table, interleaved word by word and byte by byte |
| `BootControl`, `CommandLine`, `Recovery`, `RecoveryRuns`, `Retries`, `RetryCounts`, `RetryBounds`, `RetryExcess`, `BootProgram` | bootloader control block, command file, factory reset and update retries, with a loss of power between any two steps |
| `FindFile`, `DataWipe`, `Paths`, `Exclusions` | search in a file system with link cycles, recursive deletion that spares excluded paths, spellings of paths, folder sizes |
| `Der`, `Asn1Decoder` | a cursor over DER (ITU-T X.690) |
| `CText`, `Scanners`, `Rendering`, `GrowingPass`, `Growing`, `StrReplace` | replacing text inside one buffer, its two scanners and its two passes |
| `FlagParser`, `FlagProgram`, `FlagTable` | fstab flags: cutting a list into tokens and looking them up |
| `Settings`, `InfoManagers`, `DataManagers` | the settings file and the three layers of settings |
| `TarStream`, `TarWriters` | the buffered tar writer |

## Where the code does something else than it says

* `fuse_sideload.cpp:24-33` promises that each position always reads the same. A read that fails in the host
  has already changed the buffer (lines 258-262), while `curr_block` still names the block that was there.
  `SideloadRereads.RunRereadsExactlyWhen` says exactly when the promise survives one more request after a run,
  `SideloadProgram.FailureBreaksTheInvariant` reads 7 and then 9 at one position, and the theorems about runs hold
  when no fetch fails while a block is cached, or for every host once `curr_block` is reset before the host is
  asked (the parameter `early`). The comment names EINVAL; the code returns EIO (line 288), and so does the model.
* The comment at `recovery.cpp:160-170` lists the erasures of a factory reset and then the clearing of the control
  block. `wipe_data` may fail, and the control block is cleared all the same: `Recovery.FailedWipeIsForgotten` ends in
  the main system with nothing left to be done and the data still there, and `Recovery.WipeBootErasesExactlyWhen` says
  when the data are gone. With `--reason=convert_fbe`, `erase_volume` reports success without formatting when its marker
  cannot be made (lines 582-590), so that `wipe_data` reports a success that did not happen (`Recovery.ReportedButKept`).
* `update_bootloader_message` cuts what does not fit, and each option at its first NUL;
  `BootControl.ReadBackExactlyWhen` gives the exact condition. The retry count is appended behind the other options, so
  an option that is still waiting for its value takes it (`BootControl.CountTakenForValue`), and an option that fills
  the field leaves no room for it (`RetryCounts.CountCutOff`); `RetryCounts.RetryReadBackExactlyWhen` says when the
  next boot reads it.
* `recovery.cpp:117-119` promises five attempts at most. A command that fills the control block is tried 200 times
  (`RetryExcess.LimitExceeded`), because its count is cut off each time. There is an end to the retries of every
  command all the same, because each round stores the program's name once more (`RetryBounds.RetriesAlwaysEnd`).
* For file sizes beyond 4 GiB the 32-bit product asks the host for too much, as in `SideloadProgram.LastByteOverasked`;
  `SideloadProgram.FetchSizeExactlyWhen` and `SideloadProgram.FetchesCoverFileExactlyWhen` give the exact conditions.
  In such a file, what the buffer held before shows behind the end of the file, where `fuse_sideload.cpp:306-312` promises
  zeros (`SideloadContents.OldBufferShows`), and where the block count does not fit into 32 bits, blocks are missing
  (`SideloadContents.MissingBlocks`). `SideloadContents.ServesFilesExactlyWhen` says which files are served as they are.
* `safestrap-functions.c:31-34` promises to replace all occurrences. The scanners do not try a mismatching character
  again: "ab" in "aab" is missed forwards and found backwards. `Rendering.FindsLeftmostExactlyWhen` shows that all
  occurrences are found in all strings only for needles that repeat one character. A growing replacement scans
  forwards to measure and backwards to write, and where the two differ it corrupts text or leaves the buffer:
  `Growing.TextCorrupted` turns "aab" into "xyz", `Growing.ReadInFront` reads in front of the buffer.
  `Growing.GrowingIsRightExactlyWhen` gives the exact condition, and only needles of one character are
  immune in all strings (`Scanners.ScansAgreeExactlyWhen`).
* The same comment promises a result that fits into `haystacksize` with its terminator. Line 102 accepts one that
  fills the buffer, and its terminator is written behind it (`Growing.FullBufferOverflows`,
  `Growing.CapacityKeptExactlyWhen`).
* `S_IFDIR` is tested as a bit at `exclude.cpp:82`, so block devices count as directories; the model does the same.
* Behind a flag name that ends in "=", a second "=" is lost (`FlagParser.SecondEqualsIsLost`).
* A `%`-wrapped name is stored as it is and looked up without its `%`, so it cannot be read back
  (`DataManagers.SetThenGetExactlyWhen`, and `DataManagers.WrappedNameIsLost` for "%x%").
* Rule 4 at `legacy_properties.h:86` says "goto 2" without a new read of the serial. The model has both readers: those
  that go on with the serial just compared, and those that keep their old one.

## Model

| member | source | states |
|---|---|---|
| `SideloadProgram.PackageReadsTheSame` | fuse_sideload.cpp:24-33 | over every sequence of read requests and any bytes the host sends, two successful replies agree on every position they share, provided no fetch fails while a block is cached, or the cached block number is reset before the host is asked |
| `SideloadProgram.FailureBreaksTheInvariant` | fuse_sideload.cpp:258-262 | a run of three reads in which one position reads 7 and then 9, because a fetch in between failed |
| `SideloadRereads.RunRereadsExactlyWhen` | fuse_sideload.cpp:24-33 | after any run whose fetches are safe, all reads inside of the cached block are answered as before one more request of any kind, if they are answered, whatever bytes the host sends for it, if and only if that request does not make the host fail while the block is cached, by its first fetch or by its second |
| `SideloadRereads.RereadsTheSameExactlyWhen` | fuse_sideload.cpp:242-359 | the same for every state that keeps the invariant |
| `SideloadRereads.HarmlessKeeps` | fuse_sideload.cpp:242-359 | a request that does no harm leaves pins, digests and the cached block in order |
| `SideloadRereads.DeliveredAsBefore` | fuse_sideload.cpp:279-293 | any part of a pinned block is delivered as it was or not at all, even from a cache whose current block is spoilt |
| `SideloadRereads.HarmfulChanges` | fuse_sideload.cpp:258-262 | a request that makes the host fail can leave any first byte in the cached block |
| `SideloadContents.ServesFilesExactlyWhen` | fuse_sideload.cpp:242-359 | every run of reads answered by a host that has the file replies with exactly the bytes of the file, and zeros behind its end, whatever file and buffer hold, if and only if the block count fits into 32 bits and no partial block starts at 4 GiB or later; nothing is assumed of the hash |
| `SideloadContents.RunServesTheFile` | fuse_sideload.cpp:296-359 | the same for every state in which the cached block and the stored digests are those of the file: each read succeeds, inside of a block, across two, and past the end |
| `SideloadContents.HonestRead` | fuse_sideload.cpp:296-359 | one such request |
| `SideloadContents.MissingBlocks` | fuse_sideload.cpp:382 | where the block count is truncated, a read behind the last block that is counted gives zeros instead of the file |
| `SideloadContents.OldBufferShows` | fuse_sideload.cpp:253-261 | where a partial block starts at 4 GiB or later, what the buffer held shows behind the end of the file |
| `SideloadContents.FirstReadWithin` | fuse_sideload.cpp:335-340 | from any state that keeps the invariant, a first read inside of one block returns the bytes that the host sent, from the offset on |
| `SideloadContents.FirstReadAcross` | fuse_sideload.cpp:341-353 | a first read across two blocks returns the end of the first answer and the beginning of the second |
| `SideloadContents.FirstFetchDelivers` | fuse_sideload.cpp:253-293 | the first fetch of a block is accepted, and caches and pins the bytes asked for, followed by zeros |
| `SideloadContents.NextFetchVerdict` | fuse_sideload.cpp:279-291 | a block that was read before is accepted exactly when the bytes asked for are the same; otherwise the result is -5 and nothing is cached |
| `SideloadContents.AskedBytesArrive` | fuse_sideload.cpp:253-261 | after a fetch that asks the host, failing or not: its bytes in front, the old buffer where it sent less, zeros behind what was asked for |
| `Sideload.AnsweringHostIsSafe` | fuse_sideload.cpp:261-262 | with a host that never fails every run is safe |
| `Sideload.EachPositionReadsTheSame` | fuse_sideload.cpp:24-33 | the same law for any sound offset arithmetic |
| `Sideload.RunServesOneFile` | fuse_sideload.cpp:242-359 | every successful reply of a run, from the cache or across two blocks, has the requested length and agrees byte for byte with the one zero-padded file that the run has pinned, and pinned blocks never change |
| `Sideload.ReadKeepsInv` | fuse_sideload.cpp:296-359 | one request keeps the cache invariant, only adds pins, and its reply agrees with the pinned file |
| `Sideload.FetchKeepsInv` | fuse_sideload.cpp:242-294 | a fetch keeps the invariant, only adds pins, and on success caches the block asked for |
| `Sideload.FetchKeepsInvExactlyWhen` | fuse_sideload.cpp:243-262 | one fetch keeps the cache invariant for every content of the host's answer if and only if the host is not asked, does not fail, or nothing is cached |
| `Sideload.FailedFetchBreaks` | fuse_sideload.cpp:258-262 | a failing host can leave the cache showing bytes that the cached block never had |
| `Sideload.CheckVerdict` | fuse_sideload.cpp:279-293 | a block is accepted if and only if it is new or unchanged |
| `Sideload.CheckKeepsInv` | fuse_sideload.cpp:264-293 | comparing and storing digests keeps the invariant and every pinned block |
| `SideloadProgram.BlockOffsetIsRemainder` | fuse_sideload.cpp:332 | the offset in a block is the offset modulo the block size, although product and difference wrap at 32 bits |
| `SideloadProgram.GeometryIsSound` | fuse_sideload.cpp:320-353 | for every legal block size the 32-bit arithmetic places consecutive bytes side by side, across block borders and past the wrap |
| `SideloadProgram.FetchSizeExactlyWhen` | fuse_sideload.cpp:253-257 | the host is asked for min(block size, bytes left) if and only if the block is whole or starts below 4 GiB |
| `SideloadProgram.FetchesCoverFileExactlyWhen` | fuse_sideload.cpp:253-257 | the bytes asked for in all blocks add up to the file size if and only if the block count was not truncated and no partial block starts at 4 GiB or later |
| `SideloadProgram.LastByteOverasked` | fuse_sideload.cpp:253-257 | in a file of 4 GiB and one byte the host is asked for 4 MiB instead of the last byte |
| `SideloadProgram.PaddedWithZeros` | fuse_sideload.cpp:254-259 | for files up to 4 GiB every position past the end reads as zero |
| `SideloadProgram.LowReadsAreAdmissible` | fuse_sideload.cpp:320-348 | reads below block 2^32 - 1 never meet the number that marks an empty cache |
| `SideloadProgram.FuseData.constructor` | fuse_sideload.cpp:377-391 | the state before the first request: nothing cached, all digests zero |
| `SideloadProgram.FuseData.AskHost` | fuse_sideload.cpp:253-261 | the buffer after padding and the host's answer |
| `SideloadProgram.FuseData.CheckDigest` | fuse_sideload.cpp:264-293 | accept, pin or reject the block just received |
| `SideloadProgram.FuseData.FetchBlock` | fuse_sideload.cpp:242-294 | the new cache and the result are those of the specified fetch |
| `SideloadProgram.FuseData.ReadAcross` | fuse_sideload.cpp:341-353 | a reply of the end of one block and the start of the next |
| `SideloadProgram.FuseData.Read` | fuse_sideload.cpp:296-359 | the new cache and the reply are those of the specified request, -ENOENT included |
| `SequenceLock.AcceptedReadsAreUntorn` | legacy_properties.h:76-91 | under every interleaving with any number of readers, whether they take a changed serial over or keep their old one, a reader that accepts while fewer than 2^23 updates complete holds length and bytes of one single update, the latest when it read the serial |
| `SequenceLock.NextKeepsInv` | legacy_property_service.cpp:125-131 | every byte-wide step of writer or reader keeps the invariant on which this rests |
| `SequenceLock.PeriodManyUpdatesCanTear` | legacy_property_service.cpp:125-131 | with exactly 2^23 updates during one read there is a run whose reader accepts bytes never stored together |
| `SequenceLock.SerialInjective` | legacy_properties.h:57-58 | within one period equal serials stand for the same update |
| `SequenceLock.UndisturbedUpdate` | legacy_property_service.cpp:125-131 | run without interleaving, the single steps are update_prop_info |
| `SequenceLock.UndisturbedRead` | legacy_properties.h:82-86 | a reader that nobody interferes with accepts the latest value, all of it |
| `PropertyArea.SetRefinesMap` | legacy_property_service.cpp:154-195 | the table is a map of at most 247 names: which calls succeed and what they do depends on the map alone |
| `PropertyArea.SetSucceedsExactlyWhen` | legacy_property_service.cpp:162-179 | a call succeeds if and only if the name has 1 to 31 bytes and the value at most 91, and the name is new with fewer than 247 there, or known and does not begin with the bytes of "ro." |
| `PropertyArea.ReadOnlyIsKept` | legacy_property_service.cpp:170-171 | for every rest, a call for a known name "ro." + rest returns -1 and changes nothing |
| `PropertyArea.OtherIsReplaced` | legacy_property_service.cpp:169-176 | a known name that does not begin so takes every value that fits |
| `PropertyArea.SerialCountsSuccesses` | legacy_property_service.cpp:175-190 | over every sequence of calls the serial of the area counts the successful ones modulo 2^32 |
| `PropertyArea.SetChangesLookup` | legacy_property_service.cpp:154-195 | a successful call changes what is found under its name and nothing else |
| `PropertyArea.SetKeepsArea` | legacy_property_service.cpp:154-195 | no two entries share a name, there are at most 247, and every record is well formed |
| `PropertyArea.LookupIsLastSet` | legacy_property_service.cpp:133-195 | over every sequence of calls, lookup gives the value of the last successful one |
| `PropertyArea.RunIsStable` | legacy_properties.h:78-81 | over every sequence of calls the count never falls, no entry moves or changes its name, and entries whose name begins with "ro." keep their first value |
| `PropertyMemory.LayoutDisjoint` | legacy_property_service.cpp:88-93 | header, table words and records are pairwise disjoint inside 32768 bytes |
| `PropertyMemory.SetOldRep` | legacy_property_service.cpp:169-176 | the stores for a known name turn memory for the old table into memory for the new one |
| `PropertyMemory.SetNewRep` | legacy_property_service.cpp:177-192 | the same for the stores that allocate an entry |
| `PropertyService.LegacyProperties.constructor` | legacy_property_service.cpp:100-123 | the memory of an empty table |
| `PropertyService.LegacyProperties.Find` | legacy_property_service.cpp:133-152 | the loop over the table words finds the entry with that name, or none |
| `PropertyService.LegacyProperties.EntryIsCalled` | legacy_property_service.cpp:141-148 | one table word's length and record name are compared |
| `PropertyService.LegacyProperties.UpdateInfo` | legacy_property_service.cpp:125-131 | the bytes of the record after the three stores |
| `PropertyService.LegacyProperties.SetProperty` | legacy_property_service.cpp:154-195 | the bytes of the area represent the table that the specified call makes, and the result is its result |
| `TableReaders.LookupsAreSound` | legacy_property_service.cpp:133-195 | under every interleaving of the stores of any calls of legacy_property_set with the reads of any number of lookups: no lookup leaves the area, an entry it finds is published under its name with none of that name before it, and a name it does not find is none of those published when it read the count |
| `TableReaders.PublishedIsComplete` | legacy_property_service.cpp:181-189 | when the count is raised, serial, name, value and table word of the new entry are complete in memory |
| `TableReaders.LookupsEnd` | legacy_property_service.cpp:133-152 | under every interleaving a lookup has found or missed its name after at most 2 + 247 * (length + 2) reads of its own |
| `TableReaders.UndisturbedCall` | legacy_property_service.cpp:154-195 | the single stores of a call that is left alone end with the table that legacy_property_set makes, in memory and published |
| `TableReaders.ReadKeeps` | legacy_property_service.cpp:136-149 | one read of a lookup keeps what it has found out; the count it reads is the number of published entries |
| `TableReaders.ServeKeeps` | legacy_property_service.cpp:154-195 | one store of the service keeps count, table words and names of the published entries |
| `TableReaders.StoredRep` | legacy_property_service.cpp:154-195 | all single stores of a call together make the memory of the table that the call makes |
| `TableWalk.NewStored` | legacy_property_service.cpp:181-190 | the words and bytes stored one by one for a new entry amount to the specified memory |
| `TableWalk.OldStored` | legacy_property_service.cpp:127-129 | and so do those of update_prop_info |
| `BootControl.ReadBackExactlyWhen` | bootloader_message/bootloader_message.cpp:204-220 | the options stored in the control block are what the next boot reads if and only if none is empty or holds a newline or a NUL, and the text fits into the 768 bytes of the field; no assumption is made about the options |
| `BootControl.ReadBackUpToNul` | bootloader_message/bootloader_message.cpp:213-218 | tokens of a command file, which may hold a NUL, are stored and read back up to it if and only if the text fits |
| `BootControl.ReadBackIsPlain` | recovery.cpp:342-349 | whatever is in the field, only non-empty options without newline and NUL are read from it |
| `CommandLine.OneMoreLine` | bootloader_message/bootloader_message.cpp:212-218 | the field holds "recovery" and a newline, and takes each further option with a newline behind it, cut to 767 characters |
| `BootControl.PrintParse` | recovery.cpp:1355 | a printed count parses to itself |
| `CommandLine.PrintIsCanonical` | recovery.cpp:1355 | a count is printed as the one decimal numeral for it that has no leading zero |
| `CommandLine.KeptInPlace` | recovery.cpp:1348-1352 | a token that does not begin with "--retry_count" is stored by a retry, unchanged, between what is stored of the tokens before it and of those behind it |
| `CommandLine.CountsDropped` | recovery.cpp:1348-1352 | a token that begins so makes no difference to what is stored |
| `CommandLine.OneCountLast` | recovery.cpp:1355 | exactly one token that is stored begins so, the last one, which tells the new count |
| `CommandLine.ParsePackage` | recovery.cpp:1453-1455 | "--update_package" takes the next token for its value, and "--update_package=" what follows, and the loop goes on behind it |
| `CommandLine.ParseReason` | recovery.cpp:1481-1483 | the same for "--reason" |
| `CommandLine.ParseCount` | recovery.cpp:1450-1452 | the same for "--retry_count" and the number it holds |
| `CommandLine.ParseWipe` | recovery.cpp:1456-1458 | "--wipe_data" asks for a wipe, and is an error with a value |
| `CommandLine.ParseOtherFlag` | recovery.cpp:77-94 | the other nine options without a value leave package, wipe, count and reason as they are |
| `CommandLine.ParseOtherValue` | recovery.cpp:77-94 | so do "--locale" and "--wipe_package_size", which take their value along |
| `CommandLine.ParseRest` | recovery.cpp:1447-1448 | "--" ends the loop, and a token that does not begin with it is passed over |
| `BootControl.ParseAppend` | recovery.cpp:1447-1502 | one more token counts if and only if the option loop gets to it and no option waits for a value |
| `BootControl.CountTakenForValue` | recovery.cpp:1346-1360 | behind "--locale" the count is taken for the locale and read as 0 |
| `RetryCounts.RetryReadBackExactlyWhen` | recovery.cpp:1346-1360 | for any options that get_args can have read and any count, the count stored by set_retry_bootloader_message is the one that the next boot parses out of the 768 bytes of the field if and only if the other tokens neither stop the option loop nor leave an option waiting for its value, and the text fits |
| `RetryCounts.CutOffCount` | bootloader_message/bootloader_message.cpp:213-218 | what a text that was cut off leaves is parsed to some other count, even if a beginning of the count's token is left |
| `RetryCounts.ReadBackOfPrefix` | bootloader_message/bootloader_message.cpp:213-218 | from a text that does not fit, some whole options and a beginning of the next one are read back, which together fill the field |
| `RetryCounts.CountCutOff` | recovery.cpp:1346-1360 | behind a word of 768 letters every count is lost and read as 0 |
| `BootProgram.AppendKept` | recovery.cpp:346-349 | the loop keeps the usable tokens in their order |
| `BootProgram.ReadArgs` | recovery.cpp:316-381 | the arguments from control block or command file, and what is stored back |
| `BootProgram.RetryOptions` | recovery.cpp:1347-1355 | the options that a retry stores; every token that does not begin with "--retry_count" is among them as often as before |
| `Recovery.WipeSurvivesCrashes` | recovery.cpp:160-170 | once --wipe_data is stored, in every run with crashes at any step each boot re-enters the same wipe until the control block is cleared, which happens after a wipe_data call that ran to its end, even though /cache is erased |
| `Recovery.WipeStepKeeps` | recovery.cpp:752-771 | one step or crash keeps this, and only the step after a finished wipe_data clears the control block |
| `Recovery.CrashFreeBootFinishes` | recovery.cpp:489-518 | from any such state, one boot without a crash ends in the main system with the control block cleared, and user data are gone if and only if they were before or a step of it formatted /data |
| `Recovery.WipeBootErasesExactlyWhen` | recovery.cpp:752-771 | for a boot without a crash in which the command is stored: the control block is cleared in any case, and user data are gone if and only if PreWipeData succeeds and /data is formatted |
| `Recovery.WipeReportsExactlyWhen` | recovery.cpp:752-771 | wipe_data reports success if and only if every erasure that applies and PostWipeData do, or the marker for a conversion could not be made |
| `Recovery.ReportedButKept` | recovery.cpp:579-590 | a run in which success is reported and the data are still there |
| `Recovery.FailedWipeIsForgotten` | recovery.cpp:1621-1694 | a run in which PreWipeData or formatting fails: the main system starts, the control block is cleared, and the data are there |
| `Recovery.CommandFileIsStored` | recovery.cpp:356-378 | the first boot takes the options from the command file and stores them, those with a NUL included; a crash before that changes nothing |
| `RecoveryRuns.FailingUpdateEnds` | recovery.cpp:1582-1612 | an update that always asks for a retry, without a crash: five attempts and four reboots, with the counts 0 to 4; then control block and command file are cleared and the main system starts with everything else as it was |
| `RecoveryRuns.UpdateBoot` | recovery.cpp:1564-1619 | a boot that reads an update package installs it even if a wipe is asked for too; the count 1 is stored before a first attempt; an attempt that asks for a retry has one if the count read is at most 3, with the count raised, and every other attempt is the end |
| `RecoveryRuns.SkippedUpdate` | recovery.cpp:1569-1580 | an update that is skipped is over without an attempt |
| `RecoveryRuns.FinishingClears` | recovery.cpp:489-518 | finish_recovery clears the control block first, then removes the command file if there is a /cache and unlink succeeds, and then the main system starts |
| `Retries.RetriesAreBounded` | recovery.cpp:1582-1612 | in any run with crashes the counts that boots read never decrease, at most four reboots are for a retry, attempts are at most one more than such reboots and crashes, and so at most five without a crash; for every command whose options beside --retry_count are parsed to their end, and which leaves room for the count |
| `Retries.StepKeepsOk` | recovery.cpp:1582-1612 | each step or crash keeps the invariant behind these bounds |
| `Retries.InstallKeeps` | recovery.cpp:1597-1605 | an attempt that ends in a reboot for a retry leaves a count one higher than the boot has read |
| `Retries.DispatchKeeps` | recovery.cpp:1584-1586 | a first attempt stores the count 1 before it begins |
| `Retries.ReadingKeeps` | recovery.cpp:316-381 | reading the control block and storing it again loses nothing |
| `Retries.SetRetryContent` | recovery.cpp:1346-1360 | the contents of the rounds follow each other: what a retry stores of one round is one more copy of args[0], the same other tokens, and the new count |
| `Retries.ParseContent` | recovery.cpp:1447-1502 | after any number of rounds a boot parses the same package and the last count |
| `Retries.SelfContainedCommand` | recovery.cpp:1447-1502 | commands written as --name=value are among those |
| `Retries.ContentReadBack` | recovery.cpp:316-381 | what the rounds store fits and is read back |
| `Retries.StoredUpdateIsOk` | recovery.cpp:372-378 | a device on which an update command has just been stored satisfies the invariant |
| `RetryExcess.ShortCommandIsLimited` | recovery.cpp:1597-1605 | "--update_package=/p" is such a command |
| `RetryExcess.LimitExceeded` | recovery.cpp:117-119 | a command that fills the field is retried 200 times without a crash, every boot reading the count 0 |
| `RetryExcess.RoundStores` | recovery.cpp:1346-1360 | in each of these rounds the field loses the count and the end of the last option, and gains the program's name |
| `RetryBounds.RetriesAlwaysEnd` | recovery.cpp:1582-1612 | whatever control block and command file hold, and wherever power is lost: all but one of the reboots for a retry have left one more line with the program's name in the 768 bytes of the field, and attempts are at most one more than such reboots and crashes |
| `RetryBounds.StepKeepsSteady` | recovery.cpp:1582-1612 | each step or crash keeps the invariant behind this |
| `RetryBounds.RetryStores` | recovery.cpp:1346-1360 | storing a retry adds one more copy of the name in front, or leaves nothing but copies |
| `RetryBounds.LeadingStored` | bootloader_message/bootloader_message.cpp:204-220 | leading copies of the name are all read back, or nothing but copies and a beginning of one |
| `FindFile.Find` | find_file.cpp:29-91 | the search ends on every finite graph with link cycles; a result is a regular file of that name in a reachable directory, and it is empty if and only if no reachable directory that can be opened holds one; a match in the directory the search starts in goes before all others |
| `FindFile.EdgeExactlyWhen` | find_file.cpp:55-89 | a step of the search leads into a real directory, spelled with a slash and its name, or to where a link leads, but never to "." or ".." |
| `FindFile.ContainsExactlyWhen` | find_file.cpp:67-71 | a match is a regular file of that name in a directory that can be opened |
| `FindFile.NothingReachableMatches` | find_file.cpp:43-47 | a set of searched directories that has been dealt with contains everything reachable and no match |
| `FindFile.Searcher.FindInternal` | find_file.cpp:36-91 | one call finds a match or deals with everything it adds to the searched directories |
| `FindFile.Searcher.Scan` | find_file.cpp:55-73 | the readdir loop returns the match in the directory, or exactly the directories and links to follow |
| `DataWipe.Disk.WipeDir` | partition.cpp:2569-2603 | if it succeeds, the nodes left are exactly those that are excluded, by their name or by any spelling of their path, or are a device or of unknown kind, lie below such a node, or are an ancestor of one; if it gives up, nothing that must stay has gone |
| `DataWipe.Disk.WipeChild` | partition.cpp:2576-2596 | one round of the readdir loop deals with its entry, or gives up with nothing gone that must stay |
| `DataWipe.Disk.WipeWithoutMedia` | partition.cpp:2512-2526 | the same from the mount point, and nothing at all if it cannot be mounted |
| `DataWipe.ExcludedIsSpared` | partition.cpp:2579-2584 | after add_absolute_dir of a path in any spelling, a wipe, whether it succeeds or not, leaves that path and everything below it |
| `DataWipe.NameIsSpared` | partition.cpp:2581-2584 | so it does with a name that is left out in every directory |
| `DataWipe.ProgramSkips` | partition.cpp:2579-2581 | check_skip_dirs, asked about the string that the program has built for a node, tells whether that node is excluded |
| `DataWipe.Disk.Rmdir` | partition.cpp:2591 | only empty directories are removed |
| `DataWipe.ChildStep` | partition.cpp:2576-2596 | handling one child moves the loop's invariant on |
| `DataWipe.WipedChild` | partition.cpp:2585-2591 | a directory wiped inside survives exactly when something in it does |
| `DataWipe.AbandonedChild` | partition.cpp:2587-2590 | a wipe given up inside a child has removed nothing that must stay |
| `DataWipe.ParentSurvives` | partition.cpp:2591 | the directory of a survivor survives |
| `Paths.RemoveTrailingSlashes` | twrp-functions.cpp:319-342 | the loop's result is the one normal spelling of the path, with a slash behind it if asked for |
| `Paths.NormalFacts` | twrp-functions.cpp:319-342 | normalisation keeps the list of names and whether the path is absolute, and leaves no repeated or trailing slash |
| `Paths.NormalIdempotent` | twrp-functions.cpp:319-342 | normalising twice is normalising once |
| `Paths.SameNormalExactlyWhen` | twrp-functions.cpp:319-342 | two paths have the same normal spelling if and only if they have the same names and are both absolute or both relative, or have no names |
| `Exclusions.SkipsMeaning` | exclude.cpp:92-108 | a path is left out if and only if its last name is a relative rule with a directory in front of it, or it is an absolute rule |
| `Exclusions.SpellingsAgree` | exclude.cpp:100-108 | all spellings of a path are treated alike |
| `Exclusions.AddedDirIsSkipped` | exclude.cpp:57-59 | after a directory is added every spelling of it is left out |
| `Exclusions.SizesAddUp` | exclude.cpp:61-90 | on every finite tree the size found plus the sizes below what is left out is the size without rules |
| `Exclusions.FolderSizeIsSum` | exclude.cpp:61-90 | the size of a folder is the sum over a list of all files and links of its tree, of those with no directory on their way that is left out; without rules, over all of them |
| `Exclusions.BitsDecide` | exclude.cpp:82-84 | which kinds of files pass the tests of st_mode with S_IFDIR, S_IFREG and S_IFLNK, bit by bit |
| `Exclusions.MoreRulesLessSize` | exclude.cpp:61-90 | more rules never make a folder larger |
| `Exclusions.TWExclude.constructor` | exclude.cpp:37-41 | the three relative rules there are from the start |
| `Exclusions.TWExclude.ClearRelativeDir` | exclude.cpp:47-55 | erasing while walking removes every occurrence and keeps the others in order |
| `Exclusions.WithoutInPlace` | exclude.cpp:47-55 | of any list, exactly the occurrences of the name are missing afterwards |
| `Exclusions.TWExclude.AddAbsoluteDir` | exclude.cpp:57-59 | the normal spelling is appended |
| `Exclusions.TWExclude.CheckSkipDirs` | exclude.cpp:92-108 | the answer is the specified one |
| `Exclusions.TWExclude.GetFolderSize` | exclude.cpp:61-90 | the recursion with its 64-bit accumulator gives that sum modulo 2^64 |
| `Der.LengthRoundTrip` | asn1_decoder.cpp:48-72 | for every n below 2^56, decoding an encoding of n gives n and leaves exactly the bytes behind it |
| `Der.LongFormRoundTrip` | asn1_decoder.cpp:57-70 | the same for the long form with any number of octets the decoder takes, leading zeros included |
| `Der.AcceptedLengthBound` | asn1_decoder.cpp:58-70 | every accepted length is below 2^56 |
| `Der.NextStepsOver` | asn1_decoder.cpp:130-136 | stepping skips exactly one encoded value |
| `Der.NextTimesSkips` | asn1_decoder.cpp:130-136 | k steps lead to the k-th value |
| `Der.NextTooOften` | asn1_decoder.cpp:130-136 | a step past the last value fails |
| `Der.GetFindsContents` | asn1_decoder.cpp:77-128 | each getter enters exactly the contents of a value with its tag |
| `Der.PrimitiveGetFindsContents` | asn1_decoder.cpp:138-158 | the primitive getters return exactly the contents, and refuse empty ones |
| `Der.GetExactlyWhen` | asn1_decoder.cpp:77-158 | in front of an encoded value the getters for SEQUENCE, SET and constructed values find its contents if and only if the tag is 0x30 or 0xB0, 0x31 or 0xB1, from 0xA0 to 0xBF; otherwise they and the primitive getters of another tag fail, one byte on |
| `Der.TagsAccepted` | asn1_decoder.cpp:77-158 | whatever the bytes are, no getter accepts another tag; OID is 6 and OCTET STRING 4 |
| `Der.TooLongRefused` | asn1_decoder.cpp:82-84 | a value that claims to be longer than what follows is refused by every operation |
| `Der.LengthsRefused` | asn1_decoder.cpp:48-70 | more than seven length octets are refused, and those that are not all there |
| `Der.DescendLandsOn` | asn1_decoder.cpp:77-136 | for any tree of encoded values, stepping and entering along any path lands on exactly the bytes encoded there |
| `Der.SkipAllStopsAt` | asn1_decoder.cpp:91-102 | asn1_constructed_skip_all consumes exactly the leading context-specific constructed values, and tells whether anything follows |
| `Der.EnterInside` | asn1_decoder.cpp:82-86 | for all input, contents entered lie inside what the cursor had left |
| `Asn1Decoder.Asn1Context.ReadLength` | asn1_decoder.cpp:48-72 | the loop computes the specified length without leaving the range of a 64-bit size |
| `Asn1Decoder.Asn1Context.SequenceNext` | asn1_decoder.cpp:130-136 | the cursor moves as specified, failures included |
| `Asn1Decoder.Asn1Context.EnterValue` | asn1_decoder.cpp:112-116 | a new context covers exactly the contents, inside the same buffer |
| `Asn1Decoder.Asn1Context.GetSequence` | asn1_decoder.cpp:108-117 | the context of a SEQUENCE |
| `Asn1Decoder.Asn1Context.GetSet` | asn1_decoder.cpp:119-128 | the context of a SET |
| `Asn1Decoder.Asn1Context.GetConstructed` | asn1_decoder.cpp:77-89 | the context of a constructed value and the type in its tag |
| `Asn1Decoder.Asn1Context.GetPrimitive` | asn1_decoder.cpp:138-158 | place and length of an OID or OCTET STRING in the buffer |
| `Asn1Decoder.Asn1Context.SkipAllConstructed` | asn1_decoder.cpp:91-102 | the loop moves the cursor as specified |
| `StrReplace.Replace` | safestrap-functions.c:48-122 | for every string, needle and replacement: a shrinking replacement becomes the left-to-right replacement in place; a growing one fails, with nothing changed, if and only if the result is longer than the size, and otherwise has the outcome of the second pass, which where the scans agree is the replaced string if its terminator fits into the buffer and an access outside of it if not |
| `StrReplace.ReplaceShrinking` | safestrap-functions.c:63-82 | the forward pass yields the replacement and never overwrites a byte it has not read |
| `StrReplace.MeasureGrowing` | safestrap-functions.c:91-104 | the first pass finds the length of the result, or that it does not fit |
| `StrReplace.ReplaceBackwards` | safestrap-functions.c:107-119 | the loop has exactly the outcome that the pass is specified to have, leaving the buffer included |
| `GrowingPass.PassOutcome` | safestrap-functions.c:107-119 | from any state of the second pass: if both scanners' replacements are equally long it ends with what the backward one finds replaced and overwrites nothing unread; if the backward one is shorter it reads in front of the buffer; if it is longer, a long replacement is copied in front of the buffer |
| `GrowingPass.CopyStep` | safestrap-functions.c:111-113 | a copied character keeps the pass's invariant |
| `GrowingPass.FindStep` | safestrap-functions.c:114-118 | a replaced occurrence keeps it |
| `Growing.GrowingOutcome` | safestrap-functions.c:106-121 | the same for whole calls, for all strings, replacements and buffers, in terms of the two replaced strings |
| `Growing.GrowingIsRightExactlyWhen` | safestrap-functions.c:31-34 | in a string, a growing call leaves the left-to-right replacement, for every replacement text and every buffer with room, if and only if both scans find the same there |
| `Growing.CapacityKeptExactlyWhen` | safestrap-functions.c:33-34 | an accepted growing call with the buffer's own length for its capacity stays inside of it and leaves the whole result with its terminator if and only if the result does not fill the buffer exactly |
| `Growing.FullBufferOverflows` | safestrap-functions.c:102-103 | "a" to "bb" in "a" with two bytes is accepted and writes behind the buffer |
| `Growing.TextCorrupted` | safestrap-functions.c:107-119 | "ab" to "xyz" in "aab" gives "xyz" |
| `Growing.ReadInFront` | safestrap-functions.c:107-119 | "ab" to "xyz" in "abb" reads in front of the buffer |
| `StrReplace.PassOneReplaces` | safestrap-functions.c:73-78 | a find takes back the copied characters of the needle and keeps the forward pass's invariant |
| `Scanners.FoundIsOccurrence` | safestrap-functions.c:127-138 | what the forward scanner finds is an occurrence of the needle, and finds do not overlap |
| `Scanners.IsolatedIsFound` | safestrap-functions.c:127-138 | an occurrence at the beginning, or behind a character that is not in the needle, is found |
| `Scanners.IsolatedIsFoundBack` | safestrap-functions.c:143-154 | backwards, one at the end or in front of such a character |
| `Rendering.FindsLeftmostExactlyWhen` | safestrap-functions.c:31-32 | the forward scanner finds the leftmost occurrences one after the other in all strings if and only if the needle repeats a single character |
| `Rendering.OthersAreMissed` | safestrap-functions.c:127-138 | any other needle is missed behind one more copy of its first character |
| `Rendering.ReplacedIsRendered` | safestrap-functions.c:63-82 | left-to-right replacement is the string with the replacement at exactly the places where the forward scanner's finds begin |
| `Scanners.ScansAgreeExactlyWhen` | safestrap-functions.c:127-154 | the scans agree on all strings if and only if the needle is a single character |
| `Scanners.ScansCanDisagree` | safestrap-functions.c:127-154 | "ab" in "aab" is found backwards only |
| `Scanners.OneCharacterReplaced` | safestrap-functions.c:48-82 | for one character the result replaces each occurrence of it |
| `Scanners.Terminated` | safestrap-functions.c:107-111 | the terminating NUL, which the second pass moves too, belongs to no find of either scanner |
| `FlagParser.FlagsRoundTrip` | partition.cpp:1023-1108 | printing any list of flags, bare, as name=value or as name="value", joined with commas in version 2 and semicolons otherwise, and processing it brings about exactly what the flags ask for, in order, even when values in quotes contain the separator |
| `FlagParser.TokensRoundTrip` | partition.cpp:1033-1042 | tokens that keep their separators inside of closed quotes come out again as they were |
| `FlagParser.SelectsExactlyWhen` | partition.cpp:1046-1056 | the name comparison and its branches select an entry if and only if the token's part before '=' is the entry's name, with an '=' if the entry has one |
| `FlagParser.OneEntry` | partition.cpp:1046-1099 | a token selects at most one entry |
| `FlagParser.TableOrderIsIrrelevant` | partition.cpp:1046-1099 | tables with the same entries treat every token alike in any order |
| `FlagParser.PrintedOutcome` | partition.cpp:1049-1098 | a printed flag has the outcome it asks for: flag, argument with or without its quotes, and y, Y or 1 for dual flags |
| `FlagParser.StripQuotesFacts` | twrp-functions.cpp:344-349 | one quote is taken off at either end, if there is one |
| `FlagParser.SecondEqualsIsLost` | partition.cpp:1057-1068 | behind the "=" of a name that ends in one, a second "=" is lost |
| `FlagTable.TwFlagsAreGood` | partition.cpp:174-217 | the table of the source has distinct, well-formed names, so all this applies to it |
| `FlagProgram.SeparateFlags` | partition.cpp:1031-1038 | the loop turns separators outside of quotes into newlines in place |
| `FlagProgram.StrTok` | partition.cpp:1041-1107 | strtok_r cuts the next token off in place |
| `FlagProgram.ProcessToken` | partition.cpp:1043-1106 | the search through the table and its branches give the specified outcome |
| `FlagProgram.ProcessFlags` | partition.cpp:1023-1108 | the calls and messages in order are those of the tokens of the separated text |
| `FlagProgram.ProcessPrinted` | partition.cpp:1023-1108 | the program run on a printed list gives what the flags ask for |
| `Settings.RoundTripExactlyWhen` | infomanager.cpp:62-142 | saving a map and loading it into an empty store gives the same map if and only if all names and values have at most 510 characters and no NUL |
| `Settings.LoadSaved` | infomanager.cpp:62-142 | for strings without NUL shorter than 65535, loading overrides the store with exactly the entries in front of the first oversized one in the order of the names |
| `Settings.LoadBody` | infomanager.cpp:84-110 | the same for the entries in any given order |
| `Settings.ReadWritten` | infomanager.cpp:90-94 | a written string is read back, or stops the loading if it is too long |
| `Settings.LoadIsLoadable` | infomanager.cpp:84-110 | whatever the file holds, nothing with a NUL or longer than 512 is loaded |
| `Settings.OrderedIsAscending` | infomanager.cpp:130-131 | the entries are written once each in ascending order |
| `Settings.BelowExactlyWhen` | infomanager.cpp:130-131 | the order is the lexicographic one |
| `Settings.VersionIsChecked` | infomanager.cpp:74-82 | of any file, nothing is loaded unless it begins with the expected version as a little-endian number of four bytes, if there is one |
| `Settings.OtherVersionRefused` | infomanager.cpp:74-82 | a file that was saved with another version is left alone |
| `InfoManagers.InfoManager.SaveValues` | infomanager.cpp:116-142 | the loop writes the specified file |
| `InfoManagers.InfoManager.LoadValues` | infomanager.cpp:62-114 | the loop leaves the specified store for every file, well formed or not |
| `InfoManagers.InfoManager.SetValue` | infomanager.cpp:201-214 | empty names and names with a leading digit are refused, and a constant store keeps the values it has |
| `InfoManagers.InfoManager.GetValue` | infomanager.cpp:144-154 | the value, or -1 and the caller's variable unchanged |
| `InfoManagers.ReadString` | infomanager.cpp:90-94 | one field is read into the array of 513 without leaving it |
| `InfoManagers.WriteField` | infomanager.cpp:132-134 | the 16-bit length counts the string with its NUL modulo 2^16 and as many characters of it follow, so all of it below 65535; a string of at most 510 characters without NUL is what LoadValues reads back from these bytes, whatever follows them |
| `InfoManagers.FieldIs` | infomanager.cpp:132-134 | those properties determine the bytes |
| `DataManagers.GetAfterRun` | data.cpp:305-434 | after any sequence of calls the next GetValue of an ordinary name returns what the last successful SetValue stored |
| `DataManagers.SetRefinesMap` | data.cpp:398-434 | the three layers are a representation of one map |
| `DataManagers.RunHoldsLastSet` | data.cpp:398-434 | after any sequence of calls a name holds its last stored value |
| `DataManagers.ConstantsKeep` | data.cpp:417-421 | a constant name keeps its value through every run |
| `DataManagers.PersistentStays` | data.cpp:423-432 | once a name is in the persistent layer, that layer answers for it in every later state and the data layer is never written or seen for it |
| `DataManagers.SetThenGetExactlyWhen` | data.cpp:313-330 | a stored value is what GetValue returns if and only if the name is ordinary or the value was returned before the call too |
| `DataManagers.WrappedNameIsLost` | data.cpp:313-318 | "%x%" is stored and cannot be read back |
| `DataManagers.GetWrapped` | data.cpp:313-318 | "%x%" gives the value of x |
| `DataManagers.GetProperty` | data.cpp:324-329 | "property.x" gives the system property x |
| `DataManagers.GetInOrder` | data.cpp:320-341 | for other names a magic value goes before a constant, a constant before a persistent value, and that before the rest |
| `DataManagers.SucceedsExactlyWhen` | data.cpp:403-432 | what is stored: no properties, constants, empty names or names with a leading digit; what is to persist goes into the persistent layer, and nothing else unless it is there already |
| `DataManagers.DataManager.SetValue` | data.cpp:398-434 | the new layers and the result are the specified ones |
| `DataManagers.DataManager.GetValue` | data.cpp:305-345 | the layers are consulted in their order, after magic values and properties |
| `TarStream.StreamIsKept` | tarWrite.c:57-96 | while no call fails, file and buffer together hold all bytes handed over in order, and the progress reports add up to the bytes written |
| `TarStream.StepKeepsBytesExactlyWhen` | tarWrite.c:57-96 | a call keeps all bytes if and only if it does not return -1 |
| `TarStream.WriteReturns` | tarWrite.c:57-96 | a call returns the number of bytes it was given, or -1 if and only if the buffer is full or the archive ends, there is something to write, and write(2) does not take all of it |
| `TarStream.WritesWhenDue` | tarWrite.c:71-88 | before that nothing is written or reported; then all of the buffer is, in one piece and with one report |
| `TarStream.BufferStaysBelow` | tarWrite.c:71-90 | at every call, after failures too, the buffer is below its flush size |
| `TarStream.EndOfArchiveEmpties` | tarWrite.c:64-73 | from the second block after flush_libtar_buffer on the buffer is empty after every call |
| `TarStream.ArchiveArrives` | tarWrite.c:57-102 | blocks, flush_libtar_buffer and two more blocks arrive in the file completely if no call fails |
| `TarWriters.TarWriter.constructor` | tarWrite.c:41-48 | an empty buffer of the given size, or of the size there was |
| `TarWriters.TarWriter.Reinit` | tarWrite.c:34-39 | the buffer is emptied and the end-of-archive count reset |
| `TarWriters.TarWriter.Write` | tarWrite.c:57-96 | the new state and the returned number are the specified ones |
| `TarWriters.TarWriter.Flush` | tarWrite.c:98-102 | the count of end-of-archive blocks starts |

## Left out

- `SideloadProgram.FuseData.Read`: the request says what `read_block` would answer if it were called; FUSE messages, `writev`, the handlers for getattr, lookup and open, and mounting are not modelled.
- `SideloadProgram.PackageReadsTheSame`: SHA-256 is any function without collisions among the blocks a run receives, and reads end below block 2^32 - 1.
- `Sideload.CheckKeepsInv`: the digests are an array of 32-byte values, not one flat array of bytes.
- `SequenceLock.AcceptedReadsAreUntorn`: memory accesses are sequentially consistent; futex calls are left out.
- `TableReaders.LookupsAreSound`: words are read and stored in one step, and a reader's following read of the value is the subject of `SequenceLock`.
- `RetryBounds.RetriesAlwaysEnd`: the name of the program is an ordinary word, neither empty nor an option.
- `PropertyService.LegacyProperties.SetProperty`: names and values are byte strings without NUL, as `strlen` sees them; sockets, permissions and shared memory set-up are left out.
- `Recovery.WipeSurvivesCrashes`: reading and writing the control block succeeds and is atomic; logs, menus, locale, network, battery and secure-wipe code are left out, and formatting is a step that succeeds or fails.
- `Retries.RetriesAreBounded`: the limit of four needs a package that is the same with and without the --retry_count tokens, no option left waiting for its value, and room in the control block for the name of the program four times over and a count; for all other commands there is `RetryBounds.RetriesAlwaysEnd`.
- `BootControl.ParseAppend`: abbreviated option names, numbers that are not plain decimal and a command line given to recovery itself are left out.
- `FindFile.Find`: the file system does not change during the search, and names of directories are strings as the program builds them.
- `DataWipe.Disk.WipeDir`: names of nodes are not empty and hold no slash, unlink succeeds, rmdir succeeds exactly on empty directories, and nobody else changes the disk; readdir may return the entries in any order.
- `Exclusions.SizesAddUp`: here and in `Exclusions.FolderSizeIsSum`, sizes and entries of block devices are zero and absent, and file systems are finite trees.
- `Der.DescendLandsOn`: tags have one byte; values larger than the decoder accepts are not encoded.
- `Asn1Decoder.Asn1Context.EnterValue`: a context shares its buffer with its parent; freeing is left out.
- `StrReplace.Replace`: where the program leaves its buffer its behaviour is undefined, and the model stops there; what memory around the buffer holds is not modelled.
- `FlagProgram.ProcessToken`: a token is handled as a value once it has been cut off, so Strip_Quotes does not write into the buffer; what Apply_TW_Flag does with a flag is left out.
- `InfoManagers.InfoManager.LoadValues`: the byte behind the characters that were read is an input, since the array is not initialised; mounting and the conversions to numbers are left out.
- `DataManagers.DataManager.SetValue`: locking, timers, notifications and the backing file are left out, and magic values and system properties are inputs.
- `TarWriters.TarWriter.Write`: what write(2) returns is an input; a block is no larger than the part of the allocation beyond the flush size; the unbuffered variant is left out.
- The second sideload file system, `fuse_sideload22.cpp`: the same algorithm with other limits.
- Mounting, partition tables, encryption, user interface, installers, log rotation and the adb backup streams: system calls or formats whose definitions are not in these files.
