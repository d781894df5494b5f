# Verified model of the era-contracts tooling

The repository's contracts are accompanied by scripts that people rely on when they deploy,
upgrade and audit them: a reader that interprets a contract's storage layout, a generator of Yul
accessors for the bootloader, scanners that reconstruct history from event logs, a publisher of
factory dependencies, and printers paired with parsers. This project models the logic of these
tools in Dafny and proves what they promise, for every input and over whole runs.

`dafny verify dfyconfig.toml` checks everything.

## How the model is laid out

* **Storage layout** (`AccessPath`, `DynamicBytes`, `Primitives`, `StorageReader`, `StoredValues`).
  Types, members and values are datatypes, slots are 32 bytes; the packed and wide array walks, the
  path parser and the recursive readers are methods. Keccak and JavaScript's conversion of index
  texts other than plain decimals are function-valued parameters. Two theorems are central. For a
  value laid out byte by byte as the Solidity documentation says, the reader shows that value, whole
  or behind any path. Reading a part of a variable and projecting the whole variable agree along
  every path.
* **Yul generator** (`Yul`, `Words`, `AbiBytes`, `TransactionUtils`, `GeneratedCode`,
  `TransactionEncoding`, `TransactionTable`). The generator is a loop that emits functions of a
  small Yul language with an interpreter over word memory. The bootloader's validators are modelled with 256-bit
  wrap-around and word padding. For every field table the generated validator accepts exactly the
  ABI encodings (Solidity Contract ABI Specification, section "Formal Specification of the
  Encoding"), and the generated getters read them back. `TransactionTable` says exactly when a
  table gives a program without two functions of one name, as the repository's own table does.
* **Log scans** (`LogPagination`, `TokenDiscovery`, `MigrationEvents`, `MigrationScan`,
  `MigrationWalk`, `MigrationOrder`, `MigrationCollect`, `IntervalFile`). Nodes are functions from
  the number of the call and the window to an answer, so a theorem about them holds under every failure pattern.
* **Publishing** (`FactoryDeps`). The deployer is a class; its greedy packer is compared with every
  other order-preserving split.
* **Coverage reports** (`LcovFormat`, `LcovReport`, `LcovFile`, `LcovTool`, `LcovMerge`,
  `LcovMergeText`, `LcovMergeTool`, `LcovMeaning`, `LcovAgreement`). Lines are classified once;
  parsing is a fold over the classified lines and printing produces such lines, which connects the
  two. `LcovMeaning` says by position in the report which counts the parsers keep.
* **Bundle manifest** (`BundleManifest`, `BundleDirectory`). The output directory is a class; a run
  may stop at any bundle, with or without a partly written file, and theorems speak about every
  sequence of runs.
* **Import unifier** (`ImportSyntax`, `ImportPattern`, `ImportUnifier`, `ImportCleaner`,
  `ImportResult`). The two-pass tool is proved equal to a function on lines whose properties are
  proved separately; the matcher is proved to decide the regular expression.
* **Limb conversion** (`LimbHex`).
* `Wrappers`, `Text`, `Ordering` and `Arithmetic` hold what the others share.

## What the proofs show about the code

Where a promise fails, the project keeps the code's behaviour and proves exactly when it holds.

* `readDynamicBytes` returns stored bytes exactly when they are empty or their length is no multiple
  of 32; otherwise the last 32 bytes are lost (`DynamicBytes.ReadsBackUnlessWholeSlots`). A whole
  variable is therefore read back exactly when no byte string or text in it has such a length
  (`StoredValues.ReadsBackIff`).
* `readPartOfArray` never compares an index with the length. For every array and index, reading the
  part succeeds, and it is the element of the whole array if and only if the index is below the
  length; otherwise it decodes a place behind all elements (`StorageReader.ReadIndex`,
  `StorageReader.OverrunOnPath`).
* For a positive block step `getLogsPaginated` ends under every failure pattern
  (`LogPagination.GetLogsPaginated`). It fails if and only if, with `w` the window after the last
  answer, the next `log2(w) + 1` calls are all refused (`LogPagination.GivesUpIff`). When every query is answered, it ends if and only if the step
  is positive or the range empty (`LogPagination.EndsExactlyForPositiveStep`).
* The migration walk rejects a history exactly when a chain starts again in the block in which it
  returned, because starts sort before finalizations within a block
  (`MigrationOrder.AcceptedExactlyWithoutRestart`).
* The comment above `write` says that a commented-out placeholder is replaced too. It is kept
  (`IntervalFile.PlaceholderSurvives`): a line of the file survives if and only if neither it nor a
  line before it begins with the key or the table header (`IntervalFile.LineSurvivesIff`).
* The manifest's doc comment says that numbering continues past existing files; it continues past
  manifest entries. From an empty directory, every run that writes continues past all existing files
  if and only if no run writes after one that wrote without saving its manifest
  (`BundleDirectory.NumberingContinuesIff`). For a single run the exact condition is that the
  manifest's numbers have passed the files of every failed run before it
  (`BundleDirectory.ContinuesIff`): the next run to write after a failed one never meets it and
  reuses the index (`BundleDirectory.NextWriteReusesIndex`), a later one may.
* Files and manifest drift apart in the same way: the files are exactly the listed ones if and only
  if every file a failed run left is written and listed by a later run
  (`BundleDirectory.OnlyListedIff`), as after repeating the failed command
  (`BundleDirectory.RetryAdopts`). No two files carry the same index if and only if runs that used
  the same number gave the file the same name (`BundleDirectory.IndicesDistinctIff`).
* In the import unifier the exemption of dependency files has no effect: unused symbols never reach
  the list that the exemption protects (`ImportCleaner.UnifiedText`). A rewritten file keeps an
  import line as it stands exactly when that line already is the unified one, so comments after the
  semicolon are lost (`ImportUnifier.ImportKeptIff`).
* `parseAnvilData` keeps the last record of a file where `parseLcov` takes line-wise maxima, so hits
  can be lost (`LcovAgreement.HitsLost`). Both agree on a file if and only if its last record
  dominates the others (`LcovAgreement.ParsersAgreeIff`).
* When waiting for the L1 commit fails, a transaction has been sent under a nonce that the deployer
  still considers free (`FactoryDeps.ZkSyncDeployer.PublishFactoryDeps`).
* The merge keeps Foundry's count of functions hit consistent exactly when it was consistent before
  (`LcovMergeTool.CountLaw`).
* `format_const` prints no digits for zero, and a correct literal for every other value
  (`LimbHex.FormatDenotesIff`).
* `lengthToWords`, which the generated length getter calls, is not defined in the repository. The
  model takes it as the bootloader's `lengthRoundedByWords`, which the comment beside the call
  requires.
* The bootloader's checked-in copy of the generated functions has been edited by hand: its
  `getDataLength` adds with overflow checks and its validator returns the end of the last region.
  It also calls the first two reserved words nonce and value. The model follows the generator, which
  emits plain additions and no return value and numbers all six reserved words.

## Model

| member | source | states |
|---|---|---|
| `AccessPath.ParseName` | l1-contracts/scripts/read-variable.ts:264-309 | succeeds exactly when the accessor text is well bracketed, and returns its segments in reverse order |
| `AccessPath.ParseAccessors` | l1-contracts/scripts/read-variable.ts:279-308 | the character loop accepts exactly balanced text (no nesting, no unopened or unclosed bracket, no dot inside brackets) and yields the reversed segments |
| `AccessPath.GetVariableName` | l1-contracts/scripts/read-variable.ts:312-321 | the base name ends at the first dot or bracket, whichever comes first |
| `AccessPath.PathRoundTrip` | l1-contracts/scripts/read-variable.ts:264-309 | parsing any printed access path returns its accessors reversed |
| `AccessPath.WellBracketedIsBalanced` | l1-contracts/scripts/read-variable.ts:281-306 | the positional description of bad brackets and the scanner's state agree at every position |
| `StorageReader.ReadVariable` | l1-contracts/scripts/read-variable.ts:159-163 | reading a whole variable is the layout's decoding of its type at that slot and shift |
| `StorageReader.ReadStruct` | l1-contracts/scripts/read-variable.ts:110-123 | a struct's value holds each member decoded at its own slot and offset |
| `StorageReader.ReadArray` | l1-contracts/scripts/read-variable.ts:127-155 | an array's value holds every element at the place the closed index formula assigns, for static and dynamic arrays |
| `StorageReader.ReadPacked` | l1-contracts/scripts/read-variable.ts:138-147 | the incremental slot and shift walk decodes the same elements as the closed formula |
| `StorageReader.ReadWide` | l1-contracts/scripts/read-variable.ts:148-153 | the same for elements of whole slots |
| `StorageReader.PackedStep` | l1-contracts/scripts/read-variable.ts:140-146 | one step of the walk leads from the closed formula at `i - 1` to the closed formula at `i`, for every size from 1 to 31 bytes |
| `StorageReader.PackedDisjoint` | l1-contracts/scripts/read-variable.ts:136-153 | no packed element crosses a slot and two elements never overlap |
| `StorageReader.ReadPartOfVariable` | l1-contracts/scripts/read-variable.ts:239-260 | the popped parameters lead to the location the path denotes, and the value there is returned |
| `StorageReader.ReadPartOfStruct` | l1-contracts/scripts/read-variable.ts:167-174 | enters the member of that label, or fails when there is none |
| `StorageReader.ReadPartOfArray` | l1-contracts/scripts/read-variable.ts:178-194 | enters the element at the index by division and remainder |
| `StorageReader.ReadPartOfMap` | l1-contracts/scripts/read-variable.ts:227-236 | enters the entry slot of the key |
| `StorageReader.PartIsProjection` | l1-contracts/scripts/read-variable.ts:110-260 | for every type tree, storage and path: reading the part equals projecting the whole, and missing members and non-numeric indices fail in both |
| `StorageReader.ReadIndex` | l1-contracts/scripts/read-variable.ts:178-194 | for every array and numeric index: the read never fails, equals the element if and only if the index is below the length, and otherwise decodes a place behind all elements |
| `StorageReader.OverrunOnPath` | l1-contracts/scripts/read-variable.ts:178-260 | wherever a path leaves an array, the reader has reached that array and goes on to the place the index names |
| `StorageReader.ElementsInOrder` | l1-contracts/scripts/read-variable.ts:136-153 | elements of any size lie one behind the other |
| `StorageReader.StepsAgree` | l1-contracts/scripts/read-variable.ts:110-194 | one step of navigation in storage and one step inside the decoded value agree |
| `StorageReader.LocateComposes` | l1-contracts/scripts/read-variable.ts:227-260 | navigating a concatenated path is navigating its parts in turn, also through mappings |
| `StorageReader.OverrunReadsNeighbour` | l1-contracts/scripts/read-variable.ts:178-194 | an instance: index 2 of an array of two words returns the following slot |
| `StorageReader.GetValue` | l1-contracts/scripts/read-variable.ts:324-358 | the command returns what the full name denotes and fails exactly when it denotes nothing |
| `StorageReader.PrintedPathReadsProjection` | l1-contracts/scripts/read-variable.ts:264-358 | end to end: the printed path of a variable reads the projection of the variable's value along that path |
| `StoredValues.ReadsStored` | l1-contracts/scripts/read-variable.ts:110-163 | for every type tree, place and value: if the value is laid out there byte by byte, reading the variable shows it, with byte strings that fill whole slots shortened |
| `StoredValues.ReadsBackIff` | l1-contracts/scripts/read-variable.ts:26-163 | a stored variable is read back as it is if and only if no byte string or text in it fills whole slots |
| `StoredValues.ReadsAlong` | l1-contracts/scripts/read-variable.ts:167-260 | reading a part shows the value laid out behind the path, through members at slot and offset, elements at quotient and remainder, and mapping entries |
| `StoredValues.IndexOfNumeral` | l1-contracts/scripts/read-variable.ts:179-179 | the decimal numeral of a number is that index |
| `StoredValues.IntoEntry` | l1-contracts/scripts/read-variable.ts:227-236 | entering a key of a mapping leads to the slot of that entry at shift 0 |
| `StoredValues.PrintedPathReadsStored` | l1-contracts/scripts/read-variable.ts:264-358 | end to end: the printed path of a variable shows the value stored behind it |
| `Primitives.ReadPrimitive` | l1-contracts/scripts/read-variable.ts:20-107 | a stored number, boolean, address, fixed bytes, enum, byte string or text is shown at every slot and byte shift |
| `Primitives.ReadsScalar` | l1-contracts/scripts/read-variable.ts:20-107 | the bytes at the shift, most significant first and in two's complement for signed types, denote the value shown |
| `DynamicBytes.ReadDynamicBytes` | l1-contracts/scripts/read-variable.ts:26-50 | the slot loop returns the data the layout's short and long forms give, with the last slot cut to the remainder |
| `DynamicBytes.ReadsBackUnlessWholeSlots` | l1-contracts/scripts/read-variable.ts:26-50 | stored bytes are returned if and only if they are empty or their length is no multiple of 32; otherwise exactly the last 32 bytes are missing |
| `DynamicBytes.ConcatIsPrefix` | l1-contracts/scripts/read-variable.ts:39-46 | the full slots hold a prefix of the data |
| `Words.UnpackPack` | system-contracts/bootloader/bootloader.yul:4093-4127 | packing a byte string into padded words loses nothing |
| `Words.PackUnpack` | system-contracts/bootloader/bootloader.yul:4093-4127 | words whose padding is zero are the packing of the bytes they hold |
| `AbiBytes.BytesAccepted` | system-contracts/bootloader/bootloader.yul:4093-4127 | `validateBytes` succeeds exactly when the region does not wrap and its padding is zero, and returns the region's end |
| `AbiBytes.WordsAccepted` | system-contracts/bootloader/bootloader.yul:4129-4136 | `validateBytes32Array` succeeds exactly when the region does not wrap, and returns its end |
| `AbiBytes.WrappedRejected` | system-contracts/bootloader/bootloader.yul:4093-4127 | a length so large that rounding wraps is always rejected |
| `AbiBytes.RoundedExact` | system-contracts/bootloader/bootloader.yul:743-747 | rounding up to words is exact except for the wrapped lengths, which become zero |
| `AbiBytes.DynamicSound` | system-contracts/bootloader/bootloader.yul:4093-4136 | whatever a validator accepts is the encoding of a value, ending where the validator says |
| `AbiBytes.DynamicComplete` | system-contracts/bootloader/bootloader.yul:4093-4136 | every encoding of a value is accepted and reads back as that value |
| `TransactionUtils.GetTransactionUtils` | system-contracts/scripts/constants.ts:545-580 | the generator loop emits the accessors, checks and offsets of every word of the head in order, and fails exactly when an error string would exceed 32 characters |
| `TransactionUtils.EmitList` | system-contracts/scripts/constants.ts:555-562 | an array of fixed fields emits one numbered field per element |
| `GeneratedCode.GetterReturns` | system-contracts/scripts/constants.ts:414-422 | running a generated getter returns the word of its field |
| `GeneratedCode.PtrGetterReturns` | system-contracts/scripts/constants.ts:424-433 | running a pointer getter returns the offset plus the field's head word, modulo 2^256 |
| `GeneratedCode.LengthGetterReturns` | system-contracts/scripts/constants.ts:447-464 | running a length getter returns the padded length of the content at the field's pointer |
| `GeneratedCode.DataLengthReturns` | system-contracts/scripts/constants.ts:466-484 | running `getDataLength` sums the fixed part, one length word per dynamic field and all contents |
| `GeneratedCode.ValidatorOutcome` | system-contracts/scripts/constants.ts:486-543 | running `validateAbiEncoding` returns exactly when all fixed words are in range and the walk over the dynamic fields succeeds; otherwise it reverts |
| `TransactionEncoding.ValidatorAcceptsExactlyEncodings` | system-contracts/scripts/constants.ts:513-580 | for every table and memory: accepted if and only if the memory holds the ABI encoding of some well-typed value |
| `TransactionTable.CompilesIff` | system-contracts/scripts/constants.ts:414-580 | for every table: the generated functions have distinct names if and only if names of fields of one kind differ when capitalised and no fixed field is named like an accessor of a dynamic one or like the length function |
| `TransactionTable.TransactionFieldsCompile` | system-contracts/scripts/constants.ts:368-393 | the repository's transaction table satisfies this |
| `TransactionTable.TransactionAccessors` | system-contracts/scripts/constants.ts:368-484 | the 26 generated functions by name and in order, such as `getFrom` and `getPaymasterInputPtr` |
| `TransactionEncoding.AcceptedIsEncoding` | system-contracts/scripts/constants.ts:513-543 | an accepted memory holds the encoding of the value decoded from it |
| `TransactionEncoding.GettersReadFields` | system-contracts/scripts/constants.ts:414-422 | on an encoding every getter returns its field |
| `TransactionEncoding.PtrGettersFindFields` | system-contracts/scripts/constants.ts:424-433 | on an encoding every pointer getter leads to the words of its field, which read back as the value |
| `TransactionEncoding.LengthGettersMeasureFields` | system-contracts/scripts/constants.ts:447-464 | on an encoding every length getter returns the padded length of its field |
| `TransactionEncoding.DataLengthIsEncodedLength` | system-contracts/scripts/constants.ts:466-484 | on an encoding `getDataLength` is the encoding's length modulo 2^256 |
| `TransactionEncoding.AcceptedRegionsAreContiguous` | system-contracts/scripts/constants.ts:513-543 | in accepted memory the dynamic regions start right after the head and follow each other without gap or overlap |
| `TransactionEncoding.AcceptedEndsAtDataLength` | system-contracts/scripts/constants.ts:466-543 | the last region ends at the offset plus `getDataLength`, modulo 2^256 |
| `LogPagination.GetLogsPaginated` | l1-contracts/scripts/discover-legacy-bridged-tokens.ts:158-198 | under every failure pattern: a result is every log of the range once and in block order; the queries halve the window after a refusal and double it up to the block step after an answer; failures never exceed successes plus log2 of the step, successes never exceed the number of blocks; it fails exactly when a window of one block is refused |
| `LogPagination.GivesUpIff` | l1-contracts/scripts/discover-legacy-bridged-tokens.ts:168-196 | the scan fails if and only if, with `w` the window after the last answer or the block step if there was none, the `log2(w) + 1` calls from there on are all refused |
| `LogPagination.GivesUpOnOneBlock` | l1-contracts/scripts/discover-legacy-bridged-tokens.ts:168-196 | for a range of one block: if and only if the first `log2(blockStep) + 1` calls are all refused |
| `LogPagination.EndsExactlyForPositiveStep` | l1-contracts/scripts/discover-legacy-bridged-tokens.ts:168-196 | without failures the cursor passes the end if and only if the range is empty or the step is positive |
| `TokenDiscovery.Collect` | l1-contracts/scripts/discover-legacy-bridged-tokens.ts:239-337 | the written list is ascending without duplicates and holds a token exactly if it is not ETH and a deposit names it or an asset resolves to it; every counter is exact, resolved and skipped assets each counted once |
| `TokenDiscovery.Discover` | l1-contracts/scripts/discover-legacy-bridged-tokens.ts:202-347 | the list depends only on what the chain emitted, not on the block step or on which calls failed; it fails exactly when the range is empty or one of the scans gives up |
| `TokenDiscovery.ListingUnique` | l1-contracts/scripts/discover-legacy-bridged-tokens.ts:330-337 | a set has only one such listing |
| `MigrationScan.BinarySearchDeployBlock` | l1-contracts/scripts/collect-gateway-migration-intervals.ts:121-137 | the result separates undeployed from deployed blocks; for code that stays deployed it is the first deployed block exactly when the code is deployed at the end |
| `MigrationScan.ScanChunks` | l1-contracts/scripts/collect-gateway-migration-intervals.ts:217-246 | the chunks tile the range: every distinct event of both contracts is kept exactly once |
| `MigrationScan.KeepChunk` | l1-contracts/scripts/collect-gateway-migration-intervals.ts:228-240 | one chunk extends what is kept to its last block |
| `MigrationScan.Keep` | l1-contracts/scripts/collect-gateway-migration-intervals.ts:221-239 | deduplication by transaction and log index keeps each event once, across both contracts |
| `MigrationWalk.WalkOutcome` | l1-contracts/scripts/collect-gateway-migration-intervals.ts:264-349 | the walk finishes if and only if all starts target the legacy gateway and every chain alternates; it then yields exactly the consecutive pairs and leaves open exactly the unmatched starts |
| `MigrationWalk.SpansFollowClosings` | l1-contracts/scripts/collect-gateway-migration-intervals.ts:305-348 | intervals appear in the order of the finalizations |
| `MigrationWalk.SpansOrdered` | l1-contracts/scripts/collect-gateway-migration-intervals.ts:270-349 | spans of one chain end after they start and do not overlap |
| `MigrationWalk.IntervalsOrdered` | l1-contracts/scripts/collect-gateway-migration-intervals.ts:270-349 | with counters that never decrease, whatever events were found: every derived interval has its lower numbers at most its upper ones, and intervals of one chain do not overlap |
| `MigrationWalk.SortedByLeq` | l1-contracts/scripts/collect-gateway-migration-intervals.ts:270-280 | the sort yields a stream ascending in block, kind and log index, also when events are level |
| `MigrationWalk.ListedSpansOrdered` | l1-contracts/scripts/collect-gateway-migration-intervals.ts:282-348 | listed spans end after they start, and spans of one chain do not overlap in blocks |
| `MigrationWalk.FetchProxies` | l1-contracts/scripts/collect-gateway-migration-intervals.ts:254-262 | exactly the started chains get a proxy |
| `MigrationWalk.DeriveIntervals` | l1-contracts/scripts/collect-gateway-migration-intervals.ts:274-349 | sorting and walking yields, chain by chain, the chain's and the gateway's executed batches in the blocks of each start and return, in order when counters never decrease; a finalized chain always has a proxy |
| `MigrationWalk.IntervalsMeasurePairs` | l1-contracts/scripts/collect-gateway-migration-intervals.ts:305-348 | field by field: the chain's counter at start and return gives the migration numbers, the gateway's the settlement bounds, for each consecutive pair of a chain's events |
| `MigrationCollect.Collect` | l1-contracts/scripts/collect-gateway-migration-intervals.ts:156-349 | the whole command, for every history and every way two contracts report it: it scans from the block of deployment on, succeeds exactly when the sorted history from there on alternates for every chain, for a proper history exactly when no chain restarts in the block of its return; the `k`-th interval of a chain holds the chain's and the gateway's counters in the blocks of its `2k`-th and next event |
| `MigrationOrder.AcceptedExactlyWithoutRestart` | l1-contracts/scripts/collect-gateway-migration-intervals.ts:270-280 | a history in order of emission is accepted if and only if no chain restarts in the block of its return |
| `MigrationOrder.RestartExample` | l1-contracts/scripts/collect-gateway-migration-intervals.ts:270-303 | every start, return and restart of this kind is a proper history and is rejected |
| `IntervalFile.LastWriteWins` | l1-contracts/scripts/collect-gateway-migration-intervals.ts:400-411 | rewriting twice gives the text of the second rewrite alone, for every file |
| `IntervalFile.BaseOfRewrite` | l1-contracts/scripts/collect-gateway-migration-intervals.ts:400-411 | everything before the section survives a rewrite |
| `IntervalFile.WriteThenRead` | l1-contracts/scripts/collect-gateway-migration-intervals.ts:426-435 | the serialized intervals read back, whatever the file held before |
| `IntervalFile.LineSurvivesIff` | l1-contracts/scripts/collect-gateway-migration-intervals.ts:392-411 | a line that is not blank keeps its place if and only if neither it nor a line before it opens the section |
| `IntervalFile.PlaceholderSurvives` | l1-contracts/scripts/collect-gateway-migration-intervals.ts:392-404 | in every file, every commented-out line in front of the section is kept in its place |
| `FactoryDeps.BatchesConcatenate` | system-contracts/scripts/deploy-preimages.ts:312-330 | the batches concatenate to the input and none is empty |
| `FactoryDeps.BatchesWithinLimitIff` | system-contracts/scripts/deploy-preimages.ts:289-330 | every batch is within the limit if and only if every dependency is |
| `FactoryDeps.GreedyOptimal` | system-contracts/scripts/deploy-preimages.ts:312-330 | no order-preserving split within the limit has fewer batches |
| `FactoryDeps.LoadIsCombinedLength` | system-contracts/scripts/utils.ts:127-133 | a batch's load is the combined length of its bytecodes |
| `FactoryDeps.FilterPublishedFactoryDeps` | system-contracts/scripts/utils.ts:179-205 | keeps exactly the unpublished bytecodes in order, with their total length |
| `FactoryDeps.ZkSyncDeployer.PublishFactoryDeps` | system-contracts/scripts/deploy-preimages.ts:103-112 | the transaction is sent unless it is rejected, and the nonce advances by one only after its commit |
| `FactoryDeps.ZkSyncDeployer.PublishDependencies` | system-contracts/scripts/deploy-preimages.ts:312-330 | sends exactly the greedy batches under consecutive nonces and succeeds exactly when all are committed; otherwise exactly those before the first that is not, and itself unless it was rejected |
| `FactoryDeps.ZkSyncDeployer.PrepareContractsForPublishing` | system-contracts/scripts/deploy-preimages.ts:267-310 | succeeds exactly when everything to publish fits, and returns it in order |
| `FactoryDeps.ZkSyncDeployer.PublishSystemContracts` | system-contracts/scripts/deploy-preimages.ts:267-330 | succeeds exactly when everything fits and every batch is committed; then the transactions together carry exactly the unpublished bytecodes of all contracts in order; otherwise nothing is sent, or the batches up to the first not committed; every transaction is within the byte limit under the next nonce |
| `FactoryDeps.PublishesExactly` | system-contracts/scripts/deploy-preimages.ts:267-330 | the greedy batches together carry every unpublished bytecode of every contract, in order, and nothing else |
| `FactoryDeps.UnpublishedCounts` | system-contracts/scripts/utils.ts:179-205 | the filter keeps every occurrence of an unpublished bytecode and none of a published one |
| `LcovTool.ParseLcov` | l1-contracts/scripts/merge-coverage.ts:41-74 | the line loop computes the fold over the classified lines |
| `LcovMeaning.ParsedHits` | l1-contracts/scripts/merge-coverage.ts:41-74 | for every report and file: a file is stored exactly if one of its records is closed, a line has hits exactly if such a record reports it, and then the largest count reported |
| `LcovTool.StoreRecord` | l1-contracts/scripts/merge-coverage.ts:57-66 | a repeated file keeps its first verbatim lines and takes line-wise maxima |
| `LcovTool.MergeLines` | l1-contracts/scripts/merge-coverage.ts:60-62 | the in-place loop yields exactly the line-wise maximum of both records |
| `LcovTool.ToLcovString` | l1-contracts/scripts/merge-coverage.ts:118-152 | the printer's loops produce the report of the sorted files |
| `LcovTool.PrintData` | l1-contracts/scripts/merge-coverage.ts:135-147 | each line is printed once as `DA:` with number and hits, in ascending order; the totals are the number of lines and of covered lines |
| `LcovTool.PrintRecord` | l1-contracts/scripts/merge-coverage.ts:123-148 | the exact lines of a printed record, from `TN:` to `end_of_record` |
| `LcovFile.PrintParses` | l1-contracts/scripts/merge-coverage.ts:118-152 | a printed report is well formed and reads back as the records it prints, without test names |
| `LcovFile.NormalForm` | l1-contracts/scripts/merge-coverage.ts:41-152 | parsing and printing a printed report changes nothing, and it holds the same records as the input up to test names |
| `LcovFile.ConcatenatedReports` | l1-contracts/scripts/merge-coverage.ts:57-66 | parsing two reports one after the other combines their records, taking line-wise maxima where both have a file |
| `LcovFile.ParsedProper` | l1-contracts/scripts/merge-coverage.ts:41-74 | parsed records have named files and verbatim lines that would be kept again |
| `LcovFormat.CallsRoundTrip` | l1-contracts/scripts/merge-coverage.ts:239-248 | a printed function record reads back, also for names with commas |
| `LcovMergeTool.ParseAnvilData` | l1-contracts/scripts/merge-coverage.ts:85-113 | the line loop computes the fold over the classified lines |
| `LcovMeaning.AnvilHits` | l1-contracts/scripts/merge-coverage.ts:85-113 | the same with the last closed record of a file alone, for lines and for functions |
| `LcovMergeTool.AnvilWithinReport` | l1-contracts/scripts/merge-coverage.ts:85-113 | both parsers find the same files, and this one never more hits |
| `LcovAgreement.ParsersAgreeIff` | l1-contracts/scripts/merge-coverage.ts:57-107 | for every report and file: both parsers agree on the hits if and only if the last record dominates the earlier ones line by line |
| `LcovAgreement.ParsersAgreeOnSingleRecords` | l1-contracts/scripts/merge-coverage.ts:57-107 | both parsers agree on a file that is closed once |
| `LcovAgreement.HitsLost` | l1-contracts/scripts/merge-coverage.ts:106-108 | a second record with fewer hits replaces the first, while the full parser keeps the larger count |
| `LcovMergeTool.RebaseLines` | l1-contracts/scripts/merge-coverage.ts:231-235 | every line of the base gets Anvil's hits or zero, and the counter is the number of covered lines |
| `LcovMergeTool.RebaseFunctions` | l1-contracts/scripts/merge-coverage.ts:237-252 | both passes over the verbatim lines yield the rebased lines |
| `LcovMergeTool.MergeHits` | l1-contracts/scripts/merge-coverage.ts:268-274 | hits become line-wise maxima, and the counter is the number of newly covered lines |
| `LcovMergeTool.MergeFunctions` | l1-contracts/scripts/merge-coverage.ts:276-302 | both passes yield the merged lines, and the counter is the number of newly reached functions |
| `LcovMergeTool.LineLaw` | l1-contracts/scripts/merge-coverage.ts:224-274 | both outputs have exactly Foundry's files and lines; a rebased hit is Anvil's or zero, a merged hit the maximum of Foundry's and the rebased one; covered lines are the union |
| `LcovMergeTool.FunctionLaw` | l1-contracts/scripts/merge-coverage.ts:237-302 | a rebased function hit is Anvil's or zero, a merged one the maximum of Foundry's and the rebased one; all other lines stay as they are |
| `LcovMergeTool.CountLaw` | l1-contracts/scripts/merge-coverage.ts:249-302 | the rebased count of functions hit is always right; the merged one if and only if Foundry's was |
| `LcovMerge.RebasedConsistent` | l1-contracts/scripts/merge-coverage.ts:237-252 | recounting makes every count of functions hit agree with the function records |
| `LcovMerge.MergedConsistent` | l1-contracts/scripts/merge-coverage.ts:276-302 | adding the newly reached functions keeps the count right exactly when it was |
| `LcovMergeTool.MergeCoverage` | l1-contracts/scripts/merge-coverage.ts:194-317 | both written files, read back, have Foundry's files, lines and functions; the rebased one shows Anvil's hits or zero, the merged one the larger of both; counts of functions hit are right, in the merged file exactly when Foundry's were |
| `BundleManifest.AllRunsKeep` | protocol-ops/src/common/output.rs:97-173 | over every sequence of runs, also failing ones: indices stay strictly increasing, earlier entries stay a prefix, and every listed file still holds its envelope |
| `BundleManifest.RunKeeps` | protocol-ops/src/common/output.rs:97-173 | one run, successful or not, keeps all of this |
| `BundleManifest.ListedFilesDistinct` | protocol-ops/src/common/output.rs:122-135 | listed file names are pairwise distinct |
| `BundleManifest.FileNamesDiffer` | protocol-ops/src/common/output.rs:122-131 | equal file names carry equal indices, whatever step and target |
| `BundleManifest.SafeTxsFromBundle` | protocol-ops/src/common/output.rs:209-232 | succeeds exactly when every transaction has `to`, `value` and `data`, and keeps each field under its name, in order |
| `BundleManifest.SuccessRecords` | protocol-ops/src/common/output.rs:108-173 | after a successful run, bundle by bundle: the file name, every field of the file and every field of the manifest entry, numbered on from the largest index listed |
| `BundleManifest.OutDir.WriteSafeBundlesDir` | protocol-ops/src/common/output.rs:97-173 | the directory after the command is the one the run model gives; success is reported exactly when the manifest was readable, every bundle was stored and the manifest saved |
| `BundleManifest.OutDir.WriteBundles` | protocol-ops/src/common/output.rs:122-160 | the loop writes the files and collects the entries up to the first failure |
| `BundleManifest.OrphanSharesIndex` | protocol-ops/src/common/output.rs:108-115 | an instance: after a run that failed at its second bundle the next run reuses the first file's index |
| `BundleDirectory.DirectoryReflectsRuns` | protocol-ops/src/common/output.rs:97-173 | after every history from the empty directory: the files are those some run wrote, the listed ones those a successful run wrote, and numbering continues after the successful runs |
| `BundleDirectory.OnlyListedIff` | protocol-ops/src/common/output.rs:97-173 | the files are exactly the listed ones if and only if every file a failed run left is adopted by a later successful run |
| `BundleDirectory.SavedRunsLeaveOnlyListed` | protocol-ops/src/common/output.rs:97-173 | in particular when every run that wrote a file saved its manifest |
| `BundleDirectory.RetryAdopts` | protocol-ops/src/common/output.rs:97-173 | repeating a failed command adopts the files it left |
| `BundleDirectory.IndicesUnique` | protocol-ops/src/common/output.rs:89-131 | a sufficient condition for indices to be unique: every leftover file was adopted (`BundleDirectory.IndicesDistinctIff` is exact) |
| `BundleDirectory.IndicesDistinctIff` | protocol-ops/src/common/output.rs:97-173 | after every history: no two files carry the same index if and only if runs that used the same number gave the file the same name |
| `BundleDirectory.NumberingContinuesIff` | protocol-ops/src/common/output.rs:89-131 | for every history: every run that writes starts past all existing files if and only if no run writes after one that wrote without saving its manifest |
| `BundleDirectory.ContinuesIff` | protocol-ops/src/common/output.rs:89-131 | for every run of every history: it starts past all existing files if and only if the saved runs before it have taken numbering past the files of every failed one |
| `BundleDirectory.NextWriteReusesIndex` | protocol-ops/src/common/output.rs:89-131 | after a run that wrote without saving, the next run to write anything starts at the same index |
| `BundleDirectory.WritesIff` | protocol-ops/src/common/output.rs:121-150 | a run leaves a file exactly when its first bundle is complete and its file is saved or left behind |
| `ImportSyntax.PrintedImportMatches` | scripts/unify_and_clean_imports.py:96-96 | the canonical import line matches the regular expression with its own path and symbol text |
| `ImportPattern.MatchIff` | scripts/unify_and_clean_imports.py:16-16 | a line matches with given groups if and only if it is spelled as the regular expression says |
| `ImportSyntax.PrintedSymbolsReadBack` | scripts/unify_and_clean_imports.py:42-42 | splitting and stripping a joined symbol list returns the symbols |
| `ImportSyntax.MatchedIsProper` | scripts/unify_and_clean_imports.py:16-42 | every matched import has a non-empty path without quotes and proper symbols |
| `ImportUnifier.ProcessIdempotent` | scripts/unify_and_clean_imports.py:37-114 | running the tool on its own output changes nothing, for every file |
| `ImportResult.WrittenIsUnified` | scripts/unify_and_clean_imports.py:37-114 | for every file, rewritten or not: the written text imports no path twice, every symbol list ascends, and exactly the used symbols imported from a path before are imported from it |
| `ImportUnifier.RewrittenNormal` | scripts/unify_and_clean_imports.py:72-114 | a rewritten file needs no rewriting |
| `ImportUnifier.UnifiedSymbols` | scripts/unify_and_clean_imports.py:54-97 | the unified list is sorted, duplicate-free and holds exactly the used symbols imported from the path |
| `ImportUnifier.SymbolsMembers` | scripts/unify_and_clean_imports.py:54-70 | the collected symbols of a path are exactly its used symbols, each once |
| `ImportUnifier.RewrittenPathsDistinct` | scripts/unify_and_clean_imports.py:99-114 | no path is imported twice in the result |
| `ImportUnifier.RewrittenKeepsPaths` | scripts/unify_and_clean_imports.py:99-114 | every imported path has its unified line in the result |
| `ImportUnifier.ProcessKeepsOthers` | scripts/unify_and_clean_imports.py:99-114 | the other lines of the file stay in order; a rewrite weaves in blank lines only, one for each path from which nothing is used |
| `ImportUnifier.UseUnchanged` | scripts/unify_and_clean_imports.py:56-66 | rewriting changes no symbol's use |
| `ImportUnifier.ImportKeptIff` | scripts/unify_and_clean_imports.py:99-114 | in a rewritten file an import line survives exactly when it already is the unified line of its path |
| `ImportCleaner.FirstPass` | scripts/unify_and_clean_imports.py:37-70 | collects used symbols and first indices of every path and detects duplicates, disorder and unused symbols |
| `ImportCleaner.HasRepeatedPath` | scripts/unify_and_clean_imports.py:72-80 | the count detects exactly that a path is imported twice |
| `ImportCleaner.UnifiedText` | scripts/unify_and_clean_imports.py:86-97 | the text of a path, the same with and without the exemption of dependency files |
| `ImportCleaner.SecondPass` | scripts/unify_and_clean_imports.py:99-114 | the first import of each path becomes the unified line, later ones vanish, other lines stay |
| `ImportCleaner.ProcessFile` | scripts/unify_and_clean_imports.py:23-119 | the tool computes the rewrite that the lemmas above are about |
| `LimbHex.ConvertedValue` | tools/verifier-gen/src/utils.rs:21-27 | the text denotes the sum of `limb[i] * 2^(64 i)` |
| `LimbHex.ConversionInjective` | tools/verifier-gen/src/utils.rs:21-27 | lists with the same text are equal |
| `LimbHex.FormatDenotesIff` | tools/verifier-gen/src/utils.rs:8-19 | the literal denotes the number if and only if the number is not zero; zero prints no digits |
| `LimbHex.ConstantOfLimbs` | tools/verifier-gen/src/utils.rs:8-27 | the constant of a list of limbs denotes their sum unless all are zero |

## Left out

- The Solidity contracts, deployment and upgrade commands, wallets, Docker, forge and anvil processes, command lines and logging: they are inputs or calls that may fail, or do not appear.
- Keccak, Blake2s, SHA-256 and CREATE2: slot functions and hashes are parameters.
- Texts of values in `read-variable.ts`: numbers stay numbers and strings stay bytes, so decimal and hexadecimal texts and the failure of `toUtf8String` on bytes that are no UTF-8 do not appear; types are named by kind and size, as the compiler keeps label and size in step.
- Type tables as the compiler prints them: a type is a tree, so cyclic tables and the parsing of a static array's length out of its type name do not appear.
- StorageReader.PartIsProjection: does not compare where an index leaves the array (`StorageReader.ReadIndex` and `StorageReader.OverrunOnPath` say what is read there) or behind whole mappings, which `readVariable` cannot read.
- StorageReader.StepsAgree: does not compare where an index leaves the array; `StorageReader.ReadIndex` says what is read there.
- StorageReader.ReadPartOfArray: JavaScript's conversion of index texts other than plain decimals is an uninterpreted function to a natural number or none; negative and fractional indices count as none, and numbers are unbounded.
- TransactionUtils.GetTransactionUtils: emits Yul as syntax trees rather than text, with the helper functions of the bootloader built in; name shadowing between local variables and functions is not modelled.
- TransactionEncoding.ValidatorAcceptsExactlyEncodings: takes a table whose generated function names are distinct, as a Yul compiler demands; `TransactionTable.CompilesIff` says which tables these are.
- LogPagination.GetLogsPaginated: takes a positive block step; what happens otherwise is `LogPagination.EndsExactlyForPositiveStep`. The contents of a log are abstract.
- TokenDiscovery.Discover: addresses are numbers, ordered as their lower-case hexadecimal texts are.
- MigrationScan.ScanChunks: takes transaction hash and log index to identify an event, as the chain does; a failing query ends the script and is not modelled.
- MigrationCollect.Collect: takes a history whose events transaction hash and log index identify; that the scan starts at the first deployed block is stated for code that stays deployed. The short cut for an environment without a gateway is left out.
- IntervalFile.WriteThenRead: the reader it uses is the inverse needed for the statement; the TOML parser that consumes the file is not part of this model.
- FactoryDeps.ZkSyncDeployer.PublishSystemContracts: publishing the bootloader, the default account and the EVM emulator, which has no size guard, is left out.
- FactoryDeps.ZkSyncDeployer.PublishDependencies: gas prices and the later report on processed transactions are left out.
- LcovTool.ParseLcov: takes reports whose `DA:` lines inside a record start with two unsigned numbers; other lines there make JavaScript record NaN. `localeCompare` is an arbitrary total order on file names, and numbers are unbounded.
- LcovMergeTool.ParseAnvilData: the same holds for `FNDA:` lines inside a record.
- BundleManifest.AllRunsKeep: saving the manifest is atomic; entries without a numeric index, 64-bit overflow of the index and path separators in step names are not modelled, and the description's fixed wording is reduced to the names it lists.
- ImportSyntax.MatchedIsProper: white space is JavaScript's set of characters, from which Python's differs in a few control characters; reading and writing lines is the identity.
- Governance call encoding, readiness checks, version packing, address aliasing and constants: they would only add easy members.
