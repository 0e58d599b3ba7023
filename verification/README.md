# Verified model of the crust storage worker

The storage worker keeps files and reserved space for a chain and proves regularly, in signed work reports, what it
holds. This project models the state and the algorithms of the worker behind the SGX and HTTP plumbing, in Dafny, and
proves what the code keeps. `dafny verify dfyconfig.toml` checks everything.

What is modelled, module by module:

- `Bytes`, `Text`, `Buffers`: digests and their hex text, decimal text, removal of characters, copies into a buffer.
- `Json`, `JsonReader`, `JsonLayout`, `JsonStops`, `JsonRoundTrip`, `JsonExact`, `HandText`: the values, the printer and
  the parser of EJson. A layout is a value together with the white space of one text for it; the central theorem says
  that the parser reads every layout; dump and load are inverse on exactly the sound containers; on any other text it is
  proved where the parser stops. The hand-appended texts of the worker are proved to be layouts, so that one theorem
  covers them all.
- `MerkleText`, `MerkleScan`, `MerkleSeal`, `MerkleShape`, `MerkleFiles`, `MerkleUnseal`, `MerkleCheck`,
  `MerkleValidate`: sealing a tree of blocks in place, the text it leaves, unsealing in any order, the check of a tree
  and the check of one file by substring search.
- `FileModel`, `Ledger`, `LedgerRuns`, `LedgerSizes`, `LedgerHistory`, `LedgerText`: the file list with its three
  status characters, the work report and the chain beside it, as a step system whose steps are the regions between
  lock releases.
- `SrdAllocation`, `SrdDecrease`, `SrdQuota`, `SrdAccounting`: spreading space over disks, taking it back, its limit
  and its bookkeeping.
- `Persistence`: values in the DB, large ones in pieces.
- `StateText`, `Handoff`, `HandoffSeal`, `Metadata`: the texts that survive a restart or an upgrade, their way back, and
  what the signature over the upgrade data covers.
- `EnclaveAdmission`, `AdmissionRuns`, `AdmissionRules`: the bounded slots and the counters in front of the enclave, as a
  concurrent step system; who is let in, kept out or gives up, how far the counter is from the slots, which slots leak
  and how admission jams.
- `ReportGating`: heights, eras and validation rounds in front of a report.

Conventions. SHA-256, sealing, signatures, file access and block hashes are parameters; where a result needs it,
unsealing inverts sealing for the data at hand and a signature verifies for exactly the signed message. Code that
changes state is a method (on a class where the source has an object) proved equal to a function of the old state; the
lemmas are about those functions. A `std::map` is a sequence in key order. A read past the end of a text, which the
source would make without noticing, is an outcome of its own (`Fault`, `OverRead`, `ShortHash`, `Unsafe`, `Overrun`);
the NUL behind a `std::string` can be read. In the ledger every sealed file carries a number that the code does not
have and that no modelled operation reads; it tells two sealings of the same file apart.

Where the code differs from what one would expect, the model follows the code:

- an unknown escape in a JSON string yields a backslash and drops the character; the hash tag is stripped even when
  what follows is no digest; object keys are printed raw but read through an escaping ToString; the null test of the
  pointer parser is the wrong way round, and the pointer form ignores the size it is given unless that is zero; a
  broken array loses all its items, a broken object keeps the fields read so far (`JsonStops.ArrayStops`,
  `JsonStops.MembersStop`);
- replacing a file saves the new one and then deletes the old one, so a sealed block whose hash equalled the old one
  is lost (`MerkleUnseal.SealingLoses`, `MerkleUnseal.SealThenUnseal` and `MerkleValidate.SealedIsWhole` state exactly
  what then still holds);
- disks are told apart by as many digits of their id as it has bytes, so by half of it, and the first statfs that
  fails ends the list (`SrdAllocation.EveryDiskChosen`);
- restoring space lists drops paths without hashes, so an upgrade with paths but no hash at all is refused
  (`Handoff.HandoffRestores` states the exact condition), and the buffer of serialize_file is too short for an empty
  file list (`Handoff.BufferFits` states exactly when it is long enough);
- the signature of the upgrade data covers the hashes in the lists and in the entries, but neither the paths they belong
  to nor the other fields of an entry, and height and block hash only one behind the other
  (`HandoffSeal.AcceptedIsSigned`, `HandoffSeal.OnlyTheSignedIsRestored` and `HandoffSeal.RestoredHasTheHashes`);
- heights are unsigned words: the gate accepts heights below the stored one, and the check before an upgrade wraps
  around for nine heights (`ReportGating.BelowStoredIsAccepted`, `ReportGating.UpgradeIsGated`);
- a timeout drops a key without lowering the counter, and a call made from inside a call is freed twice, as happens
  when the main loop changes space (`AdmissionRuns.CounterIsKeysPlusDrift` is exact,
  `AdmissionRuns.NestedCallsOfTheWorker` names the calls); the status BUSY is never reset after an admission, so slots
  leak (`AdmissionRuns.LeakedExactly`) until nobody gets in any more (`AdmissionRuns.JamIsReachable`);
- a call is counted as invoked only after it has queued, so the upgrade number does not see a call between the two
  increments (`EnclaveAdmission.UpgradeSeesAll` is exact, `AdmissionRuns.QueuedIsNotSeen` gives the run), nor one that
  is announced behind the read of its counter (`AdmissionRuns.ReadsSee`, `AdmissionRuns.MissedWhileReading`);
- a restore of metadata with another key pair than the present one is only logged (`Metadata.OtherPairIsRestored`),
  and restoring space leaves the record of a path that does not come back (`StateText.RestoredRecord`);
- a pause of the reports for an upgrade lets one turn in 21 through (`ReportGating.PauseLetsThrough`);
- srd_decrease removes more than asked when no number of layers has exactly so many entries (`SrdDecrease.ExactWhen`
  and `SrdDecrease.TakesWhatIsAsked` are exact, `SrdDecrease.OvershootIsTight` gives inputs that reach the bound);
  asked for nothing it returns at once, whatever is given; a record of assigned space may stay too high
  (`SrdAccounting.OverlapDrifts`);
- deleting pieces of a value leaves older pieces and an older plain value in the DB (`Persistence.StaleStays`), and a
  key that is a piece or sum name of another key loses its value (`Persistence.IndependenceIsExact`; no key of the
  worker is one, `Persistence.WorkerReadsLast`).

## Model

| member | source | states |
|---|---|---|
| Bytes.CharToInt | src/enclave/utils/EUtils.cpp:131-140 | a digit value below 16 for every character; what is no digit counts as 0 |
| Bytes.HexstringSafe | src/enclave/utils/EUtils.cpp:185-210 | the loop over a buffer yields the two-digit text of every byte |
| Bytes.HexStringToBytes | src/enclave/utils/EUtils.cpp:229-252 | no buffer for an empty or odd text, else the byte of every pair of digits |
| Bytes.UnhexHex | src/enclave/utils/EUtils.cpp:185-252 | decoding the text of any byte string gives it back |
| Bytes.HexUnhex | src/enclave/utils/EUtils.cpp:185-252 | lower-case hex text survives decoding and encoding |
| Bytes.DigitsRead | src/enclave/utils/EUtils.cpp:131-140 | each digit reads as its place, in upper case as in lower case, any other character as zero |
| Text.RemoveCharConcat | src/enclave/utils/EUtils.cpp:710-713 | removing a character works piece by piece |
| Json.LookupPut | src/enclave/utils/EJson.h:341-345 | operator[] followed by an assignment changes exactly that key |
| Json.PutAllAscending | src/enclave/utils/EJson.h:341-345 | fields inserted in key order stand in that order |
| JsonReader.ConsumeWs | src/enclave/utils/EJson.h:676-686 | skips exactly the white space |
| JsonReader.ReadNext | src/enclave/utils/EJson.h:1202-1255 | dispatches on the first character as the parser does, in both overloads |
| JsonReader.ReadObject | src/enclave/utils/EJson.h:688-782 | reads the members of an object; what is broken stops it where the source stops |
| JsonReader.ReadArray | src/enclave/utils/EJson.h:784-860 | reads the items of an array, an empty array after a broken separator |
| JsonReader.ReadString | src/enclave/utils/EJson.h:862-1012 | unescapes, strips the hash tag, turns tagged text into a hash; an unknown escape yields a backslash |
| JsonReader.ReadNumber | src/enclave/utils/EJson.h:1014-1140 | a 64-bit integer up to a delimiter, null at any other character, an exponent that drops its first character |
| JsonReader.Load | src/enclave/utils/EJson.h:1257-1262 | an empty text is null at once, any other is read with its NUL behind it |
| JsonReader.BlankIsNull | src/enclave/utils/EJson.h:1257-1262 | a text of white space alone reads as null, up to its NUL |
| JsonLayout.ParseDoc | src/enclave/utils/EJson.h:672-1255 | every text with any white space that lays out a value is parsed to that value, up to its last character |
| JsonLayout.ParseLayout | src/enclave/utils/EJson.h:672-1255 | what the parser makes of any layout, tagged texts and nulls of the pointer form included: the value it is seen as, or a fault, or a stop at a null |
| JsonLayout.ScanEscaped | src/enclave/utils/EJson.h:36-68 | escaping a string and scanning it gives it back |
| JsonLayout.EscapeTable | src/enclave/utils/EJson.h:36-68 | the seven characters that are escaped, and how |
| JsonLayout.InterpretHash | src/enclave/utils/EJson.h:555-566 | a printed digest is read as that digest |
| JsonStops.ArrayStops | src/enclave/utils/EJson.h:784-860 | on any text: an array ends behind its bracket or loses all its items in front of a character that is neither comma nor bracket |
| JsonStops.ObjectStops | src/enclave/utils/EJson.h:688-782 | on any text: an object ends behind its brace, or in front of what is no colon, comma or brace |
| JsonStops.MembersStop | src/enclave/utils/EJson.h:700-782 | and keeps every key read before |
| JsonStops.StringStops | src/enclave/utils/EJson.h:862-1012 | on any text: a string ends behind its quote, or is empty in front of the u of an escape without four digits |
| JsonStops.CodeIsKept | src/enclave/utils/EJson.h:862-1012 | an escape by code is kept as written if four digits follow and breaks the text off if one of the next four characters is none |
| JsonStops.EscapesRead | src/enclave/utils/EJson.h:862-1012 | an escape of an unknown letter leaves a backslash |
| JsonStops.NumberStops | src/enclave/utils/EJson.h:1014-1140 | on any text: a number read ends at a delimiter and has no point; what breaks off leaves null behind the character at which it does |
| JsonStops.ExponentReads | src/enclave/utils/EJson.h:1014-1140 | an exponent loses its first character and the one behind a sign; what follows its digits decides |
| JsonStops.WordsStop | src/enclave/utils/EJson.h:1142-1200 | what is no word is null where it stands; null moves the string form and not the pointer form, and what is no null the other way round |
| JsonRoundTrip.FlatDump | src/enclave/utils/EJson.h:518-572 | dump prints one particular layout of the value |
| JsonRoundTrip.DumpOneMember | src/enclave/utils/EJson.h:518-572 | how the line of a member is laid out |
| JsonRoundTrip.LoadDump | src/enclave/utils/EJson.h:518-572 | Load(dump(j)) = j for every sound object or array, in both overloads, whatever memory follows |
| JsonExact.LoadDumpExactly | src/enclave/utils/EJson.h:518-572 | every container the program can build is read back from its dump if and only if it is sound: no tag in front of a string or key, every key an escaped text, no null for the pointer form |
| JsonRoundTrip.LoadStrippedDump | src/enclave/utils/EUtils.cpp:710-713 | the same after newlines, backslashes and spaces are removed, if no text holds a blank or an escaped character |
| JsonExact.LoadStrippedDumpExactly | src/enclave/utils/EUtils.cpp:710-713 | after the removals if and only if it is sound and no text in it holds a blank or an escaped character |
| JsonExact.ParsedIsFine | src/enclave/utils/EJson.h:672-1255 | whatever the parser returns has escaped texts for keys; from a text without blanks and escapes all its texts are without them |
| JsonRoundTrip.StringSurvives | src/enclave/utils/EJson.h:555-572 | a string survives dump and load if and only if it does not start with the hash tag |
| JsonRoundTrip.KeySurvives | src/enclave/utils/EJson.h:702-712 | keys are printed raw and read through ToString: of all keys, those with quotes and backslashes too, exactly the escaped texts without the tag in front survive |
| JsonRoundTrip.RawKeySurvives | src/enclave/utils/EJson.h:702-712 | of the keys without quote, backslash and tag these are exactly the plain ones |
| MerkleText.TagsExactly | src/enclave/storage/Storage.cpp:236-301 | in the text of a well-formed tree the leaf tag stands at the leaf positions and nowhere else |
| MerkleText.LeafTexts | src/enclave/storage/Storage.cpp:236-240 | behind the tag of leaf k stands its hash and then the size tag |
| MerkleText.LeafPosSpaced | src/enclave/storage/Storage.cpp:236-301 | the leaf positions ascend with room for a tag and a hash between them |
| MerkleScan.AdvanceCursor | src/enclave/validator/Validator.cpp:347-356 | the do-while loop moves to the wanted match or finds none |
| MerkleScan.ScanLeaves | src/enclave/validator/Validator.cpp:342-417 | the scan over the sampled indexes reads the texts between the two tags |
| MerkleScan.ScanReadsLeaves | src/enclave/validator/Validator.cpp:326-369 | for any ascending indexes the substring scan reads exactly those leaf hashes; "not found" exactly when an index is no leaf index |
| MerkleSeal.Vault.SealFile | src/enclave/storage/Storage.cpp:149-310 | the recursion in place equals the specified sealing, for any hash texts: files, tree, text, size and block counter, or the error and the files so far |
| MerkleSeal.Vault.UnsealFile | src/enclave/storage/Storage.cpp:349-420 | the loop over the listed files equals the specified unsealing, or stops with its error |
| MerkleShape.SealNodeWell | src/enclave/storage/Storage.cpp:149-310 | sealing keeps the shape, rehashes bottom up, appends exactly the rendering of the stored tree, counts the leaves and sums the sealed sizes |
| MerkleFiles.BlockNameInjective | src/enclave/storage/Storage.cpp:162 | a block name determines the block number and the hash |
| MerkleFiles.SealNodeFiles | src/enclave/storage/Storage.cpp:158-256 | a subtree is sealed if and only if its blocks are intact, and then exactly its blocks are replaced, of which the colliding ones are lost |
| MerkleFiles.SealNodeStops | src/enclave/storage/Storage.cpp:158-256 | a subtree that is not sealed stops at its first block that is not intact, with the error that says why, and exactly the blocks before it are sealed |
| MerkleFiles.ReplaceBlock | src/enclave/storage/Storage.cpp:225-231 | replacing the file of a block moves it to the new name, and loses it if the name stays: what is saved is then deleted |
| MerkleUnseal.SealingLoses | src/enclave/storage/Storage.cpp:158-256 | sealing loses the file of block k if and only if the digest of the sealed block is the hash it had |
| MerkleUnseal.SealDirectory | src/enclave/storage/Storage.cpp:149-310 | an intact directory is sealed, and it holds one file for each block if and only if none collides |
| MerkleUnseal.UnsealRest | src/enclave/storage/Storage.cpp:351-420 | from any set of blocks opened so far, unsealing the rest in any order succeeds if and only if none is private data; exactly the blocks that keep their name are lost |
| MerkleUnseal.SealThenUnseal | src/enclave/storage/Storage.cpp:349-420 | sealing and then unsealing in any file order restores the directory, names and contents, if and only if no block collides, none carries the private tag and every hash is written as its digest is |
| MerkleUnseal.IntactIsCanonical | src/enclave/storage/Storage.cpp:201-211 | an intact tree with 64 lower-case digits to a hash writes every hash as its digest is |
| MerkleUnseal.TaggedIsRefused | src/enclave/storage/Storage.cpp:396-400 | unsealing a file is refused as malware, leaving it as it was, if and only if its data starts with the 23 characters of the tag |
| MerkleUnseal.UnopenedIsRefused | src/enclave/storage/Storage.cpp:349-395 | the other errors: the file is not there, or it cannot be opened; nothing changes then |
| MerkleUnseal.UnsealAllStops | src/enclave/storage/Storage.cpp:349-420 | unsealing stops at the first file that is refused, with the files before it already open |
| MerkleCheck.ValidateTree | src/enclave/utils/EUtils.cpp:473-538 | the recursive check with its buffer equals the specified verdict |
| MerkleCheck.TreeDocText | src/enclave/storage/Storage.cpp:236-301 | the appended text is one JSON layout of the tree |
| MerkleCheck.ReadTree | src/enclave/validator/Validator.cpp:311 | the stored text is read back as the stored tree |
| MerkleCheck.ValidateRead | src/enclave/utils/EUtils.cpp:473-538 | the check succeeds if and only if every inner hash is the digest of the hashes below it |
| MerkleCheck.LegibleIsSafe | src/enclave/utils/EUtils.cpp:473-538 | nothing is read past its end where every inner node has an array of links and all hash texts have 64 characters |
| MerkleCheck.MallocFailsWhen | src/enclave/utils/EUtils.cpp:486-500 | negative memory is asked for if and only if the count is -1 beside links without a size |
| MerkleCheck.SealedPasses | src/enclave/validator/Validator.cpp:311-312 | what sealing stores passes the check and carries the root hash the caller was given |
| MerkleValidate.ValidateFile | src/enclave/validator/Validator.cpp:282-423 | the check of one file: what its status becomes and what was found |
| MerkleValidate.ValidationDecides | src/enclave/validator/Validator.cpp:282-423 | for a tree that passes its check and an ascending sample: a valid file ends lost if and only if the first sampled leaf that is not sound is not one for which the answer is that the store is offline; a lost file ends valid if and only if all samples are sound; nothing else changes |
| MerkleValidate.NoTreeIsLost | src/enclave/validator/Validator.cpp:290-320 | without a text, with a text of another root or with a tree that fails its check a valid file ends lost and no lost file comes back |
| MerkleValidate.AnyTextIsSafe | src/enclave/validator/Validator.cpp:342-417 | on any text, nothing is read past its end where all leaf texts are long enough, and only the answer that the store is offline interrupts the check |
| MerkleValidate.CheckRendered | src/enclave/validator/Validator.cpp:311-417 | the check by substring scan over the text decides as a walk over the leaves of the tree would |
| MerkleValidate.WholeIfAllSound | src/enclave/validator/Validator.cpp:345-417 | a file is whole if and only if every sampled block is there with the hash of its leaf |
| MerkleValidate.SealedIsWhole | src/enclave/validator/Validator.cpp:290-423 | a freshly sealed file passes a sample if and only if no sampled block collided: then valid stays valid and lost becomes valid |
| Ledger.Workload.AddNewFile | src/enclave/workload/Workload.cpp:316-321 | a sealed file enters new_files unconfirmed in all three statuses |
| Ledger.Workload.Confirm | src/enclave/storage/Storage.cpp:445-486 | the two backward searches; found among the checked files whatever the status, among the new ones only if unconfirmed |
| Ledger.Workload.Delete | src/enclave/storage/Storage.cpp:519-551 | the first checked file of the name becomes deleted, else the last new one is taken out |
| Ledger.Workload.Merge | src/enclave/validator/Validator.cpp:229-238 | new files go behind the checked ones |
| Ledger.Workload.Check | src/enclave/validator/Validator.cpp:272-423 | one sampled file: its new current status is that of the check |
| Ledger.Workload.Generate | src/enclave/report/Report.cpp:170-285 | the report and the statuses after it, in both modes |
| Ledger.Workload.EraseDeleted | src/enclave/report/Report.cpp:172-185 | the erasing loop leaves exactly the files that are not erasable, in order |
| Ledger.Workload.FillQueue | src/enclave/report/Report.cpp:191-284 | the loop over the checked files: waiting statuses, queue of at most 1000, size, root and both texts |
| Ledger.Workload.CountSteady | src/enclave/report/Report.cpp:194-202 | the report while upgrading covers what is valid now and on the chain |
| Ledger.Workload.HandleResult | src/enclave/workload/Workload.cpp:415-429 | the original status of every reported file becomes its waiting one |
| LedgerRuns.OriginMirrorsChain | src/enclave/workload/Workload.cpp:415-429 | in every run the files with original status valid are exactly those the chain holds |
| LedgerRuns.StepKeeps | src/enclave/report/Report.cpp:29-60 | every step between two lock releases keeps the invariant |
| LedgerRuns.ReportConserves | src/enclave/report/Report.cpp:186-284 | size and root cover what the chain holds plus added minus deleted; added is new to the chain, deleted is on it |
| LedgerRuns.EveryReportConserves | src/enclave/report/Report.cpp:186-284 | the same for every reachable state |
| LedgerSizes.SizeIsBalance | src/enclave/report/Report.cpp:186-284 | in every run the size in an accepted report is the balance of all sizes added and deleted up to it, and at most that while upgrading |
| LedgerSizes.SizesConserve | src/enclave/report/Report.cpp:203-256 | between two accepted reports the size grows by what is added and shrinks by what is deleted |
| LedgerSizes.SizesOfStep | src/enclave/report/Report.cpp:29-60 | no step changes the size of a sealing, in the lists or in a report |
| LedgerRuns.UpgradeReportCovers | src/enclave/report/Report.cpp:194-202 | an upgrade report covers the whole chain if and only if every file on it is valid now |
| LedgerHistory.AppearancesAlternate | src/enclave/report/Report.cpp:218-257 | the appearances of a file in accepted reports alternate, added first, and the chain holds it when their number is odd |
| LedgerHistory.DeletedStays | src/enclave/report/Report.cpp:172-185 | no step gives a deleted file another current status |
| LedgerHistory.ErasedIsBalanced | src/enclave/report/Report.cpp:172-185 | a file goes only when added and deleted equally often |
| LedgerHistory.OnlyDeletedGo | src/enclave/report/Report.cpp:172-185 | of the checked files only a deleted one goes, of the new ones only one that is itself deleted |
| LedgerHistory.ConfirmDoes | src/enclave/storage/Storage.cpp:451-486 | which file confirming changes, and that it changes no other |
| LedgerHistory.DeleteDoes | src/enclave/storage/Storage.cpp:519-551 | which file deleting marks or takes out, and that it changes no other |
| LedgerHistory.CheckDoes | src/enclave/validator/Validator.cpp:282-423 | a sampled valid file that is damaged becomes lost and a lost one that is whole becomes valid; nothing else changes |
| LedgerHistory.ReportKeepsOrder | src/enclave/report/Report.cpp:273-277 | erasing, covering and listing keep the order of the list |
| LedgerHistory.BacklogDrains | src/enclave/report/Report.cpp:215-256 | n accepted reports take n times the limit off the backlog |
| LedgerHistory.NothingDeletedIsLeft | src/enclave/report/Report.cpp:172-185 | without a backlog the next report erases every deleted file |
| LedgerHistory.BacklogConverges | src/enclave/report/Report.cpp:172-257 | after any run ceil(k/1000) accepted reports clear k reportable files, and one report more every deleted one |
| LedgerHistory.ChainLearnsTheValid | src/enclave/report/Report.cpp:172-284 | after any run and ceil(n/1000) accepted reports for a list of n files the chain holds exactly the files whose current status was valid: whatever was lost or deleted has been told as deleted, whatever is valid as added |
| LedgerHistory.NothingWithoutConfirm | src/enclave/workload/Workload.cpp:316-321 | in a run without a confirmation every file stays unconfirmed or becomes deleted, and the chain is told of none |
| LedgerHistory.HashesStand | src/enclave/report/Report.cpp:186-284 | the bytes behind the root are the 32 bytes of the hash of each file, in list order |
| LedgerHistory.RootIsOfHashes | src/enclave/report/Report.cpp:273-284 | files_root is the digest of the covered hashes in list order, or zero where nothing is covered |
| LedgerHistory.StatusesAreKnown | src/enclave/workload/Workload.cpp:316-321 | in every run all statuses are among the four known ones |
| LedgerText.ListReadsBack | src/enclave/report/Report.cpp:224-261 | the added and the deleted text are JSON arrays of exactly the reported files, in order |
| SrdAllocation.ValidPaths | src/app/process/Srd.cpp:18-53 | the loop over the paths, which skips a directory that cannot be made and ends at the first failing statfs |
| SrdAllocation.ValidCovers | src/app/process/Srd.cpp:18-53 | what is chosen lies before the first failure, and every disk there has a path that is told as the same disk |
| SrdAllocation.ValidApart | src/app/process/Srd.cpp:45-49 | no two chosen paths are told as the same disk |
| SrdAllocation.ValidFirst | src/app/process/Srd.cpp:18-53 | of several paths on one disk the first is chosen |
| SrdAllocation.ValidDistinct | src/app/process/Srd.cpp:18-53 | no path is chosen twice, as the shares by path need it |
| SrdAllocation.ToldApart | src/app/process/Srd.cpp:39-40 | disks are told apart by the first four bytes of their id alone |
| SrdAllocation.EveryDiskChosen | src/app/process/Srd.cpp:18-53 | every disk before the first failure has a path chosen if and only if those disks differ in their first four bytes |
| SrdAllocation.RoundRobin | src/app/process/Srd.cpp:108-126 | the cyclic loop ends for any disks, gives out min(available, requested), never more than a disk has, and is fair |
| SrdAllocation.ExpandTasks | src/app/process/Srd.cpp:234-248 | each path stands in the expanded list exactly its share of times, and every prefix is fair |
| SrdAllocation.PlanIncrease | src/app/process/Srd.cpp:207-248 | what is done now and what is left over add up to the change; no disk is filled beyond what is free less the reserve, and something is left over only when every disk is filled up to it |
| SrdAllocation.PlanDecrease | src/app/process/Srd.cpp:179-194 | the size taken back is min(assigned, wanted), spread fairly |
| SrdDecrease.Srd.Decrease | src/enclave/srd/Srd.cpp:206-297 | removes exactly the given set and the last s entries of every path for the least s that suffices; what is deleted under each path is exactly what left its list; returns at once for zero; takes the number asked for if and only if it is zero or some number of layers has it |
| SrdDecrease.Srd.Choose | src/enclave/srd/Srd.cpp:230-257 | the layered loop ends with the least number of layers |
| SrdDecrease.Srd.EraseFromBack | src/enclave/srd/Srd.cpp:259-271 | erasing the largest index first leaves the survivors in order and hands on the hash at each erased index |
| SrdDecrease.Srd.PopBack | src/enclave/srd/Srd.cpp:313-340 | the last entries go, and the record follows only the files that could be deleted |
| SrdDecrease.ExactWhen | src/enclave/srd/Srd.cpp:230-257 | the number asked for is chosen if and only if some number of layers has exactly so many entries |
| SrdDecrease.TakesWhatIsAsked | src/enclave/srd/Srd.cpp:216-271 | so many entries go from the lists as are chosen; the change asked for, if and only if some number of layers has it; else more, or all there is |
| SrdDecrease.ExactWithoutGiven | src/enclave/srd/Srd.cpp:230-257 | with nothing given that is a level of the lengths: the sum of the shorter of length and layers |
| SrdDecrease.OvershootIsTight | src/enclave/srd/Srd.cpp:232-257 | of n paths with one hash each all n go when one is asked for |
| SrdDecrease.Overshoot | src/enclave/srd/Srd.cpp:232-257 | the number is exceeded by less than the number of paths, unless the given set was too large already |
| SrdDecrease.LeastUnique | src/enclave/srd/Srd.cpp:232-257 | the number of layers is determined |
| SrdDecrease.Punishment | src/enclave/validator/Validator.cpp:199-205 | a punishment removes twice the failed entries, or all there are, and less than one a path more |
| SrdDecrease.KeptInOrder | src/enclave/srd/Srd.cpp:259-271 | the kept indexes ascend and are exactly those not gone |
| SrdDecrease.SurvivorsKept | src/enclave/srd/Srd.cpp:259-271 | the survivors are the hashes at the kept indexes |
| SrdDecrease.RemovedGone | src/enclave/srd/Srd.cpp:259-271 | the hashes handed on for deletion are those at the erased indexes |
| SrdDecrease.GoneInOrder | src/enclave/srd/Srd.cpp:259-271 | which descend and are exactly the chosen ones |
| SrdDecrease.NothingElseGoes | src/enclave/srd/Srd.cpp:259-271 | kept and deleted hashes together are the list before |
| SrdDecrease.ChosenFromTheBack | src/enclave/srd/Srd.cpp:237-257 | beyond the given entries exactly the last s of a list are chosen |
| SrdDecrease.SuccessesCount | src/enclave/srd/Srd.cpp:273-294 | the number returned counts the files that could be deleted |
| SrdDecrease.BackwardsAt | src/enclave/srd/Srd.cpp:313-340 | the entries popped come last first |
| SrdQuota.Queue.SetChange | src/enclave/srd/Srd.cpp:370-397 | the stored change never lifts sealed plus pending above the limit |
| SrdQuota.CappedIsMost | src/enclave/srd/Srd.cpp:370-397 | what is stored is the most that is asked for and keeps the sealed units within the limit |
| SrdQuota.Queue.Take | src/enclave/srd/Srd.cpp:49-61 | a turn takes at most 64 |
| SrdQuota.QuotaHolds | src/enclave/srd/Srd.cpp:370-397 | in every run, with changes asked for on any stale reading, sealed + in flight + pending stays within limit + 64 |
| SrdQuota.UnitsMove | src/enclave/srd/Srd.cpp:49-61 | a turn moves units from the queue into work and sealing from there into the list: none is made or lost |
| SrdQuota.QuotaIsTight | src/enclave/Enclave.cpp:43-47 | a run that reaches limit + 64 |
| SrdAccounting.ExcessIsDrift | src/enclave/workload/Workload.cpp:351-360 | in every interleaving the record exceeds the list by exactly the cut-offs and failed deletes |
| SrdAccounting.RecordCovers | src/enclave/srd/Srd.cpp:184-197 | record plus unrecorded increases minus unrecorded decreases is never below the list |
| SrdAccounting.CutOffNeedsOverlap | src/enclave/workload/Workload.cpp:351-360 | in any run a record is cut off at zero only while increases are not yet recorded, and by no more than those |
| SrdAccounting.SequentialIsExact | src/enclave/srd/Srd.cpp:313-340 | sequential runs in which every delete succeeds keep the record exact |
| SrdAccounting.SequentialFromEmpty | src/enclave/srd/Srd.cpp:313-340 | so from an empty start every record is the number of hashes of its path |
| SrdAccounting.OverlapDrifts | src/enclave/workload/Workload.cpp:351-360 | an interleaving that leaves the record one too high |
| SrdAccounting.DecreaseIsExact | src/enclave/srd/Srd.cpp:273-294 | a decrease keeps an exact record exact on every path |
| Persistence.Store.SetUnsafe | src/enclave/persistence/Persistence.cpp:172-223 | the new DB: pieces and sum for a large value, else old pieces and sum deleted and the plain value set |
| Persistence.Store.Set | src/enclave/persistence/Persistence.cpp:85-163 | the same with the sealed value |
| Persistence.Store.PutParts | src/enclave/persistence/Persistence.cpp:98-116 | its loop over the pieces, with the remaining size cut to 32 bits |
| Persistence.Store.Get | src/enclave/persistence/Persistence.cpp:383-447 | the value, or what goes wrong, from the sum and the pieces or the plain entry |
| Persistence.Store.CopyPieces | src/enclave/persistence/Persistence.cpp:279-374 | the loop that copies the pieces behind one another |
| Persistence.LastSetIsGot | src/enclave/persistence/Persistence.cpp:85-447 | after any history of sets of independent keys a get returns the last value, and nothing for a key never set |
| Persistence.SetHolds | src/enclave/persistence/Persistence.cpp:172-223 | a set leaves the value complete, the sum readable and every other name untouched |
| Persistence.GetHolds | src/enclave/persistence/Persistence.cpp:383-447 | a complete value is returned whole: no copy leaves the buffer |
| Persistence.SealedRoundTrip | src/enclave/persistence/Persistence.cpp:279-374 | with sealing in front and unsealing behind |
| Persistence.PieceKeyInjective | src/enclave/persistence/Persistence.cpp:187 | a piece name determines its key and its number |
| Persistence.StaleStays | src/enclave/persistence/Persistence.cpp:176-199 | a large set deletes neither older pieces beyond its own nor the plain value |
| Persistence.SmallClears | src/enclave/persistence/Persistence.cpp:201-220 | a small value over a readable sum: exactly the counted pieces and the sum go, every other entry stays |
| Persistence.LargeLeavesNothing | src/enclave/persistence/Persistence.cpp:172-223 | once a small value follows a large one, no piece and no sum of that is left |
| Persistence.SetFailsWhen | src/enclave/persistence/Persistence.cpp:201-220 | a set fails if and only if a small value meets a sum that cannot be read |
| Persistence.WhatAGetFinds | src/enclave/persistence/Persistence.cpp:279-447 | in any database: the plain entry without a sum, else the pieces that are there, padded to the size claimed, if they fit and all, for the unsealing form, or the last, for the other, are there |
| Persistence.IndependenceIsExact | src/enclave/persistence/Persistence.cpp:85-447 | for any set of keys every history gives back all last values if and only if no key is a piece or sum name of another |
| Persistence.WorkerReadsLast | src/enclave/storage/Storage.cpp:109-120 | none of the keys the worker uses is such a name, so every history of its sets gives back all last values |
| StateText.SrdDocText | src/enclave/workload/Workload.cpp:174-200 | the appended text is one JSON layout of the lists |
| StateText.SpaceLists.RestoreLists | src/enclave/workload/Workload.cpp:258-295 | the loops restore the lists with hashes of any length and write the record of assigned space, or refuse an empty or odd text and leave no list |
| StateText.RestoreHashList | src/enclave/workload/Workload.cpp:276-286 | the inner loop over the texts of one path |
| StateText.RestoredPaths | src/enclave/workload/Workload.cpp:273-287 | the restored paths are keys of the object in their order, none without hashes |
| StateText.RestoredRecord | src/enclave/workload/Workload.cpp:288-292 | after a restore the record of a restored path is its number of hashes, that of any other path the old one |
| StateText.RestoreSrdFields | src/enclave/workload/Workload.cpp:258-287 | the lists come back without the empty ones |
| StateText.RestoreSrdIs | src/enclave/workload/Workload.cpp:258-295 | a restore fails if and only if some hash text is empty or odd or a value that is no array has a size; else it has, in key order, the bytes of every array with an item |
| StateText.CutListsIs | src/enclave/workload/Workload.cpp:106-143 | the first 32 bytes of every hash count; a shorter one is over-read |
| StateText.SrdRootRestored | src/enclave/workload/Workload.cpp:106-143 | the space root survives if and only if there was no path, or some hash, or the digest of nothing is zero |
| StateText.FileDocText | src/enclave/workload/Workload.cpp:228-243 | the stripped dump of an entry is one layout of its value |
| StateText.FileTextLength | src/enclave/workload/Workload.cpp:212-218 | the text of an entry has 213 characters and its digits |
| Handoff.BufferFits | src/enclave/workload/Workload.cpp:212-219 | the buffer of serialize_file is long enough if and only if the digits stay below thirty for each entry |
| Handoff.SerializeFile | src/enclave/workload/Workload.cpp:208-251 | every copy stays in the buffer and the list text comes out |
| Handoff.BuildUpgradeData | src/enclave/identity/Identity.cpp:1205-1268 | the ten pieces fill the buffer exactly |
| Handoff.EnclaveData.StoreLarge | src/enclave/utils/EUtils.cpp:745-766 | the pieces of 4 MiB add up to the data |
| Handoff.NewEnclave.Receive | src/enclave/identity/Identity.cpp:1315-1334 | pieces are collected until the last one, then everything is restored; a piece beyond the first total overruns the buffer |
| Handoff.SendAll | src/app/process/Process.cpp:250-284 | the sending loop delivers the whole text; an empty one delivers nothing |
| Handoff.UpgradeDocText | src/enclave/identity/Identity.cpp:1205-1268 | the upgrade text is one JSON layout |
| Handoff.HandoffRestores | src/enclave/identity/Identity.cpp:1333-1445 | the new enclave has the lists, entries, key, height and hash of the old one, the same signed message and roots, if and only if the space root survives; else it refuses |
| HandoffSeal.MessageParts | src/enclave/identity/Identity.cpp:1188-1204 | key, height, block hash, space root and file root stand in the signed message one behind the other |
| HandoffSeal.MessageTellsParts | src/enclave/identity/Identity.cpp:1188-1204 | two messages are equal if and only if all five parts are |
| HandoffSeal.SrdBytesAt | src/enclave/workload/Workload.cpp:106-143 | the bytes under the space root are those of all hashes, path by path, each in its 32 places |
| HandoffSeal.AllHashesAt | src/enclave/workload/Workload.cpp:106-143 | hash k of path i stands behind all hashes of the paths before and the k before it |
| HandoffSeal.FileBytesAt | src/enclave/workload/Workload.cpp:144-163 | the bytes under the file root are the hashes of the entries in order |
| HandoffSeal.AcceptedIsSigned | src/enclave/identity/Identity.cpp:1356-1425 | whatever text arrives, what is restored has the key, the height and hash one behind the other, and the two roots that the old enclave signed |
| HandoffSeal.OnlyTheSignedIsRestored | src/enclave/identity/Identity.cpp:1356-1445 | the data of another state under the old signature is restored if and only if key, height, block hash and both roots are the signed ones; nothing else of it is looked at |
| HandoffSeal.RestoredHasTheHashes | src/enclave/identity/Identity.cpp:1356-1445 | so, but for a collision of digests, it has the same hashes in all lists and the same hashes of all entries, in order |
| HandoffSeal.WhyRefused | src/enclave/identity/Identity.cpp:1356-1445 | which outcome a text has: an unusable key, lists or signature, a signature that fails, a space root or a file root that differs |
| HandoffSeal.EntriesRead | src/enclave/workload/Workload.cpp:301-310 | the entries of an array come back, and for any other value as many nulls as it claims |
| Handoff.Upgrade | src/enclave/identity/Identity.cpp:1158-1270 | from the old enclave through the pieces into the new one |
| Metadata.Leftover | src/enclave/identity/Identity.cpp:826-847 | how much of the precomputed length is left over, exactly |
| Metadata.BufferSuffices | src/enclave/identity/Identity.cpp:826-847 | paths up to 126 characters, an account id up to 64 and numbers within their digits always fit |
| Metadata.StoreMetadata | src/enclave/identity/Identity.cpp:848-942 | every copy lies within the buffer; tag and text come out |
| Metadata.MetaDocText | src/enclave/identity/Identity.cpp:856-942 | the text is one JSON layout |
| Metadata.MetadataRoundTrip | src/enclave/identity/Identity.cpp:956-1040 | restoring gives back lists without empty paths, entries, key pair, height, previous key and account, whatever key pair is already present |
| Metadata.OtherPairIsRestored | src/enclave/identity/Identity.cpp:769-783 | a key pair other than the present one is noticed, and restored all the same |
| Metadata.PairIsCompared | src/enclave/identity/Identity.cpp:769-783 | a pair is found fine if and only if none is present or it is the present one |
| Metadata.WhyNotRestored | src/enclave/identity/Identity.cpp:745-1030 | which outcome stored data has: nothing there, lists or keys that cannot be read, or restored |
| Metadata.MetadataIsNoBlock | src/enclave/storage/Storage.cpp:396-400 | stored metadata passed off as the block of a file is refused when it is unsealed |
| Metadata.StoreAndRestore | src/enclave/identity/Identity.cpp:805-1045 | written and read back |
| EnclaveAdmission.CountersAreExact | src/app/ecalls/ECalls.cpp:128-134 | in every run, re-entrant ones too, the waiting counts and the invoked counts are what their names say |
| EnclaveAdmission.UpgradeSeesAll | src/app/ecalls/ECalls.cpp:243-254 | with all counters read at one moment: the number is zero if and only if every upgrade-blocking call is queued and not yet announced, or has returned |
| AdmissionRules.UpgradeCounts | src/app/ecalls/ECalls.cpp:243-254 | in every run the number is that of the blocking calls that are announced and not yet back |
| AdmissionRuns.ReadsSee | src/app/ecalls/ECalls.cpp:243-254 | with the counters read one after the other in any run: the number is zero if and only if each blocking call is so at the moment its own counter is read |
| AdmissionRuns.OnlyLateIsMissed | src/app/ecalls/ECalls.cpp:243-254 | a call on its way when the number turns out zero announced itself behind the read of its counter |
| AdmissionRuns.MissedWhileReading | src/app/ecalls/ECalls.cpp:243-254 | a run in which such a call is inside |
| AdmissionRuns.QueuedIsNotSeen | src/app/ecalls/ECalls.cpp:127-134 | a run in which a blocking call is queued, between the two increments, and the number is zero |
| AdmissionRuns.CounterIsKeysPlusDrift | src/app/ecalls/ECalls.cpp:137-236 | in every run, re-entrant ones too, the counter is at most 15 and equals the number of keys plus the drift: one for each timeout that drops a key, minus one for each free that finds none |
| AdmissionRuns.AdmissionIsBounded | src/app/ecalls/ECalls.cpp:137-236 | the counter is at most 15; without re-entry whoever is inside has a key and keys are at most the counter, busy returns and timeouts included; who is let in says AdmissionRules.AdmittedExactly |
| AdmissionRules.AdmittedExactly | src/app/ecalls/ECalls.cpp:150-170 | in every run a call that comes to the mutex is admitted if and only if a thread is free, which is not the last one unless the call has the highest priority, and at most one queued call has a higher priority |
| AdmissionRules.LastThreadIsReserved | src/app/ecalls/ECalls.cpp:160-168 | no step of any run admits a call of one of the eight lower names beyond the fourteenth thread, nor any call past two queued ones of higher priority |
| AdmissionRules.WhoYields | src/app/ecalls/ECalls.cpp:12-35 | by name, which call counts as more important than which |
| AdmissionRules.PassesExactly | src/app/ecalls/ECalls.cpp:139-149 | in every run a call gets to the mutex if and only if no call that keeps it out is announced and not yet back; else it is marked busy |
| AdmissionRules.GivesUpAfterThirty | src/app/ecalls/ECalls.cpp:190-204 | in every run a call gives up after exactly thirty rounds without success, and only the three impatient names do |
| AdmissionRuns.FreeMissesKey | src/app/ecalls/ECalls.cpp:222-236 | a free finds the key gone if and only if since the admission another call of the thread was freed or timed out and none admitted after that |
| AdmissionRuns.NestedFreeCountsTwice | src/app/ecalls/ECalls.cpp:171-183 | a call from inside a call, at any priority: the outer one ends inside without a key, and its free takes the counter to -1 |
| AdmissionRuns.NestedCallsOfTheWorker | src/app/process/Srd.cpp:207-296 | the main loop that changes space and the restore that asks for a quote are such calls |
| AdmissionRuns.BusyReturnKeepsTheSlot | src/app/ecalls/ECalls.cpp:139-148 | the busy status is never reset: a run in which both calls have returned and a slot stays taken |
| AdmissionRuns.LeakedExactly | src/app/ecalls/ECalls.cpp:171-183 | a thread whose calls have all returned keeps its key if and only if the last of them to be admitted, freed or timed out was admitted with the busy status |
| AdmissionRuns.JammedForever | src/app/ecalls/ECalls.cpp:154-170 | with the counter at its limit and nobody freed who could come out, nobody new gets inside |
| AdmissionRuns.JamIsReachable | src/app/ecalls/ECalls.cpp:137-236 | a run without re-entry that ends so: the main loop inside, every other call returned, the counter at 15 for good |
| ReportGating.PassesWhen | src/enclave/report/Report.cpp:75 | the exact heights that pass, wrap-around included |
| ReportGating.ReportState.TryGenerate | src/enclave/report/Report.cpp:75-104 | the answer of the gate and the flags after it |
| ReportGating.ReportState.AddValidatedProof | src/enclave/workload/Workload.cpp:638-650 | proofs saturate at two |
| ReportGating.ReportState.ReduceValidatedProof | src/enclave/workload/Workload.cpp:655-667 | and never fall below zero |
| ReportGating.ReportsAreErasApart | src/enclave/report/Report.cpp:75-78 | with heights never below the stored one, reports are at least an era apart |
| ReportGating.BelowStoredIsAccepted | src/enclave/report/Report.cpp:75 | a height below the stored one is accepted |
| ReportGating.ReportsNeedRounds | src/enclave/report/Report.cpp:85-89 | in any window at most two more reports than validation rounds |
| ReportGating.FirstAfterRestart | src/enclave/report/Report.cpp:80-84 | whatever happens between a restart and the first height that passes, that height yields no report, nor does anything before it |
| ReportGating.NothingWithoutStorage | src/enclave/report/Report.cpp:90-104 | while the files are gone no report is made; the first height that passes says so and makes them count as there |
| ReportGating.RoundOpensTheGate | src/enclave/report/Report.cpp:85-104 | with files and without a restart one round of validation yields exactly one report |
| ReportGating.UpgradeHeight | src/enclave/identity/Identity.cpp:1118-1132 | the loop ends at a height congruent to the stored one and at most an era behind |
| ReportGating.UpgradeHeightUnique | src/enclave/identity/Identity.cpp:1129-1132 | there is only one such height |
| ReportGating.UpgradeIsGated | src/enclave/identity/Identity.cpp:1123-1151 | the nine heights the wrapping check lets through are refused by the gate; from stored + 310 on it passes |
| ReportGating.TryPassesWhen | src/enclave/workload/Workload.cpp:438 | the exact heights that pass try_report_work |
| ReportGating.WorkReportLoop | src/app/process/WorkReport.cpp:20-132 | the heights handed in, turn by turn, with the chain or offline, with the pause and the exit for an upgrade |
| ReportGating.LoopClimbs | src/app/process/WorkReport.cpp:83-119 | they are strictly increasing multiples of 300 |
| ReportGating.HandsInWhatIsDue | src/app/process/WorkReport.cpp:61-119 | with the chain exactly those eras from the target on are handed in that some turn offers before any later era is offered, where of the turns of a pause every 21st counts |
| ReportGating.LoopHandsIn | src/app/process/WorkReport.cpp:20-132 | of what becomes due the loop hands in exactly the eras above the height at its start |
| ReportGating.HandsInOffline | src/app/process/WorkReport.cpp:61-119 | offline every turn that goes through hands in the next multiple of 300 |
| ReportGating.LoopPassesGate | src/app/process/WorkReport.cpp:83-119 | so each passes the height test once the one before is stored |
| ReportGating.PauseLetsThrough | src/app/process/WorkReport.cpp:61-72 | of 21 turns of a pause one goes through all the same |

## Left out

- IAS attestation, certificates, quotes, key generation and enclave start: OpenSSL and SGX calls without an algorithm of their own.
- HTTP, websocket, IPFS and chain clients, configuration, logging, the LevelDB wrapper and the shell scripts: input and output only.
- Failing disk writes, failing DB writes, failing memory allocation, and sealing that fails: the modelled operations get what they ask for, except where an outcome names the failure.
- The text of work reports around the two file lists.
- JsonReader.ReadNumber: a number with a point or an exponent that the source reads as floating is a fault here.
- The per-status totals of wl_spec_info: they drift by design of their callers, so no equality with the file list holds.
- The directory renaming and the metadata entry around storage_seal_file and storage_unseal_file: only the block files are modelled.
- Renumbering when validation deletes space while another thread shortens the lists: the indexes given to srd_decrease are in range.
- Sums of file sizes and space totals are unbounded numbers here; the source adds 64-bit words.
- Sleeping, waiting times and randomness: samples, polls and interleavings are arbitrary inputs.
- The limit of 200000 files in storage_seal_file: it is read before and outside the step that adds the file, so no bound on the list follows from it.
- Persistence.SetHolds: values of 2^32 pieces and more are excluded, because the piece counter has 32 bits; what a set leaves of such a value is in Persistence.Store.SetUnsafe.
- AdmissionRuns.AdmissionIsBounded: counter updates are atomic steps; the source increments plain integers.
- Handoff.NewEnclave.Receive: after an overrun the state stays as it was, where the source has written past its buffer.
- MerkleSeal.Vault.SealFile: the tree is one that the check before sealing accepts, so a count that is not zero is the number of links.
- Ledger.Workload.Check: the sampled text, blocks and answers are inputs; the loop over the sampled indexes is the run of such steps.
- Handoff.SerializeFile: called only where its buffer is long enough; what the source does beyond the end of a short buffer is not modelled.
- Metadata.MetadataRoundTrip: paths and account ids contain no character that JSON escapes and do not start with the hash tag, because keys and texts are appended raw.
- LedgerRuns.StepKeeps: a report is accepted or it is not; an upload that reaches the chain but is reported as failed is not modelled, and the gate in front of a report is modelled on its own in ReportGating.
- Metadata.Leftover: a key pair has 96 bytes and a public key 64, as in the SGX interface.
- Metadata.RestoreMetadata: the record of assigned space and the workload spec are restored beside it and are not part of its outcome; the record is in StateText.SpaceLists.RestoreLists.
