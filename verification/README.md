# A verified model of the photo library

The desktop side of this system keeps people's photos: files below `originals/` are the truth, a database indexes
them by content hash, and background work (uploads, replacements of location-redacted copies by their originals,
rebuilds, sweeps) changes both while the process may be killed at any instant. This project models that core and the
self-contained algorithms around it, and proves what their comments promise, or the exact condition under which the
promise holds. `dafny verify dfyconfig.toml` checks all of it.

## How the model is built

- Code that changes fields, tables or buffers is a class or a loop here too, proved against a specification function;
  the theorems are about those functions. Code that only computes is functions.
- Concurrency and crashes are state machines: one event for each step between two awaits or two system calls, a
  theorem for every run. A crash may come between any two events and may tear or drop files that were not synced.
- Content hashes are the free injective function of the bytes. The database is three maps with the atomic operations
  of the storage layer.

| part | modules |
|---|---|
| Replacing a redacted copy | `LibraryStore`, `Patching`, `Supersede` (the methods), `SupersedeProtocol` (the state machine), `SupersedeSafety`, `SupersedeTheorems`, `SupersedeAnyRun`, `SupersedeExactness`, `SupersedeRecords`, `SupersedeRefinement`, `StagedNames` |
| Taking files in | `Ingest` (the methods), `IngestProtocol`, `IngestSafety`, `IngestTheorems`, `IngestWhole`, `IngestPaths`, `IngestExactness`, `LibraryLayout` |
| Rebuilding and adopting | `Rebuild`, `RebuildTheorems` |
| Backup sessions and event throttle | `Backup`, `BackupRuns`, `BackupDeliveries`, `BackupErrors`, `BackupBooks`, `Throttle` |
| Readers of binary formats | `MetadataRanges`, `MediaFormats`, `MediaAcceptance`, `MediaAnswers`, `MediaTables`, `PeVersion`, `PeBuilder`, `PeRoundTrip`, `PeFiles`, `PeBlobs` |
| Text formats | `TomlString`, `Config`, `ConfigTheorems`, `ConfigMerge`, `ConfigReading`, `CommentStripper`, `SvelteUniqueness`, `ScriptRules`, `Text` |
| Merging and reachability | `PhotoWall`, `PhotoWallTheorems`, `Worklist`, `RustImpact`, `CrateProducts`, `LockImpact`, `LockExactness`, `LockSoundness` |

## Where the code keeps less than it says

Each of these has a lemma with the failing inputs or runs, and the theorem beside it says when the promise does hold.

- **One staged file for one new hash.** The name of a staged file is the new hash and the pid, so a second replacement
  with the same new hash writes over the first one's file. The daemon serializes the replacements of one phone
  (`crates/daemon/src/flow_delivery.rs:1398-1400`), not those of two. The exclusivity rule of `SupersedeProtocol` says
  what has to be kept apart; `SafeExactlyWhenUnnamed`, `SharedTargetIsUnsound` and `SelfReplacementIsUnsound` say that
  it is needed.
- **One record for a path** is guaranteed for open records only, whose staged file still waits. A record whose rename
  went through but whose clearing failed stays until the next start, and another replacement of the same file adds a
  second one (`TwoRecordsOnOnePath`). A path has at most one record exactly as long as no replacement commits on a path
  that a record names (`SupersedeRecords.OnePerPathExactlyWhenFree`).
- **Adoption against a losing ingest.** When a scan of the tree adopts a file that an ingest has just placed and not
  yet inserted, the ingest's insert fails and it removes "its" file, which by then is the row's only copy. An insert
  that fails for any other reason removes the only copy as well, since the source is gone by then
  (`AdoptionIsSafeExactlyWhenNobodyInserts`, `InsertIsSafeExactlyWhenNoError`).
- **A duplicate is judged by the existence of the row's file**, not by its content; `DuplicateIsSafeExactlyWhenTrue`
  says when that is safe, `StaleSceneIsReached` how a library comes to the failing scene.
- **Re-pointing a moved file evicts nobody**, so two rows can share a path (`TwoRowsOnOnePath`). They share none exactly
  as long as no row is written for a path that another has (`IngestPaths.OnePerPathExactlyWhenFree`).
- **A delivery that arrives behind a running commit is lost.** A commit works off the items it found at its start. A
  file that arrives after its item was passed over stays in staging, the commit is accepted, and the session and the
  delivery's count are gone (`DeliveryBehindItsItemIsLost`); `DeliveryDuringCommitIsIndexedExactlyWhen` says which
  files are in.
- **An ingest error in a backup session** removes the staged file. When it happens in a commit, that commit fails, but the
  next one of a device that pushes passes the item over and reports success (`FailedCommitThenAccepted`; during an
  upload: `IngestErrorIsPassedOver`). A delivery is kept exactly when the first try after it works
  (`IndexedExactlyWhenFirstTryWorks`).
- **A second delivery of an item is counted again**, and the session counts too much until it is closed
  (`SecondDeliveryOvercounts`, `EvenExactlyWhenBookedOnce`). In this snapshot of the repository nothing calls
  `note_delivered` and `ingest_staged`.
- **The configured directory comes back** for storable paths only, see `ComesBackExactlyWhenStorable`; a path with a
  line break is written over several lines and read from the first.
- **Storing another directory changes more than its line.** Lines of keys that begin like `data_dir` are dropped
  (`OtherKeyIsLost`), carriage returns go, and a missing newline at the end is added; `OthersStayExactlyWhen` says when
  all else stays byte for byte.
- **A photo whose time changes** is patched in place and can stand at the wrong place of the wall
  (`OrderedExactlyWhenStillOrdered`, `ChangedTimeBreaksOrder`).
- **An external crate called `ws`** is taken for a workspace member, so a change of its lock entry is missed
  (`ChangedWsIsMissed`, `AndroidIsMissed`); `SoundExactlyWhen` says when nothing is.
- **The reader of device directories** accepts upper-case digits and a plus sign, so a directory made by hand can pass
  for a device; `DirectoryIsADeviceExactlyWhen` says which.

## Model

| member | source | states |
|---|---|---|
| SupersedeTheorems.CrashSafety | crates/core-index/src/supersede.rs:133-260 | From a settled library, over every run of replacements, sweeps, ingests, crashes at any instant and restarts that keeps the exclusivity rule: each row's hash is the hash of the file at its path or of the staged file its open record names; no two open records share a path. That the path has a file holds in every run, see EveryPathHasAFile; for finished records that nobody has cleared see OnePerPathExactlyWhenFree. |
| SupersedeAnyRun.EveryPathHasAFile | crates/core-index/src/supersede.rs:133-260 | From a settled library, over every run whatsoever, the exclusivity rule kept or broken: every indexed path has a file, and no file under an original path disappears. |
| SupersedeTheorems.RepairCompletes | crates/core-index/src/supersede.rs:239-248 | From a settled library, over every run that keeps the exclusivity rule: whenever the startup repair has worked off its list, no record is left and every row's file hashes to its row. |
| SupersedeAnyRun.RepairLeavesNoRecord | crates/core-index/src/supersede.rs:239-248 | Over every run whatsoever: a startup repair that has worked off its list leaves no record. |
| SupersedeTheorems.OriginalsOnlyFilled | crates/core-index/src/supersede.rs:181-190 | Over every run that keeps the exclusivity rule, a file under an original path never disappears, never changes length and never loses a byte that was not zero. |
| SupersedeAnyRun.DurableForever | crates/core-index/src/ingest.rs:128-140 | From a settled library, over every run whatsoever: a hash that answers "durable" at some point answers so for ever, through replacements of its replacement included. |
| SupersedeTheorems.ResolvesIsDurable | crates/core-index/src/ingest.rs:113-140 | In a library whose disk and index agree, the durability query is true exactly when the hash, or what it was replaced by, has a row. |
| SupersedeTheorems.RunKeeps | crates/core-index/src/supersede.rs:133-260 | The agreement of disk, index, records, running jobs and sweep is kept by every run that keeps the exclusivity rule. |
| SupersedeSafety.EventKeeps | crates/core-index/src/supersede.rs:133-260 | Each single event keeps that agreement: any step of any phone's job, each sweep step, ingest, crash with torn unsynced writes, restart, each repair step. |
| SupersedeAnyRun.SweepTakesOnlyResidue | crates/core-index/src/supersede.rs:407-440 | From a settled library, over every run whatsoever: what a sweep takes, with a stale listing and a stale snapshot of the records, is named by no record, is no running job's staged file, and is none that this process will ever use. |
| SupersedeSafety.CommittedAgreement | crates/storage/src/supersede_repo.rs:14-64 | The one transaction keeps disk and index in agreement when the staged file holds the new content and nobody else's record names it. |
| SupersedeSafety.SwapInAgreement | crates/core-index/src/supersede.rs:250-257 | Renaming a staged file in keeps the agreement, closes its record, and makes the row's file hash to the row. |
| SupersedeSafety.CrashKeeps | crates/core-index/src/supersede.rs:191-191 | Power loss may tear or drop any file that was not synced, and the agreement still holds before and after the restart. |
| SupersedeProtocol.PowerLossMeans | crates/core-index/src/supersede.rs:191-191 | The machine's power loss: any bytes or none under a name that was not synced, every other file as it was. |
| SupersedeExactness.SafeExactlyWhenUnnamed | crates/core-index/src/supersede.rs:159-171 | When no other replacement runs: beginning one is safe for every continuation if and only if no record names the staged file it will write. |
| SupersedeExactness.NamedStagedIsFatal | crates/core-index/src/supersede.rs:161-171 | If a record does name it, there is a continuation (copy, power loss, restart, repair) that renames a torn copy over an original. |
| SupersedeExactness.SharedTargetIsUnsound | crates/core-index/src/supersede.rs:159-197 | Two phones that ask for the same new hash share a staged file: whenever the first request could succeed, some interleaving without any crash or error leaves a row whose file is wrong. |
| SupersedeExactness.SelfReplacementIsUnsound | crates/core-index/src/supersede.rs:133-260 | Replacing a hash by itself, with any pieces that reproduce the content: if its rename fails, a later proper replacement and a restart put the old bytes back under the new row. |
| Supersede.SelfRequestIsAcceptable | crates/core-index/src/supersede.rs:141-155 | Such a request is accepted: for every plan the file's own bytes, sent as one piece, cover all ranges and pass every check. |
| SupersedeExactness.VerifyRun | crates/core-index/src/supersede.rs:167-197 | A job whose pieces turn the old content into the requested content reaches the transaction with exactly that content staged. |
| SupersedeExactness.RunKeepsRooted | crates/core-index/src/supersede.rs:218-257 | In every reachable state each record, finished or not, names the path of some row. |
| SupersedeRecords.CommitSharesPathExactlyWhenNamed | crates/core-index/src/supersede.rs:207-220 | A committing replacement leaves two records on its path if and only if the record of another hash names that path before the call. |
| SupersedeRecords.EventKeepsOnePerPathExactlyWhen | crates/core-index/src/supersede.rs:133-260 | For any event of the machine: one record per path stays true if and only if the event is not a commit on a path that another hash's record names. |
| SupersedeRecords.OnePerPathExactlyWhenFree | crates/core-index/src/supersede.rs:133-260 | Over every run whatsoever, crashes and errors included: each path has at most one record all along if and only if no replacement commits on a path that a record names. |
| SupersedeRecords.TwoRecordsOnOnePath | crates/core-index/src/supersede.rs:250-259 | The failing runs, from any settled library and without breaking a rule: one replacement whose record cannot be cleared after the rename, then another of the same file; two records name the path. |
| Supersede.Ingestor.PlanSupersede | crates/core-index/src/supersede.rs:79-130 | Already done exactly when the alias leads to a durable new hash; refused with the first reason that applies; otherwise a plan with every reported range that is not empty and lies inside the file, each as often as reported and in that order, 8 MiB at most in all. |
| Supersede.Ingestor.ApplySupersede | crates/core-index/src/supersede.rs:133-237 | A refusal carries the first reason that applies and leaves the index and all originals as they were; success means the content is complete, a redaction undone and nothing else, and the whole new state; an error leaves the exact state of the call that failed; without faults, acceptable requests succeed; under the exclusivity rule disk and index agree however it ends. |
| SupersedeRefinement.SuccessIsARun | crates/core-index/src/supersede.rs:133-237 | The state that ApplySupersede ends in on success is reached by a run of one phone's job, step by step: the method and the machine speak of the same program. |
| Supersede.Ingestor.Stage | crates/core-index/src/supersede.rs:167-211 | The verdict on the staged copy, with the staged file holding exactly the new content when accepted and gone when not. |
| Supersede.Ingestor.Splice | crates/core-index/src/supersede.rs:180-190 | The loop over the pieces computes the splice in place and touches no other file. |
| Supersede.Ingestor.CommitAndSwap | crates/core-index/src/supersede.rs:212-233 | Succeeds exactly when no call fails and the new hash has no other row; the exact state after success and after each failing call, and under the exclusivity rule agreement of disk and index in all of them. |
| Supersede.Ingestor.SwapInFile | crates/core-index/src/supersede.rs:250-259 | Rename if the staged file is there, then clear: the exact state for each failing call. |
| Supersede.Ingestor.FinishPendingSwaps | crates/core-index/src/supersede.rs:239-248 | Counts and closes all records; afterwards every row's file hashes to its row; a second run changes nothing; a failing one stops at a record whose rename fails, leaves the records it has not closed as they were, and keeps the agreement; files that no record names are not touched. |
| SupersedeRefinement.RepairIsItsSteps | crates/core-index/src/supersede.rs:239-259 | The repair of one record is its two steps in the machine. |
| Supersede.Ingestor.SweepStaging | crates/core-index/src/supersede.rs:407-440 | Takes away every listed file with a name like ours, written by another process, whose hash has no record and which no record names, and no other; accounts for every item with its reason. |
| Supersede.ResidueExactlyWhen | crates/core-index/src/supersede.rs:420-436 | What counts as residue, by name, writer and records. |
| Supersede.KeepReasonsAreExact | crates/core-index/src/supersede.rs:418-436 | Why an entry stays: the first of not a file, not our name, still ours, and named by a record, that holds. |
| Supersede.ReplayIsAlreadyDone | crates/core-index/src/supersede.rs:85-89 | After a replacement, asking again finds the alias and a durable copy, of the old hash too. |
| Supersede.RetainedLieInside | crates/core-index/src/supersede.rs:111-111 | A range survives the filter if and only if it was reported, is not empty and lies inside the file; none survive exactly when there is no such range. |
| Supersede.RetainedIsLeft | crates/core-index/src/supersede.rs:111-111 | Nothing else happens to the list: the usable ranges stand at increasing places of the reported list, all of them. |
| Supersede.TotalBytesAdds | crates/core-index/src/supersede.rs:116-118 | The size of a plan is the sum of its ranges, however they are grouped. |
| Supersede.CompleteExactlyWhen | crates/core-index/src/supersede.rs:144-154 | A request is complete if and only if each planned range lies in one piece and no piece reaches past the end. |
| Supersede.HonestRequestIsAcceptableExactlyWhen | crates/core-index/src/supersede.rs:133-197 | A request whose pieces are cut from the new content is acceptable if and only if the file is still the planned one, of the same length, each planned range lies in one piece, and the contents differ only where the old one has zeros and some piece is. |
| Supersede.ReplacedMeans | crates/core-index/src/supersede.rs:199-237 | The state after a success, field by field: new bytes at the old path, a row with the old path and device, the new size and no thumbnail, every alias of the old hash and the old hash itself led to the new one, no record, no staged file, and everything else as it was. |
| Supersede.CommitAndSwapAgree | crates/core-index/src/supersede.rs:218-259 | Each of the three states after the transaction agrees with the disk. |
| Supersede.SweptAgreement | crates/core-index/src/supersede.rs:415-438 | Taking any residue away keeps the agreement and every file that a record names. |
| Patching.PatchOneKeepsRedaction | crates/core-index/src/supersede.rs:180-190 | A piece that passes the zero test only fills bytes that were zero. |
| Patching.PatchAllKeepsRedaction | crates/core-index/src/supersede.rs:180-190 | So does any list of pieces, overlapping ones included: same length, and equal wherever the old content was not zero. |
| Patching.SpliceIsExact | crates/core-index/src/supersede.rs:175-190 | The splice goes through if and only if every piece lies inside the file and says zero bytes or what is there by then; afterwards each byte is what the last piece on it says, or what was there. |
| Patching.HonestSpliceSucceedsExactlyWhen | crates/core-index/src/supersede.rs:175-197 | Pieces cut from the new content turn the old one into it if and only if the old one is the new one with bytes zeroed and some piece is on each of those. |
| StagedNames.PrintedNameIsRead | crates/core-index/src/supersede.rs:443-455 | Reading back the printed name of a staged file gives its hash and pid. |
| StagedNames.PrintedNameIs | crates/core-index/src/supersede.rs:159-164 | The printed name: the digits of the hash, a dash, the process id without leading zeros, the suffix. |
| StagedNames.NamesAreDistinct | crates/core-index/src/supersede.rs:160-164 | Different hash or pid, different name. |
| StagedNames.ReadNameIsSpelledLikeOurs | crates/core-index/src/supersede.rs:443-455 | A name that is recognised is spelled as the program prints it, up to leading zeros of the pid. |
| StagedNames.SpelledNameIsReadExactlyWhen | crates/core-index/src/supersede.rs:443-455 | Sixty-four digits, a dash and any decimal spelling are read as hash and pid exactly when the number fits 32 bits. |
| StagedNames.ParseHex32InPlace | crates/core-index/src/supersede.rs:467-481 | The byte-filling loop accepts exactly 64 lower-case hex digits and returns their bytes. |
| MetadataRanges.Jpeg | crates/core-media/src/metadata_ranges.rs:42-71 | The loop over markers computes the end of the last application segment, or nothing. |
| MetadataRanges.ReadBox | crates/core-media/src/metadata_ranges.rs:79-102 | An accepted box has its header and body inside the limit. |
| MetadataRanges.ReadChildren | crates/core-media/src/metadata_ranges.rs:104-113 | The loop collects the boxes of a body, or fails as a whole. |
| MetadataRanges.MetadataItemIds | crates/core-media/src/metadata_ranges.rs:158-188 | The loop finds the ids of the metadata items in the item list. |
| MetadataRanges.Reader.Uint | crates/core-media/src/metadata_ranges.rs:254-263 | Reads a big-endian number of up to eight bytes, or leaves the cursor where it is. |
| MetadataRanges.NextExtent | crates/core-media/src/metadata_ranges.rs:221-224 | Reads index, offset and length of one extent. |
| MetadataRanges.ReadExtents | crates/core-media/src/metadata_ranges.rs:221-234 | The inner loop reports the wanted extents and leaves the cursor behind all of them. |
| MetadataRanges.NextItem | crates/core-media/src/metadata_ranges.rs:212-234 | One entry of the location table: its head and all its extents are read, and they are reported when the item is wanted and stored in the file. |
| MetadataRanges.ReadItems | crates/core-media/src/metadata_ranges.rs:211-235 | The outer loop reads all entries that the head announces, or fails as a whole. |
| MetadataRanges.ReadItemExtents | crates/core-media/src/metadata_ranges.rs:190-237 | The ranges of the wanted items in the location table of a box list. |
| MetadataRanges.ReadBoxRanges | crates/core-media/src/metadata_ranges.rs:134-151 | A moov box contributes its own range, a meta box its range and those of its metadata items, any other box nothing; an oversized meta box fails the whole. |
| MetadataRanges.IsoBmff | crates/core-media/src/metadata_ranges.rs:116-155 | The top-level loop; it ends and stays inside the file on all bytes. |
| MetadataRanges.ReadRanges | crates/core-media/src/metadata_ranges.rs:24-33 | The dispatch computes the answer that MediaAnswers describes on all bytes. |
| MediaFormats.JpegRangeEndsAtLastApp | crates/core-media/src/metadata_ranges.rs:42-71 | For every list of segments written by ITU-T T.81 Annex B in front of a scan or frame header, or of the end of the data, with fill bytes before any marker, the last one included: the range ends just past the last application segment. |
| MediaAcceptance.AcceptedSegments | crates/core-media/src/metadata_ranges.rs:42-71 | Conversely, whatever bytes the marker loop accepts are such a list, and the answer is the end of its last application segment. |
| MediaAcceptance.JpegAnswersExactlyWhen | crates/core-media/src/metadata_ranges.rs:42-71 | On any bytes: there is an answer if and only if the header is such a list up to such a stop. |
| MediaFormats.BoxesAreRead | crates/core-media/src/metadata_ranges.rs:79-113 | Any sequence of boxes written by ISO/IEC 14496-12 section 4.2, in all three size forms, is read back as it is. |
| MediaFormats.AcceptedBoxesTile | crates/core-media/src/metadata_ranges.rs:79-113 | Conversely, whatever the walk accepts is such a sequence: the boxes tile the region exactly. |
| MediaFormats.IlocHeadIsRead | crates/core-media/src/metadata_ranges.rs:198-209 | The written head of an item location box, all versions, is read back. |
| MediaAcceptance.AcceptedHead | crates/core-media/src/metadata_ranges.rs:198-209 | Any accepted head of a location table is a written one, with its flags and reserved bits. |
| MediaFormats.ExtentsAreRead | crates/core-media/src/metadata_ranges.rs:221-234 | Written extents are read back with the ranges they denote, length zero meaning to the end of the file. |
| MediaFormats.ItemsAreRead | crates/core-media/src/metadata_ranges.rs:211-235 | Every extent of every wanted item with construction method 0, and no other, is reported, for any written table. |
| MediaAcceptance.AcceptedItems | crates/core-media/src/metadata_ranges.rs:211-235 | Any accepted location table consists of written items, as many as announced, and every range asked for can be formed. |
| MediaFormats.EntriesAreRead | crates/core-media/src/metadata_ranges.rs:165-186 | Of any item list, with entries of versions 0 and 1 and boxes of other types among the typed ones, exactly the Exif and mime ids are found, in order. |
| MediaAcceptance.AcceptedEntries | crates/core-media/src/metadata_ranges.rs:165-186 | Conversely, any accepted item list consists of written entries and boxes that are skipped. |
| MediaFormats.MetaItemsAreFound | crates/core-media/src/metadata_ranges.rs:142-149 | For any meta box, with or without the two tables, whatever the item list holds besides: the reported ranges are those that the location table gives for the items the list types as Exif or mime. |
| MediaAcceptance.AcceptedMeta | crates/core-media/src/metadata_ranges.rs:142-149 | Whatever meta box is accepted is one of that form, and what is reported is what its own tables say. |
| MediaAcceptance.ItemIsListed | crates/core-media/src/metadata_ranges.rs:211-235 | Every extent of every wanted item with construction method 0 has a range, and it is in the answer. |
| MediaFormats.AnswerCoversFile | crates/core-media/src/metadata_ranges.rs:116-155 | When there is an answer, top-level boxes tile the whole file, every moov and meta box is reported in full, and the item ranges of each meta box are passed on unabridged. |
| MediaAcceptance.AnswerReportsEverything | crates/core-media/src/metadata_ranges.rs:116-155 | On any bytes: when there is an answer, top-level boxes tile the whole file, every moov and meta box is reported in full, and each meta box holds tables of the written form such that every extent of every method-0 item that the list types as Exif or mime is in the answer. |
| MediaAnswers.JpegFileAnswersExactlyWhen | crates/core-media/src/metadata_ranges.rs:18-71 | The whole answer for a file that starts FF D8: there is one if and only if its first four mebibytes are segments up to a stop, and then it is the range from the start to the end of the last application segment. |
| MediaAnswers.IsoFileAnswersExactlyWhen | crates/core-media/src/metadata_ranges.rs:18-155 | For a file whose first box is ftyp there is an answer if and only if boxes tile it and each meta box can be read. |
| MediaAnswers.IsoAnswerIsExact | crates/core-media/src/metadata_ranges.rs:116-155 | A range is in that answer if and only if it is a moov or meta box in full or is given by the tables of a meta box. |
| MediaAnswers.IsoAnswerIsInOrder | crates/core-media/src/metadata_ranges.rs:116-155 | And it is the list of those parts, box by box in the order of the file: a moov box, a meta box followed by what its tables give, nothing for any other. |
| MediaAnswers.EveryBoxHasItsPart | crates/core-media/src/metadata_ranges.rs:134-152 | Each box of a file with an answer has such a part. |
| MediaAnswers.OtherFilesHaveNone | crates/core-media/src/metadata_ranges.rs:24-33 | Any other file has no answer. |
| MediaTables.FieldsAreBigEndian | crates/core-media/src/metadata_ranges.rs:83-92 | Fixed-width fields are read big-endian, the 64-bit size of a box included. |
| MediaTables.MarkersAreListed | crates/core-media/src/metadata_ranges.rs:53-65 | The markers that end the header are the frame headers of ITU-T T.81 table B.1 and the start of the scan; the application markers are the sixteen from E0 on. |
| MediaTables.WidthsAreListed | crates/core-media/src/metadata_ranges.rs:207-216 | Item ids have two bytes up to version 1 and four from version 2 on; versions 1 and 2 have a construction method and an extent index. |
| MediaTables.ExtentSpans | crates/core-media/src/metadata_ranges.rs:225-232 | An extent has a range exactly when its bounds fit 64 bits: from base plus offset over its length, or to the end of the file when that is zero. |
| MediaTables.FirstBoxIsFound | crates/core-media/src/metadata_ranges.rs:159-161 | Of several boxes of one type the first counts. |
| Throttle.Coalescer.Signal | crates/daemon/src/events.rs:102-116 | New state and at most one new timer, stamped with the current generation. |
| Throttle.Coalescer.FlushNow | crates/daemon/src/events.rs:118-129 | Emits exactly when a signal was pending. |
| Throttle.Coalescer.FireIfCurrent | crates/daemon/src/events.rs:131-142 | Emits exactly when pending and the stamp is current. |
| Throttle.RunKeeps | crates/daemon/src/events.rs:102-142 | The invariant that links pending flag, generation, timers and emits is kept by every interleaving, the gap between lock and spawn, and between lock and emit, included. |
| Throttle.NeitherLostNorDoubled | crates/daemon/src/events.rs:102-142 | In every run: pending exactly when one outstanding timer carries the current generation; emits done and under way equal the generation; emits never exceed signals that found nothing pending. |
| Throttle.EverySignalIsReported | crates/daemon/src/events.rs:99-101 | Once all timers have run and all emits are done, an emit has followed every signal. |
| Throttle.SignalIsReportedByItsTimer | crates/daemon/src/events.rs:102-142 | A signal that finds nothing pending is reported by the timer it starts, once; a flush in between reports it at once and leaves the timer nothing to do. Signals and flushes are never refused. |
| Throttle.StaleTimerIsSilent | crates/daemon/src/events.rs:133-137 | An overtaken timer changes nothing and emits nothing. |
| IngestTheorems.NothingIsLost | crates/core-index/src/ingest.rs:156-283 | Over every run of concurrent ingests, crashes and sweeps that keeps the stated rules: delivered bytes are always in the library or still waiting in staging. |
| IngestTheorems.KeptForever | crates/core-index/src/ingest.rs:156-283 | Bytes that have reached the library stay in it. |
| IngestTheorems.NothingIsClobbered | crates/core-index/src/ingest.rs:493-544 | Over every run whatsoever, no file that no running ingest has placed is changed or removed. |
| IngestWhole.StepWritesWhole | crates/core-index/src/ingest.rs:475-544 | A step that makes a library file, or changes one, writes the complete incoming file there, or reserves the name with an empty one where hard links are refused. |
| IngestWhole.EventWritesWhole | crates/core-index/src/ingest.rs:475-544 | No other event makes or changes a library file, a crash that tears temporary copies included. |
| IngestWhole.NamesAreWhole | crates/core-index/src/ingest.rs:475-544 | Over every run whatsoever, from a state where nothing runs or finished copies are complete: what is at a library path afterwards is empty, or was there before, or is exactly a file that waited or was delivered. Nothing half-written is ever seen there. |
| IngestTheorems.IndexStaysTrue | crates/core-index/src/ingest.rs:156-283 | From a library at rest, over every careful run: each row's file has exactly its bytes, no two rows share a path, a row keeps its path, and delivered bytes stay. One row for a hash is built in, as in the table's key. |
| IngestTheorems.ReportsAreTrue | crates/core-index/src/ingest.rs:173-184 | An ingest that is about to report a new or a duplicate file reports about a hash that is indexed with its file. |
| IngestTheorems.LookedAtMeansIndexed | crates/core-index/src/rebuild.rs:171-242 | The indexer's look at a finished file ends with its hash indexed, by its own insert or by another's. |
| IngestTheorems.AdoptionIsSafeExactlyWhenNobodyInserts | crates/core-index/src/rebuild.rs:152-242 | Adopting the only copy of some bytes is safe if and only if no ingest that would still insert holds that name: otherwise the losing ingest removes the file. |
| IngestTheorems.EveryIngestCanBeHit | crates/core-index/src/ingest.rs:261-276 | For any content and name there is a run in which adoption falls between placing and inserting and the only copy is deleted. |
| IngestTheorems.FailedInsertDooms | crates/core-index/src/ingest.rs:261-275 | For any content, an insert that fails for another reason than a taken hash can lose the only copy. |
| IngestExactness.DuplicateIsSafeExactlyWhenTrue | crates/core-index/src/ingest.rs:172-185 | When an ingest finds its hash in the index and looks whether the row's file exists, and nobody else has the bytes: they are safe in every later run that keeps the rules if and only if a file found there holds them. |
| IngestExactness.InsertIsSafeExactlyWhenNoError | crates/core-index/src/ingest.rs:261-276 | When an ingest inserts the row of the only copy of some bytes: they are safe in every later run that keeps the rules if and only if the insert does not fail for another reason than a taken hash. |
| IngestTheorems.StaleRowDooms | crates/core-index/src/ingest.rs:172-185 | A scene in which the file at a row's path holds other bytes: an upload of the row's content is called a duplicate and can be lost. |
| IngestExactness.StaleSceneIsReached | crates/core-index/src/ingest.rs:172-185 | That scene is within reach: from a library at rest with one photo, somebody deletes its file, and a run that keeps every rule brings another photo to that name and the first one back to staging. |
| IngestTheorems.MovedSharesPathExactlyWhenTaken | crates/core-index/src/ingest.rs:186-197 | Re-pointing a row keeps paths unique if and only if no other row has the new path. |
| IngestPaths.OnePerPathExactlyWhenFree | crates/core-index/src/ingest.rs:186-276 | Over every run whatsoever: no two rows share a path all along if and only if no row is written (inserted, re-pointed, adopted) for a path that another row has. |
| IngestExactness.TwoRowsOnOnePath | crates/core-index/src/ingest.rs:186-197 | The failing run: from a library at rest with two photos, somebody deletes both files, and a run that keeps every rule uploads the first again under the second one's name; both rows end at that path. |
| IngestTheorems.CleanRun | crates/core-index/src/ingest.rs:156-283 | A library without missing files stays one, and then the rule about duplicates never needs to be assumed. |
| IngestTheorems.RunKeeps | crates/core-index/src/ingest.rs:156-283 | The invariant over files, rows and running ingests is kept by every run that keeps the rules. |
| IngestSafety.EventKeeps | crates/core-index/src/ingest.rs:156-283 | Each event keeps it: any step of any ingest, arrival, the indexer's look and insert, a sweep, a crash with torn temporary files. |
| IngestSafety.StepTouchesOnlyItsOwn | crates/core-index/src/ingest.rs:261-266 | A step changes no library file except the one its ingest holds; in particular a loser removes only what it placed. |
| IngestSafety.StepKeepsPermanent | crates/core-index/src/ingest.rs:156-283 | A copy that no running ingest can take back survives every step. |
| IngestSafety.StepFoundsRows | crates/core-index/src/ingest.rs:228-283 | A row that appears names a file that has its content and that no running ingest can take back. |
| Ingest.Ingestor.PublishNoClobber | crates/core-index/src/ingest.rs:493-544 | Taken exactly when the name existed; otherwise the source has become the file of that name and nothing else has changed, through all three ways of publishing. |
| Ingest.Ingestor.PlaceBlocking | crates/core-index/src/ingest.rs:319-362 | The file goes to the first free of 10000 candidates, or none was free and nothing has changed. |
| Ingest.Ingestor.HashAtRelPath | crates/storage/src/asset_repo.rs:156-166 | Some row with that path, or there is none. |
| Ingest.Ingestor.Register | crates/core-index/src/ingest.rs:228-276 | Evict and insert: the new table, and paths stay unique and true. |
| Ingest.Ingestor.IngestInner | crates/core-index/src/ingest.rs:156-283 | For each outcome the new disk and the new table; a file already in the library is adopted where it is. |
| Ingest.CandidatePathsAreDistinct | crates/core-index/src/ingest.rs:341-347 | The candidates are pairwise different paths. |
| Ingest.CandidatePathIs | crates/core-index/src/ingest.rs:337-343 | The paths tried: the name itself in the directory, then with a number in front of its extension. |
| LibraryLayout.SanitizedNameIsSafe | crates/core-index/src/ingest.rs:427-434 | The cleaned name is non-empty, trimmed, has no separator and is not a dot name; safe names stay as they are. |
| LibraryLayout.SanitizedNameIsExact | crates/core-index/src/ingest.rs:427-434 | For every name: what is behind its last slash or backslash, without the blanks at both ends, or the placeholder when that is empty or a dot name. |
| LibraryLayout.EveryNameSplits | crates/core-index/src/ingest.rs:427-434 | Every name is of that form, so nothing is left unsaid. |
| LibraryLayout.CandidateIsSuffixed | crates/core-index/src/ingest.rs:436-443 | The number goes in front of the extension, which counts as one only if something is on both sides of its dot. |
| LibraryLayout.CandidatesAreDistinct | crates/core-index/src/ingest.rs:337-346 | The suffixed candidates of a name are pairwise different. |
| LibraryLayout.CandidateKeepsKind | crates/core-index/src/ingest.rs:436-443 | Suffixing keeps the extension, the media kind and visibility. |
| LibraryLayout.DeviceOf | crates/core-index/src/rebuild.rs:378-393 | The loop decodes the second path component, or answers the local device. |
| LibraryLayout.PlacedPathIs | crates/core-index/src/ingest.rs:329-349 | The path of a placed file, component by component: the top directory, the device, year, month, name. |
| LibraryLayout.DeviceIsReadBackExactlyWhen32Bytes | crates/core-index/src/rebuild.rs:375-393 | The device of a placed path is read back if and only if its id has 32 bytes or is the local one. |
| LibraryLayout.DevicesAreApart | crates/core-index/src/ingest.rs:415-419 | Different devices have different directories. |
| LibraryLayout.DirectoryIsADeviceExactlyWhen | crates/core-index/src/rebuild.rs:375-393 | For every path: the second component decides, whatever this machine is, if and only if it has 64 characters and each pair is two hex digits of either case or a plus sign and a digit; and it is what the program writes for that device if and only if all of it is lower-case hex. |
| Rebuild.CollectFiles | crates/core-index/src/rebuild.rs:335-356 | The recursive walk appends the media files of a tree in directory order. |
| Rebuild.WalkFindsExactly | crates/core-index/src/rebuild.rs:332-356 | The walk finds exactly the files under visible names with a media extension. |
| Rebuild.SortedIsOrdered | crates/core-index/src/rebuild.rs:165-166 | The list is put in component-wise order. |
| Rebuild.Sorted | crates/core-index/src/rebuild.rs:165-166 | It is the same list, with every file as often as before. |
| Rebuild.ScanCounts | crates/core-index/src/rebuild.rs:168-242 | Inserted, skipped and empty add up to the files; as many rows are added as files inserted; existing rows stay; every non-empty file's hash ends up indexed. |
| Rebuild.AdoptionIsExact | crates/core-index/src/rebuild.rs:112-143 | A scan adds exactly the hashes of visible non-empty media files that had no row, each with the first path that has the content, and leaves the other rows alone; each visible file is counted once, the empty ones as empty, as many as rows were added as new, and the others as known. |
| Rebuild.EmptyFilesAreCounted | crates/core-index/src/rebuild.rs:173-187 | The count of empty files is the number of files without content. |
| Rebuild.PathOrderIsByComponent | crates/core-index/src/rebuild.rs:165-166 | The order that decides between duplicates: paths by their first components that differ. |
| Rebuild.StringOrderIsAlphabetic | crates/core-index/src/rebuild.rs:165-166 | And those by their first characters that differ, the shorter first where one ends. |
| Rebuild.NewRowIsOfFirst | crates/core-index/src/rebuild.rs:165-230 | A new row describes the first path in order that has the content. |
| Rebuild.Index.IndexMissingFiles | crates/core-index/src/rebuild.rs:152-248 | The scan computes that table and those counts. |
| Rebuild.Index.IndexFiles | crates/core-index/src/rebuild.rs:168-242 | The loop over the sorted files computes, file by file, the table and the three counters of the scan. |
| Rebuild.Index.Rebuild | crates/core-index/src/rebuild.rs:71-95 | Clears and scans: the same as a scan of an empty table. |
| Rebuild.Index.AdoptOrphans | crates/core-index/src/rebuild.rs:112-143 | Scans without clearing, and reports the counts. |
| RebuildTheorems.IndexDependsOnlyOnVisibleFiles | crates/core-index/src/rebuild.rs:152-248 | Two trees with the same visible media files give the same table, whatever their directory order and other files. |
| RebuildTheorems.SecondAdoptionIsIdle | crates/core-index/src/rebuild.rs:97-107 | A second adoption adopts nothing and changes nothing. |
| RebuildTheorems.PlacedFileComesBackExactlyWhen | crates/core-index/src/rebuild.rs:375-393 | Wiping and rebuilding restores path, size and device of a placed file if and only if it is the first with its content and the device id has 32 bytes or is the local one. |
| RebuildTheorems.AdoptionCompletesInterruptedIngests | crates/core-index/src/rebuild.rs:97-143 | After any careful run of concurrent ingests with crashes, adoption gives every visible copy's hash a row, and every row's file has exactly its bytes. |
| RebuildTheorems.JoinIsInjective | crates/core-index/src/rebuild.rs:358-373 | Different paths in the tree have different index paths. |
| PeVersion.ReadKey | tools/release/pe_version.py:121-129 | The loop reads the key up to its terminator, or fails behind the block. |
| PeVersion.BlockAt | tools/release/pe_version.py:115-136 | An accepted block lies inside the buffer and its children are shorter than it, which is why the nesting ends. |
| PeVersion.ReadBlock | tools/release/pe_version.py:115-136 | The method reads that block. |
| PeVersion.FindChild | tools/release/pe_version.py:139-146 | The walk over 4-byte-aligned children finds the first wanted one and reads none behind it. |
| PeVersion.FileVersionFromBlob | tools/release/pe_version.py:159-173 | The nested loops find the first version string of the first tables that hold one. |
| PeVersion.FindSubdir | tools/release/pe_version.py:80-92 | The loop over directory entries finds the subdirectory of an id. |
| PeVersion.ReadFileVersion | tools/release/pe_version.py:46-112 | The reader computes the answer that PeFiles and PeBlobs describe on all bytes, errors included. |
| PeBuilder.BlockIsRead | tools/release/pe_version.py:187-195 | Any built block, with anything behind it, is read back with its key, value, children and length. |
| PeBuilder.ChildrenAreWalked | tools/release/pe_version.py:139-146 | A walk over any list of built blocks finds the first wanted entry. |
| PeBuilder.BuiltBlobIsRead | tools/release/pe_version.py:179-201 | The built version blob reads back as the version, up to its first NUL and trimmed, under a key that spells FileVersion in any case; under another key it reports that none is there. |
| PeBuilder.BlobIsBuiltExactlyWhen | tools/release/pe_version.py:179-201 | A version resource can be built if and only if its size, given by the lengths of key and version, fits 16 bits; then it has that size. |
| PeRoundTrip.BuildPeInPlace | tools/release/pe_version.py:204-236 | Packing into the byte array computes the file. |
| PeRoundTrip.PackInto | tools/release/pe_version.py:206-235 | One write at an offset changes those bytes and no others. |
| PeRoundTrip.BuiltFileIsRead | tools/release/pe_version.py:204-236 | For every blob and payload, reading the built file is reading the blob. |
| PeRoundTrip.RoundTrip | tools/release/pe_version.py:239-240 | For every version, key and payload whose blocks fit 16-bit lengths: reading the built file gives the version up to its first NUL, decoded and trimmed, or the error for an empty one; under a key that is not FileVersion, the error for a missing one. |
| PeRoundTrip.FileLayout | tools/release/pe_version.py:204-236 | Where things are in a built file: the name of its one section, the resource, and the payload behind everything; and its length. |
| PeRoundTrip.FileIsMadeExactlyWhen | tools/release/pe_version.py:179-240 | A file can be made exactly when that is so, whatever the payload. |
| PeRoundTrip.ComesBackExactlyWhen | tools/release/pe_version.py:239-240 | The version comes back as it is if and only if it is non-empty, free of NUL and unpaired surrogates, and trimmed. |
| PeRoundTrip.AppendedBytesDoNotMatter | tools/release/pe_version.py:46-112 | Appending bytes to any file that is accepted does not change the answer. |
| PeFiles.RvaIsFoundExactlyWhen | tools/release/pe_version.py:72-76 | For every section table: an address is found if and only if some section covers it, by its size in memory or in the file, and then where the first of them says. |
| PeFiles.ExecutableIsRead | tools/release/pe_version.py:46-112 | Any executable is read: any sections in front of the one with the resources, either header size, other entries in front of the version in the root directory. |
| PeFiles.VersionIsReadExactlyWhen | tools/release/pe_version.py:46-112 | On any bytes: a version is read if and only if such an executable stands there and its version resource gives it. |
| PeBlobs.BlockIsReadExactlyWhen | tools/release/pe_version.py:115-136 | On any bytes: a version block is read if and only if it stands there, with its key, its aligned and possibly truncated value, and its children. |
| PeBlobs.FirstChildIsFoundExactlyWhen | tools/release/pe_version.py:139-146 | A walk over a list of blocks finds the first that is wanted, or none, exactly when it is so; blocks behind it need not be readable. |
| PeBlobs.VersionIsFoundExactlyWhen | tools/release/pe_version.py:165-174 | All string tables are looked through in order, up to the first with the entry. |
| PeBlobs.DecodingIsExact | tools/release/pe_version.py:149-156 | Decoding keeps surrogate pairs and all other units and replaces each surrogate that stands alone. |
| PeBlobs.VersionIsSaidExactlyWhen | tools/release/pe_version.py:149-171 | A value is accepted if and only if its units up to a zero or the end, decoded and stripped, are not empty, and that is the version. |
| PeBlobs.FileVersionIsNamed | tools/release/pe_version.py:168-168 | The entry is found under its name in any mixture of capitals and small letters. |
| PeBlobs.ExecutableSaysVersionExactlyWhen | tools/release/pe_version.py:46-174 | The whole way on any bytes: the answer is a version if and only if an executable stands there whose version resource says it. |
| TomlString.InferStyle | crates/daemon/src/config.rs:316-362 | The inference loop computes the decision. |
| TomlString.DecisionMeans | crates/daemon/src/config.rs:305-308 | Which strings are written literally, and in which of the styles, as the comment above the function promises. |
| TomlString.LiteralExactlyWhen | crates/daemon/src/config.rs:305-308 | A value is written literally if and only if it has a backslash, no three single quotes in a row, none at its end, and no control characters but tabs and newlines. |
| TomlString.TomlStringRepr | crates/daemon/src/config.rs:309-400 | The printing loop computes the text. |
| TomlString.TextIsFrozen | crates/daemon/src/config.rs:353-391 | The text itself, for every value: which quotes, and between them the value as it is or escaped. |
| TomlString.EscapesAreFrozen | crates/daemon/src/config.rs:371-386 | Each escape as it is written: short ones where there are, four upper-case digits for other control characters, a newline and all else as it is. |
| TomlString.BasicIsRead | crates/daemon/src/config.rs:380-396 | An escaped string is decoded by section "String" of TOML v1.0.0 to what it was. |
| TomlString.LiteralIsRead | crates/daemon/src/config.rs:365-373 | So is a literal one, up to its closing quotes. |
| TomlString.RoundTrip | crates/daemon/src/config.rs:309-400 | For every string, decoding its representation by TOML v1.0.0 gives it back. |
| Config.NormalizeSeparators | crates/daemon/src/config.rs:261-286 | The loop computes the normal form. |
| Config.NormalizeIsNormal | crates/daemon/src/config.rs:257-286 | The result has at most two leading and otherwise only single separators, keeps a leading pair, and is the input exactly when that was normal. |
| Config.NormalizeKeepsParts | crates/daemon/src/config.rs:261-286 | Nothing but separators is ever dropped: what stands between them stays, in order, and so does whether the path ends with one. |
| Config.NormalizeIsIdempotent | crates/daemon/src/config.rs:257-286 | Normalizing twice is normalizing once. |
| Config.UnescapeTomlBasic | crates/daemon/src/config.rs:198-220 | The character loop undoes the known escapes. |
| Config.ReadConfigDataDir | crates/daemon/src/config.rs:228-249 | The line loop reads the value of the first line that starts with the key. |
| ConfigReading.DirectoryIsReadExactlyWhen | crates/daemon/src/config.rs:228-249 | For every document: the answer is a directory if and only if the first line that begins like the key sets it to that directory. Lines behind it do not count, nor does a first line that sets nothing. |
| ConfigReading.LineSetsExactlyWhen | crates/daemon/src/config.rs:232-246 | What such a line says: the key, an equals sign and a value, with any blanks around them. |
| ConfigReading.MeansIsUnquoted | crates/daemon/src/config.rs:235-241 | A value in double quotes is unescaped; any other loses the single quotes at its ends; both lose the blanks at their ends. |
| ConfigReading.EscapesAreReadExactly | crates/daemon/src/config.rs:198-220 | Five escapes are read, all others stay as they are, and so does a backslash at the end. |
| ConfigReading.LinesAreExact | crates/daemon/src/config.rs:230-231 | A document is cut at its newlines; a carriage return in front of one goes, and what is behind the last one counts if it is not empty. |
| Config.OverlapIsComponentPrefix | crates/daemon/src/config.rs:430-449 | Two paths overlap exactly when, folded and split, one is a prefix of the other. |
| Config.FoldedIsExact | crates/daemon/src/config.rs:434-439 | What is compared: the path without the separators at its end, backslashes as slashes, lowered. |
| ConfigTheorems.MergedIsRead | crates/daemon/src/config.rs:417-428 | What is read back from a merged document depends on the directory only, not on the document. |
| ConfigTheorems.ComesBackExactlyWhenStorable | crates/daemon/src/config.rs:222-249 | For every document and directory: the normalized directory comes back if and only if it is non-empty, trimmed, without control characters other than tab and carriage return, and not both written literally and starting with a quote. |
| ConfigMerge.OthersStayExactlyWhen | crates/daemon/src/config.rs:417-428 | The promise above the function, byte for byte, for every document and directory: all but the lines that set the key stays as it is if and only if there is such another line, and each ends with a newline without a carriage return before it and does not merely begin like the key. |
| ConfigMerge.OtherKeyIsLost | crates/daemon/src/config.rs:422-422 | The failing documents: a line that sets data_dir_backup, to any value, is dropped. |
| ConfigTheorems.OtherLinesStay | crates/daemon/src/config.rs:417-428 | For documents without carriage returns and one-line values: the lines that do not begin like the key stay as they were. |
| ConfigTheorems.SecondMergeReplacesFirst | crates/daemon/src/config.rs:420-428 | Merging again is the same as merging only the second directory. |
| Backup.BackupEngine.Begin | crates/daemon/src/backup.rs:191-198 | Keeps a running session and only touches it. |
| Backup.BackupEngine.Manifest | crates/daemon/src/backup.rs:203-241 | Answers the announced items and then the bare hashes that are not items, without those that are garbled or indexed, in their order and as often as they were announced; and adds the items to the session. |
| Backup.BackupEngine.IngestStaged | crates/daemon/src/backup.rs:347-377 | Nothing happens without session, item or file; otherwise the file is taken in, and counted and settled unless that failed. |
| Backup.BackupEngine.SweepSessions | crates/daemon/src/backup.rs:284-307 | Drops exactly the sessions that were idle too long, with their deliveries. |
| Backup.BackupEngine.Commit | crates/daemon/src/backup.rs:424-598 | Success closes the session; of the unsettled items that are not passed over, those whose hash enters the index raise the first count and the others the second; everything not passed over is indexed, and deliveries are never answered with a count of zero; otherwise the session stays. |
| Backup.NewExactlyWhenItEnters | crates/daemon/src/backup.rs:540-566 | An item counts as new exactly when its hash enters the index. |
| Backup.IngestOneIsExact | crates/daemon/src/backup.rs:376-418 | The staged file is gone in every case; an error leaves the index alone; otherwise the index has the content, new if it was not there or its file had gone. |
| Backup.BroughtInExactlyWhenFound | crates/daemon/src/backup.rs:424-598 | An item is passed over exactly when its hash is garbled or its bytes are nowhere to be found; one that is taken in is indexed, and others keep their staged files. |
| Backup.BringInIsExact | crates/daemon/src/backup.rs:491-567 | What an item leaves behind and when it fails the commit: a text that is no hash or an indexed hash touches nothing; otherwise nothing stays in staging under its name, and the commit fails when what was found cannot be taken in, or when the device serves files and nothing was found. |
| BackupBooks.EvenExactlyWhenBookedOnce | crates/daemon/src/backup.rs:347-377 | Over every run: each session counts every settled item once all along if and only if no booking hits an item that was settled before. |
| BackupBooks.BalancedExactlyWhenBookedWell | crates/daemon/src/backup.rs:347-377 | Over every run: besides, only announced items are settled, if and only if no booking hits an item that was settled before or is not announced. |
| BackupBooks.DoubleBookingStays | crates/daemon/src/backup.rs:366-375 | The first booking of a settled item breaks the books for good: the session counts too much, whatever follows, until it is closed. |
| BackupBooks.CommitTotalIsWhatWasAnnounced | crates/daemon/src/backup.rs:424-598 | From a fresh engine, over every run that books well: what a commit has taken in, found to be there, and skipped adds up to the number of items announced when it started. |
| BackupBooks.CommitCountsWhatItBringsIn | crates/daemon/src/backup.rs:424-598 | Over every run, with several commits and other deliveries in between: a commit's count of new files grows by the hashes that come into the index at its own items, one by one, and its count of known ones by its items that were there. |
| BackupBooks.SecondDeliveryOvercounts | crates/daemon/src/backup.rs:347-377 | The failing run: a second delivery of a settled item is taken in as a duplicate and booked again. |
| BackupRuns.RunKeeps | crates/daemon/src/backup.rs:190-598 | The books and the whereabouts of owed deliveries are kept by every interleaving of calls of all devices, calibration and several commits of one device at a time included. |
| BackupRuns.IngestStagedIsItsEvents | crates/daemon/src/backup.rs:347-377 | What the engine's method does with a staged file is the two events of the machine, one after the other. |
| BackupRuns.AcceptedCommitKeepsDeliveries | crates/daemon/src/backup.rs:424-598 | When a commit ends, every delivery still owed to the device is indexed, and ingested, duplicates and skipped add up to the session's counts plus its unsettled items. Owed are files announced before they came, unless a running commit of the device had passed their item by then. |
| BackupRuns.AcceptedCommitHasAllDeliveries | crates/daemon/src/backup.rs:424-598 | Over every run in which files are announced before they come and none comes behind a running commit that has passed its item, no ingest fails and no session is dropped: at the end of a commit all deliveries of the device since its last one are indexed. |
| BackupRuns.CommitClosesExactlyWhen | crates/daemon/src/backup.rs:568-598 | The end of a commit closes the session and its books, unless deliveries are owed and nothing at all was counted. |
| BackupDeliveries.IndexedExactlyWhenComesUp | crates/daemon/src/backup.rs:347-598 | Over every run: what has arrived in staging is indexed later if and only if it was before, or its item or the same bytes under another name have come up since; its own ingest must not fail when it does. |
| BackupDeliveries.CommitComesToWhatIsLeft | crates/daemon/src/backup.rs:424-490 | From any point of a commit on, the items it comes to are exactly those it had left then. |
| BackupDeliveries.DeliveryDuringCommitIsIndexedExactlyWhen | crates/daemon/src/backup.rs:424-598 | A file that arrives while a commit of its device runs is indexed at the end of that commit if and only if its bytes were already, or the commit has its item still to do, or somebody else brings it in; its own ingest must not fail. |
| BackupDeliveries.DeliveryBehindItsItemIsLost | crates/daemon/src/backup.rs:424-598 | The failing run, from a fresh engine and without any error: announced, passed over by the commit, delivered; the commit is accepted, session and delivery count are gone, and the file is not in the index. |
| BackupErrors.IndexedExactlyWhenFirstTryWorks | crates/daemon/src/backup.rs:347-598 | Over every run: a file that waits in staging, whose bytes come from nowhere else and which is not delivered again, is indexed later if and only if the first event that takes it up has no ingest error. |
| BackupErrors.IndexedExactlyWhenSomeTryWorks | crates/daemon/src/backup.rs:347-598 | With new deliveries allowed: if and only if, for some delivery, the first event that takes it up has no ingest error. |
| BackupErrors.FailedCommitThenAccepted | crates/daemon/src/backup.rs:424-598 | The failing run, from a fresh engine: a commit fails on an ingest error and keeps the session, the next one passes the item over and is accepted; session and staged file are gone, and the delivery is not in the index. |
| BackupRuns.CalibrationIsHarmless | crates/daemon/src/backup.rs:178-198 | A begin and an empty manifest in the middle of a session change nothing. |
| BackupRuns.IngestErrorIsPassedOver | crates/daemon/src/backup.rs:347-417 | The same with the error during an upload: concrete runs in which the next commit passes the item over and is accepted. |
| BackupRuns.TwoDeliveredIsReached | crates/daemon/src/backup.rs:190-377 | Where those runs start is reached from an empty engine by announcing two photos, delivering both, and taking one in. |
| PhotoWall.InsertSorted | apps/desktop/src/photoWall.js:138-148 | The binary search finds the place, and the item is put there. |
| PhotoWall.SamePhotoExactlyWhenOnlyTheObjectDiffers | apps/desktop/src/photoWall.js:126-136 | No field that is shown is left out of the comparison: two cells of one photo are the same exactly when only the objects differ. |
| PhotoWall.BeforeMeansNewerOrSmaller | apps/desktop/src/photoWall.js:40-46 | Newest first, a missing time counting as zero, then by hash. |
| PhotoWall.InRangeIsClosed | apps/desktop/src/photoWall.js:113-124 | The range reaches from the first to the last fetched photo, both included. |
| PhotoWall.ReconcilePhotoWall | apps/desktop/src/photoWall.js:73-111 | The loops compute the merged wall; its length is the held length plus added minus removed, and the counters are right. |
| PhotoWallTheorems.SlotIsRight | apps/desktop/src/photoWall.js:139-145 | In a sorted wall everything left of the place is before the item and everything right of it behind. |
| PhotoWallTheorems.WallAgrees | apps/desktop/src/photoWall.js:48-111 | With both lists sorted and unique and shared photos keeping their time: the result is sorted and unique, its part inside the fetched range shows exactly the fetched list, and with the end reached all of it does. |
| PhotoWallTheorems.HeldStaysExactly | apps/desktop/src/photoWall.js:54-71 | A held photo goes exactly when it was not fetched and the end was reached or it lies in the range; its object stays exactly when nothing shown has changed. |
| PhotoWallTheorems.OrderedExactlyWhenStillOrdered | apps/desktop/src/photoWall.js:100-108 | When times may have changed: the result is sorted if and only if the held photos that stay are, each with the time that the fetch gives it. |
| PhotoWallTheorems.ChangedTimeBreaksOrder | apps/desktop/src/photoWall.js:83-89 | A concrete wall where a photo's time has changed: the result is not sorted. |
| Worklist.Collect | tools/release/rust-impact.py:127-134 | The worklist loop ends and has seen exactly what is reachable, not going on from what was seen before. |
| RustImpact.Activated | tools/release/rust-impact.py:92-110 | The feature loop computes exactly the names that the features switch on. |
| RustImpact.PathDepsAreExact | tools/release/rust-impact.py:86-119 | The path dependencies of a package: those with a path, not for tests, and not optional ones that are off under the name the package knows them by; unsure exactly when one of them is no known package. |
| RustImpact.Closure | tools/release/rust-impact.py:121-134 | Exactly the packages of the entry's product, and unsure exactly when the entry is not known or one of the dependencies that matter is not. |
| RustImpact.FeatureValuesMean | tools/release/rust-impact.py:101-108 | What a feature can list: a dependency, a feature of a dependency with or without a question mark, or another feature. |
| CrateProducts.IsOnExactlyWhenRouted | tools/release/rust-impact.py:91-110 | A dependency is on if and only if a feature reached from the default or the requested ones switches it on, or is no feature but its name. |
| CrateProducts.InProductExactlyWhenRouted | tools/release/rust-impact.py:121-134 | The product of an entry is the entry and what routes of dependencies lead to: the first step as its features leave it, later steps by any, never through the entry again. |
| LockImpact.EntryHits | tools/release/rust-impact.py:139-145 | True exactly when an entry that counts has one of the crates in its product; unsure exactly when an entry cannot be told and none before it has one. |
| LockImpact.EndsUsing | tools/release/rust-impact.py:136-146 | Exactly the ends that use a crate, each once and in the order of the table. |
| LockImpact.CandidatesAreExact | tools/release/rust-impact.py:164-173 | The candidates of a reference are exactly the packages with its name and, where given, its version and source. |
| LockImpact.LockGraphIsWellFounded | tools/release/rust-impact.py:150-180 | Every edge of a parsed lock file leads to one of its packages. |
| LockImpact.HitBy | tools/release/rust-impact.py:198-208 | A member is hit exactly when a changed package is reachable from it in the union of both graphs. |
| LockImpact.LockImpact | tools/release/rust-impact.py:183-212 | The ends that use a member that leads to a change, each once and in the order of the table; there is no answer exactly when something changed and the metadata do not know such a member or cannot tell an end. |
| LockImpact.NeverTooFew | tools/release/rust-impact.py:183-186 | If a member reaches a changed external package in the old or in the new graph and no changed crate is called "ws", every end that uses it is reported. |
| LockSoundness.GraphIsExact | tools/release/rust-impact.py:150-180 | The graph says what the file says: its keys are the packages listed, and its edges the references that fit exactly one of them. |
| LockSoundness.DiffersExactlyWhen | tools/release/rust-impact.py:186-190 | A package has changed if and only if it is in one file only, or has another checksum or other dependencies in the other. |
| LockSoundness.ReportedExactlyWhen | tools/release/rust-impact.py:183-212 | For any two lock files, said about the two lists of packages alone: an end is reported if and only if it uses a member from which a chain of references leads to a changed external package (one called "ws" is taken for a member instead). |
| LockSoundness.CauseIsReported | tools/release/rust-impact.py:183-212 | A changed external package, not called "ws", that a member reaches through the two files makes every end that uses the member reported. |
| LockSoundness.VersionBumpIsReported | tools/release/rust-impact.py:183-212 | In particular another version of a crate, which is in one file only under its name and version. |
| LockSoundness.GraphExistsExactlyWhen | tools/release/rust-impact.py:150-180 | A file has a graph exactly when each of its references fits one package. |
| LockExactness.SoundExactlyWhen | tools/release/rust-impact.py:183-212 | For any two lock graphs and the four ends of the release: every end that is owed is reported, in every workspace with an answer, if and only if each member that leads to a changed crate called "ws" also leads to a changed crate of another name, but for ends one of whose own packages does. |
| LockExactness.ChangedWsIsMissed | tools/release/rust-impact.py:190-190 | The failing inputs: two lock files that differ in the checksum of a crate called "ws" only. In every workspace, an end that uses the member depending on it is owed, and the answer is empty. |
| LockExactness.AndroidIsMissed | tools/release/rust-impact.py:42-44 | In particular the Android app, in every workspace, when that member is its own package. |
| CommentStripper.StripJsFrom | apps/desktop/src/i18nGate.helpers.js:21-116 | The scan reads the code from its start: every piece is of the kind that what is before it calls for (comment, string, regular expression, template, other), only comments become blanks, and the reading ends at the end or at the brace that closes the expression. |
| CommentStripper.ReadingIsUnique | apps/desktop/src/i18nGate.helpers.js:21-116 | That leaves no choice: a source has one reading and one stripped text. |
| CommentStripper.StripJsComments | apps/desktop/src/i18nGate.helpers.js:145-147 | A script keeps its length and its lines; what changes is inside a comment. |
| CommentStripper.StripSvelteComments | apps/desktop/src/i18nGate.helpers.js:149-195 | The same for a component, through HTML comments, script and style blocks, closing tags, expressions and whatever is left open, each region stripped by its own rules. |
| SvelteUniqueness.StrippedComponentIsUnique | apps/desktop/src/i18nGate.helpers.js:149-195 | Nor is there a choice for a component: it has one stripped text. |
| SvelteUniqueness.RegionIsUnique | apps/desktop/src/i18nGate.helpers.js:149-195 | Where a region starts decides its kind, where it ends and what it becomes. |
| CommentStripper.StripCss | apps/desktop/src/i18nGate.helpers.js:171-171 | A style sheet loses exactly its closed comments. |
| SvelteUniqueness.CssIsUnique | apps/desktop/src/i18nGate.helpers.js:171-171 | A style sheet has one stripped text. |
| CommentStripper.StyleOrScript | apps/desktop/src/i18nGate.helpers.js:160-174 | A block up to its closing tag, its body stripped as what it is. |
| CommentStripper.Expression | apps/desktop/src/i18nGate.helpers.js:185-189 | An expression up to the brace that closes it, the sigil kept. |
| CommentStripper.ReadLineComment | apps/desktop/src/i18nGate.helpers.js:29-36 | A blank for every character up to, not including, the end of the line. |
| CommentStripper.ReadRegion | apps/desktop/src/i18nGate.helpers.js:37-44 | Blanks with the newlines kept, from an opener to the first closer behind it, or to the end of the text. |
| CommentStripper.ReadString | apps/desktop/src/i18nGate.helpers.js:45-53 | The literal stays as it is, to its own quote or the end of the line, an escaped quote not counting. |
| CommentStripper.ReadRegex | apps/desktop/src/i18nGate.helpers.js:72-89 | The expression stays as it is, to the first unescaped slash outside a class, or to the end of the line. |
| ScriptRules.RegexStartsExactlyWhen | apps/desktop/src/i18nGate.helpers.js:68-71 | A slash starts a regular expression at the beginning, behind one of twenty characters, and behind one of ten words that stand alone; nowhere else. |
| ScriptRules.BlockTagExactlyWhen | apps/desktop/src/i18nGate.helpers.js:159-162 | A script or style block begins exactly where its opening tag stands, with text that does not go on with the name and holds no closing bracket, within 200 characters. |
| ScriptRules.BehindBraceIsExact | apps/desktop/src/i18nGate.helpers.js:178-183 | A closing tag of the markup ends behind the next brace. |
| CommentStripper.ReadTemplate | apps/desktop/src/i18nGate.helpers.js:123-143 | Ends behind the closing backtick or behind the opening of the next interpolation, and says which. |
| CommentStripper.StepThroughTemplate | apps/desktop/src/i18nGate.helpers.js:54-67 | Entering and leaving interpolations keeps the brace depths. |
| CommentStripper.PositionsStay | apps/desktop/src/i18nGate.helpers.js:1-8 | What the file's header promises: same length, newlines where they were, other characters unchanged or a blank for a character of a comment. |
| CommentStripper.BlockIsStripped | apps/desktop/src/i18nGate.helpers.js:163-172 | A block that is stripped on its own is stripped in its place. |

## Left out

- The file system below names and contents: inodes and open handles, the durability of directory entries, symbolic
  links, canonical paths, permissions and disk space. Library-relative paths count as resolved.
- Hash collisions, the database engine and its connection errors beyond the error branches of the modelled calls.
- Edits of the library by other programs in the replacement and rebuild proofs.
- Columns that only describe a photo (type, time taken, dimensions, time added), dating by EXIF or file time, audit
  rows, thumbnails and events to the window.
- The sweep of the old `.ppf/superseded` directory and its name reader, and the byte counts and log tags of sweeps.
- Removal errors in the class methods of `Supersede` and `Ingest`; the state machines have them.
- The file-name policy of Windows and the calendar of the date directories: year and month are parameters.
- How the sweep of ingest temporaries reads pids from names; the state machine has the step itself, for files of other
  processes.
- The branch of the tree scan that swallows a failed insert after looking again; in the state machine it is the case
  where the row is already there.
- The presence query, the watermark, dialling a device and the blob store: what an export or a fetch yields is a
  parameter. What is ingested in a backup session is modelled by its outcome; `Ingest` has the details.
- Wrapping of the 64-bit throttle generation and of 64-bit sums of offsets, which need 2^64 emits or files.
- Encodings: file names and configuration texts are sequences of characters, version strings sequences of UTF-16
  units. Lower-casing of paths is a parameter. `device_of` measures bytes; here a directory name is measured in
  characters, which differs for names outside ASCII only.
- Parsing TOML, `Cargo.lock` and the output of `cargo metadata`: packages, references and features come parsed.
- Git, the mapping from changed files to crates, and the impact of manifest changes.
- `library_target_verdict`, the first-run template and file errors of the configuration.
- Which text counts as Chinese in the comment gate.
- Backup.BackupEngine.Commit: the order in which items are taken is left open, as it is in the hash map of the source;
  bytes that the blob store exports or fetches are taken to have the hash asked for, which that store checks.
- Ingest.Ingestor.PlaceBlocking: the nanosecond stamp in the name of a temporary file is taken to be new in its
  directory; the source would write over a file of the same name.
- Ingest.Ingestor.IngestInner: read and write errors, a missing source file included, are the failing steps of the
  state machine, not outcomes of the method.
- IngestTheorems.NothingIsLost: it assumes the rules that the lemmas on adoption, failed inserts and stale rows show to
  be needed, and that files are not empty.
- SupersedeTheorems.CrashSafety: it assumes the exclusivity rule, which `SupersedeExactness` shows to be needed; what holds
  without it is in `SupersedeAnyRun`.
- PeRoundTrip.RoundTrip: versions are sequences of UTF-16 units; unpaired surrogates, which the builder's language
  refuses to encode, come out as replacement characters.
- The methods of `Ingest` and the commit of `Backup` as runs of their state machines: the machines split them at every
  await, and only a replacement's success, the repair of a record and the intake of a staged file are proved to be runs.
- CommentStripper.PositionsStay: characters are Unicode scalar values, the source's are UTF-16 units; a character outside
  the basic plane is one blank here and two there.
- BackupDeliveries.DeliveryDuringCommitIsIndexedExactlyWhen: it presumes that the file's own ingest does not fail; what an
  error costs is stated by `BackupErrors`.
- BackupErrors.IndexedExactlyWhenFirstTryWorks: the file in staging is the announced one, and the blob store and other names
  do not bring its bytes; with them it can be indexed without the delivery.
- ConfigMerge.OthersStayExactlyWhen: lines are told apart by their text alone, so a line of a multi-line string that looks
  like the key counts as one.
- ConfigTheorems.OtherLinesStay: documents without carriage returns; all documents are covered by `OthersStayExactlyWhen`.
