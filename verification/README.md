# evidenced, modelled in Dafny

evidenced collects compliance evidence on a schedule and keeps it in a tamper-evident log: records are
sealed into a SHA-256 hash chain, stored one JSON object per line, rotated into archived segments that
link to each other, and exported as checksummed, optionally signed bundles. This project models that
engine and proves what it guarantees over every input, every run, every restart and every point at which
the process can stop.

## How to read it

- The libraries (SHA-256, JSON, UTF-8, time formatting, base64, Ed25519) are the function fields of
  `Evidence.Codec` and `Bundle.Formats`. `Lawful` and `LawfulFormats` state what is relied on. Nothing is
  assumed about SHA-256 except the form of its output, so every integrity theorem reads "or these two
  records have different encodings with the same digest", and the two records are among those the theorem
  speaks about. `ConcreteCodec` and `ConcreteFormats` give instances, so the laws are consistent.
- A Go `string` and a `[]byte` are both a Dafny `string`, one character per byte. Fresh IDs, clock
  readings, collector results and file-system faults are inputs.
- Objects that the source updates in place are classes (`HashChain`, `FileStore`, `FrameworkMapping`,
  `CollectorRegistry`, `CollectionScheduler`, `EvidencePolicyReconciler`). Each method is tied to a function
  of the old state, and the lemmas about runs are about those functions.
- Lemmas named `...Means` spell out, in terms of the data alone, what the functions and predicates in the
  contracts of the operations stand for.
- `History` says which records each file was written from. A segment is its optional rotation record and
  the records appended to it.
- A run theorem asks that stored records can be read back (`LineFile.Storable`: valid UTF-8, line below
  the scanner's 16 MiB limit). `Append` checks neither; `Failure.ReopensIff` shows that this condition is
  exactly when the store can be opened again.

| file | source |
|---|---|
| Evidence, Chain, Integrity | `evidence/record.go`, `evidence/chain.go` |
| LineFile, Paths, Store, History, Runs, Spacing, Age, Lineage, Failure, Crash, Faults | `internal/core/store.go` |
| Ordering, Registry, Scheduler | `internal/core/collector.go`, `internal/core/scheduler.go` |
| Mapping | `mapping/mapping.go` |
| Report, Exporter, Bundle | `internal/core/exporter.go`, `bundle/bundle.go` |
| Wiring, Operator | `internal/shells/wiring/wiring.go`, `internal/shells/operator/reconciler.go` |

## Where the code falls short of its documentation

Each of these keeps the code as it is, gives the failing case, and states when the property does hold.

- `docs/evidence-model.md` says that removing any record is detected. Removing records at the end is not:
  on lists made of a chain's own records the checker accepts exactly the prefixes
  (`Integrity.AcceptsOnlyPrefixes`).
- A record with invalid UTF-8 in any string, or with a line of 16 MiB or more, is appended successfully and
  makes the next start refuse the store (`Failure.ReopensIff`, `ConcreteFormats.InvalidTextLocksTheStore`).
- After a failed write the head in memory has moved on. Reopening at once is safe, as the daemon does by
  stopping. The operator keeps its cached engine: every further append to that file makes it unacceptable
  (`Failure.FailedWrite`), and the next rotation record links to a head that was never written
  (`Failure.RotationAfterFailedWrite`). After a failed sync the rotation record's count is one too small
  (`Failure.FailedSync`).
- A rotation that fails at closing, renaming or creating the file leaves the store without a handle. The
  operator keeps its engine, and every later cycle fails before it collects anything until the engine is
  rebuilt (`Failure.FailedRotation`, `Scheduler.FailedRotationSticks`). No record is lost: the files still
  hold all of them, and reopening gives them back (`Failure.RotationKeepsRecords`). When only the write of
  the rotation record fails, the same engine goes on and makes the new file unacceptable with its next
  line (`Failure.RotationRecordLost`).
- A stop between the rename and the rotation record leaves an empty live file beside the archive. A later
  rotation with an age of at least one second can then replace the archive if and only if the live file's
  first record has a time, in an earlier second than the archive (`Spacing.ReplacesIff`,
  `Crash.CutRotationLosesArchive`); otherwise it never does (`Crash.CrashSafety`).
- The documentation says that rotation keeps a bundle to one rotation period of history. When the sync of
  a file's first record fails, a rotation record included, the line can stay in the file while the store
  takes the file for empty. No rotation is due then, however old the record gets, and later the limit
  counts from the next record (`Age.FirstSyncLost`). Over all runs of cycles, whatever else fails, the
  file is bounded at every cycle if and only if no cycle ended that way: with a sync error and a record
  count of zero (`Scheduler.AgeBound`).
- The documentation gives 24h as the minimum rotation age, but the operator's `Translate` has no minimum.
  Below one second a rotation can replace the previous archive (`Failure.NextRotation`,
  `Failure.DueAtOnce`); from one second on, in runs without faults, it never does (`Runs.RotationSpacing`,
  `Runs.ArchivesKept`).
- Report targets are told apart by `type/name`, which confuses targets exactly when their types have
  different numbers of slashes (`Report.KeyInjective`). The types in the repository have one slash each,
  so this needs a collector of one's own that uses another form, such as `cluster` beside `cluster/role`;
  then a report can leave out one of two targets (`Report.KeysCanClash`, `Report.ClashingTargets`). With
  room in the report, all targets are shown exactly if no two share a key (`Report.EveryTargetShownIff`).
- Two policies with the same store path get two writers of one file (`Operator.SharedPathTwoWriters`). A
  build makes a second writer exactly if the cached engine of another policy holds the file
  (`Operator.SecondWriterIff`). One append by each, both reported as successful, and the file is refused
  from then on (`Failure.TwoWriters`).

## Model

| member | source | states |
|---|---|---|
| Evidence.ImageDetermines | evidence/record.go:48-58 | the hash covers every field but `hash`: records with the same hashed bytes read back equal, link and time included |
| Evidence.CollisionMeans | evidence/record.go:48-58 | every "or two records collide" in this table exhibits two different texts with one SHA-256 digest |
| Chain.HashChain.Seal | evidence/chain.go:42-57 | refuses sealed records; otherwise the record extends the old head and becomes the new head; on any error the head stays |
| Chain.SealExtends | evidence/chain.go:42-57 | sealing succeeds exactly on unsealed encodable records, extends the head it was given, and changes nothing of the record but its seal and a missing ID, which becomes the new one; a sealed record is refused as it is, and no failure moves the head |
| Chain.Verify | evidence/chain.go:62-80 | accepts exactly the verified chains, and otherwise names the first record that breaks the chain and how |
| Chain.VerifiedMeans | evidence/chain.go:62-80 | a verified chain with one more record is verified exactly if that record names the hash of the last one, or none at the start, and its own hash is the digest of its encoding without it |
| Chain.VerifiedPrefix | evidence/chain.go:62-80 | removal of records at the end is never detected |
| Integrity.SharedHash | evidence/chain.go:62-80 | in two accepted lists an equal hash at some positions makes the positions equal and everything up to them identical, or two records collide |
| Integrity.HeadBinding | evidence/chain.go:62-80 | two accepted lists have the same last hash if and only if they have the same length and the same hashed bytes throughout, or two of their records collide |
| Integrity.SameImagesSameRecords | evidence/record.go:48-58 | accepted lists with the same hashed bytes read back as the same records, seals included |
| Integrity.HashesDistinct | evidence/chain.go:62-80 | no hash occurs twice in an accepted list, or two of its records collide |
| Integrity.AcceptsOnlyPrefixes | evidence/chain.go:62-80 | of the lists made of the records of an accepted list, exactly its prefixes are accepted (no deletion, reordering, duplication), or two of its records collide |
| LineFile.ReadRecords | internal/core/store.go:185-213 | the scanner loop computes the line-by-line reading: too long, blank, undecodable or a record, first failure wins |
| LineFile.LineMeans | internal/core/store.go:196-212 | one line by its bytes: too long from 16 MiB on, skipped when empty up to a carriage return, and otherwise what `json.Unmarshal` makes of it without that; the last line needs no newline |
| LineFile.RoundTrip | internal/core/store.go:82-86 | reading the file of appended records gives them back in order, up to normal form |
| LineFile.ReadFileSnoc | internal/core/store.go:196-212 | one more line reads as one more record below the limit, and makes the whole file unreadable at or above it |
| LineFile.NormsVerify | evidence/chain.go:62-80 | a sealed chain keeps its head when read back, and is accepted if and only if all its text is valid UTF-8, or a record collides with its own normal form |
| LineFile.LinePrefixAccepted | internal/core/store.go:179-183 | a reader that sees only the first lines of any accepted file reads an accepted file holding the first records; nothing is assumed of the codec or of who wrote the file |
| LineFile.LinePrefixVerifies | internal/core/store.go:179-183 | for the file of a sealed chain these are its first lines and its first records, up to normal form |
| Paths.ArchiveNames | internal/core/store.go:116-117 | an archive never has the store's own name; two archives share a name exactly when made in the same second |
| Paths.ArchiveNameMeans | internal/core/store.go:116-117 | the archive has the store's name with the time before the extension, which starts at the last dot |
| Paths.ArchiveNameWithoutExt | internal/core/store.go:116-117 | or at the end, when the last path element has no dot |
| Paths.BaseMeans | bundle/bundle.go:66-67 | the last element of a path, trailing slashes aside |
| Store.FileStore.OpenFileStore | internal/core/store.go:46-70 | opens exactly when the file is readable and its chain verifies; the fields are those resumed from the file and no content changes |
| Store.FileStore.Append | internal/core/store.go:72-97 | the whole new state, sealed record and error of an append, for every outcome of seal, encode, write and sync |
| Store.AppendMeans | internal/core/store.go:78-97 | an append without an error has put the record's JSON and a newline at the end of the file and counts one more record |
| Store.DueMeans | internal/core/store.go:107-109 | a rotation is due exactly when a record was counted and its time lies at least the age back; the saturation of Go's time difference decides nothing |
| Store.FileStore.MaybeRotate | internal/core/store.go:104-150 | the whole new state, archive name and error of a rotation, for every failing file operation |
| Store.FileStore.All | internal/core/store.go:152-156 | what is read is the reading of the file; a missing file holds no records |
| Store.FileStore.VerifyFile | internal/core/store.go:158-164 | true exactly when the file reads and its chain verifies |
| Store.FileStore.Close | internal/core/store.go:173-177 | closes the handle, once, and changes nothing else |
| History.OpenRebuilds | internal/core/store.go:46-70 | reopening rebuilds exactly the fields of the store that wrote the file |
| History.LiveGrows | internal/core/store.go:82-97 | appending a record's line keeps every file the file of its segment |
| History.LiveArchived | internal/core/store.go:116-128 | renaming the live file to a free name makes it the newest archive and keeps every other file |
| Runs.RotationSealed | internal/core/store.go:130-148 | every field of the rotation record: it names the head and count the store had and the archive, starts a chain, has the rotation's time, reports an observation, and carries no control |
| Runs.RotationSpacing | internal/core/store.go:107-117 | rotations are at least the rotation age apart, whatever the clock did in between, so the archive name is free |
| Runs.StepHealthy | internal/core/store.go:46-150 | every append, rotation and reopening keeps files and fields in agreement and every archive as it was; reopening changes nothing |
| Runs.RunHealthy | internal/core/store.go:46-150 | the same over whole runs, and what the files gain is exactly what was acknowledged |
| Runs.Conservation | internal/core/store.go:46-150 | in every fault-free run from a new store the archives and the live file, without rotation records, hold exactly the acknowledged records in order; each later file links to the one before by head and count; every file reads back and the live one verifies; reopening gives the same fields |
| Runs.RestartsInvisible | internal/core/store.go:43-70 | inserting restarts anywhere in a run changes no file, no field and no acknowledgement |
| Runs.ArchivesKept | internal/core/store.go:117-120 | an archive keeps its content for the rest of every run with a rotation age of at least one second |
| Spacing.ReplacesIff | internal/core/store.go:107-120 | some rotation with an age of at least one second would replace a file of a healthy store if and only if its live file starts with a record whose time lies in an earlier second than the newest archive |
| Age.FirstTimeRead | internal/core/store.go:185-213 | the first time of a readable file is that of the first record read |
| Age.BoundedIff | internal/core/store.go:107-109 | whatever the clock says, a rotation that reports no error leaves a file whose first record is younger than the limit, if and only if the time the store counts from is no later than that of the file's first record |
| Age.AppendKnows | internal/core/store.go:78-97 | an append keeps the store's first time that of the file, whatever fails, unless it returns a sync error at a record count of zero, and then the bound is lost |
| Age.RotateKnows | internal/core/store.go:104-150 | so does a rotation, unless it returns a sync error |
| Age.FirstSyncLost | internal/core/store.go:86-96 | the failing run: the first record's sync fails, no rotation is due although the file's record is over age, and the next append moves the counted time to its own |
| Lineage.LineageBinding | internal/core/store.go:99-103 | two rotation-linked histories end in the same head if and only if they have the same segments with the same hashed bytes throughout, or two of their records collide |
| Lineage.RunsWriteLineages | internal/core/store.go:130-148 | the segment files of every fault-free run form such a history, ending in the store's head |
| Lineage.LastHashBindsHistory | internal/core/store.go:99-103 | two stores with the same last hash hold the same segments and records, across all rotations, or two records collide |
| Failure.ReopensIff | internal/core/store.go:78-97 | after an append that reports success the store opens again if and only if the record is valid UTF-8 below the line limit, or a record collides with its normal form |
| Failure.LostHead | evidence/chain.go:49-55 | once the head in memory is past the file, no sequence of appends, failing or not, makes the file acceptable again |
| Failure.FailedWrite | internal/core/store.go:78-91 | after a failed write reopening at once gives the store as before with exactly the acknowledged records; any later line written by the same store makes the file unacceptable, or two sealed records collide |
| Failure.RotationAfterFailedWrite | internal/core/store.go:111-148 | rotation then starts an acceptable file, whose rotation record does not link to the archive |
| Failure.FailedSync | internal/core/store.go:89-96 | after a failed sync the file is that of a successful append, but the store in memory, and the rotation record it writes, count one record too few; if the record was the first, the store has no first time either and no rotation is due |
| Failure.RotationKeepsRecords | internal/core/store.go:104-150 | a rotation to a free name loses no record and adds none, whatever file operation it fails at, and keeps the times in order |
| Failure.FailedRotation | internal/core/store.go:113-124 | after a rotation that failed at closing, renaming or creating the file, no sequence of requests makes the same store write again: every append fails and the rotation stays due and fails while the clock does not go back; reopening, at once or later, gives a healthy store with every record and its times in order, so that the results about runs and crashes hold of it |
| Failure.RotationRecordLost | internal/core/store.go:125-148 | after a failed write of the rotation record any line the same store writes makes the new file unacceptable, or two sealed records collide |
| Failure.TwoWriters | internal/core/store.go:72-97 | two stores open on one file append a record each, both without an error; from then on the file is refused, whatever is added, or two of its records collide |
| Failure.NextRotation | internal/core/store.go:116-120 | the next rotation leaves an archive alone in a different second and replaces its content in the same second |
| Failure.DueAtOnce | internal/shells/operator/reconciler.go:244-249 | with a rotation age of one nanosecond a second rotation is due one nanosecond after the first |
| Crash.AppendIsItsSteps | internal/core/store.go:78-97 | seal, write, sync and account, run without a stop, are one append, and log its record as acknowledged |
| Crash.RotateIsItsSteps | internal/core/store.go:104-150 | close, rename, create, seal, write, sync and account, run without a stop, are one rotation |
| Crash.OnlyCommitAcknowledges | internal/core/store.go:92-96 | only the last step of an append acknowledges a record, and no step or stop takes an acknowledgement back |
| Crash.RunInv | internal/core/store.go:78-150 | the step invariant holds in every reachable state, over any number of stops at any points: files, fields and log agree, and no file has the name of a rotation to come. Assumes of the actions what the row of `Crash.CrashSafety` says |
| Crash.StopAndRestart | internal/core/store.go:46-150 | from every state that keeps the invariant a stop and a restart give an open, healthy store that holds every acknowledged record exactly once and in order, at most one unacknowledged record per stop, and only accepted files; the segments without a rotation record are exactly those whose creation a stop cut short after the rename |
| Crash.CrashSafety | internal/core/store.go:46-150 | the same for every sequence of steps and stops from any healthy store with its times in order, given records that can be read back, rotation ages of at least one second, and, for the first record after a cut rotation, no time in an earlier second than the archive; the times stay in order |
| Crash.MachineOfInv | internal/core/store.go:46-70 | every healthy store with its times in order is a state the crash theorems start from |
| Crash.NewStoreStarts | internal/core/store.go:46-70 | a new store is one |
| Crash.CutRotationLosesArchive | internal/core/store.go:107-120 | without that time condition the next rotation can replace the archive, and of two acknowledged records only the second is left in the files |
| Faults.FaultsKeepLines | internal/core/store.go:46-150 | over every sequence of appends and rotations with any faults and of reopenings, with free archive names, the files hold in order what they held and then exactly one line for each append that returned no error or a sync error and for each rotation that got so far; archives never change |
| Faults.AcknowledgedOnce | internal/core/store.go:46-150 | from a new store the acknowledged lines in the files, file by file, are exactly the acknowledged records, each once and in order, and a file that reads is read as its lines |
| Ordering.IncreasingUnique | mapping/mapping.go:100 | sorting distinct strings has one possible result |
| Ordering.LessMeans | internal/core/collector.go:64 | strings are ordered by the first byte that differs, and a proper prefix comes first |
| Registry.CollectorRegistry.Register | internal/core/collector.go:46-54 | adds the collector exactly if its ID is free |
| Registry.CollectorRegistry.All | internal/core/collector.go:57-66 | the sorted list, whatever order the map is ranged over in |
| Registry.AllInOrder | internal/core/collector.go:56-66 | that list holds every registered collector once, in increasing order of ID |
| Scheduler.CollectionScheduler.RunOnce | internal/core/scheduler.go:47-86 | the nested loops do what rotating and then appending one list of items does, up to the first failing append |
| Scheduler.CollectionScheduler.AppendRecords | internal/core/scheduler.go:72-82 | the records of one collector, dated, mapped and appended in order |
| Scheduler.ItemKeepsEvidence | internal/core/scheduler.go:72-78 | a listed item is the collector's record with a missing time and the controls filled in, and nothing else changed |
| Scheduler.FoundIsEvidence | internal/core/scheduler.go:60-82 | what a collector returned is listed record by record and nothing else: each as it was, with a missing time and the controls of the rules for its collector and type filled in |
| Scheduler.FailureIsEvidence | internal/core/scheduler.go:60-71 | a failed collector is listed as exactly one record, which says that the collection failed, of which collector and version, when, and why |
| Scheduler.CycleListsAll | internal/core/scheduler.go:59-82 | the cycle's list is the lists of the collectors one after the other in their order, each one block, and nothing else |
| Scheduler.BatchIsRun | internal/core/scheduler.go:72-82 | appending a list is a fault-free run of its longest successful prefix and then at most one failing append |
| Scheduler.CycleRefines | internal/core/scheduler.go:59-85 | the store grows by exactly the appended prefix of the cycle's list, all of it exactly on success; a failing append leaves at most its own line |
| Scheduler.RunOnceRefines | internal/core/scheduler.go:47-86 | a whole cycle on a healthy store, whatever file operations fail in the rotation or the appends: the files then hold what they held, the appended prefix of the list and besides at most the one record whose sync failed, with at most one new archive; without an error the whole list, and the store is healthy. Assumes that the sealed records can be read back and that a due rotation finds its archive name free (`Runs.RotationSpacing`) |
| Scheduler.CyclesStoreAll | internal/core/scheduler.go:47-86 | after any run of cycles without an error the files hold exactly the items all the cycles listed, sealed, each once and in order |
| Scheduler.CycleKeeps | internal/core/scheduler.go:47-86 | one cycle, whatever fails in it: it starts collecting into a file without a record or with a young first record, or does not collect; makes at most one archive; and keeps the store's first time that of the file unless it returns a sync error at a record count of zero. Assumes a clock that never reads the zero time |
| Scheduler.AgeBound | internal/core/scheduler.go:48-58 | in every run of cycles, whatever fails in them, the first record in the file is younger than the limit at every cycle that gets past its rotation, whenever it comes, if and only if no cycle returned a sync error at a record count of zero. Assumes a positive limit, a clock that never reads the zero time, and a store that knows its first record |
| Age.OpenedKnows | internal/core/store.go:65-68 | a store opened from a file of whole lines knows its first record if and only if there is none or it has a time |
| Scheduler.FailedRotationSticks | internal/core/scheduler.go:48-54 | after a rotation that lost the handle every later cycle of the engine fails before it collects, and changes nothing, while the clock does not go back |
| Scheduler.CyclesKeepLines | internal/core/scheduler.go:47-86 | cycles that go on after failures lose and repeat no line: the files grow by exactly the lines of what the cycles asked of the store |
| Mapping.FrameworkMapping.Validate | mapping/mapping.go:51-79 | accepts exactly the well-formed mappings, and then the index answers like a linear search of the catalog; each error names a fault the mapping has |
| Mapping.FrameworkMapping.Apply | mapping/mapping.go:83-102 | sets the controls to the sorted union over the matching rules and nothing else |
| Mapping.WellFormedMeans | mapping/mapping.go:51-79 | a mapping is well-formed exactly if it has a name, its control IDs are distinct and not empty, and every rule names a collector and at least one control, all of the catalog |
| Mapping.FrameworkMapping.Lookup | mapping/mapping.go:105-108 | finds what a linear search of the catalog finds |
| Mapping.RuleAdds | mapping/mapping.go:86-99 | a rule of another collector, or for another target type, changes nothing; a rule of the record's collector for its type, or for every type, adds exactly its controls |
| Mapping.ApplyMeaning | mapping/mapping.go:81-102 | a record gets exactly the controls some matching rule names, strictly increasing, each in the catalog; none exactly if no rule matches |
| Mapping.RuleOrderIrrelevant | mapping/mapping.go:83-102 | permuting or repeating rules changes no result |
| Report.LatestPerTarget | internal/core/exporter.go:175-194 | at most one record per key, each the earliest of the newest for its key, newest first, as many as the limit allows, and no key left out that is newer than one shown; for any map order and any sort of ties |
| Report.SelectionMeans | internal/core/exporter.go:175-194 | that in terms of the records: newest first, at most one of each target and each the first newest of it, and whatever is not covered is no newer than any shown, of which there are then as many as the limit |
| Report.KeyInjective | internal/core/exporter.go:180 | records with the same key have the same target type and name if and only if their types have the same number of slashes |
| Report.EveryTargetShownIff | internal/core/exporter.go:175-194 | a report with room for all keys shows every target if and only if different targets have different keys |
| Report.SlashesKeepApart | internal/core/exporter.go:180 | they do when all target types have the same number of slashes |
| Report.KeysCanClash | internal/core/exporter.go:180 | of two records with one key whose types have different numbers of slashes every selection, for any limit and order, leaves one target out |
| Report.ClashingTargets | internal/core/exporter.go:180 | `cluster` with `role/admin` and `cluster/role` with `admin` are such records |
| Report.Group | internal/core/exporter.go:102-115 | the groups, the failures and the unmapped count are those of the defining list functions: exactly the failed records, exactly the records carrying a control, and as many unmapped as have none |
| Report.ThoseConcat | internal/core/exporter.go:105-107 | the failures are listed in chain order, with repetitions |
| Report.GroupIsSublist | internal/core/exporter.go:112-114 | a control's group is the chain-ordered list of the records carrying it, when no record repeats a control |
| Report.InOwnGroups | internal/core/exporter.go:102-115 | a record is in the groups of its own controls and no other, and unmapped exactly if it has none |
| Report.GroupSizesAddUp | internal/core/exporter.go:128-145 | over the sorted controls the group sizes add up to the control IDs on all records |
| Report.RotationUnmapped | internal/core/store.go:138-146 | a rotation record is in no group and counts as unmapped |
| Report.MappedGroups | internal/core/exporter.go:102-115 | after `Apply` groups are sublists and every control with a group is in the catalog |
| Exporter.BundleExporter.Export | internal/core/exporter.go:35-84 | refuses exactly the stores that do not verify (or do not encode) and otherwise adds the two files and their manifest, in any order of writing |
| Exporter.ExportChecks | internal/core/exporter.go:35-84 | a store that verifies is exported exactly if JSON can express the clock's time; the bundle passes the integrity check; it holds the report, an evidence set under its framework and time with an accepted chain of the store's records, re-indented only, and a manifest of exactly these two files, signed if there is a key |
| Exporter.ExportedChangeDetected | bundle/bundle.go:61-76 | changing or removing either file of an exported bundle is detected, or the contents have the same digest |
| Bundle.BuildManifest | bundle/bundle.go:42-57 | the manifest lists exactly the files given, each with its digest, and with a key the signature over that list, for any order of the map |
| Bundle.ManifestSigned | bundle/bundle.go:48-55 | with a key the signature is there and checks under that key over the digests |
| Bundle.Verify | bundle/bundle.go:61-94 | true exactly when every listed file has its checksum and the signature, if any, is good |
| Bundle.IntactMeans | bundle/bundle.go:61-94 | what is accepted: a manifest that decodes, every listed file there with the digest listed, and, if there is a signature, a key of 32 bytes under which it checks over exactly the list |
| Bundle.ForgedList | bundle/bundle.go:77-92 | a changed list with the old key and signature is refused unless the old signature checks over the new list |
| Bundle.Read | bundle/bundle.go:111-124 | the evidence set exactly when it decodes and its chain verifies |
| Bundle.WrittenIsIntact | bundle/bundle.go:42-94 | files written with their manifest pass the check, signed or not, whatever the directory held before |
| Bundle.LayoutKeepsChain | bundle/bundle.go:111-124 | laying out the raw JSON differently breaks no chain |
| Bundle.ChangeDetected | bundle/bundle.go:66-75 | changing the content of a listed file is detected, or the two contents have the same digest |
| Wiring.Register | internal/shells/wiring/wiring.go:77-93 | succeeds exactly if every enabled collector has a factory that succeeds and no two build the same ID, for any map order |
| Wiring.Build | internal/shells/wiring/wiring.go:73-134 | an engine exactly if every step succeeds, with its store open; a store opened before a later failure is closed |
| Wiring.BuildableMeans | internal/shells/wiring/wiring.go:73-134 | every step an engine needs: all enabled collectors built under distinct IDs, mapping, store and key loaded, and the pusher if configured |
| Wiring.RegisteredMeans | internal/shells/wiring/wiring.go:77-93 | the registry holds exactly what the factories of the enabled collectors built, under their IDs |
| Wiring.BuildTraceMeans | internal/shells/wiring/wiring.go:95-117 | the store is opened last but for key and pusher, on the configured path, and closed again if these fail |
| Operator.EvidencePolicyReconciler.EngineFor | internal/shells/operator/reconciler.go:163-186 | returns the cached engine if it has the policy's generation; otherwise closes and forgets it and returns a new one on the plan's file if that can be built, or none; what is returned is cached under the policy's generation, and other policies are untouched |
| Operator.EvidencePolicyReconciler.DropEngine | internal/shells/operator/reconciler.go:188-195 | closes and forgets the engine, if there is one |
| Operator.EvidencePolicyReconciler.Reconcile | internal/shells/operator/reconciler.go:66-96 | forgets the engine of a policy that is gone; otherwise looks its engine up or builds it and runs one cycle, whose rotation replaces the store's handle or loses it, and keeps the engine cached |
| Operator.CachedIsLatest | internal/shells/operator/reconciler.go:163-186 | over every run a cached engine has the generation of the policy as last looked up, and, generations determining specs, is on that plan's file |
| Operator.EnsuredIsCached | internal/shells/operator/reconciler.go:163-186 | and a policy last looked up with a buildable plan and not deleted since is cached |
| Operator.CycledMeans | internal/core/store.go:104-125 | a cycle whose rotation is due closes the handle and opens a new one on the same file unless closing, renaming or creating fails; otherwise the handle stays |
| Operator.HeldUnlessLost | internal/core/store.go:113-125 | over every run, a cached engine holds its file if and only if no rotation since its build failed at closing, renaming or creating the file |
| Operator.CacheSafety | internal/shells/operator/reconciler.go:66-195 | over every interleaving of lookups, cycles and deletions the open files are exactly those of the cached engines no rotation has left without a handle; at every moment a policy has at most one open, every handle is closed at most once, and a file is closed before its successor opens |
| Operator.SecondWriterIff | internal/shells/operator/reconciler.go:163-195 | one step from a state without a second writer leads to one with a second writer if and only if it builds an engine on a file that the cached engine of another policy holds |
| Operator.SingleWriterIff | internal/shells/operator/reconciler.go:163-195 | over every run, no file is open twice between events if and only if no event so far was such a build |
| Operator.SingleWriter | internal/shells/operator/reconciler.go:163-195 | when no two policies ask for the same store path no file is ever open twice, at any moment |
| Operator.SharedPathTwoWriters | internal/shells/operator/reconciler.go:180-184 | with a shared path two policies do hold one file open at once |
| ConcreteCodec.LawsConsistent | evidence/record.go:48-58 | the laws asked of hashing and encoding are consistent |
| ConcreteFormats.FormatsConsistent | bundle/bundle.go:42-124 | so are those asked of the bundle's formats |
| ConcreteFormats.InvalidTextLocksTheStore | internal/core/store.go:78-97 | a concrete store that its own successful `Append` makes impossible to open |

## Left out

- SHA-256, Ed25519, PEM, base64, JSON and YAML: library code, used through the laws above; key files are I/O.
- Torn lines: a line write is all or nothing. A partial line left by a stop is outside the model.
- Directory syncs: a rename or a created file survives a stop of the process; power loss is outside the model.
- Mutexes: each store operation is one atomic step, split only for the crash theorems.
- Time zones: a `collectedAt` is an instant; the zone a value carries is not modelled.
- Crash.CrashSafety: assumes records that can be read back, and the conditions on rotation age and first time named in its row, which the code does not check.
- Scheduler.RunOnceRefines: assumes records that can be read back and a free archive name; below a rotation age of one second the code can meet a name that is taken (`Failure.NextRotation`).
- Faults.FaultsKeepLines: assumes that a due rotation finds its archive name free (see `Spacing.ReplacesIff` and `Failure.NextRotation`).
- Runs.Conservation: assumes records that can be read back (see `Failure.ReopensIff`) and a rotation age of at least one second (see `Failure.NextRotation`).
- Lineage.RunsWriteLineages: assumes that the first record ever stored is not itself of the rotation record's target type; `Append` does not check that.
- Wiring.Build: what the factories, the mapping, the store file, the key and the push configuration do is an input, and `OpenFileStore` is modelled in full in `Store`.
- Failures of `MkdirAll`, of opening a file for reading and of writing bundle files: plain error returns.
- `Translate` and `ParseConfig`: defaults and minima are one-branch facts; their effect appears as the hypothesis on the rotation age.
- The Markdown text of the report, log lines, status patches, reports in the cluster, uploads, command line and daemon loop: glue without decisions of their own.
- Collectors: network and Kubernetes clients, modelled as oracles that return records or an error.
