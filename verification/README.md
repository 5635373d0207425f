# SmartBackupFS: verified model of versions, block maps, caches, log and forecast

The file system keeps, for every file, a growing array of fixed-size blocks and a chain of
incremental versions. A version stores only the blocks whose rolling checksum differs from
its parent's; every other block is found by walking parent pointers. Deleting a version
copies what its child inherited into the child. Retention deletes from the oldest end while
it keeps a running byte total. Around this sit block compression, a chained hash table with
a bounded cache, a two-level block cache, a write-ahead log with a recovery scan, and a
least-squares forecast of storage use.

The project models these in Dafny and proves what they promise:

- **Over every history** of writes, size changes, snapshots, deletions, marks and retention
  passes, every surviving version reads back as the file was when the version was taken, if
  and only if no checksum hid a change at that moment (`VersionedRun.SurvivorsReadBack`,
  `VersionedRun.OriginFromHistory`).
- **The linked chain** with its in-place copying refines that model, field by field
  (`VersionChain`, `VersionManager`, `VersionReads`), and any sequence of operations on the
  objects is one of those histories (`VersionedFile.Perform`, `VersionedFile.File.ReadBack`).
- **Reads and writes** of the block array are those of a flat sparse byte file, whatever
  compression does underneath (`BlockMap`, `FlatFile`, `Compression`).
- **The lookup structures** agree with simple maps and keep their counters exact
  (`HashTable`, `BlockCache`, `VersionCache`).
- **The log** keeps the bytes it is given in order. For any sequence of logged operations, the
  exact condition under which the log can be recovered after each of them is a matter of
  lengths; recovery then visits every record whatever order the segment files come in, and in
  the log's order exactly when the files do (`WalHistory.AlwaysRecoverable`,
  `WalHistory.RecoverCalls`, `Wal`, `WalLog`, `WalRecovery`).
- **The forecast line** is the best of all lines (`Prediction`).

## How it is laid out

| file | content |
|---|---|
| `BlockModel`, `FlatFile`, `WriteSteps` | a file's blocks as a value; what a write promises; why writing in chunks is one write |
| `Compression`, `BlockMap` | data blocks, block array, read and write loops |
| `VersionModel`, `VersionProofs`, `VersionAccounting`, `VersionRetention`, `VersionDiff` | a version chain as a value, newest first, and its laws |
| `VersionedRun` | whole histories of one file |
| `RollingChecksum` | the concrete checksum and its collisions |
| `VersionChain`, `VersionManager`, `VersionReads` | the doubly linked chain and the operations on it, proved against `VersionModel` |
| `VersionedFile` | block array, metadata and chain of one file together; every operation is a step of a history |
| `VersionCache`, `VersionCacheRuns` | the version metadata cache beside all chains; policies under which it stays right and runs in which it goes wrong |
| `HashTable`, `BlockCache` | chained hash table, bounded cache, L1 and L2 block cache |
| `Wal`, `WalLog` | log records, scan and segments; the segment list |
| `WalRecovery`, `WalHistory` | what recovery reads back after one write; after whole histories and from files in any order |
| `WalDurability` | which segments are in their files, and what a crash leaves |
| `Prediction` | the regression |

## What is assumed

- Operations run one at a time: the code holds the chain or map lock.
- Allocation succeeds; block size is positive; 64-bit counters do not wrap. Where 32-bit
  arithmetic matters it is written out (`VersionManager.PolicyOf`, `VersionCache.Key`,
  `RollingChecksum.Roll`).
- Compressors, the hash function, the adaptive choice of an algorithm and the clock are
  parameters. Of a compressor only `decompress(compress(x)) == x` and non-empty output are
  assumed (`Compression.Lawful`).
- The checksum is a parameter everywhere but in `RollingChecksum`. Nothing is assumed of it;
  results that need it to tell blocks apart say so.

## What the proofs show about the code

- **A changed block can be lost.** The new version shows the live file exactly when no
  changed block has the checksum recorded for its index (`VersionProofs.CreateFaithful`).
  Such blocks exist at every size from two bytes on, and there is a 4096-byte block of
  non-zero text with checksum 0 that a snapshot takes for a hole
  (`RollingChecksum.CollisionLosesWrite`, `RollingChecksum.ZeroChecksumLosesBlock`).
- **A live read stops at the block map.** Past it the loop clears the buffer but does not
  count the bytes, so a file that was only truncated upwards reads short
  (`BlockMap.Map.SmartRead` says exactly when, `BlockMap.ReadTruncated` is such a read).
- **A logged write is recoverable only sometimes.** Its begin header, its own header, at most
  1024 bytes of its data and its commit header are logged as four buffers. Right after the
  commit, recovery visits all three headers and leaves nothing over exactly when the write has
  at most 1024 bytes and no segment ends between header and data
  (`WalRecovery.WriteRecoverable`). At that moment a write of 1076 bytes only looks complete:
  the scan takes the commit header for the 52 bytes that were not logged. Sizes in between end
  the scan inside the commit header, longer ones make it run over the end
  (`WalRecovery.WriteComplete`, `WalRecovery.WriteClean`, `WalRecovery.LongWritesLost`,
  `WalRecovery.ByteTorn`). What is logged later can make up for the missing bytes of a longer
  write, at the price of the headers taken for data.
- **Ordinary use can part a header from its data.** A log is recoverable after every operation
  exactly when no write is longer than 1024 bytes and no segment ends between a header and its
  data (`WalHistory.AlwaysRecoverable`). Nothing logged later repairs a parted
  one (`WalHistory.HistoryComplete`). It cannot happen within the first segment
  (`WalHistory.OneSegmentFits`); with writes of 1000 bytes it happens at the first segment's
  end (`WalHistory.FirstSegmentFills`).
- **Recovery does not follow the log's order across segments.** It visits the segment files as
  the directory lists them; headers come in the order logged exactly when that is the segments'
  order (`WalHistory.OrderKept`, `WalHistory.RecoverCalls`; `WalHistory.OrderLost` is a
  reversal).
- **A commit is durable only if it is the first in its segment.** A commit writes the segment's
  file only if it was not written yet (`WalDurability.CommitDurable`). What a crash leaves is a
  prefix of the log (`WalDurability.CrashKeepsPrefix`); while all fits one segment it ends with
  the first commit, whatever was committed later (`WalDurability.LaterCommitsLost`).
- **The age limit wraps.** Days are turned into seconds in 32 bits; from 49711 days on
  versions expire too early (`VersionManager.ExpiryWraps`,
  `VersionManager.YoungVersionRemoved`).
- **A retention pass can free the version that was just created**, for instance when important
  older versions keep the byte limit exceeded; the metadata cache then points at a freed node
  (`VersionCache.SnapshotKeepsInv` gives the exact condition, `VersionCacheRuns.NewestFreed`
  a run). It cannot happen without important versions, or without a byte limit
  (`VersionCacheRuns.QuietRun`, `VersionCacheRuns.UnlimitedRun`). With important versions and a
  byte limit the condition is only known by running the pass.
- **Inode numbers or version ids that agree in their low 32 bits share a cache key.** Cached
  lookups are right exactly while no two live versions share one
  (`VersionCache.LookupExact`, `VersionCacheRuns.InodesConfused`).
- **The bounded cache evicts even when it only replaces a key** (`HashTable.Cache.Put`), and
  **L2 slot 0 never hits** (`BlockCache.L2.Get`).

## Model

| member | source | states |
|---|---|---|
| VersionedRun.SurvivorsReadBack | src/module_b/version_manager.c:411-555 | In every state of every run, every live version shows the block map it was created from iff no checksum hid a change then; if checksums tell the snapshotted blocks apart and none is 0, none did; a read returns as many bytes as asked for and lie before the recorded size, none at or past it, and each is the byte at that place of its block then, or zero where the block was missing or too short. |
| VersionedRun.RunStored | src/module_b/version_manager.c:463-517 | In every state of every run each version's byte count is the number of blocks it holds itself times the block size. |
| VersionedRun.OriginFromHistory | src/module_b/version_manager.c:427-466 | The origin a live version is compared with is the file as the last snapshot that took this id found it, and the version has been live ever since. |
| VersionedRun.StepKeepsImages | src/module_b/version_manager.c:46-209 | With no assumption on checksums, every version after any step was there before with the same size, checksums and image, or is the step's own snapshot. |
| VersionedRun.StepKeepsInv | src/module_b/version_manager.c:411-555 | Writes, resizes, snapshots, the change rule, deletions, marks and retention each keep: chain well formed, recorded checksums coherent, live map covering the newest version, origins told truly. |
| VersionedRun.RunKeepsInv | src/module_b/version_manager.c:411-555 | The same in every state of every run. |
| VersionedFile.Perform | src/module_b/version_manager.c:411-617 | Any sequence of writes, truncations, snapshots, change-rule checks, deletions, marks, retention passes and changes of the pin on the linked objects of a new file is a run of the model, command by command, and the objects hold its last state. |
| VersionedFile.Do | src/module_a/metadata_manager.c:1087-1199 | Each command on the objects is the model step it stands for, and block array and chain stay apart in memory. |
| VersionedFile.File.ReadBack | src/module_b/version_manager.c:793-840 | Reading any version of a file with any history returns the length asked for, cut to the size recorded, and fills that much of the buffer with the bytes the file had when the version was taken, unless a checksum hid a change then. |
| VersionProofs.RemoveKeepsOthers | src/module_b/version_manager.c:46-124 | Removing a version leaves every other version's id, sizes, flags, recorded checksums and whole image unchanged, given that block counts never shrink from old to new. |
| VersionProofs.RemoveKeepsResolve | src/module_b/version_manager.c:65-93 | Copying into the child and redirecting its parent leaves every block of every other version resolving as before. |
| VersionProofs.RemoveWellFormed | src/module_b/version_manager.c:46-124 | Removal keeps ids falling, block counts falling, parent ids naming the next version and stored bytes equal to the held blocks. |
| VersionProofs.RemoveCoherent | src/module_b/version_manager.c:65-93 | After removal every recorded checksum is still that of the block it resolves to, or 0 where nothing resolves; no collision assumption. |
| VersionProofs.RemoveCovers | src/module_b/version_manager.c:46-124 | Removal keeps the live map covering what the newest version shows. |
| VersionProofs.ResolveHolder | src/module_b/version_manager.c:141-161 | What resolves is non-empty and is the copy of the nearest version, from this one towards older ones, that holds the block. |
| VersionProofs.ResolveBeyond | src/module_b/version_manager.c:146-158 | No block at or past a version's count resolves through its ancestors. |
| VersionProofs.CreateFaithful | src/module_b/version_manager.c:463-517 | A new version shows exactly the live map iff no changed block has the checksum recorded for its index. |
| VersionProofs.NewResolve | src/module_b/version_manager.c:463-517 | Block by block, the new version shows the live block, or on a clash the block the previous version showed. |
| VersionProofs.CreateKeepsOld | src/module_b/version_manager.c:521-529 | Inserting at the head leaves every older version as it was. |
| VersionProofs.CreateWellFormed | src/module_b/version_manager.c:427-434 | Creation keeps the chain well formed when the live map covers the newest version. |
| VersionProofs.CreateCoherent | src/module_b/version_manager.c:463-517 | Creation keeps recorded checksums coherent with what resolves; no collision assumption. |
| VersionProofs.CreateCovers | src/module_b/version_manager.c:463-517 | After creation the live map covers the new version. |
| VersionProofs.ExtendCovers | src/module_a/metadata_manager.c:1127-1166 | A map that grows and keeps its present blocks goes on covering the newest version. |
| VersionAccounting.RemoveBytes | src/module_b/version_manager.c:64-93 | Deleting a version frees the bytes of the blocks its child holds too and costs the bytes the child must copy from further down. |
| VersionAccounting.RemoveOldestBytes | src/module_b/version_manager.c:64-93 | Deleting the oldest version lowers the total by exactly the bytes of the blocks the next version holds itself. |
| VersionAccounting.TotalRemove | src/module_b/version_manager.c:64-93 | A deletion changes the chain's total by the removed bytes and the child's growth. |
| VersionAccounting.TotalIsSum | src/module_b/version_manager.c:176-179 | The total adds up over chains, and one version counts what it stores. |
| VersionAccounting.HeldBytesCount | src/module_b/version_manager.c:491-494 | In full blocks a version's own bytes are the number of its blocks times the block size. |
| VersionAccounting.TotalCovers | src/module_b/version_manager.c:199-199 | The removed version never stores more than the running total, so the guarded subtraction is exact. |
| VersionRetention.RetainOutcome | src/module_b/version_manager.c:164-209 | With no important version, ordered times and keep at least 1: exactly a run of the oldest versions goes, the newest stays, survivors read as before, one version is left or the bytes are within a non-zero limit, the count is within keep or the oldest survivor unexpired, and each one removed was, when it was the oldest, over the count and too old, or one of several over a non-zero byte limit. |
| VersionRetention.RetainIsTrim | src/module_b/version_manager.c:181-208 | Without important versions and with ordered times a pass removes the oldest version again and again, each time because of one of those two reasons, and stops where neither holds. |
| VersionRetention.RetainIdle | src/module_b/version_manager.c:181-208 | For every chain a pass changes nothing iff each version is important, or within the count or the age, and within the byte limit, absent, or alone. |
| VersionRetention.RetainKeepsAll | src/module_b/version_manager.c:191-194 | When the count is within keep or nothing is too old, and there is no byte limit or the total is within it, nothing goes. |
| VersionRetention.RetainVisit | src/module_b/version_manager.c:182-208 | At each version visited, important versions or not in the chain, the pass removes it iff it is not important and over one of the two limits as they stand then. |
| VersionRetention.RetainKeepsInvariants | src/module_b/version_manager.c:164-209 | Any pass keeps the chain well formed, coherent and covered. |
| VersionRetention.RetainSurvivor | src/module_b/version_manager.c:164-209 | Every survivor of any pass is one of the versions before it, unchanged to readers. |
| VersionRetention.RetainKeepsImportant | src/module_b/version_manager.c:184-188 | An important version survives every pass, unchanged to readers. |
| VersionRetention.RetainNonEmpty | src/module_b/version_manager.c:191-194 | A pass with keep at least 1 never empties the chain. |
| VersionDiff.DiffIsPseudoMetric | src/module_b/version_manager.c:924-933 | The block difference is 0 on equals, symmetric and obeys the triangle inequality, also across different block counts. |
| VersionDiff.DiffBelowZero | src/module_b/version_manager.c:924-933 | The count is 0 exactly when all compared checksums agree. |
| VersionDiff.DiffBound | src/module_b/version_manager.c:924-933 | In every well-formed, coherent chain, which is what every history leaves, two versions differ in at most the block indices held by some version newer than the older one up to and including the newer one. |
| VersionDiff.DiffCounts | src/module_b/version_manager.c:924-933 | The difference of two versions is the number of indices at which their recorded checksums differ, a missing one counting as 0. |
| VersionDiff.DiffIndicesExact | src/module_b/version_manager.c:491-499 | The recorded difference indices strictly increase and are exactly the blocks the new version stores. |
| VersionDiff.ChangedIsStored | src/module_b/version_manager.c:585-608 | A block counts as changed for the rule exactly when a snapshot would store it. |
| VersionDiff.RuleCountsDiff | src/module_b/version_manager.c:584-608 | The count behind the one-tenth rule is the number of blocks the new version stores. |
| VersionDiff.DiffIsChanged | src/module_b/version_manager.c:584-608 | The blocks a new version stores are as many as have a checksum other than the newest version's at their index. |
| VersionDiff.RuleIsTenth | src/module_b/version_manager.c:611-612 | The test on whole numbers is that the quotient of changed and all blocks exceeds 0.1. |
| VersionedRun.RuleStep | src/module_b/version_manager.c:563-617 | A step of the rule takes a snapshot iff there is history, the file has blocks, and more than a tenth of them would be stored by it; otherwise it changes nothing. |
| VersionDiff.RuleQuietAfterCreate | src/module_b/version_manager.c:584-616 | Right after a snapshot that stayed newest the count is 0 and the rule does not fire. |
| VersionedRun.RuleQuietAfterSnapshot | src/module_b/version_manager.c:563-617 | In every state that meets the invariant of runs, while the version that a snapshot or the rule just created is the newest, applying the rule changes nothing. |
| RollingChecksum.ComputeRolling | src/module_b/version_manager.c:127-138 | The loop computes the fold of the 32-bit step over all bytes, in order. |
| RollingChecksum.RollConcat | src/module_b/version_manager.c:133-136 | The checksum of a concatenation continues from the checksum of its front. |
| RollingChecksum.Collide | src/module_b/version_manager.c:127-138 | Two different blocks of every size from two bytes on have equal checksums. |
| RollingChecksum.ZeroBlock | src/module_b/version_manager.c:127-138 | A block of 4096 bytes that does not start with 0 has checksum 0. |
| RollingChecksum.CollisionLosesWrite | src/module_b/version_manager.c:485-503 | After such a change the new version still shows the old block. |
| RollingChecksum.ZeroChecksumLosesBlock | src/module_b/version_manager.c:485-503 | A new block with checksum 0 is shown as a hole by its own version. |
| VersionChain.SnapshotGetBlockData | src/module_b/version_manager.c:141-161 | The walk over parent pointers returns the nearest copy, or nothing. |
| VersionChain.Materialise | src/module_b/version_manager.c:69-89 | The copy loop fills every missing block with what it resolved to and reports exactly the bytes added. |
| VersionChain.AdoptedIsAbsorb | src/module_b/version_manager.c:65-93 | A child repaired from the path below it is the child the value model asks for. |
| VersionChain.Chain.Unlink | src/module_b/version_manager.c:51-62 | The neighbours point past the node, head and tail are right, and next and prev stay inverse. |
| VersionChain.Chain.RepairChildren | src/module_b/version_manager.c:64-93 | The loop over the remaining nodes changes the removed node's child and nothing else, restores parent = next, and returns the bytes copied. |
| VersionChain.Chain.RemoveNode | src/module_b/version_manager.c:46-124 | The whole removal: the chain becomes the model's, the byte total changes by removed minus copied bytes, the counters of the file follow, and the next newer node is returned. |
| VersionChain.Chain.Push | src/module_b/version_manager.c:521-529 | Insertion at the head with links, count and tail right, and all other versions as they were. |
| VersionManager.RetainStep | src/module_b/version_manager.c:182-208 | One iteration: the running total is again the sum of stored bytes, including bytes copied into the child. |
| VersionManager.ExpiryWraps | src/module_b/version_manager.c:173-191 | The age limit is the configured number of days iff that is at most 49710; beyond, it is smaller. |
| VersionManager.PolicyMeans | src/module_b/version_manager.c:172-174 | A maximum of 0 stands for the retention count, 0 days for the retention days; a non-zero byte limit is that many times 2^20 bytes, and 0 is none. |
| VersionManager.YoungVersionRemoved | src/module_b/version_manager.c:173-191 | With 49711 days configured and one version to keep, a version of 100000 seconds is removed. |
| VersionManager.RetainLoop | src/module_b/version_manager.c:181-208 | The loop from tail to head, with the running total equal to the sum of stored bytes at every loop head, computes the model's pass; it leaves the chain alone iff every version is important or within both limits, written out. |
| VersionManager.RuleRemoves | src/module_b/version_manager.c:191-194 | The two tests name a version iff it is not important, and the count exceeds keep and it is too old, or the byte total exceeds a non-zero limit and it is not alone. |
| VersionManager.ApplyRetention | src/module_b/version_manager.c:164-209 | The pass computes the model's result; it changes nothing iff the chain is pinned or every version is important or within both limits; the version count is lowered by the number removed, not below 0. |
| VersionManager.DeleteVersion | src/module_b/version_manager.c:842-876 | EINVAL for id 0, ENOENT for an unknown id, EPERM for an important version, else the version is removed. |
| VersionManager.RecordBlock | src/module_b/version_manager.c:463-516 | One iteration of the snapshot loop records checksum, copy, difference index and bytes of one block. |
| VersionManager.TakeSnapshot | src/module_b/version_manager.c:427-517 | The node built from the possibly compressed live blocks is the model's new version: its id is one above the newest, its parent id the newest's, its time, size and block count those given, and it is not important. |
| VersionManager.CreateVersion | src/module_b/version_manager.c:411-555 | Insertion followed by the retention pass; the latest id recorded is one above the newest before, or 1, and the time is recorded; with keep at least 1 an exact version count stays exact. |
| VersionManager.MaybeChangeSnapshot | src/module_b/version_manager.c:563-617 | A version is created exactly when there is history, the map is not empty and the new version's difference count divided by the block count exceeds 0.1; otherwise nothing changes. |
| VersionManager.MarkImportant | src/module_b/version_manager.c:878-897 | Sets the mark of the version with the id and nothing else, or returns ENOENT. |
| VersionReads.ReadVersionData | src/module_b/version_manager.c:793-840 | Returns 0 for an offset that is negative or not below the recorded size, else the length asked for cut to what remains; each byte is the image's at that place, or zero where the block is missing or too short; the buffer behind them is unchanged. |
| VersionReads.DiffVersions | src/module_b/version_manager.c:899-942 | The number of indices with different recorded checksums and the larger block count, or nothing exactly when one of the ids is missing. |
| VersionReads.SelectVersion | src/module_b/version_manager.c:663-685 | By id the version with that id; by time a version not after it with the greatest creation time, the newest of those; nothing exactly when there is none. |
| VersionCache.KeyDistinguishes | src/module_b/version_manager.c:106-106 | Two keys are equal iff inode and id agree in their low 32 bits. |
| VersionCache.DropKeepsInv | src/module_b/version_manager.c:106-108 | Removing a version leaves no entry that points at its node, and every other entry right. |
| VersionCache.SnapshotKeepsInv | src/module_b/version_manager.c:531-548 | A snapshot keeps every cache entry live and right iff the retention pass spares the new version at its last step. |
| VersionCache.StepKeepsInv | src/module_b/version_manager.c:538-548 | The same condition for every step over any number of files; all steps but snapshots always keep it. |
| VersionCache.RunKeepsInv | src/module_b/version_manager.c:687-716 | In every run whose snapshots are spared, every entry refers to a live node of the right file and id and agrees on size and block count. |
| VersionCache.LookupAgrees | src/module_b/version_manager.c:687-716 | While no two live versions share a key, a cached lookup equals a rebuilt one in file, node, size and block count. |
| VersionCache.LookupConfused | src/module_b/version_manager.c:687-716 | Where two live versions, of one file or of two, share a key, looking one of them up leaves one of the two lookups wrong. |
| VersionCache.LookupExact | src/module_b/version_manager.c:687-716 | Lookups agree now and after any one lookup more iff no two live versions share a key. |
| VersionCache.FittingKeysDiffer | src/module_b/version_manager.c:688-688 | With inodes and ids below 2^32 no two live versions share a key. |
| VersionCacheRuns.UnlimitedNewestStays | src/module_b/version_manager.c:190-194 | Without a byte limit a retention pass spares a newest version within the age limit. |
| VersionCacheRuns.QuietNewestStays | src/module_b/version_manager.c:190-194 | Without important versions, with ordered times and keep at least 1, a retention pass spares the newest version under every limit. |
| VersionCacheRuns.UnlimitedRun | src/module_b/version_manager.c:531-548 | In every run whose snapshots are pinned or taken without a byte limit and within the age limit, the cache never points at a freed node. |
| VersionCacheRuns.QuietRun | src/module_b/version_manager.c:531-548 | Nor in any run over any number of files that marks nothing important, keeps at least one version and whose clock does not go back. |
| VersionCacheRuns.NewestFreed | src/module_b/version_manager.c:531-548 | In a run of a pinned snapshot, a mark and a snapshot under a byte limit, the last snapshot's cache entry points at a freed node. |
| VersionCacheRuns.InodesConfused | src/module_b/version_manager.c:687-716 | After one snapshot each of inodes 1 and 2^32 + 1, looking up the first file's version answers wrongly. |
| VersionCache.RetainDropChain | src/module_b/version_manager.c:181-208 | Dropping cache keys along the way does not change what a retention pass does to the chain. |
| FlatFile.ReadAfterWrite | src/module_a/metadata_manager.c:1087-1199 | What was written reads back. |
| FlatFile.ReadElsewhere | src/module_a/metadata_manager.c:1087-1199 | A read that meets neither the written range nor a newly allocated block is unchanged. |
| FlatFile.WriteExtends | src/module_a/metadata_manager.c:1127-1166 | The block count never shrinks and a present block never becomes a hole. |
| FlatFile.HolesReadZero | src/module_a/metadata_manager.c:1034-1070 | A range without present blocks reads as zeros, cut to the size. |
| FlatFile.ReadExact | src/module_a/metadata_manager.c:1014-1076 | A read returns the length asked for, cut to the size; each byte is the one at that place of its block, or zero where the block is missing or too short. |
| FlatFile.LastWriteShows | src/module_a/metadata_manager.c:1087-1199 | After any sequence of writes a byte reads as the last write covering it has it; if none does, as at the start when its block was there, and as zero when it was not and no write touched its block. |
| FlatFile.PresentAfter | src/module_a/metadata_manager.c:1127-1166 | After any sequence of writes a block is there iff it was before or some write touched it. |
| WriteSteps.ExtendWrite | src/module_a/metadata_manager.c:1116-1188 | A flat write of n bytes followed by one chunk within a block is a flat write of n + m bytes. |
| WriteSteps.ExtendRead | src/module_a/metadata_manager.c:1023-1076 | A flat read extended by a chunk out of one block is a flat read. |
| WriteSteps.InsideWhole | src/module_a/metadata_manager.c:1034-1038 | A range lies wholly inside the map iff it is empty or its last byte's block does. |
| BlockMap.WriteThenRead | src/module_a/metadata_manager.c:995-1199 | Writing and then reading the same range, through compression or not, returns the full length twice and the bytes written. |
| WriteSteps.InsideShort | src/module_a/metadata_manager.c:1034-1038 | A read is cut short iff it asks for bytes past the map's last block. |
| BlockMap.ReadTruncated | src/module_a/metadata_manager.c:1034-1038 | A new file truncated to ten bytes reads as empty. |
| BlockMap.Map.SmartWrite | src/module_a/metadata_manager.c:1087-1199 | Returns the number of bytes asked for, is a flat write of exactly those bytes, grows the size and records the least number of blocks that hold it, and refuses negative offsets without any change. |
| BlockMap.Map.SmartRead | src/module_a/metadata_manager.c:995-1084 | Returns the bytes of the range that lie inside the block map, holes as zeros; it returns all it was asked for, cut to the file size, iff the last byte's block lies in the map. |
| Compression.DataBlock.BlockCompress | src/module_c/dedup.c:411-468 | Never changes the plain content; the block ends up compressed exactly when compression is on with an algorithm that is there, the block has at least the minimum size, and the compressor's output is smaller; -1 exactly when it was tried and failed. |
| Compression.DataBlock.BlockDecompress | src/module_c/dedup.c:470-498 | A fresh copy of the plain content, whatever the representation. |
| Compression.DataBlock.ReadBlock | src/module_a/metadata_manager.c:803-835 | Copies the plain bytes of the range, cut to the block, compressed or not. |
| Compression.DataBlock.WriteBlock | src/module_a/metadata_manager.c:838-884 | Changes exactly the written range of the plain content, compressed or not; no space past the end, without any change. |
| Compression.DataBlock.ProcessOnWrite | src/module_c/dedup.c:509-554 | With deduplication off the write step never changes the plain content, for every algorithm and level chosen; the block ends up compressed under the same written-out condition. |
| HashTable.LookupCut | src/module_a/metadata_manager.c:150-178 | Cutting an entry out of a bucket makes its key absent and changes no other lookup. |
| HashTable.LookupReplace | src/module_a/metadata_manager.c:79-121 | Replacing a value in a bucket changes the lookup of that key only. |
| HashTable.Table.Get | src/module_a/metadata_manager.c:123-148 | What the finite map holds for the key. |
| HashTable.Table.Set | src/module_a/metadata_manager.c:79-121 | The map with the key set; the counter stays the map's size; buckets stay acyclic lists with each key once, in its own bucket. |
| HashTable.Table.Remove | src/module_a/metadata_manager.c:150-178 | The map without the key, ENOENT when it was absent. |
| HashTable.Table.Clear | src/module_a/metadata_manager.c:180-202 | The empty map, in all buckets. |
| HashTable.Cache.Put | src/module_a/metadata_manager.c:244-270 | Never more than max_size entries; at the limit exactly one entry goes first, even when the key is already there. |
| HashTable.Cache.Get | src/module_a/metadata_manager.c:273-283 | Nothing, or the last value put for the key. |
| HashTable.Cache.EvictFirst | src/module_a/metadata_manager.c:255-263 | The scan over the buckets finds and removes exactly one entry whenever there is one. |
| BlockCache.EvictShortest | src/module_c/cache.c:126-141 | Eviction takes the shortest oldest-first run that makes room, or everything. |
| BlockCache.PutWithinBudget | src/module_c/cache.c:638-648 | After a put the byte budget holds or the new block is alone. |
| BlockCache.DropIsCut | src/module_c/cache.c:87-109 | Dropping an id from the list takes out its first entry and keeps all others in order. |
| BlockCache.L1.RemoveEntry | src/module_c/cache.c:87-109 | The id's entry leaves the list, with head, tail and byte counter exact. |
| BlockCache.L1.EvictUntilFit | src/module_c/cache.c:126-141 | The loop removes exactly that oldest-first run from list and table and ends. |
| BlockCache.L1.Put | src/module_c/cache.c:638-648 | List and table hold the same distinct ids; the list is what the put specification says, and when everything fits all other entries stay, in order, before the new one; the block is stored and no other entry changes. |
| BlockCache.PutKeepsMost | src/module_c/cache.c:126-141 | A put keeps the longest run of newest entries that leaves room for the new block, which goes last; all of them if they fit. |
| BlockCache.BytesAreSum | src/module_c/cache.c:111-123 | The byte count adds up over lists, and one entry counts its own size. |
| BlockCache.L1.Invalidate | src/module_c/cache.c:683-688 | The id leaves list and table and nothing else does. |
| BlockCache.L2.SlotsMatchIndex | src/module_c/cache.c:608-617 | For every slot but 0, a non-zero id sits there iff the index maps it there, and then the slot is id mod slots. |
| BlockCache.L2.Put | src/module_c/cache.c:653-676 | The block's own slot holds it, cut to the slot size; other slots keep theirs; index and slots go on agreeing under displacement. |
| BlockCache.L2.Invalidate | src/module_c/cache.c:689-707 | The id leaves the index and its slot, and no other slot changes. |
| BlockCache.L2.Get | src/module_c/cache.c:608-617 | A hit exactly when the id's own slot is not slot 0 and holds the id. |
| Wal.DecodePut | include/module_d.h:76-86 | Reading a packed header back gives the header. |
| Wal.PutDecode | include/module_d.h:76-86 | Any 52 bytes are the packed form of the header read from them. |
| Wal.ScanPrinted | src/module_d/module_d.c:646-665 | Scanning printed records visits their headers in order and stops at a tail shorter than one header. |
| Wal.HeadersDecode | src/module_d/module_d.c:649-650 | The i-th visited header reads as the i-th record's. |
| Wal.CleanIsPrinted | src/module_d/module_d.c:646-665 | Conversely, whatever scans without running over its end is a stream of whole records and a short tail. |
| Wal.Recover | src/module_d/module_d.c:642-665 | The loop visits what the scan specification says and reports what is left. |
| WalRecovery.ScanConcat | src/module_d/module_d.c:646-665 | Scanning complete bytes with more behind them is scanning one after the other. |
| Wal.LogConserves | src/module_d/module_d.c:552-610 | Logging any buffers no larger than a segment: the segments in list order are the buffers in order, none is empty or exceeds its capacity, and two neighbours always exceed one capacity. |
| WalRecovery.LogOnto | src/module_d/module_d.c:552-610 | Logging a buffer behind complete segments: the buffer by itself decides whether all segments are complete or clean, and its headers are visited last. |
| WalRecovery.RecoverAll | src/module_d/module_d.c:671-697 | The loop over the listed files visits each file's scan in that order. |
| WalHistory.HistoryComplete | src/module_d/module_d.c:552-610 | After any records, each logged as header and data in two calls behind complete segments, all segments are whole records, and equally all scan cleanly, iff no header was parted from its data at its turn; recovery then visits all headers last and in order. |
| WalHistory.OrderKept | src/module_d/module_d.c:671-697 | For segments that each have a header to visit, none of them twice, the files in any order are visited in the log's order iff they come in the segments' order. |
| WalHistory.RecoverAnyOrder | src/module_d/module_d.c:671-697 | Records of which none is parted, recovered from the segment files in any order: each file is a contiguous run of the log in logged order, every record is visited as often as it was logged, and in logged order iff the files are in order, if no header is there twice. |
| WalHistory.CallsNumbered | src/module_d/module_d.c:479-531 | In any sequence of operations the headers logged are whole, their transaction numbers count up, and no header is there twice. |
| WalHistory.RecoverCalls | src/module_a/smartbackupfs_basic.c:719-735 | For any sequence of writes of at most 1024 bytes, creations, deletions and bare begins on a new log: all segments are clean, and equally complete, iff no header is parted from its data; then files in any order give every header once, in logged order iff the files are in order. |
| WalHistory.AlwaysRecoverable | src/module_a/smartbackupfs_basic.c:719-735 | For any sequence of operations on a new log: after each of them recovery would visit exactly the headers logged so far, in order and with nothing left, iff no write is longer than 1024 bytes and no header is ever parted from its data. |
| WalHistory.OneSegmentFits | src/module_d/module_d.c:560-561 | While all that was logged fits one segment no header is parted from its data. |
| WalHistory.FirstSegmentFills | src/module_d/module_d.c:560-561 | After 14513 writes of 1000 bytes on a new log all is recoverable, and after one more a segment no longer scans cleanly. |
| WalHistory.OrderLost | src/module_d/module_d.c:671-697 | Two records in two segments are visited in reverse when the later file is listed first. |
| WalDurability.CallsFiled | src/module_d/module_d.c:560-566 | After any sequence of operations every segment but the last is in its file, and the last one's file, if written, holds a beginning of it; the segments are those of the log without files. |
| WalDurability.CommitDurable | src/module_d/module_d.c:523-528 | After a commit the files hold all segments iff the commit found its segment unwritten. |
| WalDurability.CrashKeepsPrefix | src/module_d/module_d.c:401-432 | At any moment of a log without long writes or parted headers the files are whole records, recovery from them in order visits a prefix of the headers logged, and all of them iff the files hold all segments. |
| WalDurability.LaterCommitsLost | src/module_d/module_d.c:523-528 | While everything fits one segment, recovery after a crash visits the headers up to the first commit and none after it. |
| WalRecovery.WriteComplete | src/module_a/smartbackupfs_basic.c:719-735 | After the four buffers of a write all segments are whole records iff, seen from the state after begin, header and data are not torn apart and the write has at most 1024 bytes, or has 1076 and the commit header lands behind the data. |
| WalRecovery.WriteClean | src/module_a/smartbackupfs_basic.c:719-735 | No scan runs over its segment's end iff they are not torn apart and the write has at most 1024 bytes, or at most 1076 and the commit header lands behind the data. |
| WalRecovery.WriteRecoverable | src/module_a/smartbackupfs_basic.c:719-735 | All segments are whole records and recovery visits the begin, write and commit headers last iff the write has at most 1024 bytes and header and data are not torn apart. |
| WalRecovery.LongWritesLost | src/module_a/smartbackupfs_basic.c:731-735 | In a new log a write of 1076 bytes passes for complete without its commit header being visited, and one of 1077 makes the scan run over the end. |
| WalRecovery.ByteTorn | src/module_d/module_d.c:560-561 | A packed log onto which even a write of one byte is torn apart. |
| WalLog.Log.Write | src/module_d/module_d.c:552-610 | -1 exactly when disabled or empty; else the segments' contents are those of the append specification, ids count up, one segment is active. |
| Prediction.Predict | src/module_c/storage_prediction.c:18-47 | The loop and the arithmetic give the slope and forecast of a line of least squared residuals over the samples' days, taken at now plus the horizon and not below zero; with samples at two times, of the only such line, so of the line the samples lie on if they do; ENOENT exactly without samples. |
| Prediction.DenomNonNegative | src/module_c/storage_prediction.c:37-37 | n times the sum of squares is never below the square of the sum. |
| Prediction.DenomZero | src/module_c/storage_prediction.c:37-39 | The denominator is 0 iff all samples were taken at one moment. |
| Prediction.FitIsNormal | src/module_c/storage_prediction.c:36-41 | In both branches slope and intercept satisfy the two normal equations. |
| Prediction.FitIsOptimal | src/module_c/storage_prediction.c:36-41 | No line has a smaller sum of squared residuals, in both branches. |
| Prediction.FitIsUnique | src/module_c/storage_prediction.c:36-41 | The fitted line is the only best one iff the denominator is positive. |
| Prediction.ForecastOrigin | src/module_c/storage_prediction.c:26-45 | Slope and forecast do not depend on which moment counts as day zero. |
| Prediction.ForecastIsBest | src/module_c/storage_prediction.c:36-47 | Slope and forecast are those of a line of least squared residuals, written out in days; with two times of the only one; a line through all samples is such a line. |

## Left out

- Deduplication switched on: reference counts, copy on write and the hash index; only the path with it off is modelled.
- The block caches are not in the read and write paths of `BlockMap`; block ids are distinct preconditions there, not fields of a block.
- L2-to-L1 promotion, the L3 disk level, dirty flags, flush and prefetch threads.
- `BlockCache` uses finite maps where the code uses hash tables; `HashTable` proves the table to be such a map.
- BlockMap.Map.SmartWrite: the unwritten bytes of a newly allocated block are arbitrary, as the allocator leaves them; the write errors of a failing allocation or decompressor do not arise.
- The additive checksum and placeholder hash that `write_block` stores in a block, and the byte statistics of compression.
- VersionChain.Chain.RemoveNode: freeing the node and dropping its cache key are not in the linked class; `VersionCache` models them on values. Snapshot and checksum arrays are sequence fields that are reassigned.
- BlockMap.Map.SmartRead: reads served from a cached copy of a block are not modelled.
- VersionCache.LookupAgrees: speaks of file, node, size and block count only; a cached entry's version number is the live file's, not the version's.
- Version descriptions, the printed list of versions, time expressions, periodic snapshots and `version_manager_get_version_by_time`.
- VersionManager.MaybeChangeSnapshot: the quotient is a real number; rounding of the double quotient is not modelled.
- VersionManager.CreateVersion: requires the live map to cover the newest version, which every run of `VersionedRun` keeps; unlinking a file and its map is not modelled.
- Wal.Recover: where a record announces more bytes than remain, the code reads past the buffer, and where header and data together pass 2^64 the 64-bit entry size wraps; the model stops at both and reports an unclean scan. Re-applying and rolling back transactions only print in the code.
- WalLog.Log.Write: requires a buffer no larger than a segment, which the code does not check; segment files and the written flag are modelled on values in `WalDurability`, the creation time is not.
- Prediction.Predict: real numbers instead of doubles, no truncation of the forecast to 64 bits, and the samples are a parameter.
- Backup, restore, health monitoring, integrity scanning, FUSE handlers, path parsing, extended attributes, permissions, threads and locks.
- WalRecovery.WriteRecoverable: speaks of the segments' contents; `WalDurability` says which of them are in their files.
- WalHistory.RecoverCalls: requires writes of at most 1024 bytes, because behind a longer one the scan can take bytes of data for headers; `WalHistory.AlwaysRecoverable` has no such requirement.
- WalDurability.CrashKeepsPrefix: the file writes themselves succeed; a restart, which begins again with segment 1 and transaction 1 over the old files, and the removal of old segments from the list are not modelled.
- `md_log_file_creation` and the three wrappers beside it, which log a structure without a header, and `md_transaction_rollback`, which only they call: nothing calls them.
- `block_map_diff`, the block splitter, statistics and monitor wrappers: single loops or calls on top of what is modelled.
