# Verified models of the storage and shell core

This project models the parts of the firmware whose correctness is hardest to see from
the code, and proves what they promise:

* **littlefs v2.1.4** (`components/littlefs-v2.1.4`): the checksum, the metadata log and its
  commits, power loss, lookup and compaction, the CTZ skip list, files on top of it, the block
  allocator and the caches.
* **finsh** (`components/finsh`): parser, type check, compiler, stack machine and heap of the shell.
* **SFUD** (`components/drivers/sfud.c`): erase and program loops of the SPI flash driver.
* **Serial DMA transmission** (`components/drivers/serial.c`, `components/finsh/dataqueue.c`).

`dafny verify dfyconfig.toml` checks everything.

## How it is organised

| module | what it is about |
|---|---|
| Options, Words, Arith, Bits | bytes and words, programming a block, alignment, bit counting |
| Crc | the nibble-table CRC-32 against the bit-serial one |
| Tag, Log, Chain | tags, the meaning of a log (`Replay`), its XOR-chained form on disk |
| Lookup, Compact | backward search and compaction against `Replay` |
| Fetch, Commit, Crash, Atomic | scanning, writing and tearing commits on one block |
| Pair, Runs | the metadata pair; runs of commits, refused appends, power losses and remounts |
| Flags, Escape | where the erased flag and the flash part: torn tags, refused appends, directories of 255 files |
| Overwrite, Trusting | appends over programmed flash, and what checksum and read-back protect there |
| CtzIndex, CtzList, CtzExtend | the CTZ skip list against a plain list of blocks |
| File | read, write, seek and flush against a byte sequence |
| Allocator, Cache | the lookahead allocator and the block device caches |
| Syntax, Parser, Compiler, Signed, Vm | the shell language from tokens to results, and its 32-bit arithmetic |
| Heap | the shell's heap against a row of blocks that tiles it |
| Flash | the flash driver against replacing bytes |
| DataQueue, DmaTx | the ring buffer, and the writer/interrupt protocol as a state machine |

## Main results

* `Runs.CrashSafe`: power lost after *any* programmed byte of *any* append or rewrite, after *any* run
  of a metadata pair: a mount finds exactly the log before or exactly the log after, for every
  revision count including wrap-around. Runs contain completed commits, appends refused part-way,
  earlier power losses and remounts, and compactions from blocks that are not erased behind their
  commit. No assumption about the checksum is needed on flash that erases to 0xff and programs bytes
  in order. `Runs.CompactionCrashSafe` adds that a compaction which also commits attributes leaves all
  files as before or all as after.
* `Runs.FlagMeansErased`: on every state of every such run the `erased` flag, in memory or as the next
  mount would compute it, means erased flash. `Pair.AppendBlock` and `Pair.RewriteBlock` tie the code
  that writes a commit to the bytes these theorems are about, and `Fetch.FoundOnDisk` ties what a mount
  finds to what lookup reads.
* `Trusting.RunWhole`, `Trusting.CrashSafe`: the same over runs in which every append may go over programmed
  flash, where programming only clears bits: as far as no corruption goes unnoticed by a checksum, an append that
  the read-back accepts is there, and one it refuses or that power loss cuts off is there completely or not at all.
* `Lookup.DirGet`: the backward search over XOR-chained bytes returns the newest entry that forward replay gives the
  file and whose tag word agrees with the one asked for under the mask.
* `Compact.LookupsKept`, `Compact.SplitPreserves`: filtering, renumbering and splitting keep every lookup of every
  file.
* `File.Handle.Write`, `Flush`, `Read`, `Seek`: a file is a byte sequence; the file on disk stays
  readable until the new one takes over.
* `CtzIndex.IndexRightIff`: the popcount formula is right for every position a file can have exactly
  from 112-byte blocks on (and for every 32-bit position from 116 on), although the size check of
  `lfs_init` already accepts 104.
* `Allocator.NoBlockTwice`, `AllocGood`: over every run, with blocks being put to use and freed in
  between.
* `Parser.ShellRuns`: printed statements are parsed exactly if their trees have at most 16 nodes, and
  are then checked, compiled and run to what they evaluate to. `Parser.Precedence` writes out how every two
  operators are grouped, and `Vm.SumLaws`, `DivLaws`, `BitLaws` and `ShiftLaws` say in integers what they compute.
* `Heap.Arena.Allocate`, `Free`, `Gc`: the linked lists always describe a tiling whose highest block is free.
* `Flash.ReplacementIff`: erase and write replaces exactly the range if and only if it consists of
  whole sectors.
* `DmaTx.InOrderOnceIff`: "every buffer is sent in order, exactly once" is *false* of the code
  (`SentTwice`, `NeverSent`): it holds if and only if no interrupt takes the writer's own buffer off
  the queue between the push and the test of `activated`.

## Where code and expectation differ

* DMA transmission: see above; two transmit-done interrupts inside the window send one buffer twice
  and lose the next one.
* `lfs_dir_commit` appends whatever the flag says if the directory, counted with the creates and deletes of the
  commit, will have 255 files or more. Over all runs, appending given attributes programs erased flash if and only
  if that number is below 255 (`Escape.EscapeIff`, for every program size). `Escape.EscapeReached` is the run: the
  code makes a directory, creates the files one by one, loses power between two program units of an append, and
  then appends over programmed flash.
* The `erased` flag of a fetch can be wrong: power lost after one to three bytes of a first tag behind a commit is
  taken for erased flash exactly if the length then read leaves the block (`Runs.FlagExact`, `Flags.FlagLies`;
  `Escape.LyingFlag` is a run). It cannot happen with program units of eight bytes or more (`Runs.UnitsEnabled`;
  the default here is 256).
* A refused append leaves the flag in memory set although the flash behind the commit is programmed
  (`Flags.RefusedDirties`); only the compaction that follows makes it true again.
* `set_write_enabled(flash, false)` compares the masked latch bit (value 2) with 1, which holds for no
  status (`Flash.NeverNotDisabled`): it succeeds whenever both transfers do, and then the latch stays set
  exactly if it was set and the chip ignored the command (`Flash.Driver.SetWriteEnabled`). In AAI mode an
  odd last byte is then not programmed and success is reported (`Flash.Driver.AaiWrite`).
* `sfud_write` reports success for dual-buffer chips without writing (`Flash.Driver.Write`).
* `lfs_file_write` with no bytes at a position behind the end still extends the file with zeros
  (`File.Overwrite` with empty data).
* `lfs_file_flush` that runs out of space keeps the contents but leaves the position where the copy
  stopped, between the old one and the end of the file (`File.Handle.Flush`).
* A finsh line has 16 nodes for all its trees: a ninth `1` in `1+1+...+1;` needs a seventeenth node and
  the line is refused (`Parser.SeventeenNodes`).
* `finsh_heap_allocate` adds the header size in 32 bits: the sum wraps for sizes above 0xfffffff4
  (`Heap.NeededExact` gives the exact bound, and `Heap.Arena.Allocate` requires it).

## Model

| member | source | states |
|---|---|---|
| Crc.LfsCrc | components/littlefs-v2.1.4/lfs_crc.c:4-20 | the table loop returns the bit-serial reflected CRC-32 for every seed and string |
| Crc.TableMatchesBits | components/littlefs-v2.1.4/lfs_crc.c:4-20 | nibble-table and bit-serial checksum are the same function |
| Crc.CrcAppend | components/littlefs-v2.1.4/lfs_crc.c:10-20 | checksumming piecewise is checksumming the whole |
| Crc.CrcResidue | components/littlefs-v2.1.4/lfs.c:1299-1315 | appending the little-endian checksum drives the state to 0 |
| Crc.BurstDetected | components/littlefs-v2.1.4/lfs_crc.c:4-20 | strings that differ only within four consecutive bytes never collide |
| Tag.WordRoundTrip | components/littlefs-v2.1.4/lfs.c:265-302 | packing a tag into 32 bits loses no field and leaves the valid bit clear |
| Tag.MaskedDecodes | components/littlefs-v2.1.4/lfs.c:268-302 | the fields do not depend on the valid bit |
| Tag.FieldsRoundTrip | components/littlefs-v2.1.4/lfs.c:265-302 | and every word is its fields and the valid bit |
| Tag.WordIs | components/littlefs-v2.1.4/lfs.c:265-266 | the word is the type number of lfs.h, the id and the size in their places |
| Tag.SpliceTypes | components/littlefs-v2.1.4/lfs.h:106-107 | creates and deletes have the types 0x401 and 0x4ff |
| Tag.SameType | components/littlefs-v2.1.4/lfs.c:535 | words agree under a type mask exactly if kind and masked chunk do |
| Tag.KindBits | components/littlefs-v2.1.4/lfs.c:629-632 | the 0x400 bit marks what is no attribute, the 0x100 bit the types told apart by the whole type |
| Tag.DsizeWord | components/littlefs-v2.1.4/lfs.c:300-302 | the length of an entry as the code computes it, 0x3ff giving no data |
| Log.CountIsFiles | components/littlefs-v2.1.4/lfs.c:886-893 | the running count of a scan is the number of files of the replayed directory |
| Log.BackFindIsLatest | components/littlefs-v2.1.4/lfs.c:509-555 | searching backwards and undoing splices finds, for every log and id, what forward replay records last |
| Log.LatestIsLast | components/littlefs-v2.1.4/lfs.c:535-553 | that is the newest entry whose word agrees with the wanted one under the mask, and nothing if it is a removal |
| Log.FewRemovesInRange | components/littlefs-v2.1.4/lfs.c:522-533 | the id stays within its ten bits on the way back if few files were removed |
| Log.LiveInRange | components/littlefs-v2.1.4/lfs.c:522-533 | and for every file of a directory in which no entry speaks of a file that does not exist, however many were removed |
| Chain.Forward | components/littlefs-v2.1.4/lfs.c:799-822 | un-XOR-ing a stored tag with its predecessor gives the tag |
| Chain.Backward | components/littlefs-v2.1.4/lfs.c:511-520 | un-XOR-ing with the tag itself gives the predecessor |
| Lookup.DirGet | components/littlefs-v2.1.4/lfs.c:496-562 | on the bytes of a block: the newest entry of the replayed file whose tag word agrees with the one asked for under the mask, its data cut or zero-padded to the buffer, and NOENT exactly if there is none or it is a removal |
| Lookup.FetchedGet | components/littlefs-v2.1.4/lfs.c:496-562 | on any block a fetch accepts and for every file of a well-ordered log: the same about the log the fetch found |
| Compact.TraverseFilter | components/littlefs-v2.1.4/lfs.c:625-651 | the filter over the following entries drops or renumbers a tag as the specification does |
| Compact.RedundantWords | components/littlefs-v2.1.4/lfs.c:629-642 | an entry is dropped exactly for the three conditions of the code on tag words |
| Compact.Traverse | components/littlefs-v2.1.4/lfs.c:653-752 | the traversal emits exactly the compacted log for an id range |
| Compact.KeptOnce | components/littlefs-v2.1.4/lfs.c:625-651 | no attribute is emitted twice |
| Compact.KeptMeans | components/littlefs-v2.1.4/lfs.c:625-752 | the entries kept give each file the attributes replay gives it, told apart as `Compact.KeyIsType` says |
| Compact.KeyIsType | components/littlefs-v2.1.4/lfs.c:629-632 | two tags are the same attribute exactly if a lookup with the mask of its type takes one for the other |
| Compact.CompactionPreserves | components/littlefs-v2.1.4/lfs.c:1442-1482 | replaying the compacted log for [begin,end) gives every file of that range its attributes, shifted by begin, and nothing else |
| Compact.LookupsKept | components/littlefs-v2.1.4/lfs.c:1442-1482 | every lookup, by whole type for types with the 0x100 bit and by kind for the others, finds in the compacted log what it found before |
| Compact.SplitPreserves | components/littlefs-v2.1.4/lfs.c:1442-1482 | after splitting and compacting, every lookup finds in its half what it found before |
| Compact.CompactedCount | components/littlefs-v2.1.4/lfs.c:1571-1577 | a scan of the compacted block counts exactly the files it was made for |
| Fetch.FetchBlock | components/littlefs-v2.1.4/lfs.c:787-943 | the scan loop returns the last commit whose checksum matches, with its end, next tag and file count, and the erased flag: a word follows it, cannot be read as a tag, and the commit ends on a program unit |
| Fetch.FoundOnDisk | components/littlefs-v2.1.4/lfs.c:799-867 | every commit found is on disk as the chain of its entries' tags, and ends where the scan says |
| Commit.NextOffBounds | components/littlefs-v2.1.4/lfs.c:1250-1255 | each checksum entry ends at the boundary or leaves room for another one |
| Commit.NextOffGreatest | components/littlefs-v2.1.4/lfs.c:1250-1255 | and none could be longer |
| Commit.FooterWord | components/littlefs-v2.1.4/lfs.c:1264-1266 | its tag: type 0x500 with the reset bit, id 0x3ff, the length up to its end |
| Commit.FootersTile | components/littlefs-v2.1.4/lfs.c:1242-1292 | the checksum entries tile the space up to the program boundary, each with a size between 4 and 0x3fe |
| Commit.Writer.CommitProg | components/littlefs-v2.1.4/lfs.c:1182-1195 | bytes are programmed and checksummed in step |
| Commit.Writer.CommitAttr | components/littlefs-v2.1.4/lfs.c:1197-1240 | an entry is chained and appended whole, or refused with nothing written |
| Commit.Writer.CommitFooter | components/littlefs-v2.1.4/lfs.c:1250-1286 | one checksum entry, its reset bit set from the bytes behind it |
| Commit.Writer.Verify | components/littlefs-v2.1.4/lfs.c:1294-1323 | the verify loop accepts exactly if every checksum region, padding skipped, has residue 0 |
| Commit.FootedReadsBack | components/littlefs-v2.1.4/lfs.c:1294-1323 | which every uncorrupted commit has |
| Commit.Writer.CommitCrc | components/littlefs-v2.1.4/lfs.c:1242-1326 | all checksum entries are in place, tile up to the boundary and are accepted |
| Commit.Writer.CommitAttrs | components/littlefs-v2.1.4/lfs.c:1751-1781 | the attributes are appended one by one up to the first that does not fit |
| Commit.Writer.Commit | components/littlefs-v2.1.4/lfs.c:1738-1797 | exactly the bytes of the whole commit are programmed, or those of the attributes that fit |
| Commit.RegionResidue | components/littlefs-v2.1.4/lfs.c:1299-1315 | every region between two checksums has residue 0 |
| Atomic.ErasedWordInvalid | components/littlefs-v2.1.4/lfs.c:1257-1285 | the word behind a commit is invalid for the next fetch, whatever its top bit |
| Atomic.WholeCommit | components/littlefs-v2.1.4/lfs.c:799-867 | a completed commit is decoded by fetch to exactly its entries |
| Atomic.TornCommit | components/littlefs-v2.1.4/lfs.c:799-867 | a commit cut at any byte is read as all of its entries or none, and what lies behind the commit found is erased, a tag that can be read, or one to three bytes of a tag |
| Atomic.TornAttrs | components/littlefs-v2.1.4/lfs.c:799-867 | attributes without a checksum behind them are never read |
| Crash.TornScan | components/littlefs-v2.1.4/lfs.c:799-867 | the same from any point of a scan, attributes and checksum entries alike |
| Crash.ScanResumes | components/littlefs-v2.1.4/lfs.c:799-867 | what was scanned before stays found when bytes are programmed behind it |
| Pair.NextIsNewer | components/littlefs-v2.1.4/lfs_util.h:149-151 | the incremented revision is newer and the old one is not, also across wrap-around |
| Pair.NewerOrder | components/littlefs-v2.1.4/lfs_util.h:149-151 | two revisions are ordered one way and never both, unless equal or 2^31 apart |
| Pair.AllocIsNewer | components/littlefs-v2.1.4/lfs.c:1339-1348 | so is the first revision of a new pair, made even and incremented, and it is odd |
| Pair.FetchesNewest | components/littlefs-v2.1.4/lfs.c:764-786 | the newest block with a commit is found in either block order |
| Pair.AppendTorn | components/littlefs-v2.1.4/lfs.c:1738-1797 | an append cut at any byte: the old log or the new one is mounted |
| Pair.AppendDone | components/littlefs-v2.1.4/lfs.c:1738-1797 | a completed append is mounted and leaves erased flash behind it |
| Pair.RefusedSound | components/littlefs-v2.1.4/lfs.c:1755-1760 | an append refused after any byte of its attributes leaves the same commit to be found |
| Pair.RewriteTorn | components/littlefs-v2.1.4/lfs.c:1529-1598 | a rewrite of any mountable pair cut at any byte: the old block stays the one mounted, or the new one holds the whole new log |
| Pair.RewriteDone | components/littlefs-v2.1.4/lfs.c:1529-1636 | a completed rewrite of any pair, also of one without commits, is mounted and ready for appends |
| Pair.AppendBlock | components/littlefs-v2.1.4/lfs.c:1738-1797 | the code programs exactly the append, or exactly the attributes before the first that does not fit |
| Pair.RewriteBlock | components/littlefs-v2.1.4/lfs.c:1529-1636 | the code programs exactly the rewrite under the next revision, revision count first |
| Runs.FirstCommit | components/littlefs-v2.1.4/lfs.c:1328-1361 | the first commit of a pair just allocated, under any newer revision, starts a run |
| Runs.MountsSound | components/littlefs-v2.1.4/lfs.c:764-786 | a mountable pair is mounted with its log in either block order |
| Runs.StepInv | components/littlefs-v2.1.4/lfs.c:1738-1815 | commit, refused append, power loss and remount each keep the pair mountable and the erased flag right |
| Runs.RunInv | components/littlefs-v2.1.4/lfs.c:1738-1815 | over every run the log is the completed commits and all or nothing of every interrupted one |
| Runs.FlagMeansErased | components/littlefs-v2.1.4/lfs.c:809-844 | on every run the erased flag means erased flash behind the commit |
| Runs.UnitsEnabled | components/littlefs-v2.1.4/lfs.c:816-824 | with program units of eight bytes or more every power loss between units is covered |
| Runs.RefusalEnabled | components/littlefs-v2.1.4/lfs.c:1755-1760 | so is every append refused after whole attributes |
| Runs.CrashSafe | components/littlefs-v2.1.4/lfs.c:754-979 | power lost after any programmed byte of any operation after any run: exactly the log before or after it is mounted |
| Runs.CommitDurable | components/littlefs-v2.1.4/lfs.c:1738-1815 | a completed operation after any run is mounted |
| Runs.CompactionCrashSafe | components/littlefs-v2.1.4/lfs.c:1529-1636 | a compaction that also commits attributes and writes a tail, torn anywhere: all lookups of all files are as before, or all as after |
| Runs.FlagExact | components/littlefs-v2.1.4/lfs.c:816-824 | after a torn commit the reported flag is right exactly unless the cut is one to three bytes into the next tag |
| Flags.CommitReady | components/littlefs-v2.1.4/lfs.c:816-824 | behind a completed commit a mount reports erased flash exactly on a program unit with room for a word |
| Flags.RefusedDirties | components/littlefs-v2.1.4/lfs.c:1755-1760 | a refused append leaves the flag in memory set on programmed flash |
| Flags.LossDirties | components/littlefs-v2.1.4/lfs.c:816-824 | power lost behind the first tag of an append: the old commit is mounted, with the flag clear and programmed flash behind it |
| Flags.TornLength | components/littlefs-v2.1.4/lfs.c:816-824 | the length read from one to three bytes of a tag: complement of the previous tag's bits where nothing is programmed yet |
| Flags.FlagLies | components/littlefs-v2.1.4/lfs.c:816-824 | one to three bytes of a tag are taken for erased flash exactly if that length leaves the block |
| Escape.LyingFlag | components/littlefs-v2.1.4/lfs.c:816-824 | a run on 128-byte blocks in which that happens after one byte of the first append |
| Escape.NewCountIsScanned | components/littlefs-v2.1.4/lfs.c:1696-1713 | the count with creates and deletes is what a scan of the longer log counts |
| Escape.Fill | components/littlefs-v2.1.4/lfs.c:1696-1815 | a run in which the code makes a directory and creates n files, one commit each |
| Escape.EscapeReached | components/littlefs-v2.1.4/lfs.c:1696-1738 | for all attributes and each resulting count from 255 on, a run after which the code appends them over programmed flash |
| Escape.EscapeIff | components/littlefs-v2.1.4/lfs.c:1696-1738 | for all attributes and program sizes: every append programs erased flash if and only if the resulting count is below 255 |
| Overwrite.OverErased | components/littlefs-v2.1.4/lfs.c:171-215 | on erased flash clearing bits is writing |
| Overwrite.HitScan | components/littlefs-v2.1.4/lfs.c:799-867 | a scan is: up to the first checksum it accepts, and on from there |
| Overwrite.DirtyCommit | components/littlefs-v2.1.4/lfs.c:799-867 | a commit programmed over anything, whole or in part: all of it is read or nothing, if accepted checksums cover the bytes written |
| Overwrite.ReadBackWhole | components/littlefs-v2.1.4/lfs.c:1294-1323 | regions with residue 0 that cover the bytes written are, with the padding, the whole commit |
| Overwrite.AcceptedWhole | components/littlefs-v2.1.4/lfs.c:1294-1323 | what the read-back accepts is the commit, bit for bit |
| Trusting.DirtyAppend | components/littlefs-v2.1.4/lfs.c:1738-1797 | an append over anything, cut anywhere or complete: the old log or the new one is mounted |
| Trusting.AcceptedAppend | components/littlefs-v2.1.4/lfs.c:1788-1797 | an append over anything that is read back without error is mounted |
| Trusting.DirtyRewrite | components/littlefs-v2.1.4/lfs.c:1529-1598 | a rewrite of such a pair cut anywhere |
| Trusting.StepWhole | components/littlefs-v2.1.4/lfs.c:1738-1815 | every step, whatever the flag, keeps the pair mountable with the outcome it should have |
| Trusting.RunWhole | components/littlefs-v2.1.4/lfs.c:1738-1815 | over every run: accepted commits are there, refused and interrupted ones completely or not at all |
| Trusting.CrashSafe | components/littlefs-v2.1.4/lfs.c:754-979 | power lost after any byte of any operation after any such run: the log before or after it is mounted |
| Pair.ReplayContent | components/littlefs-v2.1.4/lfs.c:841-867 | checksum entries do not change the directory |
| Bits.PopcPred | components/littlefs-v2.1.4/lfs_util.h:127-145 | popc(n-1) + 1 == popc(n) + ctz(n) |
| Bits.BitLengthBounds | components/littlefs-v2.1.4/lfs_util.h:110-125 | the bit length brackets n between powers of two, so npw2 rounds up |
| CtzIndex.PointerCount | components/littlefs-v2.1.4/lfs.c:2130-2141 | blocks 1 to n hold 2n - popc(n) pointers |
| CtzIndex.IndexHolds | components/littlefs-v2.1.4/lfs.c:2130-2141 | from 112-byte blocks on, and for 32-bit positions from 116 on, the formula gives the block and offset that summing capacities gives |
| CtzIndex.HoldsUnique | components/littlefs-v2.1.4/lfs.c:2130-2141 | no other block holds the position |
| CtzIndex.WrongBelow | components/littlefs-v2.1.4/lfs.c:3398-3400 | for each block size from 104 to 111 a position of a file at which the formula fails |
| CtzIndex.WrongBelow32 | components/littlefs-v2.1.4/lfs.c:3398-3400 | for each block size from 104 to 115 a 32-bit position at which it fails |
| CtzIndex.AssertAccepts | components/littlefs-v2.1.4/lfs.c:3398-3400 | lfs_init accepts every block of 128 bytes or more |
| CtzIndex.IndexRightIff | components/littlefs-v2.1.4/lfs.c:3398-3400 | among the sizes lfs_init accepts, right for all positions up to LFS_FILE_MAX exactly from 112 on, for all 32-bit positions exactly from 116 on |
| CtzList.CtzFind | components/littlefs-v2.1.4/lfs.c:2143-2176 | the block and offset of the position, following only existing pointers, within a hop budget |
| CtzList.HopBudget | components/littlefs-v2.1.4/lfs.c:2155-2160 | every hop lands at or after the target and uses up budget |
| CtzList.BudgetLogarithmic | components/littlefs-v2.1.4/lfs.c:2143-2176 | the budget is at most 2*floor(log2(distance)) + 1 |
| CtzList.CtzTraverse | components/littlefs-v2.1.4/lfs.c:2279-2320 | every block of the list is reported exactly once, head first |
| CtzExtend.Device.CopyBlock | components/littlefs-v2.1.4/lfs.c:2210-2235 | an incomplete last block is copied byte for byte, nothing else changes |
| CtzExtend.Device.LinkBlock | components/littlefs-v2.1.4/lfs.c:2237-2262 | pointer j of the new block leads to the block 2^j back, for every j up to ctz |
| CtzExtend.Device.Extend | components/littlefs-v2.1.4/lfs.c:2178-2277 | the extended list keeps the skip-list invariant, no other block changes, every earlier byte stays at its position, and the returned offset is where the next byte goes |
| File.OverwriteAt | components/littlefs-v2.1.4/lfs.c:2821-2950 | byte by byte: the written range holds the data, a gap reads as zeros, the rest is old, the size is the larger end |
| File.ReadSpan | components/littlefs-v2.1.4/lfs.c:2769-2815 | the read loop returns the file's bytes across blocks and keeps its cursor right |
| File.CutFile | components/littlefs-v2.1.4/lfs.c:2882-2895 | the blocks up to a position are themselves the file's first bytes |
| File.Handle.constructor | components/littlefs-v2.1.4/lfs.c:2324-2476 | an opened file has the contents on disk |
| File.Handle.NextBlock | components/littlefs-v2.1.4/lfs.c:2878-2913 | a fresh block with what stands before the position copied or linked; the file on disk is untouched |
| File.Handle.WriteBytes | components/littlefs-v2.1.4/lfs.c:2877-2945 | the bytes follow what stands before the position; running out of space leaves a prefix |
| File.Handle.Write | components/littlefs-v2.1.4/lfs.c:2821-2950 | the contents become the old ones with the range replaced and gaps zeroed, FBIG exactly past the limit, NOSPC only with no block left and none with room and a prefix written, the file on disk keeps its bytes |
| File.Handle.Flush | components/littlefs-v2.1.4/lfs.c:2595-2673 | the contents stay the same, become the file on disk, and the old head stays readable with the old contents; out of space the position is where the copy stopped |
| File.Handle.Read | components/littlefs-v2.1.4/lfs.c:2741-2819 | the bytes at the position, as many as there are, pending writes included |
| File.Handle.Seek | components/littlefs-v2.1.4/lfs.c:2952-2985 | the position is computed in 32 bits; refused only past the limit or if pending writes cannot be flushed; contents stay |
| File.Handle.Size | components/littlefs-v2.1.4/lfs.c:3071-3083 | the length of the contents, pending writes included |
| Allocator.OffsetIsAhead | components/littlefs-v2.1.4/lfs.c:433-443 | the 32-bit arithmetic is the distance on the ring of blocks |
| Allocator.RefillMarks | components/littlefs-v2.1.4/lfs.c:474-486 | after a traversal exactly the blocks in use are marked |
| Allocator.RefillWidth | components/littlefs-v2.1.4/lfs.c:474-478 | a new window takes up the whole buffer or the whole budget |
| Allocator.FindEager | components/littlefs-v2.1.4/lfs.c:455-464 | after a block is handed out the search has gone on to the next that may be free |
| Allocator.PassFree | components/littlefs-v2.1.4/lfs.c:447-465 | a block taken from the window is neither in use nor handed out |
| Allocator.AllocGood | components/littlefs-v2.1.4/lfs.c:445-488 | the budget never underflows, the result is free, and NOSPC means every block was handed out or busy since the last acknowledgement |
| Allocator.NextGood | components/littlefs-v2.1.4/lfs.c:433-492 | allocation, acknowledgement and any legal change of the blocks in use keep the invariant |
| Allocator.RunGood | components/littlefs-v2.1.4/lfs.c:433-492 | the invariant holds after every run |
| Allocator.NoBlockTwice | components/littlefs-v2.1.4/lfs.c:433-492 | between two acknowledgements no block is returned twice |
| Allocator.MountGood | components/littlefs-v2.1.4/lfs.c:3711-3715 | the invariant holds after mounting, for any start offset |
| Allocator.Lookahead.NextWindow | components/littlefs-v2.1.4/lfs.c:474-486 | the refill loop builds the specified window |
| Allocator.Lookahead.AllocBlock | components/littlefs-v2.1.4/lfs.c:445-488 | the loops end and compute the specified allocation |
| Cache.LoadCovers | components/littlefs-v2.1.4/lfs.c:75-91 | a load with a positive hint covers the position and stays in block and cache |
| Cache.LoadReaches | components/littlefs-v2.1.4/lfs.c:75-91 | it fills the cache or reaches the hint or the block's end, and not a read unit further |
| Cache.LoadNothing | components/littlefs-v2.1.4/lfs.c:75-91 | with a zero hint at an aligned position nothing is loaded |
| Cache.Bd.Read | components/littlefs-v2.1.4/lfs.c:27-93 | ends, and returns the program cache laid over the disk for any hint and alignment, keeping the read cache coherent |
| Cache.Bd.Compare | components/littlefs-v2.1.4/lfs.c:101-122 | true exactly when the disk holds the data |
| Cache.Bd.Flush | components/littlefs-v2.1.4/lfs.c:124-155 | exactly the aligned cache contents reach the disk, and validation succeeds |
| Cache.Bd.Sync | components/littlefs-v2.1.4/lfs.c:157-169 | the same with the read cache dropped first |
| Cache.Bd.Prog | components/littlefs-v2.1.4/lfs.c:171-215 | disk and cache are a function of everything programmed so far |
| Cache.Bd.ProgAll | components/littlefs-v2.1.4/lfs.c:171-215 | however the data is cut, sequential programs and a flush leave the same bytes |
| Cache.SessionSeen | components/littlefs-v2.1.4/lfs.c:37-53 | programmed bytes are read back before they are flushed |
| Parser.AssignBack | components/finsh/finsh_parser.c:442-887 | parsing a printed expression gives its tree and stops where it should exactly if the pool has its nodes, and takes just those |
| Parser.PostfixBack | components/finsh/finsh_parser.c:758-808 | postfix operators and calls are rebuilt, with the same count of nodes |
| Parser.ProgramBack | components/finsh/finsh_parser.c:916-998 | the printed statements are rebuilt as a sibling list if and only if the pool has nodes for all of them |
| Parser.Precedence | components/finsh/finsh_parser.c:467-668 | every two of the ten operators are grouped as a written-out table says |
| Parser.AssignsLast | components/finsh/finsh_parser.c:442-461 | assignments are grouped to the right and bind last |
| Parser.SignBack | components/finsh/finsh_parser.c:718-729 | a minus sign is zero minus its operand and takes two nodes, a plus sign nothing |
| Parser.ShellRuns | components/finsh/shell.c:287-325 | statements of at most 16 nodes, and no others, are parsed; checked, compiled and run they give what they evaluate to if their code fits in the text segment |
| Parser.SeventeenNodes | components/finsh/finsh_node.c:45-62 | a sum of eight ones is parsed, a sum of nine is refused |
| Parser.Reader.NewNode | components/finsh/finsh_parser.c:897-911 | a node is taken from the pool, or none is left |
| Parser.Reader.AssignExpr | components/finsh/finsh_parser.c:442-461 | the code parses as the grammar says, right-associatively |
| Parser.Reader.BinaryExpr | components/finsh/finsh_parser.c:467-668 | the loops of the binary levels parse as the grammar says |
| Parser.Reader.UnaryExpr | components/finsh/finsh_parser.c:710-751 | prefix operators, unary minus as zero minus |
| Parser.Reader.PostfixExpr | components/finsh/finsh_parser.c:758-808 | the loop over postfix operators and calls |
| Parser.Reader.ParamList | components/finsh/finsh_parser.c:864-887 | the loop over parameters builds the sibling list |
| Compiler.CodeIsGen | components/finsh/finsh_compiler.c:43-901 | type check and code generation of the tree give the expression's code, whatever follows as a sibling |
| Compiler.ProgramIsGen | components/finsh/finsh_compiler.c:903-937 | statements are compiled one by one with POP between them |
| Compiler.CallCode | components/finsh/finsh_compiler.c:285-309 | a call loads the function, then the arguments in order, and carries their number |
| Compiler.PointerCode | components/finsh/finsh_compiler.c:43-757 | the code of taking an address and of following a pointer |
| Compiler.Writer.CompileNode | components/finsh/finsh_compiler.c:43-757 | child, node and sibling are written to the text segment in this order |
| Compiler.Writer.CompilerRun | components/finsh/finsh_compiler.c:903-937 | the text segment holds the program and zeros |
| Signed.IntOfWord | components/finsh/finsh_ops.c:42-45 | the word of an integer is that integer wrapped to 32 bits |
| Signed.WordOfInt | components/finsh/finsh_ops.c:42-45 | and no two words are the same integer |
| Signed.BitIsDigit | components/finsh/finsh_ops.c:42-45 | bit k of a word is binary digit k of its number |
| Vm.SumLaws | components/finsh/finsh_ops.c:54-162 | sums, differences and products up to a multiple of 2^32 |
| Vm.DivLaws | components/finsh/finsh_ops.c:98-140 | quotient and remainder of C, and exactly when there is none |
| Vm.BitLaws | components/finsh/finsh_ops.c:164-250 | the bitwise operators, bit by bit |
| Vm.ShiftLaws | components/finsh/finsh_ops.c:252-294 | shifts as products and as divisions rounding down, and exactly when there is none |
| Vm.ExecGen | components/finsh/finsh_ops.c:42-441 | the code of an expression pushes exactly its value, leaves the store of its evaluation, and fails exactly when evaluation does |
| Vm.NeedBound | components/finsh/finsh_vm.c:34-72 | code that fits in the text segment cannot overflow the stack |
| Vm.ExecAll | components/finsh/finsh_compiler.c:918-934 | statements separated by POP leave only the last value |
| Vm.ExecZeros | components/finsh/finsh_vm.c:47-72 | the zeros behind the program do nothing |
| Vm.RunProgram | components/finsh/finsh_vm.c:47-72 | the machine ends with the last statement's value at the bottom of the stack |
| Vm.Run | components/finsh/finsh_vm.c:47-72 | the fetch and execute loop ends and computes that |
| Heap.AllocGood | components/finsh/finsh_heap.c:73-110 | allocating the front of a free block keeps the tiling, no adjacent free blocks, and a free last block |
| Heap.FreeGood | components/finsh/finsh_heap.c:115-128 | so does freeing with merging |
| Heap.FreeUndoesAlloc | components/finsh/finsh_heap.c:73-128 | freeing right after allocating restores the heap |
| Heap.AllFree | components/finsh/finsh_heap.c:55-128 | with everything freed only the initial block is left |
| Heap.NeededExact | components/finsh/finsh_heap.c:77-92 | the 32-bit sums are exact if and only if the size is at most 0xfffffff4 |
| Heap.Arena.constructor | components/finsh/finsh_heap.c:55-68 | one free block of the whole heap |
| Heap.Arena.Insert | components/finsh/finsh_heap.c:166-200 | the list stays sorted and linked; the tail case that leaves the link alone is safe |
| Heap.Arena.Remove | components/finsh/finsh_heap.c:205-227 | exactly the header leaves the list |
| Heap.Arena.Split | components/finsh/finsh_heap.c:232-246 | the rest becomes a free block linked behind |
| Heap.Arena.Merge | components/finsh/finsh_heap.c:248-298 | joined with exactly the list neighbours it touches |
| Heap.Arena.Free | components/finsh/finsh_heap.c:115-128 | lists, lengths and tiling after a free, in every merge case |
| Heap.Arena.Gc | components/finsh/finsh_heap.c:133-161 | exactly the blocks a variable refers to stay, unchanged |
| Heap.Arena.Allocate | components/finsh/finsh_heap.c:73-110 | the first free block longer than the rounded size and a header; a collection exactly if there is none, then the first at least as long; NULL exactly if every free block is shorter even then |
| Flash.AddressBack | components/drivers/sfud.c:989-1000 | the address bytes are read back as the address |
| Flash.InPage | components/drivers/sfud.c:636-655 | a program that stays in its page is not wrapped |
| Flash.Driver.SetWriteEnabled | components/drivers/sfud.c:878-907 | enabling succeeds only with the latch set; disabling succeeds whenever both transfers do, and leaves the latch set exactly if it was set and the chip ignores the command |
| Flash.NeverNotDisabled | components/drivers/sfud.c:897-903 | the test after disabling holds for no status |
| Flash.Driver.PageWrite | components/drivers/sfud.c:602-676 | on success every byte is programmed, on failure a prefix, and nothing on a chip stuck in AAI mode; no command crosses a page |
| Flash.Driver.AaiPairs | components/drivers/sfud.c:722-750 | word programs follow on from the first address |
| Flash.Driver.AaiWrite | components/drivers/sfud.c:691-768 | odd first and last bytes included, every byte is programmed, or a prefix on failure; success drops the odd last byte behind a pair exactly on a chip that ignores WRITE_DISABLE |
| Flash.Driver.Erase | components/drivers/sfud.c:501-589 | exactly the sectors that meet the range are erased; an in-bounds call succeeds if all transfers do |
| Flash.Driver.Write | components/drivers/sfud.c:780-792 | page or AAI mode: on success every byte is programmed; dual-buffer chips report success untouched; an in-bounds call succeeds if all transfers do |
| Flash.Driver.EraseWrite | components/drivers/sfud.c:804-814 | on success the range holds the data and the rest of its sectors is erased; an in-bounds call succeeds if all transfers do |
| Flash.Driver.Read | components/drivers/sfud.c:395-435 | the bytes of the range, refused out of bounds; an in-bounds call succeeds if all transfers do |
| Flash.AlignedReplaces | components/drivers/sfud.c:501-814 | for whole sectors the range holds the data and every other byte is as before |
| Flash.UnalignedLoses | components/drivers/sfud.c:560-578 | any other range loses a byte beside it |
| Flash.ReplacementIff | components/drivers/sfud.c:501-814 | erase and write is replacement, whatever the chip held, exactly for ranges of whole sectors |
| DataQueue.Queue.Push | components/finsh/dataqueue.c:65-151 | appends unless full |
| DataQueue.Queue.Pop | components/finsh/dataqueue.c:154-253 | takes the oldest item, or none |
| DataQueue.Queue.Peak | components/finsh/dataqueue.c:256-279 | shows the oldest item |
| DmaTx.StepKeeps | components/drivers/serial.c:294-326 | every step that does not overtake keeps: sent so far are the first pushes in order, the one in flight is at the queue's head |
| DmaTx.RunKeeps | components/drivers/serial.c:728-755 | over every interleaving without overtaking |
| DmaTx.OneInFlight | components/drivers/serial.c:294-326 | no transfer is started over another |
| DmaTx.QuietMeansSent | components/drivers/serial.c:728-755 | at rest everything pushed has been sent |
| DmaTx.InOrderOnceIff | components/drivers/serial.c:294-326 | in order and exactly once if and only if no interrupt overtakes the writer |
| DmaTx.SentTwice | components/drivers/serial.c:302-312 | a run in which a buffer is sent twice |
| DmaTx.NeverSent | components/drivers/serial.c:738-749 | and the next buffer is lost |

## Left out

- Global move and orphan state, rename, relocation, bad-block retries: only the paths without `LFS_ERR_CORRUPT` are modelled.
- Directory tree operations, path lookup and `lfs_dir_fetchmatch`'s callbacks: the log of one metadata pair is modelled.
- Inline files, `lfs_file_truncate` and `lfs_file_sync`'s directory commit.
- The pseudo tags `LFS_FROM_NOOP`, `LFS_FROM_MOVE` and `LFS_FROM_USERATTRS` of a traversal.
- Runs.CrashSafe: erasing a block is one step, cells erase to 0xff and bytes are programmed in order; torn erases are not modelled.
- Runs.RunInv: a power loss inside a run must cut honestly (not one to three bytes into a tag that is then taken for erased flash, no torn checksum entry that passes for a whole one), the exact condition for the flag to be right; `Runs.CrashSafe` itself holds for every cut, and `Runs.UnitsEnabled` shows that program units of eight bytes meet it.
- Runs.StepInv: appends follow the flag, so these runs do not go on after an append that only the 255-file rule allowed (`Escape.EscapeIff`) or that followed a wrong flag, nor after a refused append whose compaction failed as well (`Flags.RefusedDirties`); `Trusting.StepWhole` is about them.
- Trusting.StepWhole: assumes of the checksum that corruption of the block being written does not go unnoticed (`Overwrite.Genuine`, `Overwrite.Reliable`), which a 32-bit checksum cannot guarantee; an append that runs out of space over programmed flash is not an event.
- Escape.EscapeIff: a pending move, which also lowers the count, is not modelled; the directory has between 1 and 1023 files before the commit.
- Pair.RewriteBlock: the rewrite of lfs_dir_compact into the other block of the pair; splitting is `Compact.SplitPreserves`, relocation and superblock expansion are not modelled.
- Fetch.FetchBlock: the tail pair and the split bit it also collects are not part of the result; the 16-bit file count is a number.
- Compact.Traverse: works on the list of entries; that the bytes of a block are that list is `Fetch.FoundOnDisk`.
- Lookup.DirGet: slices start at offset 0, no move is pending, and ids stay below 0x400 on the way back (`Log.LiveInRange` and `Log.FewRemovesInRange` say when).
- Compact.CompactionPreserves: requires that no directory on the way has more than 0x3ff files, since the id field has ten bits.
- Log: the bits of the tag's id field are modelled as numbers below 0x400; splices move ids without carry into other fields.
- File.Handle.Write: the caches between file and disk are modelled on their own in Cache; the allocator's answers are a list that meets what Allocator proves; data is at most 0x7fffffff bytes.
- CtzList.CtzFind: requires blocks of at least 112 bytes, as `CtzIndex.IndexRightIff` shows to be needed.
- File.Handle.constructor: path lookup, open flags and inline files are not modelled; the file's head and size are given.
- Allocator: one boolean per bit of the lookahead buffer; traversals do not fail; at most 2^31 blocks.
- Cache.Bd.Flush: without validation the read cache must not hold the block being programmed, which `lfs_bd_sync` ensures by dropping it.
- Cache.Bd.Compare: equality only; which of two different strings is larger is not stated.
- Cache.Bd.Sync: the device's own sync call is not modelled.
- The fallback bit tricks of `lfs_util.h` and the byte-order macros.
- Casts, parenthesised expressions, char and short arithmetic, pointers, strings, system variables and calls in compiled code; the parser model refuses a leading parenthesis, which the code takes for a cast.
- Parser: identifiers arrive resolved, so symbol lookup and declarations are not modelled; token buffers are values; an expression that fails is not parsed any further, since the error that was set keeps the line from being compiled; a parameter list is joined after its loop.
- Vm.ExecGen: arithmetic is 32-bit two's complement; division by zero, INT_MIN / -1 and shifts by 32 or more fail.
- Heap.Arena.Allocate: requires sizes up to 0xfffffff4; data bytes and their clearing are not modelled.
- Heap.Arena.Free: requires the address of an allocated block, which the code does not test.
- Flash: SFDP eraser tables, QSPI reads, 4-byte mode switching and retries inside a wait; a failing transfer has no effect on the chip; of the commands a chip may ignore only WRITE_DISABLE is modelled; address plus size stays below 2^32.
- Flash.Driver.AaiWrite: requires a non-empty range at odd addresses, where the code would program a byte it was not given.
- DataQueue.Queue.Push: requires fewer than 65536 pushes, where the 16-bit counters would wrap; waiting threads, timers and notifications are not modelled.
- DataQueue.Queue.Pop: waiting for an item and the low-water notification are not modelled.
- DmaTx: a full queue blocks the writer; one writer thread; interrupts during a claimed start need a transfer under way.
- Shell console, msh, symbol tables, drivers for SPI, USART and MTD, and the vendor headers.
