# OnyxKernel verification

A Dafny model of the parts of OnyxKernel that carry whole-run properties: the OnyxFS image
builder and the kernel path that reads its images, the OnyxExec converter and its loader, the
file-system journal, trap entry and return, the timer forwarder, the network lock, the page
budget, the virtio console, the network card cache, the shadow file, SHA-256, the Internet
checksum, bounded random numbers and the byte ring.

| file | what it models |
|---|---|
| `Bytes.dfy` | bytes, words, little-endian codecs, in-place copies |
| `Disk.dfy` | images changed by lists of writes |
| `OnyxFs.dfy` | the inode record and the kernel's read path |
| `MkImage.dfy`, `ImageChecks.dfy` | the two passes of the image builder, bitmaps, the whole build |
| `Directories.dfy` | directory records and the kernel's search for a name |
| `Rle.dfy`, `OnxFormat.dfy`, `OnxConvert.dfy` | the run-length codec, the executable format, the ELF conversion and the loader |
| `Journal.dfy` | the redo journal as a trace of disk writes, with crashes |
| `Trap.dfy`, `Timer.dfy` | trap code on a small machine; machine-timer forwarding |
| `NetLock.dfy`, `PageBudget.dfy` | concurrency protocols as interleaved atomic steps |
| `Console.dfy` | the virtio console driver and its device |
| `NetContext.dfy` | the one-slot cache of network cards, routing, nested contexts |
| `Sha256.dfy`, `Kdf.dfy`, `Shadow.dfy` | password hashing and the shadow file |
| `Checksum.dfy`, `Ipv4.dfy` | the Internet checksum and IPv4 framing |
| `Lemire.dfy`, `Ring.dfy` | bounded random numbers, the byte ring |

Imperative code is written as methods over arrays or as classes, proved equal to a
specification function; the laws are lemmas about those functions. Protocols are state
machines whose steps are single shared accesses, and their properties hold over every run.
`dafny verify dfyconfig.toml` checks everything.

## Where the code does less than its documentation

- The journal is described as write-ahead (`kernel/src/fs/onyxfs/journal.rs:8-13`), but its
  callers write each block in place before the commit marker exists. Recovery therefore never
  changes the data, and a transaction that changes several blocks is not all-or-nothing:
  `Journal.AtomicIff` gives the exact condition, `Journal.WriteAheadIsAtomic` what the
  documented order would give.
- Recovery is said to clear the journal in every case (`kernel/src/fs/onyxfs/journal.rs:126-130`);
  it clears only up to the commit marker, and nothing without one: `Journal.RecoveryClearsIff`,
  with a reachable leftover in `Journal.EntryLeftBehind`. Leftovers are harmless:
  `Journal.JournalIsTransparent`.
- The ring takes any capacity (`core/src/ringbuf.rs:3-6`) but is a FIFO exactly for capacities
  that divide 2^32: `Ring.CapacityIff`.
- An update of a shadow entry succeeds for any name and file, but an entry that is overlong or
  past the buffer leaves the account locked, and a name with a colon names another account:
  `Shadow.UpdateThenVerifyIff`, `Shadow.ColonNamesAnother`. The account tools check names first
  (`init/src/useradd.rs:191`, `init/src/passwd_flow/root_flow.rs:105`), which rules out all but a
  full file: `Shadow.CheckedNameWorks`.
- The image builder writes bitmaps of any length into one block each; past 32768 inodes they run
  over: `ImageChecks.BitmapRightIff`, `ImageChecks.EmptyFilesOverrun`.
- The converter drops loadable headers past the format's limit without a word:
  `OnxConvert.EveryHeaderLoadsIff`.
- The image builder accepts files of any size; beyond 10 + 1024 blocks the rest cannot be
  read back: `MkImage.WholeFileIff`.
- A page take can be refused while a page is free: `PageBudget.RefusedIff`,
  `PageBudget.TransientRefusal`.

## Model

| member | source | states |
|---|---|---|
| `MkImage.BuiltFileReads` | tools/src/mkimage/inode.rs:59-118 | whatever the image held before, the kernel's read of any file, at any offset and length, returns the bytes the tool was given, up to the reach of the indirect table |
| `MkImage.WholeFileIff` | tools/src/mkimage/dirent.rs:63-89 | a file comes back whole exactly when it has at most 10 + 1024 blocks |
| `MkImage.FileHeld` | kernel/src/fs/onyxfs/read.rs:59-84 | every file block is found through the direct window or the indirect table, in a device block that starts with the file's bytes |
| `MkImage.Located` | tools/src/mkimage/inode.rs:85-102 | following an inode of the finished image leads to the very block the second pass filled |
| `MkImage.InodeStored` | kernel/src/fs/onyxfs/inode/read.rs:18-38 | block-and-slot arithmetic of the kernel reaches the record the tool wrote, and decodes the inode the tool meant |
| `MkImage.IndirectStored` | tools/src/mkimage/inode.rs:93-102 | the first 1024 table entries survive the second pass |
| `MkImage.IndirectWithin` | tools/src/mkimage/inode.rs:93-102 | however many entries it has, the table written for a file stays inside that file's own blocks |
| `MkImage.ChunkStored` | tools/src/mkimage/dirent.rs:72-88 | each file block sits at the start of its device block in the finished image |
| `MkImage.FilesInOrder` | tools/src/mkimage/dirent.rs:65-66 | files occupy consecutive, disjoint spans of blocks inside the counted data area |
| `MkImage.ManifestNumbered` | tools/src/mkimage/tree.rs:12-61 | whatever directories and files a manifest adds to the root, no two share an inode number and every number handed out is used |
| `MkImage.WriteTable` | tools/src/mkimage/inode.rs:59-118 | the first pass leaves exactly the image of its planned writes, every directory and file inode and indirect table |
| `MkImage.WriteFileInode` | tools/src/mkimage/inode.rs:78-117 | one file's inode and indirect table are written and the running block number advances by the file's span |
| `MkImage.WriteIndirect` | tools/src/mkimage/inode.rs:96-101 | the table holds the consecutive numbers of the blocks behind it |
| `MkImage.WriteDirInodes` | tools/src/mkimage/inode.rs:70-78 | one inode a directory, each naming one block |
| `MkImage.WriteFileInodes` | tools/src/mkimage/inode.rs:79-118 | all file inodes in order, starting right after the directory blocks |
| `MkImage.WriteBlocks` | tools/src/mkimage/dirent.rs:23-90 | the second pass leaves exactly the image of its planned writes, from the same starting block |
| `MkImage.WriteFileBlocks` | tools/src/mkimage/dirent.rs:63-89 | one file's data skips its table block and advances by the same span as the first pass |
| `MkImage.CopyBlocks` | tools/src/mkimage/dirent.rs:72-78 | blocks copied one by one amount to one contiguous copy, the last one cut at the end of the file |
| `MkImage.WriteDir` | tools/src/mkimage/dirent.rs:37-62 | records are written until the directory's block is full |
| `MkImage.WriteDirent` | tools/src/mkimage/dirent.rs:14-21 | name, inode number, kind and name length land at their offsets |
| `MkImage.WriteDirBlocks` | tools/src/mkimage/dirent.rs:36-62 | one block a directory, in order |
| `MkImage.WriteAllFiles` | tools/src/mkimage/dirent.rs:63-89 | all file blocks in order, starting right after the directory blocks |
| `ImageChecks.Build` | tools/src/mkimage/main.rs:132-199 | a built image, of any size, reads back every file; if its listings are members' and its bitmaps end before the directories, every name resolves; its data bitmap marks exactly the blocks in use if and only if the inode bitmap does not run over past them |
| `ImageChecks.BitmapsExact` | tools/src/mkimage/inode.rs:48-57 | the inode bitmap marks the numbers below the next free one, the unused zero included; a data bit is set exactly when a directory, a file or an indirect table uses the block, or where more than 32768 inodes spill over |
| `ImageChecks.BitmapRightIff` | tools/src/mkimage/inode.rs:48-57 | the data bitmap is right exactly when inodes past the 32768th are no more than the blocks in use |
| `ImageChecks.EmptyFilesOverrun` | tools/src/mkimage/inode.rs:48-57 | the failing case: any manifest of 32768 or more empty files in the root marks blocks nobody uses |
| `ImageChecks.CountBlocks` | tools/src/mkimage/main.rs:136-146 | the counting loops give the number of blocks both passes use |
| `ImageChecks.EveryBlockOwned` | tools/src/mkimage/main.rs:136-146 | every block counted for the image is used by something |
| `ImageChecks.OwnersDistinct` | tools/src/mkimage/dirent.rs:65-66 | no block is used twice and none outside the count is used |
| `ImageChecks.SetBits` | tools/src/mkimage/inode.rs:49-52 | setting bits one at a time raises exactly the `count` bits from the block's start on, wherever they end |
| `ImageChecks.WriteBitmaps` | tools/src/mkimage/inode.rs:48-57 | over a blank image, for any two counts, the bits set are exactly the two runs |
| `Directories.NamesResolve` | kernel/src/fs/onyxfs/lookup/resolve.rs:14-67 | in a finished image a search for any name in any directory, through the directory's inode and block, gives the inode of the first record with that name, or no entry |
| `Directories.DirectoryReads` | core/src/formats/onyxfs_fmt/dirent.rs:18-54 | every record that fits a directory's block decodes to its name (cut to 32 bytes), its inode number and the kind byte the tool stores |
| `Directories.DirInodeStored` | tools/src/mkimage/inode.rs:70-78 | a directory's inode, as the kernel reads it, is a directory whose direct window holds its one block |
| `Directories.DirBlockUntouched` | tools/src/mkimage/dirent.rs:36-62 | both passes leave a directory's block alone outside its records |
| `Directories.ManifestListed` | tools/src/mkimage/tree.rs:12-61 | whatever a manifest adds, every record of every directory names a member |
| `Directories.Lookup` | kernel/src/fs/onyxfs/lookup/resolve.rs:14-67 | the nested loops over direct window and slots compute the search, with its errors |
| `Directories.ScanBlock` | kernel/src/fs/onyxfs/lookup/resolve.rs:45-63 | the slot loop finds the first used slot with the name |
| `ImageChecks.PassesAgreeV1Iff` | tools/src/mkimage/inode.rs:81-84 | in a version 1 image the passes agree on where a file starts exactly when no earlier file has more than 10 blocks |
| `OnyxFs.InodeRoundTrip` | core/src/formats/onyxfs_fmt/inode.rs:33-58 | an inode written by the tool, with any number of direct blocks up to ten, decodes as the kernel decodes it to the same fields, with root as owner, the build time in all three stamps and zero everywhere else |
| `OnyxFs.WriteInode` | tools/src/mkimage/inode.rs:18-46 | the record is filled field by field and stored at its offset |
| `OnyxFs.Read` | kernel/src/fs/onyxfs/read.rs:8-100 | the block loop computes the recursive meaning of a read, stops short at an unmapped block and reports device errors |
| `OnyxFs.HeldFileReads` | kernel/src/fs/onyxfs/read.rs:35-96 | on an image that holds a file, a read returns exactly the requested bytes that exist and are reachable |
| `OnxConvert.ConvertPreserves` | tools/src/elf2onx/convert.rs:89-170 | for every well-formed list of loadable headers the emitted file parses, carries entry, ring and all fields, and gives the loader exactly the ELF bytes |
| `OnxConvert.FileLoads` | kernel/src/proc/onx/load.rs:22-163 | the kernel accepts a converted file exactly when the headers' addresses, sizes and entry are acceptable, and then maps what the ELF file described, segment for segment and byte for byte |
| `OnxConvert.EveryHeaderLoadsIff` | tools/src/elf2onx/convert.rs:52-71 | for an ELF file whose headers are well formed and acceptable, convert and load gives all of them exactly when there are at most 256 (version 2) or 8 (version 1) |
| `OnxConvert.LoadProgram` | kernel/src/proc/onx/load.rs:22-163 | the loader with its checks and its segment loop |
| `OnxConvert.ValidateImage` | kernel/src/proc/onx/load.rs:56-74 | accepts exactly images whose segments lie in user memory and whose entry lies in one of them |
| `OnxConvert.FileParses` | tools/src/elf2onx/convert.rs:118-170 | the emitted file parses back to exactly the header that was built |
| `OnxConvert.PayloadsDisjoint` | tools/src/elf2onx/convert.rs:118-128 | payload ranges of distinct segments do not overlap |
| `OnxConvert.PlacedRange` | tools/src/elf2onx/convert.rs:118-128 | each segment's recorded offset is where its payload is in the file |
| `OnxConvert.LoadMeaning` | tools/src/elf2onx/convert.rs:89-102 | the stored payload means the segment's file bytes, whether kept raw or compressed |
| `OnxConvert.Convert` | tools/src/elf2onx/convert.rs:14-170 | the whole conversion succeeds exactly on a valid ELF header, and loading what it emits is loading the kept headers from the ELF file |
| `OnxConvert.CollectLoads` | tools/src/elf2onx/convert.rs:48-116 | the program-header scan keeps loadable segments in order up to the limit |
| `OnxConvert.CollectLoad` | tools/src/elf2onx/convert.rs:72-115 | one segment is sliced out, and compressed only when asked to and shorter |
| `OnxConvert.PlaceLoads` | tools/src/elf2onx/convert.rs:118-128 | the running offset gives each segment its place |
| `OnxConvert.FindCompressed` | tools/src/elf2onx/convert.rs:130-140 | the compressed flag is set exactly when some segment is compressed |
| `OnxConvert.WritePayloads` | tools/src/elf2onx/convert.rs:168-170 | payloads are appended in order |
| `OnxFormat.HeaderRoundTrip` | core/src/formats/header.rs:42-146 | parsing a serialised header, with anything behind it, recovers every field and segment |
| `OnxFormat.Version1RecoversIff` | core/src/formats/header.rs:113-127 | version 1 keeps the segment list exactly when it has at most eight entries and none is compressed |
| `OnxFormat.SegmentRoundTrip` | core/src/formats/segment.rs:25-80 | a segment record parses back, both versions |
| `OnxFormat.TableAt` | core/src/formats/header.rs:129-146 | record `i` of the segment table is segment `i` |
| `OnxFormat.HeaderToBytesV2` | core/src/formats/header.rs:129-146 | the serialiser refuses a wrong or too large segment count and otherwise emits the header |
| `OnxFormat.HeaderToBytesV1` | core/src/formats/header.rs:113-127 | version 1 emits at most eight segments |
| `OnxFormat.HeaderFromBytes` | core/src/formats/header.rs:42-111 | the parsing loop computes the parse, with its refusals |
| `OnxFormat.SegmentToBytes` | core/src/formats/segment.rs:57-80 | filling the record byte field by byte field gives the record |
| `Rle.ExpandCompress` | tools/src/elf2onx/compress.rs:1-45 | decoding the tokens of the encoder gives the input back, for every input |
| `Rle.CompressBound` | tools/src/elf2onx/compress.rs:2-3 | the output is at most n + ceil(n/128) bytes, so within the n + n/128 + 2 allocated |
| `Rle.CompressBoundIsTight` | tools/src/elf2onx/compress.rs:2-3 | for every length n some input needs exactly n + ceil(n/128) bytes |
| `Rle.RleCompress` | tools/src/elf2onx/compress.rs:1-45 | the in-place encoder stays inside its buffer and its output decodes to the input; the empty-literal fallback is never taken |
| `Rle.EmitPacket` | tools/src/elf2onx/compress.rs:7-42 | one turn of the loop writes one packet and consumes the bytes it stands for |
| `Rle.RunLength` | tools/src/elf2onx/compress.rs:8-12 | the run counter finds the longest run up to 128 |
| `Rle.LiteralLength` | tools/src/elf2onx/compress.rs:19-31 | a literal stops at 128 bytes or where a run of three starts |
| `Rle.RleDecompress` | kernel/src/fs/onyxfs/compress.rs:83-111 | a well-formed stream that fits is decoded whole; any nonzero result is the meaning of a prefix of whole packets |
| `Rle.DecodePacket` | kernel/src/fs/onyxfs/compress.rs:87-108 | a packet is decoded exactly when its input is complete and its output fits |
| `Rle.LoadExpandMeaning` | kernel/src/proc/onx/segments.rs:81-131 | the loader's decoder gives the meaning of the stream, cut to the segment's size |
| `NetLock.StepRefines` | kernel/src/net/lock.rs:89-111 | every atomic step of every hart is a step of a recursive mutex by that hart |
| `NetLock.RunRefines` | kernel/src/net/lock.rs:89-111 | every interleaving of any number of harts refines the mutex |
| `NetLock.MutualExclusion` | kernel/src/net/lock.rs:89-111 | two harts inside are the same hart, and the spinlock is taken |
| `NetLock.FastPathIsSound` | kernel/src/net/lock.rs:89-96 | only a hart that already holds the lock takes the owner fast path |
| `NetLock.DepthIsNesting` | kernel/src/net/lock.rs:89-111 | while a hart holds the lock, `depth` is its nesting count and `owner` its id |
| `NetLock.ReleasedExactlyAtZero` | kernel/src/net/lock.rs:105-111 | the spinlock falls exactly in the step that ends the last level |
| `NetLock.NoSelfDeadlock` | kernel/src/sync.rs:58-73 | a holder never spins, and a free lock is taken at the next swap |
| `NetLock.HolderCanRelease` | kernel/src/net/lock.rs:89-111 | from every locked state the holder alone can free the lock, in a bounded number of steps |
| `NetLock.ReachableLockCanBeFreed` | kernel/src/net/lock.rs:89-111 | no reachable state is deadlocked |
| `PageBudget.BudgetHolds` | kernel/src/proc/limits.rs:65-84 | granted pages never exceed 32768, and with nothing in flight the counter is exact |
| `PageBudget.ReleaseNeverSaturates` | kernel/src/proc/limits.rs:75-84 | the saturating subtraction never saturates |
| `PageBudget.RefusedIff` | kernel/src/proc/limits.rs:65-72 | a take is refused exactly when outstanding pages plus bumps not yet rolled back fill the budget |
| `PageBudget.TransientRefusal` | kernel/src/proc/limits.rs:65-72 | a reachable state in which a take is refused although a page is free |
| `PageBudget.RunKeepsInv` | kernel/src/proc/limits.rs:65-84 | the accounting invariant holds over every run |
| `PageBudget.CanGrant` | kernel/src/proc/limits.rs:65-72 | every number of pages up to the limit can be granted |
| `Lemire.Uniform` | kernel/src/drivers/entropy/prng.rs:91-107 | every result below the bound is produced by exactly floor(2^32 / bound) of the draws |
| `Lemire.KeptDraws` | kernel/src/drivers/entropy/prng.rs:91-107 | the draws kept for a result are one unbroken block |
| `Lemire.PreCheckIsExact` | kernel/src/drivers/entropy/prng.rs:97-105 | the cheap pre-check accepts exactly the same draws as the full test |
| `Lemire.RejectedDraws` | kernel/src/drivers/entropy/prng.rs:99-104 | the set of rejected draws has exactly 2^32 mod bound members, fewer than the bound |
| `Lemire.HighInRange` | kernel/src/drivers/entropy/prng.rs:96-107 | every draw gives a value under the bound |
| `Lemire.Below` | kernel/src/drivers/entropy/prng.rs:91-107 | the redraw loop returns the value of the first accepted draw; bound zero returns zero |
| `Ring.RunRefinesFifo` | core/src/ringbuf.rs:20-44 | every sequence of writes and reads hands out the same bytes as a bounded FIFO, across counter wrap-around |
| `Ring.CapacityIff` | core/src/ringbuf.rs:1-6 | writing appends from every counter position exactly when the capacity divides 2^32 |
| `Ring.Clobbered` | core/src/ringbuf.rs:25-27 | for any other capacity, a write that overwrites its own first byte |
| `Ring.ApplyRefines` | core/src/ringbuf.rs:20-44 | one call on the ring is one call on the queue |
| `Ring.SlotsDistinct` | core/src/ringbuf.rs:25-25 | within one capacity no two places share a slot |
| `Ring.RingWrite` | core/src/ringbuf.rs:21-31 | the accepted prefix is what fits; the queue grows by exactly that prefix when the capacity divides 2^32 |
| `Ring.RingRead` | core/src/ringbuf.rs:34-44 | the oldest bytes leave in order and the rest of the destination is untouched |
| `Console.StreamsPreserved` | kernel/src/drivers/virtio_console/xfer.rs:19-73 | over every interleaving with the device, callers get the delivered bytes in order and the device sends what callers wrote in the calls not refused, none lost or repeated |
| `Console.AcceptedIsTaken` | kernel/src/drivers/virtio_console/xfer.rs:53-73 | over every run the accepted bytes are those of the writes that were not refused, one buffer of each at most, in order |
| `Console.BuffersAreOwned` | kernel/src/drivers/virtio_console/xfer.rs:1-2 | the driver touches a buffer only while the device does not own it |
| `Console.StepKeepsInv` | kernel/src/drivers/virtio_console/xfer.rs:19-73 | every driver and device step keeps both streams and both owners |
| `Console.RunKeepsInv` | kernel/src/drivers/virtio_console/xfer.rs:19-73 | and so does every run |
| `Console.InitInv` | kernel/src/drivers/virtio_console/mod.rs:74-81 | the state after `init` satisfies the invariant, with the receive buffer posted |
| `Console.ReadReturns` | kernel/src/drivers/virtio_console/xfer.rs:19-40 | a read returns as many pending bytes as fit, none exactly when none are pending, and reposts the buffer exactly when drained |
| `Console.WriteAccepts` | kernel/src/drivers/virtio_console/xfer.rs:53-73 | a write accepts up to one buffer, and is refused exactly while the device owns the previous one |
| `Trap.NestedTrapsTransparent` | kernel/src/arch/asm/trap_asm.rs:12-161 | a program interrupted in user or kernel mode resumes unchanged, and the stack above its frame with it, after a handler that stores anywhere outside the stack in use and is itself interrupted to any depth, on either register width |
| `Trap.TrapIsTransparent` | kernel/src/arch/asm/trap_asm.rs:12-161 | trap, entry, any handler that keeps its frame, return: all registers but tp, pc, mode, page table, sscratch and the interrupt enable are back |
| `Trap.RunKeeps` | kernel/src/arch/asm/trap_asm_32.rs:33-157 | nested traps and handlers storing anywhere outside the stack in use give back stack pointer, hart and every stack word above, with sscratch zero in the kernel |
| `Trap.EntryFrames` | kernel/src/arch/asm/trap_asm.rs:12-60 | entry saves the whole context in the frame and touches no other stack word |
| `Trap.ReturnResumes` | kernel/src/arch/asm/trap_asm.rs:63-161 | return from an intact frame resumes its context; tp stays the running hart's |
| `Trap.Entered` | kernel/src/arch/asm/trap_asm.rs:13-22 | the stack switch for user and kernel mode |
| `Trap.CsrsSaved` | kernel/src/arch/asm/trap_asm.rs:50-58 | sepc, sstatus (with SUM on) and satp are saved |
| `Trap.CsrsLoaded` | kernel/src/arch/asm/trap_asm.rs:125-156 | control state restored with SIE held off and sscratch set for the mode returned to |
| `Trap.StoreBlock` | kernel/src/arch/asm/trap_asm.rs:23-49 | a block of register stores fills exactly its slots |
| `Trap.LoadBlock` | kernel/src/arch/asm/trap_asm.rs:64-123 | a block of register loads changes exactly its registers |
| `Sha256.Hasher.Update` | core/src/crypto/sha256.rs:129-139 | feeding bytes keeps chaining value and buffer what the whole message so far requires |
| `Sha256.Hasher.Final` | core/src/crypto/sha256.rs:141-165 | the digest is the fold of the compression function over the padded message (FIPS 180-4, sections 5.1.1 and 6.2) |
| `Sha256.Hasher.PadZeros` | core/src/crypto/sha256.rs:148-155 | the padding loop stops after the least number of zero bytes, at most one extra block |
| `Sha256.HashPieces` | core/src/crypto/sha256.rs:129-165 | any way of cutting a message into updates gives the digest of the whole |
| `Sha256.Hash` | core/src/crypto/sha256.rs:167-171 | the one-shot form |
| `Sha256.CompressBlock` | core/src/crypto/sha256.rs:62-115 | schedule and round loops compute the standard's compression |
| `Sha256.Expand` | core/src/crypto/sha256.rs:63-81 | the schedule loop computes the standard's recurrence |
| `Shadow.UpdateThenVerifyIff` | init/src/auth/shadow/shadow_io.rs:48-113 | setting a password then verifying it succeeds exactly for names without colon or newline of at most 43 bytes whose entry ends within the 4096-byte buffer; otherwise the account is rejected |
| `Shadow.AttemptAfter` | init/src/auth/shadow/shadow_core.rs:105-121 | what verification says of any password after an update: accepted for the stored hash, accepted as legacy for the single-round hash, else rejected |
| `Shadow.OtherUnchangedIff` | init/src/auth/shadow/shadow_io.rs:48-113 | from the file and the names alone: another account's entry is unchanged exactly when, moved by the new lines in front of it, it still ends within the buffer, or, if there was none, when the new name does not spell one inside the buffer |
| `Shadow.ColonNamesAnother` | init/src/auth/shadow/shadow_io.rs:90-113 | the failing case: updating a name that holds a colon creates an entry for the name before the colon |
| `Shadow.LookupAfter` | init/src/auth/shadow/shadow_io.rs:48-113 | a lookup after an update sees the first line of the account in the rewritten file, cut at 4096 bytes |
| `Shadow.UpdateKeepsOthers` | init/src/auth/shadow/shadow_io.rs:48-113 | for a name without colon or newline and old lines that still fit at their new length, every other account's entry is unchanged |
| `Shadow.CheckedNameWorks` | init/src/useradd.rs:187-197 | a name the account tools accept, in a file with room: the new password works and no other account changes |
| `Shadow.DeleteExact` | init/src/auth/shadow/shadow_io.rs:146-179 | deletion removes all of the account's lines and no other account's entry |
| `Shadow.UpdateFile` | init/src/auth/shadow/shadow_io.rs:48-113 | the line loop rewrites the file line by line, each matching line with its own salt, appends a missing account, and cuts at 4096 bytes |
| `Shadow.DeleteFile` | init/src/auth/shadow/shadow_io.rs:146-179 | the line loop keeps other accounts' lines |
| `Shadow.ReadEntry` | init/src/auth/shadow/shadow_core.rs:60-84 | the lookup loop finds the first line of the account |
| `Shadow.LinesOfJoin` | init/src/auth/shadow/shadow_io.rs:54-60 | splitting undoes joining |
| `Shadow.JoinOfLines` | init/src/auth/shadow/shadow_io.rs:54-60 | joining the lines gives the file back, with the last newline supplied if it was missing |
| `Shadow.NeverFound` | init/src/auth/shadow/shadow_core.rs:66-81 | a name with a colon or newline is found in no file |
| `Shadow.EntryShape` | init/src/auth/shadow/shadow_core.rs:128-151 | what a line stores for short, long and overlong names |
| `Kdf.FieldRoundTrip` | core/src/crypto/kdf.rs:119-169 | a formatted field parses back, whatever salt and hash |
| `Kdf.HexRoundTrip` | core/src/crypto/kdf.rs:57-84 | hexadecimal decoding undoes encoding |
| `Kdf.HashLoop` | core/src/crypto/kdf.rs:23-33 | the buffer loop computes the iterated hash |
| `Kdf.LegacyLoop` | core/src/crypto/kdf.rs:39-54 | the single-round scheme's buffer holds password and salt, hashed once |
| `Kdf.ClassifyPassword` | core/src/crypto/kdf.rs:183-191 | the classification is by the iterated hash first, then the legacy one, else no match |
| `Kdf.ConstTimeEqual` | core/src/crypto/kdf.rs:87-96 | the comparison is equality |
| `Checksum.VerifiesIff` | kernel/src/net/checksum.rs:31-49 | for data of any length, the stored field makes the sum verify exactly when it is the computed checksum, or all ones for a computed zero |
| `Checksum.CorruptionDetected` | kernel/src/net/checksum.rs:31-49 | changing any single byte of verified data, of any length, makes verification fail |
| `Checksum.PseudoIsPlain` | kernel/src/net/checksum.rs:35-49 | the transport checksum is the plain one over pseudo-header and segment |
| `Checksum.AcceptedIff` | kernel/src/net/checksum.rs:23-28 | a sum is accepted exactly when it is a nonzero multiple of 65535 |
| `Checksum.FoldStep` | kernel/src/net/checksum.rs:24-26 | one fold keeps the value modulo 65535 and makes it smaller |
| `Checksum.RawSum` | kernel/src/net/checksum.rs:10-21 | the wrapping word loop computes the positional sum modulo 2^32 |
| `Checksum.Fold` | kernel/src/net/checksum.rs:23-28 | the fold loop ends with the residue, complemented |
| `Checksum.Compute` | kernel/src/net/checksum.rs:31-33 | the plain checksum |
| `Checksum.Pseudo` | kernel/src/net/checksum.rs:39-49 | the transport checksum |
| `Ipv4.SentIsReceived` | kernel/src/net/ip.rs:77-98 | behind any link header and with any padding, a built datagram is received with protocol, addresses and payload, exactly when its length fits the field |
| `Ipv4.SendPacket` | kernel/src/net/ip.rs:42-98 | a payload is refused exactly above 1480 bytes and then takes no identifier; every packet accepted is received as sent |
| `Ipv4.DamageDropped` | kernel/src/net/ipv4.rs:13-26 | a header damaged in one byte after the first is dropped |
| `Ipv4.FirstByteDamage` | kernel/src/net/ipv4.rs:13-26 | a damaged first byte is dropped for a wrong version; a wrong header length gets through exactly when it lies within the packet and the words it adds or drops make up for it |
| `Ipv4.LengthDamageAccepted` | kernel/src/net/ipv4.rs:13-26 | such a case: sent packets whose damaged header length is accepted |
| `Ipv4.Parse` | kernel/src/net/ipv4.rs:13-26 | accepted lengths lie inside the frame |
| `Ipv4.Build` | kernel/src/net/ip.rs:77-98 | the buffer is filled field by field, checksum last |
| `Ipv4.EchoReply` | kernel/src/net/ipv4.rs:28-36 | exactly valid echo requests are answered, with same length, bytes 4 onward kept, and a verifying checksum |
| `NetContext.CardsIndependent` | kernel/src/drivers/virtio_net/mod.rs:70-81 | after any sequence of transfers, polls, nested contexts and reconfigurations each card is what its own transfers made it |
| `NetContext.Net.RunAll` | kernel/src/net/config.rs:65-134 | any sequence of operations, re-entering each other to any depth, does to the statics what it does to independent cards, with balanced lock depth |
| `NetContext.StaysConsistent` | kernel/src/net/config.rs:65-78 | through all of them the address globals are the active interface's whenever it is configured |
| `NetContext.ContextRestoredFromBoot` | kernel/src/net/config.rs:37-93 | from power-on through the boot seed and any run of sends, polls and reconfigurations: every operation restores the card and addresses it finds, and where the contexts it enters name configured cards, so does everything it runs, at every depth |
| `NetContext.RestoresAtEveryDepth` | kernel/src/net/config.rs:80-93 | one such operation, with every nested one at the point where it runs |
| `NetContext.StaysConfigured` | kernel/src/net/config.rs:112-134 | a configured interface stays configured through any operations, so a route kept in a socket stays good |
| `NetContext.RoutedSendRestores` | kernel/src/net/config.rs:100-108 | every route names a card, configured once any is, so a routed send restores the context at every depth |
| `NetContext.LongestPrefixRoutes` | kernel/src/net/config.rs:19-26 | a destination goes to the configured network with the longest mask, the last of equals; any other to the default interface if it has a gateway; else nowhere |
| `NetContext.ChooseRoute` | kernel/src/net/config.rs:19-26 | the loop over the interface table computes that choice |
| `NetContext.WithRestoresIff` | kernel/src/net/config.rs:80-93 | running any nested work inside a configured interface restores the caller's card, and its addresses exactly when its interface is configured or they agree |
| `NetContext.RestoresIff` | kernel/src/net/mod.rs:61-84 | the law of one call: an operation that does not reconfigure gives back the active card, and its addresses exactly when that interface is configured, nothing else was activated last, or what was agrees |
| `NetContext.PollRestoresIff` | kernel/src/net/mod.rs:61-84 | a poll gives back the addresses exactly when the active interface is configured, none is, or the last configured one has the same |
| `NetContext.Net.SelectDevice` | kernel/src/drivers/virtio_net/mod.rs:70-81 | write-back and reload leave every card's state in place |
| `NetContext.Net.ActivateCard` | kernel/src/net/config.rs:65-78 | selects the card and copies a configured interface's addresses |
| `NetContext.Net.WithInterface` | kernel/src/net/config.rs:83-93 | runs any nested operations on the named card and comes back, on success and on error |
| `NetContext.Net.PollCards` | kernel/src/net/mod.rs:61-84 | the pass over configured cards, each drain re-entering the network code, or over the one active card when none is configured |
| `NetContext.Net.ApplyConfig` | kernel/src/net/config.rs:112-134 | stores and activates a configuration, or refuses a bad index, with balanced lock depth |
| `NetContext.Net.SeedBoot` | kernel/src/net/config.rs:39-49 | the lease becomes the addresses and the configuration of the active card |
| `NetContext.Net.Snapshot` | kernel/src/net/config.rs:136-156 | returns the interface, its hardware address, the default route and the card count, with the lock released on every path |
| `Journal.AtomicIff` | kernel/src/fs/onyxfs/journal.rs:53-62 | an update, from any head and with repeated targets, is all-or-nothing at every crash point exactly when every write that fits the journal stores its block's first or last contents, and at most one block changes or those writes change none |
| `Journal.AtomicDistinctIff` | kernel/src/fs/onyxfs/journal.rs:53-62 | for an update that fits and distinct blocks that is: at most one write changes its block |
| `Journal.KernelCrash` | kernel/src/fs/onyxfs/journal.rs:38-124 | after a crash anywhere in a transaction recovery leaves the data as the in-place writes had left it |
| `Journal.JournalIsTransparent` | kernel/src/fs/onyxfs/journal.rs:66-80 | over every history of transactions, refused and abandoned ones, crashes and interrupted recoveries, the data is what the in-place writes made it: no stale entry is ever replayed |
| `Journal.RefusedUntilCommit` | kernel/src/fs/onyxfs/journal.rs:38-62 | an update is refused exactly when its writes do not fit behind the head; it then fills the journal, and every later update is refused until a commit or a mount |
| `Journal.RecoveryIsCrashSafe` | kernel/src/fs/onyxfs/journal.rs:137-189 | however often recovery is interrupted, the run that completes gives the same data |
| `Journal.RecoveryRestarts` | kernel/src/fs/onyxfs/journal.rs:166-186 | recovery cut after any of its own writes and run again gives the same data |
| `Journal.WriteAheadIsAtomic` | kernel/src/fs/onyxfs/journal.rs:8-18 | with the documented order the same recovery is all-or-nothing, for writes that leave the last 8 bytes of a block alone |
| `Journal.RecoverCommitted` | scripts/onyxfs_journal_inject.c:104-133 | a committed journal is replayed whole and cleared |
| `Journal.RecoverTorn` | kernel/src/fs/onyxfs/journal.rs:162-165 | an uncommitted journal changes nothing, and is itself left in place |
| `Journal.RecoverMarked` | kernel/src/fs/onyxfs/journal.rs:162-186 | any log whose scan reaches a commit marker is replayed up to it and zeroed up to it |
| `Journal.RecoveryClearsIff` | kernel/src/fs/onyxfs/journal.rs:126-186 | recovery leaves an empty journal exactly when nothing lies beyond the marker, or there is no marker and it was empty already |
| `Journal.EntryLeftBehind` | kernel/src/fs/onyxfs/journal.rs:162-186 | a reachable history, two crashes, after which recovery has left an entry in the journal |
| `Journal.ReplayIsLast` | kernel/src/fs/onyxfs/journal.rs:167-180 | replay gives each block its last redo and keeps its last 8 bytes |
| `Journal.EntryRoundTrip` | core/src/formats/onyxfs_fmt/journal.rs:30-58 | entry blocks read back as written, and a zeroed block as an empty slot |
| `Journal.Volume.Log` | kernel/src/fs/onyxfs/journal.rs:38-62 | a redo entry is appended, or refused when the journal is full |
| `Journal.Volume.CommitTransaction` | kernel/src/fs/onyxfs/journal.rs:88-124 | the commit issues marker, zeroing from the front, and the marker's zeroing, in that order |
| `Journal.Volume.Recover` | kernel/src/fs/onyxfs/journal.rs:137-189 | recovery issues exactly its replay and clearing writes, and stops at an unreachable block |
| `Journal.Volume.Scan` | kernel/src/fs/onyxfs/journal.rs:150-161 | the scan finds the first commit marker not behind garbage |
| `Journal.Volume.Transaction` | kernel/src/fs/onyxfs/inode/write.rs:34-36 | a caller's log-then-write sequence, from any head, issues the trace the crash lemmas are about, and stops at the first refused entry |
| `Timer.TicksForwarded` | kernel/src/arch/asm/mtrap.rs:50-109 | once a timer is set exactly one of MTIE and STIP is on outside the vector; no tick is early and none is lost |
| `Timer.NeverBelowBoth` | kernel/src/arch/asm/mtrap.rs:65-70 | the comparator is never below both the old and the new deadline while it is rewritten |
| `Timer.StepKeepsInv` | kernel/src/arch/asm/mtrap.rs:50-109 | every step keeps the arming invariant |
| `Timer.ReadClock` | kernel/src/srv/timer_arm.rs:60-72 | a returned reading is a value the clock held during the call; every retry saw the high word change |

## Left out

- MMIO and SoC drivers, syscall wrappers, scheduler, page tables, TCP and UDP sockets, user interface: not modelled.
- Weak memory: atomic operations are sequentially consistent steps.
- `mkimage`: manifest and path handling (a tree is any sequence of additions, each with the parent its path lookup found), the superblock's bytes (its inode-table start and inode count are parameters of the kernel read), and the version 1 image beyond its allocation rule.
- ImageChecks.Build: names are shown to resolve while the data bitmap ends before the directory blocks, which holds up to about ten million data blocks; beyond that unused directory slots are no longer blank.
- MkImage.ManifestNumbered: requires the inode counter to stay within 32 bits, past which the tool's addition would overflow.
- MkImage.WriteTable: requires block numbers to fit 32 bits; the tool's arithmetic would overflow otherwise.
- ImageChecks.BitmapRightIff: speaks of the 32768 data blocks the one-block bitmap covers; bits past it land in the inode table, where they leave every written inode intact but not the spare ones.
- Directories.NamesResolve: one directory at a time, in a block that was blank; children past the hundredth of a directory, which the tool drops, are not found. Splitting a path, symbolic links and version 1 records are not modelled.
- OnxConvert.Convert: a kept program header whose offset lies past the end of the file is outside its contract, where the tool would stop with an error.
- OnxConvert.LoadProgram: page tables, the page budget, stack and heap set-up and running out of memory are not modelled; a mapping is the segment's address, size, flags and bytes, and overlapping segments are not resolved.
- Journal.KernelCrash: block writes are atomic and in order; targets past the end of the medium are ignored, where the driver would report an error.
- Journal.JournalIsTransparent: a volume without a journal area, and a device error between a log entry and its in-place write, are not modelled.
- Journal.WriteAheadIsAtomic: the order it describes is the documented one, not the code's.
- Trap.TrapIsTransparent: `drop_to_user`, the handler's changes to a frame (system calls, signals) and stack exhaustion are not modelled; `sched_switch` is covered as a return from another context's frame.
- Timer.TicksForwarded: one hart; software interrupts and the clock's own overflow are not modelled.
- Console.StreamsPreserved: queue set-up, feature negotiation and interrupt acknowledgement are not modelled.
- NetContext.Net.ApplyConfig: configuration validation and the clearing of sockets and ARP entries are not modelled; a packet transfer is any function of a card's ring state.
- Lemire.Below: takes the generator's outputs as a sequence; xoshiro itself and its seeding are not modelled, and no bound on the number of redraws is stated.
- Shadow.UpdateFile: file I/O, the atomic rename and salt generation are outside the model; the salts drawn are a parameter.
- Kdf.ConstTimeEqual: states the result, not the running time.
- Ring.RingWrite: requires a fill level within the capacity and a capacity below 2^32, as the subtraction in `ring_free` does.
- Ipv4.SendPacket: the choice of next hop, ARP resolution and its failures, and fragmentation are not modelled.
