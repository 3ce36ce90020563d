# A verified model of Magisk's native cores

Dafny models of the parts of Magisk's native code in which state, branching and an unbounded input meet, and proofs
of what they are for. `dafny verify dfyconfig.toml` checks the whole project.

| component | files | main results |
|---|---|---|
| thread pool | `ThreadPool` | safety over every interleaving, no deadlock, every task finishes |
| module overlay | `ModuleTree`, `ModuleOverlay`, `MountSpace`, `ModuleView` | the mounts that are made show the overlay of the modules on the real tree, exactly when kinds and replacements agree; what is visible at each path, said of the entries the modules have there |
| ramdisk archive | `CpioFormat`, `CpioStream`, `Utf8`, `Cpio`, `CpioBackup`, `Patch` | load undoes dump and reads any well-formed records, restore undoes backup, in-place removal refines a pure deletion; each with its exact condition |
| boot image | `BootLayout`, `BootHeader`, `BootFields`, `BootAgreement`, `BootImage`, `BootRepack`, `Lz4Block`, `Lz4Format` | the image holds the files one behind the other; the parser, given the bytes repack wrote, finds its blocks, exactly when the header can tell version and sizes; the block stream round trip |
| policy | `AvTab`, `PolicyRules`, `PolicyXperms`, `PolicyApi`, `XpermApi`, `StatementLexer`, `StatementParser`, `StatementGrammar`, `RuleLoader`, `RuleText` | the hash table implements a map of words, a rule changes exactly what it names, the parser decides a grammar; from the text of rules to each permission of the table |
| denylist, payload | `Denylist`, `Payload` | the index answers as a scan does; one forward pass reads what random access reads |

`Wrappers`, `Bytes`, `Text`, `NameOrder` and `Sums` are shared.

Where the source updates things in place the model does too: classes with `modifies` clauses, loops with invariants,
arrays for buffers. Each such method is proved against a function of its inputs and old state, and what the source
promises is proved about that function. Lists whose order a file system or a hash table decides are taken in
arbitrary order.

Inputs from outside are parameters: the installed packages and whether a database write succeeds (`Denylist`), whether an
input can seek and what a decompressor returns (`Payload`), the block compressor (`Lz4Block`, any pair of inverse
functions that meets the size bound of LZ4), the xz coder (`Cpio`), the hash function (`AvTab`), the real and module
directory trees (`MountSpace`), the order of thread steps and wake-ups (`ThreadPool`), the bytes of the old image and of
the files that replace its parts (`BootRepack`). Words and bitmaps of the policy are sets of bit numbers. Memory of the
policy table is explicit: a node lives at an address, a freed address is in no map, so each use of a node is proved to be
a use of a live one.

## Where the code is not what one might expect

The model follows the code. In each case the exact condition for the expected behaviour is proved.

- A task can be put into the pool's slot when its notification reaches nobody, because every idle thread has just timed
  out. Nothing is lost: the three core threads never time out (`ThreadPool.PutIsAttended`).
- A file of a module over a real directory, or the reverse, stays invisible when the parent need not be rebuilt
  (`ModuleOverlay.CommittedIsOverlay`, `KindsAgree`).
- Below a directory that one module replaces, a directory is bound from that module as it is: files that other modules
  put there are missing, whiteouts and further `.replace` files show as files (`ModuleOverlay.BuiltIsOverlay`,
  `MountSpace.ReplaceHidesOthers`).
- `restore` after a `backup` that recorded no difference empties the archive, and new entries whose names are empty or
  not in normal form stay. A saved entry is lost when it is kept uncompressed and its name is one that restore skips,
  ends in `.xz` while its data decodes, or is that of another entry with `.xz` added (`CpioBackup.RestoreAfterBackup`,
  `CpioBackup.MisreadExample`).
- Removing an option can join the bytes around it to another one, which stays (`Patch.JoinExample`,
  `Patch.PatchedIsFree`).
- A write of no bytes while the LZ4 encoder's 32-bit counter is 0 makes it emit its magic once more, which ends the
  decoder at once, or is an error in legacy form if nothing follows; an LG stream whose size is the magic number is an
  error (`Lz4Block.CopyThrough`). The counter wraps, so this can happen again at each 4 GiB. The scan of `check_fmt_lg`
  need not end, because its 32-bit offset wraps too (`Lz4Block.StallExample`, `Lz4Block.EndsInTime`).
- A payload ZERO operation clears as many bytes as it should clear blocks (`Payload.ZeroClearsBytes`). Data that starts
  before the end of earlier data is an error on a pipe but not on a file (`Payload.ExtractOperations`).
- When a package is reinstalled under another app id, removing it leaves its old index entry, and adding another process
  indexes it twice (`Denylist.RemoveKeepsIndex`, `Denylist.AddAgainKeepsIndex`).
- A ramdisk header of MediaTek images is copied even when there is no ramdisk, and then no padding follows it; the sizes
  of the extra block and of recovery_dtbo are not reset when their files are gone (`BootRepack.StrayHeaderExample`,
  `BootRepack.StaleSizeExample`). The extra size of a version 0 header is the field that tells the version, so an extra
  block of one to four bytes makes the parser take the new header for another version (`BootHeader.SelectionStays`,
  `BootRepack.ExtraIsVersionExample`). When a page is smaller than the header the blocks begin within it, and the header,
  which is copied last and as a whole, overwrites them (`BootRepack.Repack`, `BootRepack.SmallPageExample`).
- The numbers of `allowxperm` and its kin are written with `0x` but read as decimal numbers, or as 0 if that fails
  (`StatementLexer.HexLiteral`). The comment on the grammar says that a bare 0 clears everything; the code grants
  everything. Empty braces, and a star anywhere in braces, stand for everything (`StatementGrammar.ParserDecidesGrammar`).
- `~{…}` is applied range by range, each discarding the one before, so only the last range is left out
  (`PolicyXperms.ListOfRanges`). A range that spans several drivers stands for all of each (`PolicyXperms.RangeIsExact`).
- `allow *` goes through attributes only, so a type without attributes gains nothing
  (`PolicyRules.WildcardOverAttributes`).

## Model

| member | source | states |
|---|---|---|
| ThreadPool.ExpiringMeansFull | native/src/core/thread.rs:28-65 | a live thread that may time out implies more than three live threads, three of them core threads |
| ThreadPool.PutIsAttended | native/src/core/thread.rs:67-93 | after a task is put into the empty slot some thread is neither asleep nor timed out, even if the notification reached nobody |
| ThreadPool.InvStep | native/src/core/thread.rs:28-93 | every step of a worker or a submitter keeps all of: exact counters, each task in exactly one place, a full slot is attended, an empty slot leaves no waiting submitter asleep |
| ThreadPool.InvRun | native/src/core/thread.rs:28-93 | so does every run |
| ThreadPool.PoolIsSafe | native/src/core/thread.rs:28-93 | all of that in every state reachable from the empty pool by any interleaving, with time-outs and spurious wake-ups; of the threads the first three, and never more, wait without a time limit, and there are as many tasks as were submitted |
| ThreadPool.OwnStepsDescend | native/src/core/thread.rs:28-93 | each step of a worker or submitter, and each time-out, lowers a weight; submissions and spurious wake-ups do not count |
| ThreadPool.NoDeadlock | native/src/core/thread.rs:28-93 | a state that satisfies the invariant and has unfinished tasks has a step that is no submission, time-out or spurious wake-up |
| ThreadPool.EveryTaskFinishes | native/src/core/thread.rs:28-93 | runs of such steps and time-outs are bounded, and one that no such step can extend has finished every task once |
| ModuleTree.Collect | native/src/core/module.rs:214-260 | collecting a directory in any order of its entries gives the one merged tree: at each path what was there stays, nothing is below what is no directory, anything else is what the directory has there -- a directory, a mark for a whiteout device, a link to the same target, the file where the module is mounted |
| ModuleTree.CollectModules | native/src/core/module.rs:853-876 | after the loop over the modules each path has what the first module with an entry there asks for, unless an earlier module took a place on the way to it for something that is no directory, and nothing where no module has an entry; said of the modules' own trees |
| ModuleTree.MergeLook | native/src/core/module.rs:214-260 | path by path: what was there stays, nothing appears below a non-directory, all else comes from the new directory |
| ModuleTree.UnionIsSupplied | native/src/core/module.rs:853-876 | the union shows at a path only what some module supplies there |
| ModuleTree.EarlierWins | native/src/core/module.rs:853-876 | what a prefix of the modules shows, or blocks, later modules do not change |
| ModuleTree.FirstSupplierWins | native/src/core/module.rs:853-876 | each path resolves to the first module that supplies it, or to nothing if the modules before it put a non-directory at a proper prefix |
| ModuleTree.FirstEntryDecides | native/src/core/module.rs:214-260 | the same for the union as a function: whiteout device, link and file of the first module give a whiteout, a link to that target and the file at its mount path |
| ModuleTree.TakenIsBlocked | native/src/core/module.rs:214-260 | where a path is blocked, said of the modules' own trees alone: iff the first entry for some place on the way to it is no directory and is not itself blocked |
| ModuleTree.NoEntryNothing | native/src/core/module.rs:853-876 | where no module has an entry the union has none |
| ModuleTree.LeafHidesBelow | native/src/core/module.rs:214-260 | below such a non-directory the union shows nothing, whatever later modules supply |
| ModuleOverlay.InPlaceChild | native/src/core/module.rs:266-336 | when a directory is not rebuilt, each child is a directory or file over an existing entry that is no link, so the error arm is not reached |
| ModuleOverlay.BuiltIsOverlay | native/src/core/module.rs:338-432 | what a rebuild makes visible is the overlay iff each directory bound inside a replaced directory shows by itself what the modules ask for there |
| ModuleOverlay.MirrorsExactly | native/src/core/module.rs:353-363 | that is checked entry by entry on the bound directory: it has exactly the names, files and links the overlay would show |
| ModuleOverlay.CommittedIsOverlay | native/src/core/module.rs:286-432 | what is visible after commit equals the overlay if and only if no directory meets a file in place and the replacements agree |
| ModuleOverlay.MatchingKindsAgree | native/src/core/module.rs:286-336 | that condition holds when every node matches the kind of an existing target that is no link |
| ModuleOverlay.RootIsOverlay | native/src/core/module.rs:286-336 | a partition root drops the children that would need it rebuilt and shows the overlay of the rest, with the same condition |
| ModuleOverlay.OverlayIsLocal | native/src/core/module.rs:338-432 | at each path the virtual tree reaches, the overlay is that of the node found there on the real subtree found there, or on nothing below a replaced directory |
| ModuleOverlay.UnmentionedIsMirrored | native/src/core/module.rs:338-432 | a name the modules do not mention shows the real subtree, or nothing in or below a replaced directory |
| ModuleOverlay.LeavesWin | native/src/core/module.rs:338-432 | files and links of modules win and whiteouts vanish, at every path of the virtual tree |
| ModuleOverlay.RebuildIsIdentity | native/src/core/module.rs:338-432 | rebuilding a directory with no children of modules reproduces it, as the overlay says |
| MountSpace.OwnTreeMirrors | native/src/core/module.rs:353-363 | a bound directory that comes from the replacing module alone is right iff it has no whiteout and no `.replace` below |
| MountSpace.MountSpace.CommitTmpfs | native/src/core/module.rs:338-432 | the tree built step by step in the worker directory is the specified build of the node over the real path |
| MountSpace.MountSpace.CommitLeaf | native/src/core/module.rs:379-432 | a node that is not a directory is placed, bound or left out as that build says |
| MountSpace.MountSpace.MirrorEntry | native/src/core/module.rs:338-378 | mirroring one real entry places what that entry shows |
| MountSpace.MountSpace.Retain | native/src/core/module.rs:286-310 | the first pass decides whether the directory is rebuilt, and at a root which children are dropped |
| MountSpace.MountSpace.Commit | native/src/core/module.rs:286-336 | the visible tree changes at the path to the outcome of the node and nowhere else; bind mounts form an antichain; the error arm is counted only for a node that is neither directory nor file |
| MountSpace.MountSpace.CommitChildren | native/src/core/module.rs:312-326 | the children of a directory that is not rebuilt are committed without ever reaching the error arm |
| MountSpace.MountSpace.ApplyTree | native/src/core/module.rs:897-934 | partitions are split off and every root is committed; no mount hides another |
| MountSpace.AppliedIsOverlay | native/src/core/module.rs:838-934 | end to end: each root that is a directory shows the overlay of what it keeps exactly when kinds and replacements agree, all other entries are as before |
| MountSpace.TwoModules | native/src/core/module.rs:853-876 | the collected tree of a module that replaces a directory and one that puts a file below it |
| MountSpace.ReplaceHidesOthers | native/src/core/module.rs:353-363 | for these two the overlay shows the file and the build an empty directory |
| MountSpace.CollectedSourcesExist | native/src/core/module.rs:214-260 | every file node of the union points at a file its module has |
| ModuleView.OverlayShowsEntry | native/src/core/module.rs:214-432 | the overlay of the collected tree shows at each path the entry of the first module that has one: its own file, a link to the same target, a directory, nothing for a whiteout |
| ModuleView.UnmentionedByModules | native/src/core/module.rs:338-432 | below a directory of the modules, a name no module has shows what is really there, or nothing iff the modules put a .replace file into that directory or one above it |
| ModuleView.MagiskLinkShown | native/src/core/module.rs:379-432 | a link to Magisk itself goes to ./magiskpolicy for supolicy and to ./magisk for the rest |
| ModuleView.RootKeeps | native/src/core/module.rs:286-310 | at a root exactly directories and files that are there already, and not as links, are kept |
| ModuleView.PartitionRoots | native/src/core/module.rs:27-28 | the roots by name: system, and vendor, product and system_ext where the modules have them and they are directories |
| ModuleView.AppliedShowsEntry | native/src/core/module.rs:838-934 | end to end: after the modules are applied, a path below a root shows the entry of the first module that has one there, if the root need not be rebuilt for it and kinds and replacements agree |
| CpioFormat.HexRoundTrip | native/src/boot/cpio.rs:826-836 | a field written in eight hexadecimal digits is read back |
| CpioFormat.HeaderRoundTrip | native/src/boot/cpio.rs:269-310 | each of the thirteen header fields is read back |
| CpioFormat.FindMagic | native/src/boot/cpio.rs:223-261 | the position of the first magic from a position on, if there is one |
| CpioFormat.RecordReadsBack | native/src/boot/cpio.rs:223-310 | a record at an aligned position is read as its name and entry, up to its aligned end |
| CpioFormat.LoadedIsStorable | native/src/boot/cpio.rs:223-261 | whatever bytes are loaded, the archive has no reserved name, NUL, bad UTF-8 or value beyond 32 bits |
| CpioFormat.LoadAfterDump | native/src/boot/cpio.rs:223-310 | loading a dump gives the archive back if and only if it is of that kind |
| CpioFormat.LoadConcatenated | native/src/boot/cpio.rs:223-261 | two dumps with zeros between them load as their union, the second winning |
| CpioStream.LoadStream | native/src/boot/cpio.rs:223-261 | any well-formed records of any program: . and .. and trailers count for nothing wherever they are, and of each other name the last record is its entry, field by field |
| CpioStream.LoadShifts | native/src/boot/cpio.rs:223-261 | reading from an aligned place on is reading what is there, whatever stands before it |
| CpioStream.RecordInFront | native/src/boot/cpio.rs:223-261 | behind a record of an entry or of the directory itself, any data, well formed or not, is read as without it |
| CpioStream.DotInFront | native/src/boot/cpio.rs:237-239 | a record for . or .. in front of any data changes nothing |
| CpioStream.DotBetween | native/src/boot/cpio.rs:237-239 | nor does it between the records of a dump, whatever follows |
| CpioStream.CutRecordFails | native/src/boot/cpio.rs:223-261 | a record that breaks off in its header, its name or its data is an error |
| CpioStream.NoHeaderFails | native/src/boot/cpio.rs:226-233 | too few bytes, another magic or a name length that is no number are errors, each its own |
| CpioStream.NameIsRead | native/src/boot/cpio.rs:234 | a name is read exactly when it is there, ends with its only NUL and is UTF-8; the error is one of two |
| CpioStream.HeaderBytes | native/src/boot/cpio.rs:269-310 | the magic and thirteen fields of eight hexadecimal digits, by byte offsets |
| CpioStream.ParseDigit | native/src/boot/cpio.rs:826-836 | fields are hexadecimal numbers in either case, anything else is an error |
| CpioStream.HexIsLower | native/src/boot/cpio.rs:269-310 | and are written in lower case |
| CpioStream.FieldIsNumber | native/src/boot/cpio.rs:269-310 | in eight digits, and in more exactly when the number needs them |
| CpioStream.DumpedFields | native/src/boot/cpio.rs:269-310 | the thirteen numbers written for each entry, inodes counting from 300000, and for the trailer |
| Utf8.Utf8Exactly | native/src/boot/cpio.rs:234 | a name is accepted exactly when it is the UTF-8 encoding of some characters, as RFC 3629 defines it |
| Text.NormIsNormal | native/src/boot/cpio.rs:843-849 | normalising a path twice is normalising it once |
| Text.NormLaws | native/src/boot/cpio.rs:843-849 | the laws that determine the normal form of every path: joined components stay, slashes in front, behind or doubled do not count |
| NameOrder.LessIsFirstDifference | native/src/boot/cpio.rs:269-310 | the order of names is that of their first difference |
| Cpio.CpioFile.LoadFromData | native/src/boot/cpio.rs:223-261 | the reading loop gives, for any well-formed records in any order, the last entry of each name, passing over records of the directory itself and trailers; for any bytes the specified archive or error |
| Cpio.CpioFile.Dump | native/src/boot/cpio.rs:269-310 | the writing loop writes the records in name order and the trailer |
| Cpio.CpioFile.Rm | native/src/boot/cpio.rs:312-328 | removes the entry of a path, or all below it |
| Cpio.CpioFile.Backup | native/src/boot/cpio.rs:597-694 | the merge of two sorted iterators records exactly the entries that are missing or differ, and the names that are new |
| Cpio.CpioFile.Restore | native/src/boot/cpio.rs:562-595 | unpacking, cleaning and merging compute the restored archive |
| CpioBackup.SaveThenRestore | native/src/boot/cpio.rs:697-733 | the stored form of an entry is restored to its name and whole content iff it is not kept uncompressed under a name ending in `.xz` with data that decodes |
| CpioBackup.SavedKeysDiffer | native/src/boot/cpio.rs:597-694 | different entries that are safe are stored under different names |
| CpioBackup.BackupContents | native/src/boot/cpio.rs:597-694 | what is in the archive after backup: all it had, the backup directory, and in it nothing but stored forms of saved entries and the list |
| CpioBackup.SafeContents | native/src/boot/cpio.rs:597-694 | when all saved entries are safe, the stored form of each is there, and the list is exactly that of the new names |
| CpioBackup.BackupHolds | native/src/boot/cpio.rs:597-733 | by name and mode: .backup is a directory, a saved regular file is in .backup/ compressed, with .xz added to its name, if it can be, anything else as it was |
| CpioBackup.ListHolds | native/src/boot/cpio.rs:597-694 | .backup/.rmlist is a file with every new name that can be listed, separated by NULs |
| CpioBackup.RemovedIs | native/src/boot/cpio.rs:312-328 | removing a path goes by components, and recursively takes what is below it but not what merely starts alike |
| CpioBackup.RestoredBackup | native/src/boot/cpio.rs:562-595 | what restore makes of a backup of safe entries: everything if a difference was recorded, else nothing |
| CpioBackup.UnpackedOwn | native/src/boot/cpio.rs:562-595 | if every saved name is unpacked, then each from its own stored form |
| CpioBackup.UnsafeIsLost | native/src/boot/cpio.rs:562-694 | when a saved entry is not safe, restore does not give the original |
| CpioBackup.MisreadExample | native/src/boot/cpio.rs:562-694 | an archive that does not survive backup and restore |
| CpioBackup.RestoreAfterBackup | native/src/boot/cpio.rs:562-694 | restore after backup gives the original's names and data, and its whole entry wherever it was saved, if and only if a difference was recorded or there is nothing to lose, every new name can be listed, and every saved entry is safe: compressed, or not misread and with a name that nothing else takes |
| Patch.TablesAreLongestFirst | native/src/boot/patch.rs:64-88 | both option tables list longer patterns before their prefixes |
| Patch.MatchIsOption | native/src/boot/patch.rs:4-35 | the matcher finds an option iff there is one, the longest listed, with its value |
| Patch.WholeOption | native/src/boot/patch.rs:4-35 | an option with a value goes as a whole, with a comma before it, up to a blank, a line end, a NUL or the end |
| Patch.RemovePattern | native/src/boot/patch.rs:37-62 | the buffer that is overwritten while it is scanned ends as the kept text of the old buffer, then zeros; the size is that of the kept text |
| Patch.SameSizeMeansUntouched | native/src/boot/patch.rs:37-62 | the size is unchanged iff nothing matched anywhere, and then no byte changed |
| Patch.PatchDropsOptions | native/src/boot/patch.rs:37-88 | the text is cut into kept bytes and whole dropped options, in order; nothing that is kept starts an option |
| Patch.PatchedIsFree | native/src/boot/patch.rs:37-88 | the patched text has an option iff a pattern is made of kept bytes from both sides of a removed option |
| Patch.SeparatedIsFree | native/src/boot/patch.rs:37-88 | it has none when after each removed option comes another, the end, or a byte that is in no pattern |
| Patch.SeparatedTextIsFree | native/src/boot/patch.rs:37-88 | the same said of the text before: it is enough that behind each place where an option starts comes the end, another option, or a byte that is in no pattern |
| Patch.JoinExample | native/src/boot/patch.rs:37-80 | a text whose patched form has an option |
| Patch.PatchVerity | native/src/boot/patch.rs:64-80 | in-place removal of the six verity options, named; the rest of the buffer is zero |
| Patch.PatchEncryption | native/src/boot/patch.rs:82-88 | in-place removal of the three encryption options, named; the rest of the buffer is zero |
| Lz4Block.Chunker.AddData | native/src/base/misc.rs:229-253 | nothing is lost or reordered, chunks come out full, and input remains only if a chunk came out |
| Lz4Block.Chunker.GetAvailable | native/src/base/misc.rs:255-259 | hands out and clears what is buffered |
| Lz4Block.Encoder.WriteAll | native/src/boot/compress.rs:115-130 | whatever the split into writes and however long, the input is the concatenation, full blocks are out, and the magic is written where the counter, modulo 2^32, is 0 |
| Lz4Block.Encoder.Finish | native/src/boot/compress.rs:134-144 | the output is the blocks of the whole input, the magic at its marks, and the trailer |
| Lz4Block.Decoder.Read | native/src/boot/compress.rs:170-214 | each read delivers the next bytes of what is pending, no bytes mean the end |
| Lz4Block.Decoder.ReadToEnd | native/src/boot/compress.rs:170-214 | reads of any sizes together deliver all of it, and the error if there is one |
| Lz4Block.DecodeAfterEncode | native/src/boot/compress.rs:92-214 | decoding the encoder's output gives the input iff no two magics follow each other before the end and, in LG form, the size is not the magic or, in legacy form, not just one magic is at the end |
| Lz4Block.CopyThrough | native/src/boot/compress.rs:79-214 | any writes of any total size through encoder and decoder to reads of any size arrive whole and without error iff each empty write that finds the counter at 0 is behind all data, an LG size is not the magic, and a legacy stream does not end with just one such write |
| Lz4Block.BelowFourGiB | native/src/boot/compress.rs:79-214 | below 4 GiB that means: the first write is not empty and an LG size is not the magic, or nothing is written and it is LG or not just one write |
| Lz4Format.StreamBytes | native/src/boot/compress.rs:92-144 | the bytes of a stream: magic, blocks, and in LG form the length |
| Lz4Format.BlockBytes | native/src/boot/compress.rs:92-113 | each block is up to 8 MiB of the data, compressed, behind its compressed length |
| Lz4Format.DecodeBlocks | native/src/boot/compress.rs:170-214 | whatever follows whole blocks is decoded as without them |
| Lz4Format.OddBlocks | native/src/boot/compress.rs:170-214 | a block that breaks off or cannot be decompressed is an error; a length of zero or beyond what a block can have, or fewer than four bytes, end the stream |
| Lz4Block.CheckFmtLg | native/src/boot/bootimg.cpp:315-330 | whenever the 32-bit scan ends: other data, legacy, or LG if a block that is looked at ends, cut off at 32 bits, beyond the buffer |
| Lz4Block.EndsInTime | native/src/boot/bootimg.cpp:315-330 | the scan ends iff it ends within as many steps as the buffer has offsets; otherwise an offset comes back |
| Lz4Block.ScanFits | native/src/boot/bootimg.cpp:315-330 | it ends while the sums of sizes stay below 2^32, and then the answer is whether a block overruns the buffer |
| Lz4Block.StallExample | native/src/boot/bootimg.cpp:315-330 | a buffer of eight bytes on which it does not end |
| Lz4Block.ScanAdvances | native/src/boot/bootimg.cpp:315-330 | exactly which block sizes keep the 32-bit offset from advancing |
| Lz4Block.EncodedIsRecognised | native/src/boot/bootimg.cpp:315-330 | nonempty legacy output is classified as legacy, LG output as LG when file and data sizes together stay below 2^32; beyond that the trailer no longer overruns |
| BootLayout.Aligned | native/src/boot/bootimg.hpp:348-357 | align_to gives the least multiple that is not smaller |
| BootHeader.Header.SetSize | native/src/boot/bootimg.hpp:359-398 | a size that is written into the bytes of a header is read back in 32 bits, or has no effect and reads 0 if the header variant has no such field; all other fields stay |
| BootHeader.FieldsAreApart | native/src/boot/bootimg.hpp:140-345 | the fields of each header variant lie apart, except that of version 0 which is both extra size and version |
| BootHeader.SelectionStays | native/src/boot/bootimg.cpp:334-405 | after sizes are rewritten the parser selects the same variant iff it is not version 0 with an extra size of 1 to 4; the page size stays |
| BootHeader.HeaderIsDetermined | native/src/boot/bootimg.hpp:359-408 | the sizes, the place of recovery_dtbo, the header size and the bytes that are kept determine a header |
| BootFields.HeadersAreLayouts | native/src/boot/bootimg.hpp:145-331 | the fields of each of the eight headers follow each other without gaps and end where the model says the header ends |
| BootFields.SizesAreFields | native/src/boot/bootimg.hpp:145-408 | each size is read from and written to the field of its name |
| BootFields.NoOtherSizes | native/src/boot/bootimg.hpp:145-408 | no header has a size field that the model does not know, but for the union of version and extra size |
| BootFields.OthersAreFields | native/src/boot/bootimg.hpp:145-408 | so for page size, header version, header size and recovery_dtbo_offset |
| BootFields.VersionsAreSelected | native/src/boot/bootimg.cpp:334-405 | which header is taken for which variant, by the words it is told from |
| BootLayout.ParseBlocks | native/src/boot/bootimg.cpp:483-522 | the offsets of the nine blocks, and failure exactly when one would end beyond the image |
| BootLayout.BlocksAreOrdered | native/src/boot/bootimg.cpp:488-522 | for all sizes the blocks are in order, disjoint and on pages |
| BootAgreement.LayoutAgrees | native/src/boot/bootimg.cpp:483-527 | for any nine pieces written behind a header, the parser derives where each was written and its bytes iff the header has every size and a stray ramdisk header does no harm |
| BootAgreement.FrontAgrees | native/src/boot/bootimg.cpp:1006-1014 | when the front of an image is overwritten, the blocks are still found iff they were and each byte that lands in a block is the one that was there |
| BootRepack.Repacker.WriteKernel | native/src/boot/bootimg.cpp:763-812 | the kernel of the file, or the old one, and at once behind it the device tree of the file, both behind a vendor header and padded; the recorded size is the sum of their lengths |
| BootRepack.Repacker.WriteVendorRamdisks | native/src/boot/bootimg.cpp:823-848 | the ramdisks one after the other and the rewritten entries |
| BootRepack.Repacker.WriteRamdisk | native/src/boot/bootimg.cpp:814-866 | the ramdisk of the file, or those of the table one behind the other, behind a vendor header, padded if there is any; the recorded size is its length |
| BootRepack.Repacker.WriteBlocks | native/src/boot/bootimg.cpp:763-916 | after the nine steps the file is the header and the padded pieces, and each size field and the recovery_dtbo offset are as written |
| BootRepack.PatchMtk | native/src/boot/bootimg.cpp:958-968 | the size of what follows goes into each vendor header in place, its own size is added, and nothing else changes |
| BootRepack.Repack | native/src/boot/bootimg.cpp:715-1014 | for every header version, page size and set of files. The bytes of the image behind the raw header, said of the files alone: the kernel, at once its device tree, zeros, the ramdisk or those of the table, and each other file that is there, padded, then the trailer and zeros to the old length; vendor headers with the size of what follows; the sizes of kernel and ramdisk in the header are those sums. The parser, which takes version, page size and sizes from the bytes of the new image, finds exactly the blocks that were written, where they were written, iff the inputs are consistent and the header does no harm where it reaches into the blocks; then it does not fail and recovery_dtbo_offset is right; the header is the specified one, byte by byte |
| BootRepack.NewRawIs | native/src/boot/bootimg.cpp:729-971 | that header has the recorded sizes, the place of recovery_dtbo and its own size, and keeps all other bytes |
| BootRepack.ParserFindsExactly | native/src/boot/bootimg.cpp:334-527 | the parser finds the written blocks in an image overwritten with any header that has the recorded sizes, whatever its texts and checksum, iff sizes fit, kept sizes are right, a stray header does no harm, the version is selected again and the header does no harm |
| BootRepack.RightExactly | native/src/boot/bootimg.cpp:729-916 | the recorded sizes are those of the written blocks iff each block has a field that holds its size and sizes that are kept are right |
| BootRepack.VendorRamdisksTile | native/src/boot/bootimg.cpp:823-848 | rewritten entries start at 0, each where the one before ends, up to the end of the section, and each holds its own ramdisk |
| BootRepack.TableHolds | native/src/boot/bootimg.cpp:823-848 | the bytes of the new table: for each entry length and offset, and the rest unchanged |
| BootRepack.HeaderFits | native/src/boot/bootimg.hpp:406-407 | the header fits its space iff it is a vendor header or no larger than a page, and then it does no harm |
| BootRepack.StrayHeaderExample | native/src/boot/bootimg.cpp:814-866 | an image whose second block the parser would not find |
| BootRepack.StaleSizeExample | native/src/boot/bootimg.cpp:729-736 | an image whose extra size is left over |
| BootRepack.ExtraIsVersionExample | native/src/boot/bootimg.hpp:173-176 | an image of version 0 with an extra block of one byte that is taken for one of version 1 |
| BootRepack.SmallPageExample | native/src/boot/bootimg.cpp:758-1014 | an image with a page of 1024 bytes whose kernel the header overwrites |
| Payload.SortPermutes | native/src/boot/payload.rs:111-115 | sorting keeps the operations |
| Payload.SortSorts | native/src/boot/payload.rs:111-115 | and orders them by data offset |
| Payload.SignedDistance | native/src/boot/payload.rs:131-135 | the wrapping difference, read as signed, is the distance; it does not underflow iff the target is not behind |
| Payload.ForwardIffNoOverlap | native/src/boot/payload.rs:111-149 | sorted operations can be read in one forward pass iff each starts within the payload and none before the end of an earlier one, also for empty ranges |
| Payload.ReachIsOverlap | native/src/boot/payload.rs:111-149 | for operations in order, starting before the end of the other means that they have bytes in common, or that the later one is empty |
| Payload.SkipTo | native/src/boot/payload.rs:131-135 | a skip ends at the target, or fails iff the input cannot seek and the target is behind or beyond the end |
| Payload.ReadData | native/src/boot/payload.rs:117-149 | one turn of the pass reads what random access reads, or is an error iff a pipe would have to go back or is too short |
| Payload.ExtractOperations | native/src/boot/payload.rs:111-179 | Ok iff every operation has its parts, its data and can be decompressed (on a pipe, if they can be read forward, else an error); then each byte of the file that only one operation writes is the byte that operation has for it, each byte of a clearing extent is zero, said of operations, blob and block size alone; the pass over the sorted operations delivers what random access delivers |
| Payload.RunHolds | native/src/boot/payload.rs:137-179 | each byte of the extracted file is that of the last operation that has something there, and zero where none has |
| Payload.ReplacedBytes | native/src/boot/payload.rs:137-149 | the data of a REPLACE operation, or what it decompresses to, lies at start_block times the block size |
| Payload.SortedRunIsManifestRun | native/src/boot/payload.rs:111-179 | operations with disjoint destinations leave the file that manifest order leaves |
| Payload.ZeroClearsBytes | native/src/boot/payload.rs:150-162 | a ZERO operation ends at the end of its extent iff there is nothing to clear or a block is one byte |
| Denylist.AddKeepsIndex | native/src/core/deny/utils.cpp:64-77 | adding a package keeps the index the inverse image of the package map |
| Denylist.AddAgainKeepsIndex | native/src/core/deny/utils.cpp:64-77 | adding to a package that is there leaves one, under whatever app ids, iff the app id is the one it was indexed under |
| Denylist.RemoveKeepsIndex | native/src/core/deny/utils.cpp:64-77 | removing leaves an inverse image, under whatever app ids, iff the app id is the one the package was indexed under |
| Denylist.DenyList.UpdateAppId | native/src/core/deny/utils.cpp:64-77 | an app id gains the package, or loses it and with its last package its entry |
| Denylist.DenyList.Scan | native/src/core/deny/utils.cpp:185-211 | the scan, which erases while it iterates, keeps exactly the installed packages, rebuilds the index and keeps memory and table equal |
| Denylist.DenyList.EnsureData | native/src/core/deny/utils.cpp:218-249 | the table is read once, then scanned |
| Denylist.DenyList.AddList | native/src/core/deny/utils.cpp:251-276 | the response and the new package map in every case, with index and table in step unless the app id of a listed package has changed |
| Denylist.DenyList.RmList | native/src/core/deny/utils.cpp:284-320 | the same for removal of a process or a package |
| Denylist.DenyList.IsDenyTarget | native/src/core/deny/utils.cpp:407-431 | the answer through the index is that of a linear scan under the app ids the packages were indexed under |
| Denylist.EveryUser | native/src/core/deny/utils.cpp:407-431 | the question for every user and app id: isolated ids from 90000 on by prefix, the others by package and process |
| Denylist.ListedNext | native/src/core/deny/utils.cpp:185-320 | what each command makes of each package and process: listed if it was and is not removed, or is added; no process means that of the package when adding and all when removing |
| Denylist.LastWordCounts | native/src/core/deny/utils.cpp:185-320 | over any run of commands, from the table or from memory: a process of an installed package is listed in the end iff it was added, or listed at first, and not removed since |
| Denylist.ValidateIs | native/src/core/deny/utils.cpp:133-167 | which names can be listed: a package name has a dot and no colon, the name of an isolated process is checked up to its first colon only |
| Denylist.DenyList.Run | native/src/core/deny/utils.cpp:185-320 | any sequence of commands, under app ids that change between them, keeps table and index right, the index being about the app ids in force when each package was indexed, as long as each command that changes the entry of a listed package sees the same app id |
| Denylist.SameIdsAreStable | native/src/core/deny/utils.cpp:185-320 | that is so for any commands while app ids stay the same |
| Denylist.RemovedRows | native/src/core/deny/utils.cpp:284-320 | the rows deleted from the table are those of the processes removed from memory |
| StatementLexer.Tokenizer.ExtractToken | native/src/sepolicy/statement.rs:214-265 | the recursive splitting by kinds of delimiters gives the tokens of one pass from left to right |
| StatementLexer.LexCut | native/src/sepolicy/statement.rs:214-265 | cutting at any delimiter, not only the first, gives the same tokens |
| StatementLexer.TokenizeStatement | native/src/sepolicy/statement.rs:267-273 | word by word, the tokens are those of one pass over the statement; what they are for written lines: see RuleText |
| StatementLexer.PrintReadsBack | native/src/sepolicy/statement.rs:493-522 | printed tokens are read back iff there is no hexadecimal number among them and every name is a name |
| StatementLexer.HexLiteral | native/src/sepolicy/statement.rs:258-259 | a literal has the value it is written with iff that is at most 9 |
| StatementParser.Parser.ParseId | native/src/sepolicy/statement.rs:62-67 | consumes one name or fails |
| StatementParser.Parser.ParseTerm | native/src/sepolicy/statement.rs:73-89 | the loop consumes what the grammar's term consumes |
| StatementParser.Parser.ParseSterm | native/src/sepolicy/statement.rs:98-120 | the same with stars |
| StatementParser.Parser.ParseXperm | native/src/sepolicy/statement.rs:124-145 | one number or range |
| StatementParser.Parser.ParseXperms | native/src/sepolicy/statement.rs:153-203 | a star, a number or a list of ranges, complemented or not |
| StatementParser.Parser.MatchString | native/src/sepolicy/statement.rs:205-212 | consumes the given word or fails |
| StatementParser.Parser.ExecStatement | native/src/sepolicy/statement.rs:329-489 | makes one call, or none and the error of its action |
| StatementGrammar.SentencesAreAccepted | native/src/sepolicy/statement.rs:311-489 | every sentence of the grammar makes exactly the call it means |
| StatementGrammar.ParserDecidesGrammar | native/src/sepolicy/statement.rs:62-203 | tokens make a call iff they are a sentence that means it |
| StatementGrammar.PrintedSentence | native/src/sepolicy/statement.rs:267-522 | a printed sentence, tokenized and executed, makes the call with exactly the original lists |
| StatementGrammar.TrimKeepsTokens | native/src/sepolicy/statement.rs:298-302 | white space around a statement does not matter |
| StatementGrammar.SkippedIsNoSentence | native/src/sepolicy/statement.rs:300-302 | a line that is skipped is no sentence |
| StatementGrammar.ParseStatement | native/src/sepolicy/statement.rs:298-309 | from text to call: blank lines and comments do nothing, every sentence makes the call it means, all else is an error |
| PolicyApi.Expander.Expand | native/src/sepolicy/api.cpp:30-57 | the recursive expansion calls back with the product of the lists, in order |
| PolicyApi.ProductHas | native/src/sepolicy/api.cpp:30-57 | that is every choice of one element from each list and nothing else, the empty list of names standing for everything |
| PolicyApi.ReplayOneKind | native/src/sepolicy/api.cpp:59-85 | a run of rules of one kind gives or takes exactly the permissions that some rule touches |
| PolicyApi.PerformRule | native/src/sepolicy/api.cpp:59-85 | allow, deny, auditallow and dontaudit give, or take, exactly what some choice of names touches; the table stays unique and tight |
| PolicyApi.OneOfEach | native/src/sepolicy/api.cpp:59-85 | a statement with one name in each list asks for exactly one permission of one key: an allowed rule for allow and deny, the rule of their own for auditallow and dontaudit |
| AvTab.Table.SearchNode | native/src/sepolicy/sepolicy.cpp:169-171 | the first node of the slot with the key |
| AvTab.Table.InsertNonunique | native/src/sepolicy/sepolicy.cpp:176-182 | one more live node, wherever in its slot, with links, counter and all other nodes intact |
| AvTab.Table.RemoveNode | native/src/sepolicy/sepolicy.cpp:114-140 | the node found by its address is unlinked and freed; links, counter and all other nodes stay right |
| AvTab.Table.StripSlot | native/src/sepolicy/sepolicy.cpp:68-76 | one list is walked while its nodes are freed, reading each successor before that |
| AvTab.Table.StripDontaudit | native/src/sepolicy/sepolicy.cpp:684-689 | exactly the nodes of the two dontaudit kinds are gone, every other node is unchanged |
| PolicyRules.Policy.GetNode | native/src/sepolicy/sepolicy.cpp:176-190 | the one node of the key, with the word the key had |
| PolicyRules.Policy.SetRule | native/src/sepolicy/sepolicy.cpp:222-241 | the word of one key is revised, a node that says no more than its absence is removed, all else stays |
| PolicyRules.Policy.AddRule | native/src/sepolicy/sepolicy.cpp:192-242 | with wildcards, exactly the words of the keys that are named are revised |
| PolicyRules.Policy.AddNamedRule | native/src/sepolicy/sepolicy.cpp:244-291 | by names: nothing changes iff one of them does not exist, or a permission is given without a class |
| PolicyRules.Policy.AddRules | native/src/sepolicy/sepolicy.cpp:114-291 | any run of calls does to every word what replaying them on a map from keys to words does; keys stay unique, no redundant node survives, other nodes are untouched |
| PolicyRules.GivenAccess | native/src/sepolicy/sepolicy.cpp:192-218 | a call that gives access gives it to exactly the pairs of types that reach a source and a target it goes through |
| PolicyRules.TakenAccess | native/src/sepolicy/sepolicy.cpp:192-218 | a call that takes it leaves exactly what rules it does not go through give |
| PolicyRules.WildcardOverAttributes | native/src/sepolicy/sepolicy.cpp:192-218 | going through attributes only gives a pair the access iff it had it or both types carry an attribute; going through all types would give it to every pair |
| PolicyRules.WildcardTakesAll | native/src/sepolicy/sepolicy.cpp:192-218 | going through all types takes it from every pair |
| PolicyRules.NoNodesGiveNothing | native/src/sepolicy/sepolicy.cpp:142-151 | an absent node, whose word is 0 or all ones by its kind, gives no permission |
| PolicyRules.ValuesHas | native/src/sepolicy/sepolicy.cpp:105-112 | a wildcard goes through all types, or through exactly the attributes |
| PolicyXperms.CollectNodes | native/src/sepolicy/sepolicy.cpp:319-332 | the list has exactly the driver node and the function nodes of the key |
| PolicyXperms.AddRange | native/src/sepolicy/sepolicy.cpp:362-380 | the bits of a range are set in the one node they belong to |
| PolicyXperms.ResetRange | native/src/sepolicy/sepolicy.cpp:381-406 | all bits but those of the range |
| PolicyXperms.ClearNodes | native/src/sepolicy/sepolicy.cpp:334-344 | function nodes go, the driver node is cleared |
| PolicyXperms.SetXperm | native/src/sepolicy/sepolicy.cpp:313-406 | the ioctls denoted by the nodes of a key become their union with the range, or the complement of the range; at most one node for each place; other nodes stay |
| PolicyXperms.AddXpermRule | native/src/sepolicy/sepolicy.cpp:296-408 | with wildcards and the version check |
| PolicyXperms.ListOfRanges | native/src/sepolicy/api.cpp:52-57 | a list adds all its ranges; a complemented list leaves out its last range, and the whole list iff the others are within the last |
| PolicyXperms.RangeIsExact | native/src/sepolicy/sepolicy.cpp:362-406 | a range stands for its numbers iff it stays in one driver, has whole drivers, or runs backwards |
| XpermApi.AddNamedXpermRule | native/src/sepolicy/sepolicy.cpp:410-440 | by names: nothing changes if one of them does not exist |
| XpermApi.LastVariesFastest | native/src/sepolicy/api.cpp:30-57 | the expansion goes through the whole last list for each choice from the others |
| XpermApi.ApplyAllAgain | native/src/sepolicy/api.cpp:52-57 | going through a list of ranges twice is going through it once |
| XpermApi.AskedAre | native/src/sepolicy/api.cpp:155-174 | the keys a call is about are those that some choice of a name from each list reaches |
| XpermApi.PerformXperm | native/src/sepolicy/api.cpp:155-174 | allowxperm, auditallowxperm and dontauditxperm: the ioctls of exactly these keys go through the list of ranges once, whatever the number of choices that reach them; all other nodes stay |
| RuleLoader.RunStatement | native/src/sepolicy/statement.rs:298-309 | from the text of a statement to the table: each permission and the ioctls of each key are what the call makes of them, and nothing changes for comments, errors and other calls; what a written line does to them: see RuleText |
| RuleLoader.LoadRules | native/src/sepolicy/statement.rs:276-296 | a whole list of lines: each permission and each set of ioctls is what the lines, in order, make of it; the table stays unique and tight |
| RuleLoader.OneLine | native/src/sepolicy/statement.rs:298-309 | an access rule with one name in each place changes exactly one permission of one key |
| RuleText.WrittenRule | native/src/sepolicy/statement.rs:214-309 | the line "allow s t c p" turns on exactly the permission of that name of the class, its own or of its common, for exactly that source, target and class in the allow rules; "deny" turns it off, "auditallow" and "dontaudit" turn it on in theirs; every other permission of every key is as before |
| RuleText.UnknownName | native/src/sepolicy/sepolicy.cpp:244-291 | a line that names a type, class or permission the policy does not have changes nothing |
| RuleText.WrittenForAll | native/src/sepolicy/sepolicy.cpp:192-218 | "allow * t c p": for every attribute, and with "deny" for every type |
| RuleText.WrittenForAllPerms | native/src/sepolicy/sepolicy.cpp:222-241 | "allow s t c *": all permissions at once |
| RuleText.WrittenXperm | native/src/sepolicy/statement.rs:153-203 | "allowxperm s t c ioctl …" and its kin with *, a number, a range or ~ and a range: exactly those ioctls of exactly that key are added, or all but those are left |
| RuleText.DecimalNext | native/src/sepolicy/statement.rs:258-259 | the digits behind 0x are read as decimal digits |
| RuleText.OddNumber | native/src/sepolicy/statement.rs:258-259 | a plus sign in front of them does not matter, and what is no number or too large is read as 0 |
| RuleText.OnIsABit | native/src/sepolicy/sepolicy.cpp:222-241 | what a permission that is on means for the nodes of the table |
| RuleText.IoctlIsABit | native/src/sepolicy/sepolicy.cpp:319-406 | what an ioctl of a key means for the nodes of the table |
| RuleText.TypeLines | native/src/sepolicy/statement.rs:436-472 | type_transition, type_change and type_member as they are written |
| RuleText.ShortLines | native/src/sepolicy/statement.rs:382-435 | permissive, enforce, attribute, type and typeattribute as they are written |
| RuleText.GenfsLine | native/src/sepolicy/statement.rs:473-487 | genfscon as it is written |
| RuleText.GroupLine | native/src/sepolicy/statement.rs:98-120 | names in braces and the star, as they are written |
| RuleText.Glued | native/src/sepolicy/statement.rs:214-265 | braces and dashes need no white space around them |
| RuleText.SpaceAround | native/src/sepolicy/statement.rs:298-302 | white space around a line, any character of the Unicode property, does not matter |
| RuleText.OthersAreWords | native/src/sepolicy/statement.rs:214-265 | any other character that is no symbol makes a word |
| RuleText.CommentLine | native/src/sepolicy/statement.rs:300-302 | comments and empty lines make no call |

## Left out

- System calls, mounts as kernel objects, SELinux labels, file attributes and logging: a mount is an edit of the visible tree.
- `FsNode` values are merged and returned, not changed through references; sharing of subtrees is not an issue there.
- The injection of magisk and zygisk binaries into the tree, module discovery and scripts (native/src/core/module.rs:441-822).
- Creation failure of threads, and tasks that fork, in the thread pool.
- The other cpio commands, `patch` and `test` of an archive: they only add easy members.
- Compression libraries and the choice of a format: abstract inverse functions, or files that stand for the bytes written.
- zImage kernels, device trees found inside kernels, AVB footers, signatures, checksums, Amonet and ChromeOS images.
- BootRepack.Repack: texts and the checksum of the header are copied, not computed; `ParserFindsExactly` holds for any. The 32-bit offsets that `repack` keeps for the kernel and the ramdisk are not cut off at 4 GiB.
- Lz4Block.CheckFmtLg: is about buffers on which the scan ends, see `EndsInTime`. 32-bit counters wrap; a build that checks for overflow stops instead.
- Cutting a rule file into lines, and the help text of statements.
- AvTab.Table.SearchNode: the branch of `find_avtab_node` for extended permissions, which no caller reaches, is not modelled.
- The internals of libsepol: search finds the first node with a key, insertion may put a node anywhere in its list.
- RuleLoader.LoadRules: is about lines that are access rules, comments or errors. Type rules, file name transitions, genfscon, type and attribute declarations and permissive types: only the parser's call is modelled.
- Interleavings of denylist updates with database writes: each operation is one step.
- Hooking, su, init stages and the app.
