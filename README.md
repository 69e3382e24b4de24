# ready-fs directory engine and free-block pool, in Dafny

This project models the core of `ready-fs`, a small file system that lives on
a block device of `blockCount` blocks of `blockSize` bytes:

- block 0 is left alone, the free-block bitmap starts at block 1, and the root
  directory occupies the block right after the bitmap;
- a directory is a chain of blocks. Each block holds 32-byte records at
  offsets 0, 32, … below `blockSize - 32`. The first two bytes of the block's
  last 32 hold the big-endian number of the next block of the chain, and 0
  ends the chain;
- a record is a 16-byte NUL-padded name, then these big-endian fields: type
  (0 = directory), data pointer, metadata pointer, modification time, size and
  flags. A record whose first byte is 0 is blank;
- the `FileSystem` class lists, creates, makes and removes directories,
  deletes files and retypes records. It does this by walking directory chains
  with a callback. It reads and writes whole blocks through the device;
- the `FreeList` class keeps the free blocks as a stack. `alloc` pops, and
  `free` pushes. It also sizes and initialises the on-disk bitmap, whose
  loading and bit-marking are still empty in the source, so the pool starts
  empty.

Modules, one per file:

- `Bytes` (`bytes.dfy`): big-endian fields and fixed-length ASCII strings on `seq<byte>`.
- `Records` (`records.dfy`): the 32-byte record, its readers and writers, the field writes of a new record, and the byte-clearing loop.
- `BlockDevice` (`disk.dfy`): the device as a class whose `blocks` are read by copy and written whole.
- `FreeLists` (`free_list.dfy`): the pool. It is specified by `PoolAlloc`/`PoolFree`, and `FreeList` is a class that mutates its `list`.
- `DirectoryWalk` (`walk.dfy`): the chain walker's specification. Chains are followed with fuel. The callbacks are a `Visitor` datatype stepped over a `Captured` record, which stands for the variables the callbacks update. A walk is specified as a `Fold` over the slots it visits, block after block.
- `Directory` (`directory.dfy`): path resolution, listing, and the plan and effect of insertion and removal, as functions of the device image.
- `FileSys` (`file_system.dfy`): the `FileSystem` class. Its methods are the imperative operations, each proved against the functions above. `CreateFileSystem` and `OpenFileSystem` stand for `create` and `open`.

The invariant `Valid` relates the device to a ghost set `dirBlocks` of the
blocks that belong to directory chains. That set holds the root. It is closed
under chain links and the data pointers of directory records, and every chain
from it ends. The invariant makes every walk and lookup terminate. Every
operation preserves it.

Two facts about the code as written follow from the contracts:

- `Delete` and `Rmdir` report failure even when they removed a record (see "## Findings").
- The pool is only filled by `free`, so `Mkdir` fails on a freshly opened file system.

## Model

| member | source | states |
|---|---|---|
| FreeLists.CalculateFreeListSize | private/free-list.js:59-61 | the number of bitmap blocks covers every block with one bit, and one block fewer would not |
| FreeLists.FreeListSizeIsLeast | private/free-list.js:59-61 | no smaller number of blocks covers every block: the size is the ceiling of blockCount / (8 · blockSize) |
| FreeLists.PoolAlloc | private/free-list.js:28-36 | on an empty pool: -1 and the pool unchanged; otherwise the last block, with the rest of the pool being everything before it |
| FreeLists.PoolFree | private/free-list.js:38-41 | the freed block goes on top of the unchanged pool, with no check for double frees |
| FreeLists.AllocUndoesFree | private/free-list.js:28-41 | free(b) then alloc() returns b and restores the pool (last in, first out) |
| FreeLists.FreeUndoesAlloc | private/free-list.js:28-41 | alloc() from a non-empty pool then free of the result restores the pool |
| FreeLists.FreeList.WriteInitial | private/free-list.js:2-16 | exactly the bitmap's blocks from startBlock on become all 0xFF, no other block changes, and the first block after them is returned |
| FreeLists.FreeList.constructor | private/free-list.js:18-26 | blockOffset is the start block, blockLength the bitmap size, and the pool starts empty because loading does nothing |
| FreeLists.FreeList.Alloc | private/free-list.js:28-36 | block and new pool are PoolAlloc of the old pool; the bitmap position is a constant set once by the constructor |
| FreeLists.FreeList.Free | private/free-list.js:38-41 | the new pool is PoolFree of the old pool; the bitmap position is a constant set once by the constructor |
| Bytes.WriteUint16BE | index.js:301-303 | reading the 16-bit field back gives the value modulo 2^16, and only its two bytes change |
| Bytes.WriteUint32BE | index.js:304-305 | reading the 32-bit field back gives the value modulo 2^32, and only its four bytes change |
| Bytes.AsciiRoundTrip | index.js:406 | a name written to the 16-byte field reads back cut at its first NUL, and unchanged when it fits and holds no NUL |
| Records.WriteType | index.js:412 | the type reads back as the value modulo 2^16 and only bytes 16-17 of the record change |
| Records.WriteDataPointer | index.js:413 | the data pointer reads back as the value modulo 2^16 and only bytes 18-19 change |
| Records.WriteSize | index.js:414 | the size reads back as the value modulo 2^32 and only bytes 26-29 change |
| Records.ParseDirectoryEntry | index.js:423-433 | the name is at most 16 bytes, holds no NUL, and is empty exactly when the record is blank; type, data pointer and size are the values the field readers at index.js:406-410 see; `ParseInPlace` and `ParseEncodedEntry` state what it gives back for a written record |
| Records.EncodeEntry | index.js:300-306 | the record the seven field writes leave is 32 bytes long; `FieldWritesFillEntry` ties it to the writes and `ParseEncodedEntry` parses it back |
| Records.FillEntry | index.js:300-306 | only the slot's 32 bytes change, and they become the encoded record |
| Records.Cleared | index.js:416-421 | exactly the record's 32 bytes become 0 and every other byte is kept |
| Records.ClearDirectoryEntry | index.js:416-421 | the byte loop leaves the block with exactly the record's 32 bytes zeroed |
| Records.ClearedRecord | index.js:416-421 | a cleared record is blank, parses to all-zero fields, and no other byte changes |
| Records.RecordDependsOnItsBytes | index.js:423-433 | a record's parsed fields depend on its own 32 bytes only |
| Records.OtherRecordsUnchanged | index.js:219-220 | writing inside one record leaves every other record and the chain link as they were |
| Records.FieldWritesFillEntry | index.js:300-306 | the seven field writes of a new record, one after another, leave exactly the encoded record and change no byte outside it |
| Records.ParseInPlace | index.js:423-433 | a record parses the same in its block as on its own 32 bytes |
| Records.ParseEncodedEntry | index.js:423-433 | the encoded record parses back to name, type, data pointer, metadata pointer 0, the time modulo 2^32, size 0 and flags 0 |
| Records.ParseFilledEntry | index.js:300-306 | parsing a slot just filled gives back the name as stored, the type, the data pointer, 0, the time modulo 2^32, 0 and 0 |
| Records.ParseFilledStorable | index.js:300-306 | a name that fits and holds no NUL is read back exactly from the filled slot |
| DirectoryWalk.LinkChain | index.js:379-384 | the chain starts at the given block, and every block of it is on the device and long enough to hold the link |
| DirectoryWalk.ChainLinks | index.js:379-384 | consecutive blocks of a chain are joined by their links, and only the last block's link is 0 |
| DirectoryWalk.DirectoryChainLinks | index.js:379-384 | the same for directory chains with the link at blockSize - 32 |
| DirectoryWalk.BlockSlots | index.js:369-374 | every slot visited in a block is a record offset of that block, and is not blank unless blanks are included |
| DirectoryWalk.Visible | index.js:366-386 | every slot a chain walk visits lies in a block of the chain, carries that block's bytes and is a valid record offset |
| DirectoryWalk.Fold | index.js:375-377 | a walk that stops does so at one of the visited slots |
| DirectoryWalk.BlockFoldIsFold | index.js:371-378 | the loop over one block's slots computes the fold over that block's visible slots, and stops exactly when the fold stops |
| DirectoryWalk.FoldAppend | index.js:366-386 | walking two runs of slots is walking the first, then the second only if the first did not stop |
| DirectoryWalk.FoldChainStep | index.js:379-384 | walking a chain from its k-th block is walking that block, then the rest of the chain unless the block stopped the walk |
| DirectoryWalk.WalkBlockOutcome | index.js:375-384 | after a block: a stop there, or the last block, is the walk's result; otherwise the walk goes on from the next block with the captures the block left |
| DirectoryWalk.WalkSpec | index.js:366-386 | the block returned is a block of the chain |
| DirectoryWalk.Walk | index.js:366-386 | the captures a directory walk leaves are those of the fold over its visible slots |
| DirectoryWalk.BlockSkipsBlanks | index.js:372-374 | without includeBlank a block visits exactly its non-blank slots |
| DirectoryWalk.WalkSkipsBlanks | index.js:372-374 | without includeBlank a chain walk visits exactly the non-blank slots of the full walk, in the same order |
| DirectoryWalk.BlockSlotOrder | index.js:371 | a block's slots are visited at offsets 0, 32, … below blockSize - 32, in ascending order |
| DirectoryWalk.VisibleLength | index.js:366-386 | a full walk visits (blockSize - 32) / 32 slots per block of the chain |
| DirectoryWalk.WalkOrder | index.js:366-386 | the s-th slot of the j-th block is visit number j · n + s, where n is the number of slots per block |
| DirectoryWalk.Parsed | index.js:48-50 | one entry per visited slot; `ParsedPointwise` states that entry k is the parse of slot k |
| DirectoryWalk.ParsedPointwise | index.js:48-50 | the k-th listed entry is the parse of the k-th visited slot |
| DirectoryWalk.CollectParsesAll | index.js:48-50 | the listing callback never stops and appends the parse of every visited slot, in order |
| DirectoryWalk.FirstNamed | index.js:184-191 | the first visited slot whose name matches: every earlier slot differs, and none matches when there is none |
| DirectoryWalk.MatchFindsFirstNamed | index.js:342-353 | the lookup callback stops at the first slot with the name and records its verdict, and leaves the captures alone when there is none |
| DirectoryWalk.FirstBlank | index.js:271-276 | the first blank slot: every earlier slot is in use, and none is blank when there is none |
| DirectoryWalk.VacancyFindsFirstBlank | index.js:270-284 | the insertion callback flags a clash exactly when a non-blank slot carries the name; otherwise it notes the first blank slot |
| DirectoryWalk.OccupiedIffAnySlot | index.js:204-208 | the emptiness callback finds an entry exactly when the walk visits any slot |
| DirectoryWalk.LiveSlots | index.js:372-374 | no longer than the slots; every slot it keeps is one of the slots and not blank, and every non-blank slot is kept; `BlockSkipsBlanks` and `WalkSkipsBlanks` state the order |
| DirectoryWalk.ChainStaysInside | index.js:379-384 | a chain from a directory block stays among the directory blocks |
| DirectoryWalk.VisitedSlotsInside | index.js:184-191 | every visited slot lies in a directory block, and a directory record there points at one |
| DirectoryWalk.DirSlots | index.js:366-386 | the slots a walk of a directory visits carry their blocks' bytes, and their directory records point at directory blocks |
| DirectoryWalk.ReplacedBlockSameChain | index.js:219-220 | rewriting a block without changing its link leaves every chain unchanged |
| DirectoryWalk.BlockWriteKeepsClosed | index.js:307 | writing back a directory block with the same link and closed records keeps the directory invariant |
| DirectoryWalk.RecordWriteKeepsRecordsClosed | index.js:300-307 | rewriting one record keeps the block's other records and its link, so its directory records stay closed |
| DirectoryWalk.ZeroedChainEnds | index.js:74 | zeroing a block keeps every chain that ended still ending |
| DirectoryWalk.ZeroKeepsClosed | index.js:74 | a zeroed block can join the directory blocks without breaking the invariant |
| DirectoryWalk.ZeroedBlockHasNoRecords | index.js:25 | a block of zeroes has no live record |
| DirectoryWalk.ZeroedDirectoryIsEmpty | index.js:25 | a directory whose first block is zeroed lists nothing |
| Directory.Dirname | index.js:147 | the dirname of "/" is "/"; otherwise dirname plus basename is the path |
| Directory.FindIn | index.js:342-353 | a record found in a directory is live, lies in a directory block and carries the name |
| Directory.ResolveFrom | index.js:336-364 | a resolved record is live, and a resolved directory's data pointer is a directory block |
| Directory.ResolvedName | index.js:343-345 | the record resolved for a path carries the path's last component |
| Directory.Resolve | index.js:336-364 | "/" resolves to nothing; a resolved record is live and carries the basename |
| Directory.ResolveExtend | index.js:346-360 | resolving path + [n] is resolving path, failing if that is not a directory, then finding n in it |
| Directory.PrefixesAreDirectories | index.js:346-347 | when a path resolves, every proper prefix of it names a directory |
| Directory.DirectoryBlock | index.js:318-334 | "/" gives the root; any block given is a directory block |
| Directory.Listing | index.js:41-52 | a listing exists exactly when the path names a directory |
| Directory.LookupInOneDirectory | index.js:342-353 | a name is found in a directory exactly when its listing has an entry with that name, and the found record's parse is listed |
| Directory.ListAgreesWithLookup | index.js:41-52 | path + [name] resolves exactly when path lists an entry called name, and the resolved record's parse is in the listing |
| Directory.LocateParent | index.js:230-264 | the parent has no record exactly for paths directly under "/"; a record given is live and the block is a directory block |
| Directory.ParentIsDirectoryBlock | index.js:238-264 | the parent's block is the directory block of the path's dirname, and exists exactly when that does |
| Directory.PlanInsert | index.js:229-296 | an insertion happens only under the located parent, into a blank slot of a directory block |
| Directory.InsertionByWalk | index.js:266-296 | the walk's captures decide the insertion: no clash and a blank slot found gives the insertion into that slot |
| Directory.InsertionCases | index.js:238-296 | insertion fails exactly when the parent is missing or not a directory, the name is taken, or no slot is blank; otherwise it takes the first blank slot in walk order |
| Directory.ApplyInsert | index.js:298-313 | the insertion's writes keep the device's length; `InsertEffect` states what they write |
| Directory.InsertEffect | index.js:298-313 | when the parent's record is in another block than the slot (or there is none, under the root): only the slot's 32 bytes change, and the slot parses back to the new entry for a name of at most 16 bytes with no NUL; below the root the parent's block becomes its copy read during the lookup with only the size raised by one modulo 2^32, so when the parent's record shares the slot's block the new record is overwritten by that stale copy; no other block changes |
| Directory.FillKeepsClosed | index.js:298-307 | filling a slot keeps the invariant when a new directory record points at a directory block |
| Directory.InsertKeepsClosed | index.js:229-316 | insertion keeps the directory invariant |
| Directory.AdjustParentSize | index.js:309-313 | the parent's size write keeps the device's length |
| Directory.AdjustKeepsClosed | index.js:309-313 | rewriting the parent's size keeps the directory invariant |
| Directory.RecordDependsOnItsBytesExceptSize | index.js:414 | a size write keeps the record's blankness, type and data pointer |
| Directory.PlanRemove | index.js:146-217 | a removal takes a live record called the basename: a directory whose walk finds no entry when removing a directory, and a non-directory otherwise |
| Directory.RemovalByWalk | index.js:180-217 | the removal walk's captures decide the removal, by the victim's type and, for a directory, its emptiness |
| Directory.RemovalTakesLookedUpRecord | index.js:180-196 | the record removed is the one the path resolves to |
| Directory.ApplyRemove | index.js:219-226 | the removal's writes keep the device's length |
| Directory.RemoveEffect | index.js:219-226 | when the parent's record is in another block than the victim (or there is none, under the root): exactly the victim's 32 bytes become zero; below the root the parent's block becomes its copy read during the lookup with only the size lowered by one modulo 2^32, so when the parent's record shares the victim's block the cleared record is restored by that stale copy; no other block changes |
| Directory.RemoveKeepsClosed | index.js:219-226 | removal keeps the directory invariant |
| Directory.RetypeEffect | index.js:140 | retyping changes only the record's type, and the record parses with the new type modulo 2^16 |
| FileSys.FileSystem.constructor | index.js:34-39 | the pool starts empty at block 1, and the root directory is the block after the bitmap |
| FileSys.FileSystem.Create | index.js:54-65 | type 0 is refused; otherwise succeeds exactly when an insertion is planned, writing exactly that insertion with the type modulo 2^16, data pointer 0 and the time in seconds, and nothing on failure |
| FileSys.FileSystem.Mkdir | index.js:67-82 | with an empty pool it fails and changes nothing; otherwise it pops a block and zeroes it, inserts a directory record pointing at it when an insertion is planned, and pushes the block back when not |
| FileSys.FileSystem.Delete | index.js:84-97 | as written: removes the file record when one is planned; the removal's result is never `Removed`, so the test at index.js:86 always reports failure |
| FileSys.FileSystem.DeleteIntended | index.js:84-97 | reports success exactly when the file record is removed |
| FileSys.FileSystem.Rmdir | index.js:99-117 | as written: removes the empty directory's record when one is planned; the removal's result is never `Removed`, so the test at index.js:101 always reports failure and the reclaim loop is never reached, freeing nothing |
| FileSys.FileSystem.RmdirIntended | index.js:99-117 | reports success exactly when the directory is removed, and then pushes every block of its chain to the pool, first block first |
| FileSys.FileSystem.ReclaimDirectoryBlocks | index.js:108-114 | the loop pushes the blocks of the chain, in chain order, and nothing when the pointer is 0 |
| FileSys.FileSystem.SetType | index.js:119-144 | type 0, a missing path and a directory target are refused; otherwise exactly the record's type changes, to the new type modulo 2^16 |
| FileSys.FileSystem.WalkDirectoryEntries | index.js:366-386 | the walker returns the block it stopped in, or the last block of the chain, with the captures of the fold over the visited slots |
| FileSys.FileSystem.VisitBlock | index.js:371-378 | the slot loop over one block computes the fold over the block's visible slots and whether it stopped |
| FileSys.FileSystem.FindDirectoryEntryForPath | index.js:336-364 | the loop returns exactly the record the path resolves to, and nothing for "/" |
| FileSys.FileSystem.FindBlockForDirectory | index.js:318-334 | the root for "/", the data pointer of a directory record, and -1 otherwise |
| FileSys.FileSystem.List | index.js:41-52 | the parse of every live record of the directory, in walk order, and failure when the path names no directory |
| FileSys.FileSystem.LocateParentEntry | index.js:238-264 | the parent record and directory block of the path, as located by LocateParent |
| FileSys.FileSystem.InsertNewDirectoryEntry | index.js:229-316 | succeeds exactly when an insertion is planned, writes exactly that insertion, writes nothing on failure, and keeps the invariant |
| FileSys.FileSystem.RemoveDirectoryEntry | index.js:146-227 | as written: removes exactly the planned record and then hands back no value (`NoValue`, for `undefined`), and hands back `Refused` (for `false`) and writes nothing when no removal is planned |
| FileSys.FileSystem.RemoveDirectoryEntryIntended | index.js:146-227 | the same removal, handing back `Removed` with the victim's data and metadata pointers exactly when a removal is planned, as `delete` and `rmdir` expect at index.js:91 and index.js:106 |
| FileSys.FileSystem.FindRemoval | index.js:146-217 | the lookups before the writes compute exactly the planned removal |
| FileSys.FileSystem.DirectoryIsEmpty | index.js:204-208 | a directory is empty exactly when its walk visits no live slot |
| FileSys.FileSystem.ClearRemovedEntry | index.js:219-226 | the writes are exactly the removal's, and the invariant is kept |
| FileSys.FileSystem.FillDirectoryEntry | index.js:298-307 | the slot's block is written back with exactly the new record filled in |
| FileSys.FileSystem.WriteParentSize | index.js:309-313 | the parent's block is written back with the size moved by delta, and nothing for the root |
| FileSys.FileSystem.PurgeInode | index.js:388-401 | pushes every nonzero pointer of every block of the pointer chain, block by block and in offset order |
| FileSys.FileSystem.FreeBlockPointers | index.js:392-398 | pushes the block's nonzero pointers at the even offsets before the link, in order |
| FileSys.BlockPointers | index.js:393-398 | every pointer freed from a block is nonzero and 16 bits wide |
| FileSys.BlockPointersAreSlots | index.js:393-398 | a block number is freed from a pointer block exactly when it is nonzero and some even offset before the link holds it |
| FileSys.DirectoryChain | index.js:109-114 | the chain freed starts at the directory's first block and stays on the device |
| FileSys.ReclaimStep | index.js:110-114 | each freed block's link is the next block of the chain, and 0 only after the last one |
| FileSys.CreateFileSystem | index.js:22-27 | the bitmap blocks become all 0xFF, the root block becomes zeroes, nothing else changes, and the root lists no entries |
| FileSys.OpenFileSystem | index.js:29-32 | opens the device with an empty pool and the root after the bitmap |
| FileSys.SmallDeviceRoot | index.js:35-38 | on a device of up to 512 blocks of 64 bytes the bitmap takes one block, so the root directory is block 2 |
| FileSys.DeleteOfExistingFileReportsFailure | index.js:84-97 | on a three-block device whose root, block 2, holds the file "a", removing "/a" is planned and changes the device, though Delete reports failure |
| FileSys.RmdirOfEmptyDirectoryReportsFailure | index.js:99-117 | on a four-block device whose root, block 2, holds the empty directory "a" in block 3, removing it is planned and changes the device, though Rmdir reports failure and frees nothing |

## Left out

- `test.js`, a logging script with no assertions, is not part of this model.
- Path text is not parsed: a path is its sequence of components, and "/" is the empty sequence. Node's `path.basename`/`dirname` and the regular-expression split at index.js:339 are therefore not modelled.
- The byte helpers of `@fantasyarcade/uint8array-utils` are not part of this model. They are written as functions: big-endian fields, and a NUL-padded fixed-length string cut at its first NUL.
- `Date.now()` is a parameter, `nowMillis`. The record stores `nowMillis / 1000`, rounded down.
- `console.log` (index.js:292) is left out.
- The device's `readBlock`, `writeBlock` and `zeroBlock` are modelled by the `Disk` class. Reads hand back a copy, and writes replace a whole block.
- The bitmap's loading and bit-marking (private/free-list.js:43-56) do nothing in the source and are not modelled; the float division in the bitmap size is integer ceiling division.
- Allocation of a further directory block when no slot is blank (index.js:291-296) is not in the source; insertion fails there, as modelled.
- Inode trees, open files and deferred unlinking are absent from the source and from the model; `delete` does not call `_purgeInode` (index.js:93-94), so `PurgeInode` is modelled on its own.
- FileSys.FileSystem.constructor: takes the ghost set of directory blocks and requires the device to satisfy the directory invariant with it, because the source's chain walks only terminate on such devices; the source checks nothing.
- FileSys.OpenFileSystem: the same requirement as the constructor.
- FileSys.CreateFileSystem: requires a device of at most 2^16 blocks with room for the bitmap and the root block, which the source takes for granted.
- FileSys.FileSystem.Valid: block sizes are whole numbers of 32-byte records, devices have at most 2^16 blocks, and the pool holds only block numbers on the device.
- FileSys.FileSystem.InsertNewDirectoryEntry: requires that a new directory record points at a directory block, which its only directory caller, `mkdir`, guarantees. It takes the type and the data pointer as the 16-bit values the field writes store: `Create` reduces its type modulo 2^16 before the call, and `Mkdir` passes a block number of the device.
- FileSys.FileSystem.Create: requires that a nonzero type is not a multiple of 2^16. The source accepts such a type (index.js:55 only refuses 0), and the 16-bit write at index.js:301 stores it as 0, which makes a directory record whose data pointer is 0; block 0 is no directory block, so that record breaks the directory invariant and the model does not follow it.
- FileSys.FileSystem.PurgeInode: requires the pointer chain to end and every freed pointer to be on the device; the source loops forever or frees out-of-range numbers otherwise.
- FileSys.FileSystem.SetType: requires that a nonzero new type is not a multiple of 2^16. The source leaves the range unchecked (index.js:125), and the write keeps the type modulo 2^16, so such a type would turn a file record into a directory record pointing at the file's data block, which breaks the directory invariant.
- FileSys.FileSystem.FreeBlockPointers: requires every freed pointer to be on the device, for the same reason as `PurgeInode`, which calls it once per pointer block.
- The reclaim loop of `rmdir` and the emptiness walk of `_removeDirectoryEntry` are factored into `ReclaimDirectoryBlocks` and `DirectoryIsEmpty`. `Rmdir` cannot reach the reclaim loop (see "## Findings"), so only `RmdirIntended` calls `ReclaimDirectoryBlocks`. The lookups before the removal's writes are factored into `FindRemoval`.

## Findings

| source | as written | input that shows it | evidently intended | confidence | as-written member | corrected member |
|---|---|---|---|---|---|---|
| index.js:84-97 | `_removeDirectoryEntry` clears the record and then falls off its end without returning (index.js:219-227), so `delete` sees no result and reports failure after removing the file | three 64-byte blocks, where block 1 is the bitmap and root block 2 holds a file record "a" (type 1) and nothing else; `delete("/a")` | report success when the record was removed | high (not executed) | FileSys.FileSystem.RemoveDirectoryEntry, FileSys.FileSystem.Delete, FileSys.DeleteOfExistingFileReportsFailure | FileSys.FileSystem.RemoveDirectoryEntryIntended, FileSys.FileSystem.DeleteIntended |
| index.js:99-117 | for the same reason `rmdir` reports failure after removing the directory, and its loop that frees the directory's blocks (index.js:109-114) is never reached | four 64-byte blocks, where block 1 is the bitmap, root block 2 holds a directory record "a" with data pointer 3, and block 3 is zeroed; `rmdir("/a")` | report success and free every block of the removed directory's chain | high (not executed) | FileSys.FileSystem.RemoveDirectoryEntry, FileSys.FileSystem.Rmdir, FileSys.RmdirOfEmptyDirectoryReportsFailure | FileSys.FileSystem.RemoveDirectoryEntryIntended, FileSys.FileSystem.RmdirIntended |
