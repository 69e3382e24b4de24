/**
 * The file system over a block device: block 0 is left alone, the free-block
 * bitmap follows from block 1, and the root directory occupies the block
 * after the bitmap. Every operation reads and writes whole blocks through
 * the device; directory records are found by walking directory chains.
 *
 * `dirBlocks` is a ghost record of the blocks that belong to directory
 * chains. The invariant `Valid` says it holds the root and is closed under
 * chain links and directory data pointers, with every chain finite; this is
 * what makes every walk and every lookup end.
 */
module FileSys {
  import opened Options
  import opened Bytes
  import opened Records
  import opened BlockDevice
  import opened FreeLists
  import opened DirectoryWalk
  import opened Directory

  /** What a removal hands back: `Refused` (false) when it fails, `NoValue`
      (undefined) when it completes without a value, or the removed record's
      data and metadata pointers. Only `Removed` counts as success. */
  datatype RemoveResult = Refused | NoValue | Removed(dataPointer: u16, metadataPointer: u16)

  class FileSystem {
    const disk: Disk
    const freelist: FreeList
    const rootDirectoryBlock: nat
    ghost var dirBlocks: set<nat>

    /** Block numbers are 16 bits wide, the directory blocks are closed and
        the pool only holds blocks of the device. */
    ghost predicate Valid()
      reads this, disk, freelist
    {
      DiskValid() && PoolValid()
    }

    ghost predicate DiskValid()
      reads this, disk
    {
      disk.Valid() && disk.blockCount <= TwoTo16 &&
      rootDirectoryBlock in dirBlocks && DirClosed(disk.blocks, dirBlocks)
    }

    ghost predicate PoolValid()
      reads freelist
    {
      Below(freelist.list, disk.blockCount)
    }

    /** Opens the file system on `disk`; the root directory follows the bitmap
        that starts at block 1. `dirs` names the directory blocks the disk holds. */
    constructor (disk: Disk, ghost dirs: set<nat>)
      requires disk.Valid() && disk.blockCount <= TwoTo16
      requires 1 + CalculateFreeListSize(disk.blockSize, disk.blockCount) in dirs
      requires DirClosed(disk.blocks, dirs)
      ensures Valid() && dirBlocks == dirs
      ensures this.disk == disk && fresh(freelist) && freelist.list == []
      ensures freelist.blockOffset == 1
      ensures freelist.blockLength == CalculateFreeListSize(disk.blockSize, disk.blockCount)
      ensures rootDirectoryBlock == freelist.blockOffset + freelist.blockLength
    {
      this.disk := disk;
      var fl := new FreeList(disk, 1);
      freelist := fl;
      rootDirectoryBlock := fl.blockOffset + fl.blockLength;
      dirBlocks := dirs;
    }

    /** Creates a file record of type `entryType` with no data block;
        directories are made by `Mkdir`, so type 0 is refused. The type field
        is 16 bits wide and keeps `entryType` modulo 2^16; a nonzero type that
        this would turn into 0 is excluded. */
    method Create(path: Path, entryType: int, nowMillis: nat) returns (ok: bool)
      requires Valid()
      requires entryType == DirectoryType || entryType % TwoTo16 != DirectoryType
      modifies disk
      ensures Valid()
      ensures var plan := PlanInsert(old(disk.blocks), dirBlocks, rootDirectoryBlock, path);
              ok == (entryType != DirectoryType && plan.Some?) &&
              disk.blocks == if ok then ApplyInsert(old(disk.blocks), plan.value, Basename(path), StoredType(entryType), 0, nowMillis / 1000)
                             else old(disk.blocks)
    {
      if entryType == DirectoryType {
        return false;
      }
      ok := InsertNewDirectoryEntry(path, StoredType(entryType), 0, nowMillis);
    }

    /** Makes a directory: takes a block from the pool, zeroes it and records
        it under `path`; when the record cannot be added the block goes back
        to the pool, zeroed. Fails at once when the pool is empty. */
    method Mkdir(path: Path, nowMillis: nat) returns (ok: bool)
      requires Valid()
      modifies this, disk, freelist
      ensures Valid()
      ensures old(freelist.list) == [] ==>
                !ok && disk.blocks == old(disk.blocks) && freelist.list == [] && dirBlocks == old(dirBlocks)
      ensures old(freelist.list) != [] ==>
                var pool := old(freelist.list);
                var b := pool[|pool| - 1];
                var zeroed := old(disk.blocks)[b := Zeros(disk.blockSize)];
                var plan := PlanMkdir(old(disk.blocks), old(dirBlocks), rootDirectoryBlock, path, b);
                dirBlocks == old(dirBlocks) + {b} &&
                ok == plan.Some? &&
                disk.blocks == (if ok then ApplyInsert(zeroed, plan.value, Basename(path), DirectoryType, b as u16, nowMillis / 1000)
                                else zeroed) &&
                freelist.list == if ok then pool[..|pool| - 1] else pool
    {
      var newDirBlock := freelist.Alloc();
      if newDirBlock < 0 {
        return false;
      }
      ghost var d := disk.blocks;
      disk.ZeroBlock(newDirBlock);
      ZeroKeepsClosed(d, dirBlocks, newDirBlock);
      dirBlocks := dirBlocks + {newDirBlock};
      ok := InsertNewDirectoryEntry(path, DirectoryType, newDirBlock as u16, nowMillis);
      if !ok {
        freelist.Free(newDirBlock);
        return false;
      }
    }

    /** Deletes the file `path`. The removal as written hands back no value
        when it succeeds, which counts as a failure here, so this reports
        failure on every path, also after the record has been cleared. */
    method Delete(path: Path) returns (ok: bool)
      requires Valid()
      modifies disk
      ensures Valid()
      ensures !ok
      ensures var plan := PlanRemove(old(disk.blocks), dirBlocks, rootDirectoryBlock, path, false);
              disk.blocks == if plan.Some? then ApplyRemove(old(disk.blocks), plan.value) else old(disk.blocks)
    {
      var res := RemoveDirectoryEntry(path, false);
      if !res.Removed? {
        return false;
      }
      // the removal as written never hands back the record's pointers
      assert false;
      return true;
    }

    /** Deletes the file `path`, reporting whether its record was removed. */
    method DeleteIntended(path: Path) returns (ok: bool)
      requires Valid()
      modifies disk
      ensures Valid()
      ensures var plan := PlanRemove(old(disk.blocks), dirBlocks, rootDirectoryBlock, path, false);
              ok == plan.Some? &&
              disk.blocks == if plan.Some? then ApplyRemove(old(disk.blocks), plan.value) else old(disk.blocks)
    {
      var res := RemoveDirectoryEntryIntended(path, false);
      if !res.Removed? {
        return false;
      }
      return true;
    }

    /** Removes the empty directory `path`. The removal as written hands back
        no value when it succeeds, which counts as a failure here, so this
        reports failure on every path and never reaches the loop that returns
        the directory's blocks to the pool. */
    method Rmdir(path: Path) returns (ok: bool)
      requires Valid()
      modifies disk
      ensures Valid()
      ensures !ok
      ensures var plan := PlanRemove(old(disk.blocks), dirBlocks, rootDirectoryBlock, path, true);
              disk.blocks == if plan.Some? then ApplyRemove(old(disk.blocks), plan.value) else old(disk.blocks)
    {
      var res := RemoveDirectoryEntry(path, true);
      if !res.Removed? {
        return false;
      }
      // the removal as written never hands back the record's pointers
      assert false;
      return true;
    }

    /** Removes the empty directory `path` and returns every block of its
        chain to the pool, first block first; reports whether it was removed. */
    method RmdirIntended(path: Path) returns (ok: bool)
      requires Valid()
      modifies disk, freelist
      ensures Valid()
      ensures var plan := PlanRemove(old(disk.blocks), dirBlocks, rootDirectoryBlock, path, true);
              ok == plan.Some? &&
              disk.blocks == (if plan.Some? then ApplyRemove(old(disk.blocks), plan.value) else old(disk.blocks)) &&
              freelist.list == old(freelist.list) + (if plan.Some? then ReclaimedBlocks(disk.blocks, dirBlocks, plan.value) else [])
    {
      var res := RemoveDirectoryEntryIntended(path, true);
      if !res.Removed? {
        return false;
      }
      ReclaimDirectoryBlocks(res.dataPointer as nat);
      return true;
    }

    /** Returns every block of the directory chain starting at `victimBlock`
        to the pool, first block first; nothing when it is 0. */
    method ReclaimDirectoryBlocks(victimBlock: nat)
      requires Valid() && (victimBlock == 0 || victimBlock in dirBlocks)
      modifies freelist
      ensures Valid()
      ensures freelist.list == old(freelist.list) +
                               if victimBlock == 0 then [] else AsInts(DirectoryChain(disk.blocks, dirBlocks, victimBlock))
    {
      ghost var d := disk.blocks;
      ghost var chain := if victimBlock == 0 then [] else DirectoryChain(d, dirBlocks, victimBlock);
      ghost var k := 0;
      var b := victimBlock;
      while b != 0
        invariant k <= |chain| && (k < |chain| ==> chain[k] == b && b != 0) && (k == |chain| ==> b == 0)
        invariant Valid() && disk.blocks == d
        invariant old(freelist.list) + AsInts(chain) == freelist.list + AsInts(chain[k..])
        decreases |chain| - k
      {
        assert k < |chain|;
        ReclaimStep(d, dirBlocks, victimBlock, k);
        var vbd := disk.ReadBlock(b);
        ghost var before := freelist.list;
        BelowSplit(before, [b as int], disk.blockCount);
        ConcatAssoc(before, [b as int], AsInts(chain[k + 1..]));
        freelist.Free(b);
        b := NextBlock(vbd) as nat;
        k := k + 1;
      }
    }

    /** Gives the record `path` names the type `newType`, writing its block
        back; fails for type 0, for a missing record and for a directory. The
        field keeps `newType` modulo 2^16; a nonzero type that this would turn
        into 0 is excluded. */
    method SetType(path: Path, newType: int) returns (ok: bool)
      requires Valid()
      requires newType == DirectoryType || newType % TwoTo16 != DirectoryType
      modifies disk
      ensures Valid()
      ensures var r := Resolve(old(disk.blocks), dirBlocks, rootDirectoryBlock, path);
              ok == (newType != DirectoryType && r.Some? && !IsDirectory(r.value.data, r.value.offset)) &&
              disk.blocks == if ok then old(disk.blocks)[r.value.block := WriteType(r.value.data, r.value.offset, newType)]
                             else old(disk.blocks)
    {
      ghost var d := disk.blocks;
      ghost var dirs := dirBlocks;
      if newType == DirectoryType {
        return false;
      }
      var entry := FindDirectoryEntryForPath(path);
      if entry.None? {
        return false;
      }
      var l := entry.value;
      if ReadType(l.data, l.offset) == DirectoryType {
        return false;
      }
      var data := WriteType(l.data, l.offset, newType);
      RetypeEffect(l.data, l.offset, newType);
      ClosedBlock(d, dirs, l.block);
      RecordWriteKeepsRecordsClosed(l.data, data, l.offset, dirs);
      BlockWriteKeepsClosed(d, dirs, l.block, data);
      disk.WriteBlock(l.block, data);
      return true;
    }

    /** Visits the slots of the directory chain starting at `block`, block by
        block and in ascending offsets, blank slots only when `includeBlank`,
        handing each to the callback `v` until it asks to stop; returns the
        block it stopped in, or the last block of the chain. */
    method WalkDirectoryEntries(block: nat, includeBlank: bool, v: Visitor) returns (last: nat, c: Captured)
      requires disk.Valid() && Walkable(disk.blocks, block)
      ensures (last, c) == WalkSpec(disk.blocks, ChainOf(disk.blocks, block), includeBlank, v)
    {
      ghost var d := disk.blocks;
      ghost var chain := ChainOf(d, block);
      ghost var total := Fold(v, Initial, Visible(d, chain, includeBlank));
      ghost var k := 0;
      c := Initial;
      var b := block;
      while true
        invariant k < |chain| && chain[k] == b
        invariant total == Fold(v, c, Visible(d, chain[k..], includeBlank))
        decreases |chain| - k
      {
        DirectoryChainLinks(d, block, k);
        var data := disk.ReadBlock(b);
        assert data == d[chain[k]];
        ghost var c0 := c;
        var stopped;
        c, stopped := VisitBlock(b, data, includeBlank, v, c);
        WalkBlockOutcome(d, chain, k, includeBlank, v, c0, c, stopped);
        var next := NextBlock(data);
        if stopped || next == 0 {
          last := b;
          return;
        }
        b := next as nat;
        k := k + 1;
      }
    }

    /** One block of a walk: offsets 0, 32, ... below the link region. */
    static method VisitBlock(b: nat, data: seq<byte>, includeBlank: bool, v: Visitor, c0: Captured)
      returns (c: Captured, stopped: bool)
      requires |data| >= EntrySize && |data| % EntrySize == 0
      ensures (c, stopped) == BlockFold(v, c0, b, data, 0, includeBlank)
    {
      ghost var target := BlockFold(v, c0, b, data, 0, includeBlank);
      var end := |data| - EntrySize;
      var i := 0;
      c := c0;
      while i < end
        invariant 0 <= i <= end && i % EntrySize == 0
        invariant target == BlockFold(v, c, b, data, i, includeBlank)
      {
        if includeBlank || data[i] != 0 {
          var r := Step(v, c, Loc(b, data, i));
          c := r.0;
          if !r.1 {
            return c, true;
          }
        }
        NextSlotAligned(i);
        i := i + EntrySize;
      }
      stopped := false;
    }

    /** The record `path` names, found one component at a time from the root:
        the first live record with the component's name decides, an earlier
        component must name a directory. "/" has no record. */
    method FindDirectoryEntryForPath(path: Path) returns (r: Option<Loc>)
      requires Valid()
      ensures r == Resolve(disk.blocks, dirBlocks, rootDirectoryBlock, path)
    {
      ghost var d := disk.blocks;
      ghost var dirs := dirBlocks;
      if path == [] {
        // the component after the root is missing, so no record matches
        return None;
      }
      assert path[0..] == path;
      var searchBlock := rootDirectoryBlock;
      var i := 0;
      while true
        invariant i < |path| && searchBlock in dirs
        invariant Resolve(d, dirs, rootDirectoryBlock, path) == ResolveFrom(d, dirs, searchBlock, path[i..])
        decreases |path| - i
      {
        var last := i == |path| - 1;
        ClosedBlock(d, dirs, searchBlock);
        var stop, c := WalkDirectoryEntries(searchBlock, false, Match(path[i], last));
        assert (stop, c) == Walk(d, dirs, searchBlock, false, Match(path[i], last));
        MatchFindsFirstNamed(path[i], last, Initial, DirSlots(d, dirs, searchBlock, false));
        assert path[i..][0] == path[i] && (last <==> |path[i..]| == 1);
        match c.hit {
          case Found(l) =>
            return Some(l);
          case Descend(next) =>
            assert path[i..][1..] == path[i + 1..];
            searchBlock := next as nat;
            i := i + 1;
          case _ =>
            return None;
        }
      }
    }

    /** The first block of the directory `path` names, or -1 when it names no directory. */
    method FindBlockForDirectory(path: Path) returns (block: int)
      requires Valid()
      ensures block == match DirectoryBlock(disk.blocks, dirBlocks, rootDirectoryBlock, path)
                       case None => -1
                       case Some(b) => b as int
    {
      if path == [] {
        return rootDirectoryBlock;
      }
      var res := FindDirectoryEntryForPath(path);
      if res.None? {
        return -1;
      }
      var l := res.value;
      if !IsDirectory(l.data, l.offset) {
        return -1;
      }
      return ReadDataPointer(l.data, l.offset) as int;
    }

    /** The entries of the directory `path`, blank slots skipped; None when
        `path` names no directory. */
    method List(path: Path) returns (files: Option<seq<Entry>>)
      requires Valid()
      ensures files == Listing(disk.blocks, dirBlocks, rootDirectoryBlock, path)
    {
      ghost var d := disk.blocks;
      ghost var dirs := dirBlocks;
      var block := FindBlockForDirectory(path);
      if block == -1 {
        return None;
      }
      ClosedBlock(d, dirs, block as nat);
      var stop, c := WalkDirectoryEntries(block as nat, false, Collect);
      assert (stop, c) == Walk(d, dirs, block as nat, false, Collect);
      CollectParsesAll(Initial, DirSlots(d, dirs, block as nat, false));
      assert [] + Parsed(DirSlots(d, dirs, block as nat, false)) == Parsed(DirSlots(d, dirs, block as nat, false));
      return Some(c.files);
    }

    /** The parent directory of `path` for insertion and removal: below the
        root its record must resolve and be a directory. */
    method LocateParentEntry(path: Path) returns (parent: Option<Parent>)
      requires Valid()
      ensures parent == LocateParent(disk.blocks, dirBlocks, rootDirectoryBlock, path)
    {
      var dir := Dirname(path);
      if dir != [] {
        var entry := FindDirectoryEntryForPath(dir);
        if entry.None? {
          return None;
        }
        var p := entry.value;
        if !IsDirectory(p.data, p.offset) {
          return None;
        }
        return Some(Parent(Some(p), ReadDataPointer(p.data, p.offset) as nat));
      } else {
        // the directory block of "/" is the root, never negative
        var dirBlock := FindBlockForDirectory(dir);
        return Some(Parent(None, dirBlock as nat));
      }
    }

    /** Adds a record for `path` to its parent directory: fails when the
        parent is missing or not a directory, when a live record already has
        the name, or when no slot is blank; otherwise fills the first blank
        slot and, below the root, writes the parent's record back with its
        size raised by one. The time is `nowMillis`, stored in whole seconds. */
    method InsertNewDirectoryEntry(path: Path, entryType: u16, dataPointer: u16, nowMillis: nat) returns (ok: bool)
      requires Valid()
      requires entryType == DirectoryType ==> dataPointer as nat in dirBlocks
      modifies disk
      ensures Valid()
      ensures var plan := PlanInsert(old(disk.blocks), dirBlocks, rootDirectoryBlock, path);
              ok == plan.Some? &&
              disk.blocks == if ok then ApplyInsert(old(disk.blocks), plan.value, Basename(path), entryType, dataPointer, nowMillis / 1000)
                             else old(disk.blocks)
    {
      ghost var d := disk.blocks;
      ghost var dirs := dirBlocks;
      var parent := LocateParentEntry(path);
      if parent.None? {
        return false;
      }
      var dirBlock := parent.value.dirBlock;
      var name := Basename(path);
      ClosedBlock(d, dirs, dirBlock);
      var lastBlock, c := WalkDirectoryEntries(dirBlock, true, Vacancy(name));
      assert (lastBlock, c) == Walk(d, dirs, dirBlock, true, Vacancy(name));
      InsertionByWalk(d, dirs, rootDirectoryBlock, path, parent.value, c);
      if c.clash {
        return false;
      }
      if c.vacancy.None? {
        // allocating a further directory block is not implemented
        return false;
      }
      var slot := c.vacancy.value;
      ghost var plan := Insertion(parent.value, slot);
      var modified := nowMillis / 1000;
      FillDirectoryEntry(slot, name, entryType, dataPointer, modified);
      WriteParentSize(parent.value.record, 1);
      InsertKeepsClosed(d, dirs, plan, name, entryType, dataPointer, modified);
      assert DirClosed(disk.blocks, dirs);
      return true;
    }

    /** Removes the record for `path` from its parent directory: fails when
        the parent is missing or not a directory, when no live record has the
        name, when a directory is to be removed and the record is not one or
        its own directory still holds a live record, and when a file is to be
        removed and the record is a directory. Otherwise clears the record's
        32 bytes and, below the root, writes the parent's record back with its
        size lowered by one. As written it hands back `Refused` when it fails
        and no value at all when it succeeds: neither carries the record's
        pointers. */
    method RemoveDirectoryEntry(path: Path, deletingDirectory: bool) returns (res: RemoveResult)
      requires Valid()
      modifies disk
      ensures Valid()
      ensures var plan := PlanRemove(old(disk.blocks), dirBlocks, rootDirectoryBlock, path, deletingDirectory);
              res == (if plan.Some? then NoValue else Refused) &&
              disk.blocks == if plan.Some? then ApplyRemove(old(disk.blocks), plan.value) else old(disk.blocks)
    {
      var plan := FindRemoval(path, deletingDirectory);
      if plan.None? {
        return Refused;
      }
      ClearRemovedEntry(plan.value);
      return NoValue;
    }

    /** The removal of `RemoveDirectoryEntry` handing back, when it succeeds,
        the removed record's data and metadata pointers. */
    method RemoveDirectoryEntryIntended(path: Path, deletingDirectory: bool) returns (res: RemoveResult)
      requires Valid()
      modifies disk
      ensures Valid()
      ensures var plan := PlanRemove(old(disk.blocks), dirBlocks, rootDirectoryBlock, path, deletingDirectory);
              res.Removed? == plan.Some? &&
              (res.Refused? <==> plan.None?) &&
              disk.blocks == (if plan.Some? then ApplyRemove(old(disk.blocks), plan.value) else old(disk.blocks)) &&
              (plan.Some? ==>
                 var v := plan.value.victim;
                 res == Removed(ReadDataPointer(v.data, v.offset), ReadMetadataPointer(v.data, v.offset)))
    {
      var plan := FindRemoval(path, deletingDirectory);
      if plan.None? {
        return Refused;
      }
      var f := plan.value.victim;
      res := Removed(ReadDataPointer(f.data, f.offset), ReadMetadataPointer(f.data, f.offset));
      ClearRemovedEntry(plan.value);
    }

    /** The reads of a removal: the parent, the walk for the victim over its
        live slots, the type check and, for a directory, the emptiness walk. */
    method FindRemoval(path: Path, deletingDirectory: bool) returns (plan: Option<Removal>)
      requires Valid()
      ensures plan == PlanRemove(disk.blocks, dirBlocks, rootDirectoryBlock, path, deletingDirectory)
    {
      ghost var d := disk.blocks;
      ghost var dirs := dirBlocks;
      var parent := LocateParentEntry(path);
      if parent.None? {
        return None;
      }
      var dirBlock := parent.value.dirBlock;
      var victim := Basename(path);
      ClosedBlock(d, dirs, dirBlock);
      var stop, c := WalkDirectoryEntries(dirBlock, false, Match(victim, true));
      assert (stop, c) == Walk(d, dirs, dirBlock, false, Match(victim, true));
      RemovalByWalk(d, dirs, rootDirectoryBlock, path, deletingDirectory, parent.value, c);
      if !c.hit.Found? {
        return None;
      }
      var f := c.hit.loc;
      if deletingDirectory {
        if !IsDirectory(f.data, f.offset) {
          return None;
        }
        var empty := DirectoryIsEmpty(ReadDataPointer(f.data, f.offset) as nat);
        if !empty {
          return None;
        }
      } else if IsDirectory(f.data, f.offset) {
        return None;
      }
      plan := Some(Removal(parent.value, f));
    }

    /** Whether the directory whose first block is `block` holds no record: a
        walk that stops at the first live record it meets. */
    method DirectoryIsEmpty(block: nat) returns (empty: bool)
      requires Valid() && block in dirBlocks
      ensures empty == (DirSlots(disk.blocks, dirBlocks, block, false) == [])
    {
      ClosedBlock(disk.blocks, dirBlocks, block);
      var stop, c := WalkDirectoryEntries(block, false, Occupied);
      assert (stop, c) == Walk(disk.blocks, dirBlocks, block, false, Occupied);
      OccupiedIffAnySlot(Initial, DirSlots(disk.blocks, dirBlocks, block, false));
      empty := !c.occupied;
    }

    /** The writes of a removal: the victim's block with the record zeroed,
        then the parent's record with its size lowered by one. */
    method ClearRemovedEntry(rm: Removal)
      requires Valid() && RemovalOn(disk.blocks, dirBlocks, rm)
      modifies disk
      ensures Valid()
      ensures disk.blocks == ApplyRemove(old(disk.blocks), rm)
    {
      ghost var d := disk.blocks;
      var f := rm.victim;
      var fd := ClearDirectoryEntry(f.data, f.offset);
      disk.WriteBlock(f.block, fd);
      WriteParentSize(rm.parent.record, -1);
      RemoveKeepsClosed(d, dirBlocks, rm);
    }

    /** Writes the seven fields of a new record into the slot's copy of its
        block, then the block: the slot then holds exactly the encoded record. */
    method FillDirectoryEntry(slot: Loc, name: seq<byte>, entryType: u16, dataPointer: u16, modified: nat)
      requires disk.Valid() && slot.block < disk.blockCount && ValidLoc(slot) && |slot.data| == disk.blockSize
      modifies disk
      ensures disk.Valid()
      ensures disk.blocks == old(disk.blocks)[slot.block := FillEntry(slot.data, slot.offset, name, entryType, dataPointer, modified)]
    {
      FieldWritesFillEntry(slot.data, slot.offset, name, entryType, dataPointer, modified);
      var fd := slot.data;
      fd := WriteFixedLengthAsciiString(fd, slot.offset, NameLength, name);
      fd := WriteUint16BE(fd, slot.offset + 16, entryType);
      fd := WriteUint16BE(fd, slot.offset + 18, dataPointer);
      fd := WriteUint16BE(fd, slot.offset + 20, 0);
      fd := WriteUint32BE(fd, slot.offset + 22, modified);
      fd := WriteUint32BE(fd, slot.offset + 26, 0);
      fd := WriteUint16BE(fd, slot.offset + 30, 0);
      disk.WriteBlock(slot.block, fd);
    }

    /** Below the root, writes the parent's record, from the copy read during
        the lookup, back with its size moved by `delta`. */
    method WriteParentSize(record: Option<Loc>, delta: int)
      requires disk.Valid()
      requires record.Some? ==> record.value.block < disk.blockCount && ValidLoc(record.value) &&
                                |record.value.data| == disk.blockSize
      modifies disk
      ensures disk.Valid()
      ensures disk.blocks == AdjustParentSize(old(disk.blocks), record, delta)
    {
      if record.Some? {
        var p := record.value;
        var pd := WriteSize(p.data, p.offset, ReadSize(p.data, p.offset) + delta);
        disk.WriteBlock(p.block, pd);
      }
    }

    /** Frees every nonzero block number held in the pointer blocks of the
        chain starting at `block`, whose link is the last two bytes of each
        block; nothing when `block` is 0. The pointer blocks themselves stay
        allocated. */
    method PurgeInode(block: nat)
      requires Valid()
      requires PointerChainEnds(disk.blocks, block, |disk.blocks|)
      requires Below(Purged(disk.blocks, block), disk.blockCount)
      modifies freelist
      ensures Valid()
      ensures freelist.list == old(freelist.list) + Purged(disk.blocks, block)
    {
      ghost var d := disk.blocks;
      ghost var fuel: nat := |d|;
      var b := block;
      while b != 0
        invariant Valid() && disk.blocks == d
        invariant PointerChainEnds(d, b, fuel)
        invariant old(freelist.list) + Purged(d, block) == freelist.list + PurgedFrom(d, b, fuel)
        invariant Below(PurgedFrom(d, b, fuel), disk.blockCount)
        decreases fuel
      {
        PurgedStep(d, b, fuel);
        var data := disk.ReadBlock(b);
        assert data == d[b];
        BelowSplit(BlockPointers(data, 0), PurgedFrom(d, NextPointerBlock(data) as nat, fuel - 1), disk.blockCount);
        ConcatAssoc(freelist.list, BlockPointers(data, 0), PurgedFrom(d, NextPointerBlock(data) as nat, fuel - 1));
        FreeBlockPointers(data);
        b := NextPointerBlock(data) as nat;
        fuel := fuel - 1;
      }
    }

    /** Frees the nonzero block numbers of one pointer block, lowest offset first. */
    method FreeBlockPointers(data: seq<byte>)
      requires Valid() && |data| == disk.blockSize
      requires Below(BlockPointers(data, 0), disk.blockCount)
      modifies freelist
      ensures Valid()
      ensures freelist.list == old(freelist.list) + BlockPointers(data, 0)
    {
      var end := disk.blockSize - 2;
      var i := 0;
      while i < end
        invariant 0 <= i <= end && i % 2 == 0
        invariant Valid()
        invariant old(freelist.list) + BlockPointers(data, 0) == freelist.list + BlockPointers(data, i)
        invariant Below(BlockPointers(data, i), disk.blockCount)
        decreases end - i
      {
        var p := ReadUint16BE(data, i);
        ghost var rest := BlockPointers(data, i + 2);
        assert BlockPointers(data, i) == (if p != 0 then [p as int] else []) + rest;
        BelowSplit(if p != 0 then [p as int] else [], rest, disk.blockCount);
        if p != 0 {
          ConcatAssoc(freelist.list, [p as int], rest);
          BelowSplit(freelist.list, [p as int], disk.blockCount);
          freelist.Free(p as int);
        }
        i := i + 2;
      }
    }
  }

  /** The value a 16-bit field write keeps of `t`. */
  function StoredType(t: int): u16
  {
    t % TwoTo16
  }

  /** Every element of `s` is a block number below `n`. */
  predicate Below(s: seq<int>, n: nat)
  {
    forall k | 0 <= k < |s| :: 0 <= s[k] < n
  }

  lemma BelowSplit(a: seq<int>, b: seq<int>, n: nat)
    ensures Below(a + b, n) <==> Below(a, n) && Below(b, n)
  {
    if Below(a + b, n) {
      forall k | 0 <= k < |a|
        ensures 0 <= a[k] < n
      {
        assert a[k] == (a + b)[k];
      }
      forall k | 0 <= k < |b|
        ensures 0 <= b[k] < n
      {
        assert b[k] == (a + b)[|a| + k];
      }
    }
  }

  /** The link of a pointer block: its last two bytes. */
  function NextPointerBlock(data: seq<byte>): u16
    requires |data| >= 2
  {
    ReadUint16BE(data, |data| - 2)
  }

  /** The pointer-block chain from `b`, linked through the last two bytes of
      each block, stays on the device and reaches a link of 0 within `fuel`
      blocks. */
  predicate PointerChainEnds(d: Image, b: nat, fuel: nat)
    decreases fuel
  {
    b != 0 ==>
      b < |d| && |d[b]| >= 2 && fuel > 0 && PointerChainEnds(d, NextPointerBlock(d[b]) as nat, fuel - 1)
  }

  /** The nonzero 16-bit block numbers at offsets `i`, `i + 2`, ... up to the
      link in the last two bytes of a pointer block, in order. */
  function BlockPointers(data: seq<byte>, i: nat): (r: seq<int>)
    ensures forall k | 0 <= k < |r| :: 0 < r[k] < TwoTo16
    decreases |data| - i
  {
    if i + 2 >= |data| then []
    else
      var p := ReadUint16BE(data, i);
      (if p != 0 then [p as int] else []) + BlockPointers(data, i + 2)
  }

  /** The block numbers held in the pointer blocks of the chain from `b`,
      block by block, following at most `fuel` links. */
  function PurgedFrom(d: Image, b: nat, fuel: nat): seq<int>
    decreases fuel
  {
    if b == 0 || b >= |d| || |d[b]| < 2 || fuel == 0 then []
    else BlockPointers(d[b], 0) + PurgedFrom(d, NextPointerBlock(d[b]) as nat, fuel - 1)
  }

  /** What `PurgeInode(block)` frees. */
  function Purged(d: Image, block: nat): seq<int>
  {
    PurgedFrom(d, block, |d|)
  }

  /** One block of a chain that ends: the block is on the device, what it
      frees comes first, and the rest of the chain ends too. */
  lemma PurgedStep(d: Image, b: nat, fuel: nat)
    requires b != 0 && PointerChainEnds(d, b, fuel)
    ensures b < |d| && |d[b]| >= 2 && fuel > 0
    ensures var next := NextPointerBlock(d[b]) as nat;
            PurgedFrom(d, b, fuel) == BlockPointers(d[b], 0) + PurgedFrom(d, next, fuel - 1) &&
            PointerChainEnds(d, next, fuel - 1)
  {
  }

  /** A block number is freed from a pointer block exactly when some even
      offset before the link holds it and it is not 0. */
  lemma {:induction false} BlockPointersAreSlots(data: seq<byte>, i: nat, p: int)
    requires i % 2 == 0
    ensures p in BlockPointers(data, i) <==>
            p != 0 && exists j :: i <= j && j % 2 == 0 && j + 2 < |data| && ReadUint16BE(data, j) as int == p
    decreases |data| - i
  {
    if i + 2 < |data| {
      BlockPointersAreSlots(data, i + 2, p);
      if p != 0 && ReadUint16BE(data, i) as int != p {
        if exists j :: i <= j && j % 2 == 0 && j + 2 < |data| && ReadUint16BE(data, j) as int == p {
          var j :| i <= j && j % 2 == 0 && j + 2 < |data| && ReadUint16BE(data, j) as int == p;
          assert j != i && i + 2 <= j;
        }
      }
    }
  }

  /** The blocks of the removed directory's chain in the image after the
      removal; none when its data pointer is 0. */
  ghost function ReclaimedBlocks(d: Image, dirs: set<nat>, rm: Removal): seq<int>
    requires DirClosed(d, dirs) && ValidLoc(rm.victim)
    requires ReadDataPointer(rm.victim.data, rm.victim.offset) as nat in dirs
  {
    var b := ReadDataPointer(rm.victim.data, rm.victim.offset) as nat;
    if b == 0 then [] else AsInts(DirectoryChain(d, dirs, b))
  }

  /** The blocks of the directory chain starting at `b`, in order. */
  ghost function DirectoryChain(d: Image, dirs: set<nat>, b: nat): (chain: seq<nat>)
    requires DirClosed(d, dirs) && b in dirs
    ensures |chain| >= 1 && chain[0] == b
    ensures forall k | 0 <= k < |chain| :: chain[k] < |d|
  {
    ClosedBlock(d, dirs, b);
    ChainOf(d, b)
  }

  /** The insertion `Mkdir` attempts: into the image with block `b` zeroed,
      `b` joining the directory blocks. */
  ghost function PlanMkdir(d: Image, dirs: set<nat>, root: nat, path: Path, b: nat): Option<Insertion>
    requires DirClosed(d, dirs) && root in dirs && b < |d|
  {
    ZeroKeepsClosed(d, dirs, b);
    PlanInsert(d[b := Zeros(|d[b]|)], dirs + {b}, root, path)
  }

  /** One block of a directory chain: where it is, where its link leads,
      and the chain from it on is that block followed by the rest. */
  lemma ReclaimStep(d: Image, dirs: set<nat>, b: nat, k: nat)
    requires DirClosed(d, dirs) && b in dirs && k < |DirectoryChain(d, dirs, b)|
    ensures var chain := DirectoryChain(d, dirs, b);
            chain[k] < |d| && |d[chain[k]]| >= EntrySize &&
            (NextBlock(d[chain[k]]) == 0 <==> k + 1 == |chain|) &&
            (k + 1 < |chain| ==> chain[k + 1] == NextBlock(d[chain[k]]) as nat) &&
            AsInts(chain[k..]) == [chain[k] as int] + AsInts(chain[k + 1..])
  {
    ClosedBlock(d, dirs, b);
    DirectoryChainLinks(d, b, k);
    var chain := DirectoryChain(d, dirs, b);
    assert AsInts(chain[k..]) == [chain[k] as int] + AsInts(chain[k + 1..]);
  }

  lemma ConcatAssoc(a: seq<int>, b: seq<int>, c: seq<int>)
    ensures a + (b + c) == (a + b) + c
  {
  }

  function AsInts(s: seq<nat>): (r: seq<int>)
    ensures |r| == |s| && forall k | 0 <= k < |s| :: r[k] == s[k] as int
  {
    seq(|s|, k requires 0 <= k < |s| => s[k] as int)
  }

  /** Formats `disk`: the bitmap blocks from block 1 on are filled with ones
      and the root directory block after them is zeroed; then the file system
      is opened on it. */
  method CreateFileSystem(disk: Disk) returns (fs: FileSystem)
    requires disk.Valid() && disk.blockCount <= TwoTo16
    requires 2 + CalculateFreeListSize(disk.blockSize, disk.blockCount) <= disk.blockCount
    modifies disk
    ensures fs.Valid() && fs.disk == disk && fresh(fs) && fresh(fs.freelist) && fs.freelist.list == []
    ensures fs.rootDirectoryBlock == 1 + CalculateFreeListSize(disk.blockSize, disk.blockCount)
    ensures fs.dirBlocks == {fs.rootDirectoryBlock}
    ensures |disk.blocks| == |old(disk.blocks)|
    ensures forall k | 0 <= k < |disk.blocks| ::
              disk.blocks[k] == if 1 <= k < fs.rootDirectoryBlock then Filled(disk.blockSize)
                                else if k == fs.rootDirectoryBlock then Zeros(disk.blockSize)
                                else old(disk.blocks[k])
    ensures Listing(disk.blocks, fs.dirBlocks, fs.rootDirectoryBlock, []) == Some([])
  {
    var rootDirBlock := FreeList.WriteInitial(disk, 1);
    ghost var d := disk.blocks;
    disk.WriteBlock(rootDirBlock, Zeros(disk.blockSize));
    assert DirClosed(d, {});
    ZeroKeepsClosed(d, {}, rootDirBlock);
    assert {} + {rootDirBlock} == {rootDirBlock};
    ZeroedDirectoryIsEmpty(disk.blocks, {rootDirBlock}, rootDirBlock);
    fs := new FileSystem(disk, {rootDirBlock});
  }

  /** Opens the file system already on `disk`; nothing is read or checked.
      `dirs` names the directory blocks the disk holds. */
  method OpenFileSystem(disk: Disk, ghost dirs: set<nat>) returns (fs: FileSystem)
    requires disk.Valid() && disk.blockCount <= TwoTo16
    requires 1 + CalculateFreeListSize(disk.blockSize, disk.blockCount) in dirs
    requires DirClosed(disk.blocks, dirs)
    ensures fs.Valid() && fs.disk == disk && fresh(fs) && fs.dirBlocks == dirs
    ensures fs.freelist.list == []
    ensures fs.rootDirectoryBlock == 1 + CalculateFreeListSize(disk.blockSize, disk.blockCount)
  {
    fs := new FileSystem(disk, dirs);
  }

  // ----- a removal that is reported as a failure -----

  /** On a device of up to 8 * 64 blocks of 64 bytes the bitmap is block 1
      and the root directory is block 2. */
  lemma SmallDeviceRoot(blockCount: nat)
    requires 0 < blockCount <= 8 * 64
    ensures 1 + CalculateFreeListSize(64, blockCount) == 2
  {
  }

  /** A 64-byte directory block whose one slot holds a file record named "a"
      (type 1) and whose link is 0. */
  function FileABlock(): (data: seq<byte>)
    ensures |data| == 64
  {
    Zeros(64)[0 := 97][17 := 1]
  }

  /** A device of three 64-byte blocks as `CreateFileSystem` leaves it, with
      the file "a" then created in the root: block 1 is the bitmap and the
      root directory is block 2. Removing "/a" takes a record out and changes
      the device, so `Delete`, which reports failure on every path, reports
      failure for a removal that happened, while `DeleteIntended` reports
      success. */
  lemma DeleteOfExistingFileReportsFailure()
    ensures var d := [Zeros(64), Filled(64), FileABlock()];
            var root := 1 + CalculateFreeListSize(64, |d|);
            root == 2 && DirClosed(d, {root}) &&
            var plan := PlanRemove(d, {root}, root, [[97]], false);
            plan.Some? && ApplyRemove(d, plan.value) != d
  {
    var blk := FileABlock();
    var d := [Zeros(64), Filled(64), blk];
    SmallDeviceRoot(|d|);
    var l := Loc(2, blk, 0);
    FileABlockWalk();
    assert ReadFilename(blk, 0) == [97] by {
      assert blk[0..16] == [97] + seq(15, _ => 0);
    }
    assert FirstNamed([l], [97]) == Some(0);
    var plan := PlanRemove(d, {2}, 2, [[97]], false);
    assert plan == Some(Removal(Parent(None, 2), l));
    assert ApplyRemove(d, plan.value)[2][0] == 0;
  }

  /** The example device satisfies the directory invariant: its root is a
      chain of one block with no directory record. */
  lemma FileABlockClosed()
    ensures var d := [Zeros(64), Filled(64), FileABlock()];
            DirClosed(d, {2}) && Walkable(d, 2) && ChainOf(d, 2) == [2]
  {
    var blk := FileABlock();
    var d := [Zeros(64), Filled(64), blk];
    assert LinkChain(d, 2, EntrySize, |d|) == Some([2]);
    assert RecordsClosed(blk, {2}) by {
      assert forall o | IsSlot(blk, o) :: o == 0;
      assert ReadType(blk, 0) == 1;
    }
    assert ClosedAt(d, {2}, 2);
  }

  /** A walk of the example's root visits its one live slot. */
  lemma FileABlockWalk()
    ensures var d := [Zeros(64), Filled(64), FileABlock()];
            DirClosed(d, {2}) && DirSlots(d, {2}, 2, false) == [Loc(2, FileABlock(), 0)]
  {
    var blk := FileABlock();
    var d := [Zeros(64), Filled(64), blk];
    FileABlockClosed();
    assert BlockSlots(2, blk, 32, false) == [];
    assert BlockSlots(2, blk, 0, false) == [Loc(2, blk, 0)];
    assert Visible(d, [2], false) == [Loc(2, blk, 0)] by {
      assert Visible(d, [2][1..], false) == [];
    }
  }

  /** A 64-byte directory block whose one slot holds a directory record named
      "a" with data pointer 3, and whose link is 0. */
  function DirABlock(): (data: seq<byte>)
    ensures |data| == 64
  {
    Zeros(64)[0 := 97][19 := 3]
  }

  /** The example device of four 64-byte blocks, with the bitmap in block 1,
      the root in block 2 and an empty directory "a" in block 3, satisfies
      the directory invariant with directory blocks {2, 3}. */
  lemma DirABlockClosed()
    ensures var d := [Zeros(64), Filled(64), DirABlock(), Zeros(64)];
            DirClosed(d, {2, 3}) && Walkable(d, 2) && ChainOf(d, 2) == [2]
  {
    var blk := DirABlock();
    var d := [Zeros(64), Filled(64), blk, Zeros(64)];
    assert LinkChain(d, 2, EntrySize, |d|) == Some([2]);
    assert LinkChain(d, 3, EntrySize, |d|) == Some([3]);
    assert RecordsClosed(blk, {2, 3}) by {
      assert forall o | IsSlot(blk, o) :: o == 0;
      assert ReadDataPointer(blk, 0) == 3;
    }
    assert RecordsClosed(d[3], {2, 3}) by {
      assert forall o | IsSlot(d[3], o) :: IsBlank(d[3], o);
    }
    assert ClosedAt(d, {2, 3}, 2);
    assert ClosedAt(d, {2, 3}, 3);
  }

  /** A walk of the example's root visits its one live slot. */
  lemma DirABlockWalk()
    ensures var d := [Zeros(64), Filled(64), DirABlock(), Zeros(64)];
            DirClosed(d, {2, 3}) && DirSlots(d, {2, 3}, 2, false) == [Loc(2, DirABlock(), 0)]
  {
    var blk := DirABlock();
    var d := [Zeros(64), Filled(64), blk, Zeros(64)];
    DirABlockClosed();
    assert BlockSlots(2, blk, 32, false) == [];
    assert BlockSlots(2, blk, 0, false) == [Loc(2, blk, 0)];
    assert Visible(d, [2], false) == [Loc(2, blk, 0)] by {
      assert Visible(d, [2][1..], false) == [];
    }
  }

  /** Removing the empty directory "/a" from a device of four 64-byte blocks
      whose bitmap is block 1 and whose root is block 2 takes its record out
      and changes the device, so `Rmdir`, which reports failure on every path
      and keeps the directory's block out of the pool, reports failure for a
      removal that happened, while `RmdirIntended` reports success and frees
      block 3. */
  lemma RmdirOfEmptyDirectoryReportsFailure()
    ensures var d := [Zeros(64), Filled(64), DirABlock(), Zeros(64)];
            var root := 1 + CalculateFreeListSize(64, |d|);
            root == 2 && DirClosed(d, {root, 3}) &&
            var plan := PlanRemove(d, {root, 3}, root, [[97]], true);
            plan.Some? && ApplyRemove(d, plan.value) != d &&
            ReadDataPointer(plan.value.victim.data, plan.value.victim.offset) == 3
  {
    var d := [Zeros(64), Filled(64), DirABlock(), Zeros(64)];
    SmallDeviceRoot(|d|);
    DirARemovalPlan();
    var plan := PlanRemove(d, {2, 3}, 2, [[97]], true);
    assert ApplyRemove(d, plan.value)[2][0] == 0;
  }

  /** The removal planned for "/a" in the example takes out the root's first record. */
  lemma DirARemovalPlan()
    ensures var d := [Zeros(64), Filled(64), DirABlock(), Zeros(64)];
            DirClosed(d, {2, 3}) &&
            PlanRemove(d, {2, 3}, 2, [[97]], true) == Some(Removal(Parent(None, 2), Loc(2, DirABlock(), 0)))
  {
    DirARecord();
  }

  /** The example's root holds a directory record "a" first, pointing at the
      empty directory in block 3. */
  lemma DirARecord()
    ensures var d := [Zeros(64), Filled(64), DirABlock(), Zeros(64)];
            var l := Loc(2, DirABlock(), 0);
            DirClosed(d, {2, 3}) && DirSlots(d, {2, 3}, 2, false) == [l] &&
            FirstNamed([l], [97]) == Some(0) &&
            IsDirectory(l.data, 0) && ReadDataPointer(l.data, 0) == 3 &&
            DirSlots(d, {2, 3}, 3, false) == []
  {
    var blk := DirABlock();
    var d := [Zeros(64), Filled(64), blk, Zeros(64)];
    DirABlockWalk();
    assert ReadFilename(blk, 0) == [97] by {
      assert blk[0..16] == [97] + seq(15, _ => 0);
    }
    assert DirSlots(d, {2, 3}, 3, false) == [] by {
      ZeroedDirectoryIsEmpty(d, {2, 3}, 3);
    }
  }
}
