/**
 * What the directory operations compute, as functions of the disk image:
 * path resolution, the directory block of a path, listing, and the plan and
 * effect of inserting and removing a record. The `FileSystem` methods are
 * proved against these; the lemmas here state what they promise.
 */
module Directory {
  import opened Options
  import opened Bytes
  import opened Records
  import opened DirectoryWalk

  /** A path as its components: "/a/b" is [a, b] and "/" is []. */
  type Path = seq<seq<byte>>

  /** The last component; empty for "/". */
  function Basename(path: Path): seq<byte>
  {
    if path == [] then [] else path[|path| - 1]
  }

  /** The containing directory; "/" for "/" itself. */
  function Dirname(path: Path): (r: Path)
    ensures path == [] ==> r == []
    ensures path != [] ==> r + [Basename(path)] == path
  {
    if path == [] then [] else path[..|path| - 1]
  }

  /** A live record of a directory block, with the bytes the block holds. */
  ghost predicate LiveRecordOf(d: Image, dirs: set<nat>, l: Loc)
  {
    ValidLoc(l) && l.block in dirs && l.block < |d| && l.data == d[l.block] && !IsBlank(l.data, l.offset)
  }

  // ----- lookup -----

  /** The first live record called `name` in the directory whose first block is `block`. */
  ghost function FindIn(d: Image, dirs: set<nat>, block: nat, name: seq<byte>): (r: Option<Loc>)
    requires DirClosed(d, dirs) && block in dirs
    ensures r.Some? ==> LiveRecordOf(d, dirs, r.value) && ReadFilename(r.value.data, r.value.offset) == name
    ensures r.Some? && IsDirectory(r.value.data, r.value.offset) ==>
              ReadDataPointer(r.value.data, r.value.offset) as nat in dirs
  {
    var locs := DirSlots(d, dirs, block, false);
    var k := FirstNamed(locs, name);
    if k.None? then None
    else
      Some(locs[k.value])
  }

  /** Resolving the components `cs` from the directory whose first block is
      `block`: the first live record named by the component decides; the last
      component's record is the result, and an earlier one must be a directory,
      whose data pointer is searched for the next component. */
  ghost function ResolveFrom(d: Image, dirs: set<nat>, block: nat, cs: Path): (r: Option<Loc>)
    requires DirClosed(d, dirs) && block in dirs && cs != []
    ensures r.Some? ==> LiveRecordOf(d, dirs, r.value)
    ensures r.Some? && IsDirectory(r.value.data, r.value.offset) ==>
              ReadDataPointer(r.value.data, r.value.offset) as nat in dirs
    decreases |cs|
  {
    match FindIn(d, dirs, block, cs[0])
    case None => None
    case Some(l) =>
      if |cs| == 1 then Some(l)
      else if !IsDirectory(l.data, l.offset) then None
      else ResolveFrom(d, dirs, ReadDataPointer(l.data, l.offset) as nat, cs[1..])
  }

  /** The record resolution finds carries the last component as its name. */
  lemma {:induction false} ResolvedName(d: Image, dirs: set<nat>, block: nat, cs: Path)
    requires DirClosed(d, dirs) && block in dirs && cs != []
    requires ResolveFrom(d, dirs, block, cs).Some?
    ensures ReadFilename(ResolveFrom(d, dirs, block, cs).value.data, ResolveFrom(d, dirs, block, cs).value.offset) == cs[|cs| - 1]
    decreases |cs|
  {
    var l := FindIn(d, dirs, block, cs[0]).value;
    if |cs| > 1 {
      var next := ReadDataPointer(l.data, l.offset) as nat;
      assert ResolveFrom(d, dirs, block, cs) == ResolveFrom(d, dirs, next, cs[1..]);
      ResolvedName(d, dirs, next, cs[1..]);
      assert cs[1..][|cs| - 2] == cs[|cs| - 1];
    } else {
      assert ResolveFrom(d, dirs, block, cs) == Some(l);
    }
  }

  /** The record a path names, searched from the root; "/" has no record. */
  ghost function Resolve(d: Image, dirs: set<nat>, root: nat, path: Path): (r: Option<Loc>)
    requires DirClosed(d, dirs) && root in dirs
    ensures path == [] ==> r.None?
    ensures r.Some? ==> LiveRecordOf(d, dirs, r.value) && ReadFilename(r.value.data, r.value.offset) == Basename(path)
    ensures r.Some? && IsDirectory(r.value.data, r.value.offset) ==>
              ReadDataPointer(r.value.data, r.value.offset) as nat in dirs
  {
    if path == [] then None
    else
      var r := ResolveFrom(d, dirs, root, path);
      if r.None? then r
      else
        ResolvedName(d, dirs, root, path);
        r
  }

  /** Resolution goes one component at a time: a path with one more component
      resolves exactly when the shorter path names a directory holding a
      record with that name. */
  lemma {:induction false} ResolveExtend(d: Image, dirs: set<nat>, block: nat, cs: Path, n: seq<byte>)
    requires DirClosed(d, dirs) && block in dirs && cs != []
    ensures ResolveFrom(d, dirs, block, cs + [n]) ==
            match ResolveFrom(d, dirs, block, cs)
            case None => None
            case Some(p) =>
              if !IsDirectory(p.data, p.offset) then None
              else ResolveFrom(d, dirs, ReadDataPointer(p.data, p.offset) as nat, [n])
    decreases |cs|
  {
    assert (cs + [n])[0] == cs[0];
    if |cs| == 1 {
      assert (cs + [n])[1..] == [n];
    } else {
      assert (cs + [n])[1..] == cs[1..] + [n];
      match FindIn(d, dirs, block, cs[0]) {
        case None =>
        case Some(l) =>
          if IsDirectory(l.data, l.offset) {
            ResolveExtend(d, dirs, ReadDataPointer(l.data, l.offset) as nat, cs[1..], n);
          }
      }
    }
  }

  /** `path` resolves to a directory record. */
  ghost predicate NamesDirectory(d: Image, dirs: set<nat>, root: nat, path: Path)
    requires DirClosed(d, dirs) && root in dirs
  {
    var r := Resolve(d, dirs, root, path);
    r.Some? && IsDirectory(r.value.data, r.value.offset)
  }

  /** Every proper prefix of a path that resolves names a directory. */
  lemma {:induction false} PrefixesAreDirectories(d: Image, dirs: set<nat>, root: nat, path: Path)
    requires DirClosed(d, dirs) && root in dirs
    requires Resolve(d, dirs, root, path).Some?
    ensures forall j | 1 <= j < |path| :: NamesDirectory(d, dirs, root, path[..j])
    decreases |path|
  {
    if |path| > 1 {
      var shorter := Dirname(path);
      assert NamesDirectory(d, dirs, root, shorter) by {
        ResolveExtend(d, dirs, root, shorter, Basename(path));
      }
      PrefixesAreDirectories(d, dirs, root, shorter);
      forall j | 1 <= j < |path|
        ensures NamesDirectory(d, dirs, root, path[..j])
      {
        if j < |shorter| {
          assert path[..j] == shorter[..j];
        } else {
          assert path[..j] == shorter;
        }
      }
    }
  }

  /** The first block of the directory a path names: the root for "/",
      otherwise the data pointer of the path's record when that is a directory. */
  ghost function DirectoryBlock(d: Image, dirs: set<nat>, root: nat, path: Path): (r: Option<nat>)
    requires DirClosed(d, dirs) && root in dirs
    ensures r.Some? ==> r.value in dirs
    ensures path == [] ==> r == Some(root)
  {
    if path == [] then Some(root)
    else match Resolve(d, dirs, root, path)
      case None => None
      case Some(l) =>
        if IsDirectory(l.data, l.offset) then Some(ReadDataPointer(l.data, l.offset) as nat) else None
  }

  // ----- listing -----

  /** The records of a directory in walk order, blank slots skipped. */
  ghost function Listing(d: Image, dirs: set<nat>, root: nat, path: Path): (r: Option<seq<Entry>>)
    requires DirClosed(d, dirs) && root in dirs
    ensures r.Some? <==> DirectoryBlock(d, dirs, root, path).Some?
  {
    match DirectoryBlock(d, dirs, root, path)
    case None => None
    case Some(b) => Some(Parsed(DirSlots(d, dirs, b, false)))
  }

  lemma LookupInOneDirectory(d: Image, dirs: set<nat>, b: nat, name: seq<byte>)
    requires DirClosed(d, dirs) && b in dirs
    ensures var files := Parsed(DirSlots(d, dirs, b, false));
            ResolveFrom(d, dirs, b, [name]).Some? <==> exists e | e in files :: e.name == name
    ensures var files := Parsed(DirSlots(d, dirs, b, false));
            ResolveFrom(d, dirs, b, [name]).Some? ==>
              ParseDirectoryEntry(ResolveFrom(d, dirs, b, [name]).value.data, ResolveFrom(d, dirs, b, [name]).value.offset) in files
  {
    var locs := DirSlots(d, dirs, b, false);
    var files := Parsed(locs);
    match FirstNamed(locs, name) {
      case Some(k) =>
        ParsedPointwise(locs, k);
        assert files[k] in files;
      case None =>
        forall e | e in files
          ensures e.name != name
        {
          var j :| 0 <= j < |files| && files[j] == e;
          ParsedPointwise(locs, j);
        }
    }
  }

  /** A directory's listing holds a record called `name` exactly when the path
      extended by `name` resolves, and the record found is one of those listed. */
  lemma ListAgreesWithLookup(d: Image, dirs: set<nat>, root: nat, path: Path, name: seq<byte>)
    requires DirClosed(d, dirs) && root in dirs
    ensures Resolve(d, dirs, root, path + [name]).Some? <==>
            (Listing(d, dirs, root, path).Some? && exists e | e in Listing(d, dirs, root, path).value :: e.name == name)
    ensures Resolve(d, dirs, root, path + [name]).Some? ==>
            ParseDirectoryEntry(Resolve(d, dirs, root, path + [name]).value.data,
                                Resolve(d, dirs, root, path + [name]).value.offset)
              in Listing(d, dirs, root, path).value
  {
    if path == [] {
      assert path + [name] == [name];
      LookupInOneDirectory(d, dirs, root, name);
    } else {
      ResolveExtend(d, dirs, root, path, name);
      match Resolve(d, dirs, root, path) {
        case None =>
        case Some(p) =>
          if IsDirectory(p.data, p.offset) {
            LookupInOneDirectory(d, dirs, ReadDataPointer(p.data, p.offset) as nat, name);
          }
      }
    }
  }

  // ----- the parent directory of insertion and removal -----

  /** Where an entry for `path` is added or removed: the parent's own record
      (none for the root) and the first block of the parent directory. */
  datatype Parent = Parent(record: Option<Loc>, dirBlock: nat)

  ghost function LocateParent(d: Image, dirs: set<nat>, root: nat, path: Path): (r: Option<Parent>)
    requires DirClosed(d, dirs) && root in dirs
    ensures r.Some? ==> r.value.dirBlock in dirs
    ensures r.Some? && r.value.record.Some? ==> LiveRecordOf(d, dirs, r.value.record.value)
    ensures (r.Some? && r.value.record.None?) <==> Dirname(path) == []
  {
    var dir := Dirname(path);
    if dir == [] then Some(Parent(None, root))
    else match Resolve(d, dirs, root, dir)
      case None => None
      case Some(p) =>
        if !IsDirectory(p.data, p.offset) then None
        else Some(Parent(Some(p), ReadDataPointer(p.data, p.offset) as nat))
  }

  /** The parent located for insertion and removal is the directory block of the path's dirname. */
  lemma ParentIsDirectoryBlock(d: Image, dirs: set<nat>, root: nat, path: Path)
    requires DirClosed(d, dirs) && root in dirs
    ensures LocateParent(d, dirs, root, path).Some? <==> DirectoryBlock(d, dirs, root, Dirname(path)).Some?
    ensures LocateParent(d, dirs, root, path).Some? ==>
            LocateParent(d, dirs, root, path).value.dirBlock == DirectoryBlock(d, dirs, root, Dirname(path)).value
  {
  }

  // ----- insertion -----

  datatype Insertion = Insertion(parent: Parent, slot: Loc)

  /** The slot and the parent's record of `ins` are slots of directory blocks
      holding the bytes those blocks hold in `d`. */
  ghost predicate InsertionOn(d: Image, dirs: set<nat>, ins: Insertion)
  {
    ValidLoc(ins.slot) && ins.slot.block in dirs && ins.slot.block < |d| && ins.slot.data == d[ins.slot.block] &&
    (ins.parent.record.Some? ==> LiveRecordOf(d, dirs, ins.parent.record.value))
  }

  /** Whether and where a new entry for `path` goes: the parent must exist and
      be a directory, no live record of it may carry the basename, and the entry
      takes the first blank slot in walk order. */
  ghost function PlanInsert(d: Image, dirs: set<nat>, root: nat, path: Path): (r: Option<Insertion>)
    requires DirClosed(d, dirs) && root in dirs
    ensures r.Some? ==> LocateParent(d, dirs, root, path) == Some(r.value.parent)
    ensures r.Some? ==> InsertionOn(d, dirs, r.value) && IsBlank(r.value.slot.data, r.value.slot.offset)
  {
    match LocateParent(d, dirs, root, path)
    case None => None
    case Some(parent) =>
      var locs := DirSlots(d, dirs, parent.dirBlock, true);
      if NameTaken(locs, Basename(path)) then None
      else match FirstBlank(locs)
        case None => None
        case Some(k) => Some(Insertion(parent, locs[k]))
  }

  /** The insertion walk over the parent's slots decides the plan: a clash or
      no vacancy means no insertion, otherwise the vacancy is the slot. */
  lemma InsertionByWalk(d: Image, dirs: set<nat>, root: nat, path: Path, parent: Parent, c: Captured)
    requires DirClosed(d, dirs) && root in dirs
    requires LocateParent(d, dirs, root, path) == Some(parent)
    requires c == Fold(Vacancy(Basename(path)), Initial, DirSlots(d, dirs, parent.dirBlock, true)).0
    ensures PlanInsert(d, dirs, root, path) ==
            if c.clash || c.vacancy.None? then None else Some(Insertion(parent, c.vacancy.value))
  {
    VacancyFindsFirstBlank(Basename(path), Initial, DirSlots(d, dirs, parent.dirBlock, true));
  }

  /** The slots an insertion into the parent of `path` considers. */
  ghost function ParentSlots(d: Image, dirs: set<nat>, root: nat, path: Path): (r: seq<Loc>)
    requires DirClosed(d, dirs) && root in dirs && LocateParent(d, dirs, root, path).Some?
    ensures AllValid(r)
  {
    DirSlots(d, dirs, LocateParent(d, dirs, root, path).value.dirBlock, true)
  }

  /** Insertion fails exactly when the parent is missing or not a directory,
      the name is taken, or no slot is blank; otherwise it picks the first
      blank slot, every slot walked before it being in use. */
  lemma InsertionCases(d: Image, dirs: set<nat>, root: nat, path: Path)
    requires DirClosed(d, dirs) && root in dirs
    ensures PlanInsert(d, dirs, root, path).None? <==>
            (LocateParent(d, dirs, root, path).None? ||
             NameTaken(ParentSlots(d, dirs, root, path), Basename(path)) ||
             FirstBlank(ParentSlots(d, dirs, root, path)).None?)
    ensures PlanInsert(d, dirs, root, path).Some? ==>
            var locs := ParentSlots(d, dirs, root, path);
            exists k | 0 <= k < |locs| ::
              locs[k] == PlanInsert(d, dirs, root, path).value.slot &&
              forall j | 0 <= j < k :: !IsBlank(locs[j].data, locs[j].offset)
  {
    if PlanInsert(d, dirs, root, path).Some? {
      var locs := ParentSlots(d, dirs, root, path);
      var k := FirstBlank(locs).value;
      assert locs[k] == PlanInsert(d, dirs, root, path).value.slot;
    }
  }

  /** The writes of an insertion: the filled slot, then, below the root, the
      parent's record as read before the walk with its size raised by one. */
  function ApplyInsert(d: Image, ins: Insertion, name: seq<byte>, entryType: u16, dataPointer: u16,
                       modified: nat): (r: Image)
    requires ins.slot.block < |d| && ValidLoc(ins.slot)
    requires ins.parent.record.Some? ==> ins.parent.record.value.block < |d| && ValidLoc(ins.parent.record.value)
    ensures |r| == |d|
  {
    var s := ins.slot;
    AdjustParentSize(d[s.block := FillEntry(s.data, s.offset, name, entryType, dataPointer, modified)],
                     ins.parent.record, 1)
  }

  /** An insertion's writes: the slot parses back to the new entry (when the
      parent's record lives in another block), the parent's size goes up by
      one modulo 2^32 with the rest of its record kept, and no other block changes. */
  lemma InsertEffect(d: Image, dirs: set<nat>, ins: Insertion, name: seq<byte>, entryType: u16, dataPointer: u16, modified: nat)
    requires InsertionOn(d, dirs, ins)
    ensures var s := ins.slot;
            var d' := ApplyInsert(d, ins, name, entryType, dataPointer, modified);
            (ins.parent.record.None? || ins.parent.record.value.block != s.block) ==>
              OnlyRecordChanged(d[s.block], d'[s.block], s.offset) &&
              (StorableName(name, NameLength) ==>
                 ParseDirectoryEntry(d'[s.block], s.offset) == Entry(name, entryType, dataPointer, 0, modified % TwoTo32, 0, 0))
    ensures var d' := ApplyInsert(d, ins, name, entryType, dataPointer, modified);
            ins.parent.record.Some? ==>
              var p := ins.parent.record.value;
              ReadSize(d'[p.block], p.offset) == (ReadSize(d[p.block], p.offset) + 1) % TwoTo32 &&
              |d'[p.block]| == |d[p.block]| &&
              forall k | 0 <= k < |d[p.block]| && (k < p.offset + 26 || p.offset + 30 <= k) :: d'[p.block][k] == d[p.block][k]
    ensures var d' := ApplyInsert(d, ins, name, entryType, dataPointer, modified);
            forall x | 0 <= x < |d| && x != ins.slot.block &&
                       (ins.parent.record.None? || x != ins.parent.record.value.block) :: d'[x] == d[x]
  {
    var s := ins.slot;
    var d1 := d[s.block := FillEntry(s.data, s.offset, name, entryType, dataPointer, modified)];
    var d' := ApplyInsert(d, ins, name, entryType, dataPointer, modified);
    assert d' == AdjustParentSize(d1, ins.parent.record, 1);
    if ins.parent.record.Some? {
      var p := ins.parent.record.value;
      assert d'[p.block] == WriteSize(p.data, p.offset, ReadSize(p.data, p.offset) + 1);
      if p.block != s.block {
        assert d'[s.block] == d1[s.block];
      }
    }
    ParseFilledStorable(s.data, s.offset, name, entryType, dataPointer, modified);
  }

  /** Filling a blank slot keeps the invariant, provided a new directory record
      points at a directory block; the block keeps its length and link. */
  lemma FillKeepsClosed(d: Image, dirs: set<nat>, s: Loc, name: seq<byte>, entryType: u16, dataPointer: u16, modified: nat)
    requires DirClosed(d, dirs) && ValidLoc(s) && s.block in dirs && s.block < |d| && s.data == d[s.block]
    requires entryType == DirectoryType ==> dataPointer as nat in dirs
    ensures var filled := FillEntry(s.data, s.offset, name, entryType, dataPointer, modified);
            DirClosed(d[s.block := filled], dirs) && |filled| == |s.data| && NextBlock(filled) == NextBlock(s.data)
  {
    var filled := FillEntry(s.data, s.offset, name, entryType, dataPointer, modified);
    ParseFilledEntry(s.data, s.offset, name, entryType, dataPointer, modified);
    assert ReadType(filled, s.offset) == entryType && ReadDataPointer(filled, s.offset) == dataPointer;
    ClosedBlock(d, dirs, s.block);
    RecordWriteKeepsRecordsClosed(s.data, filled, s.offset, dirs);
    BlockWriteKeepsClosed(d, dirs, s.block, filled);
  }

  /** Insertion keeps the directory invariant, provided a new directory
      record points at a directory block. */
  lemma InsertKeepsClosed(d: Image, dirs: set<nat>, ins: Insertion, name: seq<byte>, entryType: u16, dataPointer: u16, modified: nat)
    requires DirClosed(d, dirs) && InsertionOn(d, dirs, ins)
    requires entryType == DirectoryType ==> dataPointer as nat in dirs
    ensures DirClosed(ApplyInsert(d, ins, name, entryType, dataPointer, modified), dirs)
  {
    var s := ins.slot;
    var filled := FillEntry(s.data, s.offset, name, entryType, dataPointer, modified);
    FillKeepsClosed(d, dirs, s, name, entryType, dataPointer, modified);
    var d1 := d[s.block := filled];
    if ins.parent.record.Some? {
      var p := ins.parent.record.value;
      ClosedBlock(d, dirs, p.block);
      assert d1[p.block] == if p.block == s.block then filled else p.data;
    }
    AdjustKeepsClosed(d1, dirs, ins.parent.record, 1);
  }

  /** Below the root, the parent's record as read before the walk, written
      back with its size moved by `delta`; nothing for the root. */
  function AdjustParentSize(d: Image, record: Option<Loc>, delta: int): (r: Image)
    requires record.Some? ==> record.value.block < |d| && ValidLoc(record.value)
    ensures |r| == |d|
  {
    match record
    case None => d
    case Some(p) => d[p.block := WriteSize(p.data, p.offset, ReadSize(p.data, p.offset) + delta)]
  }

  /** Rewriting the size of a directory block's record, from a copy of the block
      that may be stale, keeps the invariant as long as the copy satisfied it. */
  lemma AdjustKeepsClosed(d: Image, dirs: set<nat>, record: Option<Loc>, delta: int)
    requires DirClosed(d, dirs)
    requires record.Some? ==> var p := record.value;
               ValidLoc(p) && p.block in dirs && p.block < |d| &&
               |p.data| == |d[p.block]| >= EntrySize && NextBlock(p.data) == NextBlock(d[p.block]) && RecordsClosed(p.data, dirs)
    ensures DirClosed(AdjustParentSize(d, record, delta), dirs)
  {
    if record.Some? {
      var p := record.value;
      var c := WriteSize(p.data, p.offset, ReadSize(p.data, p.offset) + delta);
      assert OnlyRecordChanged(p.data, c, p.offset);
      RecordDependsOnItsBytesExceptSize(p.data, c, p.offset);
      RecordWriteKeepsRecordsClosed(p.data, c, p.offset, dirs);
      BlockWriteKeepsClosed(d, dirs, p.block, c);
    }
  }

  /** Only the size bytes differ: blank flag, type and data pointer are the same. */
  lemma RecordDependsOnItsBytesExceptSize(data: seq<byte>, data': seq<byte>, offset: nat)
    requires offset + EntrySize <= |data| == |data'|
    requires forall k | 0 <= k < |data| && (k < offset + 26 || offset + 30 <= k) :: data'[k] == data[k]
    ensures IsBlank(data', offset) == IsBlank(data, offset)
    ensures ReadType(data', offset) == ReadType(data, offset)
    ensures ReadDataPointer(data', offset) == ReadDataPointer(data, offset)
  {
  }

  // ----- removal -----

  datatype Removal = Removal(parent: Parent, victim: Loc)

  /** The victim and the parent's record of `rm` are live records of directory
      blocks holding the bytes those blocks hold in `d`. */
  ghost predicate RemovalOn(d: Image, dirs: set<nat>, rm: Removal)
  {
    LiveRecordOf(d, dirs, rm.victim) &&
    (rm.parent.record.Some? ==> LiveRecordOf(d, dirs, rm.parent.record.value))
  }

  /** Whether and what a removal of `path` takes out: the first live record
      with the basename in the parent directory, which must be a directory with
      no live record in its own chain when `deletingDirectory`, and must not be
      a directory otherwise. */
  ghost function PlanRemove(d: Image, dirs: set<nat>, root: nat, path: Path, deletingDirectory: bool): (r: Option<Removal>)
    requires DirClosed(d, dirs) && root in dirs
    ensures r.Some? ==> LocateParent(d, dirs, root, path) == Some(r.value.parent)
    ensures r.Some? ==> RemovalOn(d, dirs, r.value)
    ensures r.Some? ==> var v := r.value.victim;
              ReadFilename(v.data, v.offset) == Basename(path) &&
              IsDirectory(v.data, v.offset) == deletingDirectory
    ensures r.Some? && deletingDirectory ==> var v := r.value.victim;
              ReadDataPointer(v.data, v.offset) as nat in dirs &&
              DirSlots(d, dirs, ReadDataPointer(v.data, v.offset) as nat, false) == []
  {
    match LocateParent(d, dirs, root, path)
    case None => None
    case Some(parent) =>
      var locs := DirSlots(d, dirs, parent.dirBlock, false);
      match FirstNamed(locs, Basename(path))
      case None => None
      case Some(k) =>
        var v := locs[k];
        if deletingDirectory then
          if !IsDirectory(v.data, v.offset) then None
          else if DirSlots(d, dirs, ReadDataPointer(v.data, v.offset) as nat, false) != [] then None
          else Some(Removal(parent, v))
        else if IsDirectory(v.data, v.offset) then None
        else Some(Removal(parent, v))
  }

  /** The removal walk over the parent's live slots finds the victim; the
      plan then depends on its type and, for a directory, on its contents. */
  lemma RemovalByWalk(d: Image, dirs: set<nat>, root: nat, path: Path, deletingDirectory: bool, parent: Parent, c: Captured)
    requires DirClosed(d, dirs) && root in dirs
    requires LocateParent(d, dirs, root, path) == Some(parent)
    requires c == Fold(Match(Basename(path), true), Initial, DirSlots(d, dirs, parent.dirBlock, false)).0
    ensures c.hit.Found? ==> LiveRecordOf(d, dirs, c.hit.loc)
    ensures c.hit.Found? && IsDirectory(c.hit.loc.data, c.hit.loc.offset) ==>
              ReadDataPointer(c.hit.loc.data, c.hit.loc.offset) as nat in dirs
    ensures PlanRemove(d, dirs, root, path, deletingDirectory) ==
            if !c.hit.Found? then None
            else
              var v := c.hit.loc;
              if deletingDirectory then
                if !IsDirectory(v.data, v.offset) then None
                else if DirSlots(d, dirs, ReadDataPointer(v.data, v.offset) as nat, false) != [] then None
                else Some(Removal(parent, v))
              else if IsDirectory(v.data, v.offset) then None
              else Some(Removal(parent, v))
  {
    MatchFindsFirstNamed(Basename(path), true, Initial, DirSlots(d, dirs, parent.dirBlock, false));
  }

  /** The victim removal picks is the record lookup finds for the same path. */
  lemma RemovalTakesLookedUpRecord(d: Image, dirs: set<nat>, root: nat, path: Path, deletingDirectory: bool)
    requires DirClosed(d, dirs) && root in dirs
    requires PlanRemove(d, dirs, root, path, deletingDirectory).Some?
    ensures Resolve(d, dirs, root, path) == Some(PlanRemove(d, dirs, root, path, deletingDirectory).value.victim)
  {
    var dir := Dirname(path);
    if dir == [] {
      assert path == [Basename(path)];
    } else {
      ResolveExtend(d, dirs, root, dir, Basename(path));
    }
  }

  /** The writes of a removal: the cleared slot, then, below the root, the
      parent's record as read before the walk with its size lowered by one. */
  function ApplyRemove(d: Image, rm: Removal): (r: Image)
    requires rm.victim.block < |d| && ValidLoc(rm.victim)
    requires rm.parent.record.Some? ==> rm.parent.record.value.block < |d| && ValidLoc(rm.parent.record.value)
    ensures |r| == |d|
  {
    var v := rm.victim;
    AdjustParentSize(d[v.block := Cleared(v.data, v.offset)], rm.parent.record, -1)
  }

  /** A removal's writes: exactly the victim's 32 bytes become zero (when the
      parent's record lives in another block), the parent's size goes down by
      one modulo 2^32 with the rest of its record kept, and no other block changes. */
  lemma RemoveEffect(d: Image, dirs: set<nat>, rm: Removal)
    requires RemovalOn(d, dirs, rm)
    ensures var v := rm.victim;
            var d' := ApplyRemove(d, rm);
            (rm.parent.record.None? || rm.parent.record.value.block != v.block) ==>
              |d'[v.block]| == |d[v.block]| &&
              (forall k | 0 <= k < |d[v.block]| ::
                 d'[v.block][k] == if v.offset <= k < v.offset + EntrySize then 0 else d[v.block][k]) &&
              IsBlank(d'[v.block], v.offset)
    ensures var d' := ApplyRemove(d, rm);
            rm.parent.record.Some? ==>
              var p := rm.parent.record.value;
              ReadSize(d'[p.block], p.offset) == (ReadSize(d[p.block], p.offset) - 1) % TwoTo32 &&
              |d'[p.block]| == |d[p.block]| &&
              forall k | 0 <= k < |d[p.block]| && (k < p.offset + 26 || p.offset + 30 <= k) :: d'[p.block][k] == d[p.block][k]
    ensures var d' := ApplyRemove(d, rm);
            forall x | 0 <= x < |d| && x != rm.victim.block &&
                       (rm.parent.record.None? || x != rm.parent.record.value.block) :: d'[x] == d[x]
  {
    var v := rm.victim;
    var cleared := Cleared(v.data, v.offset);
    ClearedRecord(v.data, v.offset);
    var d1 := d[v.block := cleared];
    assert ApplyRemove(d, rm) == AdjustParentSize(d1, rm.parent.record, -1);
    if rm.parent.record.None? || rm.parent.record.value.block != v.block {
      assert ApplyRemove(d, rm)[v.block] == cleared;
    }
  }

  lemma RemoveKeepsClosed(d: Image, dirs: set<nat>, rm: Removal)
    requires DirClosed(d, dirs) && RemovalOn(d, dirs, rm)
    ensures DirClosed(ApplyRemove(d, rm), dirs)
  {
    var v := rm.victim;
    var cleared := Cleared(v.data, v.offset);
    ClearedRecord(v.data, v.offset);
    ClosedBlock(d, dirs, v.block);
    RecordWriteKeepsRecordsClosed(v.data, cleared, v.offset, dirs);
    BlockWriteKeepsClosed(d, dirs, v.block, cleared);
    var d1 := d[v.block := cleared];
    if rm.parent.record.Some? {
      var p := rm.parent.record.value;
      ClosedBlock(d, dirs, p.block);
      assert d1[p.block] == if p.block == v.block then cleared else p.data;
    }
    AdjustKeepsClosed(d1, dirs, rm.parent.record, -1);
  }

  // ----- changing a record's type -----

  /** Writing a new type changes bytes 16-17 of the record only: the record
      parses to the old one with the new type, and other records are kept. */
  lemma RetypeEffect(data: seq<byte>, offset: nat, newType: int)
    requires IsSlot(data, offset)
    ensures OnlyRecordChanged(data, WriteType(data, offset, newType), offset)
    ensures ParseDirectoryEntry(WriteType(data, offset, newType), offset) ==
            ParseDirectoryEntry(data, offset).(entryType := newType % TwoTo16)
  {
    var r := WriteType(data, offset, newType);
    assert r[offset..offset + NameLength] == data[offset..offset + NameLength];
  }
}
