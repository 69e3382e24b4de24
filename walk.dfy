/**
 * Walking a directory: the chain of blocks a directory occupies, the record
 * slots a walk visits in order, the walk's callbacks (as a `Visitor` and the
 * values they capture), and the invariant that keeps every walk finite.
 */
module DirectoryWalk {
  import opened Options
  import opened Bytes
  import opened Records
  import opened BlockDevice

  /** The contents of every block of a device. */
  type Image = seq<seq<byte>>

  /** Every block holds whole records plus the 32-byte link region. */
  predicate Shaped(d: Image)
  {
    forall b | 0 <= b < |d| :: |d[b]| >= EntrySize && |d[b]| % EntrySize == 0
  }

  /** The blocks of the chain that starts at `b` and follows the 16-bit link
      stored `back` bytes before the end of each block until a link of 0;
      None when the chain leaves the device or runs past `fuel` blocks. */
  function LinkChain(d: Image, b: nat, back: nat, fuel: nat): (r: Option<seq<nat>>)
    ensures r.Some? ==> |r.value| >= 1 && r.value[0] == b
    ensures r.Some? ==> forall k | 0 <= k < |r.value| :: r.value[k] < |d| && 2 <= back <= |d[r.value[k]]|
    decreases fuel
  {
    if b >= |d| || back < 2 || |d[b]| < back || fuel == 0 then None
    else
      var next := ReadUint16BE(d[b], |d[b]| - back);
      if next == 0 then Some([b])
      else match LinkChain(d, next, back, fuel - 1)
        case None => None
        case Some(rest) => Some([b] + rest)
  }

  /** The directory chain from `b` stays on the device and ends. */
  predicate Walkable(d: Image, b: nat)
  {
    LinkChain(d, b, EntrySize, |d|).Some?
  }

  function ChainOf(d: Image, b: nat): (chain: seq<nat>)
    requires Walkable(d, b)
    ensures |chain| >= 1 && chain[0] == b
    ensures forall k | 0 <= k < |chain| :: chain[k] < |d|
  {
    LinkChain(d, b, EntrySize, |d|).value
  }

  /** Consecutive blocks of a chain are joined by their links, and only the
      last block's link is 0. */
  lemma {:induction false} ChainLinks(d: Image, b: nat, back: nat, fuel: nat, k: nat)
    requires LinkChain(d, b, back, fuel).Some? && k < |LinkChain(d, b, back, fuel).value|
    ensures var chain := LinkChain(d, b, back, fuel).value;
            var next := ReadUint16BE(d[chain[k]], |d[chain[k]]| - back);
            (next == 0 <==> k == |chain| - 1) &&
            (k + 1 < |chain| ==> chain[k + 1] == next as nat)
    decreases fuel
  {
    var next := ReadUint16BE(d[b], |d[b]| - back);
    if next != 0 {
      var rest := LinkChain(d, next, back, fuel - 1).value;
      assert LinkChain(d, b, back, fuel).value == [b] + rest;
      if k > 0 {
        ChainLinks(d, next, back, fuel - 1, k - 1);
      }
    }
  }

  /** The link of each block of a directory chain names the next block;
      only the last block's link is 0. */
  lemma DirectoryChainLinks(d: Image, b: nat, k: nat)
    requires Walkable(d, b) && k < |ChainOf(d, b)|
    ensures var chain := ChainOf(d, b);
            |d[chain[k]]| >= EntrySize &&
            (NextBlock(d[chain[k]]) == 0 <==> k == |chain| - 1) &&
            (k + 1 < |chain| ==> chain[k + 1] == NextBlock(d[chain[k]]) as nat)
  {
    ChainLinks(d, b, EntrySize, |d|, k);
  }

  /** A slot the walker hands to its callback: block number, the copy of the
      block's bytes it read, and the record offset. */
  datatype Loc = Loc(block: nat, data: seq<byte>, offset: nat)

  predicate ValidLoc(l: Loc)
  {
    IsSlot(l.data, l.offset)
  }

  predicate AllValid(locs: seq<Loc>)
  {
    forall k | 0 <= k < |locs| :: ValidLoc(locs[k])
  }

  /** The slots of one block from offset `i` on, in ascending order; blank
      slots only when `includeBlank`. */
  function BlockSlots(b: nat, data: seq<byte>, i: nat, includeBlank: bool): (r: seq<Loc>)
    requires |data| % EntrySize == 0 && i % EntrySize == 0 && i + EntrySize <= |data|
    ensures forall k | 0 <= k < |r| ::
              r[k].block == b && r[k].data == data && IsSlot(data, r[k].offset) && r[k].offset >= i &&
              (includeBlank || !IsBlank(data, r[k].offset))
    decreases |data| - i
  {
    if i + 2 * EntrySize > |data| then []
    else
      (if includeBlank || !IsBlank(data, i) then [Loc(b, data, i)] else []) +
      BlockSlots(b, data, i + EntrySize, includeBlank)
  }

  /** Every slot a walk of `chain` visits, block after block. */
  function Visible(d: Image, chain: seq<nat>, includeBlank: bool): (r: seq<Loc>)
    requires Shaped(d) && forall k | 0 <= k < |chain| :: chain[k] < |d|
    ensures forall k | 0 <= k < |r| ::
              r[k].block in chain && r[k].block < |d| && r[k].data == d[r[k].block] && ValidLoc(r[k]) &&
              (includeBlank || !IsBlank(r[k].data, r[k].offset))
  {
    if chain == [] then []
    else BlockSlots(chain[0], d[chain[0]], 0, includeBlank) + Visible(d, chain[1..], includeBlank)
  }

  // ----- the callbacks -----

  /** What a record-matching callback leaves behind. */
  datatype Hit = NoHit | Found(loc: Loc) | NotDirectory | Descend(next: u16)

  /** The callbacks the directory code passes to the walker. */
  datatype Visitor =
    | Collect                             // listing: parse every record
    | Match(name: seq<byte>, last: bool)  // lookup and removal: stop at the first record named `name`
    | Vacancy(name: seq<byte>)            // insertion: note the first blank slot, stop on `name`
    | Occupied                            // emptiness test: stop at the first record

  /** The variables the callbacks capture and update. */
  datatype Captured = Captured(files: seq<Entry>, hit: Hit, vacancy: Option<Loc>, clash: bool, occupied: bool)

  const Initial: Captured := Captured([], NoHit, None, false, false)

  /** A lookup's verdict on the record named by the current path component:
      the final component is the result; an earlier one must be a directory,
      whose data pointer is searched next. */
  function HitFor(l: Loc, last: bool): Hit
    requires ValidLoc(l)
  {
    if last then Found(l)
    else if !IsDirectory(l.data, l.offset) then NotDirectory
    else Descend(ReadDataPointer(l.data, l.offset))
  }

  /** One callback invocation: the updated captures and whether to go on. */
  function Step(v: Visitor, c: Captured, l: Loc): (Captured, bool)
    requires ValidLoc(l)
  {
    match v
    case Collect => (c.(files := c.files + [ParseDirectoryEntry(l.data, l.offset)]), true)
    case Match(name, last) =>
      if ReadFilename(l.data, l.offset) == name then (c.(hit := HitFor(l, last)), false) else (c, true)
    case Vacancy(name) =>
      if IsBlank(l.data, l.offset) then (if c.vacancy.None? then c.(vacancy := Some(l)) else c, true)
      else if ReadFilename(l.data, l.offset) == name then (c.(clash := true), false)
      else (c, true)
    case Occupied => (c.(occupied := true), false)
  }

  /** Running the callback over `locs` until it asks to stop: the final captures
      and the slot it stopped at, if it did. */
  function Fold(v: Visitor, c: Captured, locs: seq<Loc>): (r: (Captured, Option<Loc>))
    requires AllValid(locs)
    ensures r.1.Some? ==> r.1.value in locs
    decreases |locs|
  {
    if locs == [] then (c, None)
    else
      var s := Step(v, c, locs[0]);
      if s.1 then Fold(v, s.0, locs[1..]) else (s.0, Some(locs[0]))
  }

  /** A slot the walk visits goes to the callback, which may stop the walk there. */
  lemma FoldVisitedSlot(v: Visitor, c: Captured, b: nat, data: seq<byte>, i: nat, includeBlank: bool,
                        s: (Captured, bool))
    requires |data| % EntrySize == 0 && i % EntrySize == 0 && i + 2 * EntrySize <= |data|
    requires includeBlank || data[i] != 0
    requires s == Step(v, c, Loc(b, data, i))
    ensures Fold(v, c, BlockSlots(b, data, i, includeBlank)) ==
            if s.1 then Fold(v, s.0, BlockSlots(b, data, i + EntrySize, includeBlank)) else (s.0, Some(Loc(b, data, i)))
  {
    var rest := BlockSlots(b, data, i + EntrySize, includeBlank);
    assert BlockSlots(b, data, i, includeBlank) == [Loc(b, data, i)] + rest;
    assert ([Loc(b, data, i)] + rest)[1..] == rest;
  }

  /** A blank slot the walk skips changes nothing. */
  lemma FoldSkippedSlot(v: Visitor, c: Captured, b: nat, data: seq<byte>, i: nat, includeBlank: bool)
    requires |data| % EntrySize == 0 && i % EntrySize == 0 && i + 2 * EntrySize <= |data|
    requires !includeBlank && data[i] == 0
    ensures Fold(v, c, BlockSlots(b, data, i, includeBlank)) == Fold(v, c, BlockSlots(b, data, i + EntrySize, includeBlank))
  {
    assert BlockSlots(b, data, i, includeBlank) == BlockSlots(b, data, i + EntrySize, includeBlank);
  }

  /** The loop over one block, slot by slot from offset `i`: the captures it
      leaves and whether the callback stopped it. */
  function BlockFold(v: Visitor, c: Captured, b: nat, data: seq<byte>, i: nat, includeBlank: bool): (Captured, bool)
    requires i % EntrySize == 0
    decreases |data| - i
  {
    if i + 2 * EntrySize > |data| then (c, false)
    else if includeBlank || data[i] != 0 then
      var s := Step(v, c, Loc(b, data, i));
      if s.1 then BlockFold(v, s.0, b, data, i + EntrySize, includeBlank) else (s.0, true)
    else BlockFold(v, c, b, data, i + EntrySize, includeBlank)
  }

  /** The block loop agrees with running the callback over the block's slots. */
  lemma {:induction false} BlockFoldIsFold(v: Visitor, c: Captured, b: nat, data: seq<byte>, i: nat, includeBlank: bool)
    requires |data| % EntrySize == 0 && i % EntrySize == 0 && i + EntrySize <= |data|
    ensures var r := Fold(v, c, BlockSlots(b, data, i, includeBlank));
            BlockFold(v, c, b, data, i, includeBlank) == (r.0, r.1.Some?)
    decreases |data| - i
  {
    if i + 2 * EntrySize <= |data| {
      NextSlotAligned(i);
      if includeBlank || data[i] != 0 {
        var s := Step(v, c, Loc(b, data, i));
        FoldVisitedSlot(v, c, b, data, i, includeBlank, s);
        if s.1 {
          BlockFoldIsFold(v, s.0, b, data, i + EntrySize, includeBlank);
        }
      } else {
        FoldSkippedSlot(v, c, b, data, i, includeBlank);
        BlockFoldIsFold(v, c, b, data, i + EntrySize, includeBlank);
      }
    }
  }

  lemma NextSlotAligned(i: nat)
    requires i % EntrySize == 0
    ensures (i + EntrySize) % EntrySize == 0
  {
  }

  /** A record offset below the link region leaves room for the link after it. */
  lemma SlotFits(i: nat, n: nat)
    requires i % EntrySize == 0 && n % EntrySize == 0 && i + EntrySize < n
    ensures i + 2 * EntrySize <= n
  {
    var a := i / EntrySize;
    var m := n / EntrySize;
    assert i == EntrySize * a && n == EntrySize * m;
  }

  /** Running the callback over two runs of slots: the second run is visited
      only when the callback never stopped in the first. */
  lemma {:induction false} FoldAppend(v: Visitor, c: Captured, a: seq<Loc>, b: seq<Loc>)
    requires AllValid(a) && AllValid(b)
    ensures AllValid(a + b)
    ensures Fold(v, c, a + b) == (var r := Fold(v, c, a); if r.1.Some? then r else Fold(v, r.0, b))
    decreases |a|
  {
    if a == [] {
      assert a + b == b;
    } else {
      assert (a + b)[0] == a[0] && (a + b)[1..] == a[1..] + b;
      var s := Step(v, c, a[0]);
      if s.1 {
        FoldAppend(v, s.0, a[1..], b);
      }
    }
  }

  /** A walk of the chain from its `k`-th block: that block's slots first,
      then, unless the callback stopped, the rest of the chain. */
  lemma FoldChainStep(d: Image, chain: seq<nat>, k: nat, includeBlank: bool, v: Visitor, c: Captured)
    requires Shaped(d) && forall j | 0 <= j < |chain| :: chain[j] < |d|
    requires k < |chain|
    ensures var r := Fold(v, c, BlockSlots(chain[k], d[chain[k]], 0, includeBlank));
            Fold(v, c, Visible(d, chain[k..], includeBlank)) ==
            if r.1.Some? then r else Fold(v, r.0, Visible(d, chain[k + 1..], includeBlank))
  {
    assert chain[k..][0] == chain[k] && chain[k..][1..] == chain[k + 1..];
    FoldAppend(v, c, BlockSlots(chain[k], d[chain[k]], 0, includeBlank), Visible(d, chain[k + 1..], includeBlank));
  }

  /** After visiting the `k`-th block of a chain: a stop there, or the end of
      the chain, is the walk's outcome; otherwise the walk goes on from the
      next block with the captures the block left. */
  lemma WalkBlockOutcome(d: Image, chain: seq<nat>, k: nat, includeBlank: bool, v: Visitor,
                         c0: Captured, c: Captured, stopped: bool)
    requires Shaped(d) && forall j | 0 <= j < |chain| :: chain[j] < |d|
    requires k < |chain|
    requires Fold(v, Initial, Visible(d, chain, includeBlank)) == Fold(v, c0, Visible(d, chain[k..], includeBlank))
    requires (c, stopped) == BlockFold(v, c0, chain[k], d[chain[k]], 0, includeBlank)
    ensures stopped || k + 1 == |chain| ==> WalkSpec(d, chain, includeBlank, v) == (chain[k], c)
    ensures !stopped ==> Fold(v, c0, Visible(d, chain[k..], includeBlank)) == Fold(v, c, Visible(d, chain[k + 1..], includeBlank))
  {
    BlockFoldIsFold(v, c0, chain[k], d[chain[k]], 0, includeBlank);
    FoldChainStep(d, chain, k, includeBlank, v, c0);
    var r := Fold(v, c0, BlockSlots(chain[k], d[chain[k]], 0, includeBlank));
    if stopped {
      assert r.1.value.block == chain[k];
    } else if k + 1 == |chain| {
      assert chain[k + 1..] == [];
    }
  }

  /** What a walk of `chain` returns and leaves in the captures: the block it
      stopped in, or the chain's last block when the callback never stopped it. */
  function WalkSpec(d: Image, chain: seq<nat>, includeBlank: bool, v: Visitor): (r: (nat, Captured))
    requires Shaped(d) && chain != [] && forall k | 0 <= k < |chain| :: chain[k] < |d|
    ensures r.0 in chain
  {
    var r := Fold(v, Initial, Visible(d, chain, includeBlank));
    (if r.1.Some? then r.1.value.block else chain[|chain| - 1], r.0)
  }

  /** What walking the directory whose first block is `b` returns and leaves
      in the captures. */
  ghost function Walk(d: Image, dirs: set<nat>, b: nat, includeBlank: bool, v: Visitor): (r: (nat, Captured))
    requires DirClosed(d, dirs) && b in dirs
    ensures r.1 == Fold(v, Initial, DirSlots(d, dirs, b, includeBlank)).0
  {
    ClosedBlock(d, dirs, b);
    WalkSpec(d, ChainOf(d, b), includeBlank, v)
  }

  // ----- reference definitions of what each callback computes -----

  function Parsed(locs: seq<Loc>): (r: seq<Entry>)
    requires AllValid(locs)
    ensures |r| == |locs|
  {
    if locs == [] then [] else [ParseDirectoryEntry(locs[0].data, locs[0].offset)] + Parsed(locs[1..])
  }

  /** Entry k of a listing is the record in slot k. */
  lemma {:induction false} ParsedPointwise(locs: seq<Loc>, k: nat)
    requires AllValid(locs) && k < |locs|
    ensures Parsed(locs)[k] == ParseDirectoryEntry(locs[k].data, locs[k].offset)
  {
    if k > 0 {
      ParsedPointwise(locs[1..], k - 1);
    }
  }

  predicate Named(l: Loc, name: seq<byte>)
    requires ValidLoc(l)
  {
    ReadFilename(l.data, l.offset) == name
  }

  /** The index of the first slot named `name`. */
  function FirstNamed(locs: seq<Loc>, name: seq<byte>): (r: Option<nat>)
    requires AllValid(locs)
    ensures r.Some? ==> r.value < |locs| && Named(locs[r.value], name)
    ensures r.Some? ==> forall j | 0 <= j < r.value :: !Named(locs[j], name)
    ensures r.None? ==> forall j | 0 <= j < |locs| :: !Named(locs[j], name)
  {
    if locs == [] then None
    else if Named(locs[0], name) then Some(0)
    else
      var rest := FirstNamed(locs[1..], name);
      assert forall j | 1 <= j < |locs| :: locs[1..][j - 1] == locs[j];
      if rest.None? then None else Some(rest.value + 1)
  }

  /** A non-blank record called `name`. */
  predicate Taken(l: Loc, name: seq<byte>)
    requires ValidLoc(l)
  {
    !IsBlank(l.data, l.offset) && ReadFilename(l.data, l.offset) == name
  }

  predicate NameTaken(locs: seq<Loc>, name: seq<byte>)
    requires AllValid(locs)
  {
    exists k | 0 <= k < |locs| :: Taken(locs[k], name)
  }

  /** The index of the first blank slot. */
  function FirstBlank(locs: seq<Loc>): (r: Option<nat>)
    requires AllValid(locs)
    ensures r.Some? ==> r.value < |locs| && IsBlank(locs[r.value].data, locs[r.value].offset)
    ensures r.Some? ==> forall j | 0 <= j < r.value :: !IsBlank(locs[j].data, locs[j].offset)
    ensures r.None? ==> forall j | 0 <= j < |locs| :: !IsBlank(locs[j].data, locs[j].offset)
  {
    if locs == [] then None
    else if IsBlank(locs[0].data, locs[0].offset) then Some(0)
    else
      var rest := FirstBlank(locs[1..]);
      assert forall j | 1 <= j < |locs| :: locs[1..][j - 1] == locs[j];
      if rest.None? then None else Some(rest.value + 1)
  }

  function SlotAt(locs: seq<Loc>, k: Option<nat>): Option<Loc>
    requires k.Some? ==> k.value < |locs|
  {
    if k.Some? then Some(locs[k.value]) else None
  }

  /** The non-blank slots of `locs`, in order. */
  function LiveSlots(locs: seq<Loc>): (r: seq<Loc>)
    requires AllValid(locs)
    ensures AllValid(r) && |r| <= |locs|
    ensures forall k | 0 <= k < |r| :: r[k] in locs && !IsBlank(r[k].data, r[k].offset)
    ensures forall k | 0 <= k < |locs| && !IsBlank(locs[k].data, locs[k].offset) :: locs[k] in r
  {
    if locs == [] then []
    else (if IsBlank(locs[0].data, locs[0].offset) then [] else [locs[0]]) + LiveSlots(locs[1..])
  }

  // ----- what the walks compute -----

  /** Listing collects the parsed records of every visited slot, in order, and never stops early. */
  lemma {:induction false} CollectParsesAll(c: Captured, locs: seq<Loc>)
    requires AllValid(locs)
    ensures Fold(Collect, c, locs) == (c.(files := c.files + Parsed(locs)), None)
    decreases |locs|
  {
    if locs != [] {
      var e := ParseDirectoryEntry(locs[0].data, locs[0].offset);
      var c' := c.(files := c.files + [e]);
      assert Step(Collect, c, locs[0]) == (c', true);
      assert Fold(Collect, c, locs) == Fold(Collect, c', locs[1..]);
      CollectParsesAll(c', locs[1..]);
      calc {
        c'.files + Parsed(locs[1..]);
        (c.files + [e]) + Parsed(locs[1..]);
        { assert (c.files + [e]) + Parsed(locs[1..]) == c.files + ([e] + Parsed(locs[1..])); }
        c.files + ([e] + Parsed(locs[1..]));
        c.files + Parsed(locs);
      }
    } else {
      assert c.files + Parsed(locs) == c.files;
    }
  }

  /** A matching walk stops at the first slot with the name sought and records
      the verdict for it; without such a slot it runs to the end and records nothing. */
  lemma {:induction false} MatchFindsFirstNamed(name: seq<byte>, last: bool, c: Captured, locs: seq<Loc>)
    requires AllValid(locs)
    ensures Fold(Match(name, last), c, locs) ==
            match FirstNamed(locs, name)
            case None => (c, None)
            case Some(k) => (c.(hit := HitFor(locs[k], last)), Some(locs[k]))
  {
    if locs != [] && !Named(locs[0], name) {
      MatchFindsFirstNamed(name, last, c, locs[1..]);
    }
  }

  /** The insertion walk reports a clash exactly when a non-blank record already
      has the name, and otherwise leaves the first blank slot as the vacancy. */
  lemma {:induction false} VacancyFindsFirstBlank(name: seq<byte>, c: Captured, locs: seq<Loc>)
    requires AllValid(locs)
    ensures var r := Fold(Vacancy(name), c, locs).0;
            r.clash == (c.clash || NameTaken(locs, name)) &&
            (!NameTaken(locs, name) ==>
               r.vacancy == if c.vacancy.Some? then c.vacancy else SlotAt(locs, FirstBlank(locs)))
    decreases |locs|
  {
    if locs != [] {
      var l := locs[0];
      if Taken(l, name) {
        assert NameTaken(locs, name);
      } else {
        var s := Step(Vacancy(name), c, l);
        assert s.1;
        VacancyFindsFirstBlank(name, s.0, locs[1..]);
        assert NameTaken(locs, name) == NameTaken(locs[1..], name) by {
          if NameTaken(locs, name) {
            var k :| 0 <= k < |locs| && Taken(locs[k], name);
            assert k > 0 && Taken(locs[1..][k - 1], name);
          }
          if NameTaken(locs[1..], name) {
            var k :| 0 <= k < |locs[1..]| && Taken(locs[1..][k], name);
            assert Taken(locs[k + 1], name);
          }
        }
      }
    }
  }

  /** The emptiness walk finds a record exactly when it visits any slot. */
  lemma OccupiedIffAnySlot(c: Captured, locs: seq<Loc>)
    requires AllValid(locs)
    ensures Fold(Occupied, c, locs).0.occupied == (c.occupied || locs != [])
  {
  }

  // ----- the order of a walk -----

  /** With blanks skipped, a walk visits exactly the non-blank slots of the full walk. */
  lemma {:induction false} BlockSkipsBlanks(b: nat, data: seq<byte>, i: nat)
    requires |data| % EntrySize == 0 && i % EntrySize == 0 && i + EntrySize <= |data|
    ensures BlockSlots(b, data, i, false) == LiveSlots(BlockSlots(b, data, i, true))
    decreases |data| - i
  {
    if i + 2 * EntrySize <= |data| {
      BlockSkipsBlanks(b, data, i + EntrySize);
      var rest := BlockSlots(b, data, i + EntrySize, true);
      assert BlockSlots(b, data, i, true) == [Loc(b, data, i)] + rest;
      assert ([Loc(b, data, i)] + rest)[1..] == rest;
    }
  }

  lemma {:induction false} LiveSlotsDistribute(a: seq<Loc>, b: seq<Loc>)
    requires AllValid(a) && AllValid(b)
    ensures AllValid(a + b) && LiveSlots(a + b) == LiveSlots(a) + LiveSlots(b)
  {
    if a != [] {
      assert (a + b)[1..] == a[1..] + b;
      LiveSlotsDistribute(a[1..], b);
    } else {
      assert a + b == b;
    }
  }

  lemma {:induction false} WalkSkipsBlanks(d: Image, chain: seq<nat>)
    requires Shaped(d) && forall k | 0 <= k < |chain| :: chain[k] < |d|
    ensures Visible(d, chain, false) == LiveSlots(Visible(d, chain, true))
  {
    if chain != [] {
      BlockSkipsBlanks(chain[0], d[chain[0]], 0);
      WalkSkipsBlanks(d, chain[1..]);
      LiveSlotsDistribute(BlockSlots(chain[0], d[chain[0]], 0, true), Visible(d, chain[1..], true));
    }
  }

  /** Within a block, slot `s` from offset `i` sits at offset i + 32 * s. */
  lemma {:induction false} BlockSlotOrder(b: nat, data: seq<byte>, i: nat, s: nat)
    requires |data| % EntrySize == 0 && i % EntrySize == 0 && i + EntrySize <= |data|
    ensures |BlockSlots(b, data, i, true)| == (|data| - EntrySize - i) / EntrySize
    ensures s < (|data| - EntrySize - i) / EntrySize ==>
            BlockSlots(b, data, i, true)[s] == Loc(b, data, i + EntrySize * s)
    decreases |data| - i
  {
    if i + 2 * EntrySize <= |data| {
      if s == 0 {
        BlockSlotOrder(b, data, i + EntrySize, 0);
      } else {
        BlockSlotOrder(b, data, i + EntrySize, s - 1);
      }
    }
  }

  lemma MulSucc(a: nat, n: nat)
    ensures (a + 1) * n == a * n + n
  {
  }

  lemma {:induction false} SlotIndexBound(j: nat, m: nat, n: nat, s: nat)
    requires j < m && s < n
    ensures j * n + s < m * n
    decreases m
  {
    MulSucc(m - 1, n);
    if j + 1 < m {
      SlotIndexBound(j, m - 1, n, s);
    }
  }

  /** On a device of uniform block size a full walk visits n slots per block. */
  lemma {:induction false} VisibleLength(d: Image, chain: seq<nat>, blockSize: nat)
    requires Shaped(d) && forall k | 0 <= k < |chain| :: chain[k] < |d|
    requires forall b | 0 <= b < |d| :: |d[b]| == blockSize
    ensures |Visible(d, chain, true)| == |chain| * ((blockSize - EntrySize) / EntrySize)
  {
    if chain != [] {
      var n := (blockSize - EntrySize) / EntrySize;
      BlockSlotOrder(chain[0], d[chain[0]], 0, 0);
      VisibleLength(d, chain[1..], blockSize);
      MulSucc(|chain| - 1, n);
    }
  }

  /** On a device of uniform block size, a full walk visits slot `s` of the
      `j`-th block of the chain at position j * n + s, n being the slots per block:
      ascending offsets within a block, blocks in chain order. */
  lemma WalkOrder(d: Image, chain: seq<nat>, blockSize: nat, j: nat, s: nat)
    requires Shaped(d) && forall k | 0 <= k < |chain| :: chain[k] < |d|
    requires forall b | 0 <= b < |d| :: |d[b]| == blockSize
    requires j < |chain| && s < (blockSize - EntrySize) / EntrySize
    ensures var n := (blockSize - EntrySize) / EntrySize;
            j * n + s < |Visible(d, chain, true)| &&
            Visible(d, chain, true)[j * n + s] == Loc(chain[j], d[chain[j]], EntrySize * s)
  {
    var n := (blockSize - EntrySize) / EntrySize;
    BlocksBefore(j, n);
    WalkOrderAt(d, chain, blockSize, n, j, s, j * n + s);
  }

  /** j blocks of n slots each, counted one block at a time. */
  function SlotsBefore(j: nat, n: nat): nat
  {
    if j == 0 then 0 else SlotsBefore(j - 1, n) + n
  }

  lemma {:induction false} BlocksBefore(j: nat, n: nat)
    ensures SlotsBefore(j, n) == j * n
  {
    if j > 0 {
      BlocksBefore(j - 1, n);
      MulSucc(j - 1, n);
    }
  }

  /** WalkOrder with the slot's index `idx` passed along, so that each step
      subtracts one block's worth of slots. */
  lemma {:induction false} WalkOrderAt(d: Image, chain: seq<nat>, blockSize: nat, n: nat, j: nat, s: nat, idx: nat)
    requires Shaped(d) && forall k | 0 <= k < |chain| :: chain[k] < |d|
    requires forall b | 0 <= b < |d| :: |d[b]| == blockSize
    requires n == (blockSize - EntrySize) / EntrySize
    requires j < |chain| && s < n && idx == SlotsBefore(j, n) + s
    ensures idx < |Visible(d, chain, true)| && Visible(d, chain, true)[idx] == Loc(chain[j], d[chain[j]], EntrySize * s)
  {
    var first := BlockSlots(chain[0], d[chain[0]], 0, true);
    var rest := Visible(d, chain[1..], true);
    assert Visible(d, chain, true) == first + rest;
    assert |first| == n by {
      assert |d[chain[0]]| == blockSize;
      BlockSlotOrder(chain[0], d[chain[0]], 0, s);
    }
    if j == 0 {
      assert first[s] == Loc(chain[0], d[chain[0]], EntrySize * s) by {
        BlockSlotOrder(chain[0], d[chain[0]], 0, s);
      }
      IndexConcat(first, rest, idx);
    } else {
      assert idx - n == SlotsBefore(j - 1, n) + s;
      WalkOrderAt(d, chain[1..], blockSize, n, j - 1, s, idx - n);
      assert chain[1..][j - 1] == chain[j];
      IndexConcat(first, rest, idx);
      assert (first + rest)[idx] == rest[idx - n];
    }
  }

  lemma IndexConcat<T>(first: seq<T>, rest: seq<T>, i: nat)
    requires i < |first| + |rest|
    ensures (first + rest)[i] == if i < |first| then first[i] else rest[i - |first|]
  {
  }

  // ----- the directory invariant -----

  /** Every directory record of `data` points at a block of `dirs`. */
  ghost predicate RecordsClosed(data: seq<byte>, dirs: set<nat>)
  {
    forall o | IsSlot(data, o) && !IsBlank(data, o) && IsDirectory(data, o) ::
      ReadDataPointer(data, o) as nat in dirs
  }

  /** Block `b` of `dirs` is on the device, its chain ends, its link stays in
      `dirs` and so do the data pointers of its directory records. */
  ghost predicate ClosedAt(d: Image, dirs: set<nat>, b: nat)
  {
    b < |d| && |d[b]| >= EntrySize && Walkable(d, b) && RecordsClosed(d[b], dirs) &&
    (NextBlock(d[b]) != 0 ==> NextBlock(d[b]) as nat in dirs)
  }

  /** `dirs` holds the root and every block reachable from it through chain links
      and directory records, and every chain from a block in `dirs` is finite. */
  ghost predicate DirClosed(d: Image, dirs: set<nat>)
  {
    Shaped(d) && forall b {:trigger ClosedAt(d, dirs, b)} | b in dirs :: ClosedAt(d, dirs, b)
  }

  lemma ClosedBlock(d: Image, dirs: set<nat>, b: nat)
    requires DirClosed(d, dirs) && b in dirs
    ensures ClosedAt(d, dirs, b)
  {
  }

  lemma {:induction false} ChainStaysInside(d: Image, dirs: set<nat>, b: nat, fuel: nat)
    requires DirClosed(d, dirs) && b in dirs && LinkChain(d, b, EntrySize, fuel).Some?
    ensures forall k | 0 <= k < |LinkChain(d, b, EntrySize, fuel).value| ::
              LinkChain(d, b, EntrySize, fuel).value[k] in dirs
    decreases fuel
  {
    ClosedBlock(d, dirs, b);
    var next := ReadUint16BE(d[b], |d[b]| - EntrySize);
    if next != 0 {
      ChainStaysInside(d, dirs, next, fuel - 1);
    }
  }

  /** Every slot a walk of a chain of directory blocks visits lies in a
      directory block, and a directory record found there points at one. */
  lemma VisitedSlotsInside(d: Image, dirs: set<nat>, chain: seq<nat>, includeBlank: bool)
    requires DirClosed(d, dirs)
    requires forall k | 0 <= k < |chain| :: chain[k] < |d| && chain[k] in dirs
    ensures forall l | l in Visible(d, chain, includeBlank) :: l.block in dirs
    ensures forall l | l in Visible(d, chain, includeBlank) ::
              !IsBlank(l.data, l.offset) && IsDirectory(l.data, l.offset) ==>
                ReadDataPointer(l.data, l.offset) as nat in dirs
  {
    forall l | l in Visible(d, chain, includeBlank)
      ensures l.block in dirs
      ensures !IsBlank(l.data, l.offset) && IsDirectory(l.data, l.offset) ==>
                ReadDataPointer(l.data, l.offset) as nat in dirs
    {
      ClosedBlock(d, dirs, l.block);
    }
  }

  /** The slots a walk of the directory whose first block is `b` visits. */
  ghost function DirSlots(d: Image, dirs: set<nat>, b: nat, includeBlank: bool): (r: seq<Loc>)
    requires DirClosed(d, dirs) && b in dirs
    ensures AllValid(r)
    ensures forall k | 0 <= k < |r| ::
              r[k].block in dirs && r[k].block < |d| && r[k].data == d[r[k].block] &&
              (includeBlank || !IsBlank(r[k].data, r[k].offset))
    ensures forall k | 0 <= k < |r| ::
              !IsBlank(r[k].data, r[k].offset) && IsDirectory(r[k].data, r[k].offset) ==>
                ReadDataPointer(r[k].data, r[k].offset) as nat in dirs
  {
    ClosedBlock(d, dirs, b);
    ChainStaysInside(d, dirs, b, |d|);
    VisitedSlotsInside(d, dirs, ChainOf(d, b), includeBlank);
    var r := Visible(d, ChainOf(d, b), includeBlank);
    assert forall k | 0 <= k < |r| :: r[k] in r;
    r
  }

  lemma {:induction false} ReplacedBlockSameChain(d: Image, x: nat, c: seq<byte>, b: nat, fuel: nat)
    requires x < |d| && |c| == |d[x]| >= EntrySize && NextBlock(c) == NextBlock(d[x])
    ensures LinkChain(d[x := c], b, EntrySize, fuel) == LinkChain(d, b, EntrySize, fuel)
    decreases fuel
  {
    if b < |d| && |d[b]| >= EntrySize && fuel > 0 {
      ReplacedBlockSameChain(d, x, c, ReadUint16BE(d[b], |d[b]| - EntrySize), fuel - 1);
    }
  }

  /** Replacing a directory block by one with the same link whose directory
      records point at directory blocks keeps the invariant. */
  lemma BlockWriteKeepsClosed(d: Image, dirs: set<nat>, x: nat, c: seq<byte>)
    requires DirClosed(d, dirs) && x in dirs && x < |d|
    requires |c| == |d[x]| && NextBlock(c) == NextBlock(d[x]) && RecordsClosed(c, dirs)
    ensures DirClosed(d[x := c], dirs)
  {
    forall b | b in dirs
      ensures ClosedAt(d[x := c], dirs, b)
    {
      ClosedBlock(d, dirs, b);
      ReplacedBlockSameChain(d, x, c, b, |d|);
    }
  }

  /** A write confined to one record keeps the link and the other records. */
  lemma RecordWriteKeepsRecordsClosed(data: seq<byte>, c: seq<byte>, o: nat, dirs: set<nat>)
    requires RecordsClosed(data, dirs) && IsSlot(data, o) && OnlyRecordChanged(data, c, o)
    requires !IsBlank(c, o) && IsDirectory(c, o) ==> ReadDataPointer(c, o) as nat in dirs
    ensures RecordsClosed(c, dirs) && NextBlock(c) == NextBlock(data)
  {
    forall o2 | IsSlot(c, o2) && !IsBlank(c, o2) && IsDirectory(c, o2)
      ensures ReadDataPointer(c, o2) as nat in dirs
    {
      if o2 != o {
        OtherRecordsUnchanged(data, c, o, o2);
      }
    }
    assert c[|data| - EntrySize] == data[|data| - EntrySize];
    assert c[|data| - EntrySize + 1] == data[|data| - EntrySize + 1];
  }

  lemma {:induction false} ZeroedChainEnds(d: Image, n: nat, b: nat, fuel: nat)
    requires n < |d| && |d[n]| >= EntrySize
    requires LinkChain(d, b, EntrySize, fuel).Some?
    ensures LinkChain(d[n := Zeros(|d[n]|)], b, EntrySize, fuel).Some?
    decreases fuel
  {
    if b != n {
      var next := ReadUint16BE(d[b], |d[b]| - EntrySize);
      if next != 0 {
        ZeroedChainEnds(d, n, next, fuel - 1);
      }
    }
  }

  /** Zeroing a block and adding it to the directory blocks keeps the invariant. */
  lemma ZeroKeepsClosed(d: Image, dirs: set<nat>, n: nat)
    requires DirClosed(d, dirs) && n < |d|
    ensures DirClosed(d[n := Zeros(|d[n]|)], dirs + {n})
  {
    var d' := d[n := Zeros(|d[n]|)];
    forall b | b in dirs + {n}
      ensures ClosedAt(d', dirs + {n}, b)
    {
      if b == n {
        assert NextBlock(d'[n]) == 0;
        assert LinkChain(d', n, EntrySize, |d'|) == Some([n]);
      } else {
        ClosedBlock(d, dirs, b);
        ZeroedChainEnds(d, n, b, |d|);
      }
    }
  }

  /** A block of zeroes holds no records. */
  lemma {:induction false} ZeroedBlockHasNoRecords(b: nat, data: seq<byte>, i: nat)
    requires |data| % EntrySize == 0 && i % EntrySize == 0 && i + EntrySize <= |data|
    requires forall k | 0 <= k < |data| :: data[k] == 0
    ensures BlockSlots(b, data, i, false) == []
    decreases |data| - i
  {
    if i + 2 * EntrySize <= |data| {
      assert IsBlank(data, i);
      ZeroedBlockHasNoRecords(b, data, i + EntrySize);
    }
  }

  /** A directory whose first block is all zeroes is one block long and
      lists nothing. */
  lemma ZeroedDirectoryIsEmpty(d: Image, dirs: set<nat>, b: nat)
    requires DirClosed(d, dirs) && b in dirs && b < |d|
    requires forall k | 0 <= k < |d[b]| :: d[b][k] == 0
    ensures DirSlots(d, dirs, b, false) == []
  {
    ClosedBlock(d, dirs, b);
    var chain := ChainOf(d, b);
    DirectoryChainLinks(d, b, 0);
    assert NextBlock(d[b]) == 0;
    assert chain == [b];
    ZeroedBlockHasNoRecords(b, d[b], 0);
    assert Visible(d, chain, false) == BlockSlots(b, d[b], 0, false) + Visible(d, [], false);
  }
}
