/**
 * The pool of free blocks. In memory it is a stack of block numbers:
 * allocation pops the most recently freed block, freeing pushes. On disk a
 * bitmap of one bit per block is reserved right after the start block.
 */
module FreeLists {
  import opened Bytes
  import opened BlockDevice

  /** Blocks needed for a bitmap of one bit per block: ceil(blockCount / (8 * blockSize)). */
  function CalculateFreeListSize(blockSize: nat, blockCount: nat): (n: nat)
    requires blockSize > 0
    ensures n * (8 * blockSize) >= blockCount
    ensures n > 0 ==> (n - 1) * (8 * blockSize) < blockCount
  {
    var bits := 8 * blockSize;
    var n := (blockCount + bits - 1) / bits;
    assert n * bits + (blockCount + bits - 1) % bits == blockCount + bits - 1;
    n
  }

  /** No smaller bitmap covers every block. */
  lemma FreeListSizeIsLeast(blockSize: nat, blockCount: nat, m: nat)
    requires blockSize > 0
    requires m * (8 * blockSize) >= blockCount
    ensures CalculateFreeListSize(blockSize, blockCount) <= m
  {
    var n := CalculateFreeListSize(blockSize, blockCount);
    if n > m {
      assert (n - 1) * (8 * blockSize) >= m * (8 * blockSize) by {
        MulMonotone(m, n - 1, 8 * blockSize);
      }
    }
  }

  lemma MulMonotone(a: nat, b: nat, c: nat)
    requires a <= b
    ensures a * c <= b * c
  {
  }

  /** What `alloc` returns and the pool it leaves: -1 and the same pool when
      empty, otherwise the last block and the pool without it. */
  function PoolAlloc(pool: seq<int>): (r: (int, seq<int>))
    ensures pool == [] ==> r == (-1, pool)
    ensures pool != [] ==> r.1 + [r.0] == pool
  {
    if pool == [] then (-1, pool) else (pool[|pool| - 1], pool[..|pool| - 1])
  }

  /** The pool after `free(block)`: the block on top, with no check for double frees. */
  function PoolFree(pool: seq<int>, block: int): (r: seq<int>)
    ensures |r| == |pool| + 1 && r[..|pool|] == pool && r[|pool|] == block
  {
    pool + [block]
  }

  /** Freeing a block and allocating again gives that block back and restores the pool. */
  lemma AllocUndoesFree(pool: seq<int>, block: int)
    ensures PoolAlloc(PoolFree(pool, block)) == (block, pool)
  {
  }

  /** Allocating from a non-empty pool and freeing the result restores the pool. */
  lemma FreeUndoesAlloc(pool: seq<int>)
    requires pool != []
    ensures PoolFree(PoolAlloc(pool).1, PoolAlloc(pool).0) == pool
  {
  }

  function Filled(n: nat): (s: seq<byte>)
    ensures |s| == n && forall k | 0 <= k < n :: s[k] == 0xFF
  {
    seq(n, _ => 0xFF)
  }

  class FreeList {
    const blockOffset: nat
    const blockLength: nat
    var list: seq<int>

    /** Writes `CalculateFreeListSize` blocks of all ones starting at `startBlock`
        and returns the first block after them. */
    static method WriteInitial(disk: Disk, startBlock: nat) returns (next: nat)
      requires disk.Valid()
      requires startBlock + CalculateFreeListSize(disk.blockSize, disk.blockCount) <= disk.blockCount
      modifies disk
      ensures disk.Valid()
      ensures next == startBlock + CalculateFreeListSize(disk.blockSize, disk.blockCount)
      ensures |disk.blocks| == |old(disk.blocks)|
      ensures forall k | 0 <= k < |disk.blocks| ::
                disk.blocks[k] == if startBlock <= k < next then Filled(disk.blockSize) else old(disk.blocks[k])
    {
      var length := CalculateFreeListSize(disk.blockSize, disk.blockCount);
      var i := 0;
      while i < length
        invariant 0 <= i <= length
        invariant disk.Valid() && |disk.blocks| == |old(disk.blocks)|
        invariant forall k | 0 <= k < |disk.blocks| ::
                    disk.blocks[k] == if startBlock <= k < startBlock + i then Filled(disk.blockSize) else old(disk.blocks[k])
      {
        disk.WriteBlock(startBlock + i, Filled(disk.blockSize));
        i := i + 1;
      }
      next := startBlock + length;
    }

    /** The bitmap starts at `startBlock`. Loading it from disk does nothing yet,
        so the pool starts empty. */
    constructor (disk: Disk, startBlock: nat)
      requires disk.Valid()
      ensures blockOffset == startBlock
      ensures blockLength == CalculateFreeListSize(disk.blockSize, disk.blockCount)
      ensures list == []
    {
      blockOffset := startBlock;
      blockLength := CalculateFreeListSize(disk.blockSize, disk.blockCount);
      list := [];
    }

    method Alloc() returns (block: int)
      modifies this
      ensures (block, list) == PoolAlloc(old(list))
    {
      if |list| == 0 {
        block := -1;
      } else {
        block := list[|list| - 1];
        list := list[..|list| - 1];
      }
    }

    method Free(block: int)
      modifies this
      ensures list == PoolFree(old(list), block)
    {
      list := list + [block];
    }
  }
}
