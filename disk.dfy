/**
 * The block device the file system sits on: `blockCount` blocks of
 * `blockSize` bytes each. A read hands back a copy of the block's bytes;
 * a write replaces the whole block.
 */
module BlockDevice {
  import opened Bytes

  function Zeros(n: nat): (s: seq<byte>)
    ensures |s| == n && forall k | 0 <= k < n :: s[k] == 0
  {
    seq(n, _ => 0)
  }

  class Disk {
    const blockSize: nat
    const blockCount: nat
    var blocks: seq<seq<byte>>

    /** Block sizes are whole numbers of 32-byte records; every block has that size. */
    ghost predicate Valid()
      reads this
    {
      blockSize >= 32 && blockSize % 32 == 0 &&
      |blocks| == blockCount &&
      forall b | 0 <= b < |blocks| :: |blocks[b]| == blockSize
    }

    /** A device whose blocks all hold zeroes. */
    constructor Blank(blockSize: nat, blockCount: nat)
      requires blockSize >= 32 && blockSize % 32 == 0
      ensures Valid()
      ensures this.blockSize == blockSize && this.blockCount == blockCount
      ensures blocks == seq(blockCount, _ => Zeros(blockSize))
    {
      this.blockSize := blockSize;
      this.blockCount := blockCount;
      blocks := seq(blockCount, _ => Zeros(blockSize));
    }

    method ReadBlock(n: nat) returns (data: seq<byte>)
      requires Valid() && n < blockCount
      ensures data == blocks[n] && |data| == blockSize
    {
      data := blocks[n];
    }

    method WriteBlock(n: nat, data: seq<byte>)
      requires Valid() && n < blockCount && |data| == blockSize
      modifies this
      ensures Valid()
      ensures blocks == old(blocks)[n := data]
    {
      blocks := blocks[n := data];
    }

    method ZeroBlock(n: nat)
      requires Valid() && n < blockCount
      modifies this
      ensures Valid()
      ensures blocks == old(blocks)[n := Zeros(blockSize)]
    {
      blocks := blocks[n := Zeros(blockSize)];
    }
  }
}
