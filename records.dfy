/**
 * The 32-byte directory record and the directory block that holds records.
 *
 *   bytes  0-15  name (NUL-padded ASCII)     bytes 22-25  modified (seconds)
 *   bytes 16-17  type (0 = directory)        bytes 26-29  size
 *   bytes 18-19  data pointer                bytes 30-31  flags
 *   bytes 20-21  metadata pointer
 *
 * A directory block holds records at offsets 0, 32, ... below blockSize - 32;
 * the first two bytes of its last 32 hold the number of the next block of the
 * same directory (0 ends the chain). A record whose first byte is 0 is blank.
 */
module Records {
  import opened Bytes

  const EntrySize: nat := 32
  const NameLength: nat := 16
  const DirectoryType: u16 := 0

  datatype Entry = Entry(name: seq<byte>, entryType: u16, dataInode: u16, metaInode: u16,
                         modified: nat, size: nat, flags: u16)

  /** A record offset the walker visits in a directory block `data`. */
  predicate IsSlot(data: seq<byte>, offset: nat)
  {
    offset % EntrySize == 0 && offset + 2 * EntrySize <= |data|
  }

  /** The link to the next block of the directory (0: last block). */
  function NextBlock(data: seq<byte>): u16
    requires |data| >= EntrySize
  {
    ReadUint16BE(data, |data| - EntrySize)
  }

  predicate IsBlank(data: seq<byte>, offset: nat)
    requires offset < |data|
  {
    data[offset] == 0
  }

  function ReadFilename(data: seq<byte>, offset: nat): seq<byte>
    requires offset + EntrySize <= |data|
  {
    ReadFixedLengthAsciiString(data, offset, NameLength)
  }

  function ReadType(data: seq<byte>, offset: nat): u16
    requires offset + EntrySize <= |data|
  {
    ReadUint16BE(data, offset + 16)
  }

  function ReadDataPointer(data: seq<byte>, offset: nat): u16
    requires offset + EntrySize <= |data|
  {
    ReadUint16BE(data, offset + 18)
  }

  function ReadMetadataPointer(data: seq<byte>, offset: nat): u16
    requires offset + EntrySize <= |data|
  {
    ReadUint16BE(data, offset + 20)
  }

  function ReadSize(data: seq<byte>, offset: nat): nat
    requires offset + EntrySize <= |data|
  {
    ReadUint32BE(data, offset + 26)
  }

  predicate IsDirectory(data: seq<byte>, offset: nat)
    requires offset + EntrySize <= |data|
  {
    ReadType(data, offset) == DirectoryType
  }

  /** Only the bytes of the record at `offset` may differ between `data` and `data'`. */
  predicate OnlyRecordChanged(data: seq<byte>, data': seq<byte>, offset: nat)
  {
    |data'| == |data| &&
    forall k | 0 <= k < |data| && (k < offset || offset + EntrySize <= k) :: data'[k] == data[k]
  }

  function WriteType(data: seq<byte>, offset: nat, value: int): (r: seq<byte>)
    requires offset + EntrySize <= |data|
    ensures |r| == |data|
    ensures ReadType(r, offset) == value % TwoTo16
    ensures forall k | 0 <= k < |data| && k != offset + 16 && k != offset + 17 :: r[k] == data[k]
  {
    WriteUint16BE(data, offset + 16, value)
  }

  function WriteDataPointer(data: seq<byte>, offset: nat, value: int): (r: seq<byte>)
    requires offset + EntrySize <= |data|
    ensures |r| == |data|
    ensures ReadDataPointer(r, offset) == value % TwoTo16
    ensures forall k | 0 <= k < |data| && k != offset + 18 && k != offset + 19 :: r[k] == data[k]
  {
    WriteUint16BE(data, offset + 18, value)
  }

  function WriteSize(data: seq<byte>, offset: nat, value: int): (r: seq<byte>)
    requires offset + EntrySize <= |data|
    ensures |r| == |data|
    ensures ReadSize(r, offset) == value % TwoTo32
    ensures forall k | 0 <= k < |data| && (k < offset + 26 || offset + 30 <= k) :: r[k] == data[k]
  {
    WriteUint32BE(data, offset + 26, value)
  }

  /** The record at `offset` as its seven fields. The name stops before the
      first NUL of its 16 bytes, so it is empty exactly for a blank record;
      type, data pointer and size are what the field readers see. */
  function ParseDirectoryEntry(data: seq<byte>, offset: nat): (e: Entry)
    requires offset + EntrySize <= |data|
    ensures |e.name| <= NameLength && 0 !in e.name
    ensures e.name == [] <==> IsBlank(data, offset)
    ensures e.entryType == ReadType(data, offset) && e.dataInode == ReadDataPointer(data, offset) &&
            e.size == ReadSize(data, offset)
  {
    Entry(ReadFilename(data, offset), ReadUint16BE(data, offset + 16), ReadUint16BE(data, offset + 18),
          ReadUint16BE(data, offset + 20), ReadUint32BE(data, offset + 22),
          ReadUint32BE(data, offset + 26), ReadUint16BE(data, offset + 30))
  }

  /** The 32 bytes the seven field writes of a fresh record leave: name, type,
      data pointer, metadata pointer 0, modification time, size 0 and flags 0. */
  function EncodeEntry(name: seq<byte>, entryType: int, dataPointer: int, modified: int): (w: seq<byte>)
    ensures |w| == EntrySize
  {
    FixedLengthAscii(name, NameLength) + Be16(entryType) + Be16(dataPointer) + Be16(0) +
    Be32(modified) + Be32(0) + Be16(0)
  }

  /** A fresh record written over the slot at `offset`. */
  function FillEntry(data: seq<byte>, offset: nat, name: seq<byte>, entryType: int,
                     dataPointer: int, modified: int): (r: seq<byte>)
    requires offset + EntrySize <= |data|
    ensures OnlyRecordChanged(data, r, offset)
    ensures r[offset..offset + EntrySize] == EncodeEntry(name, entryType, dataPointer, modified)
  {
    Splice(data, offset, EncodeEntry(name, entryType, dataPointer, modified))
  }

  /** The block with the 32 bytes of the record at `offset` zeroed. */
  function Cleared(data: seq<byte>, offset: nat): (r: seq<byte>)
    requires offset + EntrySize <= |data|
    ensures |r| == |data|
    ensures forall k | 0 <= k < |data| :: r[k] == if offset <= k < offset + EntrySize then 0 else data[k]
  {
    Splice(data, offset, seq(EntrySize, _ => 0))
  }

  /** Zeroes the 32 bytes of the record at `offset`, one byte at a time. */
  method ClearDirectoryEntry(data: seq<byte>, offset: nat) returns (r: seq<byte>)
    requires offset + EntrySize <= |data|
    ensures r == Cleared(data, offset)
  {
    r := data;
    var i := offset;
    var end := offset + EntrySize;
    while i < end
      invariant offset <= i <= end
      invariant |r| == |data|
      invariant forall k | 0 <= k < |data| :: r[k] == if offset <= k < i then 0 else data[k]
    {
      r := r[i := 0];
      i := i + 1;
    }
  }

  /** A record's fields depend on its own 32 bytes only. */
  lemma RecordDependsOnItsBytes(data: seq<byte>, data': seq<byte>, offset: nat)
    requires offset + EntrySize <= |data| && offset + EntrySize <= |data'|
    requires forall k | offset <= k < offset + EntrySize :: data'[k] == data[k]
    ensures ParseDirectoryEntry(data', offset) == ParseDirectoryEntry(data, offset)
    ensures ReadFilename(data', offset) == ReadFilename(data, offset)
    ensures ReadType(data', offset) == ReadType(data, offset)
    ensures ReadDataPointer(data', offset) == ReadDataPointer(data, offset)
    ensures ReadSize(data', offset) == ReadSize(data, offset)
    ensures IsBlank(data', offset) == IsBlank(data, offset)
  {
    assert data'[offset..offset + NameLength] == data[offset..offset + NameLength];
  }

  /** Writing inside one record leaves every other record and the link intact. */
  lemma OtherRecordsUnchanged(data: seq<byte>, data': seq<byte>, offset: nat, other: nat)
    requires OnlyRecordChanged(data, data', offset)
    requires IsSlot(data, offset) && IsSlot(data, other) && other != offset
    ensures IsSlot(data', other)
    ensures ParseDirectoryEntry(data', other) == ParseDirectoryEntry(data, other)
    ensures ReadFilename(data', other) == ReadFilename(data, other)
    ensures ReadType(data', other) == ReadType(data, other)
    ensures ReadDataPointer(data', other) == ReadDataPointer(data, other)
    ensures ReadSize(data', other) == ReadSize(data, other)
    ensures IsBlank(data', other) == IsBlank(data, other)
    ensures NextBlock(data') == NextBlock(data)
  {
    assert other + EntrySize <= offset || offset + EntrySize <= other;
    RecordDependsOnItsBytes(data, data', other);
  }

  /** The seven field writes, one after another, leave exactly the encoded record. */
  lemma FieldWritesFillEntry(data: seq<byte>, offset: nat, name: seq<byte>, entryType: int,
                             dataPointer: int, modified: int)
    requires offset + EntrySize <= |data|
    ensures var d1 := WriteFixedLengthAsciiString(data, offset, NameLength, name);
            var d2 := WriteUint16BE(d1, offset + 16, entryType);
            var d3 := WriteUint16BE(d2, offset + 18, dataPointer);
            var d4 := WriteUint16BE(d3, offset + 20, 0);
            var d5 := WriteUint32BE(d4, offset + 22, modified);
            var d6 := WriteUint32BE(d5, offset + 26, 0);
            WriteUint16BE(d6, offset + 30, 0) == FillEntry(data, offset, name, entryType, dataPointer, modified)
  {
    var d1 := WriteFixedLengthAsciiString(data, offset, NameLength, name);
    var d2 := WriteUint16BE(d1, offset + 16, entryType);
    var d3 := WriteUint16BE(d2, offset + 18, dataPointer);
    var d4 := WriteUint16BE(d3, offset + 20, 0);
    var d5 := WriteUint32BE(d4, offset + 22, modified);
    var d6 := WriteUint32BE(d5, offset + 26, 0);
    var d7 := WriteUint16BE(d6, offset + 30, 0);
    var f := FillEntry(data, offset, name, entryType, dataPointer, modified);
    var w := EncodeEntry(name, entryType, dataPointer, modified);
    FieldSlices(FixedLengthAscii(name, NameLength), Be16(entryType), Be16(dataPointer), Be16(0),
                Be32(modified), Be32(0), Be16(0));
    forall k | 0 <= k < |data|
      ensures d7[k] == f[k]
    {
      if offset <= k < offset + EntrySize {
        assert f[offset..offset + EntrySize][k - offset] == f[k];
        var j := k - offset;
        if j < 16 {
          assert d1[offset + j] == w[..16][j];
        }
      }
    }
  }

  /** A record parses the same in its block as on its own 32 bytes. */
  lemma ParseInPlace(data: seq<byte>, offset: nat)
    requires offset + EntrySize <= |data|
    ensures ParseDirectoryEntry(data, offset) == ParseDirectoryEntry(data[offset..offset + EntrySize], 0)
  {
    var w := data[offset..offset + EntrySize];
    assert data[offset..offset + NameLength] == w[..NameLength];
    forall j | NameLength <= j < EntrySize
      ensures data[offset + j] == w[j]
    {
    }
  }

  /** The seven fields of a record are found again at their offsets. */
  lemma FieldSlices(name: seq<byte>, t: seq<byte>, dp: seq<byte>, mp: seq<byte>,
                    m: seq<byte>, size: seq<byte>, flags: seq<byte>)
    requires |name| == 16 && |t| == 2 && |dp| == 2 && |mp| == 2 && |m| == 4 && |size| == 4 && |flags| == 2
    ensures var w := name + t + dp + mp + m + size + flags;
            w[..16] == name && w[16..18] == t && w[18..20] == dp && w[20..22] == mp &&
            w[22..26] == m && w[26..30] == size && w[30..32] == flags
  {
    var w := name + t + dp + mp + m + size + flags;
    assert w[..16] == name;
    assert w[16..18] == t;
    assert w[18..20] == dp;
    assert w[20..22] == mp;
    assert w[22..26] == m;
    assert w[26..30] == size;
    assert w[30..32] == flags;
  }

  /** The encoded record parses back to the values encoded. */
  lemma ParseEncodedEntry(name: seq<byte>, entryType: u16, dataPointer: u16, modified: nat)
    ensures ParseDirectoryEntry(EncodeEntry(name, entryType, dataPointer, modified), 0)
              == Entry(UntilNul(FixedLengthAscii(name, NameLength)), entryType, dataPointer, 0,
                       modified % TwoTo32, 0, 0)
  {
    FieldSlices(FixedLengthAscii(name, NameLength), Be16(entryType), Be16(dataPointer), Be16(0),
                Be32(modified), Be32(0), Be16(0));
    Be16Value(entryType);
    Be16Value(dataPointer);
    Be16Value(0);
    Be32Value(modified);
    Be32Value(0);
  }

  /** A record written by FillEntry parses back to the values written. */
  lemma ParseFilledEntry(data: seq<byte>, offset: nat, name: seq<byte>, entryType: u16,
                         dataPointer: u16, modified: nat)
    requires offset + EntrySize <= |data|
    ensures var r := FillEntry(data, offset, name, entryType, dataPointer, modified);
            ParseDirectoryEntry(r, offset)
              == Entry(UntilNul(FixedLengthAscii(name, NameLength)), entryType, dataPointer, 0,
                       modified % TwoTo32, 0, 0)
  {
    var r := FillEntry(data, offset, name, entryType, dataPointer, modified);
    ParseInPlace(r, offset);
    ParseEncodedEntry(name, entryType, dataPointer, modified);
  }

  /** A storable name reads back unchanged from the record FillEntry writes. */
  lemma ParseFilledStorable(data: seq<byte>, offset: nat, name: seq<byte>, entryType: u16,
                            dataPointer: u16, modified: nat)
    requires offset + EntrySize <= |data|
    ensures StorableName(name, NameLength) ==>
            ParseDirectoryEntry(FillEntry(data, offset, name, entryType, dataPointer, modified), offset)
              == Entry(name, entryType, dataPointer, 0, modified % TwoTo32, 0, 0)
  {
    ParseFilledEntry(data, offset, name, entryType, dataPointer, modified);
    if StorableName(name, NameLength) {
      AsciiRoundTrip(data, offset, NameLength, name);
      assert WriteFixedLengthAsciiString(data, offset, NameLength, name)[offset..offset + NameLength]
             == FixedLengthAscii(name, NameLength);
    }
  }

  /** A cleared record is blank and parses to all zeroes; nothing else changes. */
  lemma ClearedRecord(data: seq<byte>, offset: nat)
    requires offset + EntrySize <= |data|
    ensures OnlyRecordChanged(data, Cleared(data, offset), offset)
    ensures IsBlank(Cleared(data, offset), offset)
    ensures ParseDirectoryEntry(Cleared(data, offset), offset) == Entry([], 0, 0, 0, 0, 0, 0)
  {
    var r := Cleared(data, offset);
    assert r[offset..offset + NameLength][0] == 0;
  }
}
