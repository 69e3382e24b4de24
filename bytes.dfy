/**
 * Byte-level helpers the directory format is built from: big-endian 16- and
 * 32-bit fields and NUL-padded fixed-length ASCII strings. Buffers are values
 * (`seq<byte>`); a "write" returns the updated buffer.
 */
module Bytes {

  type byte = x: int | 0 <= x < 0x100
  type u16 = x: int | 0 <= x < 0x1_0000

  const TwoTo16: int := 0x1_0000
  const TwoTo32: int := 0x1_0000_0000

  /** `w` written over `s` starting at `off`. */
  function Splice(s: seq<byte>, off: nat, w: seq<byte>): (r: seq<byte>)
    requires off + |w| <= |s|
    ensures |r| == |s|
    ensures forall k | 0 <= k < |s| && (k < off || off + |w| <= k) :: r[k] == s[k]
    ensures forall k | 0 <= k < |w| :: r[off + k] == w[k]
  {
    s[..off] + w + s[off + |w|..]
  }

  function ReadUint16BE(s: seq<byte>, off: nat): (v: u16)
    requires off + 2 <= |s|
  {
    (s[off] as int) * 0x100 + s[off + 1] as int
  }

  function ReadUint32BE(s: seq<byte>, off: nat): (v: nat)
    requires off + 4 <= |s|
    ensures v < TwoTo32
  {
    var b0, b1, b2, b3 := s[off] as int, s[off + 1] as int, s[off + 2] as int, s[off + 3] as int;
    ((b0 * 0x100 + b1) * 0x100 + b2) * 0x100 + b3
  }

  /** The two bytes stored for `v`: its low 16 bits, most significant first. */
  function Be16(v: int): (w: seq<byte>)
    ensures |w| == 2
  {
    var u := v % TwoTo16;
    [u / 0x100, u % 0x100]
  }

  /** The four bytes stored for `v`: its low 32 bits, most significant first. */
  function Be32(v: int): (w: seq<byte>)
    ensures |w| == 4
  {
    var u := v % TwoTo32;
    [u / 0x100_0000, (u / 0x1_0000) % 0x100, (u / 0x100) % 0x100, u % 0x100]
  }

  function WriteUint16BE(s: seq<byte>, off: nat, v: int): (r: seq<byte>)
    requires off + 2 <= |s|
    ensures |r| == |s|
    ensures ReadUint16BE(r, off) == v % TwoTo16
    ensures r[off] == Be16(v)[0] && r[off + 1] == Be16(v)[1]
    ensures forall k | 0 <= k < |s| && k != off && k != off + 1 :: r[k] == s[k]
  {
    var r := Splice(s, off, Be16(v));
    assert r[off] == Be16(v)[0] && r[off + 1] == Be16(v)[1];
    r
  }

  function WriteUint32BE(s: seq<byte>, off: nat, v: int): (r: seq<byte>)
    requires off + 4 <= |s|
    ensures |r| == |s|
    ensures ReadUint32BE(r, off) == v % TwoTo32
    ensures r[off] == Be32(v)[0] && r[off + 1] == Be32(v)[1] && r[off + 2] == Be32(v)[2] && r[off + 3] == Be32(v)[3]
    ensures forall k | 0 <= k < |s| && (k < off || off + 4 <= k) :: r[k] == s[k]
  {
    var r := Splice(s, off, Be32(v));
    var w := Be32(v);
    assert r[off] == w[0] && r[off + 1] == w[1] && r[off + 2] == w[2] && r[off + 3] == w[3];
    Be32Value(v);
    r
  }

  lemma Be16Value(v: int)
    ensures var w := Be16(v); (w[0] as int) * 0x100 + w[1] as int == v % TwoTo16
  {
  }

  lemma Be32Value(v: int)
    ensures var w := Be32(v);
      (((w[0] as int) * 0x100 + w[1] as int) * 0x100 + w[2] as int) * 0x100 + w[3] as int == v % TwoTo32
  {
    var u := v % TwoTo32;
    var q1, q2, q3 := u / 0x100, u / 0x1_0000, u / 0x100_0000;
    assert u == q1 * 0x100 + u % 0x100;
    assert q1 == q2 * 0x100 + q1 % 0x100;
    assert q2 == q3 * 0x100 + q2 % 0x100;
    assert q2 == q1 / 0x100;
    assert q3 == q2 / 0x100;
  }

  /** The characters of a NUL-terminated string: everything before the first 0. */
  function UntilNul(s: seq<byte>): (r: seq<byte>)
    ensures |r| <= |s| && r == s[..|r|]
    ensures 0 !in r
    ensures |r| < |s| ==> s[|r|] == 0
  {
    if s == [] || s[0] == 0 then [] else [s[0]] + UntilNul(s[1..])
  }

  /** The `len` bytes stored for `name`: truncated to `len`, then padded with NULs. */
  function FixedLengthAscii(name: seq<byte>, len: nat): (w: seq<byte>)
    ensures |w| == len
  {
    if |name| >= len then name[..len] else name + seq(len - |name|, _ => 0)
  }

  function ReadFixedLengthAsciiString(s: seq<byte>, off: nat, len: nat): seq<byte>
    requires off + len <= |s|
  {
    UntilNul(s[off..off + len])
  }

  function WriteFixedLengthAsciiString(s: seq<byte>, off: nat, len: nat, name: seq<byte>): (r: seq<byte>)
    requires off + len <= |s|
    ensures |r| == |s|
    ensures forall k | 0 <= k < |s| && (k < off || off + len <= k) :: r[k] == s[k]
    ensures forall k | 0 <= k < len :: r[off + k] == FixedLengthAscii(name, len)[k]
  {
    Splice(s, off, FixedLengthAscii(name, len))
  }

  /** A name the fixed-length field stores exactly: it fits and holds no NUL. */
  predicate StorableName(name: seq<byte>, len: nat)
  {
    |name| <= len && 0 !in name
  }

  lemma {:induction false} UntilNulOfPadded(name: seq<byte>, pad: nat)
    requires 0 !in name
    ensures UntilNul(name + seq(pad, _ => 0)) == name
  {
    if name == [] {
      assert pad > 0 ==> (name + seq(pad, _ => 0))[0] == 0;
    } else {
      assert (name + seq(pad, _ => 0))[1..] == name[1..] + seq(pad, _ => 0);
      UntilNulOfPadded(name[1..], pad);
    }
  }

  /** Reading back a fixed-length string gives the name written, cut at the first NUL. */
  lemma AsciiRoundTrip(s: seq<byte>, off: nat, len: nat, name: seq<byte>)
    requires off + len <= |s|
    ensures ReadFixedLengthAsciiString(WriteFixedLengthAsciiString(s, off, len, name), off, len)
            == UntilNul(FixedLengthAscii(name, len))
    ensures StorableName(name, len) ==>
            ReadFixedLengthAsciiString(WriteFixedLengthAsciiString(s, off, len, name), off, len) == name
  {
    var r := WriteFixedLengthAsciiString(s, off, len, name);
    assert r[off..off + len] == FixedLengthAscii(name, len);
    if StorableName(name, len) {
      if |name| == len {
        assert FixedLengthAscii(name, len) == name;
        UntilNulOfPadded(name, 0);
        assert name + seq(0, _ => 0) == name;
      } else {
        UntilNulOfPadded(name, len - |name|);
      }
    }
  }
}
