// Bytes as the programs store them, and the fixed-width integers they pack
// into byte strings.
module Bytes {
  type byte = x: int | 0 <= x < 256

  const U16_SIZE: nat := 0x1_0000
  const U32_SIZE: nat := 0x1_0000_0000
  const U64_SIZE: nat := 0x1_0000_0000_0000_0000

  type u32 = x: int | 0 <= x < U32_SIZE

  /** Unsigned results wrap around. */
  function Wrap32(v: int): u32 { v % U32_SIZE }

  function Wrap64(v: int): nat { v % U64_SIZE }

  datatype Option<+T> = None | Some(value: T)

  /** Big-endian 16-bit field. */
  function PutU16(v: nat): (s: seq<byte>)
    requires v < U16_SIZE
    ensures |s| == 2
  {
    [v / 256, v % 256]
  }

  function GetU16(s: seq<byte>, offset: nat): (v: nat)
    requires offset + 2 <= |s|
    ensures v < U16_SIZE
  {
    s[offset] as int * 256 + s[offset + 1]
  }

  /** Big-endian 32-bit field. */
  function PutU32(v: nat): (s: seq<byte>)
    requires v < U32_SIZE
    ensures |s| == 4
  {
    [v / 0x100_0000, v / 0x1_0000 % 256, v / 256 % 256, v % 256]
  }

  function GetU32(s: seq<byte>, offset: nat): (v: nat)
    requires offset + 4 <= |s|
    ensures v < U32_SIZE
  {
    s[offset] as int * 0x100_0000 + s[offset + 1] as int * 0x1_0000 + s[offset + 2] as int * 256 + s[offset + 3]
  }

  /** Big-endian 64-bit field. */
  function PutU64(v: nat): (s: seq<byte>)
    requires v < U64_SIZE
    ensures |s| == 8
  {
    PutU32(v / U32_SIZE) + PutU32(v % U32_SIZE)
  }

  function GetU64(s: seq<byte>, offset: nat): (v: nat)
    requires offset + 8 <= |s|
    ensures v < U64_SIZE
  {
    GetU32(s, offset) * U32_SIZE + GetU32(s, offset + 4)
  }

  /** A big-endian number: each byte counts 256 times the one after it. */
  function BigEndian(s: seq<byte>): nat {
    if s == [] then 0 else BigEndian(s[..|s| - 1]) * 256 + s[|s| - 1]
  }

  /** The fields are big-endian, read and written. */
  lemma FieldsAreBigEndian(s: seq<byte>, offset: nat)
    ensures offset + 2 <= |s| ==> GetU16(s, offset) == BigEndian(s[offset..offset + 2])
    ensures offset + 4 <= |s| ==> GetU32(s, offset) == BigEndian(s[offset..offset + 4])
    ensures offset + 8 <= |s| ==> GetU64(s, offset) == BigEndian(s[offset..offset + 8])
  {
    if offset + 2 <= |s| {
      BigEndianOfTwo(s[offset..offset + 2]);
    }
    if offset + 4 <= |s| {
      BigEndianOfFour(s[offset..offset + 4]);
    }
    if offset + 8 <= |s| {
      var t := s[offset..offset + 8];
      BigEndianOfFour(t[..4]);
      BigEndianOfFour(t[4..]);
      BigEndianJoins(t[..4], t[4..]);
      assert t == t[..4] + t[4..];
    }
  }

  lemma BigEndianOfTwo(s: seq<byte>)
    requires |s| == 2
    ensures BigEndian(s) == s[0] as int * 256 + s[1]
  {
    assert s[..1] == [s[0]];
    assert BigEndian([s[0]]) == s[0] as int;
  }

  lemma BigEndianOfFour(s: seq<byte>)
    requires |s| == 4
    ensures BigEndian(s) == s[0] as int * 0x100_0000 + s[1] as int * 0x1_0000 + s[2] as int * 256 + s[3]
  {
    assert s[..3][..2] == s[..2];
    BigEndianOfTwo(s[..2]);
  }

  lemma BigEndianJoins(a: seq<byte>, b: seq<byte>)
    requires |a| == |b| == 4
    ensures BigEndian(a + b) == BigEndian(a) * 0x1_0000_0000 + BigEndian(b)
  {
    BigEndianOfFour(b);
    BigEndianNext(a, b[0]);
    BigEndianNext(a + [b[0]], b[1]);
    BigEndianNext(a + [b[0]] + [b[1]], b[2]);
    BigEndianNext(a + [b[0]] + [b[1]] + [b[2]], b[3]);
    assert a + b == a + [b[0]] + [b[1]] + [b[2]] + [b[3]];
  }

  lemma BigEndianNext(s: seq<byte>, b: byte)
    ensures BigEndian(s + [b]) == BigEndian(s) * 256 + b
  {
    assert (s + [b])[..|s|] == s;
  }

  lemma PutGetU16(v: nat, before: seq<byte>, after: seq<byte>)
    requires v < U16_SIZE
    ensures GetU16(before + PutU16(v) + after, |before|) == v
  {
    assert (before + PutU16(v) + after)[|before|..|before| + 2] == PutU16(v);
  }

  lemma PutGetU32(v: nat, before: seq<byte>, after: seq<byte>)
    requires v < U32_SIZE
    ensures GetU32(before + PutU32(v) + after, |before|) == v
  {
    FourBytes(v);
    hide PutU32;
    var s := before + PutU32(v) + after;
    forall k | 0 <= k < 4 ensures s[|before| + k] == PutU32(v)[k] {
    }
  }

  lemma FourBytes(v: nat)
    requires v < U32_SIZE
    ensures GetU32(PutU32(v), 0) == v
  {
    var hi, lo := v / 0x1_0000, v % 0x1_0000;
    assert v / 256 % 256 == lo / 256;
    assert v / 0x100_0000 == hi / 256 && v / 0x1_0000 % 256 == hi % 256;
    assert v % 256 == lo % 256;
  }

  lemma GetPutU32(s: seq<byte>, offset: nat)
    requires offset + 4 <= |s|
    ensures PutU32(GetU32(s, offset)) == s[offset..offset + 4]
  {
    var a, b, c, d := s[offset] as int, s[offset + 1] as int, s[offset + 2] as int, s[offset + 3] as int;
    var v := GetU32(s, offset);
    assert v == ((a * 256 + b) * 256 + c) * 256 + d;
    assert v / 256 == (a * 256 + b) * 256 + c;
    assert v / 256 / 256 == a * 256 + b && v / 0x1_0000 == v / 256 / 256;
    assert v / 0x100_0000 == v / 256 / 256 / 256;
  }

  lemma GetPutU16(s: seq<byte>, offset: nat)
    requires offset + 2 <= |s|
    ensures PutU16(GetU16(s, offset)) == s[offset..offset + 2]
  {
  }

  lemma GetPutU64(s: seq<byte>, offset: nat)
    requires offset + 8 <= |s|
    ensures PutU64(GetU64(s, offset)) == s[offset..offset + 8]
  {
    hide GetU32, PutU32;
    GetPutU32(s, offset);
    GetPutU32(s, offset + 4);
    assert GetU64(s, offset) / U32_SIZE == GetU32(s, offset) && GetU64(s, offset) % U32_SIZE == GetU32(s, offset + 4);
  }

  lemma PutGetU64(v: nat, before: seq<byte>, after: seq<byte>)
    requires v < U64_SIZE
    ensures GetU64(before + PutU64(v) + after, |before|) == v
  {
    var hi, lo := PutU32(v / U32_SIZE), PutU32(v % U32_SIZE);
    var s := before + PutU64(v) + after;
    assert s == before + hi + (lo + after);
    PutGetU32(v / U32_SIZE, before, lo + after);
    assert s == (before + hi) + lo + after;
    PutGetU32(v % U32_SIZE, before + hi, after);
  }

  /** All the strings of a list, one after the other. */
  function Concat<T>(parts: seq<seq<T>>): seq<T> {
    if parts == [] then [] else parts[0] + Concat(parts[1..])
  }

  lemma {:induction false} ConcatAppend<T>(a: seq<seq<T>>, b: seq<seq<T>>)
    ensures Concat(a + b) == Concat(a) + Concat(b)
  {
    if a == [] {
      assert a + b == b;
    } else {
      assert (a + b)[1..] == a[1..] + b;
      ConcatAppend(a[1..], b);
    }
  }
}
