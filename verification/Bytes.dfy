/** Big-endian integers in byte buffers. */
module Bytes {
  import opened Common

  function U16Bytes(v: u16): (b: seq<byte>)
    ensures |b| == 2
  {
    [v / 0x100, v % 0x100]
  }

  /** Most significant byte first: the high half, then the low half. */
  function U32Bytes(v: u32): (b: seq<byte>)
    ensures |b| == 4
  {
    U16Bytes(v / 0x1_0000) + U16Bytes(v % 0x1_0000)
  }

  function ReadU16(b: seq<byte>, at: nat): (r: u16)
    requires at + 2 <= |b|
  {
    b[at] as int * 0x100 + b[at + 1] as int
  }

  function ReadU32(b: seq<byte>, at: nat): (r: u32)
    requires at + 4 <= |b|
  {
    ReadU16(b, at) as int * 0x1_0000 + ReadU16(b, at + 2) as int
  }

  /** The most significant byte comes first. */
  lemma BigEndian(a: byte, b: byte, c: byte, d: byte)
    ensures U16Bytes(c as int * 0x100 + d as int) == [c, d]
    ensures U32Bytes(a as int * 0x100_0000 + b as int * 0x1_0000 + c as int * 0x100 + d as int) == [a, b, c, d]
  {
    var hi, lo := a as int * 0x100 + b as int, c as int * 0x100 + d as int;
    var v := hi * 0x1_0000 + lo;
    assert v / 0x1_0000 == hi && v % 0x1_0000 == lo;
    assert hi / 0x100 == a && hi % 0x100 == b && lo / 0x100 == c && lo % 0x100 == d;
  }

  lemma ReadWritten16(b: seq<byte>, at: nat, v: u16)
    requires at + 2 <= |b| && b[at..at + 2] == U16Bytes(v)
    ensures ReadU16(b, at) == v
  {
    assert b[at] == b[at..at + 2][0] && b[at + 1] == b[at..at + 2][1];
  }

  lemma ReadWritten32(b: seq<byte>, at: nat, v: u32)
    requires at + 4 <= |b| && b[at..at + 4] == U32Bytes(v)
    ensures ReadU32(b, at) == v
  {
    assert b[at..at + 2] == b[at..at + 4][..2] && b[at + 2..at + 4] == b[at..at + 4][2..];
    ReadWritten16(b, at, v / 0x1_0000);
    ReadWritten16(b, at + 2, v % 0x1_0000);
  }

  lemma WriteRead16(b: seq<byte>, at: nat)
    requires at + 2 <= |b|
    ensures U16Bytes(ReadU16(b, at)) == b[at..at + 2]
  {
  }

  lemma WriteRead32(b: seq<byte>, at: nat)
    requires at + 4 <= |b|
    ensures U32Bytes(ReadU32(b, at)) == b[at..at + 4]
  {
    var hi, lo := ReadU16(b, at), ReadU16(b, at + 2);
    assert ReadU32(b, at) / 0x1_0000 == hi && ReadU32(b, at) % 0x1_0000 == lo;
    WriteRead16(b, at);
    WriteRead16(b, at + 2);
    assert b[at..at + 4] == b[at..at + 2] + b[at + 2..at + 4];
  }

  // ---- host order ----

  /** An integer as it lies in the memory of a little- or big-endian host. */
  function HostU16Bytes(little: bool, v: u16): (b: seq<byte>)
    ensures |b| == 2
  {
    if little then [v % 0x100, v / 0x100] else U16Bytes(v)
  }

  function HostU32Bytes(little: bool, v: u32): (b: seq<byte>)
    ensures |b| == 4
  {
    if little then HostU16Bytes(true, v % 0x1_0000) + HostU16Bytes(true, v / 0x1_0000) else U32Bytes(v)
  }

  function ReadHost16(little: bool, b: seq<byte>, at: nat): (r: u16)
    requires at + 2 <= |b|
  {
    if little then b[at + 1] as int * 0x100 + b[at] as int else ReadU16(b, at)
  }

  function ReadHost32(little: bool, b: seq<byte>, at: nat): (r: u32)
    requires at + 4 <= |b|
  {
    if little then ReadHost16(true, b, at + 2) as int * 0x1_0000 + ReadHost16(true, b, at) as int else ReadU32(b, at)
  }

  /** A big-endian host writes the most significant byte first, a little-endian one the other way round. */
  lemma HostOrder(little: bool, v: u32)
    ensures var be := U32Bytes(v);
            HostU32Bytes(little, v) == if little then [be[3], be[2], be[1], be[0]] else be
    ensures v < 0x1_0000 ==>
              HostU16Bytes(little, v) == if little then [v % 0x100, v / 0x100] else [v / 0x100, v % 0x100]
  {
  }

  lemma ReadWrittenHost16(little: bool, b: seq<byte>, at: nat, v: u16)
    requires at + 2 <= |b| && b[at..at + 2] == HostU16Bytes(little, v)
    ensures ReadHost16(little, b, at) == v
  {
    assert b[at] == b[at..at + 2][0] && b[at + 1] == b[at..at + 2][1];
  }

  lemma ReadWrittenHost32(little: bool, b: seq<byte>, at: nat, v: u32)
    requires at + 4 <= |b| && b[at..at + 4] == HostU32Bytes(little, v)
    ensures ReadHost32(little, b, at) == v
  {
    if little {
      assert b[at..at + 2] == b[at..at + 4][..2] && b[at + 2..at + 4] == b[at..at + 4][2..];
      ReadWrittenHost16(true, b, at, v % 0x1_0000);
      ReadWrittenHost16(true, b, at + 2, v / 0x1_0000);
    } else {
      ReadWritten32(b, at, v);
    }
  }

  lemma WriteReadHost16(little: bool, b: seq<byte>, at: nat)
    requires at + 2 <= |b|
    ensures HostU16Bytes(little, ReadHost16(little, b, at)) == b[at..at + 2]
  {
    WriteRead16(b, at);
  }

  lemma WriteReadHost32(little: bool, b: seq<byte>, at: nat)
    requires at + 4 <= |b|
    ensures HostU32Bytes(little, ReadHost32(little, b, at)) == b[at..at + 4]
  {
    if little {
      var lo, hi := ReadHost16(true, b, at), ReadHost16(true, b, at + 2);
      assert ReadHost32(true, b, at) / 0x1_0000 == hi && ReadHost32(true, b, at) % 0x1_0000 == lo;
      WriteReadHost16(true, b, at);
      WriteReadHost16(true, b, at + 2);
      assert b[at..at + 4] == b[at..at + 2] + b[at + 2..at + 4];
    } else {
      WriteRead32(b, at);
    }
  }

  /** Copies bytes to an offset; used left to right it extends the written prefix. */
  method CopyTo(out: array<byte>, at: nat, s: seq<byte>)
    requires at + |s| <= out.Length
    modifies out
    ensures out[..at + |s|] == old(out[..at]) + s
    ensures forall k :: at + |s| <= k < out.Length ==> out[k] == old(out[k])
  {
    forall k | 0 <= k < |s| { out[at + k] := s[k]; }
  }
}
