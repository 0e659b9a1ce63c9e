/** lfs_crc: the nibble-table CRC-32 against its bit-serial definition. */
module Crc {
  import opened Words

  const POLY: bv32 := 0xedb88320

  /** The constant table of lfs_crc. */
  const RTABLE: seq<bv32> := [
    0x00000000, 0x1db71064, 0x3b6e20c8, 0x26d930ac,
    0x76dc4190, 0x6b6b51f4, 0x4db26158, 0x5005713c,
    0xedb88320, 0xf00f9344, 0xd6d6a3e8, 0xcb61b38c,
    0x9b64c2b0, 0x86d3d2d4, 0xa00ae278, 0xbdbdf21c
  ]

  function Rtable(n: bv32): bv32
    requires n < 16
  {
    RTABLE[n as nat]
  }

  /** One step of the reflected shift register. */
  function BitStep(c: bv32): bv32 {
    if c & 1 == 1 then (c >> 1) ^ POLY else c >> 1
  }

  function FourSteps(c: bv32): bv32 { BitStep(BitStep(BitStep(BitStep(c)))) }

  /** The bit-serial CRC: feed each byte into the low bits, then shift eight times. */
  function BitCrc(c: bv32, s: seq<byte>): bv32
    decreases s
  {
    if s == [] then c else BitCrc(FourSteps(FourSteps(c ^ (s[0] as bv32))), s[1..])
  }

  /** One table step of lfs_crc. */
  function Nibble(c: bv32): bv32 { (c >> 4) ^ Rtable(c & 0xf) }

  function ByteStep(c: bv32, d: byte): bv32 { Nibble(Nibble(Xor(c, d as bv32))) }

  /** The same checksum a table step at a time. */
  function Crc32(c: bv32, s: seq<byte>): bv32
    decreases s
  {
    if s == [] then c else Crc32(ByteStep(c, s[0]), s[1..])
  }

  /** The loop of lfs_crc, two table steps per byte. */
  method LfsCrc(crc: bv32, buffer: seq<byte>) returns (r: bv32)
    ensures r == BitCrc(crc, buffer)
  {
    hide ByteStep, BitCrc;
    r := crc;
    for i := 0 to |buffer|
      invariant Crc32(r, buffer[i..]) == Crc32(crc, buffer)
    {
      ghost var c := r;
      r := TableStep(r, buffer[i]);
      CrcCons(c, buffer[i], buffer[i + 1..]);
      assert buffer[i..] == [buffer[i]] + buffer[i + 1..];
    }
    TableMatchesBits(crc, buffer);
  }

  /** The loop body of lfs_crc. */
  method TableStep(crc: bv32, data: byte) returns (r: bv32)
    ensures r == ByteStep(crc, data)
  {
    hide Nibble, Xor, Rtable;
    var d := data as bv32;
    var h := (crc >> 4) ^ Rtable((crc ^ (d >> 0)) & 0xf);
    r := (h >> 4) ^ Rtable((h ^ (d >> 4)) & 0xf);
    LowNibble(crc, d);
    HighNibble(h, d);
  }

  lemma LowNibble(c: bv32, d: bv32)
    requires d < 256
    ensures Xor((c >> 4) ^ Rtable((c ^ (d >> 0)) & 0xf), d >> 4) == Nibble(Xor(c, d))
  {
    hide Nibble, Rtable;
    LowNibbleBits(c, d);
  }

  lemma LowNibbleBits(c: bv32, d: bv32)
    requires d < 256
    ensures ((c >> 4) ^ Rtable((c ^ (d >> 0)) & 0xf)) ^ (d >> 4) == Nibble(c ^ d)
  {}

  lemma HighNibble(h: bv32, d: bv32)
    requires d < 256
    ensures (h >> 4) ^ Rtable((h ^ (d >> 4)) & 0xf) == Nibble(Xor(h, d >> 4))
  {
    hide Nibble, Rtable;
    HighNibbleBits(h, d);
  }

  lemma HighNibbleBits(h: bv32, d: bv32)
    requires d < 256
    ensures (h >> 4) ^ Rtable((h ^ (d >> 4)) & 0xf) == Nibble(h ^ (d >> 4))
  {}

  lemma NibbleIsFourSteps(c: bv32)
    ensures FourSteps(c) == Nibble(c)
  {
    var k := c & 0xf;
    if k == 0 {} else if k == 1 {} else if k == 2 {} else if k == 3 {} else if k == 4 {} else if k == 5 {}
    else if k == 6 {} else if k == 7 {} else if k == 8 {} else if k == 9 {} else if k == 10 {}
    else if k == 11 {} else if k == 12 {} else if k == 13 {} else if k == 14 {} else {}
  }

  /** The table form computes the bit-serial CRC. */
  lemma {:induction false} TableMatchesBits(c: bv32, s: seq<byte>)
    ensures Crc32(c, s) == BitCrc(c, s)
    decreases s
  {
    if s != [] {
      var x := c ^ (s[0] as bv32);
      NibbleIsFourSteps(x);
      NibbleIsFourSteps(Nibble(x));
      TableMatchesBits(ByteStep(c, s[0]), s[1..]);
    }
  }

  lemma {:induction false} CrcAppend(c: bv32, s: seq<byte>, t: seq<byte>)
    ensures Crc32(c, s + t) == Crc32(Crc32(c, s), t)
    decreases s
  {
    if s == [] {
      assert s + t == t;
    } else {
      CrcAppend(ByteStep(c, s[0]), s[1..], t);
      assert (s + t)[1..] == s[1..] + t;
    }
  }

  lemma CrcCons(c: bv32, d: byte, s: seq<byte>)
    ensures Crc32(c, [d] + s) == Crc32(ByteStep(c, d), s)
  {}

  lemma CrcWord(c: bv32, t: seq<byte>)
    requires |t| == 4
    ensures Crc32(c, t) == ByteStep(ByteStep(ByteStep(ByteStep(c, t[0]), t[1]), t[2]), t[3])
  {
    hide ByteStep;
    CrcCons(c, t[0], [t[1], t[2], t[3]]);
    CrcCons(ByteStep(c, t[0]), t[1], [t[2], t[3]]);
    CrcCons(ByteStep(ByteStep(c, t[0]), t[1]), t[2], [t[3]]);
    assert t == [t[0]] + [t[1], t[2], t[3]];
    assert [t[1], t[2], t[3]] == [t[1]] + [t[2], t[3]];
    assert [t[2], t[3]] == [t[2]] + [t[3]];
  }

  // ---------- Appending the checksum drives the register to zero ----------

  function LowByte(c: bv32): byte { (c & 0xff) as byte }

  function Shr8(c: bv32): bv32 { c >> 8 }

  lemma OwnByte(c: bv32)
    ensures ByteStep(c, LowByte(c)) == Shr8(c)
  {}

  lemma LeBytes(c: bv32)
    ensures ToLe32(c) == [LowByte(c), LowByte(Shr8(c)), LowByte(Shr8(Shr8(c))), LowByte(Shr8(Shr8(Shr8(c))))]
    ensures Shr8(Shr8(Shr8(Shr8(c)))) == 0
  {}

  lemma OwnWord(c: bv32)
    ensures Crc32(c, ToLe32(c)) == 0
  {
    hide *;
    CrcWord(c, ToLe32(c));
    LeBytes(c);
    OwnByte(c);
    OwnByte(Shr8(c));
    OwnByte(Shr8(Shr8(c)));
    OwnByte(Shr8(Shr8(Shr8(c))));
  }

  /** The check of lfs_dir_commitcrc: bytes followed by their own little-endian CRC give 0. */
  lemma CrcResidue(c: bv32, s: seq<byte>)
    ensures Crc32(c, s + ToLe32(Crc32(c, s))) == 0
  {
    CrcAppend(c, s, ToLe32(Crc32(c, s)));
    OwnWord(Crc32(c, s));
  }

  // ---------- Bursts of up to four bytes are always detected ----------

  function Shl4(y: bv32): bv32 { y << 4 }

  function Shl8(y: bv32): bv32 { y << 8 }

  predicate Below28(y: bv32) { y < 0x1000_0000 }

  predicate Below24(y: bv32) { y < 0x100_0000 }

  lemma NibbleShiftedBits(x: bv32, y: bv32)
    requires y < 0x1000_0000
    ensures Nibble(x ^ (y << 4)) == Nibble(x) ^ y
  {}

  /** Bits above the low nibble pass through a table step unchanged. */
  lemma NibbleShifted(x: bv32, y: bv32)
    requires Below28(y)
    ensures Nibble(Xor(x, Shl4(y))) == Xor(Nibble(x), y)
  {
    hide Nibble;
    NibbleShiftedBits(x, y);
  }

  lemma NibbleInjective(x: bv32, y: bv32)
    requires Nibble(x) == Nibble(y)
    ensures x == y
  {}

  lemma Shifts(y: bv32)
    ensures Below24(y) ==> Below28(y) && Below28(Shl4(y))
    ensures Shl4(Shl4(y)) == Shl8(y)
  {}

  /** Run one byte step backwards: the difference of the registers before it. */
  lemma ByteStepBack(a: bv32, b: bv32, s: byte, t: byte, y: bv32)
    requires Below24(y)
    requires ByteStep(a, s) == Xor(ByteStep(b, t), y)
    ensures Xor(a, s as bv32) == Xor(Xor(b, t as bv32), Shl8(y))
  {
    hide Nibble, Xor, Shl4, Shl8, Below24, Below28;
    var p, q := Xor(a, s as bv32), Xor(b, t as bv32);
    Shifts(y);
    NibbleShifted(q, Shl4(y));
    NibbleShifted(Nibble(q), y);
    NibbleInjective(Nibble(p), Nibble(Xor(q, Shl8(y))));
    NibbleInjective(p, Xor(q, Shl8(y)));
  }

  lemma XorFacts(a: bv32, b: bv32, d: bv32)
    ensures Xor(a, 0) == a && Shl8(0) == 0 && Below24(0)
    ensures Xor(a, d) == Xor(b, d) ==> a == b
  {}

  /** A change in the register survives any common suffix. */
  lemma {:induction false} SuffixKeepsDifference(a: bv32, b: bv32, s: seq<byte>)
    requires Crc32(a, s) == Crc32(b, s)
    ensures a == b
    decreases s
  {
    hide ByteStep, Xor, Shl8, Below24;
    if s != [] {
      SuffixKeepsDifference(ByteStep(a, s[0]), ByteStep(b, s[0]), s[1..]);
      XorFacts(ByteStep(b, s[0]), b, 0);
      XorFacts(Xor(b, s[0] as bv32), b, 0);
      ByteStepBack(a, b, s[0], s[0], 0);
      XorFacts(a, b, s[0] as bv32);
    }
  }

  lemma XorCancel(a: bv32, s: bv32)
    ensures Xor(Xor(a, s), s) == a
  {}

  lemma XorGroup(a: bv32, b: bv32, c: bv32)
    ensures Xor(Xor(a, b), c) == Xor(a, Xor(b, c))
    ensures Xor(a, b) == Xor(b, a)
  {}

  lemma Regroup(b: bv32, t: bv32, w: bv32, s: bv32)
    ensures Xor(Xor(Xor(b, t), w), s) == Xor(b, Xor(Xor(s, t), w))
  {
    hide Xor;
    XorGroup(b, t, w);
    XorGroup(b, Xor(t, w), s);
    XorGroup(s, Xor(t, w), 0);
    XorGroup(s, t, w);
  }

  lemma FollowsXor(s: byte, t: byte, y: bv32)
    requires Below24(y)
    ensures Follows(Xor(Xor(s as bv32, t as bv32), Shl8(y)), y, s, t)
  {}

  /** The difference before a byte step: the two bytes' own difference below the old one. */
  lemma DifferenceBefore(a: bv32, b: bv32, s: byte, t: byte, y: bv32) returns (z: bv32)
    requires Below24(y)
    requires ByteStep(a, s) == Xor(ByteStep(b, t), y)
    ensures a == Xor(b, z)
    ensures Follows(z, y, s, t)
  {
    hide *;
    ByteStepBack(a, b, s, t, y);
    z := Xor(Xor(s as bv32, t as bv32), Shl8(y));
    XorCancel(a, s as bv32);
    Regroup(b, t as bv32, Shl8(y), s as bv32);
    FollowsXor(s, t, y);
  }

  ghost predicate Follows(z: bv32, y: bv32, s: byte, t: byte) {
    z & 0xff == (s as bv32) ^ (t as bv32) && z >> 8 == y
  }

  lemma FollowsSmall(z3: bv32, z2: bv32, z1: bv32, s: seq<byte>, t: seq<byte>)
    requires |s| == |t| == 4
    requires Follows(z3, 0, s[3], t[3])
    ensures Below24(z3)
    ensures Follows(z2, z3, s[2], t[2]) ==> Below24(z2)
    ensures Follows(z2, z3, s[2], t[2]) && Follows(z1, z2, s[1], t[1]) ==> Below24(z1)
  {}

  lemma FollowsZero(z: bv32, y: bv32, s: byte, t: byte)
    requires Follows(z, y, s, t) && z == 0
    ensures s == t && y == 0
  {}

  lemma WordInjective(c: bv32, s: seq<byte>, t: seq<byte>)
    requires |s| == |t| == 4
    requires Crc32(c, s) == Crc32(c, t)
    ensures s == t
  {
    hide *;
    CrcWord(c, s);
    CrcWord(c, t);
    var a1, b1 := ByteStep(c, s[0]), ByteStep(c, t[0]);
    var a2, b2 := ByteStep(a1, s[1]), ByteStep(b1, t[1]);
    var a3, b3 := ByteStep(a2, s[2]), ByteStep(b2, t[2]);
    XorFacts(ByteStep(b3, t[3]), 0, 0);
    var z3 := DifferenceBefore(a3, b3, s[3], t[3], 0);
    FollowsSmall(z3, 0, 0, s, t);
    var z2 := DifferenceBefore(a2, b2, s[2], t[2], z3);
    FollowsSmall(z3, z2, 0, s, t);
    var z1 := DifferenceBefore(a1, b1, s[1], t[1], z2);
    FollowsSmall(z3, z2, z1, s, t);
    var z0 := DifferenceBefore(c, c, s[0], t[0], z1);
    XorSelf(c, z0);
    FollowsZero(z0, z1, s[0], t[0]);
    FollowsZero(z1, z2, s[1], t[1]);
    FollowsZero(z2, z3, s[2], t[2]);
    FollowsZero(z3, 0, s[3], t[3]);
  }

  lemma XorSelf(c: bv32, z: bv32)
    requires c == Xor(c, z)
    ensures z == 0
  {}

  /** Strings that differ only inside one window of at most four bytes never collide. */
  lemma BurstDetected(c: bv32, p: seq<byte>, s: seq<byte>, t: seq<byte>, q: seq<byte>)
    requires |s| == |t| <= 4
    requires Crc32(c, p + s + q) == Crc32(c, p + t + q)
    ensures s == t
  {
    hide Crc32;
    var d := Crc32(c, p);
    CrcAppend(c, p + s, q);
    CrcAppend(c, p + t, q);
    CrcAppend(c, p, s);
    CrcAppend(c, p, t);
    SuffixKeepsDifference(Crc32(d, s), Crc32(d, t), q);
    var z := Blank(4 - |s|);
    CrcAppend(d, s, z);
    CrcAppend(d, t, z);
    WordInjective(d, s + z, t + z);
    assert s == (s + z)[..|s|] && t == (t + z)[..|s|];
  }
}
