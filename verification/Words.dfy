/** Bytes and 32-bit words as littlefs stores them: little-endian for plain numbers, big-endian for tags. */
module Words {

  type byte = bv8

  const ERASED: byte := 0xff

  function ToBe32(w: bv32): (s: seq<byte>)
    ensures |s| == 4
  {
    [(w >> 24) as byte, ((w >> 16) & 0xff) as byte, ((w >> 8) & 0xff) as byte, (w & 0xff) as byte]
  }

  function FromBe32(s: seq<byte>): (w: bv32)
    requires |s| == 4
    ensures ToBe32(w) == s
  {
    ((s[0] as bv32) << 24) | ((s[1] as bv32) << 16) | ((s[2] as bv32) << 8) | (s[3] as bv32)
  }

  function ToLe32(w: bv32): (s: seq<byte>)
    ensures |s| == 4
  {
    [(w & 0xff) as byte, ((w >> 8) & 0xff) as byte, ((w >> 16) & 0xff) as byte, (w >> 24) as byte]
  }

  function FromLe32(s: seq<byte>): (w: bv32)
    requires |s| == 4
    ensures ToLe32(w) == s
  {
    ((s[3] as bv32) << 24) | ((s[2] as bv32) << 16) | ((s[1] as bv32) << 8) | (s[0] as bv32)
  }

  lemma Be32RoundTrip(w: bv32)
    ensures FromBe32(ToBe32(w)) == w
  {}

  lemma Le32RoundTrip(w: bv32)
    ensures FromLe32(ToLe32(w)) == w
  {}

  /** A run of erased bytes. */
  function Blank(n: nat): (s: seq<byte>)
    ensures |s| == n
    ensures forall i | 0 <= i < n :: s[i] == ERASED
  {
    seq(n, i => ERASED)
  }

  function Zeros(n: nat): (s: seq<byte>)
    ensures |s| == n
    ensures forall i | 0 <= i < n :: s[i] == 0
  {
    seq(n, i => 0)
  }

  lemma SubSlice<T>(s: seq<T>, a: nat, b: nat, i: nat, j: nat)
    requires a <= b <= |s| && i <= j <= b - a
    ensures s[a..b][i..j] == s[a + i..a + j]
  {
    var u, v := s[a..b][i..j], s[a + i..a + j];
    forall k | 0 <= k < j - i ensures u[k] == v[k] {
      assert u[k] == s[a..b][i + k] == s[a + (i + k)];
    }
  }

  /** A slice made of three pieces holds each piece where it should. */
  lemma SliceParts<T>(s: seq<T>, a: nat, x: seq<T>, y: seq<T>, z: seq<T>)
    requires a + |x| + |y| + |z| <= |s|
    requires s[a..a + |x| + |y| + |z|] == x + y + z
    ensures s[a..a + |x|] == x
    ensures s[a + |x|..a + |x| + |y|] == y
    ensures s[a + |x| + |y|..a + |x| + |y| + |z|] == z
  {
    var m, t := a + |x| + |y| + |z|, x + y + z;
    SubSlice(s, a, m, 0, |x|);
    SubSlice(s, a, m, |x|, |x| + |y|);
    SubSlice(s, a, m, |x| + |y|, |x| + |y| + |z|);
    assert t[0..|x|] == x && t[|x|..|x| + |y|] == y && t[|x| + |y|..|x| + |y| + |z|] == z;
  }

  function Xor(a: bv32, b: bv32): bv32 { a ^ b }

  // ---------- Programming ----------

  /** The block with `s` programmed at `off`. */
  function Program(blk: seq<byte>, off: nat, s: seq<byte>): (r: seq<byte>)
    requires off + |s| <= |blk|
    ensures |r| == |blk|
  {
    blk[..off] + s + blk[off + |s|..]
  }

  lemma ProgramNothing(blk: seq<byte>, off: nat)
    requires off <= |blk|
    ensures Program(blk, off, []) == blk
  {}

  lemma ProgramTwice(blk: seq<byte>, off: nat, s: seq<byte>, t: seq<byte>)
    requires off + |s| + |t| <= |blk|
    ensures Program(Program(blk, off, s), off + |s|, t) == Program(blk, off, s + t)
  {}

  lemma ProgramReads(blk: seq<byte>, off: nat, s: seq<byte>)
    requires off + |s| <= |blk|
    ensures Program(blk, off, s)[off..off + |s|] == s
    ensures Program(blk, off, s)[..off] == blk[..off]
    ensures Program(blk, off, s)[off + |s|..] == blk[off + |s|..]
  {}
}
