/** lfs_ctz_extend: growing a CTZ skip list copy-on-write, without touching any block already written. */
module CtzExtend {
  import opened Words
  import opened Bits
  import opened CtzIndex
  import opened CtzList

  /** The byte at a file position, found through the index arithmetic. */
  function ByteAt(disk: Disk, bsize: nat, list: seq<Block>, pos: nat): byte
    requires bsize > 8
  {
    var (n, off) := Index(bsize, pos);
    if 0 <= n < |list| && list[n] in disk && 0 <= off < |disk[list[n]]| then disk[list[n]][off] else 0
  }

  /** The first `size` bytes of the file made of these blocks. */
  function Data(disk: Disk, bsize: nat, list: seq<Block>, size: nat): (r: seq<byte>)
    requires bsize > 8
    ensures |r| == size
  {
    if size == 0 then [] else Data(disk, bsize, list, size - 1) + [ByteAt(disk, bsize, list, size - 1)]
  }

  /** The blocks of the file once there is room to write position `size`. */
  ghost function Extended(bsize: nat, size: nat, list: seq<Block>, nblock: Block): seq<Block> {
    if size == 0 then [nblock]
    else if list != [] && size < Start(bsize, |list|) then list[..|list| - 1] + [nblock]
    else list + [nblock]
  }

  /** The offset of position `pos` in block `n`. */
  ghost function OffsetIn(bsize: nat, pos: nat, n: nat): int {
    pos - Start(bsize, n) + Header(n)
  }

  // ---------- Pointers ----------

  lemma PtrProgram(b: seq<byte>, i: nat, h: Block, j: nat)
    requires 4 * i + 4 <= |b|
    ensures Ptr(Program(b, 4 * i, ToLe32(h.number)), j) == if j == i then h else Ptr(b, j)
  {}

  /** Pointer i of the block 2^i back leads 2^(i+1) back. */
  lemma NextPointer(disk: Disk, bsize: nat, list: seq<Block>, i: nat)
    requires Chained(disk, bsize, list) && list != [] && i < Ctz(|list|)
    ensures Pow2(i + 1) <= |list|
    ensures list[|list| - Pow2(i)] in disk
    ensures Ptr(disk[list[|list| - Pow2(i)]], i) == list[|list| - Pow2(i + 1)]
  {
    hide Ctz, Chained, Ptr;
    var n := |list|;
    CtzBound(n);
    Pow2Monotone(i + 1, Ctz(n));
    CtzMinusLower(n, i);
    FollowPtr(disk, bsize, list, n - Pow2(i), i);
  }

  /** Nothing but block `b` differs. */
  ghost predicate OnlyAt(before: Disk, after: Disk, b: Block) {
    && after.Keys == before.Keys
    && (forall x | x in before && x != b :: after[x] == before[x])
    && (b in before ==> |after[b]| == |before[b]|)
  }

  /** The first i pointers of the new block are in place. */
  ghost predicate LinkedUpTo(blk: seq<byte>, list: seq<Block>, i: nat) {
    forall j: nat | j < i && Pow2(j) <= |list| :: Ptr(blk, j) == list[|list| - Pow2(j)]
  }

  lemma LinkOne(blk: seq<byte>, list: seq<Block>, i: nat)
    requires LinkedUpTo(blk, list, i) && 4 * i + 4 <= |blk| && Pow2(i) <= |list|
    ensures LinkedUpTo(Program(blk, 4 * i, ToLe32(list[|list| - Pow2(i)].number)), list, i + 1)
  {
    hide Pow2, Ptr, Program, ToLe32;
    var c := Program(blk, 4 * i, ToLe32(list[|list| - Pow2(i)].number));
    forall j: nat | j < i + 1 && Pow2(j) <= |list| ensures Ptr(c, j) == list[|list| - Pow2(j)] {
      PtrProgram(blk, i, list[|list| - Pow2(i)], j);
    }
  }

  lemma LinkedAll(blk: seq<byte>, list: seq<Block>, nblock: Block)
    requires list != [] && LinkedUpTo(blk, list, Ctz(|list|) + 1)
    ensures Linked(blk, list + [nblock], |list|)
  {}

  // ---------- What extending does to a file ----------

  lemma SameChain(d0: Disk, d1: Disk, bsize: nat, list: seq<Block>, b: Block)
    requires Chained(d0, bsize, list) && OnlyAt(d0, d1, b) && b !in list
    ensures Chained(d1, bsize, list)
  {}

  lemma LinkedSame(blk: seq<byte>, l1: seq<Block>, l2: seq<Block>, k: nat)
    requires 0 < k < |l1| && k < |l2| && l1[..k] == l2[..k] && Linked(blk, l1, k)
    ensures Linked(blk, l2, k)
  {}

  /** A chain may be cut, and may get a new last block that is linked to the rest. */
  lemma ChainWith(d0: Disk, d1: Disk, bsize: nat, list: seq<Block>, n: nat, b: Block)
    requires Chained(d0, bsize, list) && n <= |list| && n < MAX_BLOCKS && b !in list
    requires forall x | x in list :: x in d1 && d1[x] == d0[x]
    requires b in d1 && |d1[b]| == bsize
    requires n > 0 ==> Linked(d1[b], list[..n] + [b], n)
    ensures Chained(d1, bsize, list[..n] + [b])
  {
    hide Linked;
    var l := list[..n] + [b];
    forall k | 0 <= k < |l| ensures l[k] in d1 && |d1[l[k]]| == bsize {
      if k < n { assert l[k] == list[k]; }
    }
    forall k | 0 < k < |l| ensures Linked(d1[l[k]], l, k) {
      if k < n {
        assert l[k] == list[k] && l[..k] == list[..k];
        LinkedSame(d0[list[k]], list, l, k);
      }
    }
  }

  lemma ChainCut(disk: Disk, bsize: nat, list: seq<Block>, n: nat)
    requires Chained(disk, bsize, list) && n <= |list|
    ensures Chained(disk, bsize, list[..n])
  {}

  /** The copied pointers are those of the block that was last. */
  lemma CopyLinked(old0: seq<byte>, blank: seq<byte>, list: seq<Block>, nblock: Block, k: nat)
    requires list != [] && k <= |old0| && k <= |blank|
    requires |list| > 1 ==> Linked(old0, list, |list| - 1) && Header(|list| - 1) <= k
    ensures |list| > 1 ==> Linked(Program(blank, 0, old0[..k]), list[..|list| - 1] + [nblock], |list| - 1)
  {
    hide Ctz, Pow2, FromLe32;
    if |list| > 1 {
      var n := |list| - 1;
      var c, l := Program(blank, 0, old0[..k]), list[..n] + [nblock];
      forall j: nat | j <= Ctz(n) && Pow2(j) <= n ensures Ptr(c, j) == l[n - Pow2(j)] {
        assert c[4 * j..4 * j + 4] == old0[4 * j..4 * j + 4];
        assert Ptr(old0, j) == list[n - Pow2(j)];
      }
    }
  }

  /** The write position of a file whose last block is not full lies inside that block, behind its pointers. */
  lemma LastOffset(disk: Disk, bsize: nat, head: Block, size: nat, list: seq<Block>)
    requires IsFile(disk, bsize, head, size, list) && size > 0
    ensures Index(bsize, size - 1) == (|list| - 1, OffsetIn(bsize, size, |list| - 1) - 1)
    ensures Header(|list| - 1) < OffsetIn(bsize, size, |list| - 1) <= bsize
    ensures OffsetIn(bsize, size, |list| - 1) == bsize <==> size == Start(bsize, |list|)
    ensures |list| < MAX_BLOCKS
  {
    hide Chained, Index, Header;
    HeadNumber(disk, bsize, head, size, list);
    IndexIs(bsize, size - 1, |list| - 1);
  }

  lemma HeadNumber(disk: Disk, bsize: nat, head: Block, size: nat, list: seq<Block>)
    requires IsFile(disk, bsize, head, size, list) && size > 0
    ensures |list| < MAX_BLOCKS
  {
    hide Header, Start, Index, Linked;
    FileIndex(disk, bsize, head, size, 0, list);
    IndexBound(bsize, size - 1);
  }

  // ---------- Bytes ----------

  lemma {:induction false} SameData(d0: Disk, l0: seq<Block>, d1: Disk, l1: seq<Block>, bsize: nat, size: nat)
    requires bsize > 8 && forall p: nat | p < size :: ByteAt(d0, bsize, l0, p) == ByteAt(d1, bsize, l1, p)
    ensures Data(d0, bsize, l0, size) == Data(d1, bsize, l1, size)
  {
    hide ByteAt;
    if size > 0 {
      SameData(d0, l0, d1, l1, bsize, size - 1);
    }
  }

  lemma {:induction false} DataAt(disk: Disk, bsize: nat, list: seq<Block>, size: nat, p: nat)
    requires bsize > 8 && p < size
    ensures Data(disk, bsize, list, size)[p] == ByteAt(disk, bsize, list, p)
  {
    hide ByteAt;
    if p < size - 1 {
      DataAt(disk, bsize, list, size - 1, p);
    }
  }

  lemma {:induction false} DataPrefix(disk: Disk, bsize: nat, list: seq<Block>, size: nat, n: nat)
    requires bsize > 8 && n <= size
    ensures Data(disk, bsize, list, size)[..n] == Data(disk, bsize, list, n)
  {
    hide ByteAt;
    if n < size {
      DataPrefix(disk, bsize, list, size - 1, n);
      assert Data(disk, bsize, list, size)[..n] == Data(disk, bsize, list, size - 1)[..n];
    }
  }

  /** A position of a file is read from the block that holds it. */
  lemma ByteIs(disk: Disk, bsize: nat, head: Block, size: nat, list: seq<Block>, p: nat)
    requires IsFile(disk, bsize, head, size, list) && p < size
    ensures var (n, off) := Index(bsize, p);
            && 0 <= n < |list| && list[n] in disk && |disk[list[n]]| == bsize
            && off == OffsetIn(bsize, p, n) && Header(n) <= off < bsize
            && (n == |list| - 1 ==> off < OffsetIn(bsize, size, n))
            && ByteAt(disk, bsize, list, p) == disk[list[n]][off]
  {
    hide Header, Start, Index, Linked;
    FileIndex(disk, bsize, head, size, p, list);
    NextStart(bsize, Index(bsize, p).0);
  }

  lemma NextStart(bsize: nat, n: nat)
    ensures Start(bsize, n + 1) == Start(bsize, n) + bsize - Header(n)
  {}

  /** Any chain that agrees with a file block by block, and in its last block up to the file's end, holds the same bytes. */
  lemma SameFile(d0: Disk, d1: Disk, bsize: nat, head: Block, size: nat, list: seq<Block>, l1: seq<Block>)
    requires IsFile(d0, bsize, head, size, list)
    requires |list| <= |l1| && forall k | 0 <= k < |list| :: l1[k] in d1 && |d1[l1[k]]| == bsize
    requires forall k | 0 <= k < |list| - 1 :: d1[l1[k]] == d0[list[k]]
    requires size > 0 ==> var k := OffsetIn(bsize, size, |list| - 1);
                          0 <= k <= bsize && d1[l1[|list| - 1]][..k] == d0[head][..k]
    ensures Data(d1, bsize, l1, size) == Data(d0, bsize, list, size)
  {
    hide Header, Start, Index, Linked, OffsetIn;
    forall p: nat | p < size ensures ByteAt(d0, bsize, list, p) == ByteAt(d1, bsize, l1, p) {
      ByteIs(d0, bsize, head, size, list, p);
      var (n, off) := Index(bsize, p);
      if n == |list| - 1 {
        var k := OffsetIn(bsize, size, n);
        assert d1[l1[n]][..k][off] == d0[head][..k][off];
      }
    }
    SameData(d0, list, d1, l1, bsize, size);
  }

  // ---------- The device ----------

  lemma NoLinks(blk: seq<byte>, list: seq<Block>)
    ensures LinkedUpTo(blk, list, 0)
    ensures list != [] ==> Pow2(0) == 1
  {}

  datatype Extension = NoSpace | At(block: Block, off: nat)

  /** The blocks the allocator is going to hand out: no two the same, none in use. */
  predicate Fresh(supply: seq<Block>, used: seq<Block>) {
    && (forall i | 0 <= i < |supply| :: supply[i] !in used)
    && (forall i, j | 0 <= i < j < |supply| :: supply[i] != supply[j])
  }

  /** Every block but these is as it was. */
  ghost predicate KeptBut(before: Disk, after: Disk, blocks: seq<Block>) {
    forall b | b in before && b !in blocks :: b in after && after[b] == before[b]
  }

  lemma KeepsChain(d0: Disk, d1: Disk, bsize: nat, list: seq<Block>, b: Block)
    requires Chained(d0, bsize, list) && b !in list && KeptBut(d0, d1, [b])
    ensures Chained(d1, bsize, list)
    ensures forall x | x in list :: x in d1 && d1[x] == d0[x]
  {}

  /** What an extension leaves: a chain of the new blocks that holds every earlier byte at its position. */
  ghost predicate Grown(d0: Disk, d1: Disk, bsize: nat, size: nat, list: seq<Block>, nblock: Block, off: nat)
    requires bsize > 8
  {
    var l := Extended(bsize, size, list, nblock);
    && KeptBut(d0, d1, [nblock])
    && Chained(d1, bsize, l)
    && off == OffsetIn(bsize, size, |l| - 1) < bsize
    && Start(bsize, |l| - 1) <= size < Start(bsize, |l|)
    && Data(d1, bsize, l, size) == Data(d0, bsize, list, size)
  }

  lemma GrownEmpty(d0: Disk, d1: Disk, bsize: nat, list: seq<Block>, nblock: Block)
    requires bsize >= 112 && KeptBut(d0, d1, [nblock]) && nblock in d1 && |d1[nblock]| == bsize
    ensures Grown(d0, d1, bsize, 0, list, nblock, 0)
  {}

  lemma GrownCopy(d0: Disk, d1: Disk, bsize: nat, head: Block, size: nat, list: seq<Block>, nblock: Block, blank: seq<byte>)
    requires IsFile(d0, bsize, head, size, list) && size > 0 && size != Start(bsize, |list|) && nblock !in list
    requires KeptBut(d0, d1, [nblock]) && nblock in d1 && |blank| == bsize
    requires var k := OffsetIn(bsize, size, |list| - 1);
             0 <= k <= bsize && d1[nblock] == Program(blank, 0, d0[head][..k])
    ensures Grown(d0, d1, bsize, size, list, nblock, OffsetIn(bsize, size, |list| - 1))
  {
    hide Header, Start, Index, Linked, OffsetIn, Program, Data;
    LastOffset(d0, bsize, head, size, list);
    var n, k := |list| - 1, OffsetIn(bsize, size, |list| - 1);
    var l := list[..n] + [nblock];
    KeepsChain(d0, d1, bsize, list, nblock);
    CopyLinked(d0[head], blank, list, nblock, k);
    ChainWith(d0, d1, bsize, list, n, nblock);
    ProgramReads(blank, 0, d0[head][..k]);
    assert d1[nblock][..k] == d1[nblock][0..k];
    SameFile(d0, d1, bsize, head, size, list, l);
  }

  lemma GrownAppend(d0: Disk, d1: Disk, bsize: nat, head: Block, size: nat, list: seq<Block>, nblock: Block)
    requires IsFile(d0, bsize, head, size, list) && size > 0 && size == Start(bsize, |list|) && nblock !in list
    requires KeptBut(d0, d1, [nblock]) && nblock in d1 && |d1[nblock]| == bsize
    requires Linked(d1[nblock], list + [nblock], |list|)
    ensures Grown(d0, d1, bsize, size, list, nblock, Header(|list|))
  {
    hide Header, Start, Index, Linked, Data;
    LastOffset(d0, bsize, head, size, list);
    KeepsChain(d0, d1, bsize, list, nblock);
    assert list[..|list|] == list;
    ChainWith(d0, d1, bsize, list, |list|, nblock);
    NextStart(bsize, |list|);
    HeaderSmall(|list|);
    SameFile(d0, d1, bsize, head, size, list, list + [nblock]);
  }

  lemma FileTail(d0: Disk, d1: Disk, bsize: nat, head: Block, size: nat, list: seq<Block>, nblock: Block)
    requires IsFile(d0, bsize, head, size, list) && size > 0 && nblock !in list && KeptBut(d0, d1, [nblock])
    ensures Chained(d1, bsize, list) && list != [] && head == list[|list| - 1] && head != nblock
    ensures head in d0 && head in d1 && d1[head] == d0[head] && |d1[head]| == bsize && Header(|list|) <= bsize
  {
    hide Linked, Header;
    KeepsChain(d0, d1, bsize, list, nblock);
    HeadNumber(d0, bsize, head, size, list);
    HeaderSmall(|list|);
  }

  lemma FileRange(disk: Disk, bsize: nat, head: Block, size: nat, list: seq<Block>)
    requires IsFile(disk, bsize, head, size, list)
    ensures bsize >= 112
  {}

  class Device {
    var disk: Disk
    /** What lfs_alloc is going to answer, call by call; no block left means LFS_ERR_NOSPC. */
    var supply: seq<Block>
    const bsize: nat

    constructor (bsize: nat, disk: Disk, supply: seq<Block>)
      ensures this.bsize == bsize && this.disk == disk && this.supply == supply
    {
      this.bsize, this.disk, this.supply := bsize, disk, supply;
    }

    method Erase(block: Block)
      modifies this`disk
      ensures disk == old(disk)[block := Blank(bsize)]
    {
      disk := disk[block := Blank(bsize)];
    }

    method Prog(block: Block, off: nat, data: seq<byte>)
      requires block in disk && off + |data| <= |disk[block]|
      modifies this`disk
      ensures OnlyAt(old(disk), disk, block) && disk[block] == Program(old(disk)[block], off, data)
    {
      disk := disk[block := Program(disk[block], off, data)];
    }

    /** The last block is incomplete: its first `n` bytes, pointers and data, go to the new block. */
    method CopyBlock(head: Block, nblock: Block, n: nat)
      requires head in disk && nblock in disk && head != nblock && n <= |disk[head]| && n <= |disk[nblock]|
      modifies this`disk
      ensures OnlyAt(old(disk), disk, nblock)
      ensures disk[nblock] == Program(old(disk)[nblock], 0, old(disk)[head][..n])
    {
      hide Program;
      ghost var before, src := disk[nblock], disk[head];
      ProgramNothing(before, 0);
      assert src[..0] == [];
      for i := 0 to n
        invariant OnlyAt(old(disk), disk, nblock)
        invariant disk[nblock] == Program(before, 0, src[..i])
      {
        ProgramTwice(before, 0, src[..i], [src[i]]);
        assert src[..i] + [src[i]] == src[..i + 1];
        Prog(nblock, i, [disk[head][i]]);
      }
    }

    /** The last block is full: the new block starts with its ctz(index)+1 pointers. */
    method LinkBlock(head0: Block, nblock: Block, index: nat, ghost list: seq<Block>)
      requires Chained(disk, bsize, list) && index == |list| > 0 && head0 == list[|list| - 1] && nblock !in list
      requires nblock in disk && Header(|list|) <= |disk[nblock]|
      modifies this`disk
      ensures OnlyAt(old(disk), disk, nblock)
      ensures Linked(disk[nblock], list + [nblock], |list|)
    {
      hide Ctz, Pow2, Ptr, Linked, Chained, LinkedUpTo, ToLe32, Program;
      var skips, head := Ctz(index) + 1, head0;
      NoLinks(disk[nblock], list);
      for i := 0 to skips
        invariant OnlyAt(old(disk), disk, nblock)
        invariant LinkedUpTo(disk[nblock], list, i)
        invariant i < skips ==> Pow2(i) <= index && head == list[index - Pow2(i)]
      {
        LinkOne(disk[nblock], list, i);
        Prog(nblock, 4 * i, ToLe32(head.number));
        if i != skips - 1 {
          SameChain(old(disk), disk, bsize, list, nblock);
          NextPointer(disk, bsize, list, i);
          head := Ptr(disk[head], i);
        }
      }
      LinkedAll(disk[nblock], list, nblock);
    }

    /** lfs_ctz_extend. */
    method Extend(head: Block, size: nat, ghost list: seq<Block>) returns (r: Extension)
      requires IsFile(disk, bsize, head, size, list) && Fresh(supply, list)
      modifies this
      ensures r.NoSpace? ==> disk == old(disk) && supply == [] == old(supply)
      ensures r.At? ==> && old(supply) == [r.block] + supply
                        && Grown(old(disk), disk, bsize, size, list, r.block, r.off)
    {
      hide Ctz, Start, Index, Linked, OffsetIn, Program, Data, Grown, Chained, IsFile;
      if supply == [] {
        return NoSpace;
      }
      FileRange(disk, bsize, head, size, list);
      var nblock := supply[0];
      supply := supply[1..];
      Erase(nblock);
      if size == 0 {
        GrownEmpty(old(disk), disk, bsize, list, nblock);
        return At(nblock, 0);
      }
      LastOffset(old(disk), bsize, head, size, list);
      FileTail(old(disk), disk, bsize, head, size, list, nblock);
      var (index, last) := Index(bsize, size - 1);
      if last + 1 != bsize {
        CopyBlock(head, nblock, last + 1);
        GrownCopy(old(disk), disk, bsize, head, size, list, nblock, Blank(bsize));
        return At(nblock, last + 1);
      }
      LinkBlock(head, nblock, index + 1, list);
      GrownAppend(old(disk), disk, bsize, head, size, list, nblock);
      r := At(nblock, 4 * (Ctz(index + 1) + 1));
    }
  }
}
