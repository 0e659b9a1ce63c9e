/** The CTZ skip list on disk: lookup, traversal and copy-on-write extension against a plain list of blocks. */
module CtzList {
  import opened Words
  import opened Arith
  import opened Bits
  import opened CtzIndex

  /** A block number, 32 bits wide. */
  datatype Block = Block(number: bv32)

  type Disk = map<Block, seq<byte>>

  const BLOCK_NULL := Block(0xffff_ffff)

  const MAX_BLOCKS := 39768217

  /** Pointer `j` of a block. */
  function Ptr(blk: seq<byte>, j: nat): Block {
    if 4 * j + 4 <= |blk| then Block(FromLe32(blk[4 * j..4 * j + 4])) else BLOCK_NULL
  }

  /** Every pointer of block `k`, the j-th, leads to block k - 2^j. */
  ghost predicate Linked(blk: seq<byte>, list: seq<Block>, k: nat)
    requires 0 < k < |list|
  {
    forall j: nat | j <= Ctz(k) && Pow2(j) <= k :: Ptr(blk, j) == list[k - Pow2(j)]
  }

  /** `list` names the blocks of a file from the first to the head. */
  ghost predicate Chained(disk: Disk, bsize: nat, list: seq<Block>) {
    && |list| <= MAX_BLOCKS
    && (forall k | 0 <= k < |list| :: list[k] in disk && |disk[list[k]]| == bsize)
    && (forall k | 0 < k < |list| :: Linked(disk[list[k]], list, k))
  }

  /** A file of `size` bytes with this head and these blocks. */
  ghost predicate IsFile(disk: Disk, bsize: nat, head: Block, size: nat, list: seq<Block>) {
    && bsize >= 112 && size <= FILE_MAX && Chained(disk, bsize, list)
    && if size == 0 then list == []
       else list != [] && head == list[|list| - 1] && Start(bsize, |list| - 1) <= size - 1 < Start(bsize, |list|)
  }

  // ---------- Sizes ----------

  lemma HeaderSmall(n: nat)
    requires n <= MAX_BLOCKS
    ensures Header(n) <= 104
  {
    hide Ctz, Pow2;
    if n > 0 {
      CtzBound(n);
      Pow2Of25();
      if Ctz(n) > 25 {
        Pow2Monotone(26, Ctz(n));
      }
    }
  }

  lemma StartOrder(bsize: nat, m: nat, n: nat)
    requires bsize >= 112 && m <= n <= MAX_BLOCKS
    ensures Start(bsize, m) + (n - m) <= Start(bsize, n)
  {
    hide Header, Start;
    forall k: nat | k < n ensures Header(k) < bsize {
      HeaderSmall(k);
    }
    StartGrows(bsize, m, n);
  }

  /** The block the code computes for a position of the file is the one that holds it. */
  lemma IndexIs(bsize: nat, pos: nat, n: nat)
    requires bsize >= 112 && pos <= FILE_MAX && n < MAX_BLOCKS
    requires Start(bsize, n) <= pos < Start(bsize, n + 1)
    ensures Index(bsize, pos) == (n, pos - Start(bsize, n) + Header(n))
  {
    hide Header, Start, Popc, Ctz, Pow2;
    IndexHolds(bsize, pos);
    IndexBound(bsize, pos);
    var m := Index(bsize, pos).0;
    if m < n {
      StartOrder(bsize, m + 1, n);
    } else if n < m {
      StartOrder(bsize, n + 1, m);
    }
  }

  lemma IndexBound(bsize: nat, pos: nat)
    requires bsize >= 112 && pos <= FILE_MAX
    ensures Index(bsize, pos).0 <= 39768215
  {}

  // ---------- Lookup ----------

  /** An upper bound on the hops from block `c` back to block `t`. */
  function Budget(c: nat, t: nat): nat
    requires t <= c
  {
    if c == t then 0
    else
      var l := BitLength(c - t) - 1;
      l + 1 + if Ctz(c) < l then l - Ctz(c) else 0
  }

  /** The longest pointer that exists and does not overshoot. */
  function Skip(c: nat, t: nat): nat
    requires t < c
  {
    Min(Npw2(c - t + 1) - 1, Ctz(c))
  }

  /** Each hop stays at or above the target and uses up at least one unit of the budget. */
  lemma HopBudget(c: nat, t: nat)
    requires t < c
    ensures Skip(c, t) <= Ctz(c) && Pow2(Skip(c, t)) <= c - t
    ensures Budget(c - Pow2(Skip(c, t)), t) < Budget(c, t)
  {
    hide BitLength, Ctz, Pow2;
    var d, k := c - t, Ctz(c);
    BitLengthBounds(d);
    var l := BitLength(d) - 1;
    Pow2Step(l);
    if k < l {
      Pow2Monotone(k, l - 1);
      Pow2Step(l - 1);
      CtzMinusLowest(c);
      BitLengthLess(d - Pow2(k), l + 1);
    } else {
      if d > Pow2(l) {
        if l < k {
          CtzMinusLower(c, l);
        } else {
          CtzMinusLowest(c);
        }
        BitLengthLess(d - Pow2(l), l);
      }
    }
  }

  lemma Pow2Step(k: nat)
    ensures Pow2(k + 1) == 2 * Pow2(k)
  {}

  lemma BitLengthLess(d: nat, k: nat)
    requires 0 < d < Pow2(k)
    ensures 1 <= BitLength(d) <= k
  {}

  /** What the index arithmetic says about a file: the head's number, and the block of a position. */
  lemma FileIndex(disk: Disk, bsize: nat, head: Block, size: nat, pos: nat, list: seq<Block>)
    requires IsFile(disk, bsize, head, size, list) && pos < size
    ensures Index(bsize, size - 1).0 == |list| - 1
    ensures var (n, off) := Index(bsize, pos);
            0 <= n < |list| && CtzIndex.Holds(bsize, pos, n, off)
  {
    hide Header, Start, Popc, Index, Linked;
    IndexIs(bsize, size - 1, |list| - 1);
    IndexHolds(bsize, pos);
    IndexBound(bsize, pos);
    var n := Index(bsize, pos).0;
    if n >= |list| {
      StartOrder(bsize, |list|, n);
    }
  }

  lemma FollowPtr(disk: Disk, bsize: nat, list: seq<Block>, c: nat, j: nat)
    requires Chained(disk, bsize, list) && 0 < c < |list| && j <= Ctz(c) && Pow2(j) <= c
    ensures list[c] in disk && Ptr(disk[list[c]], j) == list[c - Pow2(j)]
  {}

  /** lfs_ctz_find: the block and offset of a position, in logarithmically many hops over existing pointers. */
  method CtzFind(disk: Disk, bsize: nat, head: Block, size: nat, pos: nat, ghost list: seq<Block>)
    returns (block: Block, off: int, ghost n: nat, ghost hops: nat)
    requires IsFile(disk, bsize, head, size, list)
    requires size > 0 ==> pos < size
    ensures size == 0 ==> block == BLOCK_NULL && off == 0
    ensures size > 0 ==> n < |list| && block == list[n] && CtzIndex.Holds(bsize, pos, n, off)
                         && hops <= Budget(|list| - 1, n)
  {
    n, hops := 0, 0;
    if size == 0 {
      return BLOCK_NULL, 0, 0, 0;
    }
    hide Ctz, Pow2, Index, Budget, Skip, Ptr, CtzIndex.Holds, Linked;
    FileIndex(disk, bsize, head, size, pos, list);
    var current: nat := Index(bsize, size - 1).0;
    var target: nat := Index(bsize, pos).0;
    block, off, n := head, Index(bsize, pos).1, target;
    while current > target
      invariant target <= current < |list| && block == list[current]
      invariant hops + Budget(current, target) <= Budget(|list| - 1, target)
    {
      var skip := Skip(current, target);
      HopBudget(current, target);
      FollowPtr(disk, bsize, list, current, skip);
      block := Ptr(disk[block], skip);
      current := current - Pow2(skip);
      hops := hops + 1;
    }
  }

  /** At most 2*floor(log2(distance)) + 1 hops. */
  lemma BudgetLogarithmic(c: nat, t: nat)
    requires t < c
    ensures Budget(c, t) <= 2 * (BitLength(c - t) - 1) + 1
    ensures Pow2(BitLength(c - t) - 1) <= c - t < Pow2(BitLength(c - t))
  {
    hide BitLength, Ctz, Pow2;
    BitLengthBounds(c - t);
  }

  // ---------- Traversal ----------

  function Reversed(list: seq<Block>): seq<Block> {
    if list == [] then [] else [list[|list| - 1]] + Reversed(list[..|list| - 1])
  }

  lemma FileHead(disk: Disk, bsize: nat, head: Block, size: nat, list: seq<Block>)
    requires IsFile(disk, bsize, head, size, list) && size > 0
    ensures Chained(disk, bsize, list) && list != [] && head == list[|list| - 1] && bsize >= 112
  {}

  lemma SeenStep(seen: seq<Block>, list: seq<Block>, i: nat)
    requires i < |list|
    ensures (seen + [list[i]]) + Reversed(list[..i]) == seen + Reversed(list[..i + 1])
  {
    assert list[..i + 1][..i] == list[..i];
  }

  lemma ReversedEnds(list: seq<Block>)
    ensures Reversed(list[..0]) == [] && Reversed(list[..|list|]) == Reversed(list)
  {
    assert list[..|list|] == list;
  }

  lemma BackPointers(disk: Disk, bsize: nat, list: seq<Block>, i: nat)
    requires Chained(disk, bsize, list) && 0 < i < |list|
    ensures list[i] in disk && Ptr(disk[list[i]], 0) == list[i - 1]
    ensures i % 2 == 0 ==> i >= 2 && Ptr(disk[list[i]], 1) == list[i - 2]
  {}

  /** lfs_ctz_traverse: every block is reported exactly once, from the head back to the first. */
  method CtzTraverse(disk: Disk, bsize: nat, head: Block, size: nat, ghost list: seq<Block>) returns (seen: seq<Block>)
    requires IsFile(disk, bsize, head, size, list)
    ensures seen == Reversed(list)
  {
    hide *;
    if size == 0 {
      EmptyFile(disk, bsize, head, list);
      return [];
    }
    FileHead(disk, bsize, head, size, list);
    FileIndex(disk, bsize, head, size, 0, list);
    ReversedEnds(list);
    var index: nat := Index(bsize, size - 1).0;
    var block := head;
    seen := [];
    while index > 0
      invariant index < |list| && block == list[index]
      invariant seen + Reversed(list[..index + 1]) == Reversed(list)
    {
      BackPointers(disk, bsize, list, index);
      SeenStep(seen, list, index);
      seen := seen + [block];
      if index % 2 == 0 {
        SeenStep(seen, list, index - 1);
        seen := seen + [Ptr(disk[block], 0)];
        block := Ptr(disk[block], 1);
        index := index - 2;
      } else {
        block := Ptr(disk[block], 0);
        index := index - 1;
      }
    }
    SeenStep(seen, list, 0);
    seen := seen + [block];
  }

  lemma EmptyFile(disk: Disk, bsize: nat, head: Block, list: seq<Block>)
    requires IsFile(disk, bsize, head, 0, list)
    ensures Reversed(list) == []
  {}
}
