/** lfs_file_read, write, seek and flush on a CTZ file: copy-on-write against a plain byte sequence. */
module File {
  import opened Options
  import opened Words
  import opened Arith
  import opened Bits
  import opened CtzIndex
  import opened CtzList
  import opened CtzExtend

  // ---------- What the operations mean ----------

  /** `s` laid over `c` from position `at` on. */
  function Splice(c: seq<byte>, at: nat, s: seq<byte>): seq<byte>
    requires at <= |c|
  {
    c[..at] + s + (if at + |s| <= |c| then c[at + |s|..] else [])
  }

  /** The zeros between the end of the file and a position behind it. */
  function Gap(c: seq<byte>, pos: nat): seq<byte> {
    if pos > |c| then Zeros(pos - |c|) else []
  }

  /** The bytes that go to the file: the gap is filled first. */
  function Stream(c: seq<byte>, pos: nat, data: seq<byte>): seq<byte> {
    Gap(c, pos) + data
  }

  function Overwrite(c: seq<byte>, pos: nat, data: seq<byte>): seq<byte> {
    Splice(c, Min(pos, |c|), Stream(c, pos, data))
  }

  /** Only the written range is replaced, the gap reads as zeros, and the size is the larger of the two ends. */
  lemma OverwriteAt(c: seq<byte>, pos: nat, data: seq<byte>, i: nat)
    ensures |Overwrite(c, pos, data)| == Max(|c|, pos + |data|)
    ensures i < Max(|c|, pos + |data|) ==>
              Overwrite(c, pos, data)[i] == if pos <= i < pos + |data| then data[i - pos] else if i < |c| then c[i] else 0
  {}

  /** New bytes up to the write position, old bytes behind it. */
  function View(front: seq<byte>, old0: seq<byte>): seq<byte> {
    front + if |front| <= |old0| then old0[|front|..] else []
  }

  lemma ViewSplice(front: seq<byte>, old0: seq<byte>, s: seq<byte>)
    ensures View(front + s, old0) == Splice(View(front, old0), |front|, s)
  {}

  // ---------- Writing into the last block ----------

  /** `block` is the last of `list`, and `off` is where position `pos` goes in it. */
  ghost predicate Open(disk: Disk, bsize: nat, block: Block, off: nat, pos: nat, list: seq<Block>) {
    && bsize >= 112 && pos <= FILE_MAX && Chained(disk, bsize, list)
    && list != [] && block == list[|list| - 1] && block !in list[..|list| - 1]
    && Start(bsize, |list| - 1) <= pos <= Start(bsize, |list|)
    && off == OffsetIn(bsize, pos, |list| - 1)
  }

  lemma OpenIsFile(disk: Disk, bsize: nat, block: Block, off: nat, pos: nat, list: seq<Block>)
    requires Open(disk, bsize, block, off, pos, list)
    ensures pos > Start(bsize, |list| - 1) <==> pos > 0 && IsFile(disk, bsize, block, pos, list)
    ensures Header(|list| - 1) <= off <= bsize && block in disk && |disk[block]| == bsize
    ensures off == bsize <==> pos == Start(bsize, |list|)
  {
    hide Header, Linked, Start;
    NextStart(bsize, |list| - 1);
    StartOrder(bsize, 0, |list| - 1);
    FirstStart(bsize);
  }

  /** Behind the pointers a block may be programmed freely. */
  lemma LinkedBehind(blk: seq<byte>, off: nat, s: seq<byte>, list: seq<Block>, k: nat)
    requires 0 < k < |list| && Linked(blk, list, k) && Header(k) <= off && off + |s| <= |blk|
    ensures Linked(Program(blk, off, s), list, k)
  {}

  lemma ChainProgrammed(d0: Disk, d1: Disk, bsize: nat, list: seq<Block>, off: nat, s: seq<byte>)
    requires Chained(d0, bsize, list) && list != [] && Header(|list| - 1) <= off && off + |s| <= bsize
    requires var b := list[|list| - 1];
             b !in list[..|list| - 1] && OnlyAt(d0, d1, b) && d1[b] == Program(d0[b], off, s)
    ensures Chained(d1, bsize, list)
  {
    hide Linked, Header;
    var n := |list| - 1;
    forall k | 0 <= k < n ensures list[k] in d1 && d1[list[k]] == d0[list[k]] {
      assert list[..n][k] == list[k];
    }
    if n > 0 {
      LinkedBehind(d0[list[n]], off, s, list, n);
    }
  }

  lemma {:induction false} DataGrows(disk: Disk, bsize: nat, list: seq<Block>, pos: nat, s: seq<byte>)
    requires bsize > 8 && forall i: nat | i < |s| :: ByteAt(disk, bsize, list, pos + i) == s[i]
    ensures Data(disk, bsize, list, pos + |s|) == Data(disk, bsize, list, pos) + s
  {
    hide ByteAt;
    if |s| > 0 {
      var t := s[..|s| - 1];
      DataGrows(disk, bsize, list, pos, t);
      assert s == t + [s[|s| - 1]];
    }
  }

  lemma OpenProgrammed(d0: Disk, d1: Disk, bsize: nat, block: Block, off: nat, pos: nat, list: seq<Block>, s: seq<byte>)
    requires Open(d0, bsize, block, off, pos, list) && off + |s| <= bsize && pos + |s| <= FILE_MAX && |s| > 0
    requires OnlyAt(d0, d1, block) && block in d1 && d1[block] == Program(d0[block], off, s)
    ensures Open(d1, bsize, block, off + |s|, pos + |s|, list) && pos + |s| > Start(bsize, |list| - 1)
    ensures Data(d1, bsize, list, pos + |s|) == Data(d0, bsize, list, pos) + s
  {
    hide Header, Linked, Start, Chained, Data, ByteAt, Program, IsFile;
    OpenIsFile(d0, bsize, block, off, pos, list);
    ChainProgrammed(d0, d1, bsize, list, off, s);
    NextStart(bsize, |list| - 1);
    assert Open(d1, bsize, block, off + |s|, pos + |s|, list);
    ProgrammedBytes(d0, d1, bsize, block, off, pos, list, s);
    DataGrows(d1, bsize, list, pos, s);
    ProgrammedSame(d0, d1, bsize, block, off, pos, list, s);
  }

  lemma ProgrammedBytes(d0: Disk, d1: Disk, bsize: nat, block: Block, off: nat, pos: nat, list: seq<Block>, s: seq<byte>)
    requires Open(d0, bsize, block, off, pos, list) && off + |s| <= bsize && pos + |s| <= FILE_MAX
    requires Open(d1, bsize, block, off + |s|, pos + |s|, list)
    requires OnlyAt(d0, d1, block) && block in d1 && d1[block] == Program(d0[block], off, s)
    ensures forall i: nat | i < |s| :: ByteAt(d1, bsize, list, pos + i) == s[i]
  {
    hide Header, Linked, Start, Index, Chained, IsFile;
    OpenIsFile(d1, bsize, block, off + |s|, pos + |s|, list);
    forall i: nat | i < |s| ensures ByteAt(d1, bsize, list, pos + i) == s[i] {
      LastHolds(d1, bsize, block, off + |s|, pos + |s|, list, pos + i);
    }
  }

  /** A position in the last block is read from it. */
  lemma LastHolds(disk: Disk, bsize: nat, block: Block, off: nat, pos: nat, list: seq<Block>, p: nat)
    requires Open(disk, bsize, block, off, pos, list) && Start(bsize, |list| - 1) <= p < pos
    ensures Index(bsize, p) == (|list| - 1, OffsetIn(bsize, p, |list| - 1))
  {
    hide Header, Linked, Start, Index;
    OpenIsFile(disk, bsize, block, off, pos, list);
    HeadNumber(disk, bsize, block, pos, list);
    IndexIs(bsize, p, |list| - 1);
  }

  lemma ProgrammedSame(d0: Disk, d1: Disk, bsize: nat, block: Block, off: nat, pos: nat, list: seq<Block>, s: seq<byte>)
    requires Open(d0, bsize, block, off, pos, list) && off + |s| <= bsize && pos + |s| <= FILE_MAX && |s| > 0
    requires Open(d1, bsize, block, off + |s|, pos + |s|, list)
    requires OnlyAt(d0, d1, block) && block in d1 && d1[block] == Program(d0[block], off, s)
    ensures Data(d1, bsize, list, pos) == Data(d0, bsize, list, pos)
  {
    hide Header, Linked, Start, Index, Chained, IsFile, Program;
    OpenIsFile(d0, bsize, block, off, pos, list);
    OpenIsFile(d1, bsize, block, off + |s|, pos + |s|, list);
    forall p: nat | p < pos ensures ByteAt(d0, bsize, list, p) == ByteAt(d1, bsize, list, p) {
      ByteIs(d1, bsize, block, pos + |s|, list, p);
      var (n, o) := Index(bsize, p);
      if n == |list| - 1 {
        assert o < off;
        ProgramReads(d0[block], off, s);
        assert d1[block][..off][o] == d0[block][..off][o];
      } else {
        assert list[..|list| - 1][n] == list[n];
        assert list[n] != block;
      }
    }
    SameData(d0, list, d1, list, bsize, pos);
  }

  // ---------- Starting to write inside a file ----------

  /** The blocks up to the one that holds p - 1 are themselves a file: the first p bytes. */
  lemma CutFile(disk: Disk, bsize: nat, head: Block, size: nat, list: seq<Block>, p: nat, n: nat)
    requires IsFile(disk, bsize, head, size, list) && 0 < p <= size
    requires n < |list| && Start(bsize, n) <= p - 1 < Start(bsize, n + 1)
    ensures IsFile(disk, bsize, list[n], p, list[..n + 1])
    ensures Data(disk, bsize, list[..n + 1], p) == Data(disk, bsize, list, size)[..p]
  {
    hide Header, Linked, Start, Index, Data, Chained;
    ChainCut(disk, bsize, list, n + 1);
    var l := list[..n + 1];
    CutBytes(disk, bsize, head, size, list, p, n);
    SameData(disk, l, disk, list, bsize, p);
    DataPrefix(disk, bsize, list, size, p);
  }

  lemma CutBytes(disk: Disk, bsize: nat, head: Block, size: nat, list: seq<Block>, p: nat, n: nat)
    requires IsFile(disk, bsize, head, size, list) && 0 < p <= size
    requires n < |list| && IsFile(disk, bsize, list[n], p, list[..n + 1])
    ensures forall q: nat | q < p :: ByteAt(disk, bsize, list[..n + 1], q) == ByteAt(disk, bsize, list, q)
  {
    FileRange(disk, bsize, head, size, list);
    hide Header, Linked, Start, Index, ByteAt, IsFile, OffsetIn;
    forall q: nat | q < p ensures ByteAt(disk, bsize, list[..n + 1], q) == ByteAt(disk, bsize, list, q) {
      ByteIs(disk, bsize, head, size, list, q);
      ByteIs(disk, bsize, list[n], p, list[..n + 1], q);
    }
  }

  /** A file whose blocks are untouched is untouched. */
  lemma SameBlocks(d0: Disk, d1: Disk, bsize: nat, head: Block, size: nat, list: seq<Block>, blocks: seq<Block>)
    requires IsFile(d0, bsize, head, size, list) && KeptBut(d0, d1, blocks)
    requires forall b | b in list :: b !in blocks
    ensures IsFile(d1, bsize, head, size, list)
    ensures Data(d1, bsize, list, size) == Data(d0, bsize, list, size)
  {
    hide Linked, Start, Index, Data, OffsetIn;
    assert forall k | 0 <= k < |list| :: list[k] in list;
    if size > 0 {
      LastOffset(d0, bsize, head, size, list);
    }
    SameFile(d0, d1, bsize, head, size, list, list);
  }

  // ---------- Reading ----------

  /** Where the next read goes on, as lfs_file_read remembers it. */
  datatype Cursor = Cursor(reading: bool, block: Block, off: nat)

  ghost predicate CursorOk(bsize: nat, list: seq<Block>, size: nat, pos: nat, c: Cursor)
    requires bsize > 8
  {
    c.reading ==> && c.off <= bsize
                  && (c.off < bsize && pos < size ==>
                        var (n, off) := Index(bsize, pos);
                        0 <= n < |list| && c.block == list[n] && c.off == off)
  }

  /** A run of positions inside one block is a slice of it. */
  lemma {:induction false} RunInBlock(disk: Disk, bsize: nat, head: Block, size: nat, list: seq<Block>, pos: nat, d: nat)
    requires IsFile(disk, bsize, head, size, list) && pos + d <= size && d > 0
    requires var (n, off) := Index(bsize, pos); off + d <= bsize
    ensures var (n, off) := Index(bsize, pos);
            && 0 <= n < |list| && list[n] in disk && |disk[list[n]]| == bsize && 0 <= off
            && Data(disk, bsize, list, size)[pos..pos + d] == disk[list[n]][off..off + d]
            && (off + d < bsize && pos + d < size ==> Index(bsize, pos + d) == (n, off + d))
  {
    hide Header, Linked, Start, Index, Data, ByteAt;
    var (n, off) := Index(bsize, pos);
    FileIndex(disk, bsize, head, size, pos, list);
    NextStart(bsize, n);
    ByteIs(disk, bsize, head, size, list, pos);
    var run, slice := Data(disk, bsize, list, size)[pos..pos + d], disk[list[n]][off..off + d];
    forall i: nat | i < d ensures run[i] == slice[i] {
      StaysIn(bsize, size, list, pos, n, i, disk, head);
      ByteIs(disk, bsize, head, size, list, pos + i);
      DataAt(disk, bsize, list, size, pos + i);
    }
    assert run == slice;
    if off + d < bsize && pos + d < size {
      StaysIn(bsize, size, list, pos, n, d, disk, head);
    }
  }

  lemma StaysIn(bsize: nat, size: nat, list: seq<Block>, pos: nat, n: nat, i: nat, disk: Disk, head: Block)
    requires IsFile(disk, bsize, head, size, list) && pos + i < size
    requires Index(bsize, pos).0 == n < |list| && Index(bsize, pos).1 + i < bsize
    requires Start(bsize, n) <= pos && Index(bsize, pos).1 == OffsetIn(bsize, pos, n)
    ensures Index(bsize, pos + i) == (n, Index(bsize, pos).1 + i)
  {
    hide Header, Linked, Start, Index;
    HeadNumber(disk, bsize, head, size, list);
    NextStart(bsize, n);
    IndexIs(bsize, pos + i, n);
  }

  /** The loop of lfs_file_read: any run of positions, across blocks. */
  method ReadSpan(dev: Device, head: Block, size: nat, pos: nat, n: nat, c0: Cursor, ghost list: seq<Block>)
    returns (r: seq<byte>, c: Cursor)
    requires IsFile(dev.disk, dev.bsize, head, size, list) && pos + n <= size
    requires CursorOk(dev.bsize, list, size, pos, c0)
    ensures r == Data(dev.disk, dev.bsize, list, size)[pos..pos + n]
    ensures CursorOk(dev.bsize, list, size, pos + n, c)
  {
    hide Header, Linked, Start, Index, Data, IsFile, Budget, CtzIndex.Holds;
    FileRange(dev.disk, dev.bsize, head, size, list);
    var at := pos;
    ghost var bytes := Data(dev.disk, dev.bsize, list, size);
    r, c := [], c0;
    while at < pos + n
      invariant pos <= at <= pos + n && CursorOk(dev.bsize, list, size, at, c)
      invariant r == bytes[pos..at]
    {
      if !c.reading || c.off == dev.bsize {
        var block, off, found, hops := CtzFind(dev.disk, dev.bsize, head, size, at, list);
        FindIsIndex(dev.disk, dev.bsize, head, size, at, list, found, off);
        c := Cursor(true, block, off);
      }
      var diff := Min(pos + n - at, dev.bsize - c.off);
      RunInBlock(dev.disk, dev.bsize, head, size, list, at, diff);
      r := r + dev.disk[c.block][c.off..c.off + diff];
      assert bytes[pos..at] + bytes[at..at + diff] == bytes[pos..at + diff];
      at := at + diff;
      c := c.(off := c.off + diff);
    }
  }

  lemma FindIsIndex(disk: Disk, bsize: nat, head: Block, size: nat, pos: nat, list: seq<Block>, n: nat, off: int)
    requires IsFile(disk, bsize, head, size, list) && pos < size
    requires n < |list| && CtzIndex.Holds(bsize, pos, n, off)
    ensures Index(bsize, pos) == (n, off) && 0 <= off < bsize
    ensures Start(bsize, n) <= pos < Start(bsize, n + 1)
  {
    hide Header, Linked, Start, Index;
    HeadNumber(disk, bsize, head, size, list);
    IndexIs(bsize, pos, n);
    ByteIs(disk, bsize, head, size, list, pos);
  }

  // ---------- Steps of a write, on values ----------

  lemma FreshCut(supply: seq<Block>, used: seq<Block>, l: seq<Block>)
    requires Fresh(supply, used) && forall b | b in l :: b in used
    ensures Fresh(supply, l)
  {}

  /** After an extension the new last block can be written, and the rest of the supply is still fresh. */
  lemma Opened(d0: Disk, d1: Disk, bsize: nat, head: Block, pos: nat, base: seq<Block>, block: Block, off: nat)
    requires IsFile(d0, bsize, head, pos, base) && block !in base && Grown(d0, d1, bsize, pos, base, block, off)
    ensures Open(d1, bsize, block, off, pos, Extended(bsize, pos, base, block))
    ensures off < bsize
    ensures Data(d1, bsize, Extended(bsize, pos, base, block), pos) == Data(d0, bsize, base, pos)
  {
    hide Chained, Data, OffsetIn, Start, KeptBut;
    var l := Extended(bsize, pos, base, block);
    assert l[..|l| - 1] == if pos == 0 then [] else if base != [] && pos < Start(bsize, |base|) then base[..|base| - 1] else base;
  }

  lemma ExtendedIn(bsize: nat, pos: nat, base: seq<Block>, block: Block)
    ensures forall b | b in Extended(bsize, pos, base, block) :: b in base || b == block
    ensures block in Extended(bsize, pos, base, block)
  {}

  lemma FreshRest(supply: seq<Block>, rest: seq<Block>, block: Block, list: seq<Block>, next: seq<Block>, l: seq<Block>)
    requires Fresh(supply, list + next) && supply == [block] + rest
    requires forall b | b in l :: b in list + next || b == block
    ensures Fresh(rest, list + l)
    ensures block !in list + next
    ensures block !in rest
  {
    assert forall i | 0 <= i < |rest| :: rest[i] == supply[i + 1];
    assert supply[0] == block;
    forall i | 0 <= i < |rest| ensures rest[i] !in list + l {
      assert supply[i + 1] !in list + next && supply[0] != supply[i + 1];
    }
  }

  datatype Whence = Set | Cur | End

  datatype Outcome = Ok | NoSpc | FBig

  class Handle {
    const dev: Device
    const append: bool
    const fileMax: nat
    var head: Block
    var size: nat
    var pos: nat
    var block: Block
    var off: nat
    var reading: bool
    var writing: bool
    /** The blocks of the file as it is on disk, and of the file being written. */
    ghost var list: seq<Block>
    ghost var next: seq<Block>

    ghost predicate Valid()
      reads this, dev
    {
      && IsFile(dev.disk, dev.bsize, head, size, list)
      && size <= fileMax <= FILE_MAX && pos <= fileMax
      && Fresh(dev.supply, list + next)
      && !(reading && writing)
      && CursorOk(dev.bsize, list, size, pos, Cursor(reading, block, off))
      && (writing ==> && Open(dev.disk, dev.bsize, block, off, pos, next)
                      && pos > Start(dev.bsize, |next| - 1)
                      && block !in list
                      && (append ==> pos >= size))
      && (!writing ==> next == [])
    }

    /** An opened file at position 0. */
    constructor (dev: Device, append: bool, fileMax: nat, head: Block, size: nat, ghost list: seq<Block>)
      requires IsFile(dev.disk, dev.bsize, head, size, list) && size <= fileMax <= FILE_MAX && Fresh(dev.supply, list)
      ensures Valid() && this.dev == dev && pos == 0 && Contents() == Data(dev.disk, dev.bsize, list, size)
    {
      this.dev, this.append, this.fileMax := dev, append, fileMax;
      this.head, this.size, this.pos, this.list, this.next := head, size, 0, list, [];
      block, off, reading, writing := BLOCK_NULL, 0, false, false;
    }

    /** What is on disk now. */
    ghost function Stored(): seq<byte>
      requires dev.bsize > 8
      reads this, dev
    {
      Data(dev.disk, dev.bsize, list, size)
    }

    /** What stands before the write position. */
    ghost function Front(): seq<byte>
      requires dev.bsize > 8
      reads this, dev
    {
      if writing then Data(dev.disk, dev.bsize, next, pos) else Stored()[..Min(pos, size)]
    }

    /** The file as its user sees it. */
    ghost function Contents(): seq<byte>
      requires dev.bsize > 8
      reads this, dev
    {
      if writing then View(Front(), Stored()) else Stored()
    }

    /** No block is left to take, and there is no room in the one being written. */
    predicate Full()
      reads this, dev
    {
      dev.supply == [] && (writing ==> off == dev.bsize)
    }

    /** The file made of what stands before the write position. */
    method FindBase() returns (ghost base: seq<Block>)
      requires Valid() && !reading && (writing ==> off == dev.bsize) && (writing || pos <= size)
      modifies this`block, this`off
      ensures Valid() && Front() == old(Front()) && (writing ==> block == old(block) && off == old(off))
      ensures IsFile(dev.disk, dev.bsize, block, pos, base) && Data(dev.disk, dev.bsize, base, pos) == Front()
      ensures forall b | b in base :: b in list + next
    {
      hide Header, Linked, Start, Index, Data, IsFile, Budget, Open, CtzIndex.Holds, Fresh;
      FileRange(dev.disk, dev.bsize, head, size, list);
      base := next;
      if writing {
        OpenIsFile(dev.disk, dev.bsize, block, off, pos, next);
      } else if pos > 0 {
        var b, o, n, hops := CtzFind(dev.disk, dev.bsize, head, size, pos - 1, list);
        FindIsIndex(dev.disk, dev.bsize, head, size, pos - 1, list, n, o);
        block, off := b, o;
        CutFile(dev.disk, dev.bsize, head, size, list, pos, n);
        base := list[..n + 1];
      } else {
        NoBytes(dev.disk, dev.bsize, block);
      }
    }

    /** A block with room at the write position: a fresh one, linked to or copied from what stands before. */
    method NextBlock() returns (ok: bool)
      requires Valid() && !reading && (writing ==> off == dev.bsize) && (writing || pos <= size)
      modifies this`block, this`off, this`writing, this`next, dev
      ensures IsFile(dev.disk, dev.bsize, head, size, list) && dev.bsize > 8 && Stored() == old(Stored())
      ensures KeptBut(old(dev.disk), dev.disk, old(dev.supply))
      ensures Front() == old(Front())
      ensures ok ==> && writing && Open(dev.disk, dev.bsize, block, off, pos, next) && off < dev.bsize && block !in list
                     && old(dev.supply) == [block] + dev.supply && Fresh(dev.supply, list + next)
      ensures !ok ==> Valid() && Full() && old(dev.supply) == [] && writing == old(writing) && (writing ==> block == old(block))
    {
      hide Header, Linked, Start, Index, Data, IsFile, Open, Grown, Extended, Fresh, KeptBut, CursorOk;
      FileRange(dev.disk, dev.bsize, head, size, list);
      ghost var base := FindBase();
      FreshCut(dev.supply, list + next, base);
      var r := dev.Extend(block, pos, base);
      if r.NoSpace? {
        KeptAll(dev.disk);
        return false;
      }
      ghost var l := Extended(dev.bsize, pos, base, r.block);
      ExtendedIn(dev.bsize, pos, base, r.block);
      FreshRest(old(dev.supply), dev.supply, r.block, list, next, l);
      Opened(old(dev.disk), dev.disk, dev.bsize, block, pos, base, r.block, r.off);
      GrownKeeps(old(dev.disk), dev.disk, dev.bsize, pos, base, r.block, r.off, old(dev.supply));
      SameBlocks(old(dev.disk), dev.disk, dev.bsize, head, size, list, [r.block]);
      block, off, writing := r.block, r.off, true;
      next := l;
      ok := true;
    }

    /** The blocks a write may change: fresh ones, and the one it is filling. */
    ghost function Changeable(): seq<Block>
      reads this, dev
    {
      dev.supply + if writing then [block] else []
    }

    /** As many bytes as the current block takes. */
    method ProgramChunk(data: seq<byte>) returns (k: nat)
      requires IsFile(dev.disk, dev.bsize, head, size, list) && Fresh(dev.supply, list + next) && !reading && writing
      requires Open(dev.disk, dev.bsize, block, off, pos, next) && block !in list && off < dev.bsize && |data| > 0
      requires size <= fileMax <= FILE_MAX && pos + |data| <= fileMax && (append ==> pos >= size)
      modifies this`off, this`pos, dev`disk
      ensures Valid() && Stored() == old(Stored())
      ensures 0 < k <= |data| && pos == old(pos) + k && Front() == old(Front()) + data[..k]
      ensures KeptBut(old(dev.disk), dev.disk, [block])
    {
      hide Header, Linked, Start, Index, Data, IsFile, Fresh, CursorOk, Open, Chained, Program;
      OpenIsFile(dev.disk, dev.bsize, block, off, pos, next);
      FileRange(dev.disk, dev.bsize, head, size, list);
      k := Min(|data|, dev.bsize - off);
      dev.Prog(block, off, data[..k]);
      OpenProgrammed(old(dev.disk), dev.disk, dev.bsize, block, off, pos, next, data[..k]);
      SameBlocks(old(dev.disk), dev.disk, dev.bsize, head, size, list, [block]);
      pos, off := pos + k, off + k;
      NotReading(dev.bsize, list, size, pos, block, off);
    }

    /** One round of the loop of lfs_file_write. */
    method WriteChunk(data: seq<byte>) returns (k: nat)
      requires Valid() && !reading && (writing || pos <= size) && pos + |data| <= fileMax && |data| > 0
      requires append ==> pos >= size
      modifies this`block, this`off, this`writing, this`next, this`pos, dev
      ensures Valid() && Stored() == old(Stored()) && (old(writing) ==> writing) && (k > 0 ==> writing)
      ensures k <= |data| && pos == old(pos) + k && Front() == old(Front()) + data[..k]
      ensures k == 0 ==> Full()
      ensures KeptBut(old(dev.disk), dev.disk, old(Changeable()))
      ensures forall b | b in Changeable() :: b in old(Changeable())
    {
      hide Header, Linked, Start, Index, Data, IsFile, Fresh, CursorOk, Open, Chained, KeptBut;
      if writing {
        OpenIsFile(dev.disk, dev.bsize, block, off, pos, next);
      }
      FileRange(dev.disk, dev.bsize, head, size, list);
      if !writing || off == dev.bsize {
        var ok := NextBlock();
        if !ok {
          KeptMore(old(dev.disk), dev.disk, old(dev.supply), old(Changeable()));
          assert data[..0] == [];
          return 0;
        }
      } else {
        KeptNone(dev.disk, dev.supply);
      }
      ghost var mid := dev.disk;
      k := ProgramChunk(data);
      KeptTrans(old(dev.disk), mid, dev.disk, old(dev.supply), [block], old(Changeable()));
    }

    /** The loop of lfs_file_write: the bytes go behind what stands before the write position, block by block. */
    method WriteBytes(data: seq<byte>) returns (k: nat)
      requires Valid() && !reading && (writing || pos <= size) && pos + |data| <= fileMax
      requires append ==> pos >= size
      modifies this`block, this`off, this`writing, this`next, this`pos, dev
      ensures Valid() && Stored() == old(Stored()) && (old(writing) ==> writing) && (k > 0 ==> writing)
      ensures k <= |data| && pos == old(pos) + k && Front() == old(Front()) + data[..k]
      ensures k < |data| ==> Full()
      ensures KeptBut(old(dev.disk), dev.disk, old(Changeable()))
      ensures forall b | b in Changeable() :: b in old(Changeable())
    {
      hide Header, Linked, Start, Index, Data, IsFile, Fresh, CursorOk, Open, Chained, KeptBut;
      FileRange(dev.disk, dev.bsize, head, size, list);
      k := 0;
      assert data[..0] == [];
      KeptNone(dev.disk, Changeable());
      while k < |data|
        invariant Valid() && !reading && dev.bsize > 8
        invariant Stored() == old(Stored()) && (old(writing) ==> writing) && (k > 0 ==> writing)
        invariant k <= |data| && pos == old(pos) + k && (append ==> pos >= size)
        invariant Front() == old(Front()) + data[..k]
        invariant KeptBut(old(dev.disk), dev.disk, old(Changeable()))
        invariant forall b | b in Changeable() :: b in old(Changeable())
      {
        ghost var mid, may := dev.disk, Changeable();
        var d := WriteChunk(data[k..]);
        KeptTrans(old(dev.disk), mid, dev.disk, old(Changeable()), may, old(Changeable()));
        assert data[..k] + data[k..][..d] == data[..k + d];
        k := k + d;
        if d == 0 {
          return;
        }
      }
    }

    /** The bytes of the old file behind the write position are copied, one by one. */
    method CopyTail() returns (ok: bool)
      requires Valid() && writing
      modifies this`block, this`off, this`writing, this`next, this`pos, dev
      ensures Valid() && writing && Stored() == old(Stored()) && Contents() == old(Contents())
      ensures ok ==> pos == Max(old(pos), size)
      ensures !ok ==> Full() && old(pos) <= pos < size
      ensures KeptBut(old(dev.disk), dev.disk, old(Changeable()))
      ensures forall b | b in Changeable() :: b in old(Changeable())
    {
      hide Header, Linked, Start, Index, Data, IsFile, Fresh, CursorOk, Open, Chained, KeptBut, View;
      FileRange(dev.disk, dev.bsize, head, size, list);
      KeptNone(dev.disk, Changeable());
      var c := Cursor(false, BLOCK_NULL, 0);
      NotReading(dev.bsize, list, size, pos, BLOCK_NULL, 0);
      while pos < size
        invariant Valid() && writing && dev.bsize > 8 && CursorOk(dev.bsize, list, size, pos, c)
        invariant Stored() == old(Stored()) && View(Front(), Stored()) == old(Contents())
        invariant pos == old(pos) || pos <= size
        invariant old(pos) <= pos
        invariant KeptBut(old(dev.disk), dev.disk, old(Changeable()))
        invariant forall b | b in Changeable() :: b in old(Changeable())
        decreases size - pos
      {
        ghost var mid, may := dev.disk, Changeable();
        var b;
        b, c := ReadSpan(dev, head, size, pos, 1, c, list);
        ghost var front := Front();
        ViewStep(front, Stored());
        var k := WriteBytes(b);
        KeptTrans(old(dev.disk), mid, dev.disk, old(Changeable()), may, old(Changeable()));
        if k == 0 {
          NothingMore(front, b);
          return false;
        }
        assert b[..k] == b;
      }
      ok := true;
    }

    /** The file being written becomes the file. */
    method TakeOver(pos0: nat)
      requires Valid() && writing && pos >= size && pos0 <= pos
      modifies this
      ensures Valid() && !writing && !reading && pos == pos0 && head == old(block) && size == old(pos)
      ensures Contents() == old(Contents()) && Contents() == Stored()
    {
      hide Header, Linked, Start, Index, Data, IsFile, Open, Chained, KeptBut;
      OpenIsFile(dev.disk, dev.bsize, block, off, pos, next);
      FreshCut(dev.supply, list + next, next + []);
      head, size, writing, pos := block, pos, false, pos0;
      list, next := next, [];
    }

    /** lfs_file_flush: the contents stay, and the old file stays readable where it was. */
    method Flush() returns (ok: bool)
      requires Valid()
      modifies this, dev
      ensures Valid() && !reading && Contents() == old(Contents())
      ensures ok ==> !writing && pos == old(pos) && Contents() == Stored() && size == |Contents()|
      ensures !old(writing) ==> ok && dev.supply == old(dev.supply) && head == old(head) && size == old(size)
      ensures !ok ==> Full() && head == old(head) && size == old(size) && Stored() == old(Stored())
      ensures !ok ==> writing && old(pos) <= pos < size
      ensures IsFile(dev.disk, dev.bsize, old(head), old(size), old(list))
      ensures Data(dev.disk, dev.bsize, old(list), old(size)) == old(Stored())
      ensures KeptBut(old(dev.disk), dev.disk, old(Changeable()))
      ensures forall b | b in Changeable() :: b in old(Changeable())
    {
      hide Header, Linked, Start, Index, Data, IsFile, Fresh, CursorOk, Open, Chained, KeptBut, View;
      FileRange(dev.disk, dev.bsize, head, size, list);
      KeptNone(dev.disk, Changeable());
      reading := false;
      NotReading(dev.bsize, list, size, pos, block, off);
      if writing {
        var pos0 := pos;
        ok := CopyTail();
        if !ok {
          return;
        }
        TakeOver(pos0);
      }
      ok := true;
    }

    /** lfs_file_size. */
    method Size() returns (n: nat)
      requires Valid()
      ensures n == |Contents()|
    {
      n := if writing then Max(pos, size) else size;
    }

    /** lfs_file_read: the bytes at the position, as many as there are. */
    method Read(n: nat) returns (ok: bool, r: seq<byte>)
      requires Valid()
      modifies this, dev
      ensures Valid() && Contents() == old(Contents())
      ensures ok ==> r == old(Contents())[Min(old(pos), |old(Contents())|)..Min(old(pos) + n, |old(Contents())|)]
      ensures ok ==> pos == old(pos) + |r|
      ensures !ok ==> old(writing) && Full() && old(pos) <= pos < size
      ensures KeptBut(old(dev.disk), dev.disk, old(Changeable()))
    {
      hide Header, Linked, Start, Index, Data, IsFile, Fresh, CursorOk, Open, Chained, KeptBut, View;
      FileRange(dev.disk, dev.bsize, head, size, list);
      KeptNone(dev.disk, Changeable());
      r := [];
      if writing {
        ok := Flush();
        if !ok {
          return;
        }
      }
      ok := true;
      if pos >= size {
        return;
      }
      var c;
      r, c := ReadSpan(dev, head, size, pos, Min(n, size - pos), Cursor(reading, block, off), list);
      pos := pos + |r|;
      reading, block, off := c.reading, c.block, c.off;
    }

    /** lfs_file_seek; the new position is computed in 32 bits. */
    method Seek(offset: int, whence: Whence) returns (r: Option<nat>)
      requires Valid()
      modifies this, dev
      ensures Valid() && Contents() == old(Contents())
      ensures var from := match whence case Set => 0 case Cur => old(pos) case End => |old(Contents())|;
              var npos := (from + offset) % 0x1_0000_0000;
              && (r.Some? ==> r.value == pos == npos <= fileMax && !writing && !reading)
              && (r.None? ==> npos > fileMax || (old(writing) && Full() && old(pos) <= pos < size))
      ensures KeptBut(old(dev.disk), dev.disk, old(Changeable()))
    {
      hide Header, Linked, Start, Index, Data, IsFile, Fresh, CursorOk, Open, Chained, KeptBut, View;
      FileRange(dev.disk, dev.bsize, head, size, list);
      var ok := Flush();
      if !ok {
        return None;
      }
      var from := match whence case Set => 0 case Cur => pos case End => size;
      var npos := (from + offset) % 0x1_0000_0000;
      if npos > fileMax {
        return None;
      }
      pos := npos;
      NotReading(dev.bsize, list, size, pos, block, off);
      return Some(npos);
    }

    /** The gap between the end of the file and the position is filled with zeros, one by one. */
    method FillZeros(target: nat) returns (ok: bool)
      requires Valid() && !writing && !reading && pos == size <= target <= fileMax
      modifies this`block, this`off, this`writing, this`next, this`pos, dev
      ensures Valid() && Stored() == old(Stored()) && size <= pos <= target && (pos > size ==> writing)
      ensures Front() == old(Front()) + Zeros(pos - size)
      ensures ok ==> pos == target
      ensures !ok ==> Full() && pos < target
      ensures KeptBut(old(dev.disk), dev.disk, old(Changeable()))
      ensures forall b | b in Changeable() :: b in old(Changeable())
    {
      hide Header, Linked, Start, Index, Data, IsFile, Fresh, CursorOk, Open, Chained, KeptBut;
      FileRange(dev.disk, dev.bsize, head, size, list);
      KeptNone(dev.disk, Changeable());
      while pos < target
        invariant Valid() && !reading && dev.bsize > 8
        invariant Stored() == old(Stored()) && size <= pos <= target && (pos > size ==> writing)
        invariant Front() == old(Front()) + Zeros(pos - size)
        invariant KeptBut(old(dev.disk), dev.disk, old(Changeable()))
        invariant forall b | b in Changeable() :: b in old(Changeable())
      {
        ghost var mid, may, n := dev.disk, Changeable(), pos - size;
        var k := WriteBytes([0]);
        KeptTrans(old(dev.disk), mid, dev.disk, old(Changeable()), may, old(Changeable()));
        ZeroMore(old(Front()), n, k);
        if k == 0 {
          return false;
        }
      }
      ok := true;
    }

    /** The contents are the new bytes over the old ones, whether or not a write is under way. */
    lemma ContentsView()
      requires Valid()
      ensures Contents() == View(Front(), Stored())
      ensures |Front()| == if writing then pos else Min(pos, size)
    {
      hide Linked, Start, Index, Data, IsFile, Fresh, CursorOk, Open;
      FileRange(dev.disk, dev.bsize, head, size, list);
      if !writing {
        ViewPrefix(Stored(), Min(pos, size));
      }
    }

    /** Where a write starts: an append never starts before the end of the file. */
    ghost function WritePos(): nat
      reads this
    {
      if append && pos < size then size else pos
    }

    /** Zeros up to the position if it lies behind the end. */
    method CloseGap() returns (ok: bool, ghost gap: seq<byte>)
      requires Valid() && !reading && (append ==> pos >= size)
      modifies this`block, this`off, this`writing, this`next, this`pos, dev
      ensures Valid() && Stored() == old(Stored()) && (writing || pos <= size) && pos <= old(pos)
      ensures Front() == old(Front()) + gap && (append ==> pos >= size)
      ensures gap == Zeros(|gap|) && |gap| <= |Gap(old(Contents()), old(pos))|
      ensures ok ==> gap == Gap(old(Contents()), old(pos)) && pos == old(pos)
      ensures !ok ==> Full() && |gap| < |Gap(old(Contents()), old(pos))|
      ensures KeptBut(old(dev.disk), dev.disk, old(Changeable()))
      ensures forall b | b in Changeable() :: b in old(Changeable())
    {
      hide Header, Linked, Start, Index, Data, IsFile, Fresh, CursorOk, Open, Chained, KeptBut, View, Zeros;
      FileRange(dev.disk, dev.bsize, head, size, list);
      ContentsView();
      ViewLength(Front(), Stored());
      KeptNone(dev.disk, Changeable());
      ok, gap := true, [];
      NoZeros();
      if !writing && pos > size {
        var target := pos;
        pos := size;
        NotReading(dev.bsize, list, size, pos, block, off);
        ok := FillZeros(target);
        gap := Zeros(pos - size);
      } else {
        NothingMore(Front(), []);
      }
    }

    /** Zeros up to the position if it lies behind the end, then the data. */
    method Put(data: seq<byte>) returns (ok: bool, ghost k: nat)
      requires Valid() && !reading && pos + |data| <= fileMax && (append ==> pos >= size)
      modifies this`block, this`off, this`writing, this`next, this`pos, dev
      ensures Valid() && Stored() == old(Stored())
      ensures var s := Stream(old(Contents()), old(pos), data);
              && k <= |s| && Front() == old(Front()) + s[..k]
              && (ok ==> k == |s| && pos == old(pos) + |data|) && (!ok ==> k < |s| && Full())
      ensures KeptBut(old(dev.disk), dev.disk, old(Changeable()))
    {
      hide Header, Linked, Start, Index, Data, IsFile, Fresh, CursorOk, Open, Chained, KeptBut, View, Zeros;
      FileRange(dev.disk, dev.bsize, head, size, list);
      ghost var front, gap := Front(), [];
      ok, gap := CloseGap();
      StreamParts(old(Contents()), old(pos), data, |gap|);
      if !ok {
        k := |gap|;
        return;
      }
      ghost var mid, may := dev.disk, Changeable();
      var n := WriteBytes(data);
      KeptTrans(old(dev.disk), mid, dev.disk, old(Changeable()), may, old(Changeable()));
      PutParts(front, gap, data, n);
      ok, k := n == |data|, |gap| + n;
    }

    /** lfs_file_write: the range at the position is replaced, a gap before it filled with zeros. */
    method Write(data: seq<byte>) returns (r: Outcome, ghost k: nat)
      requires Valid() && |data| <= FILE_MAX
      modifies this, dev
      ensures Valid() && head == old(head) && size == old(size) && list == old(list) && Stored() == old(Stored())
      ensures r.FBig? <==> old(WritePos()) + |data| > fileMax
      ensures r.FBig? ==> Contents() == old(Contents())
      ensures r.Ok? ==> Contents() == Overwrite(old(Contents()), old(WritePos()), data) && pos == old(WritePos()) + |data|
      ensures r.NoSpc? ==> && Full() && k < |Stream(old(Contents()), old(WritePos()), data)|
                           && Contents() == Splice(old(Contents()), Min(old(WritePos()), |old(Contents())|),
                                                   Stream(old(Contents()), old(WritePos()), data)[..k])
      ensures KeptBut(old(dev.disk), dev.disk, old(Changeable()))
    {
      hide Header, Linked, Start, Index, Data, IsFile, Fresh, CursorOk, Open, Chained, KeptBut, View, Splice, Stream;
      k := 0;
      FileRange(dev.disk, dev.bsize, head, size, list);
      KeptNone(dev.disk, Changeable());
      reading := false;
      if append && pos < size {
        pos := size;
      }
      NotReading(dev.bsize, list, size, pos, block, off);
      if pos + |data| > fileMax {
        return FBig, 0;
      }
      ContentsView();
      ghost var front, stored := Front(), Stored();
      ViewLength(front, stored);
      var ok;
      ok, k := Put(data);
      ContentsView();
      ghost var s := Stream(old(Contents()), old(WritePos()), data);
      ViewSplice(front, stored, s[..k]);
      assert s[..|s|] == s;
      r := if ok then Ok else NoSpc;
    }
  }

  lemma ZeroMore(front: seq<byte>, n: nat, k: nat)
    requires k <= 1
    ensures front + Zeros(n) + [0][..k] == front + Zeros(n + k)
  {}

  lemma NoZeros()
    ensures Zeros(0) == []
  {}

  lemma StreamParts(c: seq<byte>, pos: nat, data: seq<byte>, n: nat)
    requires n <= |Gap(c, pos)|
    ensures Stream(c, pos, data)[..n] == Zeros(n)
  {}

  lemma PutParts(front: seq<byte>, gap: seq<byte>, data: seq<byte>, n: nat)
    requires n <= |data|
    ensures front + gap + data[..n] == front + (gap + data)[..|gap| + n]
    ensures [] + data == data
    ensures front + [] == front
  {}

  lemma ViewLength(front: seq<byte>, old0: seq<byte>)
    ensures |View(front, old0)| == Max(|front|, |old0|)
  {}

  lemma ViewPrefix(old0: seq<byte>, n: nat)
    requires n <= |old0|
    ensures View(old0[..n], old0) == old0
  {}

  lemma ViewStep(front: seq<byte>, old0: seq<byte>)
    ensures |front| < |old0| ==> View(front + old0[|front|..|front| + 1], old0) == View(front, old0)
  {}

  lemma NothingMore(front: seq<byte>, b: seq<byte>)
    ensures front + b[..0] == front
  {}

  lemma NotReading(bsize: nat, list: seq<Block>, size: nat, pos: nat, block: Block, off: nat)
    requires bsize > 8
    ensures CursorOk(bsize, list, size, pos, Cursor(false, block, off))
  {}

  lemma KeptNone(d: Disk, s: seq<Block>)
    ensures KeptBut(d, d, s)
  {}

  lemma KeptMore(d0: Disk, d1: Disk, s: seq<Block>, t: seq<Block>)
    requires KeptBut(d0, d1, s) && forall b | b in s :: b in t
    ensures KeptBut(d0, d1, t)
  {}

  lemma KeptTrans(d0: Disk, d1: Disk, d2: Disk, s1: seq<Block>, s2: seq<Block>, t: seq<Block>)
    requires KeptBut(d0, d1, s1) && KeptBut(d1, d2, s2)
    requires (forall b | b in s1 :: b in t) && (forall b | b in s2 :: b in t)
    ensures KeptBut(d0, d2, t)
  {}

  lemma NoBytes(disk: Disk, bsize: nat, block: Block)
    requires bsize >= 112
    ensures IsFile(disk, bsize, block, 0, []) && Data(disk, bsize, [], 0) == []
  {}

  lemma KeptAll(d: Disk)
    ensures KeptBut(d, d, [])
  {}

  lemma GrownKeeps(d0: Disk, d1: Disk, bsize: nat, pos: nat, base: seq<Block>, block: Block, off: nat, supply: seq<Block>)
    requires bsize > 8 && Grown(d0, d1, bsize, pos, base, block, off) && |supply| > 0 && supply[0] == block
    ensures KeptBut(d0, d1, [block]) && KeptBut(d0, d1, supply)
  {
    hide Extended, Data, Chained, OffsetIn, Start;
  }
}
