/** lfs_bd_read, prog, flush and sync: the read and program caches in front of the device. */
module Cache {
  import opened Words
  import opened Arith

  datatype Config = Config(read: nat, prog: nat, cache: nat, bsize: nat)

  /** The size checks of lfs_init. */
  predicate Usable(c: Config) {
    && c.read > 0 && c.prog > 0 && c.cache > 0
    && c.cache % c.read == 0 && c.cache % c.prog == 0 && c.bsize % c.cache == 0
  }

  datatype Where = Null | Inline | At(block: nat)

  datatype Cache = Cache(block: Where, off: nat, size: nat, buffer: seq<byte>)

  /** What the cache holds of block `b` lies inside the block. */
  ghost predicate Fits(c: Config, p: Cache, b: nat) {
    p.block == At(b) ==> p.size <= |p.buffer| && p.off + p.size <= c.bsize
  }

  /** A block as seen through the program cache. */
  ghost function Overlay(blk: seq<byte>, p: Cache, b: nat): (r: seq<byte>)
    ensures |r| == |blk|
  {
    if p.block == At(b) && p.size <= |p.buffer| && p.off + p.size <= |blk|
    then Program(blk, p.off, p.buffer[..p.size]) else blk
  }

  /** The read cache holds what is on disk. */
  ghost predicate Coherent(c: Config, disk: seq<seq<byte>>, r: Cache) {
    r.block.At? ==> && r.block.block < |disk| && |disk[r.block.block]| == c.bsize
                    && r.size <= |r.buffer| && r.off + r.size <= c.bsize
                    && r.buffer[..r.size] == disk[r.block.block][r.off..r.off + r.size]
  }

  /** The position is inside what the cache holds. */
  predicate Covers(k: Cache, b: nat, off: nat) {
    k.block == At(b) && k.off <= off < k.off + k.size
  }

  // ---------- One round of reading ----------

  /** `d` is what stands in `blk` at `off`. */
  ghost predicate Cut(d: seq<byte>, blk: seq<byte>, off: nat) {
    off + |d| <= |blk| && d == blk[off..off + |d|]
  }

  lemma FromProgram(c: Config, blk: seq<byte>, p: Cache, b: nat, off: nat, d: nat)
    requires |blk| == c.bsize && Fits(c, p, b) && Covers(p, b, off) && off + d <= p.off + p.size
    ensures Cut(p.buffer[off - p.off..off - p.off + d], Overlay(blk, p, b), off)
  {}

  /** Outside the program cache the overlay is the disk. */
  lemma Beside(c: Config, blk: seq<byte>, p: Cache, b: nat, off: nat, d: nat)
    requires |blk| == c.bsize && Fits(c, p, b) && off + d <= c.bsize
    requires p.block == At(b) && off < p.off + p.size ==> off + d <= p.off
    ensures Overlay(blk, p, b)[off..off + d] == blk[off..off + d]
  {}

  lemma FromRead(c: Config, disk: seq<seq<byte>>, r: Cache, b: nat, off: nat, d: nat)
    requires Coherent(c, disk, r) && Covers(r, b, off) && off + d <= r.off + r.size
    ensures r.buffer[off - r.off..off - r.off + d] == disk[b][off..off + d]
  {
    var i := off - r.off;
    SubSlice(disk[b], r.off, r.off + r.size, i, i + d);
    SubSlice(r.buffer, 0, r.size, i, i + d);
    assert r.buffer[0..r.size] == r.buffer[..r.size];
  }

  /** So what the read cache holds is what a read may see there. */
  lemma FromReadSeen(c: Config, disk: seq<seq<byte>>, p: Cache, r: Cache, b: nat, off: nat, d: nat, overlay: bool)
    requires Coherent(c, disk, r) && Covers(r, b, off) && off + d <= r.off + r.size && Fits(c, p, b)
    requires overlay && p.block == At(b) && off < p.off + p.size ==> off + d <= p.off
    ensures b < |disk| && r.size <= |r.buffer|
    ensures Cut(r.buffer[off - r.off..off - r.off + d], if overlay then Overlay(disk[b], p, b) else disk[b], off)
  {
    HeldInside(c, disk, r);
    hide Overlay, Coherent, Fits;
    FromRead(c, disk, r, b, off, d);
    if overlay {
      Beside(c, disk[b], p, b, off, d);
    }
  }

  /** How much is loaded: from the aligned start, up to the hint, the block and the cache. */
  function LoadSize(c: Config, off: nat, hint: nat): nat
    requires c.read > 0 && off < c.bsize
  {
    AlignDownBounds(off, c.read);
    AlignUpBounds(off + hint, c.read);
    Min(Min(AlignUp(off + hint, c.read), c.bsize) - AlignDown(off, c.read), c.cache)
  }

  /** A load with a positive hint covers the position it was made for. */
  lemma LoadCovers(c: Config, off: nat, hint: nat)
    requires Usable(c) && off < c.bsize && hint > 0
    ensures AlignDown(off, c.read) <= off < AlignDown(off, c.read) + LoadSize(c, off, hint)
    ensures AlignDown(off, c.read) + LoadSize(c, off, hint) <= c.bsize && LoadSize(c, off, hint) <= c.cache
  {}

  /** It fills the cache or goes as far as the hint and the block do, and not a whole read unit further. */
  lemma LoadReaches(c: Config, off: nat, hint: nat)
    requires Usable(c) && off < c.bsize && hint > 0
    ensures var end := AlignDown(off, c.read) + LoadSize(c, off, hint);
            (LoadSize(c, off, hint) == c.cache || end >= Min(off + hint, c.bsize)) && end < off + hint + c.read
  {
    hide AlignDown, AlignUp;
    AlignDownBounds(off, c.read);
    AlignUpBounds(off + hint, c.read);
  }

  /** With a hint of zero at an aligned position nothing is loaded, and the loop would not move. */
  lemma LoadNothing(c: Config, off: nat)
    requires Usable(c) && off < c.bsize && off % c.read == 0
    ensures LoadSize(c, off, 0) == 0
  {
    AlignUpAligned(off, c.read);
  }

  lemma AlignUpAligned(off: nat, n: nat)
    requires n > 0 && off % n == 0
    ensures AlignUp(off, n) == off == AlignDown(off, n)
  {
    hide AlignUp;
    AlignUpFits(off, off, n);
    AlignUpBounds(off, n);
  }

  // ---------- Programming in sequence ----------

  /** Of `n` bytes programmed in sequence so many have left the cache: whole caches. */
  function Flushed(c: Config, n: nat): nat
    requires c.cache > 0
  {
    AlignDown(n, c.cache)
  }

  /** The cache while the bytes from the last flush on are pending. */
  ghost function Pending(c: Config, b: nat, off0: nat, d: seq<byte>): Cache
    requires c.cache > 0
  {
    var m := Flushed(c, |d|);
    AlignDownBounds(|d|, c.cache);
    Cache(At(b), off0 + m, |d| - m, d[m..] + Blank(c.cache - (|d| - m)))
  }

  /** `d` has been programmed in sequence from the aligned offset `off0` of a block that was `blk0`. */
  ghost predicate Session(c: Config, blk: seq<byte>, p: Cache, b: nat, blk0: seq<byte>, off0: nat, d: seq<byte>) {
    && Usable(c) && |blk0| == c.bsize && off0 % c.prog == 0 && off0 + |d| <= c.bsize
    && Flushed(c, |d|) <= |d|
    && blk == Program(blk0, off0, d[..Flushed(c, |d|)])
    && (p == Pending(c, b, off0, d) || (Flushed(c, |d|) == |d| && p.block == Null && p.buffer == Blank(c.cache)))
  }

  lemma AlignDownIs(a: nat, m: nat, n: nat)
    requires n > 0 && m % n == 0 && m <= a < m + n
    ensures AlignDown(a, n) == m
  {
    var q := m / n;
    assert m == n * q;
    DivModUnique(a, n, q, a - m);
  }

  lemma AlignedSum(a: nat, b: nat, n: nat)
    requires n > 0 && a % n == 0 && b % n == 0
    ensures (a + b) % n == 0
  {
    var q, r := a / n, b / n;
    assert a == n * q && b == n * r;
    TimesSum(n, q, r);
    DivModUnique(a + b, n, q + r, 0);
  }

  lemma TimesSum(n: nat, q: nat, r: nat)
    ensures n * q + n * r == n * (q + r)
  {}

  lemma AlignedThrough(a: nat, k: nat, n: nat)
    requires n > 0 && k > 0 && a % k == 0 && k % n == 0
    ensures a % n == 0
  {
    var q, r := a / k, k / n;
    assert a == k * q && k == n * r;
    TimesTimes(n, r, q);
    DivModUnique(a, n, r * q, 0);
  }

  lemma TimesTimes(n: nat, r: nat, q: nat)
    ensures n * r * q == n * (r * q)
  {}

  /** Where the flushed part ends is aligned for programming. */
  lemma FlushedAligned(c: Config, off0: nat, n: nat)
    requires Usable(c) && off0 % c.prog == 0
    ensures Flushed(c, n) <= n < Flushed(c, n) + c.cache && Flushed(c, n) % c.cache == 0
    ensures Flushed(c, n) % c.prog == 0 && (off0 + Flushed(c, n)) % c.prog == 0
  {
    hide AlignDown;
    AlignDownBounds(n, c.cache);
    AlignedThrough(Flushed(c, n), c.cache, c.prog);
    AlignedSum(off0, Flushed(c, n), c.prog);
  }

  lemma SessionStart(c: Config, blk: seq<byte>, p: Cache, b: nat, off0: nat)
    requires Usable(c) && |blk| == c.bsize && off0 % c.prog == 0 && off0 <= c.bsize
    requires p.block == Null && p.buffer == Blank(c.cache)
    ensures Session(c, blk, p, b, blk, off0, [])
  {}

  /** The cache is made ready at an aligned offset. */
  lemma SessionReady(c: Config, blk: seq<byte>, p: Cache, b: nat, blk0: seq<byte>, off0: nat, d: seq<byte>)
    requires Session(c, blk, p, b, blk0, off0, d) && p.block == Null
    ensures AlignDown(off0 + |d|, c.prog) == off0 + |d|
    ensures Session(c, blk, p.(block := At(b), off := off0 + |d|, size := 0), b, blk0, off0, d)
  {
    hide AlignDown, Program;
    FlushedAligned(c, off0, |d|);
    AlignUpAligned(off0 + |d|, c.prog);
    assert d[|d|..] + Blank(c.cache) == Blank(c.cache);
  }

  /** More bytes go into the cache without filling it, or fill it exactly. */
  lemma SessionCopy(c: Config, blk: seq<byte>, p: Cache, b: nat, blk0: seq<byte>, off0: nat, d: seq<byte>, e: seq<byte>)
    requires Session(c, blk, p, b, blk0, off0, d) && p.block == At(b)
    requires |e| > 0 && off0 + |d| + |e| <= c.bsize && |d| + |e| <= Flushed(c, |d|) + c.cache
    ensures p.off == off0 + Flushed(c, |d|) && p.size == |d| - Flushed(c, |d|) && |p.buffer| == c.cache
    ensures p.size + |e| <= c.cache
    ensures var q := p.(buffer := Program(p.buffer, p.size, e), size := p.size + |e|);
            && q.buffer[..q.size] == (d + e)[Flushed(c, |d|)..]
            && (q.size < c.cache ==> Session(c, blk, q, b, blk0, off0, d + e))
            && (q.size == c.cache ==> Flushed(c, |d + e|) == |d + e|
                                      && Program(blk, q.off, q.buffer) == Program(blk0, off0, d + e))
  {
    hide AlignDown, Flushed;
    var m := Flushed(c, |d|);
    FlushedAligned(c, off0, |d|);
    var q := p.(buffer := Program(p.buffer, p.size, e), size := p.size + |e|);
    assert p == Pending(c, b, off0, d);
    CopyBuffer(d[m..], e, c.cache);
    assert (d + e)[m..] == d[m..] + e && (d + e)[..m] == d[..m];
    if q.size < c.cache {
      FlushedStays(c, |d|, |d + e|);
    } else {
      FlushedAll(c, |d|, |d + e|);
      assert q.buffer == d[m..] + e;
      ProgramTwice(blk0, off0, d[..m], (d + e)[m..]);
      assert (d + e)[..m] + (d + e)[m..] == d + e;
    }
  }

  lemma CopyBuffer(d: seq<byte>, e: seq<byte>, n: nat)
    requires |d| + |e| <= n
    ensures Program(d + Blank(n - |d|), |d|, e) == d + e + Blank(n - |d| - |e|)
  {}

  lemma FlushedStays(c: Config, n: nat, k: nat)
    requires Usable(c) && n <= k < Flushed(c, n) + c.cache
    ensures Flushed(c, k) == Flushed(c, n)
  {
    hide AlignDown;
    FlushedAligned(c, 0, n);
    AlignDownIs(k, Flushed(c, n), c.cache);
  }

  lemma FlushedAll(c: Config, n: nat, k: nat)
    requires Usable(c) && k == Flushed(c, n) + c.cache
    ensures Flushed(c, k) == k
  {
    hide AlignDown;
    FlushedAligned(c, 0, n);
    AlignedSum(Flushed(c, n), c.cache, c.cache);
    AlignDownIs(k, k, c.cache);
  }

  /** Programmed bytes are read back before any flush. */
  lemma SessionSeen(c: Config, blk: seq<byte>, p: Cache, b: nat, blk0: seq<byte>, off0: nat, d: seq<byte>)
    requires Session(c, blk, p, b, blk0, off0, d)
    ensures Fits(c, p, b) && Overlay(blk, p, b) == Program(blk0, off0, d)
  {
    hide AlignDown, Flushed;
    FlushedAligned(c, off0, |d|);
    var m := Flushed(c, |d|);
    if p.block == At(b) {
      assert p.buffer[..p.size] == d[m..];
      ProgramTwice(blk0, off0, d[..m], d[m..]);
      assert d[..m] + d[m..] == d;
    } else {
      assert d[..m] == d;
    }
  }

  /** What a flush at the end leaves: the data, filled up with erased bytes to the program size. */
  ghost function Padded(c: Config, d: seq<byte>): seq<byte>
    requires c.prog > 0
  {
    AlignUpBounds(|d|, c.prog);
    d + Blank(AlignUp(|d|, c.prog) - |d|)
  }

  lemma SessionEnd(c: Config, blk: seq<byte>, p: Cache, b: nat, blk0: seq<byte>, off0: nat, d: seq<byte>)
    requires Session(c, blk, p, b, blk0, off0, d)
    ensures off0 + |Padded(c, d)| <= c.bsize
    ensures p.block == At(b) ==> var n := AlignUp(p.size, c.prog);
                                 && n <= |p.buffer| && p.off + n <= c.bsize
                                 && Program(blk, p.off, p.buffer[..n]) == Program(blk0, off0, Padded(c, d))
    ensures p.block != At(b) ==> p.block == Null && blk == Program(blk0, off0, Padded(c, d))
  {
    hide AlignDown, AlignUp, Flushed;
    FlushedAligned(c, off0, |d|);
    var m := Flushed(c, |d|);
    AlignUpShift(m, |d| - m, c.prog);
    BlockAligned(c);
    AlignUpShift(off0, |d|, c.prog);
    AlignUpFits(off0 + |d|, c.bsize, c.prog);
    AlignUpBounds(|d|, c.prog);
    AlignUpBounds(|d| - m, c.prog);
    if p.block == At(b) {
      var n := AlignUp(p.size, c.prog);
      AlignUpFits(p.size, c.cache, c.prog);
      assert p.buffer[..n] == d[m..] + Blank(n - p.size);
      ProgramTwice(blk0, off0, d[..m], p.buffer[..n]);
      assert d[..m] + p.buffer[..n] == Padded(c, d);
    } else {
      AlignUpAligned(|d|, c.prog);
      assert d[..m] == d == Padded(c, d);
    }
  }

  lemma BlockAligned(c: Config)
    requires Usable(c)
    ensures c.bsize % c.prog == 0
  {
    AlignedThrough(c.bsize, c.cache, c.prog);
  }

  lemma AlignUpShift(m: nat, k: nat, n: nat)
    requires n > 0 && m % n == 0
    ensures AlignUp(m + k, n) == m + AlignUp(k, n)
  {
    hide AlignDown;
    AlignDownBounds(k + n - 1, n);
    AlignedSum(m, AlignDown(k + n - 1, n), n);
    AlignDownIs(m + k + n - 1, m + AlignDown(k + n - 1, n), n);
  }

  class Bd {
    const c: Config
    var disk: seq<seq<byte>>
    var p: Cache
    var r: Cache

    constructor (c: Config, disk: seq<seq<byte>>)
      ensures this.c == c && this.disk == disk && p.block == Null && r.block == Null && p.buffer == Blank(c.cache)
    {
      this.c, this.disk := c, disk;
      p, r := Cache(Null, 0, 0, Blank(c.cache)), Cache(Null, 0, 0, []);
    }

    ghost predicate Valid()
      reads this
    {
      Usable(c) && (forall i | 0 <= i < |disk| :: |disk[i]| == c.bsize) && Coherent(c, disk, r)
    }

    /** What a read may see: the disk, or the program cache over it. */
    ghost function Seen(overlay: bool, b: nat): seq<byte>
      requires b < |disk|
      reads this
    {
      if overlay then Overlay(disk[b], p, b) else disk[b]
    }

    /** Loading the read cache. */
    method Load(b: nat, off: nat, hint: nat)
      requires Valid() && b < |disk| && off < c.bsize && hint > 0
      modifies this`r
      ensures Valid() && Covers(r, b, off)
    {
      hide AlignDown, LoadSize;
      LoadCovers(c, off, hint);
      var start, n := AlignDown(off, c.read), LoadSize(c, off, hint);
      r := Cache(At(b), start, n, disk[b][start..start + n]);
    }

    /** Bytes from a cache, or none: the program cache first, and the read cache only up to where that begins. */
    method ReadCached(overlay: bool, b: nat, off: nat, n: nat) returns (d: seq<byte>)
      requires Valid() && b < |disk| && Fits(c, p, b) && n > 0 && off + n <= c.bsize
      ensures |d| <= n && Cut(d, Seen(overlay, b), off)
      ensures |d| == 0 ==> !Covers(r, b, off)
    {
      NothingCut(Seen(overlay, b), off);
      hide Cut, Overlay, Coherent, Program, Usable, Fits;
      ProgramInside(c, p, b);
      var diff := n;
      if overlay && p.block == At(b) && off < p.off + p.size {
        if off >= p.off {
          diff := Min(diff, p.size - (off - p.off));
          FromProgram(c, disk[b], p, b, off, diff);
          return p.buffer[off - p.off..off - p.off + diff];
        }
        diff := Min(diff, p.off - off);
      }
      if r.block == At(b) && off < r.off + r.size {
        if off >= r.off {
          HeldInside(c, disk, r);
          diff := Min(diff, r.size - (off - r.off));
          FromReadSeen(c, disk, p, r, b, off, diff, overlay);
          return r.buffer[off - r.off..off - r.off + diff];
        }
      }
      d := [];
    }

    /** One round of the loop: bytes from a cache, or none and the read cache loaded. */
    method ReadRound(overlay: bool, hint: nat, b: nat, off: nat, n: nat) returns (d: seq<byte>)
      requires Valid() && b < |disk| && Fits(c, p, b) && hint > 0 && n > 0 && off + n <= c.bsize
      modifies this`r
      ensures Valid() && |d| <= n && Cut(d, Seen(overlay, b), off)
      ensures |d| == 0 ==> Covers(r, b, off) && !old(Covers(r, b, off))
    {
      hide Cut, Overlay, Coherent, Usable, Fits, Covers;
      d := ReadCached(overlay, b, off, n);
      if d == [] {
        Load(b, off, hint);
      }
    }

    /** lfs_bd_read: it ends, and returns the program cache laid over the disk, whatever hint and alignment. */
    method Read(overlay: bool, hint: nat, b: nat, off0: nat, n: nat) returns (ok: bool, data: seq<byte>)
      requires Valid() && b < |disk| && Fits(c, p, b) && (n > 0 ==> hint > 0)
      modifies this`r
      ensures Valid() && ok == (off0 + n <= c.bsize)
      ensures ok ==> data == Seen(overlay, b)[off0..off0 + n]
    {
      hide Overlay, Coherent, Covers, Usable;
      data := [];
      if off0 + n > c.bsize {
        return false, [];
      }
      var off := off0;
      ghost var seen := Seen(overlay, b);
      while off < off0 + n
        invariant off0 <= off <= off0 + n && Valid() && data == seen[off0..off]
        decreases off0 + n - off, if Covers(r, b, off) then 0 else 1
      {
        var d := ReadRound(overlay, hint, b, off, off0 + n - off);
        assert seen[off0..off] + seen[off..off + |d|] == seen[off0..off + |d|];
        data := data + d;
        off := off + |d|;
      }
      ok := true;
    }

    /** lfs_bd_cmp against the disk itself. */
    method Compare(b: nat, off: nat, data: seq<byte>) returns (eq: bool)
      requires Valid() && b < |disk| && off + |data| <= c.bsize && Fits(c, p, b)
      modifies this`r
      ensures Valid() && (eq <==> disk[b][off..off + |data|] == data)
    {
      hide Coherent, Usable, Fits;
      for i := 0 to |data|
        invariant Valid() && disk[b][off..off + i] == data[..i]
      {
        var ok, d := Read(false, |data| - i, b, off + i, 1);
        OneMoreByte(disk[b], off, data, i, d[0]);
        if d[0] != data[i] {
          return false;
        }
      }
      assert data[..|data|] == data;
      eq := true;
    }

    /** lfs_bd_flush; without validation the read cache must not hold the block being programmed. */
    method Flush(validate: bool) returns (ok: bool)
      requires Valid() && (validate || !p.block.At? || r.block != p.block)
      requires p.block.At? ==> && p.block.block < |disk| && Fits(c, p, p.block.block)
                               && AlignUp(p.size, c.prog) <= |p.buffer| && p.off + AlignUp(p.size, c.prog) <= c.bsize
      modifies this
      ensures Valid() && ok
      ensures old(p).block.At? ==> var b, n := old(p).block.block, AlignUp(old(p).size, c.prog);
                                   && disk == old(disk)[b := Program(old(disk)[b], old(p).off, old(p).buffer[..n])]
                                   && p.block == Null && p.buffer == Blank(c.cache)
      ensures !old(p).block.At? ==> disk == old(disk) && p == old(p) && r == old(r)
      ensures !validate ==> r == old(r)
    {
      hide AlignUp, Program;
      if p.block.At? {
        var b, diff := p.block.block, AlignUp(p.size, c.prog);
        disk := disk[b := Program(disk[b], p.off, p.buffer[..diff])];
        if validate {
          r := r.(block := Null);
          var eq := Compare(b, p.off, p.buffer[..diff]);
          ProgramReads(old(disk)[b], p.off, p.buffer[..diff]);
          if !eq {
            return false;
          }
        }
        p := p.(block := Null, buffer := Blank(c.cache));
      }
      ok := true;
    }

    /** lfs_bd_sync up to the device's own sync. */
    method Sync(validate: bool) returns (ok: bool)
      requires Valid()
      requires p.block.At? ==> && p.block.block < |disk| && Fits(c, p, p.block.block)
                               && AlignUp(p.size, c.prog) <= |p.buffer| && p.off + AlignUp(p.size, c.prog) <= c.bsize
      modifies this
      ensures Valid() && ok
      ensures old(p).block.At? ==> var b, n := old(p).block.block, AlignUp(old(p).size, c.prog);
                                   && disk == old(disk)[b := Program(old(disk)[b], old(p).off, old(p).buffer[..n])]
                                   && p.block == Null && p.buffer == Blank(c.cache)
      ensures !old(p).block.At? ==> disk == old(disk) && p == old(p)
    {
      r := r.(block := Null);
      ok := Flush(validate);
    }

    /** A full cache goes to the disk. */
    method FlushFull(validate: bool, b: nat, ghost blk: seq<byte>)
      requires Valid() && p.block == At(b) && b < |disk| && p.size == c.cache == |p.buffer| && p.off + c.cache <= c.bsize
      requires validate || r.block != At(b)
      requires blk == Program(disk[b], p.off, p.buffer)
      modifies this
      ensures Valid() && disk == old(disk)[b := blk] && p.block == Null && p.buffer == Blank(c.cache)
      ensures !validate ==> r.block == old(r).block
    {
      hide Program, AlignUp, Coherent, Fits;
      FlushWhole(c, p, b);
      assert p.buffer[..c.cache] == p.buffer;
      var ok := Flush(validate);
    }

    /** One round of lfs_bd_prog with the cache ready: as much as fits, flushed if that fills it. */
    method ProgRound(validate: bool, b: nat, off: nat, data: seq<byte>,
                     ghost blk0: seq<byte>, ghost off0: nat, ghost d: seq<byte>) returns (k: nat)
      requires Valid() && b < |disk| && Session(c, disk[b], p, b, blk0, off0, d) && p.block == At(b)
      requires off == off0 + |d| && |data| > 0 && off + |data| <= c.bsize && (validate || r.block != At(b))
      modifies this
      ensures Valid() && |disk| == |old(disk)| && 0 < k <= |data|
      ensures Session(c, disk[b], p, b, blk0, off0, d + data[..k])
      ensures forall i | 0 <= i < |disk| && i != b :: disk[i] == old(disk)[i]
      ensures !validate ==> r.block == old(r).block
    {
      hide Program, AlignDown, AlignUp, Flushed, Session, Coherent, Fits, Usable;
      SessionRange(c, disk[b], p, b, blk0, off0, d);
      k := Min(|data|, c.cache - (off - p.off));
      SessionCopy(c, disk[b], p, b, blk0, off0, d, data[..k]);
      p := p.(buffer := Program(p.buffer, off - p.off, data[..k]), size := Max(p.size, off + k - p.off));
      if p.size == c.cache {
        FlushFull(validate, b, Program(blk0, off0, d + data[..k]));
        SessionFull(c, disk[b], p, b, blk0, off0, d + data[..k]);
      }
    }

    /** lfs_bd_prog: bytes that follow on those programmed so far. */
    method Prog(validate: bool, b: nat, off: nat, data: seq<byte>,
                ghost blk0: seq<byte>, ghost off0: nat, ghost d: seq<byte>)
      requires Valid() && b < |disk| && Session(c, disk[b], p, b, blk0, off0, d)
      requires off == off0 + |d| && off + |data| <= c.bsize && (validate || r.block != At(b))
      modifies this
      ensures Valid() && |disk| == |old(disk)|
      ensures Session(c, disk[b], p, b, blk0, off0, d + data)
      ensures forall i | 0 <= i < |disk| && i != b :: disk[i] == old(disk)[i]
      ensures !validate ==> r.block == old(r).block
    {
      hide Program, AlignDown, AlignUp, Flushed, Session, Coherent, Usable;
      var k := 0;
      assert d + data[..0] == d;
      while k < |data|
        invariant k <= |data| && Valid() && |disk| == |old(disk)|
        invariant Session(c, disk[b], p, b, blk0, off0, d + data[..k])
        invariant forall i | 0 <= i < |disk| && i != b :: disk[i] == old(disk)[i]
        invariant !validate ==> r.block == old(r).block
        decreases |data| - k, if p.block == At(b) then 0 else 1
      {
        if p.block == At(b) {
          var n := ProgRound(validate, b, off + k, data[k..], blk0, off0, d + data[..k]);
          assert (d + data[..k]) + data[k..][..n] == d + data[..k + n];
          k := k + n;
        } else {
          SessionIdle(c, disk[b], p, b, blk0, off0, d + data[..k]);
          SessionReady(c, disk[b], p, b, blk0, off0, d + data[..k]);
          assert c.prog > 0 by { SizesPositive(c); }
          p := p.(block := At(b), off := AlignDown(off + k, c.prog), size := 0);
        }
      }
      assert data[..|data|] == data;
    }

    /** However the data is cut into pieces, programming them in sequence and flushing leaves the same bytes. */
    method ProgAll(validate: bool, b: nat, off0: nat, chunks: seq<seq<byte>>)
      requires Valid() && b < |disk| && off0 % c.prog == 0 && off0 + |Concat(chunks)| <= c.bsize
      requires p.block == Null && p.buffer == Blank(c.cache) && (validate || r.block != At(b))
      modifies this
      ensures Valid() && off0 + |Padded(c, Concat(chunks))| <= c.bsize
      ensures disk == old(disk)[b := Program(old(disk)[b], off0, Padded(c, Concat(chunks)))]
    {
      hide Program, AlignDown, AlignUp, Flushed, Session, Coherent, Usable, Padded, Fits;
      var off := off0;
      ghost var blk0 := disk[b];
      SessionStart(c, disk[b], p, b, off0);
      assert chunks[..0] == [];
      for i := 0 to |chunks|
        invariant Valid() && |disk| == |old(disk)| && off == off0 + |Concat(chunks[..i])|
        invariant Session(c, disk[b], p, b, blk0, off0, Concat(chunks[..i]))
        invariant forall j | 0 <= j < |disk| && j != b :: disk[j] == old(disk)[j]
        invariant !validate ==> r.block == old(r).block
      {
        ConcatStep(chunks, i);
        Prog(validate, b, off, chunks[i], blk0, off0, Concat(chunks[..i]));
        off := off + |chunks[i]|;
      }
      assert chunks[..|chunks|] == chunks;
      SessionEnd(c, disk[b], p, b, blk0, off0, Concat(chunks));
      SessionSeen(c, disk[b], p, b, blk0, off0, Concat(chunks));
      var ok := Flush(validate);
    }
  }

  lemma SessionRange(c: Config, blk: seq<byte>, p: Cache, b: nat, blk0: seq<byte>, off0: nat, d: seq<byte>)
    requires Session(c, blk, p, b, blk0, off0, d) && p.block == At(b)
    ensures p.off == off0 + Flushed(c, |d|) && p.off <= off0 + |d| < p.off + c.cache && off0 + |d| == p.off + p.size
    ensures |blk0| == c.bsize && off0 % c.prog == 0
  {}

  lemma SizesPositive(c: Config)
    requires Usable(c)
    ensures c.prog > 0
  {}

  /** Pieces put together. */
  function Concat(chunks: seq<seq<byte>>): seq<byte> {
    if chunks == [] then [] else Concat(chunks[..|chunks| - 1]) + chunks[|chunks| - 1]
  }

  lemma {:induction false} ConcatStep(chunks: seq<seq<byte>>, i: nat)
    requires i < |chunks|
    ensures Concat(chunks[..i + 1]) == Concat(chunks[..i]) + chunks[i]
    ensures |Concat(chunks[..i + 1])| <= |Concat(chunks)|
    decreases |chunks| - i
  {
    assert chunks[..i + 1][..i] == chunks[..i];
    if i + 1 < |chunks| {
      ConcatStep(chunks, i + 1);
    } else {
      assert chunks[..i + 1] == chunks;
    }
  }

  lemma SessionIdle(c: Config, blk: seq<byte>, p: Cache, b: nat, blk0: seq<byte>, off0: nat, d: seq<byte>)
    requires Session(c, blk, p, b, blk0, off0, d) && p.block != At(b)
    ensures p.block == Null
  {}

  lemma FlushWhole(c: Config, p: Cache, b: nat)
    requires Usable(c) && p.size == c.cache == |p.buffer| && p.off + c.cache <= c.bsize
    ensures AlignUp(p.size, c.prog) == c.cache && Fits(c, p, b)
  {
    AlignUpAligned(c.cache, c.prog);
  }

  lemma SessionFull(c: Config, blk: seq<byte>, p: Cache, b: nat, blk0: seq<byte>, off0: nat, d: seq<byte>)
    requires Usable(c) && |blk0| == c.bsize && off0 % c.prog == 0 && off0 + |d| <= c.bsize
    requires Flushed(c, |d|) == |d| && blk == Program(blk0, off0, d) && p.block == Null && p.buffer == Blank(c.cache)
    ensures Session(c, blk, p, b, blk0, off0, d)
  {}

  lemma OneMoreByte(blk: seq<byte>, off: nat, data: seq<byte>, i: nat, d: byte)
    requires off + |data| <= |blk| && i < |data| && blk[off..off + i] == data[..i] && [d] == blk[off + i..off + i + 1]
    ensures d == data[i] ==> blk[off..off + (i + 1)] == data[..i + 1]
    ensures d != data[i] ==> blk[off..off + |data|] != data
  {
    assert d == blk[off + i] by { assert [d][0] == blk[off + i..off + i + 1][0]; }
    assert blk[off..off + (i + 1)] == blk[off..off + i] + [d];
    assert data[..i + 1] == data[..i] + [data[i]];
    assert blk[off..off + |data|][i] == d;
  }

  lemma NothingCut(blk: seq<byte>, off: nat)
    requires off <= |blk|
    ensures Cut([], blk, off)
  {}

  lemma ProgramInside(c: Config, p: Cache, b: nat)
    requires Fits(c, p, b)
    ensures p.block == At(b) ==> p.size <= |p.buffer| && p.off + p.size <= c.bsize
  {}

  lemma HeldInside(c: Config, disk: seq<seq<byte>>, r: Cache)
    requires Coherent(c, disk, r) && r.block.At?
    ensures r.size <= |r.buffer| && r.off + r.size <= c.bsize
    ensures r.block.block < |disk| && |disk[r.block.block]| == c.bsize
  {}
}
