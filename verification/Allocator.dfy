/** The block allocator: a sliding lookahead bitmap and an acknowledgement budget. */
module Allocator {
  import opened Options
  import opened Arith

  /** Block count, and bits in the lookahead buffer. */
  datatype Config = Config(blocks: nat, window: nat)

  ghost predicate Usable(c: Config) {
    0 < c.blocks <= 0x8000_0000 && c.window > 0
  }

  /** struct lfs_free; one bool stands for one bit of the buffer. */
  datatype State = State(off: nat, size: nat, i: nat, ack: nat, bits: seq<bool>)

  /** The budget covers the rest of the window. */
  predicate Sane(c: Config, st: State) {
    && st.i <= st.size <= |st.bits| == c.window
    && st.size - st.i <= st.ack <= c.blocks
    && (st.size > 0 ==> st.off < c.blocks)
  }

  // ---------- The code ----------

  /** The 32-bit arithmetic of lfs_alloc_lookahead. */
  function Offset(c: Config, off: nat, block: nat): nat
    requires c.blocks > 0
  {
    (((block - off) % 0x1_0000_0000 + c.blocks) % 0x1_0000_0000) % c.blocks
  }

  function MarkOne(size: nat, bits: seq<bool>, o: nat): (r: seq<bool>)
    requires size <= |bits|
    ensures |r| == |bits|
  {
    if o < size then bits[o := true] else bits
  }

  /** lfs_alloc_lookahead, for every block the traversal reports. */
  function Mark(c: Config, off: nat, size: nat, bits: seq<bool>, reach: seq<nat>): (r: seq<bool>)
    requires c.blocks > 0 && size <= |bits|
    ensures |r| == |bits|
    decreases |reach|
  {
    if reach == [] then bits else Mark(c, off, size, MarkOne(size, bits, Offset(c, off, reach[0])), reach[1..])
  }

  function Clear(n: nat): (r: seq<bool>)
    ensures |r| == n
  {
    if n == 0 then [] else Clear(n - 1) + [false]
  }

  /** The next window: as wide as the buffer and the budget allow, with the blocks in use marked. */
  function Refill(c: Config, st: State, reach: seq<nat>): State
    requires c.blocks > 0
  {
    var off := (st.off + st.size) % c.blocks;
    var size := Min(c.window, st.ack);
    State(off, size, 0, st.ack, Mark(c, off, size, Clear(c.window), reach))
  }

  /** One block looked at. */
  function Advance(c: Config, st: State): State
    requires Sane(c, st) && st.i < st.size
  {
    st.(i := st.i + 1, ack := st.ack - 1)
  }

  /** The eager search for the next block that may be free. */
  function Skip(c: Config, st: State): State
    requires Sane(c, st)
    decreases st.size - st.i
  {
    if st.i < st.size && st.bits[st.i] then Skip(c, Advance(c, st)) else st
  }

  /** The scan of the window up to the first free block. */
  function Find(c: Config, st: State): (State, Option<nat>)
    requires Sane(c, st)
    decreases st.size - st.i
  {
    if st.i == st.size then (st, None)
    else if !st.bits[st.i] then (Skip(c, Advance(c, st)), Some((st.off + st.i) % c.blocks))
    else Find(c, Advance(c, st))
  }

  /** The next window takes up the whole buffer or the whole budget. */
  lemma RefillWidth(c: Config, st: State, reach: seq<nat>)
    requires c.blocks > 0
    ensures var w := Refill(c, st, reach);
            w.size <= c.window && w.size <= st.ack && (w.size == c.window || w.size == st.ack) && w.ack == st.ack
  {}

  /** The state stands at a block that may be free, or at the end of the window. */
  predicate Eager(st: State) {
    st.i < st.size && st.i < |st.bits| ==> !st.bits[st.i]
  }

  lemma {:induction false} SkipEager(c: Config, st: State)
    requires Sane(c, st)
    ensures Eager(Skip(c, st))
    decreases st.size - st.i
  {
    if st.i < st.size && st.bits[st.i] {
      SkipEager(c, Advance(c, st));
    }
  }

  /** After a block was handed out the search has gone on to the next block that may be free, or to the end. */
  lemma {:induction false} FindEager(c: Config, st: State)
    requires Sane(c, st)
    ensures Find(c, st).1.Some? ==> Eager(Find(c, st).0)
    decreases st.size - st.i
  {
    hide Eager;
    if st.i < st.size {
      if st.bits[st.i] {
        FindEager(c, Advance(c, st));
      } else {
        SkipEager(c, Advance(c, st));
      }
    }
  }

  lemma {:induction false} SkipSane(c: Config, st: State)
    requires Sane(c, st)
    ensures Sane(c, Skip(c, st))
    decreases st.size - st.i
  {
    if st.i < st.size && st.bits[st.i] {
      SkipSane(c, Advance(c, st));
    }
  }

  lemma {:induction false} FindSane(c: Config, st: State)
    requires Sane(c, st)
    ensures Sane(c, Find(c, st).0)
    ensures Find(c, st).1.None? ==> var s := Find(c, st).0; s.i == s.size && s.ack == st.ack - (st.size - st.i)
    decreases st.size - st.i
  {
    if st.i < st.size {
      if st.bits[st.i] {
        FindSane(c, Advance(c, st));
      } else {
        SkipSane(c, Advance(c, st));
      }
    }
  }

  lemma RefillSane(c: Config, st: State, reach: seq<nat>)
    requires Usable(c) && Sane(c, st)
    ensures Sane(c, Refill(c, st, reach))
  {}

  /** lfs_alloc; None is LFS_ERR_NOSPC. */
  function Alloc(c: Config, st: State, reach: seq<nat>): (State, Option<nat>)
    requires Usable(c) && Sane(c, st)
    decreases st.ack, if st.i == st.size then 1 else 0
  {
    FindSane(c, st);
    var (st1, r) := Find(c, st);
    if r.Some? || st1.ack == 0 then (st1, r)
    else
      RefillSane(c, st1, reach);
      Alloc(c, Refill(c, st1, reach), reach)
  }

  // ---------- Distances on the ring of blocks ----------

  /** How far `b` lies ahead of `at`. */
  function Ahead(c: Config, at: nat, b: nat): nat
    requires at < c.blocks && b < c.blocks
  {
    if b >= at then b - at else b + c.blocks - at
  }

  /** The 32-bit arithmetic computes that distance. */
  lemma OffsetIsAhead(c: Config, off: nat, b: nat)
    requires Usable(c) && off < c.blocks && b < c.blocks
    ensures Offset(c, off, b) == Ahead(c, off, b)
  {
    var n := c.blocks;
    if b >= off {
      assert (b - off) % 0x1_0000_0000 == b - off;
      ModLess(b - off, n);
    } else {
      assert (b - off) % 0x1_0000_0000 == b - off + 0x1_0000_0000;
      assert (b - off + 0x1_0000_0000 + n) % 0x1_0000_0000 == b - off + n;
      ModSmall(b - off + n, n);
    }
  }

  lemma ModSmall(x: nat, n: nat)
    requires x < n
    ensures x % n == x
  {}

  lemma ModLess(x: nat, n: nat)
    requires x < n
    ensures (x + n) % n == x
  {}

  /** Walking k blocks around the ring. */
  lemma ModStep(x: nat, k: nat, n: nat)
    requires 0 < n && k < n
    ensures (x + k) % n == if x % n + k < n then x % n + k else x % n + k - n
  {
    var q := x / n;
    assert x == n * q + x % n;
    if x % n + k < n {
      DivModUnique(x + k, n, q, x % n + k);
    } else {
      Distribute(n, q);
      DivModUnique(x + k, n, q + 1, x % n + k - n);
    }
  }

  lemma Distribute(n: nat, q: nat)
    ensures n * (q + 1) == n * q + n
  {}

  // ---------- The allocator among its users ----------

  /** The allocator, the blocks a traversal would report now, those handed out since the last
      acknowledgement, and those that were in use at some time since then or still marked at that time. */
  datatype World = World(st: State, reach: seq<nat>, handed: set<nat>, busy: set<nat>)

  /** The block at window position j. */
  function BlockAt(c: Config, st: State, j: nat): nat
    requires c.blocks > 0
  {
    (st.off + j) % c.blocks
  }

  /** The next block to be looked at. */
  function Cursor(c: Config, st: State): nat
    requires c.blocks > 0
  {
    BlockAt(c, st, st.i)
  }

  /** The block was looked at since the last acknowledgement. */
  predicate Passed(c: Config, st: State, b: nat)
    requires c.blocks > 0 && b < c.blocks
  {
    Ahead(c, Cursor(c, st), b) >= st.ack
  }

  ghost predicate InRange(c: Config, w: World) {
    && (forall b | b in w.reach :: b < c.blocks)
    && (forall b | b in w.handed :: b < c.blocks)
  }

  /** What every step keeps. */
  ghost predicate Good(c: Config, w: World) {
    && Usable(c) && Sane(c, w.st) && InRange(c, w)
    && (forall b: nat | b < c.blocks :: Passed(c, w.st, b) ==> b in w.handed || b in w.busy)
    && (forall b | b in w.handed :: Passed(c, w.st, b))
    && (forall j: nat | w.st.i <= j < w.st.size && !w.st.bits[j] :: BlockAt(c, w.st, j) !in w.reach)
    && (forall j: nat | w.st.i <= j < w.st.size && w.st.bits[j] :: BlockAt(c, w.st, j) in w.busy)
    && (forall b | b in w.reach :: b in w.busy)
  }

  // ---------- Looking at one block ----------

  lemma CursorMoves(c: Config, st: State)
    requires Usable(c) && Sane(c, st) && st.i < st.size
    ensures Cursor(c, st) < c.blocks
    ensures Cursor(c, Advance(c, st)) == if Cursor(c, st) + 1 == c.blocks then 0 else Cursor(c, st) + 1
  {
    if c.blocks > 1 {
      ModStep(st.off + st.i, 1, c.blocks);
      assert st.off + st.i + 1 == st.off + (st.i + 1);
    }
  }

  /** Exactly the block at the cursor joins those passed. */
  lemma PassedMoves(c: Config, st: State, b: nat)
    requires Usable(c) && Sane(c, st) && st.i < st.size && b < c.blocks
    ensures Passed(c, Advance(c, st), b) <==> Passed(c, st, b) || b == Cursor(c, st)
  {
    hide BlockAt;
    CursorMoves(c, st);
  }

  /** A window position that is still to come has not been passed. */
  lemma AheadNotPassed(c: Config, st: State, j: nat)
    requires Usable(c) && Sane(c, st) && st.i <= j < st.size
    ensures BlockAt(c, st, j) < c.blocks && !Passed(c, st, BlockAt(c, st, j))
  {
    ModStep(st.off + st.i, j - st.i, c.blocks);
    assert st.off + st.i + (j - st.i) == st.off + j;
  }

  /** A marked block is looked at and left. */
  lemma PassMarked(c: Config, w: World)
    requires Good(c, w) && w.st.i < w.st.size && w.st.bits[w.st.i]
    ensures Good(c, w.(st := Advance(c, w.st)))
  {
    hide Passed, BlockAt;
    var st1 := Advance(c, w.st);
    forall b: nat | b < c.blocks ensures Passed(c, st1, b) <==> Passed(c, w.st, b) || b == Cursor(c, w.st) {
      PassedMoves(c, w.st, b);
    }
    assert Cursor(c, w.st) in w.busy;
    SameBlocks(c, w.st, st1);
  }

  lemma SameBlocks(c: Config, st: State, st1: State)
    requires c.blocks > 0 && st.off == st1.off
    ensures forall j: nat :: BlockAt(c, st1, j) == BlockAt(c, st, j)
  {}

  /** A free block is looked at and handed out: it was neither in use nor handed out before. */
  lemma PassFree(c: Config, w: World)
    requires Good(c, w) && w.st.i < w.st.size && !w.st.bits[w.st.i]
    ensures var b := Cursor(c, w.st);
            && b < c.blocks && b !in w.reach && b !in w.handed
            && Good(c, w.(st := Advance(c, w.st), handed := w.handed + {b}))
  {
    hide Passed, BlockAt;
    var st1, b0 := Advance(c, w.st), Cursor(c, w.st);
    AheadNotPassed(c, w.st, w.st.i);
    forall b: nat | b < c.blocks ensures Passed(c, st1, b) <==> Passed(c, w.st, b) || b == b0 {
      PassedMoves(c, w.st, b);
    }
    SameBlocks(c, w.st, st1);
  }

  // ---------- Scanning ----------

  lemma {:induction false} SkipGood(c: Config, w: World)
    requires Good(c, w)
    ensures Good(c, w.(st := Skip(c, w.st)))
    decreases w.st.size - w.st.i
  {
    hide Good;
    GoodSane(c, w);
    if w.st.i < w.st.size && w.st.bits[w.st.i] {
      PassMarked(c, w);
      SkipGood(c, w.(st := Advance(c, w.st)));
    }
  }

  lemma GoodSane(c: Config, w: World)
    requires Good(c, w)
    ensures Usable(c) && Sane(c, w.st)
  {}

  function Handed(w: World, r: Option<nat>): set<nat> {
    if r.Some? then w.handed + {r.value} else w.handed
  }

  lemma {:induction false} FindGood(c: Config, w: World)
    requires Good(c, w) && Sane(c, w.st) && Usable(c)
    ensures var (st, r) := Find(c, w.st);
            && Good(c, w.(st := st, handed := Handed(w, r)))
            && (r.Some? ==> r.value < c.blocks && r.value !in w.reach && r.value !in w.handed)
    decreases w.st.size - w.st.i
  {
    hide Good, Skip, BlockAt;
    if w.st.i < w.st.size {
      if w.st.bits[w.st.i] {
        PassMarked(c, w);
        FindGood(c, w.(st := Advance(c, w.st)));
      } else {
        PassFree(c, w);
        CursorIs(c, w.st);
        SkipGood(c, w.(st := Advance(c, w.st), handed := w.handed + {Cursor(c, w.st)}));
      }
    }
  }

  lemma CursorIs(c: Config, st: State)
    requires c.blocks > 0
    ensures Cursor(c, st) == (st.off + st.i) % c.blocks
  {}

  // ---------- The next window ----------

  lemma {:induction false} ClearAt(n: nat, j: nat)
    requires j < n
    ensures !Clear(n)[j]
  {
    if j < n - 1 {
      ClearAt(n - 1, j);
    }
  }

  /** Exactly the reported blocks are marked. */
  lemma {:induction false} MarkAt(c: Config, off: nat, size: nat, bits: seq<bool>, reach: seq<nat>, j: nat)
    requires Usable(c) && off < c.blocks && size <= |bits| && j < size && (forall b | b in reach :: b < c.blocks)
    ensures Mark(c, off, size, bits, reach)[j] <==> bits[j] || exists b | b in reach :: Ahead(c, off, b) == j
    decreases |reach|
  {
    hide Offset, Ahead;
    if reach != [] {
      var b0, rest := reach[0], reach[1..];
      assert b0 in reach;
      assert forall b :: b in reach <==> b == b0 || b in rest by { assert reach == [b0] + rest; }
      OffsetIsAhead(c, off, b0);
      var bits1 := MarkOne(size, bits, Offset(c, off, b0));
      MarkAt(c, off, size, bits1, rest, j);
      assert bits1[j] <==> bits[j] || Ahead(c, off, b0) == j;
    }
  }

  /** The block at a window position is the one at that distance. */
  lemma AheadIsPosition(c: Config, off: nat, b: nat, j: nat)
    requires c.blocks > 0 && off < c.blocks && b < c.blocks && j < c.blocks
    ensures Ahead(c, off, b) == j <==> b == (off + j) % c.blocks
  {}

  lemma RefillMarks(c: Config, st: State, reach: seq<nat>, j: nat)
    requires Usable(c) && Sane(c, st) && (forall b | b in reach :: b < c.blocks)
    requires j < Refill(c, st, reach).size
    ensures var st1 := Refill(c, st, reach); j < |st1.bits| && (st1.bits[j] <==> BlockAt(c, st1, j) in reach)
  {
    hide Mark, Clear, Ahead;
    var st1 := Refill(c, st, reach);
    ModRange(st.off + st.size, c.blocks);
    MarkAt(c, st1.off, st1.size, Clear(c.window), reach, j);
    ClearAt(c.window, j);
    ModRange(st1.off + j, c.blocks);
    forall b | b in reach ensures Ahead(c, st1.off, b) == j <==> b == BlockAt(c, st1, j) {
      AheadIsPosition(c, st1.off, b, j);
    }
  }

  lemma ModRange(x: nat, n: nat)
    requires n > 0
    ensures 0 <= x % n < n
  {}

  /** The cursor stays where it was. */
  lemma RefillCursor(c: Config, st: State, reach: seq<nat>)
    requires Usable(c) && Sane(c, st) && st.i == st.size
    ensures Cursor(c, Refill(c, st, reach)) == Cursor(c, st) && Refill(c, st, reach).ack == st.ack
  {
    hide Mark, Clear;
    ModRange(st.off + st.size, c.blocks);
    ModSmall((st.off + st.size) % c.blocks, c.blocks);
  }

  lemma RefillGood(c: Config, w: World)
    requires Good(c, w) && w.st.i == w.st.size
    ensures Good(c, w.(st := Refill(c, w.st, w.reach)))
  {
    hide Refill, BlockAt, Ahead;
    var st1 := Refill(c, w.st, w.reach);
    RefillSane(c, w.st, w.reach);
    RefillCursor(c, w.st, w.reach);
    assert st1.i == 0 by { RefillStart(c, w.st, w.reach); }
    forall j: nat | j < st1.size ensures st1.bits[j] <==> BlockAt(c, st1, j) in w.reach {
      RefillMarks(c, w.st, w.reach, j);
    }
  }

  lemma RefillStart(c: Config, st: State, reach: seq<nat>)
    requires c.blocks > 0
    ensures Refill(c, st, reach).i == 0
  {}

  // ---------- Allocation ----------

  /** lfs_alloc keeps the invariant, hands out only blocks that are neither in use nor already handed
      out, and gives up only when every block has been handed out or found busy. */
  lemma {:induction false} AllocGood(c: Config, w: World)
    requires Good(c, w) && Usable(c) && Sane(c, w.st)
    ensures var (st, r) := Alloc(c, w.st, w.reach);
            && Good(c, w.(st := st, handed := Handed(w, r)))
            && (r.Some? ==> r.value < c.blocks && r.value !in w.reach && r.value !in w.handed)
            && (r.None? ==> forall b: nat | b < c.blocks :: b in w.handed || b in w.busy)
    decreases w.st.ack, if w.st.i == w.st.size then 1 else 0
  {
    hide Good, Find, Refill;
    FindGood(c, w);
    FindSane(c, w.st);
    var (st1, r) := Find(c, w.st);
    if r.None? {
      var w1 := w.(st := st1);
      if st1.ack == 0 {
        AllPassed(c, w1);
      } else {
        RefillGood(c, w1);
        RefillSane(c, st1, w.reach);
        RefillShape(c, st1, w.reach);
        AllocGood(c, w1.(st := Refill(c, st1, w.reach)));
      }
    }
  }

  lemma RefillShape(c: Config, st: State, reach: seq<nat>)
    requires Usable(c) && st.ack > 0
    ensures var r := Refill(c, st, reach); r.i == 0 < r.size && r.ack == st.ack
  {}

  lemma AllPassed(c: Config, w: World)
    requires Good(c, w) && w.st.ack == 0
    ensures forall b: nat | b < c.blocks :: b in w.handed || b in w.busy
  {}

  // ---------- Whole runs ----------

  /** An allocation, an acknowledgement, or the file system putting blocks to use and freeing others. */
  datatype Event = Allocate | Acknowledge | Change(reach: seq<nat>)

  /** The file system takes into use only what it was handed since the last acknowledgement. */
  ghost predicate Legal(c: Config, w: World, e: Event) {
    e.Change? ==> forall b | b in e.reach :: b in w.reach || b in w.handed
  }

  /** Blocks still marked in the rest of the window. */
  ghost function MarkedAhead(c: Config, st: State): set<nat>
    requires c.blocks > 0
  {
    set j: nat | st.i <= j < st.size && j < |st.bits| && st.bits[j] :: BlockAt(c, st, j)
  }

  ghost function Elements(s: seq<nat>): set<nat> {
    set b | b in s
  }

  ghost function Next(c: Config, w: World, e: Event): World
    requires Good(c, w)
  {
    match e
    case Allocate => var (st, r) := Alloc(c, w.st, w.reach); w.(st := st, handed := Handed(w, r))
    case Acknowledge => World(w.st.(ack := c.blocks), w.reach, {}, Elements(w.reach) + MarkedAhead(c, w.st))
    case Change(reach) => w.(reach := reach, busy := w.busy + Elements(reach))
  }

  lemma NextGood(c: Config, w: World, e: Event)
    requires Good(c, w) && Legal(c, w, e)
    ensures Good(c, Next(c, w, e))
  {
    match e
    case Allocate =>
      hide Good;
      GoodSane(c, w);
      AllocGood(c, w);
    case Acknowledge =>
      AckGood(c, w);
    case Change(reach) =>
      ChangeGood(c, w, reach);
  }

  lemma AckGood(c: Config, w: World)
    requires Good(c, w)
    ensures Good(c, Next(c, w, Acknowledge))
  {
    hide BlockAt;
    var st1 := w.st.(ack := c.blocks);
    SameBlocks(c, w.st, st1);
    forall b: nat | b < c.blocks ensures !Passed(c, st1, b) {
      CursorRange(c, st1);
    }
  }

  lemma CursorRange(c: Config, st: State)
    requires c.blocks > 0
    ensures Cursor(c, st) < c.blocks
  {}

  lemma ChangeGood(c: Config, w: World, reach: seq<nat>)
    requires Good(c, w) && Legal(c, w, Change(reach))
    ensures Good(c, Next(c, w, Change(reach)))
  {
    hide Passed, BlockAt;
    forall j: nat | w.st.i <= j < w.st.size && !w.st.bits[j] ensures BlockAt(c, w.st, j) !in reach {
      AheadNotPassed(c, w.st, j);
    }
  }

  ghost predicate LegalRun(c: Config, w: World, es: seq<Event>)
    requires Good(c, w)
    decreases |es|
  {
    es == [] || (Legal(c, w, es[0]) && (NextGood(c, w, es[0]); LegalRun(c, Next(c, w, es[0]), es[1..])))
  }

  /** The blocks a run hands out, in order. */
  ghost function Returned(c: Config, w: World, es: seq<Event>): seq<nat>
    requires Good(c, w) && LegalRun(c, w, es)
    decreases |es|
  {
    if es == [] then []
    else
      NextGood(c, w, es[0]);
      var rest := Returned(c, Next(c, w, es[0]), es[1..]);
      if es[0].Allocate? && Alloc(c, w.st, w.reach).1.Some? then [Alloc(c, w.st, w.reach).1.value] + rest else rest
  }

  ghost function After(c: Config, w: World, es: seq<Event>): World
    requires Good(c, w) && LegalRun(c, w, es)
    decreases |es|
  {
    if es == [] then w else (NextGood(c, w, es[0]); After(c, Next(c, w, es[0]), es[1..]))
  }

  /** The invariant holds after every run. */
  lemma {:induction false} RunGood(c: Config, w: World, es: seq<Event>)
    requires Good(c, w) && LegalRun(c, w, es)
    ensures Good(c, After(c, w, es))
    decreases |es|
  {
    hide Good, Next;
    if es != [] {
      NextGood(c, w, es[0]);
      RunGood(c, Next(c, w, es[0]), es[1..]);
    }
  }

  predicate Distinct(s: seq<nat>) {
    forall i, j | 0 <= i < j < |s| :: s[i] != s[j]
  }

  /** Between two acknowledgements no block is returned twice, whatever the file system does meanwhile. */
  lemma {:induction false} NoBlockTwice(c: Config, w: World, es: seq<Event>)
    requires Good(c, w) && LegalRun(c, w, es) && Acknowledge !in es
    ensures Distinct(Returned(c, w, es))
    ensures forall b | b in Returned(c, w, es) :: b !in w.handed
    decreases |es|
  {
    hide Good, Alloc, Legal;
    if es != [] {
      var e := es[0];
      GoodSane(c, w);
      NextGood(c, w, e);
      assert e in es && Acknowledge !in es[1..];
      NoBlockTwice(c, Next(c, w, e), es[1..]);
      if e.Allocate? {
        AllocGood(c, w);
      }
    }
  }

  /** Mounting: nothing handed out, no window yet, and any start offset, even one behind the last block. */
  lemma MountGood(c: Config, off: nat, bits: seq<bool>, reach: seq<nat>)
    requires Usable(c) && |bits| == c.window && forall b | b in reach :: b < c.blocks
    ensures Good(c, World(State(off, 0, 0, c.blocks, bits), reach, {}, Elements(reach)))
  {}

  // ---------- In place ----------

  /** lfs->free and the allocator's methods. */
  class Lookahead {
    const c: Config
    var off: nat
    var size: nat
    var i: nat
    var ack: nat
    var bits: seq<bool>

    constructor (c: Config, off: nat)
      ensures this.c == c && St() == State(off, 0, 0, c.blocks, Clear(c.window))
    {
      this.c, this.off, size, i, ack, bits := c, off, 0, 0, c.blocks, Clear(c.window);
    }

    function St(): State
      reads this
    {
      State(off, size, i, ack, bits)
    }

    method MarkBlock(block: nat)
      requires c.blocks > 0 && size <= |bits|
      modifies this`bits
      ensures bits == MarkOne(size, old(bits), Offset(c, off, block))
    {
      hide Offset;
      var o := Offset(c, off, block);
      if o < size {
        bits := bits[o := true];
      }
    }

    method NextWindow(reach: seq<nat>)
      requires Usable(c) && Sane(c, St())
      modifies this
      ensures St() == Refill(c, old(St()), reach)
    {
      hide Offset, Clear;
      off := (off + size) % c.blocks;
      size := Min(c.window, ack);
      i := 0;
      bits := Clear(c.window);
      assert reach[0..] == reach;
      for k := 0 to |reach|
        invariant size <= |bits| && off == (old(off) + old(size)) % c.blocks && size == Min(c.window, old(ack))
        invariant i == 0 && ack == old(ack)
        invariant Mark(c, off, size, bits, reach[k..]) == Mark(c, off, size, Clear(c.window), reach)
      {
        assert reach[k..][1..] == reach[k + 1..];
        MarkBlock(reach[k]);
      }
    }

    method SkipMarked()
      requires Sane(c, St())
      modifies this`i, this`ack
      ensures St() == Skip(c, old(St())) && Sane(c, St())
    {
      while i != size && bits[i]
        invariant Sane(c, St()) && Skip(c, St()) == Skip(c, old(St()))
      {
        i, ack := i + 1, ack - 1;
      }
    }

    method ScanWindow() returns (r: Option<nat>)
      requires Usable(c) && Sane(c, St())
      modifies this`i, this`ack
      ensures (St(), r) == Find(c, old(St())) && Sane(c, St())
    {
      hide Skip;
      while i != size
        invariant Sane(c, St()) && Find(c, St()) == Find(c, old(St()))
      {
        var o := i;
        i, ack := i + 1, ack - 1;
        if !bits[o] {
          SkipMarked();
          return Some((off + o) % c.blocks);
        }
      }
      r := None;
    }

    /** lfs_alloc. */
    method AllocBlock(reach: seq<nat>) returns (r: Option<nat>)
      requires Usable(c) && Sane(c, St())
      modifies this
      ensures (St(), r) == Alloc(c, old(St()), reach)
    {
      hide Refill, Find;
      while true
        invariant Sane(c, St()) && Alloc(c, St(), reach) == Alloc(c, old(St()), reach)
        decreases ack, if i == size then 1 else 0
      {
        FindSane(c, St());
        r := ScanWindow();
        if r.Some? || ack == 0 {
          return;
        }
        RefillSane(c, St(), reach);
        RefillShape(c, St(), reach);
        NextWindow(reach);
      }
    }

    /** lfs_alloc_ack. */
    method Ack()
      modifies this`ack
      ensures St() == old(St()).(ack := c.blocks)
    {
      ack := c.blocks;
    }
  }
}
