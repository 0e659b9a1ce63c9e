/** lfs_ctz_index: which block of a CTZ skip list holds a byte, in closed form. */
module CtzIndex {
  import opened Arith
  import opened Bits

  const MAX_SIZE := 0x1_0000_0000

  /** LFS_FILE_MAX, the largest position of a file. */
  const FILE_MAX := 0x7fff_ffff

  // ---------- The layout, block by block ----------

  /** Bytes of pointers at the start of block `n`: ctz(n)+1 of them, none in block 0. */
  function Header(n: nat): nat {
    if n == 0 then 0 else 4 * (Ctz(n) + 1)
  }

  /** The file position of the first data byte of block `n`: the data of all blocks before it. */
  function Start(bsize: nat, n: nat): int {
    if n == 0 then 0 else Start(bsize, n - 1) + (bsize - Header(n - 1))
  }

  /** Block `n` holds position `pos` at offset `off`. */
  predicate Holds(bsize: nat, pos: nat, n: nat, off: int) {
    Start(bsize, n) <= pos < Start(bsize, n + 1) && off == pos - Start(bsize, n) + Header(n)
  }

  // ---------- The code ----------

  function Correction(n: nat): nat {
    4 * (Popc(n) + 2)
  }

  function Index(bsize: nat, pos: nat): (int, int)
    requires bsize > 8
  {
    var b := bsize - 8;
    var i := pos / b;
    if i == 0 then (0, pos)
    else
      var j := (pos - Correction(i - 1)) / b;
      if j < 0 then (j, 0) else (j, pos - b * j - 4 * Popc(j))
  }

  // ---------- The closed form of the layout ----------

  /** The pointers of blocks 1 to n number 2n - popc(n). */
  function Pointers(n: nat): nat {
    if n == 0 then 0 else Pointers(n - 1) + Ctz(n) + 1
  }

  lemma {:induction false} PointerCount(n: nat)
    ensures Pointers(n) == 2 * n - Popc(n)
  {
    if n > 0 {
      PointerCount(n - 1);
      PopcPred(n);
    }
  }

  lemma {:induction false} StartIsPointers(bsize: nat, n: nat)
    ensures n > 0 ==> Start(bsize, n) == bsize * n - 4 * Pointers(n - 1)
  {
    if n > 1 {
      StartIsPointers(bsize, n - 1);
    }
  }

  lemma StartClosed(bsize: nat, n: nat)
    requires n > 0
    ensures Start(bsize, n) == (bsize - 8) * n + Correction(n - 1)
  {
    StartIsPointers(bsize, n);
    PointerCount(n - 1);
  }

  lemma StartLessHeader(bsize: nat, n: nat)
    ensures Start(bsize, n) - Header(n) == (bsize - 8) * n + 4 * Popc(n)
  {
    if n > 0 {
      StartClosed(bsize, n);
      PopcPred(n);
    }
  }

  // ---------- When the code is right ----------

  /** No block number a 32-bit size can reach has more than 25 one bits. */
  lemma CorrectionFits(m: nat)
    requires m < 39768215
    ensures Correction(m) <= 108
  {
    PopcNeeds(m);
    if Popc(m) >= 26 {
      Pow2Monotone(26, Popc(m));
      Pow2Of25();
    }
  }

  lemma DivBound(pos: nat, b: nat)
    requires b >= 108 && pos < MAX_SIZE
    ensures pos / b <= 39768215
  {}

  /** And none that a file can reach has more than 24. */
  lemma FileCorrectionFits(m: nat)
    requires m < 20648881
    ensures Correction(m) <= 104
  {
    PopcNeeds(m);
    if Popc(m) >= 25 {
      Pow2Monotone(25, Popc(m));
      Pow2Of25();
    }
  }

  lemma FileDivBound(pos: nat, b: nat)
    requires b >= 104 && pos <= FILE_MAX
    ensures pos / b <= 20648881
  {}

  /** The block sizes and positions the index is right for. */
  predicate InReach(bsize: nat, pos: nat) {
    (bsize >= 112 && pos <= FILE_MAX) || (bsize >= 116 && pos < MAX_SIZE)
  }

  lemma ReachFits(bsize: nat, pos: nat, m: nat)
    requires InReach(bsize, pos) && m < pos / (bsize - 8)
    ensures Correction(m) <= bsize - 8
  {
    hide Correction;
    if pos <= FILE_MAX {
      FileDivBound(pos, bsize - 8);
      FileCorrectionFits(m);
    } else {
      DivBound(pos, bsize - 8);
      CorrectionFits(m);
    }
  }

  lemma Pow2Of25()
    ensures Pow2(25) == 33554432 && Pow2(26) == 67108864
  {
    assert Pow2(5) == 32;
    assert Pow2(10) == 1024;
    assert Pow2(15) == 32768;
    assert Pow2(20) == 1048576;
    assert Pow2(25) == 33554432;
  }

  /** The first estimate is the block or the one after it, and the correction settles which. */
  lemma Settled(b: int, pos: int, i: int, c: int) returns (j: int)
    requires b > 0 && i > 0 && b * i <= pos < b * i + b && 0 <= c <= b
    ensures j == (pos - c) / b && j == if pos >= b * i + c then i else i - 1
  {
    j := (pos - c) / b;
    if pos >= b * i + c {
      DivIs(pos - c, b, i);
    } else {
      DivIs(pos - c, b, i - 1);
    }
  }

  lemma DivIs(x: int, b: int, q: int)
    requires b > 0 && b * q <= x < b * q + b
    ensures x / b == q
  {
    DivModUnique(x, b, q, x - b * q);
  }

  lemma HoldsSame(bsize: nat, pos: nat, i: nat)
    requires bsize > 8 && i > 0
    requires (bsize - 8) * i + Correction(i - 1) <= pos < (bsize - 8) * i + (bsize - 8)
    ensures Start(bsize, i) <= pos < Start(bsize, i + 1)
  {
    hide Start, Correction;
    StartClosed(bsize, i);
    StartClosed(bsize, i + 1);
    MulNext(bsize - 8, i);
  }

  lemma HoldsPrevious(bsize: nat, pos: nat, i: nat)
    requires bsize > 8 && i > 0
    requires (bsize - 8) * i <= pos < (bsize - 8) * i + Correction(i - 1)
    requires i > 1 ==> Correction(i - 2) <= bsize - 8
    ensures Start(bsize, i - 1) <= pos < Start(bsize, i)
  {
    hide Start, Correction;
    StartClosed(bsize, i);
    MulNext(bsize - 8, i - 1);
    if i > 1 {
      StartClosed(bsize, i - 1);
    } else {
      FirstStart(bsize);
    }
  }

  /** Past the first block: the corrected estimate is the block that holds the position. */
  lemma LaterBlock(bsize: nat, pos: nat, i: nat)
    requires InReach(bsize, pos) && i == pos / (bsize - 8) && i > 0
    ensures var j := (pos - Correction(i - 1)) / (bsize - 8);
            j >= 0 && Start(bsize, j) <= pos < Start(bsize, j + 1)
  {
    hide Popc, Start, Header, Correction;
    var b := bsize - 8;
    DivRange(pos, b);
    ReachFits(bsize, pos, i - 1);
    var j := Settled(b, pos, i, Correction(i - 1));
    if pos >= b * i + Correction(i - 1) {
      HoldsSame(bsize, pos, i);
    } else {
      if i > 1 {
        ReachFits(bsize, pos, i - 2);
      }
      HoldsPrevious(bsize, pos, i);
    }
  }

  /** For every block size of at least 112 and every position of a file, and from 116 on for every 32-bit position, the
      code finds the block and offset. */
  lemma IndexHolds(bsize: nat, pos: nat)
    requires InReach(bsize, pos)
    ensures var (n, off) := Index(bsize, pos);
            n >= 0 && Holds(bsize, pos, n, off)
  {
    hide Popc, Start, Header, Correction;
    var i := pos / (bsize - 8);
    DivRange(pos, bsize - 8);
    if i == 0 {
      FirstBlock(bsize, pos);
    } else {
      LaterBlock(bsize, pos, i);
      StartLessHeader(bsize, Index(bsize, pos).0);
    }
  }

  lemma DivRange(pos: nat, b: nat)
    requires b > 0
    ensures b * (pos / b) <= pos < b * (pos / b) + b
  {}

  lemma MulNext(b: int, i: int)
    ensures b * (i + 1) == b * i + b
  {}

  lemma FirstStart(bsize: nat)
    ensures Start(bsize, 0) == 0
  {}

  lemma FirstBlock(bsize: nat, pos: nat)
    requires bsize > 8 && pos < bsize
    ensures Holds(bsize, pos, 0, pos)
  {}

  // ---------- Exactly when ----------

  /** The block size check of lfs_init. */
  predicate InitAssert(bsize: nat) {
    bsize > 8 && 0xffff_ffff / (bsize - 8) > 0 && 4 * Npw2(0xffff_ffff / (bsize - 8)) <= bsize
  }

  predicate IndexRight(bsize: nat, pos: nat)
    requires bsize > 8
  {
    var (n, off) := Index(bsize, pos);
    n >= 0 && Holds(bsize, pos, n, off)
  }

  lemma AssertLower(bsize: nat)
    requires InitAssert(bsize)
    ensures bsize >= 104
  {
    hide BitLength;
    var q := 0xffff_ffff / (bsize - 8);
    if bsize < 104 {
      QuotientLower(bsize - 8);
      BitLengthBounds(q - 1);
      Pow2Of25();
      if BitLength(q - 1) < 26 {
        Pow2Monotone(BitLength(q - 1), 25);
      }
    }
  }

  /** Every block of 128 bytes or more passes. */
  lemma AssertAccepts(bsize: nat)
    requires 128 <= bsize < MAX_SIZE
    ensures InitAssert(bsize)
  {
    hide BitLength;
    var q := 0xffff_ffff / (bsize - 8);
    QuotientUpper(bsize - 8);
    if q == 1 {
      NoBits();
    } else {
      BitLengthBounds(q - 1);
      Pow2Of25();
      if BitLength(q - 1) > 26 {
        Pow2Monotone(26, BitLength(q - 1) - 1);
      }
    }
  }

  lemma QuotientUpper(b: nat)
    requires 120 <= b < MAX_SIZE
    ensures 1 <= 0xffff_ffff / b <= 35791394
  {}

  lemma NoBits()
    ensures BitLength(0) == 0
  {}

  lemma QuotientLower(b: nat)
    requires 0 < b < 96
    ensures 0xffff_ffff / b > 33554433
  {}

  /** Below 112 the position just behind block 2^24 - 1, which a file can have, is placed one block too early. */
  lemma WrongBelow(bsize: nat) returns (pos: nat)
    requires 104 <= bsize < 112
    ensures pos <= FILE_MAX && !IndexRight(bsize, pos)
  {
    hide Popc, Header, Start;
    var b, i := bsize - 8, 16777216;
    var r := if b < 100 then 100 - b else 0;
    pos := b * i + r;
    Pow2Of24();
    PopcAllOnes(24);
    OneLess(23);
    DivIs(pos, b, i);
    DivIs(pos - 104, b, i - 2);
    StartClosed(bsize, i - 1);
  }

  /** And below 116 the one just behind block 2^25 - 1. */
  lemma WrongBelow32(bsize: nat) returns (pos: nat)
    requires 104 <= bsize < 116
    ensures pos < MAX_SIZE && !IndexRight(bsize, pos)
  {
    hide Popc, Header, Start;
    var b, i := bsize - 8, 33554432;
    var r := if b < 104 then 104 - b else 0;
    pos := b * i + r;
    Pow2Of25();
    PopcAllOnes(25);
    OneLess(24);
    DivIs(pos, b, i);
    DivIs(pos - 108, b, i - 2);
    StartClosed(bsize, i - 1);
  }

  lemma OneLess(k: nat)
    ensures Pow2(k + 1) >= 2 && Popc(Pow2(k + 1) - 2) == k
  {
    PopcAllOnes(k);
    var m := Pow2(k) - 1;
    assert Pow2(k + 1) - 2 == 2 * m;
    assert 2 * m % 2 == 0 && 2 * m / 2 == m;
  }

  lemma Pow2Of24()
    ensures Pow2(24) == 16777216
  {
    assert Pow2(8) == 256;
    assert Pow2(16) == 65536;
  }

  /** Among the block sizes lfs_init lets pass, the index is right for every position of a file exactly from 112 bytes
      on, and for every 32-bit position exactly from 116 on. */
  lemma IndexRightIff(bsize: nat)
    requires InitAssert(bsize)
    ensures (forall pos: nat | pos <= FILE_MAX :: IndexRight(bsize, pos)) <==> bsize >= 112
    ensures (forall pos: nat | pos < MAX_SIZE :: IndexRight(bsize, pos)) <==> bsize >= 116
  {
    hide Index, Holds, IndexRight;
    AssertLower(bsize);
    forall pos: nat | InReach(bsize, pos) ensures IndexRight(bsize, pos) {
      RightInReach(bsize, pos);
    }
    if bsize < 112 {
      var pos := WrongBelow(bsize);
    }
    if bsize < 116 {
      var pos := WrongBelow32(bsize);
    }
  }

  lemma RightInReach(bsize: nat, pos: nat)
    requires InReach(bsize, pos)
    ensures IndexRight(bsize, pos)
  {
    hide Index, Holds;
    IndexHolds(bsize, pos);
  }

  // ---------- The block is unique ----------

  /** Blocks this large always have room for data behind their pointers. */
  lemma {:induction false} StartGrows(bsize: nat, m: nat, n: nat)
    requires m <= n && forall k: nat | k < n :: Header(k) < bsize
    ensures Start(bsize, m) + (n - m) <= Start(bsize, n)
  {
    hide Header;
    if m < n {
      StartGrows(bsize, m, n - 1);
    }
  }

  lemma HoldsUnique(bsize: nat, pos: nat, m: nat, n: nat)
    requires forall k: nat | k <= m + n :: Header(k) < bsize
    requires Start(bsize, m) <= pos < Start(bsize, m + 1) && Start(bsize, n) <= pos < Start(bsize, n + 1)
    ensures m == n
  {
    hide Header, Start;
    if m < n {
      StartGrows(bsize, m + 1, n);
    } else if n < m {
      StartGrows(bsize, n + 1, m);
    }
  }
}
