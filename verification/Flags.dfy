/** Where the erased flag and the flash part: refused appends, torn tags, and directories of 255 files or more. */
module Flags {
  import opened Words
  import opened Arith
  import opened Log
  import opened Fetch
  import opened Crash
  import opened Atomic
  import opened Commit
  import opened Pair
  import opened Runs
  import Chain
  import Crc
  import T = Tag

  // ---------- Behind a completed or refused commit ----------

  /** After a completed operation a mount reports erased flash exactly if the commit ends on a program unit and a word
      fits behind it. */
  lemma CommitReady(p: Pair, op: Op, prog: nat)
    requires prog > 0 && Sound(p) && Legal(p, op) && (op.Append? ==> Good(p))
    ensures op.end <= |p.cur| && Within(p, op, |Bytes(p, op)|)
    ensures Erased(Done(p, op).cur, prog) <==> op.end % prog == 0 && op.end + 4 <= |p.cur|
  {
    hide ScanBlock, Newest, SoundLog, Holds, Stops, Legal, Bytes, LogOf;
    if op.Append? {
      AppendDone(p, op);
    } else {
      RewriteDone(p, op);
    }
  }

  /** A refused append that programmed its first tag: no mount reports erased flash, but the flag in memory stays. */
  lemma RefusedDirties(s: State, es: seq<Entry>, m: nat, prog: nat)
    requires prog > 0 && Inv(s, prog) && Erased(s.pair.cur, prog) && s.erased && !s.owed && Tried(s.pair, es, m) && m >= 4
    ensures Enabled(s, Refused(es, m), prog)
    ensures var t := Next(s, Refused(es, m), prog);
            && !Good(t.pair) && t.erased && !Erased(t.pair.cur, prog)
            && ScanBlock(t.pair.cur) == ScanBlock(s.pair.cur)
  {
    hide ScanBlock, Newest, SoundLog, Stops, NoCrc, AllWritten, Chain.Enc, Holds;
    var p, f := s.pair, ScanBlock(s.pair.cur);
    RefusedSound(p, es, m);
    var q := Refuse(p, es, m);
    if Holds(q.cur, f.off, []) {
      ProgramReads(p.cur, f.off, Chain.Enc(es, f.etag)[..m]);
      SameBlock(p.cur, q.cur, f.off);
    }
  }

  lemma SameBlock(a: seq<byte>, b: seq<byte>, off: nat)
    requires |a| == |b| && Holds(a, off, []) && Holds(b, off, []) && a[..off] == b[..off]
    ensures a == b
  {
    assert a == a[..off] + a[off..] && b == b[..off] + b[off..];
  }

  /** An append cut off inside its attributes has programmed what a refused one has. */
  lemma TornIsRefused(p: Pair, op: Op, n: nat)
    requires |p.cur| >= 4 && op.Append? && Legal(p, op) && n <= |Chain.Enc(op.es, ScanBlock(p.cur).etag)|
    ensures Within(p, op, n) && Tried(p, op.es, n) && After(p, op, n) == Refuse(p, op.es, n)
  {
    hide ScanBlock, Chain.Enc, Chain.LastPtag, CommitBytes, NoCrc, AllWritten, Seal;
    OpBounds(p, op);
    var f := ScanBlock(p.cur);
    CommitLength(p.cur, f.off, f.etag, T.NULL, op.es, op.end);
    var a, b := Chain.Enc(op.es, f.etag), Chain.Enc(Seal(p.cur, f.off, f.etag, T.NULL, op.es, op.end), Chain.LastPtag(op.es, f.etag));
    TakeFirst(a, b, n);
  }

  lemma TakeFirst(a: seq<byte>, b: seq<byte>, n: nat)
    requires n <= |a|
    ensures (a + b)[..n] == a[..n]
  {}

  /** Power lost behind the first tag of an append: the mount finds the old commit on flash that is not erased. */
  lemma LossDirties(s: State, op: Op, n: nat, prog: nat)
    requires prog > 0 && Inv(s, prog) && Erased(s.pair.cur, prog) && op.Append? && MayTry(s, op)
    requires 4 <= n <= |Chain.Enc(op.es, ScanBlock(s.pair.cur).etag)|
    ensures Enabled(s, Lost(op, n), prog)
    ensures var t := Next(s, Lost(op, n), prog);
            !Good(t.pair) && !t.erased && !t.owed && |t.pair.cur| == |s.pair.cur| && ScanBlock(t.pair.cur) == ScanBlock(s.pair.cur)
  {
    hide ScanBlock, Newest, SoundLog, Stops, NoCrc, AllWritten, Chain.Enc, Holds, Legal, Erased, Good, Refuse,
         Torn, Fetched;
    var p := s.pair;
    TornIsRefused(p, op, n);
    RefusedDirties(s, op.es, n, prog);
    var q := Refuse(p, op.es, n);
    RefusedStep(s, op.es, n, prog);
    FetchedInv(q, q, prog);
    SameSize(p, op.es, n);
  }

  lemma SameSize(p: Pair, es: seq<Entry>, m: nat)
    requires |p.cur| >= 4 && Tried(p, es, m)
    ensures |Refuse(p, es, m).cur| == |p.cur|
  {}

  // ---------- A tag cut off after one to three bytes ----------

  /** The length read from the first `m` bytes of a tag of length `size` that is chained to one of length `prev`: the bits
      that are not there yet are the complement of the previous ones. */
  function TornSize(m: nat, prev: T.u10, size: T.u10): nat {
    if m < 3 then 0x3ff - prev else 256 * (size / 256) + (255 - prev % 256)
  }

  function Mixed(x: bv10, y: bv10): bv10 { (x & 0x300) | ((y & 0xff) ^ 0xff) }

  function High(x: bv10): bv10 { x & 0x300 }

  function Low(x: bv10): bv10 { x & 0xff }

  function Flip(x: bv10): bv10 { x ^ 0xff }

  function Number(x: bv10): nat { x as nat }

  /** A number of ten bits is its two high bits and its eight low ones. */
  lemma Split(x: bv10)
    ensures x == High(x) + Low(x) && Low(x) < 0x100
    ensures High(x) == 0 || High(x) == 0x100 || High(x) == 0x200 || High(x) == 0x300
  {}

  lemma Sum(h: bv10, l: bv10)
    requires l < 0x100 && (h == 0 || h == 0x100 || h == 0x200 || h == 0x300)
    ensures Number(h + l) == Number(h) + Number(l) && Number(l) < 256 && Number(h) in {0, 256, 512, 768}
  {}

  lemma Flipped(y: bv10)
    requires y < 0x100
    ensures Number(Flip(y)) == 255 - Number(y) && Flip(y) < 0x100
  {}

  lemma MixedSum(x: bv10, y: bv10)
    ensures Mixed(x, y) == High(x) + Flip(Low(y))
  {}

  lemma Digits(h: nat, l: nat)
    requires h in {0, 256, 512, 768} && l < 256
    ensures 256 * ((h + l) / 256) == h && (h + l) % 256 == l
  {}

  lemma Parts(x: bv10)
    ensures Number(x) == Number(High(x)) + Number(Low(x)) && Number(Low(x)) < 256 && Number(High(x)) in {0, 256, 512, 768}
  {
    hide Number, High, Low;
    Split(x);
    Sum(High(x), Low(x));
  }

  lemma MixedParts(x: bv10, y: bv10)
    ensures Number(Mixed(x, y)) == Number(High(x)) + (255 - Number(Low(y)))
  {
    hide Number, High, Low, Mixed, Flip;
    Split(x);
    Split(y);
    Flipped(Low(y));
    MixedSum(x, y);
    Sum(High(x), Flip(Low(y)));
  }

  lemma MixedNumber(x: bv10, y: bv10)
    ensures Number(Mixed(x, y)) == 256 * (Number(x) / 256) + (255 - Number(y) % 256)
  {
    hide Number, High, Low, Mixed;
    Parts(x);
    Parts(y);
    MixedParts(x, y);
    Digits(Number(High(x)), Number(Low(x)));
    Digits(Number(High(y)), Number(Low(y)));
  }

  lemma Word3(s: seq<byte>, w: bv32, p: bv32)
    requires |s| == 4 && s[..3] == ToBe32(Xor(w, p))[..3] && s[3] == ERASED
    ensures (Xor(FromBe32(s), p) & 0x3ff) as bv10 == Mixed((w & 0x3ff) as bv10, (p & 0x3ff) as bv10)
  {
    assert s[0] == s[..3][0] && s[1] == s[..3][1] && s[2] == s[..3][2];
  }

  lemma Word2(s: seq<byte>, p: bv32)
    requires |s| == 4 && s[2] == ERASED && s[3] == ERASED
    ensures (Xor(FromBe32(s), p) & 0x3ff) as bv10 == Not((p & 0x3ff) as bv10)
  {}

  function Not(x: bv10): bv10 { x ^ 0x3ff }

  lemma Complement(x: bv10)
    ensures Number(Not(x)) == 0x3ff - Number(x)
  {}

  lemma SizeBits(w: bv32)
    ensures T.FromWord(w).size == Number((w & 0x3ff) as bv10)
  {}

  /** The tag read where only `m` bytes of one were programmed. */
  lemma TornLength(blk: seq<byte>, off: nat, p: bv32, e: Entry, s: seq<byte>)
    requires Holds(blk, off, s) && 1 <= |s| <= 3 && s <= Chain.EncEntry(e, p) && off + 4 <= |blk|
    ensures T.FromWord(TagWord(blk, off, p)).size == TornSize(|s|, T.FromWord(p).size, e.tag.size)
  {
    hide T.FromWord, T.ToWord, Holds, ToBe32, FromBe32, Xor, Mixed, Not, Number;
    var r, w := blk[off..off + 4], T.ToWord(e.tag);
    forall i | 0 <= i < 4 ensures r[i] == if i < |s| then s[i] else ERASED {
      HoldsAt(blk, off, s, i);
    }
    SizeBits(p);
    SizeBits(TagWord(blk, off, p));
    if |s| < 3 {
      Word2(r, p);
      Complement((p & 0x3ff) as bv10);
    } else {
      assert r[..3] == s == Chain.EncEntry(e, p)[..3] == ToBe32(Xor(w, p))[..3];
      Word3(r, w, p);
      MixedNumber((w & 0x3ff) as bv10, (p & 0x3ff) as bv10);
      SizeBits(w);
      T.WordRoundTrip(e.tag);
    }
  }

  /** One to three bytes of a first tag behind a commit: the flash is not erased, and a mount takes it for erased exactly
      if the length it then reads would leave the block. */
  lemma FlagLies(p: Pair, es: seq<Entry>, m: nat, prog: nat)
    requires prog > 0 && Good(p) && Tried(p, es, m) && 1 <= m <= 3 && es != []
    requires var f := ScanBlock(p.cur); T.IsValid(f.etag) && f.off + 4 <= |p.cur| && f.off % prog == 0
    ensures var f, q := ScanBlock(p.cur), Refuse(p, es, m);
            && ScanBlock(q.cur) == f && !Holds(q.cur, f.off, [])
            && var size := TornSize(m, T.FromWord(f.etag).size, es[0].tag.size);
               Erased(q.cur, prog) <==> size < 0x3ff && f.off + 4 + size > |p.cur|
  {
    hide ScanBlock, Newest, SoundLog, T.IsValid, T.FromWord, Chain.Enc, NoCrc, TagWord, TornSize, Written,
         Chain.EncEntry;
    var f, q := ScanBlock(p.cur), Refuse(p, es, m);
    RefusedSound(p, es, m);
    var s := Chain.Enc(es, f.etag)[..m];
    ProgramHolds(p.cur, f.off, s);
    EncTail(es, f.etag);
    PrefixSplit(s, Chain.EncEntry(es[0], f.etag), Chain.Enc(es[1..], Chain.NextPtag(es[0].tag)));
    TornLength(q.cur, f.off, f.etag, es[0], s);
    TornTag(q.cur, f.off, f.etag, es[0], s);
  }
}
