/** lfs_dir_fetch: scanning a metadata block for its commits, and choosing between the two blocks of a pair. */
module Fetch {
  import opened Options
  import opened Words
  import opened Log
  import opened Chain
  import Crc
  import T = Tag

  /** The newest good commit of a block: every entry up to it, where it ends, and the tag the next one is chained to. */
  datatype Found = Found(log: seq<Entry>, off: nat, etag: bv32)

  const NOTHING := Found([], 0, T.NULL)

  /** The tag stored at `off`, chained to `ptag`. */
  function TagWord(blk: seq<byte>, off: nat, ptag: bv32): bv32
    requires off + 4 <= |blk|
  {
    Xor(FromBe32(blk[off..off + 4]), ptag)
  }

  function EntryAt(blk: seq<byte>, off: nat, t: T.Tag): Entry
    requires off + T.Dsize(t) <= |blk|
  {
    Entry(t, blk[off + 4..off + T.Dsize(t)])
  }

  /** The word the tag after a CRC tag is chained to. */
  function AfterCrc(w: bv32, t: T.Tag): bv32 {
    if t.chunk & 1 == 1 then w ^ 0x8000_0000 else w
  }

  /** The checksum of the commit up to and including the tag at `off`. */
  function TagCrc(blk: seq<byte>, off: nat, crc: bv32): bv32
    requires off + 4 <= |blk|
  {
    Crc.Crc32(crc, blk[off..off + 4])
  }

  /** Nothing readable at `off`: the block ends, or the tag is invalid or too long. */
  predicate Stops(blk: seq<byte>, off: nat, ptag: bv32) {
    off + 4 > |blk| ||
    var w := TagWord(blk, off, ptag);
    !T.IsValid(w) || off + T.Dsize(T.FromWord(w)) > |blk|
  }

  /** The CRC entry at `off` carries the checksum of what came before it. */
  predicate CrcMatches(blk: seq<byte>, off: nat, crc: bv32) {
    off + 8 <= |blk| && FromLe32(blk[off + 4..off + 8]) == TagCrc(blk, off, crc)
  }

  /** The scan loop from the tag at `off`: `pend` are the entries since the last good commit, `best` is that commit. */
  function Scan(blk: seq<byte>, off: nat, ptag: bv32, crc: bv32, pend: seq<Entry>, best: Found): Found
    decreases |blk| - off
  {
    if Stops(blk, off, ptag) then best
    else
      var w := TagWord(blk, off, ptag);
      var t := T.FromWord(w);
      var e, next := EntryAt(blk, off, t), off + T.Dsize(t);
      if t.kind.Crc? then
        if !CrcMatches(blk, off, crc) then best
        else Scan(blk, next, AfterCrc(w, t), T.NULL, [], Found(best.log + pend + [e], next, AfterCrc(w, t)))
      else if t.kind.Tail? && off + 12 > |blk| then best
      else Scan(blk, next, w, Crc.Crc32(crc, blk[off..next]), pend + [e], best)
  }

  /** The erased flag a fetch reports: the word right behind the last commit is readable and invalid, and the commit
      ends on a program unit. */
  predicate Erased(blk: seq<byte>, prog: nat)
    requires |blk| >= 4 && prog > 0
  {
    var f := ScanBlock(blk);
    0 < f.off && f.off + 4 <= |blk| && f.off % prog == 0 && Stops(blk, f.off, f.etag)
  }

  /** Where the scan stands: right behind a commit, at the start, or inside entries that are not committed yet. */
  ghost predicate At(blk: seq<byte>, at: nat, ptag: bv32, pend: seq<Entry>, found: Found) {
    if pend != [] then !T.FromWord(ptag).kind.Crc? && (found.off > 0 ==> !Stops(blk, found.off, found.etag))
    else if found.off == 0 then !T.FromWord(ptag).kind.Crc?
    else at == found.off && ptag == found.etag && T.FromWord(ptag).kind.Crc?
  }

  /** The scan of lfs_dir_fetchmatch over one block; a commit found so far survives whatever stops the loop. */
  method FetchBlock(blk: seq<byte>, prog: nat) returns (off: nat, etag: bv32, count: int, erased: bool)
    requires |blk| >= 4 && prog > 0
    ensures var found := ScanBlock(blk);
            off == found.off && etag == found.etag && count == Count(found.log)
    ensures erased == Erased(blk, prog)
  {
    hide Crc.Crc32, Crc.BitCrc, T.FromWord, T.IsValid, TagWord, EntryAt, AfterCrc, CrcMatches, ScanBlock, Scan, Count,
         CountStep;
    StartScan(blk);
    off, etag, count, erased := 0, T.NULL, 0, false;
    ghost var found := NOTHING;
    var at, ptag, tempcount := 4, T.NULL, 0;
    var crc := Crc.LfsCrc(T.NULL, blk[..4]);
    Crc.TableMatchesBits(T.NULL, blk[..4]);
    ghost var pend: seq<Entry> := [];
    NullKind();
    assert found.log + pend == [];
    while !Stops(blk, at, ptag)
      invariant ScanBlock(blk) == Scan(blk, at, ptag, crc, pend, found)
      invariant off == found.off && etag == found.etag && count == Count(found.log)
      invariant tempcount == Count(found.log + pend) && !erased && At(blk, at, ptag, pend, found)
      decreases |blk| - at
    {
      var w := TagWord(blk, at, ptag);
      var t := T.FromWord(w);
      ghost var e := EntryAt(blk, at, t);
      EntryTag(blk, at, t);
      CountSnoc(found.log, pend, e, t);
      ScanStep(blk, at, ptag, crc, pend, found);
      if t.kind.Crc? {
        if !CrcMatches(blk, at, crc) {
          return;
        }
        at := at + T.Dsize(t);
        CrcKind(w);
        ptag, crc := AfterCrc(w, t), T.NULL;
        off, etag, count := at, ptag, tempcount;
        found, pend := Found(found.log + pend + [e], at, ptag), [];
        assert found.log + pend == found.log;
      } else if t.kind.Tail? && at + 12 > |blk| {
        return;
      } else {
        var sum := Crc.LfsCrc(crc, blk[at..at + T.Dsize(t)]);
        Crc.TableMatchesBits(crc, blk[at..at + T.Dsize(t)]);
        tempcount := CountStep(tempcount, t);
        at, ptag, crc := at + T.Dsize(t), w, sum;
        assert found.log + pend + [e] == found.log + (pend + [e]);
        pend := pend + [e];
      }
    }
    ScanEnd(blk, at, ptag, crc, pend, found);
    erased := at + 4 <= |blk| && T.FromWord(ptag).kind.Crc? && off % prog == 0;
  }

  lemma NullKind()
    ensures !T.FromWord(T.NULL).kind.Crc?
  {}

  lemma CrcKind(w: bv32)
    ensures T.FromWord(AfterCrc(w, T.FromWord(w))) == T.FromWord(w)
  {}

  lemma ScanEnd(blk: seq<byte>, off: nat, ptag: bv32, crc: bv32, pend: seq<Entry>, best: Found)
    requires Stops(blk, off, ptag)
    ensures Scan(blk, off, ptag, crc, pend, best) == best
  {}

  /** One round of the scan. */
  lemma ScanStep(blk: seq<byte>, off: nat, ptag: bv32, crc: bv32, pend: seq<Entry>, best: Found)
    requires !Stops(blk, off, ptag)
    ensures var w := TagWord(blk, off, ptag); var t := T.FromWord(w);
            var next := off + T.Dsize(t);
            && next <= |blk|
            && var e := EntryAt(blk, off, t);
               Scan(blk, off, ptag, crc, pend, best) ==
               if t.kind.Crc? then
                 if !CrcMatches(blk, off, crc) then best
                 else Scan(blk, next, AfterCrc(w, t), T.NULL, [], Found(best.log + pend + [e], next, AfterCrc(w, t)))
               else if t.kind.Tail? && off + 12 > |blk| then best
               else Scan(blk, next, w, Crc.Crc32(crc, blk[off..next]), pend + [e], best)
  {
    hide Crc.Crc32, T.FromWord, TagWord, EntryAt, AfterCrc, CrcMatches;
  }

  lemma StartScan(blk: seq<byte>)
    requires |blk| >= 4
    ensures ScanBlock(blk) == Scan(blk, 4, T.NULL, Crc.Crc32(T.NULL, blk[..4]), [], NOTHING)
    ensures Count([]) == 0
  {}

  lemma EntryTag(blk: seq<byte>, off: nat, t: T.Tag)
    requires off + T.Dsize(t) <= |blk|
    ensures EntryAt(blk, off, t).tag == t
  {}

  lemma CountSnoc(log: seq<Entry>, pend: seq<Entry>, e: Entry, t: T.Tag)
    requires e.tag == t
    ensures Count(log + pend + [e]) == CountStep(Count(log + pend), t)
    ensures t.kind.Crc? ==> Count(log + pend + [e]) == Count(log + pend)
  {}

  /** Scanning a block from its revision count. */
  function ScanBlock(blk: seq<byte>): Found
    requires |blk| >= 4
  {
    Scan(blk, 4, T.NULL, Crc.Crc32(T.NULL, blk[..4]), [], NOTHING)
  }

  // ---------- What a scan finds is the chain on disk ----------

  ghost predicate Backed(blk: seq<byte>, found: Found) {
    || found.off == 0
    || (OnDisk(blk, found.log) && found.off == 4 + |Enc(found.log, T.NULL)| && found.etag == LastPtag(found.log, T.NULL))
  }

  /** Encoding the entry that was read gives the bytes it was read from. */
  lemma EntryEncodes(blk: seq<byte>, off: nat, p: bv32)
    requires !Stops(blk, off, p)
    ensures var t := T.FromWord(TagWord(blk, off, p));
            && off + T.Dsize(t) <= |blk| && EncEntry(EntryAt(blk, off, t), p) == blk[off..off + T.Dsize(t)]
            && NextPtag(t) == if t.kind.Crc? then AfterCrc(TagWord(blk, off, p), t) else TagWord(blk, off, p)
  {
    hide T.FromWord, T.ToWord, FromBe32, ToBe32, Xor, T.IsValid, T.Masked, T.Dsize, NextPtag, AfterCrc;
    var w := TagWord(blk, off, p);
    var t := T.FromWord(w);
    T.FieldsRoundTrip(w);
    ValidMasked(w);
    NextWord(w, t);
    XorTwice(FromBe32(blk[off..off + 4]), p);
    assert blk[off..off + T.Dsize(t)] == blk[off..off + 4] + blk[off + 4..off + T.Dsize(t)];
  }

  lemma NextWord(w: bv32, t: T.Tag)
    requires T.ToWord(t) == w
    ensures NextPtag(t) == if t.kind.Crc? then AfterCrc(w, t) else w
  {
    hide T.ToWord;
  }

  lemma ValidMasked(w: bv32)
    requires T.IsValid(w)
    ensures T.Masked(w) == w
  {}

  lemma XorTwice(a: bv32, b: bv32)
    ensures Xor(Xor(a, b), b) == a
  {}

  lemma {:induction false} ScanBacked(blk: seq<byte>, off: nat, p: bv32, crc: bv32, pend: seq<Entry>, best: Found)
    requires 4 <= off <= |blk| && Backed(blk, best)
    requires blk[4..off] == Enc(best.log + pend, T.NULL) && p == LastPtag(best.log + pend, T.NULL)
    ensures Backed(blk, Scan(blk, off, p, crc, pend, best))
    decreases |blk| - off
  {
    hide TagWord, T.FromWord, T.IsValid, CrcMatches, Crc.Crc32, AfterCrc, T.Dsize, Stops, EntryAt, EncEntry, NextPtag,
         Enc, LastPtag;
    if !Stops(blk, off, p) {
      EntryEncodes(blk, off, p);
      var w := TagWord(blk, off, p);
      var t := T.FromWord(w);
      var e, next, all := EntryAt(blk, off, t), off + T.Dsize(t), best.log + pend;
      EntryTag(blk, off, t);
      EncSnoc(all, e);
      assert blk[4..next] == blk[4..off] + blk[off..next];
      if t.kind.Crc? {
        var q := AfterCrc(w, t);
        var more := Found(all + [e], next, q);
        assert more.log + [] == more.log;
        ScanBacked(blk, next, q, T.NULL, [], more);
      } else {
        assert all + [e] == best.log + (pend + [e]);
        ScanBacked(blk, next, w, Crc.Crc32(crc, blk[off..next]), pend + [e], best);
      }
    }
  }

  lemma EncSnoc(log: seq<Entry>, e: Entry)
    ensures Enc(log + [e], T.NULL) == Enc(log, T.NULL) + EncEntry(e, LastPtag(log, T.NULL))
    ensures LastPtag(log + [e], T.NULL) == NextPtag(e.tag)
  {}

  /** Every commit a scan finds is on disk as a chain of tags that ends where the scan says. */
  lemma FoundOnDisk(blk: seq<byte>)
    requires |blk| >= 4 && ScanBlock(blk).off > 0
    ensures var f := ScanBlock(blk);
            OnDisk(blk, f.log) && f.off == 4 + |Enc(f.log, T.NULL)| && f.etag == LastPtag(f.log, T.NULL)
  {
    hide Scan, Crc.Crc32, OnDisk;
    assert NOTHING.log + [] == [];
    ScanBacked(blk, 4, T.NULL, Crc.Crc32(T.NULL, blk[..4]), [], NOTHING);
  }

  function Rev(blk: seq<byte>): bv32
    requires |blk| >= 4
  {
    FromLe32(blk[..4])
  }

  /** lfs_scmp(a, b) > 0: `a` is ahead of `b` in the circular order of revisions. */
  predicate Newer(a: bv32, b: bv32) { 0 < a - b < 0x8000_0000 }

  /** The newer block is scanned first; the other one is used when it holds no commit. */
  function FetchPair(a: seq<byte>, b: seq<byte>): Option<Found>
    requires |a| >= 4 && |b| >= 4
  {
    var first, second := if Newer(Rev(b), Rev(a)) then b else a, if Newer(Rev(b), Rev(a)) then a else b;
    if ScanBlock(first).off > 0 then Some(ScanBlock(first))
    else if ScanBlock(second).off > 0 then Some(ScanBlock(second))
    else None
  }
}
