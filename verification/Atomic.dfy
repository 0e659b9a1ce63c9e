/** Commits and compactions of a metadata pair are atomic: complete ones are read back, interrupted ones leave the old state. */
module Atomic {
  import opened Words
  import opened Log
  import opened Chain
  import opened Fetch
  import opened Crash
  import opened Commit
  import Crc
  import T = Tag

  // ---------- A complete commit is read back ----------

  /** Whole attributes are taken up one after the other. */
  lemma {:induction false} ScanAttrs(blk: seq<byte>, off: nat, p: bv32, crc: bv32, pend: seq<Entry>, best: Found, es: seq<Entry>)
    requires NoCrc(es) && AllWritten(es)
    requires off + |Enc(es, p)| <= |blk| && blk[off..off + |Enc(es, p)|] == Enc(es, p)
    ensures Scan(blk, off, p, crc, pend, best) ==
            Scan(blk, off + |Enc(es, p)|, LastPtag(es, p), Crc.Crc32(crc, Enc(es, p)), pend + es, best)
    decreases es
  {
    hide Scan, EncEntry, NextPtag, Crc.Crc32, Enc, Written, T.Dsize;
    if es == [] {
      EncNothing(p);
      EmptyCrc(crc, Enc(es, p));
      assert pend + es == pend;
    } else {
      var e, rest := es[0], es[1..];
      EncTail(es, p);
      var a, b := EncEntry(e, p), Enc(rest, NextPtag(e.tag));
      var n := off + |Enc(es, p)|;
      SubSlice(blk, off, n, 0, |a|);
      SubSlice(blk, off, n, |a|, |a| + |b|);
      ScanAttr(blk, off, p, crc, pend, best, e);
      ScanAttrs(blk, off + |a|, NextPtag(e.tag), Crc.Crc32(crc, a), pend + [e], best, rest);
      Crc.CrcAppend(crc, a, b);
      LastPtagTail(es, p);
      assert pend + [e] + rest == pend + es;
    }
  }

  lemma LastPtagTail(es: seq<Entry>, p: bv32)
    requires es != []
    ensures LastPtag(es, p) == LastPtag(es[1..], NextPtag(es[0].tag))
  {}

  /** A whole entry reads as it was written. */
  lemma EntryReads(blk: seq<byte>, off: nat, p: bv32, e: Entry)
    requires |e.data| == T.Dsize(e.tag) - 4 && off + T.Dsize(e.tag) <= |blk|
    requires blk[off..off + T.Dsize(e.tag)] == EncEntry(e, p)
    ensures !Stops(blk, off, p) && TagWord(blk, off, p) == T.ToWord(e.tag) && T.FromWord(T.ToWord(e.tag)) == e.tag
    ensures EntryAt(blk, off, e.tag) == e
    ensures blk[off..off + 4] == ToBe32(Xor(T.ToWord(e.tag), p))
    ensures |e.data| >= 4 ==> blk[off + 4..off + 8] == e.data[..4]
  {
    hide T.FromWord, T.ToWord, T.IsValid, Xor, ToBe32, FromBe32;
    var n := T.Dsize(e.tag);
    SubSlice(blk, off, off + n, 0, 4);
    SubSlice(blk, off, off + n, 4, n);
    assert EncEntry(e, p)[..4] == ToBe32(Xor(T.ToWord(e.tag), p)) && EncEntry(e, p)[4..] == e.data;
    Forward(T.ToWord(e.tag), p);
    T.WordRoundTrip(e.tag);
    if |e.data| >= 4 {
      SubSlice(blk, off, off + n, 4, 8);
      assert EncEntry(e, p)[4..8] == EncEntry(e, p)[4..][..4];
    }
  }

  /** A whole checksum entry commits everything pending. */
  lemma ScanCrcEntry(blk: seq<byte>, off: nat, p: bv32, crc: bv32, pend: seq<Entry>, best: Found, e: Entry)
    requires e.tag.kind.Crc? && |e.data| == T.Dsize(e.tag) - 4 >= 4 && off + T.Dsize(e.tag) <= |blk|
    requires blk[off..off + T.Dsize(e.tag)] == EncEntry(e, p)
    requires e.data[..4] == ToLe32(Crc.Crc32(crc, ToBe32(Xor(T.ToWord(e.tag), p))))
    ensures var next := off + T.Dsize(e.tag);
            Scan(blk, off, p, crc, pend, best) ==
            Scan(blk, next, NextPtag(e.tag), T.NULL, [], Found(best.log + pend + [e], next, NextPtag(e.tag)))
  {
    hide T.FromWord, T.ToWord, T.Dsize, Stops, TagWord, EntryAt, Xor, ToBe32, Crc.Crc32, ToLe32, FromLe32, EncEntry;
    EntryReads(blk, off, p, e);
    Le32RoundTrip(Crc.Crc32(crc, ToBe32(Xor(T.ToWord(e.tag), p))));
    assert CrcMatches(blk, off, crc);
    assert AfterCrc(T.ToWord(e.tag), e.tag) == NextPtag(e.tag);
  }

  /** All checksum entries of a commit are taken up, the first one committing what is pending. */
  lemma {:induction false} ScanFooters(blk: seq<byte>, off: nat, end: nat, blk0: seq<byte>, p: bv32, crc: bv32,
                                       pend: seq<Entry>, best: Found)
    requires off + 8 <= end <= |blk| == |blk0| && Footed(blk, off, end, blk0, p, crc)
    ensures var fs := Footers(blk0, off, end, p, crc);
            Scan(blk, off, p, crc, pend, best) ==
            Scan(blk, end, LastPtag(fs, p), T.NULL, [], Found(best.log + pend + fs, end, LastPtag(fs, p)))
    decreases end - off
  {
    hide Scan, Footed, Footer, Footers, FooterTag, NextPtag, NextOff, EncEntry, Crc.Crc32, LastPtag, T.Dsize;
    var e, n := Footer(blk0, off, end, p, crc), NextOff(off + 4, end);
    var q := NextPtag(FooterTag(blk0, off, end));
    var fs, rest := Footers(blk0, off, end, p, crc), Footers(blk0, n, end, q, T.NULL);
    ScanFirstFooter(blk, off, end, blk0, p, crc, pend, best);
    FooterHasTag(blk0, off, end, p, crc);
    FootersStep(blk0, off, end, p, crc);
    LastPtagTail(fs, p);
    if n == end {
      NoFooters(blk0, end, q);
      assert fs == [e];
    } else {
      ScanFooters(blk, n, end, blk0, q, T.NULL, [], Found(best.log + pend + [e], n, q));
      assert best.log + pend + [e] + [] + rest == best.log + pend + ([e] + rest);
    }
  }

  lemma ScanFirstFooter(blk: seq<byte>, off: nat, end: nat, blk0: seq<byte>, p: bv32, crc: bv32,
                        pend: seq<Entry>, best: Found)
    requires off + 8 <= end <= |blk| == |blk0| && Footed(blk, off, end, blk0, p, crc)
    ensures var e, n := Footer(blk0, off, end, p, crc), NextOff(off + 4, end);
            var q := NextPtag(FooterTag(blk0, off, end));
            && Scan(blk, off, p, crc, pend, best) == Scan(blk, n, q, T.NULL, [], Found(best.log + pend + [e], n, q))
            && (n == end || n + 8 <= end) && off < n
            && Footed(blk, n, end, blk0, q, T.NULL)
  {
    hide Scan, Footed, Footer, FooterTag, NextPtag, NextOff, EncEntry, Crc.Crc32, T.Dsize;
    FooterShape(blk0, off, end, p, crc);
    FooterHasTag(blk0, off, end, p, crc);
    FooterInPlace(blk, off, end, blk0, p, crc);
    FootedSplit(blk, off, end, blk0, p, crc);
    ScanCrcEntry(blk, off, p, crc, pend, best, Footer(blk0, off, end, p, crc));
  }

  lemma FootersStep(blk0: seq<byte>, off: nat, end: nat, p: bv32, crc: bv32)
    requires off + 8 <= end <= |blk0|
    ensures var fs, e := Footers(blk0, off, end, p, crc), Footer(blk0, off, end, p, crc);
            var rest := Footers(blk0, NextOff(off + 4, end), end, NextPtag(FooterTag(blk0, off, end)), T.NULL);
            fs == [e] + rest && fs[0] == e && fs[1..] == rest
  {}

  lemma NoFooters(blk0: seq<byte>, end: nat, p: bv32)
    requires end <= |blk0|
    ensures Footers(blk0, end, end, p, T.NULL) == [] && LastPtag([], p) == p
  {}

  lemma FooterInPlace(blk: seq<byte>, off: nat, end: nat, blk0: seq<byte>, p: bv32, crc: bv32)
    requires off + 8 <= end <= |blk| == |blk0| && Footed(blk, off, end, blk0, p, crc)
    ensures var e := Footer(blk0, off, end, p, crc);
            && off + T.Dsize(e.tag) <= end && |e.data| >= 4
            && blk[off..off + T.Dsize(e.tag)] == EncEntry(e, p)
            && e.data[..4] == ToLe32(Crc.Crc32(crc, ToBe32(Xor(T.ToWord(e.tag), p))))
  {
    hide FooterTag, NextPtag, NextOff, EncEntry, Crc.Crc32, Enc, ToLe32, ToBe32, T.ToWord, Xor;
    var e, n := Footer(blk0, off, end, p, crc), NextOff(off + 4, end);
    NextOffBounds(off + 4, end);
    FooterShape(blk0, off, end, p, crc);
    EncCons(e, Footers(blk0, n, end, NextPtag(FooterTag(blk0, off, end)), T.NULL), p);
    SubSlice(blk, off, end, 0, T.Dsize(e.tag));
  }

  // ---------- What follows a commit ----------

  lemma ErasedBits(s: seq<byte>, p: bv32)
    requires |s| == 4
    ensures !T.IsValid(Xor(FromBe32(s), p)) <==> (s[0] & 0x80 == 0) != T.IsValid(p)
  {}

  lemma ResetBit(t: T.Tag)
    requires t.kind.Crc? && t.chunk <= 1
    ensures T.IsValid(NextPtag(t)) <==> t.chunk == 0
  {}

  /** The last checksum tag makes the next word invalid, whatever the erased word holds. */
  lemma {:induction false} ErasedWordInvalid(blk: seq<byte>, off: nat, end: nat, blk0: seq<byte>, p: bv32, crc: bv32)
    requires off + 8 <= end <= |blk| == |blk0| && blk[end..] == blk0[end..]
    ensures Stops(blk, end, LastPtag(Footers(blk0, off, end, p, crc), p))
    decreases end - off
  {
    hide FooterTag, Footer, NextPtag, NextOff, T.IsValid, T.FromWord, Xor, FromBe32, Footers;
    var n, t := NextOff(off + 4, end), FooterTag(blk0, off, end);
    FooterShape(blk0, off, end, p, crc);
    FooterHasTag(blk0, off, end, p, crc);
    FootersStep(blk0, off, end, p, crc);
    LastPtagTail(Footers(blk0, off, end, p, crc), p);
    if n == end {
      NoFooters(blk0, end, NextPtag(t));
      LastReset(blk0, off, end);
      ResetBit(t);
      if end + 4 <= |blk| {
        assert blk[end] == blk[end..][0] == blk0[end];
        ErasedBits(blk[end..end + 4], NextPtag(t));
      }
    } else {
      ErasedWordInvalid(blk, n, end, blk0, NextPtag(t), T.NULL);
    }
  }

  lemma LastReset(blk: seq<byte>, off: nat, end: nat)
    requires off + 8 <= end <= |blk|
    ensures var t, n := FooterTag(blk, off, end), NextOff(off + 4, end);
            t.kind.Crc? && t.chunk <= 1 && (t.chunk == 1 <==> NeedsReset(blk, n))
  {}

  // ---------- One block ----------

  ghost predicate Fits(blk: seq<byte>, off: nat, p: bv32, es: seq<Entry>, end: nat) {
    off + |Enc(es, p)| + 8 <= end <= |blk| && NoCrc(es) && AllWritten(es)
  }

  lemma CommitLength(blk: seq<byte>, off: nat, p: bv32, crc: bv32, es: seq<Entry>, end: nat)
    requires Fits(blk, off, p, es, end)
    ensures off + |CommitBytes(blk, off, p, crc, es, end)| == end
    ensures var fs, q := Seal(blk, off, p, crc, es, end), LastPtag(es, p);
            CommitBytes(blk, off, p, crc, es, end) == Enc(es, p) + Enc(fs, q) && |Enc(fs, q)| == end - off - |Enc(es, p)|
  {
    hide Enc, LastPtag, Seal, CommitBytes;
    Sealed(blk, off, p, crc, es, end, Enc(es, p));
  }

  /** A complete commit is found with all its entries, and nothing after it is. */
  lemma WholeCommit(blk: seq<byte>, off: nat, p: bv32, crc: bv32, es: seq<Entry>, end: nat, best: Found)
    requires Fits(blk, off, p, es, end)
    ensures off + |CommitBytes(blk, off, p, crc, es, end)| == end
    ensures var fs, nb := Seal(blk, off, p, crc, es, end), Program(blk, off, CommitBytes(blk, off, p, crc, es, end));
            && Scan(nb, off, p, crc, [], best) == Found(best.log + es + fs, end, LastPtag(es + fs, p))
            && Stops(nb, end, LastPtag(es + fs, p))
  {
    hide Enc, LastPtag, Footers, Scan, Stops, NoCrc, AllWritten, Crc.Crc32;
    CommitLength(blk, off, p, crc, es, end);
    var fs, q, c := Seal(blk, off, p, crc, es, end), LastPtag(es, p), Crc.Crc32(crc, Enc(es, p));
    var a, b := Enc(es, p), Enc(fs, q);
    var at, nb := off + |a|, Program(blk, off, a + b);
    ProgramReads(blk, off, a + b);
    SubSlice(nb, off, end, 0, |a|);
    SubSlice(nb, off, end, |a|, |a| + |b|);
    ScanAttrs(nb, off, p, crc, [], best, es);
    assert [] + es == es;
    ScanFooters(nb, at, end, blk, q, c, es, best);
    ErasedWordInvalid(nb, at, end, blk, q, c);
    EncAppend(es, fs, p);
    StopsScan(nb, end, LastPtag(fs, q), T.NULL, [], Found(best.log + es + fs, end, LastPtag(fs, q)));
  }

  lemma StopsScan(blk: seq<byte>, off: nat, p: bv32, crc: bv32, pend: seq<Entry>, best: Found)
    requires Stops(blk, off, p)
    ensures Scan(blk, off, p, crc, pend, best) == best
  {}

  /** On erased flash the checksum entries leave the padding erased. */
  lemma {:induction false} FootersWritten(blk: seq<byte>, off: nat, end: nat, p: bv32, crc: bv32)
    requires off <= end <= |blk| && Holds(blk, off, [])
    ensures AllCrc(Footers(blk, off, end, p, crc)) && AllWritten(Footers(blk, off, end, p, crc))
    decreases end - off
  {
    hide Footers, FooterTag, NextPtag, NextOff, Holds, Written;
    if off + 8 <= end {
      var n := NextOff(off + 4, end);
      NextOffBounds(off + 4, end);
      FootersStep(blk, off, end, p, crc);
      FooterShape(blk, off, end, p, crc);
      HoldsAfter(blk, off, [], n - off);
      FootersWritten(blk, n, end, NextPtag(FooterTag(blk, off, end)), T.NULL);
      FooterBlank(blk, off, end, p, crc);
    } else {
      FootersNone(blk, off, end, p, crc);
    }
  }

  lemma FootersNone(blk: seq<byte>, off: nat, end: nat, p: bv32, crc: bv32)
    requires end <= |blk| && off + 8 > end
    ensures Footers(blk, off, end, p, crc) == []
  {}

  lemma FooterBlank(blk: seq<byte>, off: nat, end: nat, p: bv32, crc: bv32)
    requires off + 8 <= end <= |blk| && Holds(blk, off, [])
    ensures Written(Footer(blk, off, end, p, crc))
  {
    hide Holds, FooterTag, FooterCrc, ToLe32;
    var e, n := Footer(blk, off, end, p, crc), NextOff(off + 4, end);
    FooterShape(blk, off, end, p, crc);
    NextOffBounds(off + 4, end);
    var pad := blk[off + 8..n];
    forall i | 0 <= i < |pad| ensures pad[i] == ERASED {
      HoldsAt(blk, off, [], 8 + i);
    }
    assert e.data[4..] == pad == Blank(|e.data| - 4);
  }

  /** A commit cut off after any number of bytes is all or nothing. */
  lemma TornCommit(blk: seq<byte>, off: nat, p: bv32, crc: bv32, es: seq<Entry>, end: nat, best: Found, s: seq<byte>)
    requires Fits(blk, off, p, es, end) && Holds(blk, off, []) && Ready(p, crc, []) && SoundLog(best.log)
    requires s <= CommitBytes(blk, off, p, crc, es, end)
    ensures off + |s| <= |blk|
    ensures var b := Program(blk, off, s);
            var found := Scan(b, off, p, crc, [], best);
            && AllOrNothing(found, best, es) && TornShape(b, found, best, off + |s|)
            && Residue(b, Found(best.log, off, p), off + |s|)
  {
    hide Enc, LastPtag, Footers, Scan, Crc.Crc32, Written, AllOrNothing, T.IsValid, SoundLog, TornShape, Residue;
    CommitLength(blk, off, p, crc, es, end);
    var fs, at := Seal(blk, off, p, crc, es, end), off + |Enc(es, p)|;
    HoldsAfter(blk, off, [], |Enc(es, p)|);
    FootersWritten(blk, at, end, LastPtag(es, p), Crc.Crc32(crc, Enc(es, p)));
    ProgramHolds(blk, off, s);
    TornScan(Program(blk, off, s), off, p, crc, [], best, es, fs, s);
    FirstTag(Program(blk, off, s), Found(best.log, off, p), es + fs, s);
    assert [] + es == es;
  }

  /** Attributes programmed without a checksum behind them change nothing. */
  lemma TornAttrs(blk: seq<byte>, off: nat, p: bv32, crc: bv32, es: seq<Entry>, best: Found, s: seq<byte>)
    requires NoCrc(es) && AllWritten(es) && off + |Enc(es, p)| <= |blk|
    requires Holds(blk, off, []) && Ready(p, crc, []) && SoundLog(best.log) && s <= Enc(es, p)
    ensures var b := Program(blk, off, s);
            Scan(b, off, p, crc, [], best) == best && Residue(b, Found(best.log, off, p), off + |s|)
  {
    hide Enc, Scan, Crc.Crc32, Written, T.IsValid, SoundLog, Residue;
    ProgramHolds(blk, off, s);
    assert es + [] == es;
    TornScan(Program(blk, off, s), off, p, crc, [], best, es, [], s);
    FirstTag(Program(blk, off, s), Found(best.log, off, p), es, s);
  }

  lemma ProgramHolds(blk: seq<byte>, off: nat, s: seq<byte>)
    requires Holds(blk, off, []) && off + |s| <= |blk|
    ensures Holds(Program(blk, off, s), off, s)
  {}
}
