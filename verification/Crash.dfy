/** Power loss: a commit cut off after any number of programmed bytes is read back as all or nothing. */
module Crash {
  import opened Words
  import opened Log
  import opened Chain
  import opened Fetch
  import Crc
  import T = Tag

  /** The entries that say something about the directory: all but the checksums. */
  function Content(log: seq<Entry>): seq<Entry> {
    if log == [] then []
    else Content(log[..|log| - 1]) + if log[|log| - 1].tag.kind.Crc? then [] else [log[|log| - 1]]
  }

  lemma {:induction false} ContentAppend(a: seq<Entry>, b: seq<Entry>)
    ensures Content(a + b) == Content(a) + Content(b)
    decreases b
  {
    if b == [] {
      assert a + b == a;
    } else {
      assert (a + b)[..|a + b| - 1] == a + b[..|b| - 1];
      ContentAppend(a, b[..|b| - 1]);
    }
  }

  ghost predicate NoCrc(es: seq<Entry>) {
    forall i | 0 <= i < |es| :: !es[i].tag.kind.Crc?
  }

  ghost predicate AllCrc(es: seq<Entry>) {
    forall i | 0 <= i < |es| :: es[i].tag.kind.Crc?
  }

  lemma {:induction false} ContentOfPlain(es: seq<Entry>)
    requires NoCrc(es)
    ensures Content(es) == es
  {
    if es != [] {
      var n := |es| - 1;
      assert !es[n].tag.kind.Crc? && NoCrc(es[..n]);
      hide NoCrc;
      ContentOfPlain(es[..n]);
      assert es == es[..n] + [es[n]];
    }
  }

  /** From `off` on the block holds `s` and is erased after it. */
  ghost predicate Holds(blk: seq<byte>, off: nat, s: seq<byte>) {
    off + |s| <= |blk| && blk[off..] == s + Blank(|blk| - off - |s|)
  }

  lemma HoldsAt(blk: seq<byte>, off: nat, s: seq<byte>, i: nat)
    requires Holds(blk, off, s) && off + i < |blk|
    ensures blk[off + i] == if i < |s| then s[i] else ERASED
  {}

  /** Past an entry of `n` bytes the block holds what is left of `s`. */
  lemma HoldsAfter(blk: seq<byte>, off: nat, s: seq<byte>, n: nat)
    requires Holds(blk, off, s) && off + n <= |blk|
    ensures Holds(blk, off + n, if n <= |s| then s[n..] else [])
  {}

  // ---------- Erased bytes never make a commit ----------

  lemma BlankWord(blk: seq<byte>, off: nat)
    requires Holds(blk, off, []) && off + 4 <= |blk|
    ensures blk[off..off + 4] == [0xff, 0xff, 0xff, 0xff]
    ensures FromBe32(blk[off..off + 4]) == 0xffff_ffff
    ensures FromLe32(blk[off..off + 4]) == 0xffff_ffff
  {}

  /** After a valid tag an erased word reads as an invalid one. */
  lemma BlankStops(blk: seq<byte>, off: nat, p: bv32)
    requires Holds(blk, off, []) && T.IsValid(p)
    ensures Stops(blk, off, p)
  {}

  /** An erased checksum never matches an erased tag: the CRC of four 0xff bytes from 0xffffffff is 0. */
  lemma BlankNoCrc(blk: seq<byte>, off: nat)
    requires Holds(blk, off, [])
    ensures !CrcMatches(blk, off, T.NULL)
  {
    hide Holds, Crc.Crc32;
    if off + 8 <= |blk| {
      BlankWord(blk, off);
      HoldsAfter(blk, off, [], 4);
      BlankWord(blk, off + 4);
      Crc.OwnWord(T.NULL);
      NullBytes();
    }
  }

  lemma NullBytes()
    ensures ToLe32(T.NULL) == [0xff, 0xff, 0xff, 0xff]
  {}

  /** Whatever the chain holds, erased bytes after a commit add nothing. */
  lemma BlankAfterCommit(blk: seq<byte>, off: nat, p: bv32, best: Found)
    requires Holds(blk, off, [])
    ensures Scan(blk, off, p, T.NULL, [], best) == best
  {
    hide T.FromWord, CrcMatches, Holds, TagWord, EntryAt;
    if !Stops(blk, off, p) {
      var w := TagWord(blk, off, p);
      var t := T.FromWord(w);
      BlankNoCrc(blk, off);
      if !t.kind.Crc? {
        HoldsAfter(blk, off, [], T.Dsize(t));
        BlankStops(blk, off + T.Dsize(t), w);
      }
    }
  }

  /** The first tag of an erased block reads as an empty name, and then nothing follows. */
  lemma BlankStart(blk: seq<byte>, off: nat, crc: bv32, pend: seq<Entry>, best: Found)
    requires Holds(blk, off, [])
    ensures Scan(blk, off, T.NULL, crc, pend, best) == best
  {}

  // ---------- A tag that is there, wholly or in part ----------

  /** An entry as the code writes it: tails carry a pair, checksums at least the CRC and then erased padding. */
  ghost predicate Written(e: Entry) {
    && |e.data| == T.Dsize(e.tag) - 4
    && (e.tag.kind.Tail? ==> e.tag.size == 8)
    && (e.tag.kind.Crc? ==> |e.data| >= 4 && e.data[4..] == Blank(|e.data| - 4))
  }

  ghost predicate AllWritten(es: seq<Entry>) {
    forall i | 0 <= i < |es| :: Written(es[i])
  }

  /** One programmed byte fixes the valid bit and the kind. */
  lemma TornTag(blk: seq<byte>, off: nat, p: bv32, e: Entry, s: seq<byte>)
    requires Holds(blk, off, s) && s != [] && s <= EncEntry(e, p) && off + 4 <= |blk|
    ensures T.IsValid(TagWord(blk, off, p))
    ensures T.FromWord(TagWord(blk, off, p)).kind == e.tag.kind
  {}

  /** A whole tag reads as it was written. */
  lemma WholeTag(blk: seq<byte>, off: nat, p: bv32, e: Entry, s: seq<byte>)
    requires Holds(blk, off, s) && |s| >= 4 && s[..4] == ToBe32(Xor(T.ToWord(e.tag), p))
    ensures off + 4 <= |blk| && blk[off..off + 4] == s[..4]
    ensures TagWord(blk, off, p) == T.ToWord(e.tag)
    ensures T.FromWord(TagWord(blk, off, p)) == e.tag && T.IsValid(TagWord(blk, off, p))
  {
    hide ToBe32, FromBe32, T.ToWord, T.FromWord, T.IsValid, Xor, Holds;
    assert off + 4 <= |blk| by { HoldsLength(blk, off, s); }
    forall i | 0 <= i < 4 ensures blk[off + i] == s[i] {
      HoldsAt(blk, off, s, i);
    }
    assert blk[off..off + 4] == s[..4];
    Forward(T.ToWord(e.tag), p);
    T.WordRoundTrip(e.tag);
  }

  lemma HoldsLength(blk: seq<byte>, off: nat, s: seq<byte>)
    requires Holds(blk, off, s)
    ensures off + |s| <= |blk|
  {}

  /** An entry cut off inside: the scan stops before any commit. */
  lemma TornEntry(blk: seq<byte>, off: nat, p: bv32, crc: bv32, pend: seq<Entry>, best: Found, e: Entry, s: seq<byte>)
    requires Holds(blk, off, s) && s != [] && s <= EncEntry(e, p) && |s| < T.Dsize(e.tag)
    requires Written(e) && !e.tag.kind.Crc?
    ensures Scan(blk, off, p, crc, pend, best) == best
  {
    hide T.FromWord, Holds, TagWord, EntryAt, EncEntry, T.IsValid, Crc.Crc32, T.Dsize;
    if !Stops(blk, off, p) {
      TornTag(blk, off, p, e, s);
      var w := TagWord(blk, off, p);
      var t := T.FromWord(w);
      if |s| >= 4 {
        TagBytes(e, p, s);
        WholeTag(blk, off, p, e, s);
      }
      assert |s| < T.Dsize(t);
      HoldsAfter(blk, off, s, T.Dsize(t));
      BlankStops(blk, off + T.Dsize(t), w);
    }
  }

  lemma TagBytes(e: Entry, p: bv32, s: seq<byte>)
    requires s <= EncEntry(e, p) && |s| >= 4
    ensures s[..4] == ToBe32(Xor(T.ToWord(e.tag), p))
  {}

  // ---------- The scan of a commit cut off anywhere ----------

  /** The scan may start here: after a valid tag, at the start of a block, or right behind a commit. */
  ghost predicate Ready(p: bv32, crc: bv32, pend: seq<Entry>) {
    T.IsValid(p) || p == T.NULL || (crc == T.NULL && pend == [])
  }

  lemma NothingProgrammed(blk: seq<byte>, off: nat, p: bv32, crc: bv32, pend: seq<Entry>, best: Found)
    requires Holds(blk, off, []) && Ready(p, crc, pend)
    ensures Scan(blk, off, p, crc, pend, best) == best
  {
    hide Holds, T.IsValid, TagWord, CrcMatches, EntryAt;
    if T.IsValid(p) {
      BlankStops(blk, off, p);
    } else if p == T.NULL {
      BlankStart(blk, off, crc, pend, best);
    } else {
      BlankAfterCommit(blk, off, p, best);
    }
  }

  /** A whole attribute is taken up and the scan goes on behind it. */
  lemma ScanAttr(blk: seq<byte>, off: nat, p: bv32, crc: bv32, pend: seq<Entry>, best: Found, e: Entry)
    requires off + T.Dsize(e.tag) <= |blk| && Written(e) && !e.tag.kind.Crc?
    requires blk[off..off + T.Dsize(e.tag)] == EncEntry(e, p)
    ensures Scan(blk, off, p, crc, pend, best) ==
            Scan(blk, off + T.Dsize(e.tag), NextPtag(e.tag), Crc.Crc32(crc, EncEntry(e, p)), pend + [e], best)
  {
    hide T.FromWord, T.ToWord, T.IsValid, Xor, ToBe32, FromBe32, Crc.Crc32;
    var n := T.Dsize(e.tag);
    SubSlice(blk, off, off + n, 0, 4);
    SubSlice(blk, off, off + n, 4, n);
    assert EncEntry(e, p)[..4] == ToBe32(Xor(T.ToWord(e.tag), p)) && EncEntry(e, p)[4..] == e.data;
    Forward(T.ToWord(e.tag), p);
    T.WordRoundTrip(e.tag);
  }

  ghost predicate AllOrNothing(found: Found, best: Found, more: seq<Entry>) {
    found == best || Content(found.log) == Content(best.log) + more
  }

  /** What the scan finds when it accepts the checksum entry at `off`. */
  lemma AcceptedContent(best: Found, pend: seq<Entry>, e: Entry, off: nat, p: bv32)
    requires NoCrc(pend) && e.tag.kind.Crc?
    ensures Content(Found(best.log + pend + [e], off, p).log) == Content(best.log) + pend
  {
    ContentAppend(best.log + pend, [e]);
    ContentAppend(best.log, pend);
    ContentOfPlain(pend);
    assert [e][..0] == [];
  }

  /** A checksum entry, whole or in part: it is refused, or everything pending is committed and the scan goes on. */
  lemma CrcStep(blk: seq<byte>, off: nat, p: bv32, crc: bv32, pend: seq<Entry>, best: Found, e: Entry, s: seq<byte>)
    returns (next: nat, q: bv32, after: Found)
    requires Holds(blk, off, s) && s != [] && NoCrc(pend) && e.tag.kind.Crc?
    requires s[..if |s| < 4 then |s| else 4] <= EncEntry(e, p)
    ensures var found := Scan(blk, off, p, crc, pend, best);
            if Stops(blk, off, p) || !CrcMatches(blk, off, crc) then found == best
            else
              && found == Scan(blk, next, q, T.NULL, [], after)
              && Content(after.log) == Content(best.log) + pend
              && next <= |blk| && after.off == next && after.etag == q
              && (SoundLog(best.log) && next >= off + 8 ==> SoundLog(after.log))
              && if |s| < 4 then next >= off + 4 else next == off + T.Dsize(e.tag) && q == NextPtag(e.tag)
  {
    hide Scan, Holds, EncEntry, T.FromWord, T.IsValid, Content, Crc.Crc32, CrcMatches, T.ToWord, Xor, FromBe32, ToBe32,
         SoundLog, T.Dsize, NextPtag, TagWord, Stops, AfterCrc;
    next, q, after := 0, p, best;
    if Stops(blk, off, p) {
      ScanEnd(blk, off, p, crc, pend, best);
    } else {
      ScanStep(blk, off, p, crc, pend, best);
      var w := TagWord(blk, off, p);
      var t := T.FromWord(w);
      if |s| < 4 {
        TornTag(blk, off, p, e, s);
      } else {
        TagBytes(e, p, s[..4]);
        WholeTag(blk, off, p, e, s);
      }
      if CrcMatches(blk, off, crc) {
        var x := EntryAt(blk, off, t);
        AtLeastTag(t);
        ChainedAfterCrc(e.tag);
        next, q := off + T.Dsize(t), AfterCrc(w, t);
        after := Found(best.log + pend + [x], next, q);
        AcceptedContent(best, pend, x, next, q);
        SoundMore(best.log, pend, x);
      }
    }
  }

  lemma AtLeastTag(t: T.Tag)
    ensures T.Dsize(t) >= 4
  {}

  lemma ChainedAfterCrc(t: T.Tag)
    requires t.kind.Crc?
    ensures AfterCrc(T.ToWord(t), t) == NextPtag(t)
  {}

  lemma SoundMore(log: seq<Entry>, pend: seq<Entry>, x: Entry)
    requires NoCrc(pend)
    ensures SoundLog(log) && T.Dsize(x.tag) >= 8 ==> SoundLog(log + pend + [x])
  {}

  /** Every checksum entry has room for its checksum. */
  ghost predicate SoundLog(log: seq<Entry>) {
    forall i | 0 <= i < |log| :: log[i].tag.kind.Crc? ==> T.Dsize(log[i].tag) >= 8
  }

  /** A prefix of two pieces is a prefix of the first, or the first and a prefix of the second. */
  lemma PrefixSplit(s: seq<byte>, a: seq<byte>, b: seq<byte>)
    requires s <= a + b
    ensures if |s| <= |a| then s <= a else a <= s && s[|a|..] <= b
    ensures |a| >= 4 ==> s[..if |s| < 4 then |s| else 4] <= a
  {}

  lemma EncTail(es: seq<Entry>, p: bv32)
    requires es != [] && AllWritten(es)
    ensures Enc(es, p) == EncEntry(es[0], p) + Enc(es[1..], NextPtag(es[0].tag))
    ensures |EncEntry(es[0], p)| == T.Dsize(es[0].tag)
  {
    hide T.ToWord, NextPtag, Enc;
    EncCons(es[0], es[1..], p);
    assert es == [es[0]] + es[1..];
  }

  lemma EncNothing(p: bv32)
    ensures Enc([], p) == []
  {}

  // ---------- What a torn commit leaves behind the commit that is found ----------

  /** Behind `found` the flash is erased from `cut` on.  A tag cut off there has cleared the top bit of the erased word,
      and a whole tag can be read. */
  ghost predicate Residue(blk: seq<byte>, found: Found, cut: nat) {
    && found.off <= |blk|
    && (found.off >= cut ==> Holds(blk, found.off, []))
    && (found.off + 4 <= cut ==> !Stops(blk, found.off, found.etag))
    && (found.off < cut <= |blk| && T.IsValid(found.etag) && found.off + 4 <= |blk| ==> blk[found.off] != ERASED)
  }

  /** Entries that follow a found commit and are cut off anywhere. */
  lemma FirstTag(blk: seq<byte>, found: Found, es: seq<Entry>, s: seq<byte>)
    requires Holds(blk, found.off, s) && s <= Enc(es, found.etag) && AllWritten(es)
    requires found.off + |Enc(es, found.etag)| <= |blk|
    ensures Residue(blk, found, found.off + |s|)
  {
    hide Enc, EncEntry, T.FromWord, T.ToWord, T.IsValid, T.Dsize, Xor, FromBe32, ToBe32, Written;
    var off, p := found.off, found.etag;
    HoldsAfter(blk, off, s, |s|);
    if s != [] {
      if es == [] {
        EncNothing(p);
        assert false;
      }
      EncTail(es, p);
      var e := es[0];
      PrefixSplit(s, EncEntry(e, p), Enc(es[1..], NextPtag(e.tag)));
      var t := s[..if |s| < 4 then |s| else 4];
      if |s| >= 4 {
        TagBytes(e, p, t);
        WholeTag(blk, off, p, e, s);
      }
      if off + 4 <= |blk| && T.IsValid(p) {
        FirstByte(e, p, s[0], t);
        HoldsAt(blk, off, s, 0);
      }
    }
  }

  /** The first byte of a tag chained to a valid one has its top bit cleared. */
  lemma FirstByte(e: Entry, p: bv32, b: byte, t: seq<byte>)
    requires T.IsValid(p) && t != [] && t <= EncEntry(e, p) && t[0] == b
    ensures b != ERASED
  {}

  /** A torn commit: the one found before it stays, or a later one that is followed by erased flash, by a tag that can
      be read, or by one to three bytes of a tag. */
  ghost predicate TornShape(blk: seq<byte>, found: Found, best: Found, cut: nat) {
    found == best || (Residue(blk, found, cut) && (SoundLog(found.log) || cut < found.off < cut + 8))
  }

  /** The checksum entries, cut off anywhere. */
  lemma {:induction false} TornFooters(blk: seq<byte>, off: nat, p: bv32, crc: bv32, pend: seq<Entry>, best: Found,
                                       fs: seq<Entry>, s: seq<byte>)
    requires Holds(blk, off, s) && s <= Enc(fs, p) && AllCrc(fs) && AllWritten(fs) && NoCrc(pend) && Ready(p, crc, pend)
    requires off + |Enc(fs, p)| <= |blk| && SoundLog(best.log)
    ensures AllOrNothing(Scan(blk, off, p, crc, pend, best), best, pend)
    ensures TornShape(blk, Scan(blk, off, p, crc, pend, best), best, off + |s|)
    decreases fs
  {
    hide Holds, EncEntry, Enc, Content, Crc.Crc32, CrcMatches, Scan, Stops, NextPtag, T.IsValid, T.Dsize, SoundLog, Residue;
    if s == [] {
      NothingProgrammed(blk, off, p, crc, pend, best);
    } else {
      if fs == [] {
        EncNothing(p);
        assert false;
      }
      var e := fs[0];
      EncTail(fs, p);
      PrefixSplit(s, EncEntry(e, p), Enc(fs[1..], NextPtag(e.tag)));
      var next, q, after := CrcStep(blk, off, p, crc, pend, best, e, s);
      if !Stops(blk, off, p) && CrcMatches(blk, off, crc) {
        HoldsAfter(blk, off, s, next - off);
        if next >= off + |s| {
          NothingProgrammed(blk, next, q, T.NULL, [], after);
          BlankResidue(blk, after, off + |s|);
          assert |s| >= 4 ==> next >= off + 8 by { CrcRoom(e); }
        } else {
          var rest := s[next - off..];
          TornFooters(blk, next, q, T.NULL, [], after, fs[1..], rest);
          FirstTag(blk, after, fs[1..], rest);
          assert Content(after.log) + [] == Content(after.log);
        }
      }
    }
  }

  lemma CrcRoom(e: Entry)
    requires Written(e) && e.tag.kind.Crc?
    ensures T.Dsize(e.tag) >= 8
  {}

  lemma BlankResidue(blk: seq<byte>, found: Found, cut: nat)
    requires Holds(blk, found.off, []) && cut <= found.off
    ensures Residue(blk, found, cut)
  {}

  /** A commit cut off after any number of bytes: the entries found are the old ones or the old and all the new ones,
      and before the first checksum entry always the old ones. */
  lemma {:induction false} TornScan(blk: seq<byte>, off: nat, p: bv32, crc: bv32, pend: seq<Entry>, best: Found,
                                    es: seq<Entry>, fs: seq<Entry>, s: seq<byte>)
    requires Holds(blk, off, s) && s <= Enc(es + fs, p) && off + |Enc(es + fs, p)| <= |blk| && SoundLog(best.log)
    requires AllWritten(es + fs) && NoCrc(es) && AllCrc(fs) && NoCrc(pend) && Ready(p, crc, pend)
    ensures var found := Scan(blk, off, p, crc, pend, best);
            && AllOrNothing(found, best, pend + es) && TornShape(blk, found, best, off + |s|)
            && (fs == [] ==> found == best)
    decreases es
  {
    hide Holds, EncEntry, Enc, Content, Crc.Crc32, Scan, NextPtag, T.IsValid, Written, T.Dsize, SoundLog, TornShape;
    if s == [] {
      NothingProgrammed(blk, off, p, crc, pend, best);
      SameShape(blk, best, off);
    } else if es == [] {
      assert es + fs == fs && pend + es == pend;
      EncNothing(p);
      TornFooters(blk, off, p, crc, pend, best, fs, s);
    } else {
      var e, all := es[0], es + fs;
      assert all[0] == e && all[1..] == es[1..] + fs;
      EncTail(all, p);
      var a, b := EncEntry(e, p), Enc(all[1..], NextPtag(e.tag));
      PrefixSplit(s, a, b);
      if |s| < |a| {
        TornEntry(blk, off, p, crc, pend, best, e, s);
        SameShape(blk, best, off + |s|);
      } else {
        HoldsSlice(blk, off, s, |a|);
        assert s[..|a|] == a;
        ScanAttr(blk, off, p, crc, pend, best, e);
        HoldsAfter(blk, off, s, |a|);
        PlainPtag(e.tag);
        TornScan(blk, off + |a|, NextPtag(e.tag), Crc.Crc32(crc, a), pend + [e], best, es[1..], fs, s[|a|..]);
        assert pend + [e] + es[1..] == pend + es;
      }
    }
  }

  lemma SameShape(blk: seq<byte>, best: Found, cut: nat)
    ensures TornShape(blk, best, best, cut)
  {}

  lemma HoldsSlice(blk: seq<byte>, off: nat, s: seq<byte>, n: nat)
    requires Holds(blk, off, s) && n <= |s|
    ensures off + n <= |blk| && blk[off..off + n] == s[..n]
  {}

  lemma PlainPtag(t: T.Tag)
    requires !t.kind.Crc?
    ensures T.IsValid(NextPtag(t))
  {}

  // ---------- The block before the commit ----------

  /** Scanning never goes back behind the commit it already has. */
  lemma {:induction false} ScanKeepsBest(blk: seq<byte>, off: nat, p: bv32, crc: bv32, pend: seq<Entry>, best: Found)
    requires best.off <= off
    ensures var found := Scan(blk, off, p, crc, pend, best);
            (found == best || off < found.off <= |blk|) && best.log <= found.log
    decreases |blk| - off
  {
    hide TagWord, T.FromWord, T.IsValid, CrcMatches, Crc.Crc32, AfterCrc, T.Dsize;
    if !Stops(blk, off, p) {
      var w := TagWord(blk, off, p);
      var t := T.FromWord(w);
      var e, next := EntryAt(blk, off, t), off + T.Dsize(t);
      if t.kind.Crc? {
        var q := AfterCrc(w, t);
        ScanKeepsBest(blk, next, q, T.NULL, [], Found(best.log + pend + [e], next, q));
        assert best.log <= best.log + pend + [e];
      } else {
        ScanKeepsBest(blk, next, w, Crc.Crc32(crc, blk[off..next]), pend + [e], best);
      }
    }
  }

  /** Two blocks that agree on the entry at `off` scan it alike. */
  lemma SameEntry(a: seq<byte>, b: seq<byte>, off: nat, p: bv32, crc: bv32, n: nat)
    requires |a| == |b| && n <= |a| && a[..n] == b[..n]
    requires !Stops(a, off, p) && off + T.Dsize(T.FromWord(TagWord(a, off, p))) <= n
    ensures TagWord(b, off, p) == TagWord(a, off, p) && !Stops(b, off, p)
    ensures var t := T.FromWord(TagWord(a, off, p));
            var next := off + T.Dsize(t);
            && EntryAt(b, off, t) == EntryAt(a, off, t) && b[off..next] == a[off..next]
            && (next >= off + 8 ==> CrcMatches(b, off, crc) == CrcMatches(a, off, crc))
  {
    hide Xor, FromBe32, FromLe32, T.FromWord, T.IsValid, Crc.Crc32, T.Dsize;
    var t := T.FromWord(TagWord(a, off, p));
    var next := off + T.Dsize(t);
    assert forall i | 0 <= i < n :: a[i] == a[..n][i] == b[i];
    assert b[off..off + 4] == a[off..off + 4];
    assert b[off..next] == a[off..next];
    assert b[off + 4..next] == a[off + 4..next];
    if next >= off + 8 {
      assert b[off + 4..off + 8] == a[off + 4..off + 8];
    }
  }

  /** What is programmed behind the last commit cannot change how the block reads up to it. */
  lemma {:induction false} ScanResumes(a: seq<byte>, b: seq<byte>, off: nat, p: bv32, crc: bv32, pend: seq<Entry>, best: Found)
    requires |a| == |b| && best.off <= off
    requires var found := Scan(a, off, p, crc, pend, best);
             found.off > off && found.off <= |a| && SoundLog(found.log) && a[..found.off] == b[..found.off]
    ensures var found := Scan(a, off, p, crc, pend, best);
            Scan(b, off, p, crc, pend, best) == Scan(b, found.off, found.etag, T.NULL, [], found)
    decreases |a| - off
  {
    hide TagWord, T.FromWord, T.IsValid, CrcMatches, Crc.Crc32, AfterCrc, T.Dsize, Stops, EntryAt;
    var found := Scan(a, off, p, crc, pend, best);
    if !Stops(a, off, p) {
      StopsBounds(a, off, p);
      var w := TagWord(a, off, p);
      var t := T.FromWord(w);
      var e, next := EntryAt(a, off, t), off + T.Dsize(t);
      if t.kind.Crc? {
        var q := AfterCrc(w, t);
        var more := Found(best.log + pend + [e], next, q);
        ScanKeepsBest(a, next, q, T.NULL, [], more);
        assert found.log[|best.log + pend|] == e;
        EntryTag(a, off, t);
        SameEntry(a, b, off, p, crc, found.off);
        if found.off > next {
          ScanResumes(a, b, next, q, T.NULL, [], more);
        }
      } else {
        ScanKeepsBest(a, next, w, Crc.Crc32(crc, a[off..next]), pend + [e], best);
        SameEntry(a, b, off, p, crc, found.off);
        ScanResumes(a, b, next, w, Crc.Crc32(crc, a[off..next]), pend + [e], best);
      }
    }
  }

  lemma StopsBounds(blk: seq<byte>, off: nat, p: bv32)
    requires !Stops(blk, off, p)
    ensures off + 4 <= |blk| && off + T.Dsize(T.FromWord(TagWord(blk, off, p))) <= |blk|
  {}
}
