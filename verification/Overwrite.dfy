/** Appending over flash that is not erased: what the checksum and the read-back protect. */
module Overwrite {
  import opened Options
  import opened Words
  import opened Log
  import opened Chain
  import opened Fetch
  import opened Crash
  import opened Commit
  import opened Atomic
  import Crc
  import T = Tag

  // ---------- Programming clears bits ----------

  function Both(a: byte, b: byte): byte { a & b }

  /** The block after `s` is programmed at `off` over whatever is there. */
  function Over(blk: seq<byte>, off: nat, s: seq<byte>): (r: seq<byte>)
    requires off + |s| <= |blk|
    ensures |r| == |blk|
  {
    seq(|blk|, i requires 0 <= i < |blk| => if off <= i < off + |s| then Both(blk[i], s[i - off]) else blk[i])
  }

  lemma BothErased(b: byte)
    ensures Both(ERASED, b) == b && Both(b, b) == b
  {}

  /** On erased flash programming is writing. */
  lemma OverErased(blk: seq<byte>, off: nat, s: seq<byte>)
    requires Holds(blk, off, []) && off + |s| <= |blk|
    ensures Over(blk, off, s) == Program(blk, off, s)
  {
    hide Both, Holds;
    var a, b := Over(blk, off, s), Program(blk, off, s);
    forall i | 0 <= i < |blk| ensures a[i] == b[i] {
      if off <= i < off + |s| {
        HoldsAt(blk, off, [], i - off);
        BothErased(s[i - off]);
      }
    }
  }

  lemma OverOutside(blk: seq<byte>, off: nat, s: seq<byte>, end: nat)
    requires off + |s| <= end <= |blk|
    ensures Over(blk, off, s)[..off] == blk[..off] && Over(blk, off, s)[end..] == blk[end..]
  {}

  // ---------- The first checksum a scan accepts ----------

  datatype Hit = Hit(at: nat, word: bv32, pend: seq<Entry>)

  function FirstHit(blk: seq<byte>, off: nat, p: bv32, crc: bv32, pend: seq<Entry>): Option<Hit>
    decreases |blk| - off
  {
    if Stops(blk, off, p) then None
    else
      var w := TagWord(blk, off, p);
      var t := T.FromWord(w);
      var next := off + T.Dsize(t);
      if t.kind.Crc? then if CrcMatches(blk, off, crc) then Some(Hit(off, w, pend)) else None
      else if t.kind.Tail? && off + 12 > |blk| then None
      else FirstHit(blk, next, w, Crc.Crc32(crc, blk[off..next]), pend + [EntryAt(blk, off, t)])
  }

  /** A hit is a checksum entry that fits into the block. */
  ghost predicate Proper(blk: seq<byte>, off: nat, h: Hit) {
    var t := T.FromWord(h.word);
    off <= h.at && h.at + 8 <= |blk| && h.at + T.Dsize(t) <= |blk| && t.kind.Crc?
  }

  /** The scan is: up to the first hit, and on from there. */
  lemma {:induction false} HitScan(blk: seq<byte>, off: nat, p: bv32, crc: bv32, pend: seq<Entry>, best: Found)
    ensures var found := Scan(blk, off, p, crc, pend, best);
            match FirstHit(blk, off, p, crc, pend)
            case None => found == best
            case Some(h) =>
              && Proper(blk, off, h)
              && var t := T.FromWord(h.word);
                 var next, q := h.at + T.Dsize(t), AfterCrc(h.word, t);
                 found == Scan(blk, next, q, T.NULL, [], Found(best.log + h.pend + [EntryAt(blk, h.at, t)], next, q))
    decreases |blk| - off
  {
    hide TagWord, T.FromWord, T.IsValid, CrcMatches, Crc.Crc32, AfterCrc, T.Dsize, EntryAt;
    if !Stops(blk, off, p) {
      var w := TagWord(blk, off, p);
      var t := T.FromWord(w);
      var next := off + T.Dsize(t);
      if t.kind.Crc? {
        MatchFits(blk, off, crc);
      } else if !(t.kind.Tail? && off + 12 > |blk|) {
        HitScan(blk, next, w, Crc.Crc32(crc, blk[off..next]), pend + [EntryAt(blk, off, t)], best);
      }
    }
  }

  lemma MatchFits(blk: seq<byte>, off: nat, crc: bv32)
    ensures CrcMatches(blk, off, crc) ==> off + 8 <= |blk|
  {}

  /** Two blocks that agree up to the checksum have the same hit. */
  lemma {:induction false} HitSame(a: seq<byte>, b: seq<byte>, off: nat, p: bv32, crc: bv32, pend: seq<Entry>, h: Hit)
    requires |a| == |b| && FirstHit(a, off, p, crc, pend) == Some(h) && Proper(a, off, h) && a[off..h.at + 8] == b[off..h.at + 8]
    ensures FirstHit(b, off, p, crc, pend) == Some(h)
    decreases |a| - off
  {
    hide TagWord, T.FromWord, T.IsValid, CrcMatches, Crc.Crc32, T.Dsize, EntryAt, Stops;
    StopsBounds(a, off, p);
    SameTag(a, b, off, p, crc, h.at + 8);
    var w := TagWord(a, off, p);
    var t := T.FromWord(w);
    if !t.kind.Crc? {
      var next, e := off + T.Dsize(t), EntryAt(a, off, t);
      HitScan(a, next, w, Crc.Crc32(crc, a[off..next]), pend + [e], NOTHING);
      SameBytes(a, b, off, next, h.at + 8);
      SameEntries(a, b, off, t, h.at + 8);
      HitSame(a, b, next, w, Crc.Crc32(crc, a[off..next]), pend + [e], h);
    }
  }

  lemma SameBytes(a: seq<byte>, b: seq<byte>, off: nat, next: nat, end: nat)
    requires |a| == |b| && off <= next <= end <= |a| && a[off..end] == b[off..end]
    ensures a[off..next] == b[off..next] && a[next..end] == b[next..end]
  {
    SubSlice(a, off, end, 0, next - off);
    SubSlice(b, off, end, 0, next - off);
    SubSlice(a, off, end, next - off, end - off);
    SubSlice(b, off, end, next - off, end - off);
  }

  lemma SameEntries(a: seq<byte>, b: seq<byte>, off: nat, t: T.Tag, end: nat)
    requires |a| == |b| && off + T.Dsize(t) <= end <= |a| && a[off..end] == b[off..end]
    ensures EntryAt(a, off, t) == EntryAt(b, off, t)
  {
    SubSlice(a, off, end, 4, T.Dsize(t));
    SubSlice(b, off, end, 4, T.Dsize(t));
  }

  /** The tag, where it leads, and its checksum are read alike. */
  lemma SameTag(a: seq<byte>, b: seq<byte>, off: nat, p: bv32, crc: bv32, end: nat)
    requires |a| == |b| && off + 8 <= end <= |a| && a[off..end] == b[off..end] && !Stops(a, off, p)
    ensures TagWord(b, off, p) == TagWord(a, off, p) && !Stops(b, off, p)
    ensures CrcMatches(b, off, crc) == CrcMatches(a, off, crc)
  {
    hide Xor, FromBe32, FromLe32, T.FromWord, T.IsValid, Crc.Crc32, T.Dsize;
    SubSlice(a, off, end, 0, 4);
    SubSlice(b, off, end, 0, 4);
    SubSlice(a, off, end, 4, 8);
    SubSlice(b, off, end, 4, 8);
  }

  // ---------- The first hit of a whole commit ----------

  lemma HitAttr(blk: seq<byte>, off: nat, p: bv32, crc: bv32, pend: seq<Entry>, e: Entry)
    requires off + T.Dsize(e.tag) <= |blk| && Written(e) && !e.tag.kind.Crc?
    requires blk[off..off + T.Dsize(e.tag)] == EncEntry(e, p)
    ensures FirstHit(blk, off, p, crc, pend) ==
            FirstHit(blk, off + T.Dsize(e.tag), NextPtag(e.tag), Crc.Crc32(crc, EncEntry(e, p)), pend + [e])
  {
    hide T.FromWord, T.ToWord, T.IsValid, TagWord, EntryAt, Stops, Crc.Crc32, Xor, ToBe32, EncEntry, CrcMatches;
    EntryReads(blk, off, p, e);
    PlainNext(e.tag);
    TailRoom(e);
  }

  lemma TailRoom(e: Entry)
    requires Written(e)
    ensures e.tag.kind.Tail? ==> T.Dsize(e.tag) == 12
  {}

  lemma {:induction false} HitAttrs(blk: seq<byte>, off: nat, p: bv32, crc: bv32, pend: seq<Entry>, es: seq<Entry>)
    requires NoCrc(es) && AllWritten(es)
    requires off + |Enc(es, p)| <= |blk| && blk[off..off + |Enc(es, p)|] == Enc(es, p)
    ensures FirstHit(blk, off, p, crc, pend) ==
            FirstHit(blk, off + |Enc(es, p)|, LastPtag(es, p), Crc.Crc32(crc, Enc(es, p)), pend + es)
    decreases es
  {
    hide FirstHit, EncEntry, NextPtag, Crc.Crc32, Enc, Written, T.Dsize;
    if es == [] {
      EncNothing(p);
      EmptyCrc(crc, Enc(es, p));
      assert pend + es == pend;
    } else {
      var e, rest := es[0], es[1..];
      EncTail(es, p);
      var a, b := EncEntry(e, p), Enc(rest, NextPtag(e.tag));
      var n := off + |Enc(es, p)|;
      SubSlice(blk, off, n, 0, |a|);
      SubSlice(blk, off, n, |a|, |a| + |b|);
      HitAttr(blk, off, p, crc, pend, e);
      HitAttrs(blk, off + |a|, NextPtag(e.tag), Crc.Crc32(crc, a), pend + [e], rest);
      Crc.CrcAppend(crc, a, b);
      LastPtagTail(es, p);
      assert pend + [e] + rest == pend + es;
    }
  }

  /** The checksum entry a commit puts at `off` is itself the hit. */
  lemma HitFooter(blk: seq<byte>, off: nat, end: nat, blk0: seq<byte>, p: bv32, crc: bv32, pend: seq<Entry>)
    requires off + 8 <= end <= |blk| == |blk0| && Footed(blk, off, end, blk0, p, crc)
    ensures FirstHit(blk, off, p, crc, pend) == Some(Hit(off, T.ToWord(FooterTag(blk0, off, end)), pend))
  {
    hide T.FromWord, T.ToWord, T.IsValid, TagWord, EntryAt, Stops, Crc.Crc32, Xor, ToBe32, ToLe32, FromLe32,
         EncEntry, Footed, Footer, FooterTag, T.Dsize;
    var e := Footer(blk0, off, end, p, crc);
    FooterShape(blk0, off, end, p, crc);
    FooterHasTag(blk0, off, end, p, crc);
    FooterInPlace(blk, off, end, blk0, p, crc);
    EntryReads(blk, off, p, e);
    Le32RoundTrip(Crc.Crc32(crc, ToBe32(Xor(T.ToWord(e.tag), p))));
    assert CrcMatches(blk, off, crc);
  }

  // ---------- A checksum that passes only what was written ----------

  /** Wherever a scan of `b` accepts a checksum, the bytes it covers are those of `w`: no corruption goes unnoticed. */
  ghost predicate Genuine(b: seq<byte>, w: seq<byte>, from: nat, off: nat, p: bv32, crc: bv32)
    requires |b| == |w| && from <= off
    decreases |b| - off
  {
    !Stops(b, off, p) ==>
      var word := TagWord(b, off, p);
      var t := T.FromWord(word);
      var next := off + T.Dsize(t);
      if t.kind.Crc? then
        CrcMatches(b, off, crc) ==>
          b[from..off + 8] == w[from..off + 8] && Genuine(b, w, next, next, AfterCrc(word, t), T.NULL)
      else if t.kind.Tail? && off + 12 > |b| then true
      else Genuine(b, w, from, next, word, Crc.Crc32(crc, b[off..next]))
  }

  lemma {:induction false} GenuineHit(b: seq<byte>, w: seq<byte>, from: nat, off: nat, p: bv32, crc: bv32, pend: seq<Entry>, h: Hit)
    requires |b| == |w| && from <= off && Genuine(b, w, from, off, p, crc)
    requires FirstHit(b, off, p, crc, pend) == Some(h) && Proper(b, off, h)
    ensures b[from..h.at + 8] == w[from..h.at + 8]
    ensures var t := T.FromWord(h.word); var next := h.at + T.Dsize(t);
            Genuine(b, w, next, next, AfterCrc(h.word, t), T.NULL)
    decreases |b| - off
  {
    hide TagWord, T.FromWord, T.IsValid, CrcMatches, Crc.Crc32, AfterCrc, T.Dsize, EntryAt, Stops;
    StopsBounds(b, off, p);
    var word := TagWord(b, off, p);
    var t := T.FromWord(word);
    if !t.kind.Crc? {
      var next := off + T.Dsize(t);
      HitScan(b, next, word, Crc.Crc32(crc, b[off..next]), pend + [EntryAt(b, off, t)], NOTHING);
      GenuineHit(b, w, from, next, word, Crc.Crc32(crc, b[off..next]), pend + [EntryAt(b, off, t)], h);
    }
  }

  /** A scan of `b` finds nothing more, or what stands in `w` up to the next checksum entry, and goes on behind it. */
  lemma AcceptFooter(b: seq<byte>, w: seq<byte>, from: nat, off: nat, p: bv32, crc: bv32, best: Found,
                     blk: seq<byte>, at: nat, end: nat, pend: seq<Entry>) returns (after: Found)
    requires |b| == |w| == |blk| && from <= off && Genuine(b, w, from, off, p, crc) && at + 8 <= end <= |blk|
    requires FirstHit(w, off, p, crc, []) == Some(Hit(at, T.ToWord(FooterTag(blk, at, end)), pend))
    requires NoCrc(pend) && SoundLog(best.log)
    ensures var n, q := NextOff(at + 4, end), NextPtag(FooterTag(blk, at, end));
            var found := Scan(b, off, p, crc, [], best);
            || found == best
            || (&& found == Scan(b, n, q, T.NULL, [], after) && Genuine(b, w, n, n, q, T.NULL)
                && Content(after.log) == Content(best.log) + pend && SoundLog(after.log))
  {
    hide FirstHit, Scan, Genuine, T.FromWord, T.ToWord, NextPtag, FooterTag, AfterCrc, T.Dsize, Content,
         SoundLog, EntryAt, NextOff, NoCrc, Proper;
    after := best;
    var hit := FirstHit(b, off, p, crc, []);
    HitScan(b, off, p, crc, [], best);
    if hit.Some? {
      var h := hit.value;
      GenuineHit(b, w, from, off, p, crc, [], h);
      HitRange(b, w, from, off, h);
      HitSame(b, w, off, p, crc, [], h);
      var t := FooterTag(blk, at, end);
      TagIs(blk, at, end);
      T.WordRoundTrip(t);
      ChainedAfterCrc(t);
      ProperFits(b, off, h);
      var e := EntryAt(b, h.at, t);
      EntryTag(b, h.at, t);
      after := Found(best.log + pend + [e], h.at + T.Dsize(t), AfterCrc(h.word, t));
      AcceptedContent(best, pend, e, after.off, after.etag);
      SoundMore(best.log, pend, e);
    }
  }

  lemma ProperFits(blk: seq<byte>, off: nat, h: Hit)
    requires Proper(blk, off, h)
    ensures off <= h.at && h.at + 8 <= |blk| && h.at + T.Dsize(T.FromWord(h.word)) <= |blk|
  {}

  lemma TagIs(blk: seq<byte>, at: nat, end: nat)
    requires at + 8 <= end <= |blk|
    ensures var t := FooterTag(blk, at, end);
            t.kind.Crc? && T.Dsize(t) >= 8 && at + T.Dsize(t) == NextOff(at + 4, end)
  {}

  lemma HitRange(b: seq<byte>, w: seq<byte>, from: nat, off: nat, h: Hit)
    requires |b| == |w| && from <= off && Proper(b, off, h) && b[from..h.at + 8] == w[from..h.at + 8]
    ensures b[off..h.at + 8] == w[off..h.at + 8]
  {
    SameBytes(b, w, from, off, h.at + 8);
  }

  /** The remaining checksum entries: whatever became of them, the content found stays. */
  lemma {:induction false} DirtyFooters(b: seq<byte>, w: seq<byte>, at: nat, end: nat, blk: seq<byte>, q: bv32, best: Found)
    requires |b| == |w| == |blk| && (at == end || at + 8 <= end) && end <= |blk| && SoundLog(best.log)
    requires at < end ==> Footed(w, at, end, blk, q, T.NULL)
    requires b[end..] == w[end..] && Stops(w, end, LastPtag(Footers(blk, at, end, q, T.NULL), q))
    requires Genuine(b, w, at, at, q, T.NULL)
    ensures var found := Scan(b, at, q, T.NULL, [], best);
            Content(found.log) == Content(best.log) && SoundLog(found.log)
    decreases end - at
  {
    hide FirstHit, Scan, Genuine, T.ToWord, NextPtag, FooterTag, Content, SoundLog, NextOff, Footed, Footers,
         LastPtag, Stops;
    if at == end {
      NoFooters(blk, end, q);
      StopsToo(b, w, end, q);
      StopsScan(b, at, q, T.NULL, [], best);
    } else {
      var n, r := NextOff(at + 4, end), NextPtag(FooterTag(blk, at, end));
      HitFooter(w, at, end, blk, q, T.NULL, []);
      PlainNothing();
      var after := AcceptFooter(b, w, at, at, q, T.NULL, best, blk, at, end, []);
      NextOffBounds(at + 4, end);
      FootedSplit(w, at, end, blk, q, T.NULL);
      FootersStep(blk, at, end, q, T.NULL);
      FooterHasTag(blk, at, end, q, T.NULL);
      LastPtagTail(Footers(blk, at, end, q, T.NULL), q);
      assert Content(best.log) + [] == Content(best.log);
      if Scan(b, at, q, T.NULL, [], best) != best {
        DirtyFooters(b, w, n, end, blk, r, after);
      }
    }
  }

  lemma PlainNothing()
    ensures NoCrc([])
  {}

  lemma StopsToo(a: seq<byte>, b: seq<byte>, off: nat, p: bv32)
    requires |a| == |b| && off <= |a| && a[off..] == b[off..] && Stops(b, off, p)
    ensures Stops(a, off, p)
  {
    hide T.IsValid, T.FromWord, Xor, FromBe32;
    if off + 4 <= |a| {
      assert a[off..off + 4] == a[off..][..4] == b[off..][..4] == b[off..off + 4];
    }
  }

  /** A commit programmed over anything, whole or in part: if no corruption goes unnoticed, all of it is read or nothing. */
  lemma DirtyCommit(b: seq<byte>, blk: seq<byte>, from: nat, off: nat, p: bv32, crc: bv32, es: seq<Entry>, end: nat, best: Found)
    requires Fits(blk, off, p, es, end) && from <= off && |b| == |blk| && b[end..] == blk[end..] && SoundLog(best.log)
    ensures off + |CommitBytes(blk, off, p, crc, es, end)| == end
    ensures var w := Program(blk, off, CommitBytes(blk, off, p, crc, es, end));
            Genuine(b, w, from, off, p, crc) ==>
              var found := Scan(b, off, p, crc, [], best);
              found == best || (Content(found.log) == Content(best.log) + es && SoundLog(found.log))
  {
    hide FirstHit, Scan, Genuine, T.ToWord, NextPtag, FooterTag, Content, SoundLog, NextOff, Footed, Footers,
         LastPtag, Stops, Enc, NoCrc, AllWritten, Crc.Crc32;
    CommitLength(blk, off, p, crc, es, end);
    var a, q, c := Enc(es, p), LastPtag(es, p), Crc.Crc32(crc, Enc(es, p));
    var w, at := Program(blk, off, CommitBytes(blk, off, p, crc, es, end)), off + |Enc(es, p)|;
    if Genuine(b, w, from, off, p, crc) {
      CommitPlaced(blk, off, p, crc, es, end);
      HitAttrs(w, off, p, crc, [], es);
      assert [] + es == es;
      HitFooter(w, at, end, blk, q, c, es);
      var after := AcceptFooter(b, w, from, off, p, crc, best, blk, at, end, es);
      FootedSplit(w, at, end, blk, q, c);
      NextOffBounds(at + 4, end);
      ErasedWordInvalid(w, at, end, blk, q, c);
      FootersStep(blk, at, end, q, c);
      FooterHasTag(blk, at, end, q, c);
      LastPtagTail(Footers(blk, at, end, q, c), q);
      if Scan(b, off, p, crc, [], best) != best {
        DirtyFooters(b, w, NextOff(at + 4, end), end, blk, NextPtag(FooterTag(blk, at, end)), after);
      }
    }
  }

  /** Where the pieces of a whole commit stand. */
  lemma CommitPlaced(blk: seq<byte>, off: nat, p: bv32, crc: bv32, es: seq<Entry>, end: nat)
    requires Fits(blk, off, p, es, end) && off + |CommitBytes(blk, off, p, crc, es, end)| == end
    ensures var w, at := Program(blk, off, CommitBytes(blk, off, p, crc, es, end)), off + |Enc(es, p)|;
            && w[off..at] == Enc(es, p) && w[..off] == blk[..off] && w[end..] == blk[end..]
            && Footed(w, at, end, blk, LastPtag(es, p), Crc.Crc32(crc, Enc(es, p)))
  {
    hide Enc, LastPtag, Footers, Crc.Crc32, NoCrc, AllWritten;
    CommitLength(blk, off, p, crc, es, end);
    var s, a := CommitBytes(blk, off, p, crc, es, end), Enc(es, p);
    var w := Program(blk, off, s);
    ProgramReads(blk, off, s);
    SubSlice(w, off, end, 0, |a|);
    SubSlice(w, off, end, |a|, |s|);
  }

  // ---------- Reading the commit back ----------

  /** Wherever the read-back of `b` finds a region with residue 0, its bytes are those of `w`. */
  ghost predicate Reliable(b: seq<byte>, w: seq<byte>, from: nat, at: nat, stop: nat)
    requires |b| == |w| && from <= at && at + 8 <= stop <= |b|
    decreases stop - at
  {
    NextOffBounds(at + 4, stop);
    var n := NextOff(at + 4, stop);
    Crc.Crc32(T.NULL, b[from..at + 8]) == 0 ==>
      b[from..at + 8] == w[from..at + 8] && (n < stop ==> Reliable(b, w, n, n, stop))
  }

  /** Padding is not programmed. */
  lemma FooterPadding(w: seq<byte>, at: nat, stop: nat, blk: seq<byte>, q: bv32, c: bv32)
    requires at + 8 <= stop <= |w| == |blk| && Footed(w, at, stop, blk, q, c)
    ensures var n := NextOff(at + 4, stop); at + 8 <= n <= stop && w[at + 8..n] == blk[at + 8..n]
  {
    hide Footed, FooterTag, FooterCrc, T.ToWord, Xor, ToBe32, ToLe32, T.Dsize, Crc.Crc32, NextOff;
    var e, n := Footer(blk, at, stop, q, c), NextOff(at + 4, stop);
    NextOffBounds(at + 4, stop);
    FooterShape(blk, at, stop, q, c);
    FooterInPlace(w, at, stop, blk, q, c);
    SubSlice(w, at, n, 8, n - at);
    assert EncEntry(e, q)[8..] == e.data[4..];
  }

  lemma {:induction false} ReadBackWhole(b: seq<byte>, w: seq<byte>, from: nat, at: nat, stop: nat, blk: seq<byte>, q: bv32, c: bv32)
    requires |b| == |w| == |blk| && from <= at && at + 8 <= stop <= |b| && Footed(w, at, stop, blk, q, c)
    requires ReadBack(b, from, at, stop) && Reliable(b, w, from, at, stop)
    requires forall i | at <= i < stop :: b[i] == Both(blk[i], w[i])
    ensures b[from..stop] == w[from..stop]
    decreases stop - at
  {
    hide Footed, Crc.Crc32, NextOff, NextPtag, FooterTag, Both;
    var n := NextOff(at + 4, stop);
    FooterPadding(w, at, stop, blk, q, c);
    FootedSplit(w, at, stop, blk, q, c);
    forall i | at + 8 <= i < n ensures b[i] == w[i] {
      assert w[i] == w[at + 8..n][i - (at + 8)] == blk[at + 8..n][i - (at + 8)] == blk[i];
      BothErased(w[i]);
    }
    NextOffBounds(at + 4, stop);
    if n < stop {
      ReadBackWhole(b, w, n, n, stop, blk, NextPtag(FooterTag(blk, at, stop)), T.NULL);
    }
    ThreeParts(b, w, from, at + 8, n, stop);
  }

  lemma ThreeParts(a: seq<byte>, b: seq<byte>, i: nat, j: nat, k: nat, l: nat)
    requires |a| == |b| && i <= j <= k <= l <= |a| && a[i..j] == b[i..j] && (k < l ==> a[k..l] == b[k..l])
    requires forall x | j <= x < k :: a[x] == b[x]
    ensures a[i..l] == b[i..l]
  {
    forall x | i <= x < l ensures a[x] == b[x] {
      if x < j {
        assert a[x] == a[i..j][x - i] == b[i..j][x - i];
      } else if x >= k {
        assert a[x] == a[k..l][x - k] == b[k..l][x - k];
      }
    }
  }

  /** What the read-back accepts is the commit. */
  lemma AcceptedWhole(blk: seq<byte>, from: nat, off: nat, p: bv32, crc: bv32, es: seq<Entry>, end: nat)
    requires Fits(blk, off, p, es, end) && from <= off
    ensures off + |CommitBytes(blk, off, p, crc, es, end)| == end
    ensures var s, at := CommitBytes(blk, off, p, crc, es, end), off + |Enc(es, p)|;
            ReadBack(Over(blk, off, s), from, at, end) && Reliable(Over(blk, off, s), Program(blk, off, s), from, at, end) ==>
              Over(blk, off, s) == Program(blk, off, s)
  {
    hide Enc, LastPtag, Footers, Crc.Crc32, NoCrc, AllWritten, Footed, ReadBack, Reliable, Both, Seal,
         CommitBytes;
    CommitLength(blk, off, p, crc, es, end);
    var s, at := CommitBytes(blk, off, p, crc, es, end), off + |Enc(es, p)|;
    var b, w := Over(blk, off, s), Program(blk, off, s);
    if ReadBack(b, from, at, end) && Reliable(b, w, from, at, end) {
      CommitPlaced(blk, off, p, crc, es, end);
      OverOutside(blk, off, s, end);
      ReadBackWhole(b, w, from, at, end, blk, LastPtag(es, p), Crc.Crc32(crc, Enc(es, p)));
      Joined(b, w, from, off, end);
    }
  }

  lemma Joined(a: seq<byte>, b: seq<byte>, from: nat, off: nat, end: nat)
    requires |a| == |b| && from <= off <= end <= |a|
    requires a[..off] == b[..off] && a[from..end] == b[from..end] && a[end..] == b[end..]
    ensures a == b
  {
    SameBytes(a, b, from, off, end);
    assert a == a[..off] + a[off..end] + a[end..] && b == b[..off] + b[off..end] + b[end..];
  }
}
