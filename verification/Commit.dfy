/** Writing a commit: attributes chained by XOR, then checksum entries that fill up to the next program boundary. */
module Commit {
  import opened Words
  import opened Arith
  import opened Log
  import opened Chain
  import opened Fetch
  import Crc
  import T = Tag

  // ---------- The checksum entries ----------

  /** Where the data of the checksum entry that starts its data at `o` ends. */
  function NextOff(o: nat, end: nat): nat
    requires o + 4 <= end
  {
    var n := Min(end - o, 0x3fe) + o;
    if n < end then Min(n, end - 8) else n
  }

  /** Every checksum entry holds at least the CRC, fits the size field, and leaves room for a next one or none. */
  lemma NextOffBounds(o: nat, end: nat)
    requires o + 4 <= end
    ensures o + 4 <= NextOff(o, end) <= Min(end, o + 0x3fe)
    ensures NextOff(o, end) == end || NextOff(o, end) + 8 <= end
  {}

  /** And no longer one would do: the entry ends as far on as the size field and the space for another entry allow. */
  lemma NextOffGreatest(o: nat, end: nat, n: nat)
    requires o + 4 <= end && o + 4 <= n <= o + 0x3fe && (n == end || n + 8 <= end)
    ensures n <= NextOff(o, end)
  {}

  /** The next erased word would read as valid, so the checksum tag has to flip the valid bit. */
  predicate NeedsReset(blk: seq<byte>, at: nat) { at + 4 <= |blk| && blk[at] & 0x80 == 0 }

  function FooterTag(blk: seq<byte>, off: nat, end: nat): T.Tag
    requires off + 8 <= end
  {
    var n := NextOff(off + 4, end);
    T.Tag(T.Crc, if NeedsReset(blk, n) then 1 else 0, 0x3ff, n - (off + 4))
  }

  /** LFS_TYPE_CRC with the reset bit, id 0x3ff, and the bytes up to the end of the entry. */
  lemma FooterWord(blk: seq<byte>, off: nat, end: nat)
    requires off + 8 <= end <= |blk|
    ensures var t, n := FooterTag(blk, off, end), NextOff(off + 4, end);
            && T.Type(t) == 0x500 + (if n + 4 <= |blk| && blk[n] & 0x80 == 0 then 1 else 0)
            && t.id == 0x3ff && off + 4 + t.size == n
  {}

  /** The checksum the entry at `off` stores: everything since the last one, and its own tag. */
  function FooterCrc(blk: seq<byte>, off: nat, end: nat, ptag: bv32, crc: bv32): bv32
    requires off + 8 <= end
  {
    Crc.Crc32(crc, ToBe32(Xor(T.ToWord(FooterTag(blk, off, end)), ptag)))
  }

  /** Tag, checksum, and padding that is never programmed. */
  function Footer(blk: seq<byte>, off: nat, end: nat, ptag: bv32, crc: bv32): Entry
    requires off + 8 <= end <= |blk|
  {
    Entry(FooterTag(blk, off, end), ToLe32(FooterCrc(blk, off, end, ptag, crc)) + blk[off + 8..NextOff(off + 4, end)])
  }

  function Footers(blk: seq<byte>, off: nat, end: nat, ptag: bv32, crc: bv32): seq<Entry>
    requires end <= |blk|
    decreases end - off
  {
    if off + 8 > end then []
    else
      [Footer(blk, off, end, ptag, crc)]
      + Footers(blk, NextOff(off + 4, end), end, NextPtag(FooterTag(blk, off, end)), T.NULL)
  }

  lemma FooterShape(blk: seq<byte>, off: nat, end: nat, ptag: bv32, crc: bv32)
    requires off + 8 <= end <= |blk|
    ensures var e := Footer(blk, off, end, ptag, crc); var n := NextOff(off + 4, end);
            && 4 <= e.tag.size <= 0x3fe && e.tag.kind.Crc?
            && |e.data| == e.tag.size && T.Dsize(e.tag) == 4 + |e.data| == n - off
            && |EncEntry(e, ptag)| == n - off
            && (n == end || n + 8 <= end)
  {}

  /** The checksum entries tile the space up to the program boundary exactly. */
  lemma {:induction false} FootersTile(blk: seq<byte>, off: nat, end: nat, ptag: bv32, crc: bv32)
    requires end <= |blk| && (off == end || off + 8 <= end)
    ensures |Enc(Footers(blk, off, end, ptag, crc), ptag)| == end - off
    ensures forall e | e in Footers(blk, off, end, ptag, crc) ::
              e.tag.kind.Crc? && 4 <= e.tag.size <= 0x3fe && |e.data| == e.tag.size
    decreases end - off
  {
    hide FooterTag, FooterCrc, EncEntry, NextPtag, Footer, NextOff, Enc;
    if off + 8 <= end {
      FooterShape(blk, off, end, ptag, crc);
      NextOffBounds(off + 4, end);
      var e := Footer(blk, off, end, ptag, crc);
      var q, n := NextPtag(FooterTag(blk, off, end)), NextOff(off + 4, end);
      FooterHasTag(blk, off, end, ptag, crc);
      FootersTile(blk, n, end, q, T.NULL);
      EncCons(e, Footers(blk, n, end, q, T.NULL), ptag);
    } else {
      EncEmpty(ptag);
    }
  }

  lemma FooterHasTag(blk: seq<byte>, off: nat, end: nat, ptag: bv32, crc: bv32)
    requires off + 8 <= end <= |blk|
    ensures Footer(blk, off, end, ptag, crc).tag == FooterTag(blk, off, end)
  {}

  lemma EncEmpty(p: bv32)
    ensures Enc([], p) == []
  {}

  // ---------- Writing ----------

  /** Programming tag and checksum, and leaving the padding alone, puts the whole entry in place. */
  lemma FooterProgrammed(blk: seq<byte>, off: nat, end: nat, ptag: bv32, crc: bv32)
    requires off + 8 <= end <= |blk|
    ensures var e := Footer(blk, off, end, ptag, crc);
            var w := ToBe32(Xor(T.ToWord(e.tag), ptag)) + ToLe32(FooterCrc(blk, off, end, ptag, crc));
            && off + |EncEntry(e, ptag)| == NextOff(off + 4, end) <= end
            && Program(blk, off, w) == Program(blk, off, EncEntry(e, ptag))
  {
    hide FooterTag, FooterCrc, Xor, ToBe32, ToLe32, T.ToWord;
    var e := Footer(blk, off, end, ptag, crc);
    var n := NextOff(off + 4, end);
    NextOffBounds(off + 4, end);
    var w := ToBe32(Xor(T.ToWord(e.tag), ptag)) + ToLe32(FooterCrc(blk, off, end, ptag, crc));
    var pad := blk[off + 8..n];
    assert EncEntry(e, ptag) == w + pad;
    assert blk[off + 8..] == pad + blk[n..];
  }

  lemma SameReset(a: seq<byte>, b: seq<byte>, off: nat, end: nat)
    requires |a| == |b| && off + 8 <= end <= |a| && a[off..] == b[off..]
    ensures FooterTag(a, off, end) == FooterTag(b, off, end)
  {}

  /** The checksum entries depend only on the bytes they are written over. */
  lemma {:induction false} FootersSame(a: seq<byte>, b: seq<byte>, off: nat, end: nat, ptag: bv32, crc: bv32)
    requires |a| == |b| && off <= end <= |a| && a[off..] == b[off..]
    ensures Footers(a, off, end, ptag, crc) == Footers(b, off, end, ptag, crc)
    decreases end - off
  {
    hide FooterTag, NextPtag, ToLe32, NextOff;
    if off + 8 <= end {
      var n := NextOff(off + 4, end);
      NextOffBounds(off + 4, end);
      SameReset(a, b, off, end);
      assert a[n..] == a[off..][n - off..] == b[off..][n - off..] == b[n..];
      assert a[off..|a|] == b[off..|b|];
      SubSlice(a, off, |a|, 8, n - off);
      SubSlice(b, off, |b|, 8, n - off);
      FootersSame(a, b, n, end, NextPtag(FooterTag(a, off, end)), T.NULL);
    }
  }

  // ---------- A whole commit ----------

  /** The checksum entries of a commit of `es` behind `off`, the last checksum having covered everything before. */
  function Seal(blk: seq<byte>, off: nat, p: bv32, crc: bv32, es: seq<Entry>, end: nat): seq<Entry>
    requires end <= |blk|
  {
    Footers(blk, off + |Enc(es, p)|, end, LastPtag(es, p), Crc.Crc32(crc, Enc(es, p)))
  }

  /** Everything a commit programs. */
  function CommitBytes(blk: seq<byte>, off: nat, p: bv32, crc: bv32, es: seq<Entry>, end: nat): seq<byte>
    requires end <= |blk|
  {
    Enc(es + Seal(blk, off, p, crc, es, end), p)
  }

  /** The checksum regions from `from` on, the first one ending behind the entry at `at`, have residue 0. */
  predicate ReadBack(blk: seq<byte>, from: nat, at: nat, stop: nat)
    requires from <= at && at + 8 <= stop <= |blk|
    decreases stop - at
  {
    NextOffBounds(at + 4, stop);
    var n := NextOff(at + 4, stop);
    Crc.Crc32(T.NULL, blk[from..at + 8]) == 0 && (n < stop ==> ReadBack(blk, n, n, stop))
  }

  /** Attributes as the code hands them to a commit: data of the tag's length, no checksum entries. */
  ghost predicate Attrs(es: seq<Entry>) {
    forall i | 0 <= i < |es| :: |es[i].data| == T.Dsize(es[i].tag) - 4 && !es[i].tag.kind.Crc?
  }

  class Writer {
    var blk: seq<byte>
    var off: nat
    var ptag: bv32
    var crc: bv32
    const begin: nat
    const end: nat

    /** The running checksum covers what this commit has written so far. */
    ghost predicate Valid()
      reads this
    {
      begin <= off <= |blk| && crc == Crc.Crc32(T.NULL, blk[begin..off])
    }

    /** Append to a block behind its last commit. */
    constructor (blk: seq<byte>, off: nat, ptag: bv32)
      requires 8 <= |blk| && off <= |blk|
      ensures Valid() && this.blk == blk && this.off == off == begin && this.ptag == ptag && crc == T.NULL && end == |blk| - 8
    {
      this.blk, this.off, this.ptag, this.crc := blk, off, ptag, T.NULL;
      begin, end := off, |blk| - 8;
    }

    /** lfs_dir_commitprog. */
    method CommitProg(buffer: seq<byte>)
      requires Valid() && off + |buffer| <= |blk|
      modifies this
      ensures Valid() && blk == Program(old(blk), old(off), buffer)
      ensures off == old(off) + |buffer| && ptag == old(ptag) && crc == Crc.Crc32(old(crc), buffer)
    {
      hide Crc.Crc32, Crc.BitCrc;
      Crc.CrcAppend(T.NULL, blk[begin..off], buffer);
      blk := Program(blk, off, buffer);
      crc := Crc.LfsCrc(crc, buffer);
      Crc.TableMatchesBits(old(crc), buffer);
      off := off + |buffer|;
      assert blk[begin..off] == old(blk)[begin..old(off)] + buffer;
    }

    /** lfs_dir_commitattr: the entry is chained and appended, or nothing is written. */
    method CommitAttr(e: Entry) returns (ok: bool)
      requires Valid() && |e.data| == T.Dsize(e.tag) - 4 && end + 8 <= |blk|
      modifies this
      ensures Valid() && ok == (old(off) + T.Dsize(e.tag) <= end)
      ensures !ok ==> blk == old(blk) && off == old(off) && ptag == old(ptag) && crc == old(crc)
      ensures ok ==> && blk == Program(old(blk), old(off), EncEntry(e, old(ptag)))
                     && off == old(off) + T.Dsize(e.tag) && ptag == T.ToWord(e.tag)
                     && crc == Crc.Crc32(old(crc), EncEntry(e, old(ptag)))
    {
      hide Crc.Crc32, T.ToWord, Xor, ToBe32;
      Crc.CrcAppend(crc, ToBe32(Xor(T.ToWord(e.tag), ptag)), e.data);
      if off + T.Dsize(e.tag) > end {
        return false;
      }
      CommitProg(ToBe32(Xor(T.ToWord(e.tag), ptag)));
      CommitProg(e.data);
      ProgramTwice(old(blk), old(off), ToBe32(Xor(T.ToWord(e.tag), old(ptag))), e.data);
      ptag := T.ToWord(e.tag);
      ok := true;
    }

    /** The attributes of a commit one after the other, up to the first that does not fit. */
    method CommitAttrs(es: seq<Entry>) returns (k: nat)
      requires Valid() && Attrs(es) && end + 8 <= |blk|
      modifies this
      ensures Valid() && k <= |es| && |blk| == |old(blk)|
      ensures var s := Enc(es[..k], old(ptag));
              && off == old(off) + |s| && blk == Program(old(blk), old(off), s)
              && ptag == LastPtag(es[..k], old(ptag)) && crc == Crc.Crc32(old(crc), s)
      ensures k < |es| ==> off + T.Dsize(es[k].tag) > end
      ensures k > 0 ==> off <= end
    {
      hide Crc.Crc32, EncEntry, NextPtag, Enc, LastPtag, T.Dsize, T.ToWord;
      k := 0;
      ghost var s: seq<byte> := [];
      NoEntries(ptag);
      EmptyCrc(crc, s);
      ProgramNothing(blk, off);
      while k < |es|
        invariant Valid() && k <= |es| && |blk| == |old(blk)| && (k > 0 ==> off <= end)
        invariant s == Enc(es[..k], old(ptag)) && off == old(off) + |s| && blk == Program(old(blk), old(off), s)
        invariant ptag == LastPtag(es[..k], old(ptag)) && crc == Crc.Crc32(old(crc), s)
      {
        ghost var e, p := es[k], ptag;
        var ok := CommitAttr(es[k]);
        if !ok {
          return;
        }
        EncLength(e, p);
        PlainNext(e.tag);
        assert es[..k + 1] == es[..k] + [e];
        OneMore(es[..k], e, old(ptag));
        ProgramTwice(old(blk), old(off), s, EncEntry(e, p));
        Crc.CrcAppend(old(crc), s, EncEntry(e, p));
        s := s + EncEntry(e, p);
        k := k + 1;
      }
    }

    /** One checksum entry: tag and checksum are programmed, the padding is skipped. */
    method CommitFooter(stop: nat)
      requires off + 8 <= stop <= |blk|
      modifies this
      ensures var e := Footer(old(blk), old(off), stop, old(ptag), old(crc));
              && off == old(off) + |EncEntry(e, old(ptag))| == NextOff(old(off) + 4, stop) <= stop
              && blk == Program(old(blk), old(off), EncEntry(e, old(ptag)))
              && ptag == NextPtag(e.tag) && crc == T.NULL
    {
      hide Crc.Crc32, Crc.BitCrc, T.ToWord, Xor, ToBe32, ToLe32, FooterTag, FooterCrc, NextPtag, NextOff;
      FooterProgrammed(blk, off, stop, ptag, crc);
      FooterCrcIs(blk, off, stop, ptag, crc);
      var tag := FooterTag(blk, off, stop);
      var w := ToBe32(Xor(T.ToWord(tag), ptag));
      var sum := Crc.LfsCrc(crc, w);
      Crc.TableMatchesBits(crc, w);
      blk := Program(blk, off, w + ToLe32(sum));
      off := NextOff(off + 4, stop);
      ptag := NextPtag(tag);
      crc := T.NULL;
    }

    /** Reading the commit back: the loop visits the checksum regions, padding skipped, and accepts if all have residue 0. */
    method Verify(at0: nat, stop: nat) returns (ok: bool)
      requires begin <= at0 && at0 + 8 <= stop <= |blk|
      ensures ok == ReadBack(blk, begin, at0, stop)
    {
      hide Crc.Crc32, Crc.BitCrc, NextOff;
      var from, noff := begin, at0 + 4;
      while from < stop
        invariant from <= stop && (from == stop || noff + 4 <= stop)
        invariant from < stop ==> from + 4 <= noff && ReadBack(blk, begin, at0, stop) == ReadBack(blk, from, noff - 4, stop)
        invariant from == stop ==> ReadBack(blk, begin, at0, stop)
        decreases stop - from
      {
        var sum := Crc.LfsCrc(T.NULL, blk[from..noff + 4]);
        Crc.TableMatchesBits(T.NULL, blk[from..noff + 4]);
        if sum != 0 {
          return false;
        }
        NextOffBounds(noff, stop);
        from := NextOff(noff, stop);
        noff := from + 4;
      }
      ok := true;
    }

    /** Checksum entries up to the program boundary `stop`. */
    method CommitFooters(stop: nat)
      requires off + 8 <= stop <= |blk|
      modifies this
      ensures var fs := Footers(old(blk), old(off), stop, old(ptag), old(crc));
              && off == stop
              && |Enc(fs, old(ptag))| == stop - old(off)
              && blk == Program(old(blk), old(off), Enc(fs, old(ptag)))
              && ptag == LastPtag(fs, old(ptag))
    {
      hide Crc.Crc32, Footer, FooterTag, NextPtag, NextOff, Enc, LastPtag, EncEntry;
      ghost var start, blk0, p0, done: seq<Entry> := off, blk, ptag, [];
      ghost var fs, written: seq<byte> := Footers(blk, off, stop, ptag, crc), [];
      FootersTile(blk, off, stop, ptag, crc);
      NoEntries(ptag);
      assert Program(blk0, start, written) == blk;
      while off < stop
        invariant off == start + |written| && (off == stop || off + 8 <= stop) && stop <= |blk0| == |blk|
        invariant blk == Program(blk0, start, written)
        invariant fs == done + Footers(blk, off, stop, ptag, crc)
        invariant written == Enc(done, p0) && ptag == LastPtag(done, p0)
        decreases stop - off
      {
        ghost var e, at, p, b := Footer(blk, off, stop, ptag, crc), off, ptag, blk;
        FooterHasTag(blk, off, stop, ptag, crc);
        FooterShape(blk, off, stop, ptag, crc);
        OneMore(done, e, p0);
        CommitFooter(stop);
        ProgramTwice(blk0, start, written, EncEntry(e, p));
        ProgramReads(b, at, EncEntry(e, p));
        FootersSame(b, blk, off, stop, ptag, crc);
        written := written + EncEntry(e, p);
        done := done + [e];
      }
      assert done == fs;
    }

    /** lfs_dir_commitcrc: the checksum entries are written and every checksum is read back. */
    method CommitCrc(prog: nat) returns (ok: bool)
      requires Valid() && prog > 0 && AlignUp(off + 8, prog) <= |blk|
      modifies this
      ensures ok
      ensures var stop := AlignUp(old(off) + 8, prog);
              var fs := Footers(old(blk), old(off), stop, old(ptag), old(crc));
              && off == stop
              && |Enc(fs, old(ptag))| == stop - old(off)
              && blk == Program(old(blk), old(off), Enc(fs, old(ptag)))
              && ptag == LastPtag(fs, old(ptag))
    {
      hide Crc.Crc32, Footers, Enc, LastPtag, Footed;
      var start, stop := off, AlignUp(off + 8, prog);
      AlignUpBounds(off + 8, prog);
      CommitFooters(stop);
      FooterRegion(old(blk), blk, start, stop, old(ptag), old(crc));
      assert blk[begin..start] == blk[..start][begin..] == old(blk)[..start][begin..] == old(blk)[begin..start];
      ok := Verify(start, stop);
      FootedReadsBack(blk, begin, start, stop, old(blk), old(ptag), old(crc));
    }

    /** A whole commit: everything that is programmed is the encoded commit, or the attributes before the first one
        that does not fit. */
    method Commit(es: seq<Entry>, prog: nat) returns (ok: bool, k: nat)
      requires Valid() && Attrs(es) && prog > 0 && |blk| % prog == 0 && (off <= end || es != []) && end + 8 <= |blk|
      modifies this
      ensures k <= |es| && ok == (k == |es|) && |blk| == |old(blk)|
      ensures !ok ==> var s := Enc(es[..k], old(ptag));
                      && old(off) + |s| <= |blk| && end < old(off) + |s| + T.Dsize(es[k].tag)
                      && (k > 0 ==> old(off) + |s| <= end)
                      && blk == Program(old(blk), old(off), s)
      ensures ok ==> && old(off) + |Enc(es, old(ptag))| <= end
                     && off == AlignUp(old(off) + |Enc(es, old(ptag))| + 8, prog) <= |blk|
                     && var s := CommitBytes(old(blk), old(off), old(ptag), old(crc), es, off);
                        old(off) + |s| == off && blk == Program(old(blk), old(off), s)
    {
      hide Crc.Crc32, Enc, LastPtag, T.Dsize, Footers, AlignUp, Seal, CommitBytes;
      k := CommitAttrs(es);
      NoEntries(old(ptag));
      assert k == 0 ==> es[..k] == [];
      ok := k == |es|;
      if ok {
        assert es[..k] == es;
        ghost var a, q := Enc(es, old(ptag)), ptag;
        AlignUpFits(off + 8, |blk|, prog);
        AlignUpBounds(off + 8, prog);
        ok := CommitCrc(prog);
        Sealed(old(blk), old(off), old(ptag), old(crc), es, off, a);
        ProgramTwice(old(blk), old(off), a, Enc(Seal(old(blk), old(off), old(ptag), old(crc), es, off), q));
      }
    }
  }

  /** Attributes and then checksum entries are the whole commit. */
  lemma Sealed(blk: seq<byte>, off: nat, p: bv32, crc: bv32, es: seq<Entry>, stop: nat, a: seq<byte>)
    requires a == Enc(es, p) && off + |a| + 8 <= stop <= |blk|
    ensures var fs, q := Seal(blk, off, p, crc, es, stop), LastPtag(es, p);
            && Footers(Program(blk, off, a), off + |a|, stop, q, Crc.Crc32(crc, a)) == fs
            && CommitBytes(blk, off, p, crc, es, stop) == a + Enc(fs, q)
            && |Enc(fs, q)| == stop - off - |a|
  {
    hide Crc.Crc32, Enc, LastPtag, Footers;
    var q, c := LastPtag(es, p), Crc.Crc32(crc, a);
    ProgramReads(blk, off, a);
    FootersSame(Program(blk, off, a), blk, off + |a|, stop, q, c);
    FootersTile(blk, off + |a|, stop, q, c);
    EncAppend(es, Footers(blk, off + |a|, stop, q, c), p);
  }

  lemma EncLength(e: Entry, p: bv32)
    ensures |EncEntry(e, p)| == 4 + |e.data|
  {}

  lemma PlainNext(t: T.Tag)
    requires !t.kind.Crc?
    ensures NextPtag(t) == T.ToWord(t)
  {}

  /** Checksum entries that are in place are accepted. */
  lemma {:induction false} FootedReadsBack(blk: seq<byte>, from: nat, at: nat, stop: nat, blk0: seq<byte>, p: bv32, c: bv32)
    requires from <= at && at + 8 <= stop <= |blk| == |blk0|
    requires Footed(blk, at, stop, blk0, p, c) && c == Crc.Crc32(T.NULL, blk[from..at])
    ensures ReadBack(blk, from, at, stop)
    decreases stop - at
  {
    hide Crc.Crc32, Footed, NextOff, NextPtag, FooterTag;
    RegionResidue(blk, from, at, stop, blk0, p, c);
    NextOffBounds(at + 4, stop);
    var n := NextOff(at + 4, stop);
    if n < stop {
      EmptyCrc(T.NULL, blk[n..n]);
      FootedReadsBack(blk, n, n, stop, blk0, NextPtag(FooterTag(blk0, at, stop)), T.NULL);
    }
  }

  lemma FooterRegion(blk0: seq<byte>, blk: seq<byte>, at: nat, stop: nat, p: bv32, crc: bv32)
    requires at <= stop <= |blk0|
    requires var s := Enc(Footers(blk0, at, stop, p, crc), p);
             |s| == stop - at && blk == Program(blk0, at, s)
    ensures Footed(blk, at, stop, blk0, p, crc)
    ensures blk[..at] == blk0[..at]
  {}

  /** From `at` to `stop` the block holds the checksum entries a commit puts there. */
  ghost predicate Footed(blk: seq<byte>, at: nat, stop: nat, blk0: seq<byte>, p: bv32, crc: bv32)
    requires at <= stop <= |blk| && stop <= |blk0|
  {
    blk[at..stop] == Enc(Footers(blk0, at, stop, p, crc), p)
  }

  lemma EmptyCrc(c: bv32, s: seq<byte>)
    requires s == []
    ensures Crc.Crc32(c, s) == c
  {}

  /** The bytes since the last checksum, this tag and its checksum cancel out; behind the padding comes the next entry. */
  lemma RegionResidue(blk: seq<byte>, from: nat, at: nat, stop: nat, blk0: seq<byte>, p: bv32, c: bv32)
    requires from <= at && at + 8 <= stop <= |blk| == |blk0|
    requires Footed(blk, at, stop, blk0, p, c) && c == Crc.Crc32(T.NULL, blk[from..at])
    ensures Crc.Crc32(T.NULL, blk[from..at + 8]) == 0
    ensures var n := NextOff(at + 4, stop);
            n <= stop && Footed(blk, n, stop, blk0, NextPtag(FooterTag(blk0, at, stop)), T.NULL)
  {
    hide Crc.Crc32, Footed, Footer, FooterTag, NextPtag, ToBe32, ToLe32, Xor, T.ToWord, FooterCrc, NextOff;
    var e := Footer(blk0, at, stop, p, c);
    var w, sum := ToBe32(Xor(T.ToWord(e.tag), p)), FooterCrc(blk0, at, stop, p, c);
    FootedSplit(blk, at, stop, blk0, p, c);
    FooterCrcIs(blk0, at, stop, p, c);
    FooterHasTag(blk0, at, stop, p, c);
    assert blk[from..at + 8] == (blk[from..at] + w) + ToLe32(sum);
    Crc.CrcAppend(T.NULL, blk[from..at], w);
    Crc.CrcResidue(T.NULL, blk[from..at] + w);
  }

  /** The first checksum entry and the rest, as bytes. */
  lemma FootersParts(blk0: seq<byte>, at: nat, stop: nat, p: bv32, c: bv32)
    requires at + 8 <= stop <= |blk0|
    ensures var e := Footer(blk0, at, stop, p, c);
            var n, q := NextOff(at + 4, stop), NextPtag(FooterTag(blk0, at, stop));
            && at + 8 <= n <= stop && |EncEntry(e, p)| == n - at
            && Enc(Footers(blk0, at, stop, p, c), p) == EncEntry(e, p) + Enc(Footers(blk0, n, stop, q, T.NULL), q)
  {
    hide Footer, FooterTag, NextPtag, NextOff, Enc, EncEntry, T.Dsize;
    var n, q := NextOff(at + 4, stop), NextPtag(FooterTag(blk0, at, stop));
    NextOffBounds(at + 4, stop);
    FooterShape(blk0, at, stop, p, c);
    FooterHasTag(blk0, at, stop, p, c);
    EncCons(Footer(blk0, at, stop, p, c), Footers(blk0, n, stop, q, T.NULL), p);
  }

  lemma FootedSplit(blk: seq<byte>, at: nat, stop: nat, blk0: seq<byte>, p: bv32, c: bv32)
    requires at + 8 <= stop <= |blk| == |blk0| && Footed(blk, at, stop, blk0, p, c)
    ensures var e := Footer(blk0, at, stop, p, c);
            blk[at..at + 8] == ToBe32(Xor(T.ToWord(e.tag), p)) + ToLe32(FooterCrc(blk0, at, stop, p, c))
    ensures var n := NextOff(at + 4, stop);
            n <= stop && Footed(blk, n, stop, blk0, NextPtag(FooterTag(blk0, at, stop)), T.NULL)
  {
    hide Footer, FooterTag, NextPtag, NextOff, Enc, ToBe32, ToLe32, Xor, T.ToWord, FooterCrc, EncEntry, Footers;
    var n := NextOff(at + 4, stop);
    FootersParts(blk0, at, stop, p, c);
    SubSlice(blk, at, stop, 0, 8);
    SubSlice(blk, at, stop, n - at, stop - at);
    FooterHead(blk0, at, stop, p, c);
  }

  lemma FooterHead(blk: seq<byte>, off: nat, end: nat, ptag: bv32, crc: bv32)
    requires off + 8 <= end <= |blk|
    ensures var e := Footer(blk, off, end, ptag, crc);
            && |EncEntry(e, ptag)| >= 8
            && EncEntry(e, ptag)[..8] == ToBe32(Xor(T.ToWord(e.tag), ptag)) + ToLe32(FooterCrc(blk, off, end, ptag, crc))
  {}

  lemma FooterCrcIs(blk: seq<byte>, off: nat, end: nat, ptag: bv32, crc: bv32)
    requires off + 8 <= end <= |blk|
    ensures FooterCrc(blk, off, end, ptag, crc) == Crc.Crc32(crc, ToBe32(Xor(T.ToWord(FooterTag(blk, off, end)), ptag)))
  {}

  lemma OneMore(done: seq<Entry>, e: Entry, p: bv32)
    ensures Enc(done + [e], p) == Enc(done, p) + EncEntry(e, LastPtag(done, p))
    ensures LastPtag(done + [e], p) == NextPtag(e.tag)
  {}

  lemma NoEntries(p: bv32)
    ensures Enc([], p) == [] && LastPtag([], p) == p
  {}
}
