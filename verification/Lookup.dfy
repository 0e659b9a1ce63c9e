/** lfs_dir_getslice: searching a metadata block backwards along the XOR chain. */
module Lookup {
  import opened Options
  import opened Words
  import opened Arith
  import opened Log
  import opened Chain
  import Fetch
  import T = Tag

  datatype Got = NoEnt | Got(tag: T.Tag, buffer: seq<byte>)

  /** The data cut to the caller's size, then zeros. */
  function Filled(data: seq<byte>, gsize: nat): seq<byte> {
    var n := Min(|data|, gsize);
    data[..n] + Zeros(gsize - n)
  }

  /** What the caller gets: the entry's own type and size under the id asked for, and its data. */
  function Answer(found: Option<Entry>, want: T.Tag, gsize: nat): Got {
    match found
    case None => NoEnt
    case Some(e) => Got(e.tag.(id := want.id), Filled(e.data, gsize))
  }

  /** The caller's buffer: the data as far as it goes, then zeros. */
  ghost predicate Padded(buffer: seq<byte>, data: seq<byte>, gsize: nat) {
    |buffer| == gsize && forall i | 0 <= i < gsize :: buffer[i] == if i < |data| then data[i] else 0
  }

  /** What a lookup in the entries of a file has to answer: the newest entry whose word agrees with that of `want` under
      the mask, under the id asked for; NOENT exactly if there is none or it is a removal. */
  ghost predicate Answers(f: File, m: bv32, want: T.Tag, gsize: nat, r: Got) {
    match r
    case NoEnt => forall i: nat | LastUnder(f, m, want, i) :: Removed(f[i])
    case Got(tag, buffer) =>
      exists i: nat :: && LastUnder(f, m, want, i) && !Removed(f[i])
                       && tag == f[i].tag.(id := want.id) && Padded(buffer, f[i].data, gsize)
  }

  lemma LatestAnswers(f: File, mask: bv8, want: T.Tag, gsize: nat)
    ensures Answers(f, T.TypeMask(mask), want, gsize, Answer(Latest(f, mask, want), want, gsize))
  {
    hide Latest, LastUnder, Removed;
    LatestIsLast(f, mask, want);
  }

  /** `ntag` is the tag of the k-th entry from the start, valid bit aside. */
  ghost predicate AtTail(log: seq<Entry>, k: nat, ntag: bv32)
    requires k <= |log|
  {
    T.Masked(ntag) == T.Masked(LastPtag(log[..k], T.NULL))
  }

  /** The entry the walk stands behind, and where its tag and data lie. */
  lemma EntryBehind(blk: seq<byte>, log: seq<Entry>, k: nat, ntag: bv32)
    requires 0 < k <= |log| && ProperLog(log) && OnDisk(blk, log[..k]) && AtTail(log, k, ntag)
    ensures var e := log[k - 1]; var n := 4 + |Enc(log[..k - 1], T.NULL)|;
            && T.FromWord(ntag) == e.tag
            && T.Dsize(e.tag) == 4 + |e.data|
            && OnDisk(blk, log[..k - 1])
            && n + 4 + |e.data| == 4 + |Enc(log[..k], T.NULL)| <= |blk|
            && blk[n + 4..n + 4 + |e.data|] == e.data
            && AtTail(log, k - 1, T.Masked(Xor(FromBe32(blk[n..n + 4]), ntag)))
  {
    hide Enc, ToBe32, FromBe32, Xor, NextPtag, OnDisk, T.Masked, T.FromWord, T.ToWord;
    var e, pre := log[k - 1], log[..k - 1];
    assert log[..k][..k - 1] == pre;
    PrefixOnDisk(blk, log[..k]);
    PtagDecodes(e.tag);
    T.MaskedDecodes(ntag);
    T.MaskedDecodes(NextPtag(e.tag));
    Backward(T.ToWord(e.tag), LastPtag(pre, T.NULL), ntag);
    MaskedTwice(Xor(FromBe32(ToBe32(Xor(T.ToWord(e.tag), LastPtag(pre, T.NULL)))), ntag));
  }

  lemma MaskedTwice(x: bv32)
    ensures T.Masked(T.Masked(x)) == T.Masked(x)
  {}

  lemma StartsAtTail(log: seq<Entry>)
    ensures AtTail(log, |log|, LastPtag(log, T.NULL))
  {}

  lemma EmptyEnc(log: seq<Entry>)
    requires log == []
    ensures Enc(log, T.NULL) == []
  {}

  /** In front of an entry there is always room for its tag and data. */
  lemma RoomForEntry(log: seq<Entry>, k: nat, ntag: bv32)
    requires 0 < k <= |log| && ProperLog(log) && AtTail(log, k, ntag)
    ensures |Enc(log[..k], T.NULL)| >= T.Dsize(T.FromWord(ntag))
  {
    hide T.Masked, T.FromWord, T.ToWord, NextPtag, ToBe32, Xor;
    var e := log[k - 1];
    PtagDecodes(e.tag);
    T.MaskedDecodes(ntag);
    T.MaskedDecodes(NextPtag(e.tag));
    assert log[..k][k - 1] == e;
  }

  lemma EmptyFind(log: seq<Entry>, id: nat, mask: bv8, want: T.Tag)
    requires log == []
    ensures BackFind(log, id, mask, want) == None
  {}

  lemma DeletedAbsent(e: Entry)
    requires T.IsDelete(e.tag)
    ensures Present(e) == None
  {}

  lemma SpliceNoMatch(mask: bv8, t: T.Tag, want: T.Tag)
    requires t.kind.Splice? && T.IsAttr(want)
    ensures !Matches(mask, t, want)
  {}

  lemma AnswerFromDisk(blk: seq<byte>, at: nat, e: Entry, want: T.Tag, gsize: nat)
    requires Proper(e) && !T.IsDelete(e.tag)
    requires at + |e.data| <= |blk| && blk[at..at + |e.data|] == e.data
    ensures e.tag.size == |e.data|
    ensures var diff := Min(|e.data|, gsize);
            Got(e.tag.(id := want.id), blk[at..at + diff] + Zeros(gsize - diff)) == Answer(Present(e), want, gsize)
  {
    var diff := Min(|e.data|, gsize);
    SubSlice(blk, at, at + |e.data|, 0, diff);
    assert e.data[0..diff] == e.data[..diff];
  }

  /** One step of the backward search in the terms of the code. */
  lemma BackFindStep(log: seq<Entry>, id: T.u10, mask: bv8, want: T.Tag)
    requires log != [] && Proper(log[|log| - 1]) && IdsInRange(log, id) && T.IsAttr(want)
    ensures var tag, rest := log[|log| - 1].tag, log[..|log| - 1];
            if tag.kind.Splice? && tag.id <= id then
              if tag.chunk == T.CREATE && tag.size == 0 && tag.id == id then BackFind(log, id, mask, want) == None
              else
                var before: nat := if tag.chunk == T.CREATE then id - 1 else id + 1;
                && before <= 0x3ff
                && BackFind(log, id, mask, want) == BackFind(rest, before, mask, want)
                && IdsInRange(rest, before)
            else if tag.id == id && Matches(mask, tag, want) then
              BackFind(log, id, mask, want) == Present(log[|log| - 1])
            else
              && BackFind(log, id, mask, want) == BackFind(rest, id, mask, want)
              && IdsInRange(rest, id)
  {
    hide Matches, Present, T.IsAttr;
    AttrIsNoSplice(want);
    if log[|log| - 1].tag.kind.Splice? {
      SpliceNoMatch(mask, log[|log| - 1].tag, want);
    }
    MatchIsAttr(mask, log[|log| - 1].tag, want);
  }

  lemma AttrIsNoSplice(t: T.Tag)
    requires T.IsAttr(t)
    ensures !t.kind.Splice?
  {}

  lemma MatchIsAttr(mask: bv8, t: T.Tag, want: T.Tag)
    requires T.IsAttr(want)
    ensures Matches(mask, t, want) ==> T.IsAttr(t)
  {}

  /** Backward search on the disk returns what forward replay gives the file, and NOENT exactly when it gives nothing. */
  method DirGet(blk: seq<byte>, end: nat, etag: bv32, mask: bv8, want: T.Tag, gsize: nat, ghost log: seq<Entry>)
    returns (r: Got)
    requires OnDisk(blk, log) && ProperLog(log)
    requires end == 4 + |Enc(log, T.NULL)| && etag == LastPtag(log, T.NULL)
    requires T.ToWord(want) & 0x4000_0000 == 0 && IdsInRange(log, want.id)
    ensures Answers(FileAt(Replay(log), want.id), T.TypeMask(mask), want, gsize, r)
  {
    hide Latest, Answers, Answer, T.ToWord, T.TypeMask;
    r := Search(blk, end, etag, mask, want, gsize, log) by {
      T.KindBits(want);
    }
    LatestAnswers(FileAt(Replay(log), want.id), mask, want, gsize);
  }

  /** The walk itself. */
  method Search(blk: seq<byte>, end: nat, etag: bv32, mask: bv8, want: T.Tag, gsize: nat, ghost log: seq<Entry>)
    returns (r: Got)
    requires OnDisk(blk, log) && ProperLog(log)
    requires end == 4 + |Enc(log, T.NULL)| && etag == LastPtag(log, T.NULL)
    requires T.IsAttr(want) && IdsInRange(log, want.id)
    ensures r == Answer(Latest(FileAt(Replay(log), want.id), mask, want), want, gsize)
  {
    hide Enc, OnDisk, AtTail, T.FromWord, T.Masked, Xor, FromBe32, LastPtag;
    hide Latest, FileAt, Replay, BackFind, IdsInRange, Present, Filled, Matches;
    var off, ntag, id: T.u10 := end, etag, want.id;
    ghost var k := |log|;
    BackFindIsLatest(log, want.id, mask, want);
    StartsAtTail(log);
    assert log[..k] == log;
    while off >= 4 + T.Dsize(T.FromWord(ntag))
      invariant 0 <= k <= |log| && off == 4 + |Enc(log[..k], T.NULL)|
      invariant OnDisk(blk, log[..k]) && AtTail(log, k, ntag)
      invariant IdsInRange(log[..k], id)
      invariant BackFind(log[..k], id, mask, want) == BackFind(log, want.id, mask, want)
      decreases off
    {
      if k == 0 { EmptyEnc(log[..k]); }
      EntryBehind(blk, log, k, ntag);
      BackFindStep(log[..k], id, mask, want);
      ghost var e := log[k - 1];
      assert log[..k][..k - 1] == log[..k - 1];
      var tag := T.FromWord(ntag);
      off := off - T.Dsize(tag);
      ntag := T.Masked(Xor(FromBe32(blk[off..off + 4]), ntag));
      if tag.kind.Splice? && tag.id <= id {
        if tag.chunk == T.CREATE && tag.size == 0 && tag.id == id {
          return NoEnt;
        }
        id := if tag.chunk == T.CREATE then id - 1 else id + 1;
      }
      if tag.kind.Splice? {
        SpliceNoMatch(mask, tag, want);
      }
      if tag.id == id && Matches(mask, tag, want) {
        if T.IsDelete(tag) {
          DeletedAbsent(e);
          return NoEnt;
        }
        var diff := Min(tag.size, gsize);
        AnswerFromDisk(blk, off + 4, e, want, gsize);
        return Got(tag.(id := want.id), blk[off + 4..off + 4 + diff] + Zeros(gsize - diff));
      }
      k := k - 1;
    }
    if k > 0 {
      RoomForEntry(log, k, ntag);
      assert false;
    }
    EmptyFind(log[..k], id, mask, want);
    r := NoEnt;
  }

  /** Fetching a block and then looking up a file of the directory: the answer is about the log the mount found. */
  method FetchedGet(blk: seq<byte>, prog: nat, mask: bv8, want: T.Tag, gsize: nat) returns (r: Got)
    requires |blk| >= 4 && prog > 0 && Fetch.ScanBlock(blk).off > 0 && ProperLog(Fetch.ScanBlock(blk).log)
    requires T.ToWord(want) & 0x4000_0000 == 0
    requires var log := Fetch.ScanBlock(blk).log;
             IdsInRange(log, want.id) || (SmallDirs(log) && Ordered(log) && want.id < |Replay(log)|)
    ensures Answers(FileAt(Replay(Fetch.ScanBlock(blk).log), want.id), T.TypeMask(mask), want, gsize, r)
  {
    hide Fetch.ScanBlock, ProperLog, IdsInRange, OnDisk, Enc, LastPtag, SmallDirs, Ordered, Replay, FileAt, Answers,
         T.ToWord, T.TypeMask;
    ghost var log := Fetch.ScanBlock(blk).log;
    if SmallDirs(log) && Ordered(log) && want.id < |Replay(log)| {
      LiveInRange(log, want.id);
    }
    var off, etag, _, _ := Fetch.FetchBlock(blk, prog);
    Fetch.FoundOnDisk(blk);
    r := DirGet(blk, off, etag, mask, want, gsize, log);
  }
}
