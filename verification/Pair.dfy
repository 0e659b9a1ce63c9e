/** A metadata pair: appends to the current block, rewrites into the other one, and what power loss leaves of either. */
module Pair {
  import opened Options
  import opened Words
  import opened Arith
  import opened Log
  import opened Fetch
  import opened Crash
  import opened Commit
  import opened Atomic
  import Chain
  import Crc
  import T = Tag

  /** The two blocks; which of them comes first on disk does not matter. */
  datatype Pair = Pair(cur: seq<byte>, other: seq<byte>)

  /** Append `es` to the current block, or rewrite the directory as `es` in the other one under the revision `rev`; `end` is
      where the commit ends. */
  datatype Op =
    | Append(es: seq<Entry>, end: nat)
    | Rewrite(es: seq<Entry>, end: nat, rev: bv32)

  // ---------- Choosing the block ----------

  /** Revision `a` is newer than `b`, and `b` is not newer than `a`. */
  predicate Ahead(a: bv32, b: bv32) { Newer(a, b) && !Newer(b, a) }

  /** Revisions a distance `d` apart are ordered one way or the other and never both, unless they are the same or 2^31
      apart. */
  lemma NewerOrder(b: bv32, d: bv32)
    ensures !(Newer(b + d, b) && Newer(b, b + d))
    ensures Newer(b + d, b) || Newer(b, b + d) <==> d != 0 && d != 0x8000_0000
    ensures Newer(b + d, b) ==> d & 0x8000_0000 == 0
  {}

  /** The next revision is newer and the old one is not, also when the counter wraps. */
  lemma NextIsNewer(r: bv32)
    ensures Ahead(r + 1, r)
  {}

  /** The first revision of a pair just allocated: lfs_dir_alloc makes the one found even before it is incremented. */
  function AllocRev(r: bv32): bv32 { r + (r & 1) + 1 }

  lemma AllocIsNewer(r: bv32)
    ensures Ahead(AllocRev(r), r) && AllocRev(r) & 1 == 1
  {}

  /** Block `a` is the newer one, or `b` holds no commit at all. */
  ghost predicate Newest(a: seq<byte>, b: seq<byte>) {
    && |a| >= 4 && |b| >= 4
    && (Ahead(Rev(a), Rev(b)) || ScanBlock(b).off == 0)
  }

  /** The newest block is found in either order. */
  lemma FetchesNewest(a: seq<byte>, b: seq<byte>)
    requires Newest(a, b) && ScanBlock(a).off > 0
    ensures FetchPair(a, b) == Some(ScanBlock(a)) && FetchPair(b, a) == Some(ScanBlock(a))
  {}

  /** A mount finds the current block: it holds a commit and the other block is older or holds none. */
  ghost predicate Sound(p: Pair) {
    |p.cur| == |p.other| >= 4 && Newest(p.cur, p.other) && ScanBlock(p.cur).off > 0
  }

  /** Ready for an append: the flash behind the commit is erased. */
  ghost predicate Good(p: Pair) {
    Sound(p) && var f := ScanBlock(p.cur); SoundLog(f.log) && Holds(p.cur, f.off, [])
  }

  /** The directory log the pair holds. */
  function LogOf(p: Pair): seq<Entry>
    requires |p.cur| >= 4
  {
    Content(ScanBlock(p.cur).log)
  }

  // ---------- The operations ----------

  /** An erased block with only the revision count programmed. */
  function Header(p: Pair, rev: bv32): (r: seq<byte>)
    requires |p.cur| >= 4
    ensures |r| == |p.cur|
  {
    ToLe32(rev) + Blank(|p.cur| - 4)
  }

  function HeaderCrc(p: Pair, rev: bv32): bv32
    requires |p.cur| >= 4
  {
    Crc.Crc32(T.NULL, Header(p, rev)[..4])
  }

  ghost predicate Legal(p: Pair, op: Op)
    requires |p.cur| >= 4
  {
    match op
    case Append(es, end) => var f := ScanBlock(p.cur); Fits(p.cur, f.off, f.etag, es, end)
    case Rewrite(es, end, rev) => Ahead(rev, Rev(p.cur)) && Fits(Header(p, rev), 4, T.NULL, es, end)
  }

  /** Everything the operation programs, in order. */
  function Bytes(p: Pair, op: Op): seq<byte>
    requires |p.cur| >= 4 && op.end <= |p.cur|
  {
    match op
    case Append(es, end) => var f := ScanBlock(p.cur); CommitBytes(p.cur, f.off, f.etag, T.NULL, es, end)
    case Rewrite(es, end, rev) => ToLe32(rev) + CommitBytes(Header(p, rev), 4, T.NULL, HeaderCrc(p, rev), es, end)
  }

  /** Where the operation starts to program. */
  function Start(p: Pair, op: Op): nat
    requires |p.cur| >= 4
  {
    if op.Append? then ScanBlock(p.cur).off else 0
  }

  predicate Within(p: Pair, op: Op, n: nat)
    requires |p.cur| >= 4
  {
    op.end <= |p.cur| && n <= |Bytes(p, op)| && Start(p, op) + n <= |p.cur|
  }

  /** The block being written, after the first `n` bytes; a rewrite has erased it before. */
  function Torn(p: Pair, op: Op, n: nat): (b: seq<byte>)
    requires |p.cur| >= 4 && Within(p, op, n)
    ensures |b| == |p.cur|
  {
    Program(if op.Append? then p.cur else Blank(|p.cur|), Start(p, op), Bytes(p, op)[..n])
  }

  function After(p: Pair, op: Op, n: nat): Pair
    requires |p.cur| >= 4 && Within(p, op, n)
  {
    if op.Append? then Pair(Torn(p, op, n), p.other) else Pair(p.cur, Torn(p, op, n))
  }

  /** The pair after the whole operation. */
  function Done(p: Pair, op: Op): Pair
    requires |p.cur| >= 4 && op.end <= |p.cur| && Within(p, op, |Bytes(p, op)|)
  {
    var q := After(p, op, |Bytes(p, op)|);
    if op.Append? then q else Pair(q.other, q.cur)
  }

  function Expected(log: seq<Entry>, op: Op): seq<Entry> {
    if op.Append? then log + op.es else op.es
  }

  /** An operation ends where it should. */
  lemma OpBounds(p: Pair, op: Op)
    requires |p.cur| >= 4 && Legal(p, op)
    ensures op.end <= |p.cur| && Start(p, op) + |Bytes(p, op)| == op.end
    ensures Within(p, op, |Bytes(p, op)|)
  {
    hide ScanBlock, Header, HeaderCrc, CommitBytes, ToLe32, Rev, Chain.Enc, Chain.LastPtag, Seal, NoCrc,
         AllWritten;
    var f := ScanBlock(p.cur);
    if op.Append? {
      CommitLength(p.cur, f.off, f.etag, T.NULL, op.es, op.end);
    } else {
      CommitLength(Header(p, op.rev), 4, T.NULL, HeaderCrc(p, op.rev), op.es, op.end);
    }
  }

  /** What is known of the block that was being written when power was lost at `cut`. */
  ghost predicate TornBlock(blk: seq<byte>, cut: nat)
    requires |blk| >= 4
  {
    var g := ScanBlock(blk);
    Residue(blk, g, cut) && (SoundLog(g.log) || cut < g.off < cut + 8)
  }

  // ---------- Appending ----------

  lemma SameStart(a: seq<byte>, b: seq<byte>, f: Found)
    requires |a| == |b| >= 4 && f == ScanBlock(a) && 0 < f.off <= |a| && SoundLog(f.log) && a[..f.off] == b[..f.off]
    ensures ScanBlock(b) == Scan(b, f.off, f.etag, T.NULL, [], f) && Rev(a) == Rev(b)
  {
    hide Scan, Crc.Crc32, FromLe32;
    FoundBounds(a);
    assert a[..4] == a[..f.off][..4] == b[..f.off][..4] == b[..4];
    var c := Crc.Crc32(T.NULL, a[..4]);
    ScanResumes(a, b, 4, T.NULL, c, [], NOTHING);
  }

  lemma FoundBounds(blk: seq<byte>)
    requires |blk| >= 4
    ensures ScanBlock(blk).off == 0 || 4 < ScanBlock(blk).off <= |blk|
  {
    hide Scan, Crc.Crc32;
    ScanKeepsBest(blk, 4, T.NULL, Crc.Crc32(T.NULL, blk[..4]), [], NOTHING);
  }

  lemma AppendTorn(p: Pair, op: Op, n: nat)
    requires Good(p) && op.Append? && Legal(p, op) && Within(p, op, n)
    ensures var q := After(p, op, n);
            && Sound(q) && LogOf(q) in {LogOf(p), Expected(LogOf(p), op)}
            && TornBlock(Torn(p, op, n), Start(p, op) + n)
  {
    hide ScanBlock, Holds, SoundLog, CommitBytes, Fits, Scan, Rev, Newer, Content, Residue;
    var f := ScanBlock(p.cur);
    FoundBounds(p.cur);
    var s := Bytes(p, op)[..n];
    TornCommit(p.cur, f.off, f.etag, T.NULL, op.es, op.end, f, s);
    var b := Program(p.cur, f.off, s);
    ProgramReads(p.cur, f.off, s);
    SameStart(p.cur, b, f);
    ScanKeepsBest(b, f.off, f.etag, T.NULL, [], f);
    assert Found(f.log, f.off, f.etag) == f;
  }

  /** A completed append is found with the new entries, and the pair is ready again. */
  lemma AppendDone(p: Pair, op: Op)
    requires Good(p) && op.Append? && Legal(p, op)
    ensures op.end <= |p.cur| && Within(p, op, |Bytes(p, op)|)
    ensures var q := Done(p, op);
            && Good(q) && LogOf(q) == Expected(LogOf(p), op)
            && ScanBlock(q.cur).off == op.end && Stops(q.cur, op.end, ScanBlock(q.cur).etag)
  {
    hide ScanBlock, Holds, SoundLog, CommitBytes, Scan, Rev, Newer, Content, Seal, Chain.LastPtag, Chain.Enc,
         Stops;
    OpBounds(p, op);
    var f, es, end := ScanBlock(p.cur), op.es, op.end;
    FoundBounds(p.cur);
    var s := Bytes(p, op);
    assert s[..|s|] == s;
    var b := Program(p.cur, f.off, s);
    ProgramReads(p.cur, f.off, s);
    SameStart(p.cur, b, f);
    WholeCommit(p.cur, f.off, f.etag, T.NULL, es, end, f);
    SealedGood(p.cur, f.off, f.etag, T.NULL, es, end, f.log);
  }

  /** Behind a complete commit on erased flash: a sound log and erased bytes. */
  lemma SealedGood(blk: seq<byte>, off: nat, p: bv32, crc: bv32, es: seq<Entry>, end: nat, before: seq<Entry>)
    requires Fits(blk, off, p, es, end) && Holds(blk, off, []) && SoundLog(before)
    ensures off + |CommitBytes(blk, off, p, crc, es, end)| == end
    ensures var fs := Seal(blk, off, p, crc, es, end);
            && SoundLog(before + es + fs)
            && Content(before + es + fs) == Content(before) + es
            && Holds(Program(blk, off, CommitBytes(blk, off, p, crc, es, end)), end, [])
  {
    hide Holds, CommitBytes, Content, Footers, Chain.LastPtag, Chain.Enc;
    CommitLength(blk, off, p, crc, es, end);
    var fs, at := Seal(blk, off, p, crc, es, end), off + |Chain.Enc(es, p)|;
    HoldsAfter(blk, off, [], at - off);
    FootersTile(blk, at, end, Chain.LastPtag(es, p), Crc.Crc32(crc, Chain.Enc(es, p)));
    FootersWritten(blk, at, end, Chain.LastPtag(es, p), Crc.Crc32(crc, Chain.Enc(es, p)));
    SoundJoin(before, es, fs);
    ContentAppend(before + es, fs);
    ContentAppend(before, es);
    ContentOfPlain(es);
    ContentOfCrcs(fs);
    ProgramHolds(blk, off, CommitBytes(blk, off, p, crc, es, end));
    HoldsAfter(Program(blk, off, CommitBytes(blk, off, p, crc, es, end)), off, CommitBytes(blk, off, p, crc, es, end), end - off);
  }

  lemma SoundJoin(before: seq<Entry>, es: seq<Entry>, fs: seq<Entry>)
    requires SoundLog(before) && NoCrc(es) && forall e | e in fs :: 4 <= e.tag.size <= 0x3fe
    ensures SoundLog(before + es + fs)
  {}

  lemma {:induction false} ContentOfCrcs(fs: seq<Entry>)
    requires AllCrc(fs)
    ensures Content(fs) == []
  {
    if fs != [] {
      ContentOfCrcs(fs[..|fs| - 1]);
    }
  }

  // ---------- An append that is refused part-way ----------

  ghost predicate Tried(p: Pair, es: seq<Entry>, m: nat)
    requires |p.cur| >= 4
  {
    var f := ScanBlock(p.cur);
    NoCrc(es) && AllWritten(es) && f.off + |Chain.Enc(es, f.etag)| <= |p.cur| && m <= |Chain.Enc(es, f.etag)|
  }

  /** The pair when `m` bytes of the attributes that still fitted have been programmed. */
  function Refuse(p: Pair, es: seq<Entry>, m: nat): Pair
    requires |p.cur| >= 4
    requires var f := ScanBlock(p.cur); m <= |Chain.Enc(es, f.etag)| && f.off + m <= |p.cur|
  {
    var f := ScanBlock(p.cur);
    Pair(Program(p.cur, f.off, Chain.Enc(es, f.etag)[..m]), p.other)
  }

  lemma RefusedSound(p: Pair, es: seq<Entry>, m: nat)
    requires Good(p) && Tried(p, es, m)
    ensures var q := Refuse(p, es, m);
            && Sound(q) && ScanBlock(q.cur) == ScanBlock(p.cur) && TornBlock(q.cur, ScanBlock(p.cur).off + m)
  {
    hide ScanBlock, Holds, SoundLog, Scan, Rev, Newer, Content, Residue, Chain.Enc, NoCrc, AllWritten;
    var f := ScanBlock(p.cur);
    FoundBounds(p.cur);
    var s := Chain.Enc(es, f.etag)[..m];
    TornAttrs(p.cur, f.off, f.etag, T.NULL, es, f, s);
    ProgramReads(p.cur, f.off, s);
    SameStart(p.cur, Program(p.cur, f.off, s), f);
    assert Found(f.log, f.off, f.etag) == f;
  }

  // ---------- Rewriting into the other block ----------

  lemma HeaderHolds(p: Pair, rev: bv32)
    requires |p.cur| >= 4
    ensures Holds(Header(p, rev), 4, [])
    ensures Header(p, rev)[..4] == ToLe32(rev)
  {}

  lemma HeaderThen(p: Pair, rev: bv32, s: seq<byte>)
    requires 4 + |s| <= |p.cur|
    ensures Program(Blank(|p.cur|), 0, ToLe32(rev) + s) == Program(Header(p, rev), 4, s)
  {}

  /** Before the revision count is complete the block holds no commit. */
  lemma ShortHeader(size: nat, s: seq<byte>)
    requires 4 <= size && |s| < 4
    ensures ScanBlock(Program(Blank(size), 0, s)).off == 0
  {
    hide Scan, Crc.Crc32;
    var b := Program(Blank(size), 0, s);
    assert b[4..] == [] + Blank(size - 4);
    BlankStart(b, 4, Crc.Crc32(T.NULL, b[..4]), [], NOTHING);
  }

  lemma TakeBoth(a: seq<byte>, b: seq<byte>, n: nat)
    requires |a| <= n <= |a| + |b|
    ensures (a + b)[..n] == a + b[..n - |a|]
  {}

  /** What a torn rewrite has programmed behind the revision count. */
  lemma TornRewrite(p: Pair, op: Op, n: nat)
    requires |p.cur| >= 4 && op.Rewrite? && Within(p, op, n) && n >= 4
    ensures var t := CommitBytes(Header(p, op.rev), 4, T.NULL, HeaderCrc(p, op.rev), op.es, op.end);
            n - 4 <= |t| && Torn(p, op, n) == Program(Header(p, op.rev), 4, t[..n - 4])
  {
    hide CommitBytes, Header, ToLe32, HeaderCrc, ScanBlock, Rev;
    var t := CommitBytes(Header(p, op.rev), 4, T.NULL, HeaderCrc(p, op.rev), op.es, op.end);
    HeaderThen(p, op.rev, t[..n - 4]);
    TakeBoth(ToLe32(op.rev), t, n);
  }

  lemma RewriteTorn(p: Pair, op: Op, n: nat)
    requires Sound(p) && op.Rewrite? && Legal(p, op) && Within(p, op, n)
    ensures var b := Torn(p, op, n);
            if ScanBlock(b).off == 0 then Sound(Pair(p.cur, b))
            else Sound(Pair(b, p.cur)) && Content(ScanBlock(b).log) == op.es && TornBlock(b, n)
  {
    hide ScanBlock, Holds, SoundLog, CommitBytes, Fits, Rev, Newer, Content, Header, ToLe32, Residue, TornShape,
         AllOrNothing, TornBlock, Scan, Program;
    if n < 4 {
      ShortHeader(|p.cur|, Bytes(p, op)[..n]);
    } else {
      var h, t := Header(p, op.rev), CommitBytes(Header(p, op.rev), 4, T.NULL, HeaderCrc(p, op.rev), op.es, op.end);
      HeaderHolds(p, op.rev);
      TornRewrite(p, op, n);
      SoundNothing();
      TornCommit(h, 4, T.NULL, HeaderCrc(p, op.rev), op.es, op.end, NOTHING, t[..n - 4]);
      RewrittenScan(p, op.rev, t[..n - 4]);
      RewrittenFound(p, Program(h, 4, t[..n - 4]), op.es, n);
    }
  }

  lemma RewrittenScan(p: Pair, rev: bv32, s: seq<byte>)
    requires |p.cur| >= 4 && 4 + |s| <= |p.cur|
    ensures var b := Program(Header(p, rev), 4, s);
            ScanBlock(b) == Scan(b, 4, T.NULL, HeaderCrc(p, rev), [], NOTHING) && Rev(b) == rev
  {
    hide Scan, Crc.Crc32, ToLe32, FromLe32;
    var b := Program(Header(p, rev), 4, s);
    HeaderHolds(p, rev);
    assert b[..4] == Header(p, rev)[..4];
    Le32RoundTrip(rev);
  }

  lemma RewrittenFound(p: Pair, b: seq<byte>, es: seq<Entry>, n: nat)
    requires Sound(p) && |b| == |p.cur| && Ahead(Rev(b), Rev(p.cur))
    requires AllOrNothing(ScanBlock(b), NOTHING, es) && TornShape(b, ScanBlock(b), NOTHING, n)
    ensures if ScanBlock(b).off == 0 then Sound(Pair(p.cur, b))
            else Sound(Pair(b, p.cur)) && Content(ScanBlock(b).log) == es && TornBlock(b, n)
  {
    hide ScanBlock, Residue, SoundLog, Rev, Ahead;
  }

  /** The block a completed rewrite leaves behind. */
  lemma Rewritten(p: Pair, op: Op)
    requires |p.cur| >= 4 && op.Rewrite? && Legal(p, op)
    ensures op.end <= |p.cur| && Within(p, op, |Bytes(p, op)|)
    ensures var h, c := Header(p, op.rev), HeaderCrc(p, op.rev);
            var t, fs := CommitBytes(h, 4, T.NULL, c, op.es, op.end), Seal(h, 4, T.NULL, c, op.es, op.end);
            && 4 + |t| == op.end
            && Done(p, op) == Pair(Program(h, 4, t), p.cur)
            && Rev(Program(h, 4, t)) == op.rev
            && ScanBlock(Program(h, 4, t)) == Found([] + op.es + fs, op.end, Chain.LastPtag(op.es + fs, T.NULL))
            && Stops(Program(h, 4, t), op.end, Chain.LastPtag(op.es + fs, T.NULL))
  {
    hide ScanBlock, Holds, CommitBytes, Scan, Rev, Content, Header, ToLe32, Seal, Chain.LastPtag, Chain.Enc,
         NoCrc, AllWritten, Stops, Program, Torn;
    OpBounds(p, op);
    var h, c := Header(p, op.rev), HeaderCrc(p, op.rev);
    CommitLength(h, 4, T.NULL, c, op.es, op.end);
    var t := CommitBytes(h, 4, T.NULL, c, op.es, op.end);
    TornRewrite(p, op, |Bytes(p, op)|);
    assert t[..|t|] == t;
    RewrittenScan(p, op.rev, t);
    WholeCommit(h, 4, T.NULL, c, op.es, op.end, NOTHING);
  }

  /** A completed rewrite makes the other block current and ready for appends, whatever the pair held before: this is
      also the first commit of a pair just allocated. */
  lemma RewriteDone(p: Pair, op: Op)
    requires |p.cur| == |p.other| >= 4 && op.Rewrite? && Legal(p, op)
    ensures op.end <= |p.cur| && Within(p, op, |Bytes(p, op)|)
    ensures var q := Done(p, op);
            && Good(q) && LogOf(q) == op.es
            && ScanBlock(q.cur).off == op.end && Stops(q.cur, op.end, ScanBlock(q.cur).etag)
  {
    hide ScanBlock, Holds, SoundLog, CommitBytes, Rev, Newer, Content, Header, HeaderCrc, Seal, Done, Bytes,
         Stops, Chain.LastPtag, NoCrc, AllWritten;
    Rewritten(p, op);
    var h, c := Header(p, op.rev), HeaderCrc(p, op.rev);
    HeaderHolds(p, op.rev);
    SoundNothing();
    SealedGood(h, 4, T.NULL, c, op.es, op.end, []);
    assert [] + op.es == op.es;
  }

  lemma SoundNothing()
    ensures SoundLog([]) && Content([]) == []
  {}

  lemma OpDone(p: Pair, op: Op)
    requires Sound(p) && Legal(p, op) && (op.Append? ==> Good(p))
    ensures op.end <= |p.cur| && Within(p, op, |Bytes(p, op)|)
    ensures Good(Done(p, op)) && LogOf(Done(p, op)) == Expected(LogOf(p), op)
  {
    hide ScanBlock, Good, Legal, LogOf, Bytes, Newest;
    if op.Append? {
      AppendDone(p, op);
    } else {
      RewriteDone(p, op);
    }
  }

  // ---------- The code that programs these bytes ----------

  /** The append of lfs_dir_commit: exactly the operation, or the attributes before the first one that does not fit. */
  method AppendBlock(p: Pair, es: seq<Entry>, prog: nat) returns (q: Pair, ok: bool, k: nat)
    requires |p.cur| >= 8 && prog > 0 && |p.cur| % prog == 0 && Attrs(es) && (es != [] || ScanBlock(p.cur).off + 8 <= |p.cur|)
    ensures k <= |es| && ok == (k == |es|)
    ensures ok ==> var f := ScanBlock(p.cur);
                   var op := Append(es, AlignUp(f.off + |Chain.Enc(es, f.etag)| + 8, prog));
                   op.end <= |p.cur| && Within(p, op, |Bytes(p, op)|) && q == Done(p, op)
    ensures !ok ==> var f := ScanBlock(p.cur);
                    var m := |Chain.Enc(es[..k], f.etag)|;
                    && f.off + m <= |p.cur| < f.off + m + T.Dsize(es[k].tag) + 8
                    && q == Refuse(p, es[..k], m)
  {
    hide ScanBlock, Chain.Enc, Crc.Crc32, Attrs, T.Dsize, AlignUp, CommitBytes;
    var off, etag, _, _ := FetchBlock(p.cur, prog);
    FoundBounds(p.cur);
    var w := new Writer(p.cur, off, etag);
    NoCrcYet(p.cur, off);
    ok, k := w.Commit(es, prog);
    q := Pair(w.blk, p.other);
    if ok {
      ghost var s := CommitBytes(p.cur, off, etag, T.NULL, es, w.off);
      assert s[..|s|] == s;
    } else {
      ghost var s := Chain.Enc(es[..k], etag);
      assert s[..|s|] == s;
    }
  }

  lemma NoCrcYet(blk: seq<byte>, off: nat)
    requires off <= |blk|
    ensures Crc.Crc32(T.NULL, blk[off..off]) == T.NULL
  {}

  /** The rewrite of lfs_dir_compact: the other block is erased, the next revision count and then the entries; `rev` is the
      revision in memory. */
  method RewriteBlock(p: Pair, rev: bv32, es: seq<Entry>, prog: nat) returns (q: Pair, ok: bool, k: nat)
    requires |p.cur| >= 12 && prog > 0 && |p.cur| % prog == 0 && Attrs(es)
    ensures k <= |es| && ok == (k == |es|)
    ensures ok ==> var op := Rewrite(es, AlignUp(4 + |Chain.Enc(es, T.NULL)| + 8, prog), rev + 1);
                   op.end <= |p.cur| && Within(p, op, |Bytes(p, op)|) && q == Done(p, op)
    ensures !ok ==> 4 + |Chain.Enc(es[..k], T.NULL)| + T.Dsize(es[k].tag) + 8 > |p.cur|
  {
    hide ScanBlock, Chain.Enc, Crc.Crc32, Attrs, T.Dsize, AlignUp, CommitBytes, ToLe32, Rev, Header;
    var header := ToLe32(rev + 1);
    var w := new Writer(Blank(|p.cur|), 0, T.NULL);
    NoCrcYet(w.blk, 0);
    w.CommitProg(header);
    HeaderThen(p, rev + 1, []);
    ProgramNothing(Header(p, rev + 1), 4);
    HeaderHolds(p, rev + 1);
    assert header + [] == header;
    ok, k := w.Commit(es, prog);
    q := Pair(w.blk, p.cur);
    if ok {
      ghost var s := CommitBytes(Header(p, rev + 1), 4, T.NULL, HeaderCrc(p, rev + 1), es, w.off);
      HeaderThen(p, rev + 1, s);
      assert (header + s)[..|header + s|] == header + s;
    }
  }

  /** Checksums say nothing about the directory: the same log content replays to the same directory. */
  lemma {:induction false} ReplayContent(log: seq<Entry>)
    ensures Replay(Content(log)) == Replay(log)
  {
    hide Apply;
    if log != [] {
      var e, rest := log[|log| - 1], log[..|log| - 1];
      ReplayContent(rest);
      CrcSaysNothing(Replay(rest), e);
      if !e.tag.kind.Crc? {
        assert Content(log)[..|Content(log)| - 1] == Content(rest);
      } else {
        assert Content(log) == Content(rest);
      }
    }
  }

  lemma CrcSaysNothing(dir: Dir, e: Entry)
    ensures e.tag.kind.Crc? ==> Apply(dir, e) == dir
  {}
}
