/** The rule of lfs_dir_commit that directories of 255 files or more are appended to whatever the erased flag says. */
module Escape {
  import opened Words
  import opened Arith
  import opened Log
  import opened Fetch
  import opened Crash
  import opened Atomic
  import opened Commit
  import opened Pair
  import opened Runs
  import opened Flags
  import Chain
  import Crc
  import CtzIndex
  import Trusting
  import T = Tag

  // ---------- The number that is tested ----------

  /** The loop over the attributes of a commit: creates and deletes move the file count. */
  function NewCount(count: int, es: seq<Entry>): int
    decreases es
  {
    if es == [] then count
    else
      var t := es[|es| - 1].tag;
      NewCount(count, es[..|es| - 1])
      + if t.kind.Splice? then if t.chunk == T.CREATE then 1 else if t.chunk == T.DELETE then -1 else 0 else 0
  }

  /** Every name among the attributes is that of a file which exists by then. */
  ghost predicate NamesKnown(count: int, es: seq<Entry>)
    decreases es
  {
    es != [] ==>
      && NamesKnown(count, es[..|es| - 1])
      && (es[|es| - 1].tag.kind.Name? ==> es[|es| - 1].tag.id < NewCount(count, es[..|es| - 1]))
  }

  /** So the commit counts what a scan of the longer log will count. */
  lemma {:induction false} NewCountIsScanned(log: seq<Entry>, es: seq<Entry>)
    requires NamesKnown(Count(log), es)
    ensures Count(log + es) == NewCount(Count(log), es)
    decreases es
  {
    if es == [] {
      assert log + es == log;
    } else {
      NewCountIsScanned(log, es[..|es| - 1]);
      assert (log + es)[..|log + es| - 1] == log + es[..|es| - 1];
    }
  }

  lemma {:induction false} NewCountShifts(count: int, es: seq<Entry>)
    ensures NewCount(count, es) == count + NewCount(0, es)
    decreases es
  {
    if es != [] {
      NewCountShifts(count, es[..|es| - 1]);
    }
  }

  /** How lfs_dir_commit chooses between appending and compacting. */
  predicate Appends(erased: bool, count: int) { erased || count >= 0xff }

  /** After this run the code appends `es`, and the directory will have `count` files. */
  ghost predicate AppendsTo(s: State, evs: seq<Event>, t: State, prog: nat, es: seq<Entry>, end: nat, count: int)
    requires prog > 0
  {
    && Inv(s, prog) && Run(s, evs, t, prog) && !t.owed && |t.pair.cur| >= 4
    && Legal(t.pair, Append(es, end))
    && count == NewCount(Count(LogOf(t.pair)), es) && Appends(t.erased, count)
  }

  // ---------- A directory filled by the code ----------

  /** The attributes of a new file: create, name and an empty inline struct. */
  function NewFile(id: nat): seq<Entry>
    requires id < 0x3ff
  {
    [Entry(T.Tag(T.Splice, T.CREATE, id, 0), []),
     Entry(T.Tag(T.Name, 1, id, 2), [(0x41 + id / 32) as byte, (0x41 + id % 32) as byte]),
     Entry(T.Tag(T.Struct, 1, id, 0), [])]
  }

  /** The first commit of a directory at the end of the list of all directories: a soft tail. */
  const TAIL := [Entry(T.Tag(T.Tail, 0, 0x3ff, 8), Blank(8))]

  /** The log of a directory in which `n` files were created one after the other. */
  function Created(n: nat): seq<Entry>
    requires n <= 0x3ff
  {
    if n == 0 then TAIL else Created(n - 1) + NewFile(n - 1)
  }

  lemma CountNew(log: seq<Entry>, id: nat)
    requires id < 0x3ff && Count(log) == id
    ensures Count(log + NewFile(id)) == id + 1
  {
    var es := NewFile(id);
    CountOne(log, es[0]);
    CountOne(log + [es[0]], es[1]);
    CountOne(log + [es[0]] + [es[1]], es[2]);
    assert log + [es[0]] + [es[1]] + [es[2]] == log + es;
  }

  lemma CountOne(log: seq<Entry>, e: Entry)
    ensures Count(log + [e]) == CountStep(Count(log), e.tag)
  {
    assert (log + [e])[..|log + [e]| - 1] == log;
  }

  lemma {:induction false} CountCreated(n: nat)
    requires n <= 0x3ff
    ensures Count(Created(n)) == n
  {
    hide NewFile;
    if n == 0 {
      assert TAIL[..0] == [];
    } else {
      CountCreated(n - 1);
      CountNew(Created(n - 1), n - 1);
    }
  }

  lemma {:induction false} EncLength(es: seq<Entry>, p: bv32, q: bv32)
    ensures |Chain.Enc(es, p)| == |Chain.Enc(es, q)|
    decreases es
  {
    if es != [] {
      EncLength(es[..|es| - 1], p, q);
    }
  }

  lemma NewFileFits(id: nat, p: bv32)
    requires id < 0x3ff
    ensures NewFile(id) != [] && NoCrc(NewFile(id)) && AllWritten(NewFile(id)) && |Chain.Enc(NewFile(id), p)| == 14
  {
    var es := NewFile(id);
    assert es[..2][..1] == es[..1] && es[..1][..0] == [];
    assert |Chain.Enc(es[..1], p)| == 4;
    assert |Chain.Enc(es[..2], p)| == 10;
  }

  lemma TailFits(p: bv32)
    ensures NoCrc(TAIL) && AllWritten(TAIL) && |Chain.Enc(TAIL, p)| == 12
  {
    assert TAIL[..0] == [];
  }

  /** No more than this is needed for `n` files. */
  function Room(n: nat, prog: nat): nat {
    24 + prog + if n == 0 then 0 else Room(n - 1, prog)
  }

  /** Mounted with `n` files and erased flash behind them. */
  ghost predicate Filled(s: State, n: nat, prog: nat, size: nat)
    requires prog > 0 && n <= 0x3ff
  {
    && Inv(s, prog) && s.erased && !s.owed && Erased(s.pair.cur, prog) && |s.pair.cur| == size
    && LogOf(s.pair) == Created(n) && ScanBlock(s.pair.cur).off <= Room(n, prog)
  }

  /** One more event at the end of a run. */
  lemma {:induction false} RunSnoc(s: State, evs: seq<Event>, t: State, ev: Event, prog: nat)
    requires prog > 0 && Inv(s, prog) && Run(s, evs, t, prog) && Inv(t, prog) && Enabled(t, ev, prog)
    ensures Run(s, evs + [ev], Next(t, ev, prog), prog)
    decreases evs
  {
    hide Sound, Erased, Good, Enabled, Next;
    InvSize(t, prog);
    if evs == [] {
      assert evs + [ev] == [ev] && [ev][1..] == [];
    } else {
      InvSize(s, prog);
      StepInv(s, evs[0], prog);
      RunSnoc(Next(s, evs[0], prog), evs[1..], t, ev, prog);
      assert (evs + [ev])[0] == evs[0] && (evs + [ev])[1..] == evs[1..] + [ev];
    }
  }

  /** A directory just made in two erased blocks, and mounted. */
  lemma FirstFilled(prog: nat, size: nat) returns (s: State, evs: seq<Event>, t: State)
    requires prog > 0 && size >= 32 + prog
    ensures Inv(s, prog) && Run(s, evs, t, prog) && Filled(t, 0, prog, size)
  {
    hide ScanBlock, Newest, SoundLog, Holds, Stops, Bytes, Done, Within, Content, Chain.Enc, Run, Mounted,
         Fetched, Erased, LogOf, AlignUp;
    var p := Pair(Blank(size), Blank(size));
    var op := Rewrite(TAIL, AlignUp(24, prog), AllocRev(0xffff_ffff));
    AlignUpBounds(24, prog);
    TailFits(T.NULL);
    BlankRev(size);
    AllocIsNewer(0xffff_ffff);
    FirstCommit(p, op, false, prog);
    RewriteDone(p, op);
    FirstReady(p, op, prog);
    s := State(Done(p, op), false, false);
    FetchedInv(s.pair, s.pair, prog);
    t := Next(s, Remount, prog);
    evs := [Remount];
    RunOne(s, Remount, prog);
    DoneSize(p, op);
  }

  lemma BlankRev(size: nat)
    requires size >= 4
    ensures Rev(Blank(size)) == 0xffff_ffff
  {
    assert Blank(size)[..4] == [ERASED, ERASED, ERASED, ERASED];
  }

  lemma FirstReady(p: Pair, op: Op, prog: nat)
    requires prog > 0 && |p.cur| == |p.other| >= 4 && op.Rewrite? && Legal(p, op)
    requires op.end % prog == 0 && op.end + 4 <= |p.cur|
    ensures op.end <= |p.cur| && Within(p, op, |Bytes(p, op)|) && Erased(Done(p, op).cur, prog)
  {
    hide ScanBlock, Newest, SoundLog, Holds, Stops, Legal, Bytes, LogOf;
    RewriteDone(p, op);
  }

  lemma RunOne(s: State, ev: Event, prog: nat)
    requires prog > 0 && Inv(s, prog) && Enabled(s, ev, prog)
    ensures |s.pair.cur| == |s.pair.other| >= 4 && Run(s, [ev], Next(s, ev, prog), prog)
  {
    hide Sound, Erased, Good, Enabled, Next;
    InvSize(s, prog);
    StepInv(s, ev, prog);
    assert [ev][1..] == [];
  }

  lemma DoneSize(p: Pair, op: Op)
    requires |p.cur| >= 4 && op.end <= |p.cur| && Within(p, op, |Bytes(p, op)|)
    ensures |Done(p, op).cur| == |p.cur|
  {}

  /** The code creates one more file. */
  lemma FillOne(s: State, n: nat, prog: nat, size: nat) returns (op: Op)
    requires prog > 0 && n < 0x3ff && Filled(s, n, prog, size) && Room(n + 1, prog) + 4 <= size
    ensures |s.pair.cur| == |s.pair.other| >= 4 && Enabled(s, Commit(op), prog)
    ensures Filled(Next(s, Commit(op), prog), n + 1, prog, size)
  {
    hide ScanBlock, Newest, SoundLog, Holds, Stops, Bytes, Done, Within, Content, Chain.Enc, LogOf, AlignUp,
         Erased, NewFile, NoCrc, AllWritten;
    var f := ScanBlock(s.pair.cur);
    op := Append(NewFile(n), AlignUp(f.off + 22, prog));
    AlignUpBounds(f.off + 22, prog);
    NewFileFits(n, f.etag);
    assert Legal(s.pair, op);
    CommitStep(s, op, prog);
    CommitReady(s.pair, op, prog);
    AppendDone(s.pair, op);
    DoneSize(s.pair, op);
  }

  /** A run in which the code makes a directory and creates `n` files in it, one commit each. */
  lemma {:induction false} Fill(n: nat, prog: nat, size: nat) returns (s: State, evs: seq<Event>, t: State)
    requires prog > 0 && n <= 0x3ff && Room(n, prog) + 8 <= size
    ensures Inv(s, prog) && Run(s, evs, t, prog) && Filled(t, n, prog, size)
    decreases n
  {
    hide Filled, Run, Inv, Next, Enabled;
    if n == 0 {
      s, evs, t := FirstFilled(prog, size);
    } else {
      var u;
      s, evs, u := Fill(n - 1, prog, size);
      var op := FillOne(u, n - 1, prog, size);
      FilledInv(u, n - 1, prog, size);
      t := Next(u, Commit(op), prog);
      RunSnoc(s, evs, u, Commit(op), prog);
      evs := evs + [Commit(op)];
    }
  }

  lemma FilledInv(s: State, n: nat, prog: nat, size: nat)
    requires prog > 0 && n <= 0x3ff && Filled(s, n, prog, size)
    ensures Inv(s, prog) && |s.pair.cur| == size
  {}

  // ---------- The flag that lies ----------

  /** The tag behind which the next append goes when the attributes end right before the checksum: just a checksum. */
  lemma FirstChain(p: Pair, rev: bv32, es: seq<Entry>, end: nat)
    requires |p.cur| >= 4 && 4 + |Chain.Enc(es, T.NULL)| + 8 == end <= |p.cur|
    ensures var w := Chain.LastPtag(es + Seal(Header(p, rev), 4, T.NULL, HeaderCrc(p, rev), es, end), T.NULL);
            T.IsValid(w) && T.FromWord(w).size == 4
  {
    hide T.FromWord, Footer, Footers, FooterTag, HeaderCrc, Chain.Enc, Crc.Crc32, ToLe32, Chain.LastPtag,
         T.ToWord, T.IsValid;
    var h, q, c := Header(p, rev), Chain.LastPtag(es, T.NULL), Crc.Crc32(HeaderCrc(p, rev), Chain.Enc(es, T.NULL));
    var t, at := T.Tag(T.Crc, 0, 0x3ff, 4), end - 8;
    assert FooterTag(h, at, end) == t by { FirstFooterTag(p, rev, at, end); }
    FootersStep(h, at, end, q, c);
    FooterHasTag(h, at, end, q, c);
    NoFooters(h, end, Chain.NextPtag(t));
    T.WordRoundTrip(t);
    assert Seal(h, 4, T.NULL, HeaderCrc(p, rev), es, end) == Footers(h, at, end, q, c) == [Footer(h, at, end, q, c)];
    LastOf(es, Footer(h, at, end, q, c));
  }

  lemma LastOf(es: seq<Entry>, e: Entry)
    requires e.tag.chunk == 0
    ensures Chain.LastPtag(es + [e], T.NULL) == T.ToWord(e.tag)
  {}

  lemma FirstFooterTag(p: Pair, rev: bv32, at: nat, end: nat)
    requires 4 <= at && at + 8 == end <= |p.cur|
    ensures FooterTag(Header(p, rev), at, end) == T.Tag(T.Crc, 0, 0x3ff, 4)
  {}

  /** The directory of `FirstFilled` in blocks of 128 bytes, with what its last tag says. */
  lemma SmallDirectory() returns (s: State, evs: seq<Event>, t: State)
    ensures Inv(s, 8) && Run(s, evs, t, 8) && Inv(t, 8) && t.erased && !t.owed && Good(t.pair) && |t.pair.cur| == 128
    ensures var f := ScanBlock(t.pair.cur); f.off == 24 && T.IsValid(f.etag) && T.FromWord(f.etag).size == 4
  {
    hide ScanBlock, Newest, SoundLog, Holds, Stops, Bytes, Done, Within, Content, Chain.Enc, Run, Mounted,
         Fetched, Erased, LogOf, T.IsValid, T.FromWord, Chain.LastPtag, Seal, HeaderCrc, Header, CommitBytes;
    var p := Pair(Blank(128), Blank(128));
    var op := Rewrite(TAIL, 24, AllocRev(0xffff_ffff));
    TailFits(T.NULL);
    BlankRev(128);
    AllocIsNewer(0xffff_ffff);
    FirstCommit(p, op, false, 8);
    RewriteDone(p, op);
    FirstReady(p, op, 8);
    s := State(Done(p, op), false, false);
    FetchedInv(s.pair, s.pair, 8);
    t := Next(s, Remount, 8);
    evs := [Remount];
    RunOne(s, Remount, 8);
    DoneSize(p, op);
    Rewritten(p, op);
    FirstChain(p, op.rev, TAIL, 24);
  }

  lemma LiesAfter(p: Pair, es: seq<Entry>)
    requires Good(p) && Tried(p, es, 1) && es != [] && |p.cur| == 128 && ScanBlock(p.cur).off == 24
    requires T.IsValid(ScanBlock(p.cur).etag) && T.FromWord(ScanBlock(p.cur).etag).size == 4
    ensures var q := Refuse(p, es, 1);
            Sound(q) && LogOf(q) == LogOf(p) && Erased(q.cur, 8) && !Holds(q.cur, ScanBlock(q.cur).off, [])
  {
    hide ScanBlock, Newest, SoundLog, Holds, Erased, Stops, Good, Chain.Enc, T.FromWord, T.IsValid, Content,
         Tried, Refuse, Sound;
    RefusedSound(p, es, 1);
    FlagLies(p, es, 1, 8);
  }

  /** The flag can be wrong: power lost after the first byte of the commit that creates the first file. */
  lemma LyingFlag() returns (s: State, evs: seq<Event>, t: State, op: Op)
    ensures Inv(s, 8) && Run(s, evs, t, 8) && |t.pair.cur| == 128 && CtzIndex.InitAssert(|t.pair.cur|)
    ensures MayTry(t, op) && op.Append? && Within(t.pair, op, 1)
    ensures var q := After(t.pair, op, 1);
            && Sound(q) && LogOf(q) == LogOf(t.pair) && Mounted(q) == q
            && Erased(q.cur, 8) && !Holds(q.cur, ScanBlock(q.cur).off, [])
  {
    hide ScanBlock, Newest, SoundLog, Holds, Erased, Stops, NewFile, NoCrc, AllWritten, Chain.Enc, Refuse,
         T.FromWord, T.IsValid, Run, Mounted, After, Bytes, Inv, Good, LogOf, CtzIndex.InitAssert;
    s, evs, t := SmallDirectory();
    op := Append(NewFile(0), 48);
    NewFileFits(0, ScanBlock(t.pair.cur).etag);
    assert Legal(t.pair, op);
    TornIsRefused(t.pair, op, 1);
    LiesAfter(t.pair, NewFile(0));
    CtzIndex.AssertAccepts(128);
    MountsSound(After(t.pair, op, 1));
  }

  // ---------- Exactly when ----------

  /** `m` empty user attributes of the first file. */
  function Notes(m: nat): seq<Entry> {
    seq(m, i => Entry(T.Tag(T.UserAttr, 0x74, 0, 0), []))
  }

  lemma {:induction false} NotesFit(m: nat, p: bv32)
    ensures NoCrc(Notes(m)) && AllWritten(Notes(m)) && |Chain.Enc(Notes(m), p)| == 4 * m
  {
    if m > 0 {
      NotesFit(m - 1, p);
      assert Notes(m)[..m - 1] == Notes(m - 1);
    }
  }

  /** Power lost between two program units of an append, and then the next append. */
  lemma Overwritten(u: State, n: nat, prog: nat, es: seq<Entry>) returns (op: Op, cut: nat, end: nat)
    requires prog > 0 && 0 < n <= 0x3ff && Filled(u, n, prog, |u.pair.cur|) && NoCrc(es) && AllWritten(es)
    requires Room(n, prog) + 4 * AlignUp(4, prog) + |Chain.Enc(es, T.NULL)| + 8 + prog <= |u.pair.cur|
    ensures |u.pair.cur| == |u.pair.other| >= 4 && Enabled(u, Lost(op, cut), prog)
    ensures (Start(u.pair, op) + cut) % prog == 0
    ensures var t := Next(u, Lost(op, cut), prog);
            && !Good(t.pair) && !t.erased && !t.owed && |t.pair.cur| == |u.pair.cur|
            && LogOf(t.pair) == Created(n) && Legal(t.pair, Append(es, end)) && SoundLog(ScanBlock(t.pair.cur).log)
  {
    hide ScanBlock, Newest, SoundLog, Holds, Stops, Bytes, Content, Chain.Enc, AlignUp, Good, NoCrc, AllWritten,
         Notes, Next, Enabled, Room, Created;
    var f := ScanBlock(u.pair.cur);
    cut := AlignUp(4, prog);
    op := Append(Notes(cut), AlignUp(f.off + 4 * cut + 8, prog));
    AlignUpBounds(4, prog);
    AlignUpBounds(f.off + 4 * cut + 8, prog);
    NotesFit(cut, f.etag);
    LossDirties(u, op, cut, prog);
    end := AlignUp(f.off + |Chain.Enc(es, f.etag)| + 8, prog);
    AlignUpBounds(f.off + |Chain.Enc(es, f.etag)| + 8, prog);
    EncLength(es, f.etag, T.NULL);
    SumAligned(f.off, cut, prog);
    assert SoundLog(f.log) by { GoodLog(u.pair); }
  }

  lemma GoodLog(p: Pair)
    requires Good(p)
    ensures SoundLog(ScanBlock(p.cur).log)
  {}

  lemma SumAligned(a: nat, b: nat, n: nat)
    requires n > 0 && a % n == 0 && b % n == 0
    ensures (a + b) % n == 0
  {
    var x, y := a / n, b / n;
    assert a + b == n * (x + y) by { assert a == n * x && b == n * y; }
    DivModUnique(a + b, n, x + y, 0);
  }

  /** The exception is real: for all attributes and every number of files from 255 on the code makes a directory, creates
      files, loses power in an append, and then appends these attributes over programmed flash. */
  lemma EscapeReached(prog: nat, es: seq<Entry>, count: int) returns (s: State, evs: seq<Event>, t: State, end: nat)
    requires prog > 0 && NoCrc(es) && AllWritten(es) && 0 < count - NewCount(0, es) <= 0x3ff && count >= 0xff
    ensures AppendsTo(s, evs, t, prog, es, end, count) && !Good(t.pair) && Trusting.Whole(t.pair)
    ensures LogOf(t.pair) == Created(count - NewCount(0, es)) && |t.pair.cur| >= 128 && |t.pair.cur| % prog == 0
  {
    hide ScanBlock, Filled, Run, Inv, Next, Enabled, Created, Room, NewCount, AlignUp, Chain.Enc, NoCrc,
         AllWritten, Good, Legal, LogOf, Count;
    var n := count - NewCount(0, es);
    var least := Room(n, prog) + 4 * AlignUp(4, prog) + |Chain.Enc(es, T.NULL)| + 128 + prog;
    var size := AlignUp(least, prog);
    AlignUpBounds(least, prog);
    var u;
    s, evs, u := Fill(n, prog, size);
    FilledInv(u, n, prog, size);
    var op, cut;
    op, cut, end := Overwritten(u, n, prog, es);
    t := Next(u, Lost(op, cut), prog);
    RunSnoc(s, evs, u, Lost(op, cut), prog);
    evs := evs + [Lost(op, cut)];
    CountCreated(n);
    NewCountShifts(n, es);
    RunInv(s, evs, t, prog);
    InvSound(t, prog);
  }

  lemma InvSound(s: State, prog: nat)
    requires prog > 0 && Inv(s, prog)
    ensures Sound(s.pair)
  {}

  /** Over all runs, appending `es` programs erased flash if and only if the directory will have fewer than 255 files. */
  lemma EscapeIff(prog: nat, es: seq<Entry>, count: int)
    requires prog > 0 && NoCrc(es) && AllWritten(es) && 0 < count - NewCount(0, es) <= 0x3ff
    ensures (forall s, evs, t, end :: AppendsTo(s, evs, t, prog, es, end, count) ==> Good(t.pair)) <==> count < 0xff
  {
    hide Good, NewCount, AppendsTo, NoCrc, AllWritten;
    if count < 0xff {
      forall s, evs, t, end | AppendsTo(s, evs, t, prog, es, end, count) ensures Good(t.pair) {
        FlagFollowed(s, evs, t, prog, es, end, count);
      }
    } else {
      var s, evs, t, end := EscapeReached(prog, es, count);
    }
  }

  lemma FlagFollowed(s: State, evs: seq<Event>, t: State, prog: nat, es: seq<Entry>, end: nat, count: int)
    requires prog > 0 && AppendsTo(s, evs, t, prog, es, end, count) && count < 0xff
    ensures Good(t.pair)
  {
    hide Good, Sound, NewCount, Run, Legal, Erased, Count, LogOf;
    RunInv(s, evs, t, prog);
  }
}
