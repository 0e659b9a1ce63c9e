/** Runs in which appends may go over programmed flash, as far as no corruption goes unnoticed by the checksum. */
module Trusting {
  import opened Options
  import opened Words
  import opened Log
  import opened Fetch
  import opened Crash
  import opened Commit
  import opened Atomic
  import opened Pair
  import opened Overwrite
  import Chain
  import Crc
  import Runs
  import T = Tag

  // ---------- What is on flash ----------

  /** The block being written after the first `n` bytes; an append clears bits of whatever is there. */
  function Laid(p: Pair, op: Op, n: nat): (b: seq<byte>)
    requires |p.cur| >= 4 && Within(p, op, n)
    ensures |b| == |p.cur|
  {
    if op.Append? then Over(p.cur, ScanBlock(p.cur).off, Bytes(p, op)[..n]) else Torn(p, op, n)
  }

  predicate Complete(p: Pair, op: Op)
    requires |p.cur| >= 4
  {
    op.end <= |p.cur| && Within(p, op, |Bytes(p, op)|)
  }

  function LaidPair(p: Pair, op: Op, n: nat): Pair
    requires |p.cur| >= 4 && Within(p, op, n)
  {
    if op.Append? then Pair(Laid(p, op, n), p.other) else Pair(p.cur, Laid(p, op, n))
  }

  /** The next scan of the written block accepts no checksum over bytes that are not those of the operation. */
  ghost predicate Noticed(p: Pair, op: Op, n: nat)
    requires |p.cur| >= 4 && Within(p, op, n) && Complete(p, op)
  {
    var b, w, f := Laid(p, op, n), Done(p, op).cur, ScanBlock(p.cur);
    |b| == |w| &&
    if op.Append? then Genuine(b, w, f.off, f.off, f.etag, T.NULL)
    else n >= 4 ==> Genuine(b, w, 0, 4, T.NULL, HeaderCrc(p, op.rev))
  }

  /** Where the first checksum entry of an append stands. */
  function SealAt(p: Pair, op: Op): nat
    requires |p.cur| >= 4
  {
    var f := ScanBlock(p.cur);
    f.off + |Chain.Enc(op.es, f.etag)|
  }

  /** The code's read-back accepts the complete append. */
  predicate Accepted(p: Pair, op: Op)
    requires |p.cur| >= 4 && op.Append? && Complete(p, op) && SealAt(p, op) + 8 <= op.end
  {
    ReadBack(Laid(p, op, |Bytes(p, op)|), ScanBlock(p.cur).off, SealAt(p, op), op.end)
  }

  /** And it does so over no bytes that are not those of the append. */
  ghost predicate ReadReliably(p: Pair, op: Op)
    requires |p.cur| >= 4 && op.Append? && Complete(p, op) && SealAt(p, op) + 8 <= op.end
  {
    var b, w := Laid(p, op, |Bytes(p, op)|), Done(p, op).cur;
    |b| == |w| && Reliable(b, w, ScanBlock(p.cur).off, SealAt(p, op), op.end)
  }

  /** Mountable, and every checksum entry has room for its checksum. */
  ghost predicate Whole(p: Pair) {
    Sound(p) && SoundLog(ScanBlock(p.cur).log)
  }

  // ---------- One operation ----------

  lemma WholeBlock(p: Pair, op: Op)
    requires |p.cur| >= 4 && op.Append? && Complete(p, op)
    ensures Done(p, op).cur == Program(p.cur, ScanBlock(p.cur).off, Bytes(p, op))
    ensures Laid(p, op, |Bytes(p, op)|) == Over(p.cur, ScanBlock(p.cur).off, Bytes(p, op))
  {
    hide ScanBlock, Bytes;
    var s := Bytes(p, op);
    assert s[..|s|] == s;
  }

  /** An append over anything, cut off anywhere or complete. */
  lemma DirtyAppend(p: Pair, op: Op, n: nat)
    requires Whole(p) && op.Append? && Legal(p, op) && Within(p, op, n) && Complete(p, op) && Noticed(p, op, n)
    ensures var q := LaidPair(p, op, n);
            Whole(q) && LogOf(q) in {LogOf(p), Expected(LogOf(p), op)}
  {
    hide ScanBlock, SoundLog, CommitBytes, Fits, Scan, Rev, Newer, Content, Genuine, Over, Done, Chain.Enc;
    var f, s := ScanBlock(p.cur), Bytes(p, op)[..n];
    FoundBounds(p.cur);
    OpBounds(p, op);
    WholeBlock(p, op);
    var b := Over(p.cur, f.off, s);
    OverOutside(p.cur, f.off, s, op.end);
    DirtyCommit(b, p.cur, f.off, f.off, f.etag, T.NULL, op.es, op.end, f);
    SameStart(p.cur, b, f);
    ScanKeepsBest(b, f.off, f.etag, T.NULL, [], f);
  }

  /** An append that is read back without error is found whole. */
  lemma AcceptedAppend(p: Pair, op: Op)
    requires Whole(p) && op.Append? && Legal(p, op) && Complete(p, op) && SealAt(p, op) + 8 <= op.end
    requires Accepted(p, op) && ReadReliably(p, op)
    ensures var q := LaidPair(p, op, |Bytes(p, op)|);
            Sound(q) && LogOf(q) == Expected(LogOf(p), op)
  {
    hide ScanBlock, SoundLog, CommitBytes, Scan, Rev, Newer, Content, Over, Done, Chain.Enc, ReadBack, Reliable,
         Chain.LastPtag, Seal, NoCrc, AllWritten, Stops;
    var f, es, end := ScanBlock(p.cur), op.es, op.end;
    FoundBounds(p.cur);
    OpBounds(p, op);
    WholeBlock(p, op);
    AcceptedWhole(p.cur, f.off, f.off, f.etag, T.NULL, es, end);
    var b := Program(p.cur, f.off, Bytes(p, op));
    ProgramReads(p.cur, f.off, Bytes(p, op));
    SameStart(p.cur, b, f);
    WholeCommit(p.cur, f.off, f.etag, T.NULL, es, end, f);
    SealContent(p.cur, f.off, f.etag, T.NULL, es, end, f.log);
  }

  lemma SealContent(blk: seq<byte>, off: nat, p: bv32, crc: bv32, es: seq<Entry>, end: nat, before: seq<Entry>)
    requires Fits(blk, off, p, es, end)
    ensures var fs := Seal(blk, off, p, crc, es, end);
            Content(before + es + fs) == Content(before) + es
  {
    hide Content, Footers, Chain.LastPtag, Chain.Enc, AllWritten;
    var fs, at := Seal(blk, off, p, crc, es, end), off + |Chain.Enc(es, p)|;
    FootersTile(blk, at, end, Chain.LastPtag(es, p), Crc.Crc32(crc, Chain.Enc(es, p)));
    ContentAppend(before + es, fs);
    ContentAppend(before, es);
    ContentOfPlain(es);
    ContentOfCrcs(fs);
  }

  /** A rewrite cut off anywhere. */
  lemma DirtyRewrite(p: Pair, op: Op, n: nat)
    requires Whole(p) && op.Rewrite? && Legal(p, op) && Within(p, op, n) && Complete(p, op) && Noticed(p, op, n)
    ensures var b := Torn(p, op, n);
            || Whole(Pair(p.cur, b))
            || (Whole(Pair(b, p.cur)) && Content(ScanBlock(b).log) == op.es)
  {
    hide ScanBlock, SoundLog, CommitBytes, Fits, Scan, Rev, Newer, Content, Genuine, Done, Chain.Enc, Header,
         HeaderCrc, TornBlock, Newest, Torn, Chain.LastPtag, Seal, Stops;
    RewriteTorn(p, op, n);
    var b := Torn(p, op, n);
    if ScanBlock(b).off != 0 {
      if n < 4 {
        ShortHeader(|p.cur|, Bytes(p, op)[..n]);
        StartsBlank(p, op, n);
        assert false;
      }
      var h, c := Header(p, op.rev), HeaderCrc(p, op.rev);
      var t := CommitBytes(h, 4, T.NULL, c, op.es, op.end);
      Rewritten(p, op);
      TornRewrite(p, op, n);
      ProgramReads(h, 4, t[..n - 4]);
      EndsBlank(h, 4, t[..n - 4], op.end);
      SoundNothing();
      DirtyCommit(b, h, 0, 4, T.NULL, c, op.es, op.end, NOTHING);
      RewrittenScan(p, op.rev, t[..n - 4]);
    }
  }

  lemma StartsBlank(p: Pair, op: Op, n: nat)
    requires |p.cur| >= 4 && op.Rewrite? && Within(p, op, n)
    ensures Torn(p, op, n) == Program(Blank(|p.cur|), 0, Bytes(p, op)[..n])
  {}

  lemma EndsBlank(h: seq<byte>, off: nat, s: seq<byte>, end: nat)
    requires off + |s| <= end <= |h|
    ensures Program(h, off, s)[end..] == h[end..]
  {}

  // ---------- Whole runs ----------

  datatype Event =
    | Write(op: Op)         // the operation is carried out; an append is then accepted or refused
    | Cut(op: Op, n: nat)   // power is lost after `n` bytes of the operation, and the pair is mounted again

  /** No flag is asked; corruption is noticed by the scans to come and by the read-back. */
  ghost predicate Enabled(p: Pair, ev: Event)
    requires |p.cur| >= 4
  {
    match ev
    case Write(op) =>
      Legal(p, op) && Complete(p, op)
      && (op.Append? ==> SealAt(p, op) + 8 <= op.end && Noticed(p, op, |Bytes(p, op)|) && ReadReliably(p, op))
    case Cut(op, n) => Legal(p, op) && Complete(p, op) && Within(p, op, n) && Noticed(p, op, n)
  }

  ghost function Next(p: Pair, ev: Event): Pair
    requires |p.cur| == |p.other| >= 4 && Enabled(p, ev)
  {
    match ev
    case Write(op) => if op.Append? then LaidPair(p, op, |Bytes(p, op)|) else Done(p, op)
    case Cut(op, n) => Runs.Mounted(LaidPair(p, op, n))
  }

  /** An accepted commit is all there; a refused or interrupted one all or nothing. */
  ghost predicate Outcome(p: Pair, ev: Event, q: Pair)
    requires |p.cur| >= 4 && |q.cur| >= 4 && Enabled(p, ev)
  {
    match ev
    case Write(op) =>
      if op.Append? && !Accepted(p, op) then LogOf(q) in {LogOf(p), Expected(LogOf(p), op)}
      else LogOf(q) == Expected(LogOf(p), op)
    case Cut(op, _) => LogOf(q) in {LogOf(p), Expected(LogOf(p), op)}
  }

  lemma WriteStep(p: Pair, op: Op)
    requires Whole(p) && Enabled(p, Write(op))
    ensures var q := Next(p, Write(op)); Whole(q) && Outcome(p, Write(op), q)
  {
    hide ScanBlock, SoundLog, Newest, Legal, LogOf, Bytes, Done, Laid, Noticed, ReadReliably, Accepted,
         Chain.Enc, Holds, Stops;
    if op.Append? {
      DirtyAppend(p, op, |Bytes(p, op)|);
      if Accepted(p, op) {
        AcceptedAppend(p, op);
      }
    } else {
      RewriteDone(p, op);
    }
  }

  lemma CutStep(p: Pair, op: Op, n: nat)
    requires Whole(p) && Enabled(p, Cut(op, n))
    ensures var q := Next(p, Cut(op, n));
            && Whole(q) && Outcome(p, Cut(op, n), q)
            && Runs.Mounts(LaidPair(p, op, n), LogOf(q))
  {
    hide ScanBlock, SoundLog, Newest, Legal, Content, Bytes, Torn, Noticed, Chain.Enc, Runs.Mounted, Runs.Mounts,
         Over;
    if op.Append? {
      DirtyAppend(p, op, n);
      Runs.MountsSound(LaidPair(p, op, n));
    } else {
      DirtyRewrite(p, op, n);
      var b := Torn(p, op, n);
      if Whole(Pair(p.cur, b)) {
        Runs.MountsSound(Pair(p.cur, b));
      } else {
        Runs.MountsSound(Pair(b, p.cur));
      }
    }
  }

  lemma StepWhole(p: Pair, ev: Event)
    requires Whole(p) && Enabled(p, ev)
    ensures var q := Next(p, ev); Whole(q) && Outcome(p, ev, q)
  {
    hide Whole, Enabled, Next, Outcome;
    match ev
    case Write(op) => WriteStep(p, op);
    case Cut(op, n) => CutStep(p, op, n);
  }

  ghost predicate Run(p: Pair, evs: seq<Event>, q: Pair)
    requires Whole(p)
    decreases evs
  {
    if evs == [] then q == p
    else Enabled(p, evs[0]) && (StepWhole(p, evs[0]); Run(Next(p, evs[0]), evs[1..], q))
  }

  /** Every step of the run had the outcome it should. */
  ghost predicate History(p: Pair, evs: seq<Event>, q: Pair)
    requires Whole(p) && Run(p, evs, q)
    decreases evs
  {
    if evs == [] then true
    else
      StepWhole(p, evs[0]);
      Outcome(p, evs[0], Next(p, evs[0])) && History(Next(p, evs[0]), evs[1..], q)
  }

  lemma WholeMounts(p: Pair)
    requires Whole(p)
    ensures |p.cur| == |p.other| >= 4 && Runs.Mounts(p, LogOf(p))
  {
    hide ScanBlock, Newest, SoundLog, Content, Runs.Mounts;
    Runs.MountsSound(p);
  }

  /** Any run, over erased flash or not: the pair can be mounted, accepted commits are there, and all others are there
      completely or not at all. */
  lemma {:induction false} RunWhole(p: Pair, evs: seq<Event>, q: Pair)
    requires Whole(p) && Run(p, evs, q)
    ensures Whole(q) && Runs.Mounts(q, LogOf(q)) && History(p, evs, q)
    decreases evs
  {
    hide Enabled, Next, Outcome, Whole, LogOf, Runs.Mounts;
    if evs == [] {
      WholeMounts(q);
    } else {
      WholeMounts(p);
      StepWhole(p, evs[0]);
      RunWhole(Next(p, evs[0]), evs[1..], q);
    }
  }

  /** Power lost after any number of bytes of any operation after any such run: the log before or the log after is
      mounted. */
  lemma CrashSafe(p: Pair, evs: seq<Event>, q: Pair, op: Op, n: nat)
    requires Whole(p) && Run(p, evs, q) && |q.cur| >= 4 && Enabled(q, Cut(op, n))
    ensures var r := LaidPair(q, op, n);
            Runs.Mounts(r, LogOf(q)) || Runs.Mounts(r, Expected(LogOf(q), op))
  {
    hide ScanBlock, SoundLog, Newest, Legal, Content, Bytes, Noticed, Runs.Mounts, Run, LaidPair;
    RunWhole(p, evs, q);
    CutStep(q, op, n);
  }
}
