/** A metadata pair over whole runs: commits, appends refused part-way, power losses and remounts in any order. */
module Runs {
  import opened Options
  import opened Words
  import opened Log
  import opened Fetch
  import opened Crash
  import opened Atomic
  import opened Commit
  import Arith
  import Crc
  import opened Pair
  import Chain
  import Compact
  import T = Tag

  // ---------- Mounting ----------

  /** The pair as a mount sees it: the block it picks is the current one. */
  function Mounted(p: Pair): Pair
    requires |p.cur| >= 4 && |p.other| >= 4
  {
    var newer := Newer(Rev(p.other), Rev(p.cur));
    if (if newer then ScanBlock(p.other).off > 0 else ScanBlock(p.cur).off == 0) then Pair(p.other, p.cur) else p
  }

  /** What a mount finds: in either block order, one and the same log. */
  ghost predicate Mounts(p: Pair, log: seq<Entry>) {
    && |p.cur| >= 4 && |p.other| >= 4
    && var f := FetchPair(p.cur, p.other);
       f.Some? && FetchPair(p.other, p.cur) == f && Content(f.value.log) == log
  }

  lemma MountsSound(p: Pair)
    requires Sound(p)
    ensures Mounted(p) == p && Mounts(p, LogOf(p))
    ensures Mounted(Pair(p.other, p.cur)) == p && Mounts(Pair(p.other, p.cur), LogOf(p))
  {
    hide ScanBlock, Rev, Newer, Content;
    FetchesNewest(p.cur, p.other);
  }

  // ---------- The erased flag ----------

  /** The cut is not one to three bytes into the tag behind the commit found, and no checksum entry that was cut off
      passed for a whole one. */
  ghost predicate Honest(blk: seq<byte>, cut: nat)
    requires |blk| >= 4
  {
    var g := ScanBlock(blk);
    SoundLog(g.log) && !(g.off < cut < g.off + 4)
  }

  /** After an honest cut the flag means what it says. */
  lemma HonestFlag(p: Pair, cut: nat, prog: nat)
    requires Sound(p) && TornBlock(p.cur, cut) && prog > 0 && Erased(p.cur, prog) && Honest(p.cur, cut)
    ensures Good(p)
  {
    hide ScanBlock, Stops, Newest, Holds;
  }

  /** Power that is only lost between program units of eight bytes or more always cuts honestly. */
  lemma UnitsHonest(blk: seq<byte>, cut: nat, prog: nat)
    requires |blk| >= 4 && TornBlock(blk, cut) && prog >= 8 && cut % prog == 0 && Erased(blk, prog)
    ensures Honest(blk, cut)
  {
    hide ScanBlock, Stops, Residue, SoundLog;
    if ScanBlock(blk).off != cut {
      Apart(ScanBlock(blk).off, cut, prog);
    }
  }

  lemma Apart(a: nat, b: nat, n: nat)
    requires n > 0 && a % n == 0 && b % n == 0 && a != b
    ensures a + n <= b || b + n <= a
  {
    var x, y := a / n, b / n;
    assert a == n * x && b == n * y;
    if x < y {
      Arith.MulMonotone(n, x + 1, y);
    } else {
      Arith.MulMonotone(n, y + 1, x);
    }
  }

  /** When a torn block reports the erased flag, the flash is erased exactly if the cut is not one to three bytes into
      the tag behind the commit found. */
  lemma FlagExact(blk: seq<byte>, cut: nat, prog: nat)
    requires |blk| >= 4 && TornBlock(blk, cut) && prog > 0 && Erased(blk, prog) && cut <= |blk|
    requires T.IsValid(ScanBlock(blk).etag)
    ensures var g := ScanBlock(blk);
            Holds(blk, g.off, []) <==> !(g.off < cut < g.off + 4)
  {
    hide ScanBlock, Stops, T.IsValid, Holds;
    var g := ScanBlock(blk);
    if Holds(blk, g.off, []) {
      HoldsAt(blk, g.off, [], 0);
    }
  }

  // ---------- The state machine ----------

  /** The pair, the erased flag in memory, and whether a refused append still owes its compaction. */
  datatype State = State(pair: Pair, erased: bool, owed: bool)

  datatype Event =
    | Commit(op: Op)                    // the operation completes
    | Refused(es: seq<Entry>, m: nat)   // an append runs out of space after programming `m` bytes of its attributes
    | Lost(op: Op, n: nat)              // power is lost after `n` bytes of the operation, and the pair is mounted again
    | Remount                           // power is lost between two operations

  /** Appends are tried only while the flag is set; a refused one is followed by a rewrite or by a power loss. */
  ghost predicate MayTry(s: State, op: Op)
    requires |s.pair.cur| >= 4
  {
    Legal(s.pair, op) && (op.Append? ==> s.erased && !s.owed)
  }

  ghost predicate Enabled(s: State, ev: Event, prog: nat)
    requires |s.pair.cur| >= 4 && prog > 0
  {
    match ev
    case Commit(op) => MayTry(s, op)
    case Refused(es, m) =>
      s.erased && !s.owed && Tried(s.pair, es, m) &&
      var b := Refuse(s.pair, es, m).cur;
      Erased(b, prog) ==> Honest(b, ScanBlock(s.pair.cur).off + m)
    case Lost(op, n) =>
      MayTry(s, op) && Within(s.pair, op, n) &&
      var b := Torn(s.pair, op, n);
      Erased(b, prog) ==> Honest(b, Start(s.pair, op) + n)
    case Remount => true
  }

  function Fetched(p: Pair, prog: nat): State
    requires |p.cur| >= 4 && |p.other| >= 4 && prog > 0
  {
    var q := Mounted(p);
    State(q, Erased(q.cur, prog), false)
  }

  ghost function Next(s: State, ev: Event, prog: nat): State
    requires prog > 0 && |s.pair.cur| == |s.pair.other| >= 4 && Enabled(s, ev, prog)
  {
    match ev
    case Commit(op) => OpBounds(s.pair, op); State(Done(s.pair, op), s.erased, false)
    case Refused(es, m) => State(Refuse(s.pair, es, m), s.erased, true)
    case Lost(op, n) => Fetched(After(s.pair, op, n), prog)
    case Remount => Fetched(s.pair, prog)
  }

  /** A mount finds the pair; the flag, in memory or as the next mount would read it, means erased flash. */
  ghost predicate Inv(s: State, prog: nat)
    requires prog > 0
  {
    && Sound(s.pair)
    && (Erased(s.pair.cur, prog) ==> Good(s.pair))
    && (s.erased && !s.owed ==> Good(s.pair))
  }

  /** What an event may do to the log: a commit is all there, an interrupted one all or nothing, the rest changes nothing. */
  predicate Outcome(log: seq<Entry>, ev: Event, after: seq<Entry>) {
    match ev
    case Commit(op) => after == Expected(log, op)
    case Lost(op, _) => after == log || after == Expected(log, op)
    case _ => after == log
  }

  lemma CommitStep(s: State, op: Op, prog: nat)
    requires prog > 0 && Inv(s, prog) && MayTry(s, op)
    ensures var t := Next(s, Commit(op), prog);
            Inv(t, prog) && LogOf(t.pair) == Expected(LogOf(s.pair), op)
  {
    hide ScanBlock, Newest, Legal, SoundLog, Holds, Done, Bytes, LogOf, Within, Stops;
    OpBounds(s.pair, op);
    OpDone(s.pair, op);
  }

  lemma RefusedStep(s: State, es: seq<Entry>, m: nat, prog: nat)
    requires prog > 0 && Inv(s, prog) && Enabled(s, Refused(es, m), prog)
    ensures var t := Next(s, Refused(es, m), prog);
            Inv(t, prog) && LogOf(t.pair) == LogOf(s.pair)
  {
    hide ScanBlock, Newest, SoundLog, Holds, Content, Stops, TornBlock, Honest, Erased, Good, NoCrc, AllWritten;
    RefusedSound(s.pair, es, m);
    var q := Refuse(s.pair, es, m);
    if Erased(q.cur, prog) {
      HonestFlag(q, ScanBlock(s.pair.cur).off + m, prog);
    }
  }

  lemma FetchedInv(p: Pair, q: Pair, prog: nat)
    requires prog > 0 && Sound(q) && (p == q || p == Pair(q.other, q.cur)) && (Erased(q.cur, prog) ==> Good(q))
    ensures Fetched(p, prog) == State(q, Erased(q.cur, prog), false) && Inv(Fetched(p, prog), prog)
  {
    hide ScanBlock, Newest, SoundLog, Holds, Erased, Mounted;
    MountsSound(q);
  }

  /** Power lost in the middle: after the mount the log is the old one or the new one, and the flag can be trusted. */
  lemma LostStep(s: State, op: Op, n: nat, prog: nat)
    requires prog > 0 && Inv(s, prog) && Enabled(s, Lost(op, n), prog)
    ensures var t := Next(s, Lost(op, n), prog);
            Inv(t, prog) && LogOf(t.pair) in {LogOf(s.pair), Expected(LogOf(s.pair), op)}
  {
    hide ScanBlock, Newest, SoundLog, Holds, Stops, TornBlock, Honest, Erased, Legal, Torn, Within, Content,
         Start, Bytes;
    var p, b := s.pair, Torn(s.pair, op, n);
    if op.Append? {
      AppendTorn(p, op, n);
      if Erased(b, prog) {
        HonestFlag(Pair(b, p.other), Start(p, op) + n, prog);
      }
      FetchedInv(After(p, op, n), Pair(b, p.other), prog);
    } else {
      RewriteTorn(p, op, n);
      if ScanBlock(b).off == 0 {
        SameCur(p, b);
        FetchedInv(After(p, op, n), Pair(p.cur, b), prog);
      } else {
        if Erased(b, prog) {
          StartsAtZero(p, op);
          HonestFlag(Pair(b, p.cur), n, prog);
        }
        FetchedInv(After(p, op, n), Pair(b, p.cur), prog);
      }
    }
  }

  /** A device that loses power only between program units of eight bytes or more never cuts dishonestly, so that every
      power loss is among the events. */
  lemma UnitsEnabled(s: State, op: Op, n: nat, prog: nat)
    requires prog >= 8 && Inv(s, prog) && MayTry(s, op) && Within(s.pair, op, n) && (Start(s.pair, op) + n) % prog == 0
    ensures Enabled(s, Lost(op, n), prog)
  {
    hide ScanBlock, Newest, SoundLog, Holds, Stops, TornBlock, Honest, Legal, Torn, Within, Content, Bytes;
    var p, b := s.pair, Torn(s.pair, op, n);
    if Erased(b, prog) {
      if op.Append? {
        AppendTorn(p, op, n);
      } else {
        RewriteTorn(p, op, n);
      }
      UnitsHonest(b, Start(p, op) + n, prog);
    }
  }

  /** And so is every append that is refused after whole attributes. */
  lemma RefusalEnabled(s: State, es: seq<Entry>, prog: nat)
    requires prog > 0 && Inv(s, prog) && s.erased && !s.owed
    requires Tried(s.pair, es, |Chain.Enc(es, ScanBlock(s.pair.cur).etag)|)
    ensures Enabled(s, Refused(es, |Chain.Enc(es, ScanBlock(s.pair.cur).etag)|), prog)
  {
    hide ScanBlock, Newest, SoundLog, Holds, Stops, NoCrc, Chain.Enc, Written, Erased;
    var p, f := s.pair, ScanBlock(s.pair.cur);
    RefusedSound(p, es, |Chain.Enc(es, f.etag)|);
    WholeOrNone(es, f.etag);
  }

  lemma WholeOrNone(es: seq<Entry>, p: bv32)
    requires AllWritten(es)
    ensures Chain.Enc(es, p) == [] || |Chain.Enc(es, p)| >= 4
  {}

  lemma StartsAtZero(p: Pair, op: Op)
    requires |p.cur| >= 4 && op.Rewrite?
    ensures Start(p, op) == 0
  {}

  lemma SameCur(p: Pair, b: seq<byte>)
    requires Sound(Pair(p.cur, b))
    ensures Good(p) ==> Good(Pair(p.cur, b))
  {}

  lemma StepInv(s: State, ev: Event, prog: nat)
    requires prog > 0 && Inv(s, prog) && Enabled(s, ev, prog)
    ensures var t := Next(s, ev, prog);
            Inv(t, prog) && Outcome(LogOf(s.pair), ev, LogOf(t.pair))
  {
    hide ScanBlock, Newest, SoundLog, Holds, Stops, Legal, Good, Erased, Content, Torn, Within, Start, Bytes,
         Done, Tried, Honest, Fetched;
    match ev
    case Commit(op) => CommitStep(s, op, prog);
    case Refused(es, m) => RefusedStep(s, es, m, prog);
    case Lost(op, n) => LostStep(s, op, n, prog);
    case Remount => FetchedInv(s.pair, s.pair, prog);
  }

  /** The first commit of a pair, whatever its two blocks held before, is where a run can start. */
  lemma FirstCommit(p: Pair, op: Op, erased: bool, prog: nat)
    requires prog > 0 && |p.cur| == |p.other| >= 4 && op.Rewrite? && Legal(p, op)
    ensures op.end <= |p.cur| && Within(p, op, |Bytes(p, op)|)
    ensures Inv(State(Done(p, op), erased, false), prog) && LogOf(Done(p, op)) == op.es
  {
    hide ScanBlock, Newest, SoundLog, Holds, Stops, Legal, Bytes, LogOf, Erased, Done, Within;
    RewriteDone(p, op);
  }

  // ---------- Whole runs ----------

  /** A run of events from `s` to `t`. */
  ghost predicate Run(s: State, evs: seq<Event>, t: State, prog: nat)
    requires prog > 0 && Inv(s, prog)
    decreases evs
  {
    if evs == [] then t == s
    else Enabled(s, evs[0], prog) && (StepInv(s, evs[0], prog); Run(Next(s, evs[0], prog), evs[1..], t, prog))
  }

  /** `after` is what some choice of surviving interrupted commits makes of `log`. */
  ghost predicate History(log: seq<Entry>, evs: seq<Event>, after: seq<Entry>)
    decreases evs
  {
    if evs == [] then after == log
    else exists mid :: Outcome(log, evs[0], mid) && History(mid, evs[1..], after)
  }

  lemma InvSize(s: State, prog: nat)
    requires prog > 0 && Inv(s, prog)
    ensures |s.pair.cur| == |s.pair.other| >= 4
  {}

  /** Any run, with any number of power losses and refused appends: the pair can be mounted, its log is the completed
      commits and all or nothing of every interrupted one, and the flag is right. */
  lemma {:induction false} RunInv(s: State, evs: seq<Event>, t: State, prog: nat)
    requires prog > 0 && Inv(s, prog) && Run(s, evs, t, prog)
    ensures Inv(t, prog) && History(LogOf(s.pair), evs, LogOf(t.pair))
    decreases evs
  {
    hide Inv, Enabled, LogOf, Next, Outcome;
    if evs != [] {
      InvSize(s, prog);
      StepInv(s, evs[0], prog);
      RunInv(Next(s, evs[0], prog), evs[1..], t, prog);
    }
  }

  /** Whenever the code appends, the flash it programs is erased. */
  lemma FlagMeansErased(s: State, evs: seq<Event>, t: State, prog: nat)
    requires prog > 0 && Inv(s, prog) && Run(s, evs, t, prog)
    ensures |t.pair.cur| >= 4
    ensures var f := ScanBlock(t.pair.cur);
            && (t.erased && !t.owed ==> Holds(t.pair.cur, f.off, []))
            && (Erased(t.pair.cur, prog) ==> Holds(t.pair.cur, f.off, []))
  {
    hide ScanBlock, Newest, SoundLog, Holds, Erased, Run;
    RunInv(s, evs, t, prog);
  }

  /** Power lost after any number of programmed bytes of any operation after any run: a mount finds exactly the log
      before that operation or exactly the log after it. */
  lemma CrashSafe(s: State, evs: seq<Event>, t: State, prog: nat, op: Op, n: nat)
    requires prog > 0 && Inv(s, prog) && Run(s, evs, t, prog) && |t.pair.cur| >= 4
    requires MayTry(t, op) && op.end <= |t.pair.cur| && n <= |Bytes(t.pair, op)|
    ensures Within(t.pair, op, n)
    ensures var log := LogOf(t.pair);
            || Mounts(After(t.pair, op, n), log)
            || Mounts(After(t.pair, op, n), Expected(log, op))
  {
    hide ScanBlock, Newest, Content, SoundLog, Holds, Legal, Run, Torn, TornBlock, Mounts, Start, Bytes, Erased;
    RunInv(s, evs, t, prog);
    OpBounds(t.pair, op);
    var p := t.pair;
    if op.Append? {
      AppendTorn(p, op, n);
      MountsSound(After(p, op, n));
    } else {
      RewriteTorn(p, op, n);
      var b := Torn(p, op, n);
      if ScanBlock(b).off == 0 {
        MountsSound(Pair(p.cur, b));
      } else {
        MountsSound(Pair(b, p.cur));
      }
    }
  }

  /** And after a completed operation it finds exactly the new log. */
  lemma CommitDurable(s: State, evs: seq<Event>, t: State, prog: nat, op: Op)
    requires prog > 0 && Inv(s, prog) && Run(s, evs, t, prog) && |t.pair.cur| >= 4 && MayTry(t, op)
    ensures op.end <= |t.pair.cur| && Within(t.pair, op, |Bytes(t.pair, op)|)
    ensures Mounts(Done(t.pair, op), Expected(LogOf(t.pair), op))
  {
    hide ScanBlock, Newest, Content, SoundLog, Holds, Legal, Run, Done, Mounts, Bytes, Erased, LogOf;
    RunInv(s, evs, t, prog);
    OpDone(t.pair, op);
    MountsSound(Done(t.pair, op));
  }

  // ---------- Compaction with attributes to commit ----------

  /** The rewrite that compaction makes of the directory and the attributes to commit: redundant entries are left out,
      and `extra` are the entries that belong to no file, such as the tail. */
  function Compaction(p: Pair, attrs: seq<Entry>, extra: seq<Entry>, end: nat, rev: bv32): Op
    requires |p.cur| >= 4
  {
    var log := LogOf(p) + attrs;
    Rewrite(Compact.Compacted(log, 0, |Replay(log)|) + extra, end, rev)
  }

  /** Every lookup of every file gives the same in both directories. */
  ghost predicate SameLookups(a: Dir, b: Dir) {
    forall id: nat, mask: bv8, want: T.Tag | Compact.AsksFor(mask, want) ::
      Compact.Alike(Latest(FileAt(a, id), mask, want), Latest(FileAt(b, id), mask, want))
  }

  ghost predicate NoFiles(extra: seq<Entry>) {
    forall i | 0 <= i < |extra| :: EffectOf(extra[i].tag).Other?
  }

  lemma {:induction false} ExtraSaysNothing(log: seq<Entry>, extra: seq<Entry>)
    requires NoFiles(extra)
    ensures Replay(log + extra) == Replay(log)
    decreases extra
  {
    if extra == [] {
      assert log + extra == log;
    } else {
      var n := |extra| - 1;
      assert (log + extra)[..|log + extra| - 1] == log + extra[..n];
      ExtraSaysNothing(log, extra[..n]);
      assert EffectOf(extra[n].tag).Other?;
    }
  }

  lemma CompactionMeans(log: seq<Entry>, extra: seq<Entry>)
    requires SmallDirs(log) && NoFiles(extra)
    ensures SameLookups(Replay(Compact.Compacted(log, 0, |Replay(log)|) + extra), Replay(log))
  {
    hide SmallDirs, Compact.Compacted, Replay, Latest, FileAt, NoFiles;
    var c := Compact.Compacted(log, 0, |Replay(log)|);
    ExtraSaysNothing(c, extra);
    forall id: nat, mask: bv8, want: T.Tag | Compact.AsksFor(mask, want)
      ensures Compact.Alike(Latest(FileAt(Replay(c), id), mask, want), Latest(FileAt(Replay(log), id), mask, want))
    {
      Compact.LookupsKept(log, 0, |Replay(log)|, id, mask, want);
      NothingBeyond(Replay(log), id, mask, want);
    }
  }

  lemma NothingBeyond(dir: Dir, id: nat, mask: bv8, want: T.Tag)
    ensures id >= |dir| ==> Latest(FileAt(dir, id), mask, want) == None
  {}

  /** Power lost anywhere in a compaction that also commits attributes: all files together have the attributes from
      before, or all have those from after. */
  lemma CompactionCrashSafe(s: State, evs: seq<Event>, t: State, prog: nat,
                            attrs: seq<Entry>, extra: seq<Entry>, end: nat, rev: bv32, n: nat)
    returns (log: seq<Entry>)
    requires prog > 0 && Inv(s, prog) && Run(s, evs, t, prog) && |t.pair.cur| >= 4
    requires SmallDirs(LogOf(t.pair) + attrs) && NoFiles(extra)
    requires var op := Compaction(t.pair, attrs, extra, end, rev);
             Legal(t.pair, op) && end <= |t.pair.cur| && n <= |Bytes(t.pair, op)|
    ensures Within(t.pair, Compaction(t.pair, attrs, extra, end, rev), n)
    ensures Mounts(After(t.pair, Compaction(t.pair, attrs, extra, end, rev), n), log)
    ensures || SameLookups(Replay(log), Replay(LogOf(t.pair)))
            || SameLookups(Replay(log), Replay(LogOf(t.pair) + attrs))
  {
    hide ScanBlock, Bytes, Good, Mounts, Legal, Run, Compact.Compacted, SmallDirs, Replay, LogOf, After,
         Latest, Within, NoFiles, Sound, Erased;
    var before, op := LogOf(t.pair), Compaction(t.pair, attrs, extra, end, rev);
    CrashSafe(s, evs, t, prog, op, n);
    CompactionMeans(before + attrs, extra);
    log := if Mounts(After(t.pair, op, n), before) then before else op.es;
  }
}
