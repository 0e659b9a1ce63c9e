/** The meaning of a metadata log: replaying its entries in order gives one attribute history per file. */
module Log {
  import opened Options
  import opened Words
  import T = Tag

  datatype Entry = Entry(tag: T.Tag, data: seq<byte>)

  /** What an entry does to the directory. */
  datatype Effect =
    | Create(id: nat)
    | Remove(id: nat)
    | Attr(id: nat)
    | Other

  function EffectOf(t: T.Tag): Effect {
    if t.kind.Splice? then
      if t.chunk == T.CREATE then Create(t.id)
      else if t.chunk == T.DELETE then Remove(t.id)
      else Other
    else if T.IsAttr(t) then Attr(t.id)
    else Other
  }

  /** Every entry littlefs writes carries its data, and no splice but create and delete is written. */
  ghost predicate Proper(e: Entry) {
    && |e.data| == T.Dsize(e.tag) - 4
    && (e.tag.kind.Splice? ==> e.tag.chunk in {T.CREATE, T.DELETE} && e.tag.size == 0)
  }

  ghost predicate ProperLog(log: seq<Entry>) {
    forall i | 0 <= i < |log| :: Proper(log[i])
  }

  // ---------- Replay ----------

  type File = seq<Entry>

  type Dir = seq<File>

  function Pad(dir: Dir, n: nat): (r: Dir)
    ensures |r| == if |dir| < n then n else |dir|
    ensures forall i | 0 <= i < |r| :: r[i] == FileAt(dir, i)
  {
    if |dir| < n then dir + seq(n - |dir|, i => []) else dir
  }

  /** The attributes recorded for a file; a file nothing was said about has none. */
  function FileAt(dir: Dir, id: nat): File {
    if id < |dir| then dir[id] else []
  }

  function Apply(dir: Dir, e: Entry): Dir {
    match EffectOf(e.tag)
    case Create(id) => var d := Pad(dir, id); d[..id] + [[]] + d[id..]
    case Remove(id) => if id < |dir| then dir[..id] + dir[id + 1..] else dir
    case Attr(id) => var d := Pad(dir, id + 1); d[id := d[id] + [e]]
    case Other => dir
  }

  function Replay(log: seq<Entry>): Dir {
    if log == [] then [] else Apply(Replay(log[..|log| - 1]), log[|log| - 1])
  }

  /** The number of files as a scan counts it: names raise it to cover their id, splices move it. */
  function Count(log: seq<Entry>): int {
    if log == [] then 0 else CountStep(Count(log[..|log| - 1]), log[|log| - 1].tag)
  }

  function CountStep(count: int, t: T.Tag): int {
    if t.kind.Name? then if t.id >= count then t.id + 1 else count
    else if t.kind.Splice? then
      if t.chunk == T.CREATE then count + 1 else if t.chunk == T.DELETE then count - 1 else count
    else count
  }

  /** The entry speaks of files that exist: only a name may introduce one without a create. */
  ghost predicate Grounded(dir: Dir, t: T.Tag) {
    match EffectOf(t)
    case Create(id) => id <= |dir|
    case Remove(id) => id < |dir|
    case Attr(id) => t.kind.Name? || id < |dir|
    case Other => true
  }

  ghost predicate GroundedLog(log: seq<Entry>)
    decreases log
  {
    log != [] ==> GroundedLog(log[..|log| - 1]) && Grounded(Replay(log[..|log| - 1]), log[|log| - 1].tag)
  }

  /** The count of the scan is the number of files of the replayed directory. */
  lemma {:induction false} CountIsFiles(log: seq<Entry>)
    requires GroundedLog(log)
    ensures Count(log) == |Replay(log)|
    decreases log
  {
    hide Apply;
    if log != [] {
      CountIsFiles(log[..|log| - 1]);
      CountApply(Replay(log[..|log| - 1]), log[|log| - 1]);
    }
  }

  lemma CountApply(dir: Dir, e: Entry)
    requires Grounded(dir, e.tag)
    ensures |Apply(dir, e)| == CountStep(|dir|, e.tag)
  {}

  // ---------- Looking an attribute up ----------

  /** The kind and the masked bits of the chunk agree. */
  predicate Matches(mask: bv8, t: T.Tag, want: T.Tag) { t.kind == want.kind && T.SameChunk(mask, t.chunk, want.chunk) }

  /** A removal entry means there is no such attribute. */
  function Present(e: Entry): Option<Entry> {
    if T.IsDelete(e.tag) then None else Some(e)
  }

  /** The newest entry of a file whose type agrees with `want` under `mask`. */
  function Latest(f: File, mask: bv8, want: T.Tag): Option<Entry> {
    if f == [] then None
    else if Matches(mask, f[|f| - 1].tag, want) then Present(f[|f| - 1])
    else Latest(f[..|f| - 1], mask, want)
  }

  /** The backward search: walk from the end and undo each splice on the way. */
  function BackFind(log: seq<Entry>, id: nat, mask: bv8, want: T.Tag): Option<Entry>
    decreases log
  {
    if log == [] then None
    else
      var e, rest := log[|log| - 1], log[..|log| - 1];
      match EffectOf(e.tag)
      case Create(c) => if c == id then None else BackFind(rest, if c < id then id - 1 else id, mask, want)
      case Remove(r) => BackFind(rest, if r <= id then id + 1 else id, mask, want)
      case Attr(a) =>
        if a == id && Matches(mask, e.tag, want) then Present(e) else BackFind(rest, id, mask, want)
      case Other => BackFind(rest, id, mask, want)
  }

  /** What one entry does to the file with a given id. */
  lemma FileAtApply(dir: Dir, e: Entry, id: nat)
    ensures FileAt(Apply(dir, e), id) ==
            match EffectOf(e.tag)
            case Create(c) => if c == id then [] else FileAt(dir, if c < id then id - 1 else id)
            case Remove(r) => FileAt(dir, if r <= id then id + 1 else id)
            case Attr(a) => FileAt(dir, id) + if a == id then [e] else []
            case Other => FileAt(dir, id)
  {
    var after := Apply(dir, e);
    match EffectOf(e.tag)
    case Create(c) =>
      var d := Pad(dir, c);
      if c < id && id < |after| {
        assert after[id] == d[c..][id - c - 1];
      } else if id < c {
        assert after[id] == d[id];
      }
    case Remove(r) =>
      if r <= id && id < |after| && r < |dir| {
        assert after[id] == dir[r + 1..][id - r];
      }
    case Attr(a) =>
    case Other =>
  }

  lemma LatestSnoc(f: File, e: Entry, mask: bv8, want: T.Tag)
    ensures Latest(f + [e], mask, want) == if Matches(mask, e.tag, want) then Present(e) else Latest(f, mask, want)
    ensures Latest([], mask, want) == None && f + [] == f
  {}

  /** Backward search and forward replay agree on every log, id and kind of attribute. */
  lemma {:induction false} BackFindIsLatest(log: seq<Entry>, id: nat, mask: bv8, want: T.Tag)
    ensures BackFind(log, id, mask, want) == Latest(FileAt(Replay(log), id), mask, want)
    decreases log
  {
    hide EffectOf, Matches, Present, Apply, FileAt, Latest;
    if log == [] {
      NoFile(id, mask, want);
    } else {
      var e, rest := log[|log| - 1], log[..|log| - 1];
      FileAtApply(Replay(rest), e, id);
      LatestSnoc(FileAt(Replay(rest), id), e, mask, want);
      match EffectOf(e.tag) {
        case Create(c) =>
          if c != id {
            BackFindIsLatest(rest, if c < id then id - 1 else id, mask, want);
          }
        case Remove(r) =>
          BackFindIsLatest(rest, if r <= id then id + 1 else id, mask, want);
        case Attr(a) =>
          BackFindIsLatest(rest, id, mask, want);
        case Other =>
          BackFindIsLatest(rest, id, mask, want);
      }
    }
  }

  lemma NoFile(id: nat, mask: bv8, want: T.Tag)
    ensures Latest(FileAt(Replay([]), id), mask, want) == None
  {}

  // ---------- The same in tag words ----------

  /** The lowest ten bits of the word, all set, mark a removal. */
  predicate Removed(e: Entry) { T.ToWord(e.tag) & 0x3ff == 0x3ff }

  /** Entry `i` is the newest of the file whose word agrees with that of `want` under the mask `m`. */
  ghost predicate LastUnder(f: File, m: bv32, want: T.Tag, i: nat) {
    && i < |f| && T.Agree(m, T.ToWord(f[i].tag), T.ToWord(want))
    && forall j | i < j < |f| :: !T.Agree(m, T.ToWord(f[j].tag), T.ToWord(want))
  }

  /** A lookup is about the newest entry whose masked type word is that of the tag asked for: that entry, or nothing if it
      is a removal or there is none. */
  lemma {:induction false} LatestIsLast(f: File, mask: bv8, want: T.Tag)
    ensures match Latest(f, mask, want)
            case Some(e) => exists i: nat :: LastUnder(f, T.TypeMask(mask), want, i) && f[i] == e && !Removed(e)
            case None => forall i: nat | LastUnder(f, T.TypeMask(mask), want, i) :: Removed(f[i])
    decreases |f|
  {
    hide T.Agree, T.TypeMask, T.ToWord, T.IsDelete;
    if f != [] {
      var n := |f| - 1;
      var m, e := T.TypeMask(mask), f[n];
      T.SameType(e.tag, want, mask);
      T.SizeBits(e.tag);
      if T.Agree(m, T.ToWord(e.tag), T.ToWord(want)) {
        assert LastUnder(f, m, want, n);
        assert forall i: nat | i < n :: !LastUnder(f, m, want, i);
      } else {
        LatestIsLast(f[..n], mask, want);
        forall i: nat ensures LastUnder(f, m, want, i) <==> LastUnder(f[..n], m, want, i) {
          NotLast(f, m, want, i);
        }
      }
    }
  }

  lemma NotLast(f: File, m: bv32, want: T.Tag, i: nat)
    requires f != [] && !T.Agree(m, T.ToWord(f[|f| - 1].tag), T.ToWord(want))
    ensures LastUnder(f, m, want, i) <==> LastUnder(f[..|f| - 1], m, want, i)
  {
    hide T.Agree, T.ToWord;
  }

  // ---------- The ids the backward search passes through ----------

  /** The id under which the file `id` was known before the last entry, if it existed then. */
  function IdBefore(t: T.Tag, id: nat): Option<nat> {
    match EffectOf(t)
    case Create(c) => if c == id then None else Some(if c < id then id - 1 else id)
    case Remove(r) => Some(if r <= id then id + 1 else id)
    case Attr(_) => Some(id)
    case Other => Some(id)
  }

  /** No id on the way back leaves the 10-bit field. */
  ghost predicate IdsInRange(log: seq<Entry>, id: nat)
    decreases log
  {
    id <= 0x3ff &&
    (log != [] ==>
      match IdBefore(log[|log| - 1].tag, id)
      case None => true
      case Some(j) => IdsInRange(log[..|log| - 1], j))
  }

  function Removes(log: seq<Entry>): nat
    decreases log
  {
    if log == [] then 0
    else Removes(log[..|log| - 1]) + if EffectOf(log[|log| - 1].tag).Remove? then 1 else 0
  }

  /** Only removals push the id up on the way back. */
  lemma {:induction false} FewRemovesInRange(log: seq<Entry>, id: nat)
    requires id + Removes(log) <= 0x3ff
    ensures IdsInRange(log, id)
    decreases log
  {
    hide EffectOf;
    if log != [] {
      var before := IdBefore(log[|log| - 1].tag, id);
      if before.Some? {
        FewRemovesInRange(log[..|log| - 1], before.value);
      }
    }
  }

  /** Every directory on the way has fewer files than ids. */
  ghost predicate SmallDirs(log: seq<Entry>)
    decreases log
  {
    |Replay(log)| <= 0x3ff && (log != [] ==> SmallDirs(log[..|log| - 1]))
  }

  /** Every entry speaks of files that exist; only before the first removal may a name introduce one. */
  ghost predicate Ordered(log: seq<Entry>)
    decreases log
  {
    log != [] ==>
      var rest, t := log[..|log| - 1], log[|log| - 1].tag;
      && Ordered(rest) && Grounded(Replay(rest), t)
      && (t.kind.Name? && t.id >= |Replay(rest)| ==> Removes(rest) == 0)
  }

  /** In such a log the ids on the way back to any file of the directory stay in range, however many were removed. */
  lemma {:induction false} LiveInRange(log: seq<Entry>, id: nat)
    requires SmallDirs(log) && Ordered(log) && id < |Replay(log)|
    ensures IdsInRange(log, id)
    decreases log
  {
    hide Apply, Grounded, Replay;
    if log == [] {
      NothingReplayed();
    } else {
      var e, rest := log[|log| - 1], log[..|log| - 1];
      ReplayLast(log);
      StepBack(rest, e, id);
      var before := IdBefore(e.tag, id);
      if before.Some? {
        if before.value < |Replay(rest)| {
          LiveInRange(rest, before.value);
        } else {
          FewRemovesInRange(rest, before.value);
        }
      }
    }
  }

  lemma NothingReplayed()
    ensures |Replay([])| == 0
  {}

  lemma ReplayLast(log: seq<Entry>)
    requires log != []
    ensures Replay(log) == Apply(Replay(log[..|log| - 1]), log[|log| - 1])
  {}

  /** A file of the directory was one before the last entry, or was made by it. */
  lemma StepBack(rest: seq<Entry>, e: Entry, id: nat)
    requires Grounded(Replay(rest), e.tag) && id < |Apply(Replay(rest), e)|
    ensures var before := IdBefore(e.tag, id);
            before.None? || before.value < |Replay(rest)|
            || (before.value == id && e.tag.kind.Name? && e.tag.id >= |Replay(rest)|)
  {
    hide Replay;
  }
}
