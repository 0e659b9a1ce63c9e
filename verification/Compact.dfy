/** Compaction: rewriting a log without its redundant entries keeps what the directory means. */
module Compact {
  import opened Options
  import opened Log
  import T = Tag

  // ---------- The duplicate filter ----------

  /** What tells two attributes of one file apart. */
  datatype Key = Key(kind: T.Kind, chunk: bv8)

  function KeyOf(t: T.Tag): Key {
    Key(t.kind, if T.Unique(t) then t.chunk else 0)
  }

  /** A later tag `t` makes the entry under `f` unnecessary. */
  predicate Redundant(f: T.Tag, t: T.Tag) {
    || (f.id == t.id && f.kind == t.kind && (T.Unique(t) ==> f.chunk == t.chunk))
    || T.IsDelete(f)
    || (t.kind.Splice? && t.chunk == T.DELETE && t.id == f.id)
  }

  /** The id field after a splice in front of it; the field has ten bits. */
  function Moved(id: T.u10, t: T.Tag): T.u10 {
    if t.chunk == T.CREATE then (id + 1) % 0x400
    else if t.chunk == T.DELETE then (id + 0x3ff) % 0x400
    else id
  }

  /** lfs_dir_traverse_filter: nothing when the entry is to be dropped, else its tag after `t`. */
  function FilterStep(f: T.Tag, t: T.Tag): Option<T.Tag> {
    if Redundant(f, t) then None
    else if t.kind.Splice? && t.id <= f.id then Some(f.(id := Moved(f.id, t)))
    else Some(f)
  }

  function FilterScan(f: T.Tag, rest: seq<Entry>): Option<T.Tag>
    decreases rest
  {
    if rest == [] then Some(f)
    else
      match FilterStep(f, rest[0].tag)
      case None => None
      case Some(g) => FilterScan(g, rest[1..])
  }

  /** The entry of `e` in the output, if the entries after it leave it any. */
  function KeptHead(e: Entry, rest: seq<Entry>): seq<Entry> {
    if !T.IsAttr(e.tag) then []
    else
      match FilterScan(e.tag, rest)
      case None => []
      case Some(f) => [e.(tag := f)]
  }

  /** The entries a traversal keeps, each under the id its file has at the end. */
  function Kept(log: seq<Entry>): seq<Entry> {
    if log == [] then [] else KeptHead(log[0], log[1..]) + Kept(log[1..])
  }

  function InRange(ks: seq<Entry>, begin: nat, end: nat): seq<Entry> {
    if ks == [] then []
    else
      (if begin <= ks[0].tag.id < end then [ks[0].(tag := ks[0].tag.(id := ks[0].tag.id - begin))] else [])
      + InRange(ks[1..], begin, end)
  }

  /** What lfs_dir_compact writes for the ids in [begin, end). */
  function Compacted(log: seq<Entry>, begin: nat, end: nat): seq<Entry> {
    InRange(Kept(log), begin, end)
  }

  /** The scan of the entries that follow, stopped by the first one that makes the tag redundant. */
  method TraverseFilter(tag: T.Tag, rest: seq<Entry>) returns (filtered: bool, r: T.Tag)
    ensures FilterScan(tag, rest) == if filtered then None else Some(r)
  {
    r := tag;
    filtered := false;
    for i := 0 to |rest|
      invariant FilterScan(tag, rest) == FilterScan(r, rest[i..])
    {
      var next := FilterStep(r, rest[i].tag);
      if next.None? {
        return true, r;
      }
      r := next.value;
      assert rest[i..][1..] == rest[i + 1..];
    }
  }

  /** One entry of the traversal: attributes only, filtered by what follows, moved to the new ids. */
  method TraverseEntry(e: Entry, rest: seq<Entry>, begin: nat, end: nat) returns (out: seq<Entry>)
    ensures out == InRange(KeptHead(e, rest), begin, end)
  {
    hide FilterScan;
    out := [];
    if T.IsAttr(e.tag) {
      var filtered, tag := TraverseFilter(e.tag, rest);
      if !filtered && begin <= tag.id < end {
        out := [e.(tag := tag.(id := tag.id - begin))];
      }
    }
  }

  /** lfs_dir_traverse as compaction calls it. */
  method Traverse(log: seq<Entry>, begin: nat, end: nat) returns (out: seq<Entry>)
    ensures out == Compacted(log, begin, end)
  {
    hide KeptHead, InRange;
    out := [];
    assert InRange([], begin, end) == [] by { RangeEmpty(begin, end); }
    assert log[0..] == log;
    for i := 0 to |log|
      invariant out + InRange(Kept(log[i..]), begin, end) == Compacted(log, begin, end)
    {
      var e, rest := log[i], log[i + 1..];
      assert log[i..][1..] == rest;
      var more := TraverseEntry(e, rest, begin, end);
      RangeAppend(KeptHead(e, rest), Kept(rest), begin, end);
      out := out + more;
    }
  }

  lemma RangeEmpty(begin: nat, end: nat)
    ensures InRange([], begin, end) == []
  {}

  lemma {:induction false} RangeAppend(a: seq<Entry>, b: seq<Entry>, begin: nat, end: nat)
    ensures InRange(a + b, begin, end) == InRange(a, begin, end) + InRange(b, begin, end)
  {
    if a == [] {
      assert a + b == b;
    } else {
      assert (a + b)[1..] == a[1..] + b;
      RangeAppend(a[1..], b, begin, end);
    }
  }

  // ---------- What a directory means ----------

  /** An attribute as a reader sees it, whatever id its file has. */
  function Shown(e: Entry): Option<Entry> {
    if T.IsDelete(e.tag) then None else Some(e.(tag := e.tag.(id := 0)))
  }

  /** The newest attribute of a file under a key. */
  function Value(f: File, k: Key): Option<Entry> {
    if f == [] then None
    else if KeyOf(f[|f| - 1].tag) == k then Shown(f[|f| - 1])
    else Value(f[..|f| - 1], k)
  }

  predicate Hits(e: Entry, id: nat, k: Key) { e.tag.id == id && KeyOf(e.tag) == k }

  /** The same, read from a list of entries under their final ids. */
  function ValueIn(ks: seq<Entry>, id: nat, k: Key): Option<Entry> {
    if ks == [] then None
    else if Hits(ks[|ks| - 1], id, k) then Shown(ks[|ks| - 1])
    else ValueIn(ks[..|ks| - 1], id, k)
  }

  /** One more entry in the log: what it leaves of the entries kept so far. */
  function Survive(ks: seq<Entry>, t: T.Tag): seq<Entry> {
    if ks == [] then []
    else
      var x := ks[|ks| - 1];
      Survive(ks[..|ks| - 1], t)
      + match FilterStep(x.tag, t)
        case None => []
        case Some(g) => [x.(tag := g)]
  }

  lemma {:induction false} ScanSnoc(f: T.Tag, rest: seq<Entry>, e: Entry)
    ensures FilterScan(f, rest + [e]) ==
            match FilterScan(f, rest)
            case None => None
            case Some(g) => FilterStep(g, e.tag)
    decreases rest
  {
    hide FilterStep;
    if rest == [] {
      assert (rest + [e])[1..] == [];
    } else {
      assert (rest + [e])[1..] == rest[1..] + [e];
      var next := FilterStep(f, rest[0].tag);
      if next.Some? {
        ScanSnoc(next.value, rest[1..], e);
      }
    }
  }

  lemma {:induction false} SurviveAppend(a: seq<Entry>, b: seq<Entry>, t: T.Tag)
    ensures Survive(a + b, t) == Survive(a, t) + Survive(b, t)
    decreases b
  {
    hide FilterStep;
    if b == [] {
      assert a + b == a;
    } else {
      assert (a + b)[..|a + b| - 1] == a + b[..|b| - 1];
      SurviveAppend(a, b[..|b| - 1], t);
    }
  }

  lemma HeadSnoc(h: Entry, rest: seq<Entry>, e: Entry)
    ensures KeptHead(h, rest + [e]) == Survive(KeptHead(h, rest), e.tag)
  {
    hide FilterStep, T.IsAttr;
    ScanSnoc(h.tag, rest, e);
    var f := FilterScan(h.tag, rest);
    if f.Some? {
      assert [h.(tag := f.value)][..0] == [];
    }
  }

  /** Filtering a longer log is one more filter step on what was kept before. */
  lemma {:induction false} KeptSnoc(log: seq<Entry>, e: Entry)
    ensures Kept(log + [e]) == if T.IsAttr(e.tag) then Survive(Kept(log), e.tag) + [e] else Survive(Kept(log), e.tag)
  {
    hide T.IsAttr, Survive;
    if log == [] {
      SurviveNothing(e.tag);
      assert ([] + [e])[1..] == [];
    } else {
      hide KeptHead;
      var rest := log[1..];
      assert (log + [e])[1..] == rest + [e];
      KeptSnoc(rest, e);
      HeadSnoc(log[0], rest, e);
      var h, s := Survive(KeptHead(log[0], rest), e.tag), Survive(Kept(rest), e.tag);
      SurviveAppend(KeptHead(log[0], rest), Kept(rest), e.tag);
      Associates(h, s, [e]);
    }
  }

  lemma SurviveNothing(t: T.Tag)
    ensures Survive([], t) == []
  {}

  lemma Associates(a: seq<Entry>, b: seq<Entry>, c: seq<Entry>)
    ensures a + (b + c) == (a + b) + c
  {}

  // ---------- Kept entries mean what the replayed log means ----------

  /** How many of the entries carry this attribute. */
  function HitCount(ks: seq<Entry>, id: nat, k: Key): nat {
    if ks == [] then 0
    else HitCount(ks[..|ks| - 1], id, k) + if Hits(ks[|ks| - 1], id, k) then 1 else 0
  }

  ghost predicate AttrsBelow(ks: seq<Entry>, n: nat) {
    forall i | 0 <= i < |ks| :: T.IsAttr(ks[i].tag) && ks[i].tag.id < n
  }

  /** Where a kept entry goes: to the id its file has after `t`, with the same key and data. */
  lemma SurvivorMoves(x: Entry, t: T.Tag, id: nat)
    requires T.IsAttr(x.tag) && x.tag.id < 0x3ff && FilterStep(x.tag, t).Some?
    ensures var g := FilterStep(x.tag, t).value;
            && (g.id == id <==> IdBefore(t, id) == Some(x.tag.id))
            && KeyOf(g) == KeyOf(x.tag) && T.IsAttr(g)
            && Shown(x.(tag := g)) == Shown(x)
            && !(EffectOf(t) == Attr(x.tag.id) && KeyOf(t) == KeyOf(x.tag))
  {}

  /** Why an entry is dropped. */
  lemma DroppedBecause(x: Entry, t: T.Tag)
    requires T.IsAttr(x.tag) && FilterStep(x.tag, t).None?
    ensures (T.IsDelete(x.tag) && Shown(x) == None) || EffectOf(t) == Remove(x.tag.id)
            || (EffectOf(t) == Attr(x.tag.id) && KeyOf(t) == KeyOf(x.tag))
  {}

  lemma {:induction false} NoHit(ks: seq<Entry>, id: nat, k: Key)
    requires HitCount(ks, id, k) == 0
    ensures ValueIn(ks, id, k) == None
  {
    hide Hits;
    if ks != [] {
      NoHit(ks[..|ks| - 1], id, k);
    }
  }

  /** The attribute `t` takes from a file: the one it replaces, or all of a file it creates. */
  predicate Clears(t: T.Tag, id: nat, k: Key) {
    IdBefore(t, id).None? || (EffectOf(t) == Attr(id) && KeyOf(t) == k)
  }

  lemma {:induction false} SurviveCount(ks: seq<Entry>, t: T.Tag, id: nat, k: Key)
    requires AttrsBelow(ks, 0x3ff)
    ensures HitCount(Survive(ks, t), id, k) <= if Clears(t, id, k) then 0 else HitCount(ks, IdBefore(t, id).value, k)
  {
    hide EffectOf, FilterStep, KeyOf, Shown, T.IsAttr, T.IsDelete;
    if ks != [] {
      var x, init := ks[|ks| - 1], ks[..|ks| - 1];
      SurviveCount(init, t, id, k);
      if FilterStep(x.tag, t).Some? {
        SurvivorMoves(x, t, id);
        assert Survive(ks, t)[..|Survive(ks, t)| - 1] == Survive(init, t);
      } else {
        assert Survive(ks, t) == Survive(init, t);
      }
    }
  }

  lemma {:induction false} SurviveValue(ks: seq<Entry>, t: T.Tag, id: nat, k: Key)
    requires AttrsBelow(ks, 0x3ff)
    requires !Clears(t, id, k) ==> HitCount(ks, IdBefore(t, id).value, k) <= 1
    ensures ValueIn(Survive(ks, t), id, k) == if Clears(t, id, k) then None else ValueIn(ks, IdBefore(t, id).value, k)
  {
    hide EffectOf, FilterStep, KeyOf, Shown, T.IsAttr, T.IsDelete;
    if ks != [] {
      var x, init := ks[|ks| - 1], ks[..|ks| - 1];
      SurviveValue(init, t, id, k);
      if FilterStep(x.tag, t).Some? {
        SurvivorMoves(x, t, id);
        assert Survive(ks, t)[..|Survive(ks, t)| - 1] == Survive(init, t);
      } else {
        DroppedBecause(x, t);
        assert Survive(ks, t) == Survive(init, t);
        if !Clears(t, id, k) && Hits(x, IdBefore(t, id).value, k) {
          NoHit(init, x.tag.id, k);
        }
      }
    }
  }

  /** What one entry does to the meaning of a directory. */
  lemma ApplyValue(dir: Dir, e: Entry, id: nat, k: Key)
    ensures Value(FileAt(Apply(dir, e), id), k) ==
            if IdBefore(e.tag, id).None? then None
            else if EffectOf(e.tag) == Attr(id) && KeyOf(e.tag) == k then Shown(e)
            else Value(FileAt(dir, IdBefore(e.tag, id).value), k)
  {
    hide EffectOf, KeyOf, Shown;
    var f := FileAt(dir, id);
    assert (f + [e])[..|f|] == f;
    match EffectOf(e.tag)
    case Create(c) =>
      if c != id {
        assert FileAt(Apply(dir, e), id) == FileAt(dir, if c < id then id - 1 else id);
      }
    case Remove(r) =>
      assert FileAt(Apply(dir, e), id) == FileAt(dir, if r <= id then id + 1 else id);
    case Attr(a) =>
    case Other =>
  }

  lemma ValueSnoc(ks: seq<Entry>, e: Entry, id: nat, k: Key)
    ensures ValueIn(ks + [e], id, k) == if Hits(e, id, k) then Shown(e) else ValueIn(ks, id, k)
  {}

  lemma RemoveLength(dir: Dir, e: Entry)
    requires EffectOf(e.tag).Remove?
    ensures |Apply(dir, e)| == if EffectOf(e.tag).id < |dir| then |dir| - 1 else |dir|
  {}

  lemma SurvivorBelow(x: Entry, e: Entry, dir: Dir)
    requires T.IsAttr(x.tag) && x.tag.id < |dir| <= 0x3ff && FilterStep(x.tag, e.tag).Some?
    ensures FilterStep(x.tag, e.tag).value.id < |Apply(dir, e)|
  {
    hide T.IsAttr, T.Unique, T.IsDelete, Pad;
    match EffectOf(e.tag)
    case Create(c) => assert |Apply(dir, e)| > |dir|;
    case Remove(r) => RemoveLength(dir, e);
    case Attr(a) => assert |Apply(dir, e)| >= |dir|;
    case Other =>
  }

  lemma {:induction false} SurviveBelow(ks: seq<Entry>, e: Entry, dir: Dir)
    requires AttrsBelow(ks, |dir|) && |dir| <= 0x3ff
    ensures AttrsBelow(Survive(ks, e.tag), |Apply(dir, e)|)
  {
    hide FilterStep, Apply, T.IsAttr, KeyOf, Shown, EffectOf;
    if ks != [] {
      var x, init := ks[|ks| - 1], ks[..|ks| - 1];
      SurviveBelow(init, e, dir);
      if FilterStep(x.tag, e.tag).Some? {
        SurvivorBelow(x, e, dir);
        SurvivorMoves(x, e.tag, 0);
      }
    }
  }

  lemma ApplyCovers(dir: Dir, e: Entry)
    requires T.IsAttr(e.tag)
    ensures e.tag.id < |Apply(dir, e)|
  {}

  lemma {:induction false} KeptBelow(log: seq<Entry>)
    requires SmallDirs(log)
    ensures AttrsBelow(Kept(log), |Replay(log)|)
    decreases log
  {
    hide Apply, T.IsAttr, Kept, Survive, AttrsBelow;
    if log == [] {
      KeptNothing();
    } else {
      var rest, e := log[..|log| - 1], log[|log| - 1];
      assert log == rest + [e];
      KeptBelow(rest);
      KeptSnoc(rest, e);
      SurviveBelow(Kept(rest), e, Replay(rest));
      if T.IsAttr(e.tag) {
        ApplyCovers(Replay(rest), e);
        BelowSnoc(Survive(Kept(rest), e.tag), e, |Replay(log)|);
      }
    }
  }

  lemma KeptNothing()
    ensures AttrsBelow(Kept([]), 0)
  {}

  lemma BelowSnoc(ks: seq<Entry>, e: Entry, n: nat)
    requires AttrsBelow(ks, n) && T.IsAttr(e.tag) && e.tag.id < n
    ensures AttrsBelow(ks + [e], n)
  {}

  lemma AttrHits(e: Entry, id: nat, k: Key)
    ensures T.IsAttr(e.tag) && Hits(e, id, k) <==> EffectOf(e.tag) == Attr(id) && KeyOf(e.tag) == k
  {}

  lemma CountSnoc(ks: seq<Entry>, e: Entry, id: nat, k: Key)
    ensures HitCount(ks + [e], id, k) == HitCount(ks, id, k) + if Hits(e, id, k) then 1 else 0
  {}

  /** No attribute is written twice. */
  lemma {:induction false} KeptOnce(log: seq<Entry>, id: nat, k: Key)
    requires SmallDirs(log)
    ensures HitCount(Kept(log), id, k) <= 1
    decreases log
  {
    hide EffectOf, KeyOf, T.IsAttr, Survive, Hits, Kept, HitCount;
    if log == [] {
      CountNothing(id, k);
    } else {
      var rest, e := log[..|log| - 1], log[|log| - 1];
      assert log == rest + [e];
      KeptSnoc(rest, e);
      KeptBelow(rest);
      SurviveCount(Kept(rest), e.tag, id, k);
      CountSnoc(Survive(Kept(rest), e.tag), e, id, k);
      AttrHits(e, id, k);
      if !Clears(e.tag, id, k) {
        KeptOnce(rest, IdBefore(e.tag, id).value, k);
      }
    }
  }

  lemma CountNothing(id: nat, k: Key)
    ensures HitCount(Kept([]), id, k) == 0 && ValueIn(Kept([]), id, k) == None
  {}

  /** The kept entries mean what replaying the whole log means. */
  lemma {:induction false} KeptMeans(log: seq<Entry>, id: nat, k: Key)
    requires SmallDirs(log)
    ensures ValueIn(Kept(log), id, k) == Value(FileAt(Replay(log), id), k)
    decreases log
  {
    hide EffectOf, KeyOf, Shown, T.IsAttr, Apply, Survive, ValueIn, Hits, Kept, HitCount;
    if log == [] {
      CountNothing(id, k);
    } else {
      var rest, e := log[..|log| - 1], log[|log| - 1];
      assert log == rest + [e];
      KeptSnoc(rest, e);
      KeptBelow(rest);
      if !Clears(e.tag, id, k) {
        KeptOnce(rest, IdBefore(e.tag, id).value, k);
        KeptMeans(rest, IdBefore(e.tag, id).value, k);
      }
      SurviveValue(Kept(rest), e.tag, id, k);
      ApplyValue(Replay(rest), e, id, k);
      ValueSnoc(Survive(Kept(rest), e.tag), e, id, k);
      AttrHits(e, id, k);
    }
  }

  // ---------- The compacted block ----------

  /** One more kept entry: it is written under its new id, or not at all. */
  lemma RangeSnoc(ks: seq<Entry>, x: Entry, begin: nat, end: nat)
    ensures InRange(ks + [x], begin, end) ==
            if begin <= x.tag.id < end then InRange(ks, begin, end) + [x.(tag := x.tag.(id := x.tag.id - begin))]
            else InRange(ks, begin, end)
  {
    RangeAppend(ks, [x], begin, end);
    assert [x][1..] == [];
  }

  lemma {:induction false} RangeValue(ks: seq<Entry>, begin: nat, end: nat, id: nat, k: Key)
    ensures ValueIn(InRange(ks, begin, end), id, k) == if begin + id < end then ValueIn(ks, begin + id, k) else None
  {
    hide KeyOf, InRange, ValueIn, Shown;
    if ks == [] {
      RangeEmpty(begin, end);
      NoValue(id, k);
      NoValue(begin + id, k);
    } else {
      var x, init := ks[|ks| - 1], ks[..|ks| - 1];
      assert ks == init + [x];
      RangeValue(init, begin, end, id, k);
      RangeSnoc(init, x, begin, end);
      ValueSnoc(init, x, begin + id, k);
      if begin <= x.tag.id < end {
        var y := x.(tag := x.tag.(id := x.tag.id - begin));
        MovedKey(x.tag, x.tag.id - begin);
        ValueSnoc(InRange(init, begin, end), y, id, k);
        SameShown(x, y);
      }
    }
  }

  lemma NoValue(id: nat, k: Key)
    ensures ValueIn([], id, k) == None
  {}

  lemma SameShown(x: Entry, y: Entry)
    requires y == x.(tag := x.tag.(id := y.tag.id))
    ensures Shown(y) == Shown(x)
  {}

  lemma MovedKey(t: T.Tag, id: T.u10)
    ensures KeyOf(t.(id := id)) == KeyOf(t)
  {}

  lemma {:induction false} RangeAttrs(ks: seq<Entry>, begin: nat, end: nat)
    requires AttrsBelow(ks, 0x400)
    ensures AttrsBelow(InRange(ks, begin, end), if begin <= end then end - begin else 0)
  {
    if ks != [] {
      RangeAttrs(ks[1..], begin, end);
    }
  }

  /** A log of attributes alone replays to the attributes listed under each id. */
  lemma {:induction false} PlainReplay(ks: seq<Entry>, id: nat, k: Key)
    requires AttrsBelow(ks, 0x400)
    ensures Value(FileAt(Replay(ks), id), k) == ValueIn(ks, id, k)
  {
    hide KeyOf, Shown, Apply, T.IsAttr, EffectOf, Hits;
    if ks != [] {
      var rest, e := ks[..|ks| - 1], ks[|ks| - 1];
      PlainReplay(rest, id, k);
      ApplyValue(Replay(rest), e, id, k);
      AttrHits(e, id, k);
      AttrEffect(e.tag);
    }
  }

  lemma AttrEffect(t: T.Tag)
    requires T.IsAttr(t)
    ensures EffectOf(t) == Attr(t.id)
  {}

  /** Compacting the ids [begin, end) keeps every attribute of those files, shifted by `begin`, and nothing else. */
  lemma CompactionPreserves(log: seq<Entry>, begin: nat, end: nat, id: nat, k: Key)
    requires SmallDirs(log)
    ensures Value(FileAt(Replay(Compacted(log, begin, end)), id), k) ==
            if begin + id < end then Value(FileAt(Replay(log), begin + id), k) else None
  {
    hide Kept, InRange, Replay, FileAt, Value, ValueIn, AttrsBelow;
    KeptBelow(log);
    BelowIds(Kept(log), |Replay(log)|);
    RangeAttrs(Kept(log), begin, end);
    BelowIds(Compacted(log, begin, end), if begin <= end then end - begin else 0);
    PlainReplay(Compacted(log, begin, end), id, k);
    RangeValue(Kept(log), begin, end, id, k);
    if begin + id < end {
      KeptMeans(log, begin + id, k);
    }
  }

  lemma BelowIds(ks: seq<Entry>, n: nat)
    requires AttrsBelow(ks, n)
    ensures AttrsBelow(ks, 0x400)
  {}

  // ---------- Lookups ----------

  /** `want` asks for an attribute (the 0x400 bit of its word is clear) with the mask for its type: the whole type where
      the 0x100 bit is set, else only the kind. */
  predicate AsksFor(mask: bv8, want: T.Tag) {
    && T.ToWord(want) & 0x4000_0000 == 0
    && mask == if T.ToWord(want) & 0x1000_0000 != 0 then 0xff else 0
  }

  /** The same entry but for the id in its tag. */
  predicate Alike(a: Option<Entry>, b: Option<Entry>) {
    if a.None? || b.None? then a == b
    else a.value.data == b.value.data && a.value.tag == b.value.tag.(id := a.value.tag.id)
  }

  lemma KeyIsType(mask: bv8, t: T.Tag, want: T.Tag)
    requires AsksFor(mask, want)
    ensures KeyOf(t) == KeyOf(want) <==> Matches(mask, t, want)
  {
    hide T.ToWord;
    T.KindBits(want);
    AllBits(t.chunk, want.chunk);
  }

  lemma AllBits(x: bv8, y: bv8)
    ensures (T.SameChunk(0xff, x, y) <==> x == y) && T.SameChunk(0, x, y)
  {}

  /** The value under the key of a tag is what a lookup for it returns. */
  lemma {:induction false} ValueIsLatest(f: File, mask: bv8, want: T.Tag)
    requires AsksFor(mask, want)
    ensures Alike(Value(f, KeyOf(want)), Latest(f, mask, want))
  {
    hide AsksFor, KeyOf, Matches;
    if f != [] {
      KeyIsType(mask, f[|f| - 1].tag, want);
      ValueIsLatest(f[..|f| - 1], mask, want);
    }
  }

  /** Compaction keeps every lookup of every file in [begin, end), at the shifted id, and finds nothing else. */
  lemma LookupsKept(log: seq<Entry>, begin: nat, end: nat, id: nat, mask: bv8, want: T.Tag)
    requires SmallDirs(log) && AsksFor(mask, want)
    ensures Alike(Latest(FileAt(Replay(Compacted(log, begin, end)), id), mask, want),
                  if begin + id < end then Latest(FileAt(Replay(log), begin + id), mask, want) else None)
  {
    hide Replay, Compacted, Value, Latest, FileAt, SmallDirs, AsksFor, KeyOf;
    CompactionPreserves(log, begin, end, id, KeyOf(want));
    ValueIsLatest(FileAt(Replay(Compacted(log, begin, end)), id), mask, want);
    ValueIsLatest(FileAt(Replay(log), begin + id), mask, want);
  }

  /** Splitting a directory at `mid` and compacting both halves loses nothing: every lookup succeeds as before in the half its
      file went to. */
  lemma SplitPreserves(log: seq<Entry>, mid: nat, id: nat, mask: bv8, want: T.Tag)
    requires SmallDirs(log) && mid <= |Replay(log)| && id < |Replay(log)| && AsksFor(mask, want)
    ensures var n := |Replay(log)|;
            var low, high := Replay(Compacted(log, 0, mid)), Replay(Compacted(log, mid, n));
            Alike(Latest(if id < mid then FileAt(low, id) else FileAt(high, id - mid), mask, want),
                  Latest(Replay(log)[id], mask, want))
  {
    hide Replay, Compacted, Latest, AsksFor;
    if id < mid {
      LookupsKept(log, 0, mid, id, mask, want);
    } else {
      LookupsKept(log, mid, |Replay(log)|, id - mid, mask, want);
    }
  }

  // ---------- The filter in tag words ----------

  /** The mask of the redundancy test: type and id where the 0x100 bit is set, else kind and id. */
  function FilterMask(t: T.Tag): bv32 {
    if T.ToWord(t) & 0x1000_0000 != 0 then 0x7fff_fc00 else 0x700f_fc00
  }

  /** An entry is dropped exactly for a later entry with the same masked word, for being a removal, or for a later delete of
      its file. */
  lemma RedundantWords(f: T.Tag, t: T.Tag)
    ensures FilterStep(f, t).None? <==>
            || T.Agree(FilterMask(t), T.ToWord(t), T.ToWord(f))
            || T.ToWord(f) & 0x3ff == 0x3ff
            || 0x7fff_fc00 & T.ToWord(t) == 0x4ff0_0000 | (0x000f_fc00 & T.ToWord(f))
  {
    hide T.ToWord, T.Agree, T.TypeIdMask;
    T.KindBits(t);
    T.SizeBits(f);
    T.DeleteOf(t, f);
    T.SameTypeAndId(t, f, 0xff);
    T.SameTypeAndId(t, f, 0);
    AllBits(t.chunk, f.chunk);
    T.IdMasks();
  }

  // ---------- The count a scan of the compacted block gives ----------

  /** In a log of attributes the count never passes a bound on the ids, and covers every name. */
  lemma {:induction false} CountBounds(ks: seq<Entry>, n: nat)
    requires AttrsBelow(ks, n)
    ensures 0 <= Count(ks) <= n
    ensures forall i | 0 <= i < |ks| && ks[i].tag.kind.Name? :: ks[i].tag.id < Count(ks)
  {
    if ks != [] {
      var init := ks[..|ks| - 1];
      CountBounds(init, n);
      forall i | 0 <= i < |ks| && ks[i].tag.kind.Name? ensures ks[i].tag.id < Count(ks) {
        if i < |init| {
          assert ks[i] == init[i];
        }
      }
    }
  }

  /** A value under a key comes from an entry under that id and key. */
  lemma {:induction false} ValueHasEntry(ks: seq<Entry>, id: nat, k: Key)
    requires ValueIn(ks, id, k).Some?
    ensures exists i :: 0 <= i < |ks| && Hits(ks[i], id, k)
  {
    hide KeyOf, Shown;
    if !Hits(ks[|ks| - 1], id, k) {
      ValueHasEntry(ks[..|ks| - 1], id, k);
      var i :| 0 <= i < |ks| - 1 && Hits(ks[..|ks| - 1][i], id, k);
      assert Hits(ks[i], id, k);
    }
  }

  /** When the last file has a name, the compacted block counts exactly the files it was made for. */
  lemma CompactedCount(log: seq<Entry>, begin: nat, end: nat)
    requires SmallDirs(log) && begin < end
    requires Latest(FileAt(Replay(log), end - 1), 0, T.Tag(T.Name, 0, 0, 0)).Some?
    ensures Count(Compacted(log, begin, end)) == end - begin
  {
    hide Kept, InRange, Replay, FileAt, Value, ValueIn, AttrsBelow;
    var out, k := Compacted(log, begin, end), Key(T.Name, 0);
    AsksForName();
    ValueIsLatest(FileAt(Replay(log), end - 1), 0, T.Tag(T.Name, 0, 0, 0));
    KeptBelow(log);
    BelowIds(Kept(log), |Replay(log)|);
    RangeAttrs(Kept(log), begin, end);
    CountBounds(out, end - begin);
    KeptMeans(log, end - 1, k);
    RangeValue(Kept(log), begin, end, end - 1 - begin, k);
    ValueHasEntry(out, end - 1 - begin, k);
    var i :| 0 <= i < |out| && Hits(out[i], end - 1 - begin, k);
    assert out[i].tag.kind.Name?;
  }

  lemma AsksForName()
    ensures AsksFor(0, T.Tag(T.Name, 0, 0, 0)) && KeyOf(T.Tag(T.Name, 0, 0, 0)) == Key(T.Name, 0)
  {
    hide T.ToWord;
    T.KindBits(T.Tag(T.Name, 0, 0, 0));
  }
}
