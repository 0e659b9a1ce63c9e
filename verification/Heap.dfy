/** The finsh heap: first fit, split and merge over two address-sorted lists, against a tiling of the heap. */
module Heap {
  import opened Options
  import opened Arith

  const HEAP_MAX := 128
  const HEADER := 8
  const ALIGNMENT := 4

  // ---------- The heap as a row of blocks ----------

  /** A block: its header's offset, its data length, and whether it is allocated. */
  datatype Blk = Blk(addr: nat, len: nat, used: bool)

  function End(b: Blk): nat { b.addr + HEADER + b.len }

  /** The blocks tile the heap in address order, no two free ones are adjacent, and the last is free. */
  predicate Good(s: seq<Blk>) {
    && |s| >= 1 && s[0].addr == 0 && End(s[|s| - 1]) == HEAP_MAX && !s[|s| - 1].used
    && (forall i | 1 <= i < |s| :: s[i].addr == End(s[i - 1]))
    && (forall i | 1 <= i < |s| :: s[i].used || s[i - 1].used)
  }

  /** The offsets of the free or of the allocated blocks, in address order. */
  function Addrs(s: seq<Blk>, used: bool): seq<nat> {
    if s == [] then []
    else Addrs(s[..|s| - 1], used) + if s[|s| - 1].used == used then [s[|s| - 1].addr] else []
  }

  lemma {:induction false} AddrsAppend(s: seq<Blk>, t: seq<Blk>, used: bool)
    ensures Addrs(s + t, used) == Addrs(s, used) + Addrs(t, used)
    decreases |t|
  {
    if t == [] {
      assert s + t == s;
    } else {
      AddrsAppend(s, t[..|t| - 1], used);
      assert (s + t)[..|s + t| - 1] == s + t[..|t| - 1];
    }
  }

  /** Around block i. */
  lemma AddrsAround(s: seq<Blk>, i: nat, used: bool)
    requires i < |s|
    ensures Addrs(s, used) == Addrs(s[..i], used) + (if s[i].used == used then [s[i].addr] else []) + Addrs(s[i + 1..], used)
  {
    assert s == s[..i] + [s[i]] + s[i + 1..];
    AddrsAppend(s[..i] + [s[i]], s[i + 1..], used);
    AddrsAppend(s[..i], [s[i]], used);
    AddrsOne(s[i], used);
  }

  lemma AddrsOne(b: Blk, used: bool)
    ensures Addrs([b], used) == if b.used == used then [b.addr] else []
  {}

  lemma {:induction false} Ordered(s: seq<Blk>, i: nat, j: nat)
    requires Good(s) && i < j < |s|
    ensures End(s[i]) <= s[j].addr && s[i].addr + HEADER <= s[j].addr
    decreases j
  {
    if i < j - 1 {
      Ordered(s, i, j - 1);
    }
  }

  lemma {:induction false} InAddrs(s: seq<Blk>, used: bool, a: nat)
    requires a in Addrs(s, used)
    ensures exists i :: 0 <= i < |s| && s[i].addr == a && s[i].used == used
    decreases |s|
  {
    var n := |s| - 1;
    if a in Addrs(s[..n], used) {
      InAddrs(s[..n], used, a);
      var i :| 0 <= i < |s[..n]| && s[..n][i].addr == a && s[..n][i].used == used;
      assert s[i].addr == a && s[i].used == used;
    } else {
      assert s[n].addr == a && s[n].used == used;
    }
  }

  lemma {:induction false} AddrsHave(s: seq<Blk>, i: nat)
    requires i < |s|
    ensures s[i].addr in Addrs(s, s[i].used)
  {
    AddrsAround(s, i, s[i].used);
  }

  /** Everything before block i has a smaller offset, everything after it a larger one. */
  lemma BeforeAfter(s: seq<Blk>, i: nat, used: bool)
    requires Good(s) && i < |s|
    ensures forall a | a in Addrs(s[..i], used) :: a < s[i].addr
    ensures var after := Addrs(s[i + 1..], used); forall a | a in after :: a > s[i].addr
  {
    var after := Addrs(s[i + 1..], used);
    forall a | a in Addrs(s[..i], used) ensures a < s[i].addr {
      InAddrs(s[..i], used, a);
      var k :| 0 <= k < i && s[..i][k].addr == a;
      Ordered(s, k, i);
    }
    forall a | a in after ensures a > s[i].addr {
      InAddrs(s[i + 1..], used, a);
      var k :| 0 <= k < |s[i + 1..]| && s[i + 1..][k].addr == a;
      assert s[i + 1 + k].addr == a;
      Ordered(s, i, i + 1 + k);
    }
  }

  predicate Sorted(l: seq<nat>) {
    forall i, j | 0 <= i < j < |l| :: l[i] < l[j]
  }

  /** Both lists are address-sorted. */
  lemma {:induction false} AddrsSorted(s: seq<Blk>, n: nat, used: bool)
    requires Good(s) && n <= |s|
    ensures Sorted(Addrs(s[..n], used))
    decreases n
  {
    if n > 0 {
      AddrsSorted(s, n - 1, used);
      BeforeAfter(s, n - 1, used);
      assert s[..n][..n - 1] == s[..n - 1];
      var l := Addrs(s[..n - 1], used);
      assert forall k | 0 <= k < |l| :: l[k] in l;
    }
  }

  // ---------- What the operations do to the row ----------

  const INITIAL := [Blk(0, HEAP_MAX - HEADER, false)]

  /** The front of free block i is allocated, the rest stays free. */
  function AllocAt(s: seq<Blk>, i: nat, size: nat): seq<Blk>
    requires i < |s| && s[i].len >= size + HEADER
  {
    var b := s[i];
    s[..i] + [Blk(b.addr, size, true), Blk(b.addr + HEADER + size, b.len - HEADER - size, false)] + s[i + 1..]
  }

  /** Blocks lo to hi - 1 become one free block. */
  function Join(s: seq<Blk>, lo: nat, hi: nat): seq<Blk>
    requires Good(s) && lo < hi <= |s|
  {
    if lo < hi - 1 then (Ordered(s, lo, hi - 1); s[..lo] + [Joined(s[lo], s[hi - 1])] + s[hi..])
    else s[..lo] + [Joined(s[lo], s[lo])] + s[hi..]
  }

  function Joined(b: Blk, c: Blk): Blk
    requires End(c) >= b.addr + HEADER
  {
    Blk(b.addr, End(c) - b.addr - HEADER, false)
  }

  /** The neighbours a freed block is joined with. */
  function Low(s: seq<Blk>, i: nat): nat
    requires i < |s|
  {
    if i > 0 && !s[i - 1].used then i - 1 else i
  }

  function High(s: seq<Blk>, i: nat): nat
    requires i < |s|
  {
    if i + 1 < |s| && !s[i + 1].used then i + 2 else i + 1
  }

  /** Block i becomes free and is joined with free neighbours. */
  function FreeAt(s: seq<Blk>, i: nat): seq<Blk>
    requires Good(s) && i < |s|
  {
    Join(s, Low(s, i), High(s, i))
  }

  lemma InitialGood()
    ensures Good(INITIAL)
  {}

  lemma AllocGood(s: seq<Blk>, i: nat, size: nat)
    requires Good(s) && i < |s| && !s[i].used && s[i].len >= size + HEADER
    ensures Good(AllocAt(s, i, size))
  {
    var t := AllocAt(s, i, size);
    forall k | 1 <= k < |t| ensures t[k].addr == End(t[k - 1]) && (t[k].used || t[k - 1].used) {
      if k < i {
        assert t[k] == s[k] && t[k - 1] == s[k - 1];
      } else if k == i {
        assert t[k - 1] == s[i - 1];
      } else if k > i + 1 {
        assert t[k] == s[k - 1];
        if k > i + 2 { assert t[k - 1] == s[k - 2]; }
      }
    }
  }

  lemma JoinGood(s: seq<Blk>, lo: nat, hi: nat)
    requires Good(s) && lo < hi <= |s|
    requires lo > 0 ==> s[lo - 1].used
    requires hi < |s| ==> s[hi].used
    ensures Good(Join(s, lo, hi))
  {
    var t := Join(s, lo, hi);
    if lo < hi - 1 { Ordered(s, lo, hi - 1); }
    var b := Joined(s[lo], s[hi - 1]);
    assert t == s[..lo] + [b] + s[hi..];
    assert End(b) == End(s[hi - 1]) && b.addr == s[lo].addr && !b.used;
    JoinLinks(s, lo, hi, b, t);
    if hi < |s| {
      assert t[|t| - 1] == s[|s| - 1];
    }
    if lo > 0 {
      assert t[0] == s[0];
    }
  }

  lemma JoinLinks(s: seq<Blk>, lo: nat, hi: nat, b: Blk, t: seq<Blk>)
    requires Good(s) && lo < hi <= |s| && t == s[..lo] + [b] + s[hi..]
    requires End(b) == End(s[hi - 1]) && b.addr == s[lo].addr && !b.used
    requires lo > 0 ==> s[lo - 1].used
    requires hi < |s| ==> s[hi].used
    ensures forall k | 1 <= k < |t| :: t[k].addr == End(t[k - 1])
    ensures forall k | 1 <= k < |t| :: t[k].used || t[k - 1].used
  {}

  lemma FreeGood(s: seq<Blk>, i: nat)
    requires Good(s) && i < |s| && s[i].used
    ensures Good(FreeAt(s, i))
  {
    var lo, hi := Low(s, i), High(s, i);
    if lo > 0 && lo == i - 1 { assert s[lo - 1].used; }
    if hi < |s| && hi == i + 2 { assert s[hi].used; }
    JoinGood(s, lo, hi);
  }

  /** Freeing a block right after it was allocated undoes the allocation. */
  lemma FreeUndoesAlloc(s: seq<Blk>, i: nat, size: nat)
    requires Good(s) && i < |s| && !s[i].used && s[i].len >= size + HEADER
    ensures Good(AllocAt(s, i, size)) && FreeAt(AllocAt(s, i, size), i) == s
  {
    AllocGood(s, i, size);
    var t := AllocAt(s, i, size);
    if i > 0 { assert t[i - 1] == s[i - 1]; }
    assert Low(t, i) == i && High(t, i) == i + 2;
    assert t[..i] == s[..i] && t[i + 2..] == s[i + 1..];
    assert Joined(t[i], t[i + 1]) == s[i];
    assert s == s[..i] + [s[i]] + s[i + 1..];
  }

  /** With nothing allocated only the initial block is left. */
  lemma AllFree(s: seq<Blk>)
    requires Good(s) && Addrs(s, true) == []
    ensures s == INITIAL
  {}

  // ---------- Linked lists of headers ----------

  type Links = map<nat, Option<nat>>

  function At(l: seq<nat>, k: nat): Option<nat> {
    if k < |l| then Some(l[k]) else None
  }

  /** The list that starts at `head` runs through exactly these headers. */
  ghost predicate Linked(nxt: Links, head: Option<nat>, l: seq<nat>) {
    && head == At(l, 0)
    && forall k: nat | k < |l| :: l[k] in nxt && nxt[l[k]] == At(l, k + 1)
  }

  /** Only these headers' links may differ. */
  ghost predicate LinksBut(before: Links, after: Links, l: seq<nat>, h: nat) {
    forall a | a in before && a != h && a !in l :: a in after && after[a] == before[a]
  }

  /** A list that does not meet the changed one is still linked. */
  lemma StillLinked(n0: Links, n1: Links, head: Option<nat>, l: seq<nat>, changed: seq<nat>, h: nat)
    requires Linked(n0, head, l) && LinksBut(n0, n1, changed, h) && h !in l
    requires forall a | a in l :: a !in changed
    ensures Linked(n1, head, l)
  {}

  function Inserted(l: seq<nat>, p: nat, h: nat): seq<nat>
    requires p <= |l|
  {
    l[..p] + [h] + l[p..]
  }

  function Removed(l: seq<nat>, k: nat): seq<nat>
    requires k < |l|
  {
    l[..k] + l[k + 1..]
  }

  lemma InsertLinked(nxt: Links, head: Option<nat>, l: seq<nat>, p: nat, h: nat)
    requires Linked(nxt, head, l) && p <= |l| && h !in l && Sorted(l)
    ensures var n1 := nxt[h := At(l, p)];
            Linked(if p == 0 then n1 else n1[l[p - 1] := Some(h)], if p == 0 then Some(h) else head, Inserted(l, p, h))
  {
    var r := Inserted(l, p, h);
    var n1 := nxt[h := At(l, p)];
    var n2 := if p == 0 then n1 else n1[l[p - 1] := Some(h)];
    forall k: nat | k < |r| ensures r[k] in n2 && n2[r[k]] == At(r, k + 1) {
      if k < p {
        assert r[k] == l[k];
      } else if k > p {
        assert r[k] == l[k - 1];
      }
    }
  }

  lemma RemoveLinked(nxt: Links, head: Option<nat>, l: seq<nat>, k: nat)
    requires Linked(nxt, head, l) && k < |l| && Sorted(l)
    ensures Linked(if k == 0 then nxt[l[0] := None] else nxt[l[k - 1] := At(l, k + 1)],
                   if k == 0 then At(l, 1) else head, Removed(l, k))
  {
    var r := Removed(l, k);
    var n2 := if k == 0 then nxt[l[0] := None] else nxt[l[k - 1] := At(l, k + 1)];
    forall j: nat | j < |r| ensures r[j] in n2 && n2[r[j]] == At(r, j + 1) {
      if j < k {
        assert r[j] == l[j];
      } else {
        assert r[j] == l[j + 1];
      }
    }
  }

  /** Everything between positions a and b is skipped. */
  lemma SkipLinked(nxt: Links, head: Option<nat>, l: seq<nat>, a: nat, b: nat)
    requires Linked(nxt, head, l) && a < b <= |l| && Sorted(l)
    ensures Linked(nxt[l[a] := At(l, b)], head, l[..a + 1] + l[b..])
  {
    var r, n1 := l[..a + 1] + l[b..], nxt[l[a] := At(l, b)];
    forall j: nat | j < |r| ensures r[j] in n1 && n1[r[j]] == At(r, j + 1) {
      if j <= a {
        assert r[j] == l[j];
      } else {
        assert r[j] == l[b + (j - a - 1)];
      }
    }
  }

  // ---------- The lists around a freed block ----------

  /** A free block before block i touches it exactly when it is the one directly before. */
  lemma TouchesBefore(s: seq<Blk>, j: nat, i: nat)
    requires Good(s) && j < i < |s|
    ensures End(s[j]) == s[i].addr <==> j == i - 1
  {
    if j < i - 1 {
      Ordered(s, j, i - 1);
    }
  }

  lemma LastFree(s: seq<Blk>, i: nat)
    requires Good(s) && 0 < i < |s| && !s[i - 1].used
    ensures Addrs(s[..i], false) == Addrs(s[..i - 1], false) + [s[i - 1].addr]
    ensures Addrs(s[..i], true) == Addrs(s[..i - 1], true)
  {
    assert s[..i][..i - 1] == s[..i - 1];
  }

  lemma FirstFree(s: seq<Blk>, i: nat)
    requires i < |s| && !s[i].used
    ensures Addrs(s[i..], false) == [s[i].addr] + Addrs(s[i + 1..], false)
    ensures Addrs(s[i..], true) == Addrs(s[i + 1..], true)
  {
    var t := s[i..];
    AddrsAround(t, 0, false);
    AddrsAround(t, 0, true);
    assert t[..0] == [] && t[1..] == s[i + 1..];
  }

  /** The lists after freeing: the block leaves one, and the merged block stands in the other. */
  lemma FreedLists(s: seq<Blk>, i: nat)
    requires Good(s) && i + 1 < |s| && s[i].used
    ensures var t := FreeAt(s, i);
            var fa, fb := Addrs(s[..i], false), Addrs(s[i + 1..], false);
            && Addrs(t, true) == Addrs(s[..i], true) + Addrs(s[i + 1..], true)
            && (Low(s, i) < i ==> fa != [] && fa[|fa| - 1] == s[i - 1].addr)
            && (High(s, i) > i + 1 ==> fb != [] && fb[0] == s[i + 1].addr)
            && Addrs(t, false) == (if Low(s, i) < i then fa else fa + [s[i].addr])
                                  + (if High(s, i) > i + 1 then fb[1..] else fb)
  {
    var t, lo, hi := FreeAt(s, i), Low(s, i), High(s, i);
    JoinedLists(s, lo, hi);
    if lo < i { LastFree(s, i); }
    if hi > i + 1 { FirstFree(s, i + 1); }
  }

  lemma JoinedLists(s: seq<Blk>, lo: nat, hi: nat)
    requires Good(s) && lo < hi <= |s|
    ensures var t := Join(s, lo, hi);
            && Addrs(t, true) == Addrs(s[..lo], true) + Addrs(s[hi..], true)
            && Addrs(t, false) == Addrs(s[..lo], false) + [s[lo].addr] + Addrs(s[hi..], false)
  {
    var t := Join(s, lo, hi);
    assert t[..lo] == s[..lo] && t[lo + 1..] == s[hi..] && t[lo].addr == s[lo].addr && !t[lo].used;
    AddrsAround(t, lo, true);
    AddrsAround(t, lo, false);
  }

  /** The free block in front of position p of the list touches block i exactly when it is block i - 1. */
  lemma PrevTouches(s: seq<Blk>, i: nat, a: nat, n: nat)
    requires Good(s) && i < |s| && a in Addrs(s[..i], false) && Addrs(s[..i], false)[|Addrs(s[..i], false)| - 1] == a
    requires Blk(a, n, false) in s
    ensures a + HEADER + n == s[i].addr <==> Low(s, i) < i
  {
    var j :| 0 <= j < |s| && s[j] == Blk(a, n, false);
    BeforeAfter(s, i, false);
    if j >= i {
      if j > i { Ordered(s, i, j); }
      assert false;
    }
    TouchesBefore(s, j, i);
    if Low(s, i) < i {
      LastFree(s, i);
      if j < i - 1 { Ordered(s, j, i - 1); }
    }
  }

  lemma NextTouches(s: seq<Blk>, i: nat, a: nat)
    requires Good(s) && i + 1 < |s| && Addrs(s[i + 1..], false) != [] && Addrs(s[i + 1..], false)[0] == a
    ensures End(s[i]) == a <==> High(s, i) > i + 1
  {
    if s[i + 1].used {
      var after := Addrs(s[i + 1..], false);
      AddrsAround(s[i + 1..], 0, false);
      assert s[i + 1..][..0] == [] && s[i + 1..][1..] == s[i + 2..];
      BeforeAfter(s, i + 1, false);
      assert a in Addrs(s[i + 2..], false);
    } else {
      FirstFree(s, i + 1);
    }
  }

  // ---------- Merging in the list ----------

  predicate TouchPrev(l: seq<nat>, p: nat, len: map<nat, nat>)
    requires p < |l| && forall a | a in l :: a in len
  {
    p > 0 && l[p - 1] + HEADER + len[l[p - 1]] == l[p]
  }

  predicate TouchNext(l: seq<nat>, p: nat, len: map<nat, nat>)
    requires p < |l| && forall a | a in l :: a in len
  {
    p + 1 < |l| && l[p] + HEADER + len[l[p]] == l[p + 1]
  }

  function MergedList(l: seq<nat>, p: nat, len: map<nat, nat>): seq<nat>
    requires p < |l| && forall a | a in l :: a in len
  {
    (if TouchPrev(l, p, len) then l[..p] else l[..p + 1]) + (if TouchNext(l, p, len) then l[p + 2..] else l[p + 1..])
  }

  function MergedLen(l: seq<nat>, p: nat, len: map<nat, nat>): map<nat, nat>
    requires p < |l| && forall a | a in l :: a in len
  {
    var total := len[l[p]] + if TouchNext(l, p, len) then len[l[p + 1]] + HEADER else 0;
    if TouchPrev(l, p, len) then len[l[p - 1] := len[l[p - 1]] + total + HEADER]
    else if TouchNext(l, p, len) then len[l[p] := total] else len
  }

  lemma LinkOf(nxt: Links, head: Option<nat>, l: seq<nat>, p: nat)
    requires Linked(nxt, head, l) && p < |l|
    ensures l[p] in nxt && nxt[l[p]] == At(l, p + 1)
  {}

  lemma HeadIs(nxt: Links, head: Option<nat>, l: seq<nat>, p: nat)
    requires Linked(nxt, head, l) && Sorted(l) && p < |l|
    ensures head == Some(l[0]) && (head == Some(l[p]) <==> p == 0)
  {}

  lemma LinkIs(nxt: Links, head: Option<nat>, l: seq<nat>, k: nat, p: nat)
    requires Linked(nxt, head, l) && Sorted(l) && k < p < |l|
    ensures l[k] in nxt && nxt[l[k]] == Some(l[k + 1]) && (nxt[l[k]] == Some(l[p]) <==> k + 1 == p)
  {}

  lemma MergeLinked(nxt: Links, head: Option<nat>, l: seq<nat>, p: nat, len: map<nat, nat>)
    requires Linked(nxt, head, l) && Sorted(l) && p < |l| && forall a | a in l :: a in len
    ensures var mp, mn := TouchPrev(l, p, len), TouchNext(l, p, len);
            var to := At(l, if mn then p + 2 else p + 1);
            Linked(if mp then nxt[l[p - 1] := to] else if mn then nxt[l[p] := to] else nxt, head, MergedList(l, p, len))
  {
    hide Linked, Sorted;
    var mp, mn := TouchPrev(l, p, len), TouchNext(l, p, len);
    if mp || mn {
      SkipLinked(nxt, head, l, if mp then p - 1 else p, if mn then p + 2 else p + 1);
    } else {
      assert l[..p + 1] + l[p + 1..] == l;
    }
  }

  // ---------- Freeing, piece by piece ----------

  /** The lists of allocated and free blocks around block i. */
  lemma ListsAround(s: seq<Blk>, i: nat)
    requires Good(s) && i < |s| && s[i].used
    ensures i + 1 < |s|
    ensures var ua, ub, fa, fb := Addrs(s[..i], true), Addrs(s[i + 1..], true), Addrs(s[..i], false), Addrs(s[i + 1..], false);
            Addrs(s, true) == ua + [s[i].addr] + ub && Addrs(s, false) == fa + fb && fb != []
  {
    FreeBehind(s, i);
    hide Addrs, Good;
    AddrsAround(s, i, true);
    AddrsAround(s, i, false);
    NoMiddle(Addrs(s[..i], false), Addrs(s[i + 1..], false));
  }

  lemma FreeBehind(s: seq<Blk>, i: nat)
    requires Good(s) && i < |s| && s[i].used
    ensures i + 1 < |s| && Addrs(s[i + 1..], false) != []
  {}

  lemma NoMiddle(a: seq<nat>, b: seq<nat>)
    ensures a + [] + b == a + b
  {}

  lemma BothSorted(s: seq<Blk>)
    requires Good(s)
    ensures Sorted(Addrs(s, true)) && Sorted(Addrs(s, false))
  {
    assert s[..|s|] == s;
    AddrsSorted(s, |s|, true);
    AddrsSorted(s, |s|, false);
  }

  /** The lists around block i are sorted and do not meet. */
  lemma FreeSetup(s: seq<Blk>, i: nat)
    requires Good(s) && i < |s| && s[i].used
    ensures var ua, ub, fa, fb := Addrs(s[..i], true), Addrs(s[i + 1..], true), Addrs(s[..i], false), Addrs(s[i + 1..], false);
            var h := s[i].addr;
            && Sorted(ua + [h] + ub) && Sorted(fa + fb) && Sorted(fa + [h] + fb)
            && h !in fa + fb && h !in ua + ub && fb != [] && h < (fa + fb)[|fa + fb| - 1]
            && (forall a | a in fa :: a < h) && (forall a | a in fb :: a > h)
            && (forall a | a in fa + fb :: a !in ua + [h] + ub)
            && (forall a | a in ua + ub :: a !in fa + [h] + fb)
  {
    var ua, ub, fa, fb := Addrs(s[..i], true), Addrs(s[i + 1..], true), Addrs(s[..i], false), Addrs(s[i + 1..], false);
    ListsAround(s, i);
    BeforeAfter(s, i, true);
    BeforeAfter(s, i, false);
    hide Addrs, Good;
    BothSorted(s);
    SortedMiddle(fa, s[i].addr, fb);
    Disjoint(s);
    NotTwice(ua, s[i].addr, ub);
    Apart(fa, s[i].addr, fb, ua, ub);
    assert (fa + fb)[|fa + fb| - 1] == fb[|fb| - 1] && fb[|fb| - 1] in fb;
  }

  lemma Apart(fa: seq<nat>, h: nat, fb: seq<nat>, ua: seq<nat>, ub: seq<nat>)
    requires (forall a | a in fa + fb :: a !in ua + [h] + ub) && h !in ua + ub
    ensures h !in fa + fb && forall a | a in ua + ub :: a !in fa + [h] + fb
  {
    assert h in ua + [h] + ub;
    forall a | a in ua + ub ensures a !in fa + [h] + fb {
      assert a in ua + [h] + ub;
    }
  }

  lemma NotTwice(ua: seq<nat>, h: nat, ub: seq<nat>)
    requires Sorted(ua + [h] + ub)
    ensures h !in ua + ub
  {
    var l := ua + [h] + ub;
    assert l[|ua|] == h;
    forall k | 0 <= k < |ua| ensures ua[k] != h {
      assert l[k] == ua[k];
    }
    forall k | 0 <= k < |ub| ensures ub[k] != h {
      assert l[|ua| + 1 + k] == ub[k];
    }
  }

  lemma SortedMiddle(fa: seq<nat>, h: nat, fb: seq<nat>)
    requires Sorted(fa + fb) && (forall a | a in fa :: a < h) && (forall a | a in fb :: a > h)
    ensures Sorted(fa + [h] + fb)
  {
    var l, m := fa + [h] + fb, fa + fb;
    forall i, j | 0 <= i < j < |l| ensures l[i] < l[j] {
      if i < |fa| {
        assert l[i] == m[i] == fa[i] && fa[i] in fa;
      } else if i > |fa| {
        assert l[i] == m[i - 1];
      }
      if j > |fa| {
        assert l[j] == m[j - 1] == fb[j - |fa| - 1] && fb[j - |fa| - 1] in fb;
      } else if j < |fa| {
        assert l[j] == m[j];
      }
    }
  }

  lemma Disjoint(s: seq<Blk>)
    requires Good(s)
    ensures forall a | a in Addrs(s, false) :: a !in Addrs(s, true)
  {
    forall a | a in Addrs(s, false) ensures a !in Addrs(s, true) {
      InAddrs(s, false, a);
      var i :| 0 <= i < |s| && s[i].addr == a && s[i].used == false;
      if a in Addrs(s, true) {
        InAddrs(s, true, a);
        var j :| 0 <= j < |s| && s[j].addr == a && s[j].used == true;
        if i < j { Ordered(s, i, j); } else { Ordered(s, j, i); }
      }
    }
  }

  lemma RemovedMiddle(ua: seq<nat>, h: nat, ub: seq<nat>)
    ensures Removed(ua + [h] + ub, |ua|) == ua + ub
  {}

  lemma InsertPlace(fa: seq<nat>, fb: seq<nat>, p: nat, h: nat)
    requires Splits(fa + fb, p, h)
    requires (forall a | a in fa :: a < h) && (forall a | a in fb :: a > h)
    ensures p == |fa| && Inserted(fa + fb, p, h) == fa + [h] + fb
  {
    if fa != [] {
      assert (fa + fb)[|fa| - 1] == fa[|fa| - 1] && fa[|fa| - 1] in fa;
    }
    if fb != [] {
      assert (fa + fb)[|fa|] == fb[0] && fb[0] in fb;
    }
  }

  ghost predicate LengthsOf(s: seq<Blk>, len: map<nat, nat>) {
    forall b | b in s :: b.addr in len && len[b.addr] == b.len
  }

  lemma ListInLen(s: seq<Blk>, i: nat, len: map<nat, nat>, fa: seq<nat>, fb: seq<nat>)
    requires i < |s| && LengthsOf(s, len) && fa + fb == Addrs(s, false)
    ensures forall a | a in fa + [s[i].addr] + fb :: a in len
  {
    AllInLen(s, len);
    hide Addrs;
    assert s[i] in s;
    forall a | a in fa + [s[i].addr] + fb ensures a in len {
      assert a == s[i].addr || a in fa + fb;
    }
  }

  lemma BlockOf(s: seq<Blk>, len: map<nat, nat>, a: nat)
    requires LengthsOf(s, len) && a in Addrs(s, false)
    ensures a in len && Blk(a, len[a], false) in s
  {}

  lemma PrevIs(s: seq<Blk>, i: nat, len: map<nat, nat>, fa: seq<nat>, fb: seq<nat>)
    requires Good(s) && i < |s| && LengthsOf(s, len) && s[i].used && i + 1 < |s|
    requires fa == Addrs(s[..i], false) && fa + fb == Addrs(s, false)
    requires forall a | a in fa + [s[i].addr] + fb :: a in len
    ensures TouchPrev(fa + [s[i].addr] + fb, |fa|, len) <==> Low(s, i) < i
  {
    if Low(s, i) < i { LastFree(s, i); }
    hide Addrs, Good, LengthsOf, Low;
    var l, p := fa + [s[i].addr] + fb, |fa|;
    if fa != [] {
      var a := fa[p - 1];
      assert a in fa + fb by { assert (fa + fb)[p - 1] == a; }
      assert l[p - 1] == a && l[p] == s[i].addr;
      BlockOf(s, len, a);
      PrevTouches(s, i, a, len[a]);
    }
  }

  lemma NextIs(s: seq<Blk>, i: nat, len: map<nat, nat>, fa: seq<nat>, fb: seq<nat>)
    requires Good(s) && i < |s| && LengthsOf(s, len) && s[i].used && i + 1 < |s|
    requires fb == Addrs(s[i + 1..], false) && forall a | a in fa + [s[i].addr] + fb :: a in len
    ensures TouchNext(fa + [s[i].addr] + fb, |fa|, len) <==> High(s, i) > i + 1
  {
    assert s[i] in s;
    if High(s, i) > i + 1 { FirstFree(s, i + 1); }
    hide Addrs, Good, High;
    var l, p := fa + [s[i].addr] + fb, |fa|;
    if fb != [] {
      assert l[p + 1] == fb[0] && l[p] == s[i].addr;
      NextTouches(s, i, fb[0]);
    }
  }

  /** Merging in the list is joining in the row. */
  lemma FreeMerges(s: seq<Blk>, i: nat, len: map<nat, nat>)
    requires Good(s) && i < |s| && s[i].used && LengthsOf(s, len) && i + 1 < |s|
    ensures var fa, fb := Addrs(s[..i], false), Addrs(s[i + 1..], false);
            var l, p := fa + [s[i].addr] + fb, |fa|;
            && (forall a | a in l :: a in len)
            && (TouchPrev(l, p, len) <==> Low(s, i) < i) && (TouchNext(l, p, len) <==> High(s, i) > i + 1)
            && MergedList(l, p, len) == Addrs(FreeAt(s, i), false)
            && Addrs(FreeAt(s, i), true) == Addrs(s[..i], true) + Addrs(s[i + 1..], true)
  {
    hide Addrs, TouchPrev, TouchNext, MergedList, FreeAt;
    var fa, fb := Addrs(s[..i], false), Addrs(s[i + 1..], false);
    ListsAround(s, i);
    ListInLen(s, i, len, fa, fb);
    PrevIs(s, i, len, fa, fb);
    NextIs(s, i, len, fa, fb);
    FreedLists(s, i);
    MergedParts(fa, s[i].addr, fb, len);
  }

  lemma MergedParts(fa: seq<nat>, h: nat, fb: seq<nat>, len: map<nat, nat>)
    requires forall a | a in fa + [h] + fb :: a in len
    ensures var l, p := fa + [h] + fb, |fa|;
            MergedList(l, p, len) == (if TouchPrev(l, p, len) then fa else fa + [h]) + (if TouchNext(l, p, len) then fb[1..] else fb)
  {}

  lemma AllInLen(s: seq<Blk>, len: map<nat, nat>)
    requires LengthsOf(s, len)
    ensures forall a | a in Addrs(s, false) :: a in len
  {}

  lemma FreeLengths(s: seq<Blk>, i: nat, len: map<nat, nat>)
    requires Good(s) && i < |s| && s[i].used && LengthsOf(s, len) && i + 1 < |s|
    ensures var fa, fb := Addrs(s[..i], false), Addrs(s[i + 1..], false);
            var l, p := fa + [s[i].addr] + fb, |fa|;
            (forall a | a in l :: a in len) && LengthsOf(FreeAt(s, i), MergedLen(l, p, len))
  {
    hide Addrs;
    FreeMerges(s, i, len);
    FreedLists(s, i);
    var lo, hi := Low(s, i), High(s, i);
    var fa, fb := Addrs(s[..i], false), Addrs(s[i + 1..], false);
    var l, p := fa + [s[i].addr] + fb, |fa|;
    assert s[lo] in s && s[i] in s && s[hi - 1] in s;
    var n1 := MergedLen(l, p, len);
    if lo < hi - 1 { Ordered(s, lo, hi - 1); }
    assert n1 == if lo == hi - 1 then len else len[s[lo].addr := End(s[hi - 1]) - s[lo].addr - HEADER];
    JoinLengths(s, lo, hi, len, n1);
  }

  lemma JoinLengths(s: seq<Blk>, lo: nat, hi: nat, len: map<nat, nat>, n1: map<nat, nat>)
    requires Good(s) && lo < hi <= |s| && LengthsOf(s, len) && End(s[hi - 1]) >= s[lo].addr + HEADER
    requires n1 == if lo == hi - 1 then len else len[s[lo].addr := End(s[hi - 1]) - s[lo].addr - HEADER]
    ensures LengthsOf(Join(s, lo, hi), n1)
  {
    var t := Join(s, lo, hi);
    assert s[lo] in s;
    forall b | b in t ensures b.addr in n1 && n1[b.addr] == b.len {
      var k :| 0 <= k < |t| && t[k] == b;
      if k < lo {
        assert b == s[k] && b in s;
        Ordered(s, k, lo);
      } else if k > lo {
        var j := hi + (k - lo - 1);
        assert b == s[j] && b in s;
        Ordered(s, lo, j);
      }
    }
  }

  // ---------- Allocating, piece by piece ----------

  /** HEAP_ALIGN_SIZE in 32 bits. */
  function Aligned(size: nat): nat {
    AlignDown((size + ALIGNMENT - 1) % 0x1_0000_0000, ALIGNMENT)
  }

  /** What a free block is compared with, in 32 bits. */
  function Needed(size: nat): nat {
    (Aligned(size) + HEADER) % 0x1_0000_0000
  }

  /** The sums do not wrap around exactly up to this size. */
  lemma NeededExact(size: nat)
    requires size < 0x1_0000_0000
    ensures Needed(size) == AlignUp(size, ALIGNMENT) + HEADER <==> size <= 0xffff_fff4
    ensures size <= 0xffff_fff4 ==> Aligned(size) == AlignUp(size, ALIGNMENT)
  {
    hide AlignDown;
    AlignDownBounds(size + 3, ALIGNMENT);
    if size + 3 < 0x1_0000_0000 {
      SmallMod(size + 3);
      AlignFour(size);
      if size <= 0xffff_fff4 {
        SmallMod(Aligned(size) + HEADER);
      } else {
        assert Aligned(size) + HEADER >= 0x1_0000_0000;
      }
    } else {
      assert Needed(size) < 0x1_0000_0000;
    }
  }

  lemma SmallMod(x: nat)
    requires x < 0x1_0000_0000
    ensures x % 0x1_0000_0000 == x
  {}

  /** Above the bound the aligned size is at least 2^32 - 8. */
  lemma AlignFour(size: nat)
    requires size + 3 < 0x1_0000_0000
    ensures size <= 0xffff_fff4 ==> AlignDown(size + 3, ALIGNMENT) <= 0xffff_fff4
    ensures size > 0xffff_fff4 ==> AlignDown(size + 3, ALIGNMENT) >= 0xffff_fff8
  {}

  predicate Large(n: nat, need: nat, strict: bool) {
    if strict then n > need else n >= need
  }

  lemma AllShort(s: seq<Blk>, need: nat, strict: bool)
    requires NoFit(s, need, strict)
    ensures forall b | b in s && !b.used :: if strict then b.len <= need else b.len < need
  {}

  lemma AllocFirst(s: seq<Blk>, i: nat, size: nat)
    requires i < |s| && s[i].len >= size + HEADER
    ensures i < |AllocAt(s, i, size)| && AllocAt(s, i, size)[i] == Blk(s[i].addr, size, true)
  {}

  /** No header lies inside a block. */
  lemma InsideNone(s: seq<Blk>, i: nat, x: nat, used: bool)
    requires Good(s) && i < |s| && s[i].addr < x < End(s[i])
    ensures x !in Addrs(s, used)
  {
    hide Addrs;
    if x in Addrs(s, used) {
      InAddrs(s, used, x);
      var j :| 0 <= j < |s| && s[j].addr == x && s[j].used == used;
      if j < i { Ordered(s, j, i); } else if j > i { Ordered(s, i, j); }
    }
  }

  lemma BehindAll(s: seq<Blk>, i: nat, x: nat)
    requires Good(s) && i < |s| && x < End(s[i])
    ensures var fb := Addrs(s[i + 1..], false); forall a | a in fb :: a > x
  {
    hide Addrs;
    var t := s[i + 1..];
    var fb := Addrs(t, false);
    forall a | a in fb ensures a > x {
      InAddrs(t, false, a);
      var k :| 0 <= k < |t| && t[k].addr == a && t[k].used == false;
      assert t[k] == s[i + 1 + k];
      Ordered(s, i, i + 1 + k);
    }
  }

  /** The lists after allocating the front of block i. */
  lemma AllocLists(s: seq<Blk>, i: nat, size: nat)
    requires i < |s| && !s[i].used && s[i].len >= size + HEADER
    ensures var t, h, x := AllocAt(s, i, size), s[i].addr, s[i].addr + HEADER + size;
            && Addrs(t, false) == Addrs(s[..i], false) + [x] + Addrs(s[i + 1..], false)
            && Addrs(t, true) == Addrs(s[..i], true) + [h] + Addrs(s[i + 1..], true)
            && Addrs(s, false) == Addrs(s[..i], false) + [h] + Addrs(s[i + 1..], false)
            && Addrs(s, true) == Addrs(s[..i], true) + Addrs(s[i + 1..], true)
  {
    hide Addrs;
    var t := AllocAt(s, i, size);
    var b, c := t[i], t[i + 1];
    assert t == (s[..i] + [b, c]) + s[i + 1..];
    forall used: bool ensures Addrs(t, used) == Addrs(s[..i], used) + Addrs([b, c], used) + Addrs(s[i + 1..], used) {
      AddrsAppend(s[..i] + [b, c], s[i + 1..], used);
      AddrsAppend(s[..i], [b, c], used);
    }
    AddrsTwo(b, c);
    AddrsAround(s, i, true);
    AddrsAround(s, i, false);
    NoMiddle(Addrs(s[..i], true), Addrs(s[i + 1..], true));
  }

  lemma AddrsTwo(b: Blk, c: Blk)
    requires b.used && !c.used
    ensures Addrs([b, c], true) == [b.addr] && Addrs([b, c], false) == [c.addr]
  {
    assert [b, c] == [b] + [c];
    AddrsAppend([b], [c], true);
    AddrsAppend([b], [c], false);
    AddrsOne(b, true);
    AddrsOne(b, false);
    AddrsOne(c, true);
    AddrsOne(c, false);
  }

  lemma AllocLengths(s: seq<Blk>, i: nat, size: nat, len: map<nat, nat>)
    requires Good(s) && i < |s| && !s[i].used && s[i].len >= size + HEADER && LengthsOf(s, len)
    ensures var h, x := s[i].addr, s[i].addr + HEADER + size;
            && h in len && len[h] == s[i].len
            && LengthsOf(AllocAt(s, i, size), len[x := len[h] - HEADER - size][h := size])
  {
    var t, h, x := AllocAt(s, i, size), s[i].addr, s[i].addr + HEADER + size;
    assert s[i] in s;
    var n1 := len[x := len[h] - HEADER - size][h := size];
    forall b | b in t ensures b.addr in n1 && n1[b.addr] == b.len {
      var k :| 0 <= k < |t| && t[k] == b;
      if k < i {
        assert b == s[k] && b in s;
        Ordered(s, k, i);
      } else if k > i + 1 {
        assert b == s[k - 1] && b in s;
        Ordered(s, i, k - 1);
      }
    }
  }

  /** The lists an allocation works on. */
  lemma AllocSetup(s: seq<Blk>, i: nat, size: nat)
    requires Good(s) && i < |s| && !s[i].used && s[i].len >= size + HEADER
    ensures var ua, ub, fa, fb := Addrs(s[..i], true), Addrs(s[i + 1..], true), Addrs(s[..i], false), Addrs(s[i + 1..], false);
            var h, x := s[i].addr, s[i].addr + HEADER + size;
            && Sorted(fa + [h] + fb) && Sorted(ua + ub) && Sorted(fa + [h] + ([x] + fb))
            && x !in fa + [h] + fb && x !in ua + ub && h !in ua + ub
            && (forall a | a in ua :: a < h) && (forall a | a in ub :: a > h)
            && (forall a | a in ua + ub :: a !in fa + [h] + fb)
            && (forall a | a in fa + ([x] + fb) :: a !in ua + ub) && h !in fa + ([x] + fb)
  {
    var ua, ub, fa, fb := Addrs(s[..i], true), Addrs(s[i + 1..], true), Addrs(s[..i], false), Addrs(s[i + 1..], false);
    var h, x := s[i].addr, s[i].addr + HEADER + size;
    AllocLists(s, i, size);
    BeforeAfter(s, i, true);
    BeforeAfter(s, i, false);
    BothSorted(s);
    Disjoint(s);
    InsideNone(s, i, x, true);
    InsideNone(s, i, x, false);
    BehindAll(s, i, x);
    hide Addrs, Good;
    NotTwice(fa, h, fb);
    SortedTwo(fa, h, x, fb);
    assert h in fa + [h] + fb;
    forall a | a in fa + ([x] + fb) ensures a !in ua + ub {
      assert a != x ==> a in fa + [h] + fb;
    }
  }

  lemma SortedTwo(fa: seq<nat>, h: nat, x: nat, fb: seq<nat>)
    requires Sorted(fa + [h] + fb) && h < x && forall a | a in fb :: a > x
    ensures Sorted(fa + [h] + ([x] + fb))
  {
    var l, m := fa + [h] + ([x] + fb), fa + [h] + fb;
    var n := |fa| + 1;
    assert forall k | 0 <= k < n :: l[k] == m[k];
    assert forall k | n < k < |l| :: l[k] == m[k - 1] == fb[k - n - 1];
    assert m[n - 1] == h;
    forall i, j | 0 <= i < j < |l| ensures l[i] < l[j] {
      if i == n {
        assert fb[j - n - 1] in fb;
      }
    }
  }

  lemma InsertedAfter(fa: seq<nat>, h: nat, fb: seq<nat>, x: nat)
    ensures Inserted(fa + [h] + fb, |fa| + 1, x) == fa + [h] + ([x] + fb)
    ensures (fa + [h] + ([x] + fb))[|fa|] == h
  {}

  lemma NewApart(u: seq<nat>, fa: seq<nat>, h: nat, x: nat, fb: seq<nat>)
    requires (forall a | a in u :: a !in fa + [h] + fb) && x !in u
    ensures forall a | a in u :: a !in fa + [h] + ([x] + fb)
  {}

  lemma OneChanged(nxt: Links, h: nat)
    ensures LinksBut(nxt, nxt[h := None], [], h)
  {}

  // ---------- Searching and collecting ----------

  /** Block i is the first free one that is large enough. */
  ghost predicate FirstFit(s: seq<Blk>, i: nat, need: nat, strict: bool) {
    && i < |s| && !s[i].used && Large(s[i].len, need, strict)
    && forall j | 0 <= j < i :: s[j].used || !Large(s[j].len, need, strict)
  }

  ghost predicate NoFit(s: seq<Blk>, need: nat, strict: bool) {
    forall j | 0 <= j < |s| :: s[j].used || !Large(s[j].len, need, strict)
  }

  /** None of the first k blocks of the free list is large enough. */
  ghost predicate SmallUpTo(l: seq<nat>, k: nat, len: map<nat, nat>, need: nat, strict: bool) {
    forall j: nat | j < k && j < |l| :: l[j] in len && !Large(len[l[j]], need, strict)
  }

  lemma FitInRow(s: seq<Blk>, len: map<nat, nat>, k: nat, need: nat, strict: bool) returns (i: nat)
    requires Good(s) && LengthsOf(s, len) && k < |Addrs(s, false)|
    requires SmallUpTo(Addrs(s, false), k, len, need, strict)
    requires Addrs(s, false)[k] in len && Large(len[Addrs(s, false)[k]], need, strict)
    ensures i < |s| && s[i].addr == Addrs(s, false)[k] && FirstFit(s, i, need, strict)
  {
    hide Addrs;
    var l := Addrs(s, false);
    assert l[k] in l;
    InAddrs(s, false, l[k]);
    i :| i < |s| && s[i].addr == l[k] && s[i].used == false;
    assert s[i] in s;
    BothSorted(s);
    forall j | 0 <= j < i ensures s[j].used || !Large(s[j].len, need, strict) {
      if !s[j].used {
        AddrsHave(s, j);
        Ordered(s, j, i);
        var q :| 0 <= q < |l| && l[q] == s[j].addr;
        assert s[j] in s;
        assert q < k;
      }
    }
  }

  lemma NoFitInRow(s: seq<Blk>, len: map<nat, nat>, need: nat, strict: bool)
    requires Good(s) && LengthsOf(s, len)
    requires SmallUpTo(Addrs(s, false), |Addrs(s, false)|, len, need, strict)
    ensures NoFit(s, need, strict)
  {
    hide Addrs;
    var l := Addrs(s, false);
    forall j | 0 <= j < |s| ensures s[j].used || !Large(s[j].len, need, strict) {
      if !s[j].used {
        AddrsHave(s, j);
        var q :| 0 <= q < |l| && l[q] == s[j].addr;
        assert s[j] in s;
      }
    }
  }

  /** A variable holds the address of the block's data; None is a variable slot not in use. */
  predicate Referenced(vars: seq<Option<nat>>, a: nat) {
    Some(a + HEADER) in vars
  }

  /** The blocks a collection keeps. */
  function Kept(l: seq<nat>, vars: seq<Option<nat>>): seq<nat> {
    if l == [] then []
    else Kept(l[..|l| - 1], vars) + if Referenced(vars, l[|l| - 1]) then [l[|l| - 1]] else []
  }

  lemma KeptStep(l: seq<nat>, vars: seq<Option<nat>>, m: nat)
    requires m < |l|
    ensures Kept(l[..m], vars) + l[m..] == Kept(l[..m], vars) + [l[m]] + l[m + 1..]
    ensures Kept(l[..m + 1], vars) + l[m + 1..] ==
            if Referenced(vars, l[m]) then Kept(l[..m], vars) + [l[m]] + l[m + 1..] else Kept(l[..m], vars) + l[m + 1..]
  {
    hide Referenced;
    assert l[..m + 1][..m] == l[..m];
    assert l[m..] == [l[m]] + l[m + 1..];
  }

  /** The links of an allocated list that starts with k. */
  lemma LinkBehind(nxt: Links, head: Option<nat>, k: seq<nat>, l: seq<nat>, m: nat)
    requires m < |l| && Linked(nxt, head, k + [l[m]] + l[m + 1..])
    ensures l[m] in nxt && nxt[l[m]] == At(l, m + 1)
  {
    var all := k + [l[m]] + l[m + 1..];
    assert all[|k|] == l[m];
    LinkOf(nxt, head, all, |k|);
  }

  /** A sorted list is cut at an element in one way only. */
  lemma {:induction false} CutOnce(a: seq<nat>, b: seq<nat>, c: seq<nat>, d: seq<nat>, h: nat)
    requires a + [h] + b == c + [h] + d && Sorted(a + [h] + b)
    ensures a == c && b == d
  {
    var l := a + [h] + b;
    assert l[|a|] == h && (c + [h] + d)[|c|] == h;
    assert |a| == |c|;
    assert a == l[..|a|] && c == (c + [h] + d)[..|c|];
    assert b == l[|a| + 1..] && d == (c + [h] + d)[|c| + 1..];
  }

  /** One step of the collection: the block at the front of the rest is dropped. */
  lemma DropOne(s: seq<Blk>, k: seq<nat>, h: nat, rest: seq<nat>) returns (i: nat)
    requires Good(s) && Addrs(s, true) == k + [h] + rest
    ensures i < |s| && s[i].used && s[i].addr == h && Addrs(FreeAt(s, i), true) == k + rest
    ensures forall b | b in FreeAt(s, i) && b.used :: b in s
  {
    hide Addrs, Good;
    assert h in k + [h] + rest;
    InAddrs(s, true, h);
    i :| i < |s| && s[i].addr == h && s[i].used == true;
    ListsAround(s, i);
    FreedLists(s, i);
    BothSorted(s);
    CutOnce(Addrs(s[..i], true), Addrs(s[i + 1..], true), k, rest, h);
  }

  lemma KeptNone(l: seq<nat>, vars: seq<Option<nat>>)
    ensures Kept(l[..0], vars) == [] && l[0..] == l
  {}

  lemma HeadOf(nxt: Links, head: Option<nat>, l: seq<nat>)
    requires Linked(nxt, head, l)
    ensures head == At(l, 0)
  {}

  /** The first p entries are below h, the others above. */
  ghost predicate Splits(l: seq<nat>, p: nat, h: nat) {
    p <= |l| && (forall k | 0 <= k < p :: l[k] < h) && (forall k | p <= k < |l| :: l[k] > h)
  }

  lemma SplitsAt(l: seq<nat>, k: nat, h: nat)
    requires Sorted(l) && k < |l| && l[k] < h && (k + 1 < |l| ==> l[k + 1] > h)
    ensures Splits(l, k + 1, h)
  {}

  lemma SplitsFirst(l: seq<nat>, h: nat)
    requires Sorted(l) && l != [] && l[0] > h
    ensures Splits(l, 0, h)
  {}

  lemma NoSplit(h: nat)
    ensures Splits([], 0, h)
  {}

  lemma SplitBounds(l: seq<nat>, p: nat, h: nat)
    requires Splits(l, p, h)
    ensures p <= |l| && (p == |l| && p > 0 ==> l[p - 1] < h)
  {}

  class Arena {
    /** The two fields of every header, by the header's offset. */
    var len: map<nat, nat>
    var nxt: Links
    var free: Option<nat>
    var alloc: Option<nat>
    ghost var row: seq<Blk>

    /** finsh_heap_init. */
    constructor ()
      ensures Valid() && row == INITIAL == [Blk(0, 120, false)]
    {
      len, nxt := map[0 := HEAP_MAX - HEADER], map[0 := None];
      free, alloc := Some(0), None;
      row := INITIAL;
      new;
      InitialGood();
      AddrsOne(INITIAL[0], false);
      AddrsOne(INITIAL[0], true);
    }

    ghost predicate Valid()
      reads this
    {
      && Good(row) && LengthsOf(row, len)
      && Linked(nxt, free, Addrs(row, false)) && Linked(nxt, alloc, Addrs(row, true))
    }

    /** The last header in front of the place for `h`. */
    method FindPlace(first: nat, h: nat, ghost head: Option<nat>, ghost l: seq<nat>) returns (node: nat, ghost k: nat)
      requires Linked(nxt, head, l) && Sorted(l) && l != [] && first == l[0] && first < h && h !in l
      ensures k < |l| && node == l[k] && node in nxt && Splits(l, k + 1, h)
    {
      hide Linked, Sorted;
      node, k := first, 0;
      LinkOf(nxt, head, l, 0);
      while nxt[node] != None && nxt[node].value <= h
        invariant 0 <= k < |l| && node == l[k] && node < h && node in nxt && nxt[node] == At(l, k + 1)
        decreases |l| - k
      {
        node := nxt[node].value;
        k := k + 1;
        LinkOf(nxt, head, l, k);
      }
      SplitsAt(l, k, h);
    }

    /** finsh_block_insert; at the very end of a list the header's own link is left as it is. */
    method Insert(head: Option<nat>, h: nat, ghost l: seq<nat>) returns (r: Option<nat>, ghost p: nat)
      requires Linked(nxt, head, l) && Sorted(l) && h !in l && h in nxt
      requires nxt[h] == None || (l != [] && h < l[|l| - 1])
      modifies this`nxt
      ensures Splits(l, p, h)
      ensures Linked(nxt, r, Inserted(l, p, h)) && LinksBut(old(nxt), nxt, l, h)
    {
      hide Linked, Sorted, Inserted, Splits;
      HeadOf(nxt, head, l);
      if head == None {
        InsertLinked(nxt, head, l, 0, h);
        assert nxt[h := None] == nxt;
        NoSplit(h);
        return Some(h), 0;
      }
      var node := head.value;
      if node > h {
        InsertLinked(nxt, head, l, 0, h);
        SplitsFirst(l, h);
        nxt := nxt[h := Some(node)];
        return Some(h), 0;
      }
      ghost var k;
      node, k := FindPlace(node, h, head, l);
      p := k + 1;
      SplitBounds(l, p, h);
      InsertLinked(nxt, head, l, p, h);
      LinkOf(nxt, head, l, k);
      if nxt[node] != None {
        nxt := nxt[h := nxt[node]];
      } else {
        assert nxt[h := None] == nxt;
      }
      nxt := nxt[node := Some(h)];
      r := head;
    }

    /** finsh_block_remove. */
    method Remove(head: Option<nat>, h: nat, ghost l: seq<nat>, ghost k: nat) returns (r: Option<nat>)
      requires Linked(nxt, head, l) && Sorted(l) && k < |l| && l[k] == h
      modifies this`nxt
      ensures Linked(nxt, r, Removed(l, k)) && LinksBut(old(nxt), nxt, l, h) && h in nxt
    {
      RemoveLinked(nxt, head, l, k);
      if head == Some(h) {
        r := nxt[h];
        nxt := nxt[h := None];
        return;
      }
      var node := head;
      ghost var j := 0;
      while node != None
        invariant 0 <= j < k && node == Some(l[j]) && nxt == old(nxt)
        decreases k - j
      {
        if nxt[node.value] == Some(h) {
          nxt := nxt[node.value := nxt[h]];
          break;
        }
        node := nxt[node.value];
        j := j + 1;
      }
      r := head;
    }

    /** The header in front of `h` in the free list. */
    method FindPrev(h: nat, ghost l: seq<nat>, ghost p: nat) returns (prev: Option<nat>)
      requires Linked(nxt, free, l) && Sorted(l) && p < |l| && l[p] == h
      ensures prev == if p > 0 then Some(l[p - 1]) else None
    {
      hide Linked, Sorted;
      HeadIs(nxt, free, l, p);
      if free == Some(h) {
        return None;
      }
      prev := free;
      ghost var k := 0;
      LinkIs(nxt, free, l, 0, p);
      while nxt[prev.value] != Some(h)
        invariant 0 <= k < p && prev == Some(l[k]) && l[k] in nxt
        invariant nxt[l[k]] == Some(l[k + 1]) && (nxt[l[k]] == Some(h) <==> k + 1 == p)
        decreases p - k
      {
        prev := nxt[prev.value];
        k := k + 1;
        LinkIs(nxt, free, l, k, p);
      }
    }

    /** finsh_block_merge. */
    method Merge(h: nat, ghost l: seq<nat>, ghost p: nat)
      requires Linked(nxt, free, l) && Sorted(l) && p < |l| && l[p] == h && forall a | a in l :: a in len
      modifies this`nxt, this`len
      ensures Linked(nxt, free, MergedList(l, p, old(len))) && LinksBut(old(nxt), nxt, l, h)
      ensures len == MergedLen(l, p, old(len))
    {
      hide Linked, Sorted;
      var next := nxt[h] by { LinkOf(nxt, free, l, p); }
      var prev := FindPrev(h, l, p);
      LinkOf(nxt, free, l, p);
      MergeLinked(nxt, free, l, p, len);
      var mn := next != None && h + len[h] + HEADER == next.value;
      if mn {
        LinkOf(nxt, free, l, p + 1);
      }
      if prev != None && prev.value + len[prev.value] + HEADER == h {
        if mn {
          len := len[prev.value := len[prev.value] + (len[h] + len[next.value] + 2 * HEADER)];
          nxt := nxt[prev.value := nxt[next.value]];
        } else {
          len := len[prev.value := len[prev.value] + (len[h] + HEADER)];
          nxt := nxt[prev.value := nxt[h]];
        }
      } else if mn {
        len := len[h := len[h] + (len[next.value] + HEADER)];
        nxt := nxt[h := nxt[next.value]];
      }
    }

    /** The header moves from the allocated list to its place in the free list. */
    method MoveToFree(h: nat, ghost i: nat)
      requires Valid() && i < |row| && row[i].used && h == row[i].addr
      modifies this`nxt, this`free, this`alloc
      ensures Linked(nxt, free, Addrs(row[..i], false) + [h] + Addrs(row[i + 1..], false))
      ensures Linked(nxt, alloc, Addrs(row[..i], true) + Addrs(row[i + 1..], true))
    {
      hide Linked, Sorted, Good, Addrs, LinksBut, Inserted, Removed, LengthsOf;
      ListsAround(row, i);
      FreeSetup(row, i);
      ghost var ua, ub, fa, fb := Addrs(row[..i], true), Addrs(row[i + 1..], true), Addrs(row[..i], false), Addrs(row[i + 1..], false);
      ghost var n0 := nxt;
      alloc := Remove(alloc, h, ua + [h] + ub, |ua|);
      RemovedMiddle(ua, h, ub);
      StillLinked(n0, nxt, free, fa + fb, ua + [h] + ub, h);
      ghost var p;
      ghost var n1 := nxt;
      free, p := Insert(free, h, fa + fb);
      InsertPlace(fa, fb, p, h);
      StillLinked(n1, nxt, alloc, ua + ub, fa + fb, h);
    }

    /** finsh_heap_free: the block leaves the allocated ones and joins its free neighbours. */
    method Free(ptr: nat, ghost i: nat)
      requires Valid() && i < |row| && row[i].used && ptr == row[i].addr + HEADER
      modifies this
      ensures Valid() && row == FreeAt(old(row), i)
    {
      hide Linked, Sorted, Good, Addrs, LinksBut, FreeAt, LengthsOf, MergedList, MergedLen;
      var h := ptr - HEADER;
      ghost var s := row;
      ListsAround(s, i);
      FreeSetup(s, i);
      FreeMerges(s, i, len);
      FreeLengths(s, i, len);
      FreeGood(s, i);
      MoveToFree(h, i);
      ghost var fa, fb, n2 := Addrs(s[..i], false), Addrs(s[i + 1..], false), nxt;
      Merge(h, fa + [h] + fb, |fa|);
      StillLinked(n2, nxt, alloc, Addrs(s[..i], true) + Addrs(s[i + 1..], true), fa + [h] + fb, h);
      row := FreeAt(s, i);
    }

    /** finsh_block_split: the rest of the block becomes a free block behind it. */
    method Split(h: nat, size: nat, ghost l: seq<nat>, ghost p: nat)
      requires Linked(nxt, free, l) && Sorted(l) && p < |l| && l[p] == h && h in len && len[h] >= size + HEADER
      requires h + HEADER + size !in l
      modifies this`nxt, this`len
      ensures Linked(nxt, free, Inserted(l, p + 1, h + HEADER + size))
      ensures LinksBut(old(nxt), nxt, l, h + HEADER + size)
      ensures len == old(len)[h + HEADER + size := old(len)[h] - HEADER - size][h := size]
    {
      hide Linked, Sorted, Inserted;
      var next := h + HEADER + size;
      LinkOf(nxt, free, l, p);
      InsertLinked(nxt, free, l, p + 1, next);
      len := len[next := len[h] - HEADER - size];
      len := len[h := size];
      nxt := nxt[next := nxt[h]];
      nxt := nxt[h := Some(next)];
    }

    /** Split, take off the free list, put on the allocated list. */
    method Carve(h: nat, size: nat, ghost i: nat)
      requires Valid() && i < |row| && !row[i].used && h == row[i].addr && row[i].len >= size + HEADER
      modifies this
      ensures Valid() && row == AllocAt(old(row), i, size)
    {
      hide Linked, Sorted, Good, Addrs, LinksBut, Inserted, Removed, LengthsOf, AllocAt;
      ghost var s, x := row, h + HEADER + size;
      ghost var ua, ub, fa, fb := Addrs(s[..i], true), Addrs(s[i + 1..], true), Addrs(s[..i], false), Addrs(s[i + 1..], false);
      AllocLists(s, i, size);
      AllocSetup(s, i, size);
      AllocLengths(s, i, size, len);
      AllocGood(s, i, size);
      ghost var l, n0 := fa + [h] + fb, nxt;
      assert l[|fa|] == h;
      Split(h, size, l, |fa|);
      InsertedAfter(fa, h, fb, x);
      StillLinked(n0, nxt, alloc, ua + ub, l, x);
      ghost var n1 := nxt;
      free := Remove(free, h, fa + [h] + ([x] + fb), |fa|);
      RemovedMiddle(fa, h, [x] + fb);
      NewApart(ua + ub, fa, h, x, fb);
      StillLinked(n1, nxt, alloc, ua + ub, fa + [h] + ([x] + fb), h);
      ghost var n2 := nxt;
      nxt := nxt[h := None];
      OneChanged(n2, h);
      StillLinked(n2, nxt, free, fa + ([x] + fb), [], h);
      StillLinked(n2, nxt, alloc, ua + ub, [], h);
      ghost var p;
      ghost var n3 := nxt;
      alloc, p := Insert(alloc, h, ua + ub);
      InsertPlace(ua, ub, p, h);
      StillLinked(n3, nxt, free, fa + ([x] + fb), ua + ub, h);
      assert fa + ([x] + fb) == fa + [x] + fb;
      row := AllocAt(s, i, size);
    }

    /** The first free block that is large enough, if there is one. */
    method FindFit(need: nat, strict: bool) returns (h: Option<nat>, ghost i: nat)
      requires Valid()
      ensures h.Some? ==> FirstFit(row, i, need, strict) && h.value == row[i].addr
      ensures h.None? ==> NoFit(row, need, strict)
    {
      hide Addrs, Good, Linked, Large;
      ghost var l, k := Addrs(row, false), 0;
      i := 0;
      HeadOf(nxt, free, l);
      AllInLen(row, len);
      h := free;
      while h != None && !Large(len[h.value], need, strict)
        invariant 0 <= k <= |l| && h == At(l, k) && SmallUpTo(l, k, len, need, strict)
        decreases |l| - k
      {
        LinkOf(nxt, free, l, k);
        h := nxt[h.value];
        k := k + 1;
      }
      if h.Some? {
        i := FitInRow(row, len, k, need, strict);
      } else {
        NoFitInRow(row, len, need, strict);
      }
    }

    /** The loop over the variables. */
    method IsReferenced(vars: seq<Option<nat>>, a: nat) returns (r: bool)
      ensures r == Referenced(vars, a)
    {
      for i := 0 to |vars|
        invariant Some(a + HEADER) !in vars[..i]
      {
        if vars[i] == Some(a + HEADER) {
          return true;
        }
      }
      assert vars[..|vars|] == vars;
      r := false;
    }

    /** One block of the collection; the next one is read before this one is freed. */
    method GcStep(h: nat, vars: seq<Option<nat>>, ghost k: seq<nat>, ghost l: seq<nat>, ghost m: nat)
      returns (next: Option<nat>)
      requires Valid() && m < |l| && h == l[m] && Addrs(row, true) == k + [l[m]] + l[m + 1..]
      modifies this
      ensures Valid() && next == At(l, m + 1)
      ensures Addrs(row, true) == if Referenced(vars, h) then k + [l[m]] + l[m + 1..] else k + l[m + 1..]
      ensures forall b | b in row && b.used :: b in old(row)
    {
      hide Addrs, Good, Linked, LengthsOf, Referenced, FreeAt, At;
      LinkBehind(nxt, alloc, k, l, m);
      var found := IsReferenced(vars, h);
      next := nxt[h];
      if !found {
        ghost var i := DropOne(row, k, l[m], l[m + 1..]);
        Free(h + HEADER, i);
      }
    }

    /** finsh_heap_gc: exactly the blocks a variable refers to stay, as they are. */
    method Gc(vars: seq<Option<nat>>)
      requires Valid()
      modifies this
      ensures Valid() && Addrs(row, true) == Kept(Addrs(old(row), true), vars)
      ensures forall b | b in row && b.used :: b in old(row)
    {
      hide Addrs, Good, Linked, LengthsOf, Kept, Referenced, FreeAt;
      ghost var l, m := Addrs(row, true), 0;
      KeptNone(l, vars);
      HeadOf(nxt, alloc, l);
      var header := alloc;
      while header != None
        invariant Valid() && 0 <= m <= |l| && header == At(l, m)
        invariant Addrs(row, true) == Kept(l[..m], vars) + l[m..]
        invariant forall b | b in row && b.used :: b in old(row)
        decreases |l| - m
      {
        KeptStep(l, vars, m);
        header := GcStep(header.value, vars, Kept(l[..m], vars), l, m);
        m := m + 1;
      }
      assert l[..m] == l && l[m..] == [];
    }

    /** finsh_heap_allocate: the first free block longer than the rounded size and a header; if there is none, a collection,
        and then the first that is at least as long.  NULL only if every free block is shorter even then. */
    method Allocate(size: nat, vars: seq<Option<nat>>)
      returns (r: Option<nat>, ghost collected: bool, ghost base: seq<Blk>, ghost i: nat)
      requires Valid() && size <= 0xffff_fff4
      modifies this
      ensures Valid() && Good(base)
      ensures collected <==> forall b | b in old(row) && !b.used :: b.len <= AlignUp(size, 4) + 8
      ensures !collected ==> base == old(row) && r.Some?
      ensures collected ==> && Addrs(base, true) == Kept(Addrs(old(row), true), vars)
                            && forall b | b in base && b.used :: b in old(row)
      ensures r.Some? ==> && i < |base| && !base[i].used && r.value == base[i].addr + 8
                          && (if collected then base[i].len >= AlignUp(size, 4) + 8 else base[i].len > AlignUp(size, 4) + 8)
      ensures r.Some? ==> forall j | 0 <= j < i && !base[j].used ::
                            if collected then base[j].len < AlignUp(size, 4) + 8 else base[j].len <= AlignUp(size, 4) + 8
      ensures r.Some? ==> && row == AllocAt(base, i, AlignUp(size, 4))
                          && i < |row| && row[i] == Blk(base[i].addr, AlignUp(size, 4), true)
      ensures r.None? <==> collected && forall b | b in base && !b.used :: b.len < AlignUp(size, 4) + 8
      ensures r.None? ==> row == base
    {
      hide Addrs, Good, Linked, LengthsOf, Kept, Aligned, AlignUp, AllocAt;
      NeededExact(size);
      var n := Aligned(size);
      var h;
      base, collected := row, false;
      h, i := FindFit(Needed(size), true);
      if h.None? {
        assert forall b | b in row && !b.used :: b.len <= AlignUp(size, 4) + 8 by { AllShort(row, Needed(size), true); }
        Gc(vars);
        base, collected := row, true;
        h, i := FindFit(Needed(size), false);
        if h.None? {
          AllShort(row, Needed(size), false);
          return None, true, base, i;
        }
      }
      assert base[i] in base;
      AllocFirst(base, i, n);
      Carve(h.value, n, i);
      r := Some(h.value + HEADER);
    }
  }
}
