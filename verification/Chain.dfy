/** The log as bytes: after the revision count every tag is stored XOR-ed with the tag before it. */
module Chain {
  import opened Words
  import opened Log
  import T = Tag

  /** What the next tag is XOR-ed with: an odd CRC chunk flips the valid bit expected next. */
  function NextPtag(t: T.Tag): bv32 {
    if t.kind.Crc? && t.chunk & 1 == 1 then T.ToWord(t) ^ 0x8000_0000 else T.ToWord(t)
  }

  function LastPtag(log: seq<Entry>, p: bv32): bv32 {
    if log == [] then p else NextPtag(log[|log| - 1].tag)
  }

  function EncEntry(e: Entry, p: bv32): seq<byte> {
    ToBe32(Xor(T.ToWord(e.tag), p)) + e.data
  }

  function Enc(log: seq<Entry>, p: bv32): seq<byte>
    decreases log
  {
    if log == [] then []
    else Enc(log[..|log| - 1], p) + EncEntry(log[|log| - 1], LastPtag(log[..|log| - 1], p))
  }

  lemma {:induction false} EncAppend(a: seq<Entry>, b: seq<Entry>, p: bv32)
    ensures Enc(a + b, p) == Enc(a, p) + Enc(b, LastPtag(a, p))
    ensures LastPtag(a + b, p) == LastPtag(b, LastPtag(a, p))
    decreases b
  {
    hide EncEntry, NextPtag;
    if b == [] {
      assert a + b == a;
    } else {
      var init := b[..|b| - 1];
      EncAppend(a, init, p);
      assert (a + b)[..|a + b| - 1] == a + init;
    }
  }

  lemma EncCons(e: Entry, b: seq<Entry>, p: bv32)
    ensures Enc([e] + b, p) == EncEntry(e, p) + Enc(b, NextPtag(e.tag))
    ensures Enc([e], p) == EncEntry(e, p)
  {
    hide EncEntry, NextPtag;
    EncAppend([e], b, p);
    assert [e][..0] == [];
    assert Enc([e], p) == EncEntry(e, p);
  }

  /** The block starts with a revision count and then the whole log. */
  ghost predicate OnDisk(blk: seq<byte>, log: seq<Entry>) {
    var n := |Enc(log, T.NULL)|;
    4 + n <= |blk| && blk[4..4 + n] == Enc(log, T.NULL)
  }

  lemma PrefixOnDisk(blk: seq<byte>, log: seq<Entry>)
    requires log != [] && OnDisk(blk, log)
    ensures var rest, e := log[..|log| - 1], log[|log| - 1];
            var n := 4 + |Enc(rest, T.NULL)|;
            && OnDisk(blk, rest)
            && n + 4 + |e.data| == 4 + |Enc(log, T.NULL)| <= |blk|
            && blk[n..n + 4] == ToBe32(Xor(T.ToWord(e.tag), LastPtag(rest, T.NULL)))
            && blk[n + 4..n + 4 + |e.data|] == e.data
  {
    hide ToBe32, Xor, LastPtag, T.ToWord;
    var rest, e := log[..|log| - 1], log[|log| - 1];
    var r, w := Enc(rest, T.NULL), ToBe32(Xor(T.ToWord(e.tag), LastPtag(rest, T.NULL)));
    assert Enc(log, T.NULL) == r + w + e.data;
    SliceParts(blk, 4, r, w, e.data);
  }

  // ---------- Undoing one link of the chain ----------

  lemma PtagDecodes(t: T.Tag)
    ensures T.Masked(NextPtag(t)) == T.ToWord(t)
    ensures T.FromWord(NextPtag(t)) == t
  {}

  /** Going forward: the stored word and the previous tag give the tag. */
  lemma Forward(w: bv32, p: bv32)
    ensures Xor(FromBe32(ToBe32(Xor(w, p))), p) == w
  {
    hide ToBe32, FromBe32;
    Be32RoundTrip(Xor(w, p));
  }

  /** Going backward: the stored word and the tag give the previous tag, valid bit cleared. */
  lemma Backward(w: bv32, p: bv32, q: bv32)
    requires T.Masked(q) == w
    ensures T.Masked(Xor(FromBe32(ToBe32(Xor(w, p))), q)) == T.Masked(p)
  {}
}
