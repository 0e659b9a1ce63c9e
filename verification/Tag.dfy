/** Entry tags of littlefs metadata: valid bit, 3-bit kind, 8-bit chunk, 10-bit id, 10-bit size. */
module Tag {

  /** The three high type bits, in the order lfs.h numbers them (0x000, 0x100, ... 0x700). */
  datatype Kind = Name | From | Struct | UserAttr | Splice | Crc | Tail | Globals

  /** Ids and sizes have ten bits. */
  type u10 = n: nat | n < 0x400

  datatype Tag = Tag(kind: Kind, chunk: bv8, id: u10, size: u10)

  const NULL: bv32 := 0xffff_ffff

  const CREATE: bv8 := 0x01

  const DELETE: bv8 := 0xff

  /** The size field 0x3ff marks an attribute that is being removed. */
  predicate IsDelete(t: Tag) { t.size == 0x3ff }

  /** Bytes the entry takes on disk, tag included; a removal carries no data. */
  function Dsize(t: Tag): (n: nat)
    ensures 4 <= n <= 0x402
  {
    4 + if IsDelete(t) then 0 else t.size
  }

  /** Kinds with the 0x400 bit reshape the directory or belong to it as a whole. */
  predicate IsAttr(t: Tag) { t.kind in {Name, From, Struct, UserAttr} }

  /** Kinds with the 0x100 bit are told apart by the whole type, the others by the kind alone. */
  predicate Unique(t: Tag) { t.kind in {From, UserAttr, Crc, Globals} }

  function Code(k: Kind): (c: bv32)
    ensures c < 8
  {
    match k
    case Name => 0
    case From => 1
    case Struct => 2
    case UserAttr => 3
    case Splice => 4
    case Crc => 5
    case Tail => 6
    case Globals => 7
  }

  function KindOf(c: bv32): Kind {
    if c == 0 then Name else if c == 1 then From else if c == 2 then Struct else if c == 3 then UserAttr
    else if c == 4 then Splice else if c == 5 then Crc else if c == 6 then Tail else Globals
  }

  /** A ten-bit number as bits, counted up from zero. */
  function Bits(n: u10): (x: bv10)
    ensures x as nat == n
  {
    if n == 0 then 0 else var x := Bits(n - 1); NatUp(x); x + 1
  }

  lemma NatUp(x: bv10)
    requires x as nat < 0x3ff
    ensures (x + 1) as nat == x as nat + 1
  {}

  /** LFS_MKTAG: the valid bit is clear. */
  function ToWord(t: Tag): bv32 {
    (Code(t.kind) << 28) | ((t.chunk as bv32) << 20) | ((Bits(t.id) as bv32) << 10) | (Bits(t.size) as bv32)
  }

  /** The fields of a tag word, whatever its valid bit. */
  function FromWord(w: bv32): Tag {
    Tag(KindOf((w >> 28) & 7), ((w >> 20) & 0xff) as bv8,
        (((w >> 10) & 0x3ff) as bv10) as nat, ((w & 0x3ff) as bv10) as nat)
  }

  predicate IsValid(w: bv32) { w & 0x8000_0000 == 0 }

  /** The word with its valid bit cleared. */
  function Masked(w: bv32): bv32 { w & 0x7fff_ffff }

  lemma WordRoundTrip(t: Tag)
    ensures FromWord(ToWord(t)) == t
    ensures IsValid(ToWord(t))
  {}

  /** Clearing the valid bit changes no field. */
  lemma MaskedDecodes(w: bv32)
    ensures FromWord(Masked(w)) == FromWord(w)
  {}

  lemma {:induction false} BitsBack(x: bv10)
    ensures Bits(x as nat) == x
    decreases x as nat
  {
    if x != 0 {
      Below(x);
      BitsBack(x - 1);
    }
  }

  lemma Below(x: bv10)
    requires x != 0
    ensures (x - 1) as nat == x as nat - 1
  {}

  lemma CodeBack(c: bv32)
    requires c < 8
    ensures Code(KindOf(c)) == c
  {}

  lemma Assembled(w: bv32)
    ensures (((w >> 28) & 7) << 28) | ((((w >> 20) & 0xff) as bv8 as bv32) << 20)
            | ((((w >> 10) & 0x3ff) as bv10 as bv32) << 10) | ((w & 0x3ff) as bv10 as bv32) == Masked(w)
  {}

  /** Putting the fields together again gives the word, valid bit cleared. */
  lemma FieldsRoundTrip(w: bv32)
    ensures ToWord(FromWord(w)) == Masked(w)
  {
    hide Bits, Code, KindOf, Masked;
    BitsBack(((w >> 10) & 0x3ff) as bv10);
    BitsBack((w & 0x3ff) as bv10);
    CodeBack((w >> 28) & 7);
    Assembled(w);
  }

  // ---------- The word as lfs.h and LFS_MKTAG write it ----------

  /** The eleven type bits: the numbers of lfs.h for the kinds, and the chunk. */
  function Type(t: Tag): bv32 {
    (t.chunk as bv32) +
    match t.kind
    case Name => 0x000
    case From => 0x100
    case Struct => 0x200
    case UserAttr => 0x300
    case Splice => 0x400
    case Crc => 0x500
    case Tail => 0x600
    case Globals => 0x700
  }

  /** The word is type, id and size in their places. */
  lemma WordIs(t: Tag)
    ensures ToWord(t) == Type(t) * 0x10_0000 + (Bits(t.id) as bv32) * 0x400 + (Bits(t.size) as bv32)
  {
    hide Bits;
  }

  /** LFS_TYPE_CREATE and LFS_TYPE_DELETE. */
  lemma SpliceTypes(id: u10, size: u10)
    ensures Type(Tag(Splice, CREATE, id, size)) == 0x401 && Type(Tag(Splice, DELETE, id, size)) == 0x4ff
  {}

  function Pack(c: bv32, x: bv8, i: bv10, m: bv10): bv32 {
    (c << 28) | ((x as bv32) << 20) | ((i as bv32) << 10) | (m as bv32)
  }

  lemma Packed(t: Tag)
    ensures ToWord(t) == Pack(Code(t.kind), t.chunk, Bits(t.id), Bits(t.size)) && Code(t.kind) < 8
  {
    hide Bits, Code;
  }

  /** The mask a lookup uses: all kind bits, and some of the chunk. */
  function TypeMask(mask: bv8): bv32 { (0x700 | (mask as bv32)) << 20 }

  /** Two words are the same under a mask. */
  predicate Agree(m: bv32, v: bv32, w: bv32) { m & v == m & w }

  predicate SameChunk(mask: bv8, x: bv8, y: bv8) { mask & x == mask & y }

  /** Words that agree under a mask of type bits have the same kind and the same masked chunk. */
  lemma SameType(a: Tag, b: Tag, mask: bv8)
    ensures Agree(TypeMask(mask), ToWord(a), ToWord(b)) <==> a.kind == b.kind && SameChunk(mask, a.chunk, b.chunk)
  {
    hide Bits, Code, Agree, TypeMask, ToWord, Pack, SameChunk;
    CodeOnce(a.kind, b.kind);
    Packed(a);
    Packed(b);
    Fields(Code(a.kind), Code(b.kind), a.chunk, b.chunk, Bits(a.id), Bits(b.id), Bits(a.size), Bits(b.size), mask);
  }

  lemma CodeOnce(a: Kind, b: Kind)
    ensures Code(a) == Code(b) <==> a == b
  {}

  function Head(c: bv32, x: bv8): bv32 { (c << 28) | ((x as bv32) << 20) }

  lemma Under(c: bv32, x: bv8, i: bv10, m: bv10, mask: bv8)
    requires c < 8
    ensures TypeMask(mask) & Pack(c, x, i, m) == Head(c, mask & x)
  {}

  lemma HeadOnce(c: bv32, d: bv32, x: bv8, y: bv8)
    requires c < 8 && d < 8
    ensures Head(c, x) == Head(d, y) <==> c == d && x == y
  {}

  lemma Fields(c: bv32, d: bv32, x: bv8, y: bv8, i: bv10, j: bv10, m: bv10, n: bv10, mask: bv8)
    requires c < 8 && d < 8
    ensures Agree(TypeMask(mask), Pack(c, x, i, m), Pack(d, y, j, n)) <==> c == d && SameChunk(mask, x, y)
  {
    hide TypeMask, Pack, Head;
    Under(c, x, i, m, mask);
    Under(d, y, j, n, mask);
    HeadOnce(c, d, mask & x, mask & y);
  }

  /** The lowest ten bits are the size. */
  lemma SizeBits(t: Tag)
    ensures ToWord(t) & 0x3ff == 0x3ff <==> IsDelete(t)
  {
    hide Bits;
    BitsBack(0x3ff);
    LowBits(Code(t.kind), t.chunk, Bits(t.id), Bits(t.size));
  }

  lemma LowBits(c: bv32, x: bv8, i: bv10, m: bv10)
    requires c < 8
    ensures ((c << 28) | ((x as bv32) << 20) | ((i as bv32) << 10) | (m as bv32)) & 0x3ff == m as bv32
  {}

  /** lfs_tag_dsize: a word for the tag, and the size field with one added to it in a removal, so that 0x3ff becomes 0. */
  lemma DsizeWord(t: Tag)
    ensures T10(Dsize(t) - 4) == (ToWord(t) + if ToWord(t) & 0x3ff == 0x3ff then 1 else 0) & 0x3ff
  {
    hide Bits, ToWord;
    SizeBits(t);
    Packed(t);
    LowSize(Code(t.kind), t.chunk, Bits(t.id), Bits(t.size));
    BitsZero();
  }

  function T10(n: u10): bv32 { Bits(n) as bv32 }

  lemma BitsZero()
    ensures Bits(0) == 0
  {}

  lemma LowSize(c: bv32, x: bv8, i: bv10, m: bv10)
    requires c < 8
    ensures Pack(c, x, i, m) & 0x3ff == m as bv32 && (m == 0x3ff ==> (Pack(c, x, i, m) + 1) & 0x3ff == 0)
  {}

  /** The 0x400 bit tells attributes from what reshapes the directory, and the 0x100 bit which are told apart by their type. */
  lemma KindBits(t: Tag)
    ensures ToWord(t) & 0x4000_0000 == 0 <==> IsAttr(t)
    ensures ToWord(t) & 0x1000_0000 != 0 <==> Unique(t)
  {
    hide Bits;
    HighBits(Code(t.kind), t.chunk, Bits(t.id), Bits(t.size));
  }

  lemma HighBits(c: bv32, x: bv8, i: bv10, m: bv10)
    requires c < 8
    ensures var w := (c << 28) | ((x as bv32) << 20) | ((i as bv32) << 10) | (m as bv32);
            (w & 0x4000_0000 == 0 <==> c & 4 == 0) && (w & 0x1000_0000 != 0 <==> c & 1 != 0)
  {}

  /** The mask of type and id. */
  function TypeIdMask(mask: bv8): bv32 { TypeMask(mask) | 0x000f_fc00 }

  lemma IdMasks()
    ensures TypeIdMask(0xff) == 0x7fff_fc00 && TypeIdMask(0) == 0x700f_fc00
  {}

  lemma {:induction false} BitsOnce(a: u10, b: u10)
    ensures Bits(a) == Bits(b) <==> a == b
  {
    hide Bits;
  }

  function Middle(c: bv32, x: bv8, i: bv10): bv32 { (c << 28) | ((x as bv32) << 20) | ((i as bv32) << 10) }

  lemma UnderId(c: bv32, x: bv8, i: bv10, m: bv10, mask: bv8)
    requires c < 8
    ensures TypeIdMask(mask) & Pack(c, x, i, m) == Middle(c, mask & x, i)
  {}

  lemma MiddleOnce(c: bv32, d: bv32, x: bv8, y: bv8, i: bv10, j: bv10)
    requires c < 8 && d < 8
    ensures Middle(c, x, i) == Middle(d, y, j) <==> c == d && x == y && i == j
  {}

  lemma FieldsAndId(c: bv32, d: bv32, x: bv8, y: bv8, i: bv10, j: bv10, m: bv10, n: bv10, mask: bv8)
    requires c < 8 && d < 8
    ensures Agree(TypeIdMask(mask), Pack(c, x, i, m), Pack(d, y, j, n)) <==> c == d && SameChunk(mask, x, y) && i == j
  {
    hide TypeIdMask, Pack, Middle;
    UnderId(c, x, i, m, mask);
    UnderId(d, y, j, n, mask);
    MiddleOnce(c, d, mask & x, mask & y, i, j);
  }

  /** Words that agree under a mask of type and id. */
  lemma SameTypeAndId(a: Tag, b: Tag, mask: bv8)
    ensures Agree(TypeIdMask(mask), ToWord(a), ToWord(b)) <==>
            a.kind == b.kind && SameChunk(mask, a.chunk, b.chunk) && a.id == b.id
  {
    hide Bits, Code, TypeIdMask, ToWord, Pack, Agree, SameChunk;
    CodeOnce(a.kind, b.kind);
    BitsOnce(a.id, b.id);
    Packed(a);
    Packed(b);
    FieldsAndId(Code(a.kind), Code(b.kind), a.chunk, b.chunk, Bits(a.id), Bits(b.id), Bits(a.size), Bits(b.size), mask);
  }

  /** The word of a delete of the file of `f`. */
  lemma DeleteOf(t: Tag, f: Tag)
    ensures 0x7fff_fc00 & ToWord(t) == 0x4ff0_0000 | (0x000f_fc00 & ToWord(f)) <==>
            t.kind.Splice? && t.chunk == DELETE && t.id == f.id
  {
    hide Bits, Code, ToWord, Pack;
    Packed(t);
    Packed(f);
    CodeOnce(t.kind, Splice);
    SpliceCode();
    BitsOnce(t.id, f.id);
    DeleteBits(Code(t.kind), t.chunk, Bits(t.id), Bits(t.size), Code(f.kind), f.chunk, Bits(f.id), Bits(f.size));
  }

  lemma SpliceCode()
    ensures Code(Splice) == 4
  {}

  lemma DeleteBits(c: bv32, x: bv8, i: bv10, m: bv10, d: bv32, y: bv8, j: bv10, n: bv10)
    requires c < 8 && d < 8
    ensures 0x7fff_fc00 & Pack(c, x, i, m) == 0x4ff0_0000 | (0x000f_fc00 & Pack(d, y, j, n)) <==> c == 4 && x == 0xff && i == j
  {
    hide Pack, Middle;
    IdMasks();
    AllOnes(x);
    UnderId(c, x, i, m, 0xff);
    IdBits(d, y, j, n);
    MiddleOnce(c, 4, x, 0xff, i, j);
  }

  lemma AllOnes(x: bv8)
    ensures 0xff & x == x
  {}

  lemma IdBits(c: bv32, x: bv8, i: bv10, m: bv10)
    requires c < 8
    ensures 0x4ff0_0000 | (0x000f_fc00 & Pack(c, x, i, m)) == Middle(4, 0xff, i)
  {}
}
