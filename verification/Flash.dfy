/** sfud: erase and program loops over SPI commands, against replacing bytes in memory. */
module Flash {
  import opened Options
  import opened Words
  import opened Arith

  datatype Mode = Page256 | Aai | DualBuffer

  /** Address width, erase granularity, its command, the write mode of the chip, and whether it ignores WRITE_DISABLE. */
  datatype Geometry = Geometry(fourByte: bool, gran: nat, eraseCmd: nat, mode: Mode, ignores: bool)

  /** One SPI transfer to the chip: command byte, address bytes, data bytes. */
  datatype Frame = Frame(cmd: nat, address: seq<nat>, data: seq<byte>)

  /** The chip: its cells, the write enable latch, and the next address while in AAI mode. */
  datatype Chip = Chip(mem: seq<byte>, wel: bool, aai: Option<nat>)

  const WRITE_ENABLE := 0x06
  const WRITE_DISABLE := 0x04
  const PAGE_PROGRAM := 0x02
  const AAI_WORD_PROGRAM := 0xad
  const ERASE_CHIP := 0xc7

  ghost predicate Usable(g: Geometry, mem: seq<byte>) {
    && g.gran > 0 && |mem| % g.gran == 0 && |mem| <= (if g.fourByte then 0x1_0000_0000 else 0x100_0000)
    && g.eraseCmd != WRITE_ENABLE && g.eraseCmd != WRITE_DISABLE && g.eraseCmd != PAGE_PROGRAM
    && g.eraseCmd != AAI_WORD_PROGRAM && g.eraseCmd != ERASE_CHIP
  }

  // ---------- Addresses ----------

  /** make_adress_byte_array: most significant byte first. */
  function AddressBytes(g: Geometry, addr: nat): seq<nat> {
    var low := [addr / 0x1_0000 % 256, addr / 256 % 256, addr % 256];
    if g.fourByte then [addr / 0x100_0000 % 256] + low else low
  }

  /** How the chip reads them. */
  function Decode(bytes: seq<nat>): nat {
    if bytes == [] then 0 else 256 * Decode(bytes[..|bytes| - 1]) + bytes[|bytes| - 1]
  }

  lemma AddressBack(g: Geometry, addr: nat)
    requires addr < if g.fourByte then 0x1_0000_0000 else 0x100_0000
    ensures Decode(AddressBytes(g, addr)) == addr
  {
    var x, y, z := addr / 256, addr / 0x1_0000, addr / 0x100_0000;
    Digits(addr);
    if g.fourByte {
      DecodeFour(z % 256, y % 256, x % 256, addr % 256);
      assert AddressBytes(g, addr) == [z % 256, y % 256, x % 256, addr % 256];
    } else {
      DecodeThree(y % 256, x % 256, addr % 256);
    }
  }

  lemma Digits(addr: nat)
    requires addr < 0x1_0000_0000
    ensures 0x100_0000 * (addr / 0x100_0000 % 256) + 0x1_0000 * (addr / 0x1_0000 % 256) + 256 * (addr / 256 % 256) + addr % 256 == addr
    ensures addr < 0x100_0000 ==> addr / 0x100_0000 % 256 == 0
  {
    var x, y, z := addr / 256, addr / 0x1_0000, addr / 0x100_0000;
    assert addr == 256 * x + addr % 256;
    assert y == x / 256 && x == 256 * y + x % 256;
    assert z == y / 256 && y == 256 * z + y % 256;
    assert z < 256;
  }

  lemma DecodeThree(a: nat, b: nat, c: nat)
    ensures Decode([a, b, c]) == 0x1_0000 * a + 256 * b + c
  {
    assert [a, b, c][..2] == [a, b] && [a, b][..1] == [a] && [a][..0] == [];
    assert Decode([a]) == a && Decode([a, b]) == 256 * a + b;
  }

  lemma DecodeFour(a: nat, b: nat, c: nat, d: nat)
    ensures Decode([a, b, c, d]) == 0x100_0000 * a + 0x1_0000 * b + 256 * c + d
  {
    assert [a, b, c, d][..3] == [a, b, c];
    DecodeThree(a, b, c);
  }

  // ---------- What the chip does ----------

  function Both(a: byte, b: byte): byte { a & b }

  /** Programming can only clear bits. */
  function BurnByte(mem: seq<byte>, a: nat, d: byte): (r: seq<byte>)
    ensures |r| == |mem|
  {
    if a < |mem| then mem[a := Both(mem[a], d)] else mem
  }

  /** A page program: the address wraps around within its 256-byte page. */
  function PageProgram(mem: seq<byte>, addr: nat, data: seq<byte>): (r: seq<byte>)
    ensures |r| == |mem|
    decreases |data|
  {
    if data == [] then mem
    else
      var n := |data| - 1;
      BurnByte(PageProgram(mem, addr, data[..n]), AlignDown(addr, 256) + (addr % 256 + n) % 256, data[n])
  }

  function Erased(mem: seq<byte>, lo: nat, hi: nat): (r: seq<byte>)
    requires lo <= hi <= |mem|
    ensures |r| == |mem|
  {
    mem[..lo] + Blank(hi - lo) + mem[hi..]
  }

  function EraseSector(g: Geometry, mem: seq<byte>, addr: nat): (r: seq<byte>)
    requires g.gran > 0
    ensures |r| == |mem|
  {
    var lo := AlignDown(addr, g.gran);
    if lo + g.gran <= |mem| then Erased(mem, lo, lo + g.gran) else mem
  }

  /** One command. Programming and erasing need the write enable latch and clear it; AAI mode keeps it. */
  function Step(g: Geometry, c: Chip, f: Frame): (r: Chip)
    requires g.gran > 0
    ensures |r.mem| == |c.mem|
  {
    if f.cmd == WRITE_ENABLE then c.(wel := true)
    else if f.cmd == WRITE_DISABLE then if g.ignores then c else c.(wel := false, aai := None)
    else if !c.wel then c
    else if f.cmd == AAI_WORD_PROGRAM then
      if |f.data| != 2 then c
      else if c.aai.Some? && f.address == [] then AaiWord(c, c.aai.value, f.data)
      else if c.aai.None? && f.address != [] && Decode(f.address) % 2 == 0 then AaiWord(c, Decode(f.address), f.data)
      else c
    else if c.aai.Some? then c
    else if f.cmd == PAGE_PROGRAM then Chip(PageProgram(c.mem, Decode(f.address), f.data), false, None)
    else if f.cmd == ERASE_CHIP then Chip(Blank(|c.mem|), false, None)
    else if f.cmd == g.eraseCmd then Chip(EraseSector(g, c.mem, Decode(f.address)), false, None)
    else c
  }

  function AaiWord(c: Chip, a: nat, data: seq<byte>): (r: Chip)
    requires |data| == 2
    ensures |r.mem| == |c.mem|
  {
    Chip(BurnByte(BurnByte(c.mem, a, data[0]), a + 1, data[1]), true, Some(a + 2))
  }

  /** Programming clears bits and never sets one. */
  lemma BothClears(x: byte, y: byte)
    ensures Both(x, y) & !x == 0 && Both(x, y) & !y == 0 && Both(x, y) | (x ^ y) == x | y
  {}

  // ---------- Programming in a row ----------

  /** The bytes from `a` on programmed with `data`. */
  function Burn(mem: seq<byte>, a: nat, data: seq<byte>): (r: seq<byte>)
    ensures |r| == |mem|
    decreases |data|
  {
    if data == [] then mem else BurnByte(Burn(mem, a, data[..|data| - 1]), a + |data| - 1, data[|data| - 1])
  }

  lemma {:induction false} BurnAppend(mem: seq<byte>, a: nat, d: seq<byte>, e: seq<byte>)
    ensures Burn(Burn(mem, a, d), a + |d|, e) == Burn(mem, a, d + e)
    decreases |e|
  {
    hide BurnByte;
    if e == [] {
      assert d + e == d;
    } else {
      BurnAppend(mem, a, d, e[..|e| - 1]);
      assert (d + e)[..|d + e| - 1] == d + e[..|e| - 1];
    }
  }

  /** A program that stays in its page is not wrapped. */
  lemma {:induction false} InPage(mem: seq<byte>, addr: nat, data: seq<byte>)
    requires addr % 256 + |data| <= 256
    ensures PageProgram(mem, addr, data) == Burn(mem, addr, data)
    decreases |data|
  {
    hide BurnByte;
    if data != [] {
      var n := |data| - 1;
      InPage(mem, addr, data[..n]);
      assert (addr % 256 + n) % 256 == addr % 256 + n;
    }
  }

  lemma {:induction false} BurnAt(mem: seq<byte>, a: nat, data: seq<byte>, i: nat)
    requires a + |data| <= |mem| && i < |mem|
    ensures Burn(mem, a, data)[i] == if a <= i < a + |data| then Both(mem[i], data[i - a]) else mem[i]
    decreases |data|
  {
    hide Both;
    if data != [] {
      BurnAt(mem, a, data[..|data| - 1], i);
    }
  }

  /** Old bytes with a range replaced. */
  function Replaced(mem: seq<byte>, a: nat, data: seq<byte>): seq<byte>
    requires a + |data| <= |mem|
  {
    mem[..a] + data + mem[a + |data|..]
  }

  /** On erased cells programming is writing. */
  lemma BurnErased(mem: seq<byte>, a: nat, data: seq<byte>)
    requires a + |data| <= |mem| && forall i | a <= i < a + |data| :: mem[i] == ERASED
    ensures Burn(mem, a, data) == Replaced(mem, a, data)
  {}

  // ---------- The status register ----------

  const STATUS_WEL: byte := 0x02

  /** The register as the chip reports it: the latch is bit 1, the other bits are the chip's own. */
  function Status(c: Chip, others: byte): (s: byte)
    ensures (s & STATUS_WEL != 0 <==> c.wel) && s & 0xfd == others & 0xfd
  {
    if c.wel then others | 0x02 else others & 0xfd
  }

  /** The test the code makes after enabling is the latch. */
  predicate NotEnabled(s: byte) { s & STATUS_WEL == 0 }

  /** The test it makes after disabling compares a bit of value 2 with 1. */
  predicate NotDisabled(s: byte) { s & STATUS_WEL == 1 }

  /** So it holds for no status at all. */
  lemma NeverNotDisabled(s: byte)
    ensures !NotDisabled(s)
  {}

  /** How the i-th coming transfer ends. */
  predicate Ends(outcomes: seq<bool>, i: nat) { i >= |outcomes| || outcomes[i] }

  /** All coming transfers and waits end well. */
  predicate AllEnd(outcomes: seq<bool>) { forall i | 0 <= i < |outcomes| :: outcomes[i] }

  lemma AllEndRest(outcomes: seq<bool>)
    ensures AllEnd(outcomes) ==> Ends(outcomes, 0) && Ends(outcomes, 1) && AllEnd(Rest(outcomes))
  {}

  function Rest(outcomes: seq<bool>): seq<bool> { if outcomes == [] then [] else outcomes[1..] }

  // ---------- The driver ----------

  /** The chip is not in AAI mode and its address space is reachable. */
  ghost predicate Ready(g: Geometry, c: Chip) {
    Usable(g, c.mem) && c.aai == None
  }

  /** An odd last byte behind a pair is not programmed while the chip stays in AAI mode. */
  function Dropped(g: Geometry, addr: nat, size: nat): (n: nat)
    ensures n <= size
  {
    if g.ignores && size >= addr % 2 + 2 then (size - addr % 2) % 2 else 0
  }

  /** What a write leaves unprogrammed although it reports success: nothing on a chip that obeys WRITE_DISABLE. */
  function Missed(g: Geometry, addr: nat, size: nat): (n: nat)
    ensures n <= size && (!g.ignores || !g.mode.Aai? ==> n == 0)
  {
    if g.mode.Aai? then Dropped(g, addr, size) else 0
  }

  /** The bytes of one page program, from `addr` on. */
  function ChunkSize(addr: nat, size: nat, gran: nat): (n: nat)
    requires gran == 1 || gran == 256
    ensures n <= size && (size > 0 ==> n > 0) && addr % gran + n <= gran
    ensures n == size || addr % gran + n == gran
  {
    if size > gran - addr % gran then gran - addr % gran else size
  }

  lemma InOnePage(addr: nat, n: nat, gran: nat)
    requires (gran == 1 || gran == 256) && addr % gran + n <= gran
    ensures addr % 256 + n <= 256
  {}

  /** The sectors that meet the range are erased. */
  ghost function ErasedOver(g: Geometry, mem: seq<byte>, addr: nat, size: nat): (r: seq<byte>)
    requires Usable(g, mem) && addr + size <= |mem|
    ensures |r| == |mem|
  {
    AlignDownBounds(addr, g.gran);
    AlignUpBounds(addr + size, g.gran);
    AlignUpFits(addr + size, |mem|, g.gran);
    if size == 0 then mem else Erased(mem, AlignDown(addr, g.gran), AlignUp(addr + size, g.gran))
  }

  lemma WholeChip(g: Geometry, mem: seq<byte>)
    requires Usable(g, mem)
    ensures ErasedOver(g, mem, 0, |mem|) == Blank(|mem|) == Erased(mem, 0, |mem|)
    ensures AlignDown(0, g.gran) == 0 && AlignUp(|mem|, g.gran) == |mem|
  {
    hide AlignUp;
    AlignUpBounds(|mem|, g.gran);
    AlignUpFits(|mem|, |mem|, g.gran);
    AlignDownBounds(0, g.gran);
  }

  lemma EraseStart(g: Geometry, mem: seq<byte>, addr: nat, size: nat)
    requires Usable(g, mem) && addr + size <= |mem|
    ensures AlignDown(addr, g.gran) <= addr && Erased(mem, AlignDown(addr, g.gran), AlignDown(addr, g.gran)) == mem
    ensures size == 0 ==> ErasedOver(g, mem, addr, size) == mem
  {}

  /** One more page program behind the bytes already there. */
  lemma NextPage(mem: seq<byte>, before: seq<byte>, addr: nat, data: seq<byte>, n: nat, d: nat)
    requires n + d <= |data| && (addr + n) % 256 + d <= 256 && before == Burn(mem, addr, data[..n])
    ensures PageProgram(before, addr + n, data[n..n + d]) == Burn(mem, addr, data[..n + d])
  {
    hide Burn, PageProgram;
    InPage(before, addr + n, data[n..n + d]);
    BurnAppend(mem, addr, data[..n], data[n..n + d]);
    assert data[..n] + data[n..n + d] == data[..n + d];
  }

  lemma PageStep(g: Geometry, c: Chip, f: Frame)
    requires g.gran > 0 && c.wel && f.cmd == PAGE_PROGRAM
    ensures Step(g, c, f) == if c.aai.Some? then c else Chip(PageProgram(c.mem, Decode(f.address), f.data), false, None)
  {}

  lemma AaiStep(g: Geometry, c: Chip, f: Frame)
    requires g.gran > 0 && c.wel && f.cmd == AAI_WORD_PROGRAM && |f.data| == 2
    requires if c.aai.Some? then f.address == [] else f.address != [] && Decode(f.address) % 2 == 0
    ensures Step(g, c, f) == AaiWord(c, if c.aai.Some? then c.aai.value else Decode(f.address), f.data)
  {}

  class Driver {
    const g: Geometry
    var chip: Chip
    /** How the coming transfers and waits end; true from then on. */
    var outcomes: seq<bool>
    /** The status bits that are not the latch. */
    const others: byte
    /** The page programs sent: address and length. */
    ghost var programs: seq<(nat, nat)>

    constructor (g: Geometry, chip: Chip, outcomes: seq<bool>, others: byte)
      ensures this.g == g && this.chip == chip && this.outcomes == outcomes && this.others == others && programs == []
    {
      this.g, this.chip, this.outcomes, this.others, this.programs := g, chip, outcomes, others, [];
    }

    /** No page program crosses a 256-byte page. */
    ghost predicate InPages()
      reads this
    {
      forall i | 0 <= i < |programs| :: programs[i].0 % 256 + programs[i].1 <= 256
    }

    method Outcome() returns (ok: bool)
      modifies this`outcomes
      ensures ok == Ends(old(outcomes), 0) && outcomes == Rest(old(outcomes))
      ensures AllEnd(old(outcomes)) ==> ok && AllEnd(outcomes)
    {
      AllEndRest(outcomes);
      ok := outcomes == [] || outcomes[0];
      if outcomes != [] {
        outcomes := outcomes[1..];
      }
    }

    /** spi->wr: a failed transfer has no effect on the chip. */
    method Transfer(f: Frame) returns (ok: bool)
      requires g.gran > 0
      modifies this`chip, this`outcomes
      ensures chip == if ok then Step(g, old(chip), f) else old(chip)
      ensures ok == Ends(old(outcomes), 0) && outcomes == Rest(old(outcomes))
      ensures AllEnd(old(outcomes)) ==> ok && AllEnd(outcomes)
    {
      ok := Outcome();
      if ok {
        chip := Step(g, chip, f);
      }
    }

    /** sfud_read_status. */
    method ReadStatus() returns (ok: bool, status: byte)
      modifies this`outcomes
      ensures ok == Ends(old(outcomes), 0) && status == Status(chip, others)
      ensures AllEnd(old(outcomes)) ==> ok && AllEnd(outcomes)
    {
      ok := Outcome();
      status := Status(chip, others);
    }

    /** set_write_enabled: enabling succeeds only with the latch set, disabling whenever both transfers go through, and
        then the latch stays set exactly if it was and the chip ignored the command. */
    method SetWriteEnabled(enabled: bool) returns (ok: bool)
      requires g.gran > 0
      modifies this`chip, this`outcomes
      ensures chip.mem == old(chip).mem
      ensures ok && enabled ==> chip == old(chip).(wel := true)
      ensures ok == (Ends(old(outcomes), 0) && Ends(old(outcomes), 1))
      ensures AllEnd(old(outcomes)) ==> ok && AllEnd(outcomes)
      ensures ok && !enabled ==> chip == if g.ignores then old(chip) else Chip(old(chip).mem, false, None)
      ensures ok && !enabled ==> (chip.wel <==> old(chip).wel && g.ignores)
      ensures enabled || g.ignores ==> chip.aai == old(chip).aai
      ensures old(chip).aai == None ==> chip.aai == None
    {
      hide BurnByte, PageProgram;
      ok := Transfer(Frame(if enabled then WRITE_ENABLE else WRITE_DISABLE, [], []));
      var status := 0;
      if ok {
        ok, status := ReadStatus();
      }
      if ok {
        NeverNotDisabled(status);
        if (enabled && NotEnabled(status)) || (!enabled && NotDisabled(status)) {
          ok := false;
        }
      }
    }

    /** page256_or_1_byte_write: on success everything is programmed, on failure a part from the start.  A chip stuck in
        AAI mode programs nothing, and success is reported all the same. */
    method PageWrite(addr: nat, data: seq<byte>, gran: nat) returns (ok: bool, ghost k: nat)
      requires Usable(g, chip.mem) && (chip.aai.Some? ==> g.ignores)
      requires InPages() && (gran == 1 || gran == 256) && addr + |data| < 0x1_0000_0000
      modifies this
      ensures Usable(g, chip.mem) && chip.aai == old(chip).aai
      ensures InPages() && k <= |data| && chip.mem == Burn(old(chip).mem, addr, data[..k])
      ensures ok ==> addr + |data| <= |chip.mem| && k == if chip.aai.None? then |data| else 0
      ensures addr + |data| > |chip.mem| ==> !ok && k == 0
      ensures AllEnd(old(outcomes)) ==> AllEnd(outcomes) && (addr + |data| <= |chip.mem| ==> ok)
    {
      hide BurnByte, PageProgram, Burn, AddressBytes, Ends, Rest, Step, Decode, AllEnd;
      k := 0;
      NothingBurnt(chip.mem, addr, data);
      if addr + |data| > |chip.mem| {
        return false, 0;
      }
      ok := true;
      var n := 0;
      while n < |data|
        invariant n <= |data| && ok && Usable(g, chip.mem) && InPages() && |chip.mem| == |old(chip).mem|
        invariant chip.aai == old(chip).aai && k == if chip.aai.None? then n else 0
        invariant chip.mem == Burn(old(chip).mem, addr, data[..k]) && (AllEnd(old(outcomes)) ==> AllEnd(outcomes))
      {
        ok := SetWriteEnabled(true);
        if !ok {
          break;
        }
        var d := ChunkSize(addr + n, |data| - n, gran);
        InOnePage(addr + n, d, gran);
        ghost var before := chip.mem;
        AddressBack(g, addr + n);
        PageStep(g, chip, Frame(PAGE_PROGRAM, AddressBytes(g, addr + n), data[n..n + d]));
        ok := Transfer(Frame(PAGE_PROGRAM, AddressBytes(g, addr + n), data[n..n + d]));
        if !ok {
          break;
        }
        programs := programs + [(addr + n, d)];
        if chip.aai.None? {
          NextPage(old(chip).mem, before, addr, data, n, d);
          k := n + d;
        }
        n := n + d;
        ok := Outcome();
        if !ok {
          break;
        }
      }
      var done := SetWriteEnabled(false);
    }

    /** The pairs of aai_write: the first carries the address, the others follow on. */
    method AaiPairs(addr: nat, data: seq<byte>) returns (ok: bool, n: nat)
      requires Ready(g, chip) && chip.wel && addr % 2 == 0 && addr + |data| <= |chip.mem|
      modifies this`chip, this`outcomes
      ensures Usable(g, chip.mem) && n <= |data| && chip.mem == Burn(old(chip).mem, addr, data[..n])
      ensures ok ==> n + 1 >= |data| && n % 2 == 0 && (chip.aai == None <==> n == 0)
      ensures AllEnd(old(outcomes)) ==> ok && AllEnd(outcomes)
    {
      hide BurnByte, PageProgram, Burn, AddressBytes, Decode, Ends, Rest, Step, AllEnd;
      NothingBurnt(chip.mem, addr, data);
      ok, n := true, 0;
      while n + 2 <= |data|
        invariant n <= |data| && n % 2 == 0 && ok && Usable(g, chip.mem) && chip.wel && |chip.mem| == |old(chip).mem|
        invariant chip.aai == if n == 0 then None else Some(addr + n)
        invariant chip.mem == Burn(old(chip).mem, addr, data[..n]) && (AllEnd(old(outcomes)) ==> AllEnd(outcomes))
        decreases |data| - n
      {
        AddressBack(g, addr + n);
        SomeAddress(g, addr + n);
        ghost var before := chip;
        AaiStep(g, chip, Frame(AAI_WORD_PROGRAM, if n == 0 then AddressBytes(g, addr + n) else [], data[n..n + 2]));
        ok := Transfer(Frame(AAI_WORD_PROGRAM, if n == 0 then AddressBytes(g, addr + n) else [], data[n..n + 2]));
        if !ok {
          return;
        }
        TwoBurnt(before.mem, addr + n, data[n..n + 2]);
        BurnAppend(old(chip).mem, addr, data[..n], data[n..n + 2]);
        assert data[..n] + data[n..n + 2] == data[..n + 2];
        n := n + 2;
        ok := Outcome();
        if !ok {
          return;
        }
      }
    }

    /** aai_write from an even address on: pairs, then an odd last byte on its own. */
    method AaiEven(addr: nat, data: seq<byte>) returns (ok: bool, ghost k: nat)
      requires Ready(g, chip) && InPages() && addr + |data| <= |chip.mem| && addr + |data| < 0x1_0000_0000 && addr % 2 == 0
      modifies this
      ensures Usable(g, chip.mem) && InPages() && k <= |data| && chip.mem == Burn(old(chip).mem, addr, data[..k])
      ensures ok ==> k == |data| - Dropped(g, addr, |data|) && (!g.ignores ==> chip.aai == None)
      ensures AllEnd(old(outcomes)) ==> ok && AllEnd(outcomes)
    {
      hide BurnByte, PageProgram, Burn, AddressBytes, Step, AllEnd, Ends, Rest, Decode;
      NothingBurnt(chip.mem, addr, data);
      k := 0;
      ok := SetWriteEnabled(true);
      if ok {
        var n;
        ok, n := AaiPairs(addr, data);
        k := n;
        if ok {
          ok := SetWriteEnabled(false);
        }
        if ok && n + 1 == |data| {
          ghost var j;
          ok, j := PageWrite(addr + n, data[n..], 1);
          BurnAppend(old(chip).mem, addr, data[..n], data[n..][..j]);
          assert data[..n] + data[n..][..j] == data[..n + j];
          k := n + j;
        }
      }
      if !ok {
        var done := SetWriteEnabled(false);
      }
    }

    /** aai_write: an odd first byte is programmed on its own.  Success means everything is programmed but for the odd last
        byte behind a pair on a chip that ignores WRITE_DISABLE. */
    method AaiWrite(addr: nat, data: seq<byte>) returns (ok: bool, ghost k: nat)
      requires Ready(g, chip) && InPages() && addr + |data| < 0x1_0000_0000 && (addr % 2 != 0 ==> |data| > 0)
      modifies this
      ensures Usable(g, chip.mem) && InPages() && k <= |data| && chip.mem == Burn(old(chip).mem, addr, data[..k])
      ensures ok ==> addr + |data| <= |chip.mem| && k == |data| - Dropped(g, addr, |data|) && (!g.ignores ==> chip.aai == None)
      ensures addr + |data| > |chip.mem| ==> !ok && k == 0
      ensures AllEnd(old(outcomes)) ==> AllEnd(outcomes) && (addr + |data| <= |chip.mem| ==> ok)
    {
      hide BurnByte, PageProgram, Burn, AddressBytes, Step, AllEnd, Ends, Rest, Decode;
      NothingBurnt(chip.mem, addr, data);
      if addr + |data| > |chip.mem| {
        return false, 0;
      }
      if addr % 2 == 0 {
        ok, k := AaiEven(addr, data);
        return;
      }
      ok, k := PageWrite(addr, data[..1], 1);
      assert data[..1][..k] == data[..k];
      if ok {
        ghost var j;
        ok, j := AaiEven(addr + 1, data[1..]);
        BurnAppend(old(chip).mem, addr, data[..1], data[1..][..j]);
        assert data[..1] + data[1..][..j] == data[..1 + j];
        k := 1 + j;
      } else {
        var done := SetWriteEnabled(false);
      }
    }

    /** One erase command for the sector of `a`; failing leaves the cells alone or erases it all the same. */
    method EraseOne(a: nat) returns (ok: bool, ghost hit: bool)
      requires Ready(g, chip) && a < |chip.mem|
      modifies this`chip, this`outcomes
      ensures Ready(g, chip) && (ok ==> hit)
      ensures chip.mem == if hit then EraseSector(g, old(chip).mem, a) else old(chip).mem
      ensures AllEnd(old(outcomes)) ==> ok && AllEnd(outcomes)
    {
      hide BurnByte, PageProgram, AddressBytes, EraseSector, AllEnd;
      hit := false;
      ok := SetWriteEnabled(true);
      if ok {
        AddressBack(g, a);
        ok := Transfer(Frame(g.eraseCmd, AddressBytes(g, a), []));
        if ok {
          hit := true;
          ok := Outcome();
        }
      }
    }

    /** sfud_chip_erase. */
    method ChipErase() returns (ok: bool, ghost hit: bool)
      requires Ready(g, chip)
      modifies this`chip, this`outcomes
      ensures Ready(g, chip) && (ok ==> hit)
      ensures chip.mem == if hit then Blank(|old(chip).mem|) else old(chip).mem
      ensures AllEnd(old(outcomes)) ==> ok && AllEnd(outcomes)
    {
      hide BurnByte, PageProgram, EraseSector, AllEnd;
      hit := false;
      ok := SetWriteEnabled(true);
      if ok {
        ok := Transfer(Frame(ERASE_CHIP, [], []));
        if ok {
          hit := true;
          ok := Outcome();
        }
      }
      var done := SetWriteEnabled(false);
    }

    /** sfud_erase: exactly the sectors that meet the range are erased. */
    method Erase(addr: nat, size: nat) returns (ok: bool, ghost e: nat)
      requires Ready(g, chip) && addr + size < 0x1_0000_0000
      modifies this`chip, this`outcomes
      ensures Ready(g, chip) && |chip.mem| == |old(chip).mem|
      ensures ok ==> addr + size <= |chip.mem| && chip.mem == ErasedOver(g, old(chip).mem, addr, size)
      ensures !ok ==> chip.mem == old(chip).mem || (&& AlignDown(addr, g.gran) <= e <= |chip.mem| && e <= AlignUp(addr + size, g.gran)
                                                    && chip.mem == Erased(old(chip).mem, AlignDown(addr, g.gran), e))
      ensures AllEnd(old(outcomes)) ==> AllEnd(outcomes) && (addr + size <= |chip.mem| ==> ok)
    {
      hide BurnByte, PageProgram, AddressBytes, EraseSector, AlignDown, AlignUp, Erased, ErasedOver, AllEnd;
      e := 0;
      if addr + size > |chip.mem| {
        return false, 0;
      }
      if addr == 0 && size == |chip.mem| {
        WholeChip(g, chip.mem);
        ghost var hit;
        ok, hit := ChipErase();
        e := size;
        return;
      }
      ok := true;
      var a, n := addr, size;
      ghost var mem0, lo := chip.mem, AlignDown(addr, g.gran);
      e := lo;
      EraseStart(g, mem0, addr, size);
      while n > 0
        invariant n >= 0 && ok && Ready(g, chip) && |chip.mem| == |mem0| && lo <= e <= |mem0|
        invariant n > 0 ==> && a + n == addr + size && e == AlignDown(a, g.gran) <= a
                            && chip.mem == Erased(mem0, lo, e) && (a == addr || a == e)
        invariant n == 0 ==> chip.mem == ErasedOver(g, mem0, addr, size)
        invariant AllEnd(old(outcomes)) ==> AllEnd(outcomes)
        decreases n
      {
        ghost var hit;
        EraseNext(g, mem0, addr, size, a);
        ok, hit := EraseOne(a);
        if hit {
          e := e + g.gran;
        }
        if !ok {
          break;
        }
        if n > g.gran - a % g.gran {
          n, a := n - (g.gran - a % g.gran), a + (g.gran - a % g.gran);
        } else {
          n := 0;
        }
      }
      var done := SetWriteEnabled(false);
    }

    /** sfud_write; dual-buffer chips are accepted and nothing is written. */
    method Write(addr: nat, data: seq<byte>) returns (ok: bool)
      requires Ready(g, chip) && InPages() && addr + |data| < 0x1_0000_0000 && |data| > 0
      modifies this
      ensures InPages() && |chip.mem| == |old(chip).mem|
      ensures ok && !g.mode.DualBuffer? ==> && addr + |data| <= |chip.mem| && ((g.mode.Aai? && g.ignores) || Ready(g, chip))
                                            && chip.mem == Burn(old(chip).mem, addr, data[..|data| - Missed(g, addr, |data|)])
      ensures g.mode.DualBuffer? ==> ok && chip == old(chip)
      ensures AllEnd(old(outcomes)) && addr + |data| <= |chip.mem| ==> ok
    {
      hide BurnByte, PageProgram, Burn;
      assert data[..|data|] == data;
      ghost var k;
      match g.mode
      case Page256 => ok, k := PageWrite(addr, data, 256);
      case Aai => ok, k := AaiWrite(addr, data);
      case DualBuffer => ok := true;
    }

    /** sfud_erase_write: on success the range holds the data, and the rest of the sectors it meets is erased. */
    method EraseWrite(addr: nat, data: seq<byte>) returns (ok: bool)
      requires Ready(g, chip) && InPages() && addr + |data| < 0x1_0000_0000 && |data| > 0
      requires !g.mode.DualBuffer?
      modifies this
      ensures InPages() && |chip.mem| == |old(chip).mem|
      ensures ok ==> && addr + |data| <= |chip.mem| && ((g.mode.Aai? && g.ignores) || Ready(g, chip))
                     && chip.mem == Replaced(ErasedOver(g, old(chip).mem, addr, |data|), addr, data[..|data| - Missed(g, addr, |data|)])
      ensures AllEnd(old(outcomes)) && addr + |data| <= |chip.mem| ==> ok
    {
      hide BurnByte, PageProgram, Burn, ErasedOver, Replaced, AlignDown, AlignUp, Erased;
      ghost var e;
      ok, e := Erase(addr, |data|);
      if ok {
        ErasedInside(g, old(chip).mem, addr, |data|);
        BurnErased(chip.mem, addr, data[..|data| - Missed(g, addr, |data|)]);
        ok := Write(addr, data);
      }
    }

    /** sfud_read. */
    method Read(addr: nat, size: nat) returns (ok: bool, data: seq<byte>)
      requires addr + size < 0x1_0000_0000
      modifies this`outcomes
      ensures ok ==> addr + size <= |chip.mem| && data == chip.mem[addr..addr + size]
      ensures addr + size > |chip.mem| ==> !ok
      ensures AllEnd(old(outcomes)) && addr + size <= |chip.mem| ==> ok
    {
      data := [];
      if addr + size > |chip.mem| {
        return false, [];
      }
      ok := Outcome();
      if ok {
        ok := Outcome();
      }
      if ok {
        data := chip.mem[addr..addr + size];
      }
    }
  }

  /** The sector of `a` extends what is erased; if the range ends in it, that is all of it. */
  lemma EraseNext(g: Geometry, mem: seq<byte>, addr: nat, size: nat, a: nat)
    requires Usable(g, mem) && addr + size <= |mem| && addr <= a < addr + size
    requires AlignDown(addr, g.gran) <= AlignDown(a, g.gran)
    ensures var lo, e := AlignDown(addr, g.gran), AlignDown(a, g.gran);
            && a % g.gran == a - e < g.gran && e + g.gran <= |mem| && e + g.gran <= AlignUp(addr + size, g.gran)
            && AlignDown(e + g.gran, g.gran) == e + g.gran
            && EraseSector(g, Erased(mem, lo, e), a) == Erased(mem, lo, e + g.gran)
            && (addr + size <= e + g.gran ==> ErasedOver(g, mem, addr, size) == Erased(mem, lo, e + g.gran))
  {
    var lo, e := AlignDown(addr, g.gran), AlignDown(a, g.gran);
    SectorFits(g, |mem|, a, addr + size);
    ErasedTwice(mem, lo, e, e + g.gran);
  }

  lemma SectorFits(g: Geometry, n: nat, a: nat, end: nat)
    requires g.gran > 0 && n % g.gran == 0 && a < end <= n
    ensures var e := AlignDown(a, g.gran);
            && e <= a < e + g.gran <= n && e + g.gran <= AlignUp(end, g.gran) && AlignDown(e + g.gran, g.gran) == e + g.gran
            && (end <= e + g.gran ==> AlignUp(end, g.gran) == e + g.gran)
  {
    hide AlignDown, AlignUp;
    var e := AlignDown(a, g.gran);
    AlignDownBounds(a, g.gran);
    NextMultiple(e, g.gran);
    AlignUpBounds(end, g.gran);
    MultipleAbove(e, AlignUp(end, g.gran), g.gran);
    AlignUpFits(end, n, g.gran);
    if end <= e + g.gran {
      AlignUpFits(end, e + g.gran, g.gran);
    }
  }

  lemma NextMultiple(e: nat, n: nat)
    requires n > 0 && e % n == 0
    ensures (e + n) % n == 0 && AlignDown(e + n, n) == e + n
  {
    var q := e / n;
    assert e == n * q;
    assert n * (q + 1) == n * q + n;
    DivModUnique(e + n, n, q + 1, 0);
  }

  lemma MultipleAbove(e: nat, m: nat, n: nat)
    requires n > 0 && e % n == 0 && m % n == 0 && e < m
    ensures e + n <= m
  {
    var p, q := e / n, m / n;
    assert e == n * p && m == n * q;
    if q <= p {
      MulMonotone(n, q, p);
    } else {
      MulMonotone(n, p + 1, q);
    }
  }

  lemma ErasedTwice(mem: seq<byte>, lo: nat, e: nat, hi: nat)
    requires lo <= e <= hi <= |mem|
    ensures Erased(Erased(mem, lo, e), e, hi) == Erased(mem, lo, hi)
  {}

  lemma SomeAddress(g: Geometry, addr: nat)
    ensures AddressBytes(g, addr) != []
  {}

  lemma TwoBurnt(mem: seq<byte>, a: nat, data: seq<byte>)
    requires |data| == 2
    ensures Burn(mem, a, data) == BurnByte(BurnByte(mem, a, data[0]), a + 1, data[1])
  {
    hide BurnByte;
    assert data[..1][..0] == [] && data[..1][0] == data[0];
    assert Burn(mem, a, data[..1]) == BurnByte(mem, a, data[0]);
  }

  lemma NothingBurnt(mem: seq<byte>, a: nat, data: seq<byte>)
    ensures Burn(mem, a, data[..0]) == mem
  {}

  // ---------- When erase and write is replacement ----------

  lemma ErasedInside(g: Geometry, mem: seq<byte>, addr: nat, size: nat)
    requires Usable(g, mem) && addr + size <= |mem| && size > 0
    ensures forall i | addr <= i < addr + size :: ErasedOver(g, mem, addr, size)[i] == ERASED
  {}

  predicate Aligned(g: Geometry, addr: nat, size: nat)
    requires g.gran > 0
  {
    addr % g.gran == 0 && (addr + size) % g.gran == 0
  }

  /** For a range of whole sectors, erase and write replaces exactly the range. */
  lemma AlignedReplaces(g: Geometry, mem: seq<byte>, addr: nat, data: seq<byte>)
    requires Usable(g, mem) && addr + |data| <= |mem| && |data| > 0 && Aligned(g, addr, |data|)
    ensures Replaced(ErasedOver(g, mem, addr, |data|), addr, data) == Replaced(mem, addr, data)
  {
    hide AlignDown, AlignUp;
    AlignDownBounds(addr, g.gran);
    AlignUpBounds(addr + |data|, g.gran);
    AlignUpFits(addr + |data|, addr + |data|, g.gran);
    AlignDownSelf(addr, g.gran);
  }

  lemma AlignDownSelf(a: nat, n: nat)
    requires n > 0 && a % n == 0
    ensures AlignDown(a, n) == a
  {}

  /** Any other range loses a byte beside it, if the chip holds anything there. */
  lemma UnalignedLoses(g: Geometry, mem: seq<byte>, addr: nat, data: seq<byte>)
    requires Usable(g, mem) && addr + |data| <= |mem| && |data| > 0 && !Aligned(g, addr, |data|)
    requires forall i | 0 <= i < |mem| :: mem[i] != ERASED
    ensures Replaced(ErasedOver(g, mem, addr, |data|), addr, data) != Replaced(mem, addr, data)
  {
    hide AlignDown, AlignUp;
    var lo, hi := AlignDown(addr, g.gran), AlignUp(addr + |data|, g.gran);
    AlignDownBounds(addr, g.gran);
    AlignUpBounds(addr + |data|, g.gran);
    AlignUpFits(addr + |data|, |mem|, g.gran);
    var r, t := Replaced(ErasedOver(g, mem, addr, |data|), addr, data), Replaced(mem, addr, data);
    if addr % g.gran != 0 {
      assert r[lo] == ERASED && t[lo] == mem[lo];
    } else {
      assert r[hi - 1] == ERASED && t[hi - 1] == mem[hi - 1];
    }
  }

  /** Erase and write is replacement, whatever the chip held, exactly for ranges of whole sectors. */
  lemma ReplacementIff(g: Geometry, n: nat, addr: nat, data: seq<byte>)
    requires Usable(g, Zeros(n)) && addr + |data| <= n && |data| > 0
    ensures Aligned(g, addr, |data|) <==>
            forall mem: seq<byte> | |mem| == n :: Replaced(ErasedOver(g, mem, addr, |data|), addr, data) == Replaced(mem, addr, data)
  {
    hide ErasedOver, Replaced;
    if Aligned(g, addr, |data|) {
      forall mem: seq<byte> | |mem| == n
        ensures Replaced(ErasedOver(g, mem, addr, |data|), addr, data) == Replaced(mem, addr, data)
      {
        AlignedReplaces(g, mem, addr, data);
      }
    } else {
      UnalignedLoses(g, Zeros(n), addr, data);
    }
  }
}
