/** 32-bit words as integers in two's complement. */
module Signed {
  import opened Arith
  import opened Bits

  /** 2^32. */
  const WORDS: nat := 0x1_0000_0000

  // ---------- Words and their bits ----------

  function Half(x: bv32): bv32 { x >> 1 }

  predicate Odd(x: bv32) { x & 1 == 1 }

  /** One more bit at the low end. */
  function Snoc(x: bv32, bit: bool): bv32 { (x << 1) | (if bit then 1 else 0) }

  predicate Negative(x: bv32) { x & 0x8000_0000 != 0 }

  /** The word without its `k` lowest bits. */
  function Shifted(x: bv32, k: nat): bv32 {
    if k == 0 then x else Shifted(Half(x), k - 1)
  }

  /** Bit `k` of a word. */
  predicate Bit(x: bv32, k: nat) { Odd(Shifted(x, k)) }

  /** The unsigned number of a word. */
  function Number(x: bv32): nat
    decreases x
  {
    if x == 0 then 0 else Halves(x); 2 * Number(Half(x)) + if Odd(x) then 1 else 0
  }

  /** The word of a number, modulo 2^32. */
  function Word(n: nat): bv32 {
    if n == 0 then 0 else Snoc(Word(n / 2), n % 2 == 1)
  }

  lemma Halves(x: bv32)
    ensures x != 0 ==> Half(x) < x
  {}

  lemma SnocParts(x: bv32, bit: bool)
    requires !Negative(x)
    ensures Half(Snoc(x, bit)) == x && Odd(Snoc(x, bit)) == bit
  {}

  lemma SnocHalf(x: bv32)
    ensures Snoc(Half(x), Odd(x)) == x
  {}

  lemma Zero()
    ensures Half(0) == 0 && !Odd(0) && Number(0) == 0 && Word(0) == 0 && Snoc(0, false) == 0
  {}

  lemma NumberOf(x: bv32)
    ensures Number(x) == 2 * Number(Half(x)) + if Odd(x) then 1 else 0
  {
    hide Half, Odd;
    Zero();
  }

  // ---------- The size of a word ----------

  lemma {:induction false} ShiftedTwice(x: bv32, j: nat, k: nat)
    ensures Shifted(x, j + k) == Shifted(Shifted(x, j), k)
    decreases j
  {
    hide Half;
    if j > 0 {
      ShiftedTwice(Half(x), j - 1, k);
    }
  }

  /** Dropping bits is dividing. */
  lemma {:induction false} NumberShifted(x: bv32, k: nat)
    ensures Number(Shifted(x, k)) == Number(x) / Pow2(k)
    decreases k
  {
    hide Half, Odd, Number;
    if k > 0 {
      NumberOf(x);
      NumberShifted(Half(x), k - 1);
      DivTwice(Number(x), 2, Pow2(k - 1));
    }
  }

  lemma DivTwice(n: int, a: nat, b: nat)
    requires a > 0 && b > 0
    ensures a * b > 0 && n / (a * b) == n / a / b
  {
    var q := n / a;
    var r, s := n - a * q, q - b * (q / b);
    assert 0 <= r < a && 0 <= s < b;
    assert a * b > 0 && n == a * b * (q / b) + (a * s + r) by {
      assert n == a * q + r && q == b * (q / b) + s;
      Regroup(a, b, q / b, s);
    }
    assert 0 <= a * s + r < a * b by { MulMonotone(a, s + 1, b); MulMonotone(a, 0, s); }
    DivModUnique(n, a * b, q / b, a * s + r);
  }

  lemma Regroup(a: int, b: int, c: int, s: int)
    ensures a * (b * c + s) == a * b * c + a * s
  {}

  function Byte(x: bv32): bv32 { x >> 8 }

  lemma EightHalves(x: bv32)
    ensures Shifted(x, 8) == Byte(x)
  {
    hide Half;
    Eight(x);
    TwoBits(x, 6);
    TwoBits(Half(Half(x)), 4);
    TwoBits(Half(Half(Half(Half(x)))), 2);
    TwoBits(Half(Half(Half(Half(Half(Half(x)))))), 0);
  }

  lemma TwoBits(x: bv32, k: nat)
    ensures Shifted(x, k + 2) == Shifted(Half(Half(x)), k) && Shifted(x, 0) == x && Shifted(x, 1) == Half(x)
    ensures Shifted(Half(Half(x)), 0) == Half(Half(x)) && Shifted(Half(Half(x)), 1) == Half(Half(Half(x)))
  {
    hide Half;
  }

  lemma Eight(x: bv32)
    ensures Half(Half(Half(Half(Half(Half(Half(Half(x)))))))) == Byte(x)
  {}

  lemma TopByte(x: bv32)
    ensures Half(Half(Half(Half(Half(Half(Half(Byte(Byte(Byte(x))))))))))  == if Negative(x) then 1 else 0
  {}

  /** All but the top bit dropped. */
  lemma TopBit(x: bv32)
    ensures Shifted(x, 31) == if Negative(x) then 1 else 0
  {
    hide Half, Byte, Negative;
    var a := Byte(x);
    var b := Byte(a);
    var c := Byte(b);
    EightHalves(x);
    EightHalves(a);
    EightHalves(b);
    ShiftedTwice(x, 8, 23);
    ShiftedTwice(a, 8, 15);
    ShiftedTwice(b, 8, 7);
    TopByte(x);
    TwoBits(c, 5);
    TwoBits(Half(Half(c)), 3);
    TwoBits(Half(Half(Half(Half(c)))), 1);
  }

  lemma Pow2Words()
    ensures Pow2(31) == 0x8000_0000 && Pow2(32) == WORDS
  {
    assert Pow2(8) == 256;
    assert Pow2(16) == 65536;
    assert Pow2(24) == 16777216;
  }

  /** A word is below 2^32, and from 2^31 on exactly if its top bit is set. */
  lemma NumberBound(x: bv32)
    ensures Number(x) < WORDS && (Negative(x) <==> Number(x) >= 0x8000_0000)
  {
    hide Number, Negative, Shifted;
    TopBit(x);
    NumberShifted(x, 31);
    Pow2Words();
    SmallNumbers();
  }

  lemma SmallNumbers()
    ensures Number(0) == 0 && Number(1) == 1
  {}

  // ---------- Back and forth ----------

  lemma {:induction false} NumberWord(n: nat)
    requires n < WORDS
    ensures Number(Word(n)) == n
  {
    hide Number, Snoc, Half, Odd, Negative;
    if n == 0 {
      Zero();
    } else {
      var w := Word(n / 2);
      NumberWord(n / 2);
      NumberBound(w);
      SnocParts(w, n % 2 == 1);
      NumberOf(Snoc(w, n % 2 == 1));
    }
  }

  lemma {:induction false} WordNumber(x: bv32)
    ensures Word(Number(x)) == x
    decreases x
  {
    hide Number, Snoc, Half, Odd;
    Zero();
    if x != 0 {
      Halves(x);
      NumberOf(x);
      WordNumber(Half(x));
      SnocHalf(x);
    }
  }

  /** Two's complement. */
  function Int(x: bv32): int {
    if Negative(x) then Number(x) - WORDS else Number(x)
  }

  /** The word of an integer: its lowest 32 bits. */
  function FromInt(i: int): bv32 { Word(i % WORDS) }

  /** `i` wrapped into the integers of 32 bits. */
  function Wrap(i: int): int {
    if i % WORDS >= 0x8000_0000 then i % WORDS - WORDS else i % WORDS
  }

  lemma IntRange(x: bv32)
    ensures -0x8000_0000 <= Int(x) < 0x8000_0000 && (Negative(x) <==> Int(x) < 0)
  {
    hide Number, Negative;
    NumberBound(x);
  }

  lemma IntOfWord(i: int)
    ensures Int(FromInt(i)) == Wrap(i)
    ensures -0x8000_0000 <= i < 0x8000_0000 ==> Int(FromInt(i)) == i
  {
    hide Number, Negative, Word;
    NumberWord(i % WORDS);
    NumberBound(FromInt(i));
  }

  /** No two words are the same integer. */
  lemma WordOfInt(x: bv32)
    ensures FromInt(Int(x)) == x
  {
    hide Number, Negative, Word;
    NumberBound(x);
    WordNumber(x);
  }

  /** Wrapping changes an integer by a multiple of 2^32. */
  lemma WrapIs(i: int)
    ensures -0x8000_0000 <= Wrap(i) < 0x8000_0000 && (Wrap(i) - i) % WORDS == 0
  {}

  // ---------- Bit by bit ----------

  function Both(x: bv32, y: bv32): bv32 { x & y }

  function Either(x: bv32, y: bv32): bv32 { x | y }

  function Differ(x: bv32, y: bv32): bv32 { x ^ y }

  function Not(x: bv32): bv32 { !x }

  lemma HalfBoth(x: bv32, y: bv32)
    ensures Half(Both(x, y)) == Both(Half(x), Half(y))
  {}

  lemma HalfEither(x: bv32, y: bv32)
    ensures Half(Either(x, y)) == Either(Half(x), Half(y))
  {}

  lemma HalfDiffer(x: bv32, y: bv32)
    ensures Half(Differ(x, y)) == Differ(Half(x), Half(y))
  {}

  lemma OddOps(x: bv32, y: bv32)
    ensures Odd(Both(x, y)) == (Odd(x) && Odd(y)) && Odd(Either(x, y)) == (Odd(x) || Odd(y))
    ensures Odd(Differ(x, y)) == (Odd(x) != Odd(y)) && Odd(Not(x)) == !Odd(x)
  {}

  lemma {:induction false} BitOps(x: bv32, y: bv32, k: nat)
    ensures Bit(Both(x, y), k) == (Bit(x, k) && Bit(y, k)) && Bit(Either(x, y), k) == (Bit(x, k) || Bit(y, k))
    ensures Bit(Differ(x, y), k) == (Bit(x, k) != Bit(y, k))
    decreases k
  {
    hide Half, Odd, Both, Either, Differ, Not;
    OddOps(x, y);
    HalfBoth(x, y);
    HalfEither(x, y);
    HalfDiffer(x, y);
    if k > 0 {
      BitOps(Half(x), Half(y), k - 1);
    }
  }

  lemma NotIsDiffer(x: bv32)
    ensures Not(x) == Differ(x, 0xffff_ffff)
  {}

  lemma {:induction false} BitNot(x: bv32, k: nat)
    requires k < 32
    ensures Bit(Not(x), k) == !Bit(x, k)
  {
    hide Shifted, Odd, Differ, Not;
    NotIsDiffer(x);
    BitOps(x, 0xffff_ffff, k);
    BitOfOnes(k);
  }

  /** Bit `k` of a word is binary digit `k` of its number. */
  lemma BitIsDigit(x: bv32, k: nat)
    ensures Bit(x, k) <==> Number(x) / Pow2(k) % 2 == 1
  {
    hide Shifted, Odd, Number, Half;
    NumberShifted(x, k);
    NumberOf(Shifted(x, k));
  }

  lemma BitOfOnes(k: nat)
    requires k < 32
    ensures Bit(0xffff_ffff, k)
  {
    hide Number, Bit;
    LastNumber();
    BitIsDigit(0xffff_ffff, k);
    DigitOfOnes(k, 32);
    Pow2Words();
  }

  lemma {:induction false} DigitOfOnes(k: nat, n: nat)
    requires k < n
    ensures (Pow2(n) - 1) / Pow2(k) % 2 == 1
    decreases k
  {
    if k > 0 {
      DigitOfOnes(k - 1, n - 1);
      DivTwice(Pow2(n) - 1, 2, Pow2(k - 1));
    }
  }

  lemma LastNumber()
    ensures Number(0xffff_ffff) == WORDS - 1
  {
    hide Number, Word;
    NumberWord(WORDS - 1);
    LastWord();
  }

  lemma LastWord()
    ensures Word(0xffff_ffff) == 0xffff_ffff
  {
    assert Word(0xf) == 0xf;
    assert Word(0xff) == 0xff;
    assert Word(0xfff) == 0xfff;
    assert Word(0xffff) == 0xffff;
    assert Word(0xf_ffff) == 0xf_ffff;
    assert Word(0xff_ffff) == 0xff_ffff;
    assert Word(0xfff_ffff) == 0xfff_ffff;
  }
}
