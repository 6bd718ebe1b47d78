/**
 Multiplying a 32-bit word by 0x01010101.
 */
module WordProducts {

  function Spread(x: bv32): bv32 {
    x * 0x0101_0101
  }

  function Shift16(x: bv32): bv32 {
    x + (x << 16)
  }

  function TwoShifts(x: bv32): bv32 {
    (x + (x << 8)) + ((x + (x << 8)) << 16)
  }

  lemma SpreadIsShifts(x: bv32)
    ensures Spread(x) == TwoShifts(x)
  {
  }

  lemma ShiftOfShift(x: bv32)
    ensures TwoShifts(x) == Shift16(x + (x << 8))
  {
  }
}

/**
 Counting set bits: 28 bytes at a time by adding up neighbouring bits, then
 pairs, then nibbles in all bytes of a word at once.
 */
module BitCount {
  import opened Basics
  import opened BitStrings
  import opened WordProducts

  // ----- one byte -----

  function Ones(b: Byte): nat {
    One(BitIn(b, 0)) + One(BitIn(b, 1)) + One(BitIn(b, 2)) + One(BitIn(b, 3)) +
    One(BitIn(b, 4)) + One(BitIn(b, 5)) + One(BitIn(b, 6)) + One(BitIn(b, 7))
  }

  function Count(s: Bytes): nat {
    if s == [] then 0 else Count(s[..|s| - 1]) + Ones(s[|s| - 1])
  }

  lemma {:induction false} PopulationPrefix(s: Bytes, t: Bytes, n: nat)
    requires s <= t && n <= 8 * |s|
    ensures Population(s, n) == Population(t, n)
  {
    hide BitIn;
    if n > 0 {
      PopulationPrefix(s, t, n - 1);
    }
  }

  lemma BitOfByte(s: Bytes, m: nat, i: nat)
    requires i < 8
    ensures BitAt(s, 8 * m + i) == BitIn(Pad(s, m), i)
  {
  }

  lemma OneMore(s: Bytes, m: nat, i: nat)
    requires i < 8
    ensures Population(s, 8 * m + i + 1) == Population(s, 8 * m + i) + One(BitIn(Pad(s, m), i))
  {
    hide BitIn, One;
    BitOfByte(s, m, i);
  }

  lemma EightMore(s: Bytes, m: nat)
    ensures Population(s, 8 * m + 8) == Population(s, 8 * m) + Ones(Pad(s, m))
  {
    hide BitIn, One, Population, Pad;
    OneMore(s, m, 0);
    OneMore(s, m, 1);
    OneMore(s, m, 2);
    OneMore(s, m, 3);
    OneMore(s, m, 4);
    OneMore(s, m, 5);
    OneMore(s, m, 6);
    OneMore(s, m, 7);
  }

  /** Counting byte by byte is counting bit by bit. */
  lemma {:induction false} CountIsPopulation(s: Bytes)
    ensures Count(s) == Population(s, 8 * |s|)
  {
    hide Ones, BitAt;
    if s != [] {
      var n := |s| - 1;
      CountIsPopulation(s[..n]);
      PopulationPrefix(s[..n], s, 8 * n);
      EightMore(s, n);
    }
  }

  lemma {:induction false} CountConcat(s: Bytes, t: Bytes)
    ensures Count(s + t) == Count(s) + Count(t)
  {
    hide Ones;
    if t == [] {
      assert s + t == s;
    } else {
      var n := |t| - 1;
      assert (s + t)[..|s + t| - 1] == s + t[..n];
      CountConcat(s, t[..n]);
    }
  }

  /** The count of a byte as a byte. */
  function Ones8(b: Byte): Byte {
    (b & 1) + ((b >> 1) & 1) + ((b >> 2) & 1) + ((b >> 3) & 1) + ((b >> 4) & 1) + ((b >> 5) & 1) + ((b >> 6) & 1) + ((b >> 7) & 1)
  }

  function Plus(a: Byte, b: Byte): Byte {
    a + b
  }

  /** n as a byte, modulo 256. */
  function AsByte(n: nat): Byte {
    if n == 0 then 0 else Plus(AsByte(n - 1), 1)
  }

  lemma PlusIsAssociative(a: Byte, b: Byte, c: Byte)
    ensures Plus(a, Plus(b, c)) == Plus(Plus(a, b), c) && Plus(a, 0) == a
  {
  }

  lemma {:induction false} AsByteAdds(m: nat, n: nat)
    ensures AsByte(m + n) == Plus(AsByte(m), AsByte(n))
  {
    PlusIsAssociative(AsByte(m), if n > 0 then AsByte(n - 1) else 0, 1);
    hide Plus;
    if n > 0 {
      AsByteAdds(m, n - 1);
    }
  }

  lemma AddOne(a: Byte)
    requires a as nat < 255
    ensures Plus(a, 1) as nat == a as nat + 1
  {
  }

  lemma AtMost(a: Byte)
    ensures a as nat <= 8 ==> a <= 8
    ensures a as nat <= 48 ==> a <= 48
    ensures a as nat <= 56 ==> a <= 56
  {
  }

  lemma {:induction false} AsByteIsExact(n: nat)
    requires n < 256
    ensures AsByte(n) as nat == n
  {
    hide Plus;
    if n > 0 {
      AsByteIsExact(n - 1);
      AddOne(AsByte(n - 1));
    }
  }

  lemma AsByteBound(n: nat)
    ensures n <= 8 ==> AsByte(n) <= 8
    ensures n <= 48 ==> AsByte(n) <= 48
    ensures n <= 56 ==> AsByte(n) <= 56
  {
    hide AsByte;
    if n <= 56 {
      AsByteIsExact(n);
      AtMost(AsByte(n));
    }
  }

  function BitByte(v: bool): Byte {
    if v then 1 else 0
  }

  lemma AddBit(n: nat, v: bool)
    ensures AsByte(n + One(v)) == Plus(AsByte(n), BitByte(v))
  {
    PlusIsAssociative(AsByte(n), 0, 0);
  }

  lemma BitsOfOnes8(b: Byte)
    ensures Ones8(b) == Plus(Plus(Plus(Plus(Plus(Plus(Plus(Plus(0, BitByte(BitIn(b, 0))), BitByte(BitIn(b, 1))), BitByte(BitIn(b, 2))),
              BitByte(BitIn(b, 3))), BitByte(BitIn(b, 4))), BitByte(BitIn(b, 5))), BitByte(BitIn(b, 6))), BitByte(BitIn(b, 7)))
  {
  }

  function Ones4(b: Byte): nat {
    One(BitIn(b, 0)) + One(BitIn(b, 1)) + One(BitIn(b, 2)) + One(BitIn(b, 3))
  }

  lemma FirstOnes(b: Byte)
    ensures AsByte(Ones4(b))
         == Plus(Plus(Plus(Plus(0, BitByte(BitIn(b, 0))), BitByte(BitIn(b, 1))), BitByte(BitIn(b, 2))), BitByte(BitIn(b, 3)))
  {
    assert AsByte(0) == 0;
    var n1 := One(BitIn(b, 0));
    var n2 := n1 + One(BitIn(b, 1));
    var n3 := n2 + One(BitIn(b, 2));
    hide BitIn, Plus, AsByte, BitByte, One;
    AddBit(0, BitIn(b, 0));
    AddBit(n1, BitIn(b, 1));
    AddBit(n2, BitIn(b, 2));
    AddBit(n3, BitIn(b, 3));
  }

  lemma Ones8IsOnes(b: Byte)
    ensures Ones8(b) == AsByte(Ones(b)) && Ones(b) <= 8
  {
    hide BitIn, Plus, AsByte, BitByte, Ones8;
    BitsOfOnes8(b);
    FirstOnes(b);
    SplitOnes(b);
    hide Ones, Ones4, One;
    var n4 := Ones4(b);
    var n5 := n4 + One(BitIn(b, 4));
    var n6 := n5 + One(BitIn(b, 5));
    var n7 := n6 + One(BitIn(b, 6));
    AddBit(n4, BitIn(b, 4));
    AddBit(n5, BitIn(b, 5));
    AddBit(n6, BitIn(b, 6));
    AddBit(n7, BitIn(b, 7));
  }

  lemma SplitOnes(b: Byte)
    ensures Ones(b) == Ones4(b) + One(BitIn(b, 4)) + One(BitIn(b, 5)) + One(BitIn(b, 6)) + One(BitIn(b, 7)) <= 8
  {
    hide BitIn;
  }

  // ----- four bytes at once -----

  /** Four bytes as one word. */
  function FourBytes(b0: Byte, b1: Byte, b2: Byte, b3: Byte): bv32 {
    (b0 as bv32) | ((b1 as bv32) << 8) | ((b2 as bv32) << 16) | ((b3 as bv32) << 24)
  }

  function Pairs(x: bv32): bv32 {
    x - ((x >> 1) & 0x5555_5555)
  }

  function Nibbles(x: bv32): bv32 {
    (x & 0x3333_3333) + ((x >> 2) & 0x3333_3333)
  }

  function Lanes(x: bv32): bv32 {
    (x + (x >> 4)) & 0x0F0F_0F0F
  }

  function Pairs8(x: Byte): Byte {
    x - ((x >> 1) & 0x55)
  }

  function Nibbles8(x: Byte): Byte {
    (x & 0x33) + ((x >> 2) & 0x33)
  }

  function Lanes8(x: Byte): Byte {
    (x + (x >> 4)) & 0x0F
  }

  lemma PairsAreSums(x: bv32, b: Byte)
    ensures Pairs(x) == (x & 0x5555_5555) + ((x >> 1) & 0x5555_5555)
    ensures Pairs8(b) == (b & 0x55) + ((b >> 1) & 0x55)
  {
  }

  /** No borrow, and no carry, crosses from one byte of the word to the next. */
  lemma PairsByByte(b0: Byte, b1: Byte, b2: Byte, b3: Byte)
    ensures Pairs(FourBytes(b0, b1, b2, b3)) == FourBytes(Pairs8(b0), Pairs8(b1), Pairs8(b2), Pairs8(b3))
  {
    PairsAreSums(FourBytes(b0, b1, b2, b3), b0);
    PairsAreSums(0, b1);
    PairsAreSums(0, b2);
    PairsAreSums(0, b3);
    hide Pairs, Pairs8;
  }

  lemma NibblesByByte(b0: Byte, b1: Byte, b2: Byte, b3: Byte)
    ensures Nibbles(FourBytes(b0, b1, b2, b3)) == FourBytes(Nibbles8(b0), Nibbles8(b1), Nibbles8(b2), Nibbles8(b3))
  {
  }

  lemma LanesByByte(b0: Byte, b1: Byte, b2: Byte, b3: Byte)
    requires b0 & 0x88 == 0 && b1 & 0x88 == 0 && b2 & 0x88 == 0 && b3 & 0x88 == 0
    ensures Lanes(FourBytes(b0, b1, b2, b3)) == FourBytes(Lanes8(b0), Lanes8(b1), Lanes8(b2), Lanes8(b3))
  {
  }

  lemma OneByte(b: Byte)
    ensures Lanes8(Nibbles8(Pairs8(b))) == Ones8(b) && Nibbles8(Pairs8(b)) & 0x88 == 0
  {
  }

  /** The three steps leave in each byte of the word the number of its bits. */
  lemma LanesCount(b0: Byte, b1: Byte, b2: Byte, b3: Byte)
    ensures Lanes(Nibbles(Pairs(FourBytes(b0, b1, b2, b3)))) == FourBytes(Ones8(b0), Ones8(b1), Ones8(b2), Ones8(b3))
  {
    hide Pairs, Nibbles, Lanes, FourBytes, Pairs8, Nibbles8, Lanes8, Ones8;
    PairsByByte(b0, b1, b2, b3);
    NibblesByByte(Pairs8(b0), Pairs8(b1), Pairs8(b2), Pairs8(b3));
    OneByte(b0);
    OneByte(b1);
    OneByte(b2);
    OneByte(b3);
    LanesByByte(Nibbles8(Pairs8(b0)), Nibbles8(Pairs8(b1)), Nibbles8(Pairs8(b2)), Nibbles8(Pairs8(b3)));
  }

  /** Four small numbers in the bytes of a word. */
  function Numbers(n0: nat, n1: nat, n2: nat, n3: nat): bv32 {
    FourBytes(AsByte(n0), AsByte(n1), AsByte(n2), AsByte(n3))
  }

  /** The three steps turn a word into the counts of its bytes. */
  function Counts(x: bv32): bv32 {
    Lanes(Nibbles(Pairs(x)))
  }

  lemma CountsOfWord(b0: Byte, b1: Byte, b2: Byte, b3: Byte)
    ensures Counts(FourBytes(b0, b1, b2, b3)) == Numbers(Ones(b0), Ones(b1), Ones(b2), Ones(b3))
    ensures Ones(b0) <= 8 && Ones(b1) <= 8 && Ones(b2) <= 8 && Ones(b3) <= 8
  {
    hide Pairs, Nibbles, Lanes, FourBytes, Ones8, Ones, AsByte;
    LanesCount(b0, b1, b2, b3);
    Ones8IsOnes(b0);
    Ones8IsOnes(b1);
    Ones8IsOnes(b2);
    Ones8IsOnes(b3);
  }

  function Add(x: bv32, y: bv32): bv32 {
    x + y
  }

  lemma AddBytes(a0: Byte, a1: Byte, a2: Byte, a3: Byte, b0: Byte, b1: Byte, b2: Byte, b3: Byte)
    requires a0 <= 48 && a1 <= 48 && a2 <= 48 && a3 <= 48
    requires b0 <= 8 && b1 <= 8 && b2 <= 8 && b3 <= 8
    ensures Add(FourBytes(a0, a1, a2, a3), FourBytes(b0, b1, b2, b3)) == FourBytes(Plus(a0, b0), Plus(a1, b1), Plus(a2, b2), Plus(a3, b3))
  {
  }

  /** As long as no byte overflows, adding words adds their bytes. */
  lemma AddNumbers(m0: nat, m1: nat, m2: nat, m3: nat, n0: nat, n1: nat, n2: nat, n3: nat)
    requires m0 <= 48 && m1 <= 48 && m2 <= 48 && m3 <= 48
    requires n0 <= 8 && n1 <= 8 && n2 <= 8 && n3 <= 8
    ensures Add(Numbers(m0, m1, m2, m3), Numbers(n0, n1, n2, n3)) == Numbers(m0 + n0, m1 + n1, m2 + n2, m3 + n3)
  {
    hide FourBytes, AsByte, Add, Plus;
    AsByteBound(m0);
    AsByteBound(m1);
    AsByteBound(m2);
    AsByteBound(m3);
    AsByteBound(n0);
    AsByteBound(n1);
    AsByteBound(n2);
    AsByteBound(n3);
    AddBytes(AsByte(m0), AsByte(m1), AsByte(m2), AsByte(m3), AsByte(n0), AsByte(n1), AsByte(n2), AsByte(n3));
    AsByteAdds(m0, n0);
    AsByteAdds(m1, n1);
    AsByteAdds(m2, n2);
    AsByteAdds(m3, n3);
  }

  function Top(x: bv32): bv32 {
    x >> 24
  }

  lemma FirstShift(a0: Byte, a1: Byte, a2: Byte, a3: Byte)
    requires a0 <= 56 && a1 <= 56 && a2 <= 56 && a3 <= 56
    ensures FourBytes(a0, a1, a2, a3) + (FourBytes(a0, a1, a2, a3) << 8) == FourBytes(a0, Plus(a0, a1), Plus(a1, a2), Plus(a2, a3))
  {
  }

  lemma SecondShift(a0: Byte, a1: Byte, a2: Byte, a3: Byte)
    requires a0 <= 112 && a1 <= 112 && a2 <= 112 && a3 <= 112
    ensures Top(Shift16(FourBytes(a0, a1, a2, a3))) == Plus(a1, a3) as bv32
  {
  }

  lemma Doubled(a: Byte, b: Byte)
    requires a <= 56 && b <= 56
    ensures Plus(a, b) <= 112
  {
  }

  lemma WideIsExact(b: Byte)
    ensures (b as bv32) as nat == b as nat
  {
  }

  lemma SumOfBytes(a0: Byte, a1: Byte, a2: Byte, a3: Byte)
    requires a0 <= 56 && a1 <= 56 && a2 <= 56 && a3 <= 56
    ensures Top(TwoShifts(FourBytes(a0, a1, a2, a3))) == Plus(Plus(a0, a1), Plus(a2, a3)) as bv32
  {
    hide FourBytes, TwoShifts, Top, Shift16, Plus;
    ShiftOfShift(FourBytes(a0, a1, a2, a3));
    FirstShift(a0, a1, a2, a3);
    Doubled(a0, a1);
    Doubled(a1, a2);
    Doubled(a2, a3);
    SecondShift(a0, Plus(a0, a1), Plus(a1, a2), Plus(a2, a3));
  }

  lemma SumOfNumbers(n0: nat, n1: nat, n2: nat, n3: nat)
    requires n0 <= 56 && n1 <= 56 && n2 <= 56 && n3 <= 56
    ensures Top(TwoShifts(Numbers(n0, n1, n2, n3))) == AsByte(n0 + n1 + (n2 + n3)) as bv32
  {
    hide FourBytes, AsByte, TwoShifts, Top, Plus;
    AsByteBound(n0);
    AsByteBound(n1);
    AsByteBound(n2);
    AsByteBound(n3);
    SumOfBytes(AsByte(n0), AsByte(n1), AsByte(n2), AsByte(n3));
    AsByteAdds(n0, n1);
    AsByteAdds(n2, n3);
    AsByteAdds(n0 + n1, n2 + n3);
  }

  /** The multiplication adds up the four bytes in the top one. */
  lemma TopOfSpread(n0: nat, n1: nat, n2: nat, n3: nat)
    requires n0 <= 56 && n1 <= 56 && n2 <= 56 && n3 <= 56
    ensures Top(Spread(Numbers(n0, n1, n2, n3))) as nat == n0 + n1 + n2 + n3
  {
    hide *;
    SpreadIsShifts(Numbers(n0, n1, n2, n3));
    SumOfNumbers(n0, n1, n2, n3);
    AsByteIsExact(n0 + n1 + (n2 + n3));
    WideIsExact(AsByte(n0 + n1 + (n2 + n3)));
  }

  // ----- the count -----

  /** The word loaded from four bytes of s. */
  function Load(s: Bytes, i: nat): bv32
    requires i + 4 <= |s|
  {
    FourBytes(s[i], s[i + 1], s[i + 2], s[i + 3])
  }

  /** What the unrolled step adds for seven words. */
  function SevenWords(x1: bv32, x2: bv32, x3: bv32, x4: bv32, x5: bv32, x6: bv32, x7: bv32): bv32 {
    Top(Spread(Add(Add(Add(Add(Add(Add(Counts(x1), Counts(x2)), Counts(x3)), Counts(x4)), Counts(x5)), Counts(x6)), Counts(x7))))
  }

  /** The sum of the counts of the words before the n-th, byte by byte. */
  function Column(s: Bytes, i: nat, k: nat, n: nat): (r: nat)
    requires k < 4 && i + 4 * n <= |s|
    ensures r <= 8 * n
  {
    if n == 0 then 0
    else
      Ones8IsOnes(s[i + 4 * (n - 1) + k]);
      Column(s, i, k, n - 1) + Ones(s[i + 4 * (n - 1) + k])
  }

  function Columns(s: Bytes, i: nat, n: nat): bv32
    requires i + 4 * n <= |s|
  {
    Numbers(Column(s, i, 0, n), Column(s, i, 1, n), Column(s, i, 2, n), Column(s, i, 3, n))
  }

  lemma OneColumn(s: Bytes, i: nat)
    requires i + 4 <= |s|
    ensures Counts(Load(s, i)) == Columns(s, i, 1)
  {
    hide Ones, Counts, Numbers, FourBytes;
    CountsOfWord(s[i], s[i + 1], s[i + 2], s[i + 3]);
  }

  lemma NextColumn(s: Bytes, i: nat, n: nat)
    requires 0 < n < 7 && i + 4 * (n + 1) <= |s|
    ensures Add(Columns(s, i, n), Counts(Load(s, i + 4 * n))) == Columns(s, i, n + 1)
  {
    hide Ones, Counts, Numbers, FourBytes, Add;
    var j := i + 4 * n;
    CountsOfWord(s[j], s[j + 1], s[j + 2], s[j + 3]);
    AddNumbers(Column(s, i, 0, n), Column(s, i, 1, n), Column(s, i, 2, n), Column(s, i, 3, n),
               Ones(s[j]), Ones(s[j + 1]), Ones(s[j + 2]), Ones(s[j + 3]));
  }

  lemma ColumnNext(s: Bytes, i: nat, k: nat, n: nat)
    requires k < 4 && n > 0 && i + 4 * n <= |s|
    ensures Column(s, i, k, n) == Column(s, i, k, n - 1) + Ones(s[i + 4 * (n - 1) + k])
  {
    hide Ones;
  }

  /** The columns together hold the count of the bytes. */
  lemma {:induction false} ColumnsCount(s: Bytes, i: nat, n: nat)
    requires i + 4 * n <= |s|
    ensures Column(s, i, 0, n) + Column(s, i, 1, n) + Column(s, i, 2, n) + Column(s, i, 3, n) == Count(s[i..i + 4 * n])
  {
    hide *;
    if n > 0 {
      ColumnsCount(s, i, n - 1);
      var j := i + 4 * (n - 1);
      ColumnNext(s, i, 0, n);
      ColumnNext(s, i, 1, n);
      ColumnNext(s, i, 2, n);
      ColumnNext(s, i, 3, n);
      assert i + 4 * n == j + 4;
      CountFour(s, i, j);
    } else {
      NoColumns(s, i);
      assert i + 4 * n == i;
    }
  }

  lemma NoColumns(s: Bytes, i: nat)
    requires i <= |s|
    ensures Column(s, i, 0, 0) + Column(s, i, 1, 0) + Column(s, i, 2, 0) + Column(s, i, 3, 0) == Count(s[i..i])
  {
    hide Ones, Count;
    CountNone(s[i..i]);
  }

  lemma CountNone(s: Bytes)
    requires s == []
    ensures Count(s) == 0
  {
  }

  lemma CountFour(s: Bytes, i: nat, j: nat)
    requires i <= j && j + 4 <= |s|
    ensures Count(s[i..j + 4]) == Count(s[i..j]) + Ones(s[j]) + Ones(s[j + 1]) + Ones(s[j + 2]) + Ones(s[j + 3])
  {
    hide Ones, Count;
    CountNext(s, i, j);
    CountNext(s, i, j + 1);
    CountNext(s, i, j + 2);
    CountNext(s, i, j + 3);
  }

  lemma CountNext(s: Bytes, i: nat, j: nat)
    requires i <= j < |s|
    ensures Count(s[i..j + 1]) == Count(s[i..j]) + Ones(s[j])
  {
    hide Ones;
    assert s[i..j + 1][..j - i] == s[i..j];
  }

  /** No byte of the seven-fold sum overflows, and the step counts exactly. */
  lemma SevenWordsCount(s: Bytes, i: nat)
    requires i + 28 <= |s|
    ensures SevenWords(Load(s, i), Load(s, i + 4), Load(s, i + 8), Load(s, i + 12), Load(s, i + 16), Load(s, i + 20), Load(s, i + 24)) as nat
         == Count(s[i..i + 28])
  {
    hide Load, Counts, Numbers, Add, Top, Spread, Count, Column;
    OneColumn(s, i);
    NextColumn(s, i, 1);
    NextColumn(s, i, 2);
    NextColumn(s, i, 3);
    NextColumn(s, i, 4);
    NextColumn(s, i, 5);
    NextColumn(s, i, 6);
    ColumnsCount(s, i, 7);
    TopOfSpread(Column(s, i, 0, 7), Column(s, i, 1, 7), Column(s, i, 2, 7), Column(s, i, 3, 7));
  }

  /** redisPopcount for a string that starts at the given address. */
  method PopCount(s: Bytes, address: nat) returns (bits: nat)
    ensures bits == Population(s, 8 * |s|)
  {
    hide Ones, Population, Load, SevenWords, Count;
    bits := 0;
    var i := 0;
    CountNone(s[0..0]);
    while (address + i) % 4 != 0 && i < |s|
      invariant i <= |s| && bits == Count(s[0..i])
      decreases |s| - i
    {
      CountNext(s, 0, i);
      bits := bits + Ones(s[i]);
      i := i + 1;
    }
    while |s| - i >= 28
      invariant i <= |s| && bits == Count(s[0..i])
      decreases |s| - i
    {
      var step := SevenWords(Load(s, i), Load(s, i + 4), Load(s, i + 8), Load(s, i + 12),
                             Load(s, i + 16), Load(s, i + 20), Load(s, i + 24));
      SevenWordsCount(s, i);
      CountConcat(s[0..i], s[i..i + 28]);
      assert s[0..i] + s[i..i + 28] == s[0..i + 28];
      bits := bits + step as nat;
      i := i + 28;
    }
    while i < |s|
      invariant i <= |s| && bits == Count(s[0..i])
    {
      CountNext(s, 0, i);
      bits := bits + Ones(s[i]);
      i := i + 1;
    }
    assert s[0..i] == s;
    CountIsPopulation(s);
  }
}
