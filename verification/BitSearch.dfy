/**
 Finding the first bit of a given value: bytes up to an aligned address, then
 whole words, then the bits of one word.
 */
module BitSearch {
  import opened Basics
  import opened BitStrings

  /** Eight bytes as one word, the first one at the top. */
  function EightBytes(b0: Byte, b1: Byte, b2: Byte, b3: Byte, b4: Byte, b5: Byte, b6: Byte, b7: Byte): bv64 {
    ((b0 as bv64) << 56) | ((b1 as bv64) << 48) | ((b2 as bv64) << 40) | ((b3 as bv64) << 32) |
    ((b4 as bv64) << 24) | ((b5 as bv64) << 16) | ((b6 as bv64) << 8) | (b7 as bv64)
  }

  /** The padded word at byte i. */
  function WordAt(s: Bytes, i: nat): bv64 {
    EightBytes(Pad(s, i), Pad(s, i + 1), Pad(s, i + 2), Pad(s, i + 3), Pad(s, i + 4), Pad(s, i + 5), Pad(s, i + 6), Pad(s, i + 7))
  }

  function Half(x: bv64): bv64 {
    x >> 1
  }

  function Down(x: bv64): bv64 {
    x >> 8
  }

  predicate Meets(x: bv64, y: bv64) {
    x & y != 0
  }

  /** The single bit that the scan tests in its step k. */
  function Probe(k: nat): bv64 {
    if k == 0 then 0x8000_0000_0000_0000 else Half(Probe(k - 1))
  }

  function First(w: bv64): Byte {
    (w >> 56) as bv8
  }

  function Next(w: bv64): bv64 {
    w << 8
  }

  predicate Hits(w: bv64, k: nat) {
    Meets(Probe(k), w)
  }

  lemma HalfProbes(k: nat)
    ensures Probe(k + 1) == Half(Probe(k))
  {
  }

  lemma EightHalves(x: bv64)
    ensures Half(Half(Half(Half(Half(Half(Half(Half(x)))))))) == Down(x)
  {
  }

  lemma ProbeByte(k: nat)
    ensures Probe(k + 8) == Down(Probe(k))
  {
    hide Probe, Half, Down;
    HalfProbes(k);
    HalfProbes(k + 1);
    HalfProbes(k + 2);
    HalfProbes(k + 3);
    HalfProbes(k + 4);
    HalfProbes(k + 5);
    HalfProbes(k + 6);
    HalfProbes(k + 7);
    EightHalves(Probe(k));
  }

  lemma ShiftedAnd(p: bv64, w: bv64)
    ensures (p >> 8) & w != 0 <==> p & (w << 8) != 0
  {
  }

  lemma HitsNext(w: bv64, k: nat)
    ensures Hits(w, k + 8) == Hits(Next(w), k)
  {
    ProbeByte(k);
    ShiftedAnd(Probe(k), w);
    hide Probe;
  }

  lemma TopBits(w: bv64)
    ensures 0x8000_0000_0000_0000 & w != 0 <==> 128 & First(w) != 0
    ensures 0x4000_0000_0000_0000 & w != 0 <==> 64 & First(w) != 0
    ensures 0x2000_0000_0000_0000 & w != 0 <==> 32 & First(w) != 0
    ensures 0x1000_0000_0000_0000 & w != 0 <==> 16 & First(w) != 0
    ensures 0x0800_0000_0000_0000 & w != 0 <==> 8 & First(w) != 0
    ensures 0x0400_0000_0000_0000 & w != 0 <==> 4 & First(w) != 0
    ensures 0x0200_0000_0000_0000 & w != 0 <==> 2 & First(w) != 0
    ensures 0x0100_0000_0000_0000 & w != 0 <==> 1 & First(w) != 0
  {
  }

  lemma FirstProbes()
    ensures Probe(0) == 0x8000_0000_0000_0000 && Probe(1) == 0x4000_0000_0000_0000
    ensures Probe(2) == 0x2000_0000_0000_0000 && Probe(3) == 0x1000_0000_0000_0000
    ensures Probe(4) == 0x0800_0000_0000_0000 && Probe(5) == 0x0400_0000_0000_0000
    ensures Probe(6) == 0x0200_0000_0000_0000 && Probe(7) == 0x0100_0000_0000_0000
  {
    HalfProbes(0);
    HalfProbes(1);
    HalfProbes(2);
    HalfProbes(3);
    HalfProbes(4);
    HalfProbes(5);
    HalfProbes(6);
  }

  lemma HitsInFirst(w: bv64, i: nat)
    requires i < 8
    ensures Hits(w, i) == BitIn(First(w), i)
  {
    FirstProbes();
    TopBits(w);
    hide Probe, First;
  }

  lemma BytesOfWord(b0: Byte, b1: Byte, b2: Byte, b3: Byte, b4: Byte, b5: Byte, b6: Byte, b7: Byte)
    ensures First(EightBytes(b0, b1, b2, b3, b4, b5, b6, b7)) == b0
    ensures Next(EightBytes(b0, b1, b2, b3, b4, b5, b6, b7)) == EightBytes(b1, b2, b3, b4, b5, b6, b7, 0)
  {
  }

  function Choose(b0: Byte, b1: Byte, b2: Byte, b3: Byte, b4: Byte, b5: Byte, b6: Byte, b7: Byte, m: nat): Byte
    requires m < 8
  {
    match m
    case 0 => b0
    case 1 => b1
    case 2 => b2
    case 3 => b3
    case 4 => b4
    case 5 => b5
    case 6 => b6
    case _ => b7
  }

  /** The probe of step k hits the bit k of the word, counted from the left. */
  lemma {:induction false} HitsByte(b0: Byte, b1: Byte, b2: Byte, b3: Byte, b4: Byte, b5: Byte, b6: Byte, b7: Byte, k: nat)
    requires k < 64
    ensures Hits(EightBytes(b0, b1, b2, b3, b4, b5, b6, b7), k) == BitIn(Choose(b0, b1, b2, b3, b4, b5, b6, b7, k / 8), k % 8)
    decreases k
  {
    hide Hits, EightBytes, First, Next, BitIn;
    var w := EightBytes(b0, b1, b2, b3, b4, b5, b6, b7);
    BytesOfWord(b0, b1, b2, b3, b4, b5, b6, b7);
    if k < 8 {
      HitsInFirst(w, k);
    } else {
      HitsNext(w, k - 8);
      HitsByte(b1, b2, b3, b4, b5, b6, b7, 0, k - 8);
    }
  }

  lemma ChooseIsPad(s: Bytes, i: nat, m: nat)
    requires m < 8
    ensures Choose(Pad(s, i), Pad(s, i + 1), Pad(s, i + 2), Pad(s, i + 3), Pad(s, i + 4), Pad(s, i + 5), Pad(s, i + 6),
                   Pad(s, i + 7), m) == Pad(s, i + m)
  {
    hide Pad;
  }

  lemma ByteOfBit(i: nat, k: nat)
    ensures (8 * i + k) / 8 == i + k / 8 && (8 * i + k) % 8 == k % 8
  {
  }

  lemma HitsBit(s: Bytes, i: nat, k: nat)
    requires k < 64
    ensures Hits(WordAt(s, i), k) == BitAt(s, 8 * i + k)
  {
    ByteOfBit(i, k);
    hide Hits, EightBytes, BitIn, Pad, Choose;
    ChooseIsPad(s, i, k / 8);
    HitsByte(Pad(s, i), Pad(s, i + 1), Pad(s, i + 2), Pad(s, i + 3), Pad(s, i + 4), Pad(s, i + 5), Pad(s, i + 6), Pad(s, i + 7), k);
  }

  lemma UniformWords()
    ensures EightBytes(0, 0, 0, 0, 0, 0, 0, 0) == 0
    ensures EightBytes(255, 255, 255, 255, 255, 255, 255, 255) == 0xFFFF_FFFF_FFFF_FFFF
  {
  }

  lemma OnlyUniform(b0: Byte, b1: Byte, b2: Byte, b3: Byte, b4: Byte, b5: Byte, b6: Byte, b7: Byte)
    ensures EightBytes(b0, b1, b2, b3, b4, b5, b6, b7) == 0 ==> b0 == b1 == b2 == b3 == b4 == b5 == b6 == b7 == 0
    ensures EightBytes(b0, b1, b2, b3, b4, b5, b6, b7) == 0xFFFF_FFFF_FFFF_FFFF ==> b0 == b1 == b2 == b3 == b4 == b5 == b6 == b7 == 255
  {
  }

  lemma ProbeIsNotZero(k: nat)
    requires k < 64
    ensures Probe(k) != 0
  {
    HitsByte(255, 255, 255, 255, 255, 255, 255, 255, k);
    BitsOfConstant(k % 8);
    hide Probe, EightBytes, BitIn;
    AndWithZero(EightBytes(255, 255, 255, 255, 255, 255, 255, 255));
  }

  lemma AndWithZero(w: bv64)
    ensures 0 & w == 0
  {
  }

  /** The byte, or the word, that holds no bit of the wanted value. */
  function SkipByte(bit: bool): Byte {
    if bit then 0 else 255
  }

  function SkipWord(bit: bool): bv64 {
    if bit then 0 else 0xFFFF_FFFF_FFFF_FFFF
  }

  /** None of the first n bits has the wanted value. */
  ghost predicate NoneBefore(s: Bytes, n: nat, bit: bool) {
    forall k :: 0 <= k < n ==> BitAt(s, k) != bit
  }

  lemma SkipOneByte(s: Bytes, i: nat, bit: bool)
    requires NoneBefore(s, 8 * i, bit) && Pad(s, i) == SkipByte(bit)
    ensures NoneBefore(s, 8 * i + 8, bit)
  {
    forall k | 8 * i <= k < 8 * i + 8 ensures BitAt(s, k) != bit {
      BitsOfConstant(k % 8);
      assert k / 8 == i;
    }
    hide BitAt;
  }

  lemma SkipEightBytes(s: Bytes, i: nat, bit: bool)
    requires NoneBefore(s, 8 * i, bit) && WordAt(s, i) == SkipWord(bit)
    ensures NoneBefore(s, 8 * i + 64, bit)
  {
    OnlyUniform(Pad(s, i), Pad(s, i + 1), Pad(s, i + 2), Pad(s, i + 3), Pad(s, i + 4), Pad(s, i + 5), Pad(s, i + 6), Pad(s, i + 7));
    hide NoneBefore, Pad, EightBytes;
    SkipOneByte(s, i, bit);
    SkipOneByte(s, i + 1, bit);
    SkipOneByte(s, i + 2, bit);
    SkipOneByte(s, i + 3, bit);
    SkipOneByte(s, i + 4, bit);
    SkipOneByte(s, i + 5, bit);
    SkipOneByte(s, i + 6, bit);
    SkipOneByte(s, i + 7, bit);
  }

  lemma UniformByte(s: Bytes, i: nat, j: nat, bit: bool)
    requires NoneBefore(s, 8 * i + 64, bit) && i <= j < i + 8
    ensures Pad(s, j) == SkipByte(bit)
  {
    forall b | 0 <= b < 8 ensures BitIn(Pad(s, j), b) == !bit {
      assert BitAt(s, 8 * j + b) != bit;
    }
    hide BitIn, Pad;
    ByteFromBits(Pad(s, j), !bit);
  }

  /** If no bit of a word has the wanted value, the word is the one to skip. */
  lemma UniformWord(s: Bytes, i: nat, bit: bool)
    requires NoneBefore(s, 8 * i + 64, bit)
    ensures WordAt(s, i) == SkipWord(bit) && Pad(s, i + 7) == SkipByte(bit)
  {
    UniformByte(s, i, i, bit);
    UniformByte(s, i, i + 1, bit);
    UniformByte(s, i, i + 2, bit);
    UniformByte(s, i, i + 3, bit);
    UniformByte(s, i, i + 4, bit);
    UniformByte(s, i, i + 5, bit);
    UniformByte(s, i, i + 6, bit);
    UniformByte(s, i, i + 7, bit);
    UniformWords();
    hide Pad, EightBytes, NoneBefore;
  }

  /** One step of loading bytes into a word. */
  function Append(w: bv64, b: Byte): bv64 {
    (w << 8) | (b as bv64)
  }

  /** The word built by the first j steps of the loading loop. */
  function Loaded(s: Bytes, i: nat, j: nat): bv64 {
    if j == 0 then 0 else Append(Loaded(s, i, j - 1), Pad(s, i + j - 1))
  }

  lemma LoadedStep(s: Bytes, i: nat, j: nat)
    ensures Loaded(s, i, j + 1) == Append(Loaded(s, i, j), Pad(s, i + j))
  {
    hide Append;
  }

  lemma EightSteps(b0: Byte, b1: Byte, b2: Byte, b3: Byte, b4: Byte, b5: Byte, b6: Byte, b7: Byte)
    ensures Append(Append(Append(Append(Append(Append(Append(Append(0, b0), b1), b2), b3), b4), b5), b6), b7)
            == EightBytes(b0, b1, b2, b3, b4, b5, b6, b7)
  {
  }

  lemma LoadedIsWord(s: Bytes, i: nat)
    ensures Loaded(s, i, 8) == WordAt(s, i)
  {
    assert Loaded(s, i, 0) == 0;
    hide Append, EightBytes, Pad, Loaded;
    LoadedStep(s, i, 0);
    LoadedStep(s, i, 1);
    LoadedStep(s, i, 2);
    LoadedStep(s, i, 3);
    LoadedStep(s, i, 4);
    LoadedStep(s, i, 5);
    LoadedStep(s, i, 6);
    LoadedStep(s, i, 7);
    EightSteps(Pad(s, i), Pad(s, i + 1), Pad(s, i + 2), Pad(s, i + 3), Pad(s, i + 4), Pad(s, i + 5), Pad(s, i + 6), Pad(s, i + 7));
  }

  // ----- the search -----

  /** The byte loop and the word loop: skips what cannot hold the bit. */
  method Skip(s: Bytes, address: nat, bit: bool) returns (i: nat)
    ensures i <= |s| && NoneBefore(s, 8 * i, bit)
    ensures |s| - i < 8 || WordAt(s, i) != SkipWord(bit)
  {
    hide NoneBefore, WordAt;
    i := 0;
    Nothing(s, bit);
    while (address + i) % 8 != 0 && i < |s|
      invariant i <= |s| && NoneBefore(s, 8 * i, bit)
      decreases |s| - i
    {
      if s[i] != SkipByte(bit) {
        break;
      }
      SkipOneByte(s, i, bit);
      i := i + 1;
    }
    while |s| - i >= 8
      invariant i <= |s| && NoneBefore(s, 8 * i, bit)
      decreases |s| - i
    {
      if WordAt(s, i) != SkipWord(bit) {
        break;
      }
      SkipEightBytes(s, i, bit);
      i := i + 8;
    }
  }

  lemma Nothing(s: Bytes, bit: bool)
    ensures NoneBefore(s, 0, bit)
  {
  }

  /** The loading loop: pads with zeros behind the last byte. */
  method LoadWord(s: Bytes, start: nat) returns (word: bv64)
    ensures word == WordAt(s, start)
  {
    assert Loaded(s, start, 0) == 0;
    hide Loaded, WordAt, Append;
    word := 0;
    var i, j := start, 0;
    while j < 8
      invariant j <= 8 && i <= start + j && (start + j <= |s| ==> i == start + j) && (start + j > |s| ==> i >= |s|)
      invariant word == Loaded(s, start, j)
    {
      LoadedStep(s, start, j);
      word := Append(word, if i < |s| then s[i] else 0);
      if i < |s| {
        i := i + 1;
      }
      j := j + 1;
    }
    LoadedIsWord(s, start);
  }

  lemma SkipValues()
    ensures SkipWord(true) == 0 && SkipByte(false) == 255
  {
  }

  lemma NothingSet(s: Bytes, i: nat)
    requires NoneBefore(s, 8 * i, true) && WordAt(s, i) == SkipWord(true) && |s| <= i + 8
    ensures NoneBefore(s, 8 * |s|, true)
  {
    hide WordAt, BitAt, SkipWord;
    SkipEightBytes(s, i, true);
  }

  lemma MoreProbes(k: nat)
    requires k <= 64 && Probe(k) != 0
    ensures k < 64
  {
    assert Probe(0) == 0x8000_0000_0000_0000;
    hide Probe;
    ProbeByte(0);
    assert Probe(8) == 0x0080_0000_0000_0000;
    ProbeByte(8);
    assert Probe(16) == 0x8000_0000_0000;
    ProbeByte(16);
    assert Probe(24) == 0x0080_0000_0000;
    ProbeByte(24);
    assert Probe(32) == 0x8000_0000;
    ProbeByte(32);
    assert Probe(40) == 0x0080_0000;
    ProbeByte(40);
    assert Probe(48) == 0x8000;
    ProbeByte(48);
    assert Probe(56) == 0x0080;
    ProbeByte(56);
  }

  lemma Found(s: Bytes, n: nat, bit: bool)
    requires BitAt(s, n) == bit && NoneBefore(s, n, bit)
    ensures n <= 8 * |s| && (bit ==> !NoneBefore(s, 8 * |s|, true))
  {
    BitsOfConstant(n % 8);
    BitsOfConstant(0);
    assert !BitAt(s, 8 * |s|);
    hide BitIn;
  }

  lemma OneMoreBit(s: Bytes, n: nat, bit: bool)
    requires BitAt(s, n) != bit && NoneBefore(s, n, bit)
    ensures NoneBefore(s, n + 1, bit)
  {
    hide BitAt;
  }

  /**
   redisBitpos for a string that starts at the given address: the first bit of
   the padded string that has the value, or -1 if a set bit is asked for and
   there is none. The panic at the end is never reached.
   */
  method BitPos(s: Bytes, address: nat, bit: bool) returns (pos: int)
    ensures pos == -1 || 0 <= pos <= 8 * |s|
    ensures pos == -1 <==> bit && NoneBefore(s, 8 * |s|, true)
    ensures pos >= 0 ==> BitAt(s, pos) == bit && NoneBefore(s, pos, bit)
  {
    hide NoneBefore, WordAt, BitAt, SkipWord;
    var i := Skip(s, address, bit);
    var word := LoadWord(s, i);
    SkipValues();
    if bit && word == 0 {
      NothingSet(s, i);
      return -1;
    }
    pos := Scan(s, i, word, bit);
  }

  /** The scan of the last word, bit by bit. */
  method Scan(s: Bytes, i: nat, word: bv64, bit: bool) returns (pos: nat)
    requires word == WordAt(s, i) && NoneBefore(s, 8 * i, bit)
    requires i <= |s| && (|s| - i < 8 || word != SkipWord(bit)) && !(bit && word == 0)
    ensures BitAt(s, pos) == bit && NoneBefore(s, pos, bit)
    ensures pos <= 8 * |s| && (bit ==> !NoneBefore(s, 8 * |s|, true))
  {
    SkipValues();
    pos := 0;
    var one: bv64, k: nat := 0x8000_0000_0000_0000, 0;
    assert one == Probe(0);
    hide NoneBefore, WordAt, BitAt, SkipWord, Probe, Half, Meets;
    while one != 0
      invariant k <= 64 && one == Probe(k) && NoneBefore(s, 8 * i + k, bit)
      decreases 64 - k
    {
      MoreProbes(k);
      HitsBit(s, i, k);
      if Meets(one, word) == bit {
        Found(s, 8 * i + k, bit);
        return 8 * i + k;
      }
      OneMoreBit(s, 8 * i + k, bit);
      HalfProbes(k);
      one := Half(one);
      k := k + 1;
    }
    if k < 64 {
      ProbeIsNotZero(k);
    }
    UniformWord(s, i, bit);
    assert false;
  }
}
