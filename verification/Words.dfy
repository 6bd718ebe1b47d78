/**
 Machine words as sequences of bits, least significant bit first, with the C
 operators used by the cursor arithmetic of dict.c defined bit by bit.

 `Val` is the number a word denotes; `RevVal` is the number its bit reversal
 denotes, which is the order in which the scan cursor moves.
 */
module Words {

  const WIDTH: nat := 64

  type Bits = seq<bool>

  type Word = b: Bits | |b| == WIDTH witness Zeros(WIDTH)

  /** A hash of a hash table: an unsigned int, widened to a word. */
  type Hash32 = h: Word | Is32(h) witness Zeros(WIDTH)

  predicate Is32(h: Word) {
    forall i :: 32 <= i < WIDTH ==> !h[i]
  }

  function Pow2(k: nat): (p: nat)
    ensures p >= 1
  {
    if k == 0 then 1 else 2 * Pow2(k - 1)
  }

  function Zeros(n: nat): (b: Bits)
    ensures |b| == n && forall i :: 0 <= i < n ==> !b[i]
  {
    seq(n, _ => false)
  }

  function Ones(n: nat): (b: Bits)
    ensures |b| == n && forall i :: 0 <= i < n ==> b[i]
  {
    seq(n, _ => true)
  }

  function And(a: Bits, b: Bits): (r: Bits)
    requires |a| == |b|
    ensures |r| == |a| && forall i :: 0 <= i < |a| ==> r[i] == (a[i] && b[i])
  {
    seq(|a|, i requires 0 <= i < |a| => a[i] && b[i])
  }

  function Or(a: Bits, b: Bits): (r: Bits)
    requires |a| == |b|
    ensures |r| == |a| && forall i :: 0 <= i < |a| ==> r[i] == (a[i] || b[i])
  {
    seq(|a|, i requires 0 <= i < |a| => a[i] || b[i])
  }

  function Xor(a: Bits, b: Bits): (r: Bits)
    requires |a| == |b|
    ensures |r| == |a| && forall i :: 0 <= i < |a| ==> r[i] == (a[i] != b[i])
  {
    seq(|a|, i requires 0 <= i < |a| => a[i] != b[i])
  }

  function Not(a: Bits): (r: Bits)
    ensures |r| == |a| && forall i :: 0 <= i < |a| ==> r[i] == !a[i]
  {
    seq(|a|, i requires 0 <= i < |a| => !a[i])
  }

  /** `a << s`, dropping the bits shifted out. */
  function Shl(a: Bits, s: nat): (r: Bits)
    ensures |r| == |a| && forall i :: 0 <= i < |a| ==> r[i] == (i >= s && a[i - s])
  {
    seq(|a|, i requires 0 <= i < |a| => i >= s && a[i - s])
  }

  /** `a >> s`, filling with zeros. */
  function Shr(a: Bits, s: nat): (r: Bits)
    ensures |r| == |a| && forall i :: 0 <= i < |a| ==> r[i] == (i + s < |a| && a[i + s])
  {
    seq(|a|, i requires 0 <= i < |a| => i + s < |a| && a[i + s])
  }

  /** `a + 1` with wrap-around at the word's width: the ripple of the carry. */
  function Inc(a: Bits): (r: Bits)
    ensures |r| == |a|
  {
    if a == [] then []
    else if a[0] then [false] + Inc(a[1..])
    else [true] + a[1..]
  }

  function Reverse(a: Bits): (r: Bits)
    ensures |r| == |a| && forall i :: 0 <= i < |a| ==> r[i] == a[|a| - 1 - i]
  {
    seq(|a|, i requires 0 <= i < |a| => a[|a| - 1 - i])
  }

  function BitVal(b: bool): nat {
    if b then 1 else 0
  }

  function Val(a: Bits): nat {
    if a == [] then 0 else BitVal(a[0]) + 2 * Val(a[1..])
  }

  function RevVal(a: Bits): nat {
    Val(Reverse(a))
  }

  function ToBits(n: nat, width: nat): (r: Bits)
    ensures |r| == width
  {
    if width == 0 then [] else [n % 2 == 1] + ToBits(n / 2, width - 1)
  }

  /** The mask word `size - 1` of a table of `size` buckets. */
  function MaskOf(size: nat): Word
    requires size > 0
  {
    ToBits(size - 1, WIDTH)
  }

  /** The bucket `h & (size - 1)` of a hash in a table of `size` buckets. */
  function Index(h: Word, size: nat): nat
    requires size > 0
  {
    Val(And(h, MaskOf(size)))
  }

  // ----- values of words -----

  lemma ValBound(a: Bits)
    ensures Val(a) < Pow2(|a|)
  {
  }

  lemma MulGe(a: int, b: int, d: nat)
    requires a >= b
    ensures a * d >= b * d
  {
  }

  lemma {:induction false} Pow2Add(a: nat, b: nat)
    ensures Pow2(a + b) == Pow2(a) * Pow2(b)
  {
    if b > 0 {
      Pow2Add(a, b - 1);
      assert Pow2(a) * (2 * Pow2(b - 1)) == 2 * (Pow2(a) * Pow2(b - 1));
    }
  }

  lemma Pow2Values()
    ensures Pow2(31) == 0x8000_0000 && Pow2(32) == 0x1_0000_0000 && Pow2(62) == 0x4000_0000_0000_0000
    ensures Pow2(63) == 0x8000_0000_0000_0000 && Pow2(64) == 0x1_0000_0000_0000_0000
  {
    assert Pow2(4) == 16;
    Pow2Add(4, 4);
    Pow2Add(8, 8);
    Pow2Add(16, 15);
    assert Pow2(15) == 0x8000 by { Pow2Add(8, 7); assert Pow2(7) == 128 by { assert Pow2(5) == 32; } }
    Pow2Add(31, 31);
  }

  lemma MulTwo(p: nat, w: nat)
    ensures 2 * p * w == 2 * (p * w)
  {
  }

  lemma {:induction false} ValConcat(a: Bits, b: Bits)
    ensures Val(a + b) == Val(a) + Pow2(|a|) * Val(b)
  {
    if a == [] {
      assert a + b == b;
    } else {
      assert (a + b)[1..] == a[1..] + b;
      ValConcat(a[1..], b);
      MulTwo(Pow2(|a| - 1), Val(b));
    }
  }

  lemma {:induction false} ValInjective(a: Bits, b: Bits)
    requires |a| == |b| && Val(a) == Val(b)
    ensures a == b
  {
    if a != [] {
      assert a[0] == b[0];
      ValInjective(a[1..], b[1..]);
      assert a == [a[0]] + a[1..] && b == [b[0]] + b[1..];
    }
  }

  lemma {:induction false} ValZeros(n: nat)
    ensures Val(Zeros(n)) == 0
  {
    if n > 0 {
      assert Zeros(n)[1..] == Zeros(n - 1);
      ValZeros(n - 1);
    }
  }

  lemma {:induction false} ValOnes(n: nat)
    ensures Val(Ones(n)) == Pow2(n) - 1
  {
    if n > 0 {
      assert Ones(n)[1..] == Ones(n - 1);
      ValOnes(n - 1);
    }
  }

  lemma {:induction false} ValInc(a: Bits)
    ensures Val(Inc(a)) == if Val(a) + 1 == Pow2(|a|) then 0 else Val(a) + 1
  {
    if a != [] {
      ValInc(a[1..]);
      ValBound(a[1..]);
      if a[0] {
        assert Inc(a)[1..] == Inc(a[1..]);
      } else {
        assert Inc(a)[1..] == a[1..];
      }
    }
  }

  lemma {:induction false} IncOnes(n: nat, t: Bits)
    ensures Inc(Ones(n) + t) == Zeros(n) + Inc(t)
  {
    if n == 0 {
      assert Ones(n) + t == t;
    } else {
      assert (Ones(n) + t)[1..] == Ones(n - 1) + t;
      IncOnes(n - 1, t);
      assert Zeros(n) == [false] + Zeros(n - 1);
    }
  }

  lemma ReverseConcat(a: Bits, b: Bits)
    ensures Reverse(a + b) == Reverse(b) + Reverse(a)
  {
  }

  lemma ReverseReverse(a: Bits)
    ensures Reverse(Reverse(a)) == a
  {
  }

  lemma {:induction false} RevValConcat(a: Bits, b: Bits)
    ensures RevVal(a + b) == RevVal(a) * Pow2(|b|) + RevVal(b)
  {
    hide Val, Reverse, Pow2;
    ReverseConcat(a, b);
    ValConcat(Reverse(b), Reverse(a));
  }

  lemma RevValInjective(a: Bits, b: Bits)
    requires |a| == |b| && RevVal(a) == RevVal(b)
    ensures a == b
  {
    ValInjective(Reverse(a), Reverse(b));
    ReverseReverse(a);
    ReverseReverse(b);
  }

  // ----- masks -----

  lemma {:induction false} ToBitsMask(k: nat, width: nat)
    requires k <= width
    ensures ToBits(Pow2(k) - 1, width) == Ones(k) + Zeros(width - k)
  {
    if width == 0 {
    } else if k == 0 {
      ToBitsMask(0, width - 1);
      assert Zeros(width) == [false] + Zeros(width - 1);
    } else {
      ToBitsMask(k - 1, width - 1);
      assert Ones(k) == [true] + Ones(k - 1);
    }
  }

  lemma MaskOfPow2(k: nat)
    requires k <= WIDTH
    ensures MaskOf(Pow2(k)) == Ones(k) + Zeros(WIDTH - k)
  {
    ToBitsMask(k, WIDTH);
  }

  lemma AndMask(h: Word, k: nat)
    requires k <= WIDTH
    ensures And(h, MaskOf(Pow2(k))) == h[..k] + Zeros(WIDTH - k)
  {
    MaskOfPow2(k);
  }

  /** In a table of 2^k buckets the index is the value of the hash's low k bits. */
  lemma {:induction false} IndexLow(h: Word, k: nat)
    requires k <= WIDTH
    ensures Index(h, Pow2(k)) == Val(h[..k]) < Pow2(k)
  {
    hide And, MaskOf, Pow2, Val;
    AndMask(h, k);
    ValConcat(h[..k], Zeros(WIDTH - k));
    ValZeros(WIDTH - k);
    ValBound(h[..k]);
  }

  lemma SameIndex(h: Word, g: Word, k: nat)
    requires k <= WIDTH
    ensures Index(h, Pow2(k)) == Index(g, Pow2(k)) <==> h[..k] == g[..k]
  {
    IndexLow(h, k);
    IndexLow(g, k);
    if Val(h[..k]) == Val(g[..k]) {
      ValInjective(h[..k], g[..k]);
    }
  }

  // ----- the parallel bit reversal -----

  predicate IsBlock(t: nat) {
    t == 64 || t == 32 || t == 16 || t == 8 || t == 4 || t == 2 || t == 1
  }

  /** The number of the block of t bits that bit i lies in. */
  function Block(t: nat, i: nat): nat
    requires IsBlock(t)
  {
    match t
    case 64 => i / 64
    case 32 => i / 32
    case 16 => i / 16
    case 8 => i / 8
    case 4 => i / 4
    case 2 => i / 2
    case _ => i
  }

  lemma BlockIs(t: nat, i: nat, q: nat, r: nat)
    requires IsBlock(t) && i == q * t + r && r < t
    ensures Block(t, i) == q
  {
    if t == 64 {} else if t == 32 {} else if t == 16 {} else if t == 8 {} else if t == 4 {} else if t == 2 {} else {}
  }

  lemma BlockParts(t: nat, i: nat) returns (q: nat, r: nat)
    requires IsBlock(t)
    ensures i == q * t + r && r < t && Block(t, i) == q
  {
    q, r := Block(t, i), i - Block(t, i) * t;
    if t == 64 {} else if t == 32 {} else if t == 16 {} else if t == 8 {} else if t == 4 {} else if t == 2 {} else {}
  }

  /** The first bit of the block of t bits that bit i lies in. */
  function Start(t: nat, i: nat): int
    requires IsBlock(t)
  {
    Block(t, i) * t
  }

  lemma DoubleIndex(q: nat, s: nat)
    ensures q * (2 * s) == (2 * q) * s && (2 * q + 1) * s == (2 * q) * s + s
  {
  }

  /** Where bit i stands relative to the two halves of its block of 2s bits, which starts at m. */
  lemma Halves(s: nat, i: nat) returns (q: nat, m: nat, high: bool, r: nat)
    requires IsBlock(s) && IsBlock(2 * s)
    ensures r < s && m == q * (2 * s) == (2 * q) * s && (2 * q + 1) * s == m + s
    ensures i == (if high then m + s else m) + r
    ensures Block(2 * s, i) == q && Block(s, i) == if high then 2 * q + 1 else 2 * q
    ensures Start(2 * s, i) == m && Start(s, i) == if high then m + s else m
  {
    var o;
    q, o := BlockParts(2 * s, i);
    m, high, r := q * (2 * s), o >= s, if o < s then o else o - s;
    DoubleIndex(q, s);
    BlockIs(s, i, if high then 2 * q + 1 else 2 * q, r);
  }

  lemma {:induction false} HalveMask(s: nat, i: nat)
    requires IsBlock(s) && IsBlock(2 * s)
    ensures ((Block(2 * s, i) % 2 == 0) != (i >= s && Block(2 * s, i - s) % 2 == 0)) == (Block(s, i) % 2 == 0)
  {
    hide Block;
    var q, m, high, r := Halves(s, i);
    if high {
      BlockIs(2 * s, i - s, q, r);
    } else if q > 0 {
      MulGe(q, 1, 2 * s);
      assert (q - 1) * (2 * s) == m - 2 * s;
      BlockIs(2 * s, i - s, q - 1, r + s);
    }
  }

  /** The bit of the other half of its block of 2s bits that bit i is swapped with. */
  function Flip(s: nat, i: nat): int
    requires IsBlock(s)
  {
    if Block(s, i) % 2 == 0 then i + s else i - s
  }

  lemma FlipInRange(s: nat, i: nat)
    requires IsBlock(s) && IsBlock(2 * s) && i < WIDTH
    ensures 0 <= Flip(s, i) < WIDTH
  {
    var q, m, high, r := Halves(s, i);
    var c := WIDTH / (2 * s);
    assert c * (2 * s) == WIDTH;
    assert q < c;
    MulGe(c, q + 1, 2 * s);
    assert (q + 1) * (2 * s) == m + 2 * s;
  }

  /** Where the bit at i comes from when every swap from blocks of 32 bits down to blocks of t bits is done. */
  function Source(t: nat, i: nat): (j: nat)
    requires IsBlock(t) && i < WIDTH
    ensures j < WIDTH
    decreases WIDTH - t
  {
    if t == WIDTH then i else
      FlipInRange(t, i);
      Source(2 * t, Flip(t, i))
  }

  ghost predicate Swapped(t: nat, word: Word, v: Word)
    requires IsBlock(t)
  {
    forall i :: 0 <= i < WIDTH ==> v[i] == word[Source(t, i)]
  }

  lemma SwapHalves(s: nat, word: Word, v: Word, mask: Word, u: Word)
    requires IsBlock(s) && IsBlock(2 * s)
    requires Swapped(2 * s, word, v)
    requires forall i :: 0 <= i < WIDTH ==> mask[i] == (Block(s, i) % 2 == 0)
    requires u == Or(And(Shr(v, s), mask), And(Shl(v, s), Not(mask)))
    ensures Swapped(s, word, u)
  {
    forall i | 0 <= i < WIDTH ensures u[i] == word[Source(s, i)] {
      FlipInRange(s, i);
      assert v[Flip(s, i)] == word[Source(2 * s, Flip(s, i))];
    }
  }

  lemma SourceOne(i: nat)
    requires i < WIDTH
    ensures Source(1, i) == 63 - i
  {
    var i1 := SourceStep(1, i, i);
    var i2 := SourceStep(2, i, i1);
    var i4 := SourceStep(4, i, i2);
    var i8 := SourceStep(8, i, i4);
    var i16 := SourceStep(16, i, i8);
    var i32 := SourceStep(32, i, i16);
    BlockIs(64, i, 0, i);
    assert Source(64, i32) == 63 - i;
  }

  /** If j is i mirrored inside its block of s bits, then flipping s mirrors i inside its block of 2s bits. */
  lemma {:induction false} MirrorFlip(s: nat, i: nat, j: nat)
    requires IsBlock(s) && IsBlock(2 * s)
    requires j == 2 * Start(s, i) + s - 1 - i
    ensures Flip(s, j) == 2 * Start(2 * s, i) + 2 * s - 1 - i
  {
    var q, m, high, r := Halves(s, i);
    BlockIs(s, j, if high then 2 * q + 1 else 2 * q, s - 1 - r);
  }

  lemma SourceStep(s: nat, i: nat, j: nat) returns (k: nat)
    requires IsBlock(s) && IsBlock(2 * s) && j < WIDTH
    requires j == 2 * Start(s, i) + s - 1 - i
    ensures k < WIDTH && Source(s, j) == Source(2 * s, k)
    ensures k == 2 * Start(2 * s, i) + 2 * s - 1 - i
  {
    FlipInRange(s, j);
    MirrorFlip(s, i, j);
    k := Flip(s, j);
  }

  /** `rev`: reverses a word by swapping ever smaller adjacent blocks of bits. */
  method Rev(word: Word) returns (v: Word)
    ensures v == Reverse(word)
  {
    v := word;
    var s: nat := WIDTH / 2;
    var mask := Ones(WIDTH);
    while s > 0
      invariant s == 0 || IsBlock(2 * s)
      invariant |mask| == WIDTH
      invariant s > 0 ==> Swapped(2 * s, word, v)
      invariant s > 0 ==> forall i :: 0 <= i < WIDTH ==> mask[i] == (Block(2 * s, i) % 2 == 0)
      invariant s == 0 ==> Swapped(1, word, v)
      decreases s
    {
      var half := Xor(mask, Shl(mask, s));
      forall i | 0 <= i < WIDTH ensures half[i] == (Block(s, i) % 2 == 0) {
        HalveMask(s, i);
      }
      mask := half;
      var u := Or(And(Shr(v, s), mask), And(Shl(v, s), Not(mask)));
      SwapHalves(s, word, v, mask, u);
      v := u;
      s := s / 2;
    }
    forall i | 0 <= i < WIDTH ensures v[i] == Reverse(word)[i] {
      SourceOne(i);
    }
  }
}
