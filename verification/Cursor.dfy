/**
 The arithmetic of the stateless scan cursor of dict.c: which buckets one call
 visits, where the next cursor lies, and when a call leaves no hash behind.

 Cursors and hashes are ordered by `RevVal`, the value of their reversed bits.
 The sizes of the tables are given by their exponents: a table of exponent k
 has 2^k buckets.
 */
module Cursor {
  import opened Words

  /** `v |= ~m0; v = rev(v); v++; v = rev(v);` */
  function NextCursor(v: Word, m0: Word): Word {
    Reverse(Inc(Reverse(Or(v, Not(m0)))))
  }

  /** `v = (((v | m0) + 1) & ~m0) | (v & m0);` */
  function NextExpansion(v: Word, m0: Word): Word {
    Or(And(Inc(Or(v, m0)), Not(m0)), And(v, m0))
  }

  /** The low k bits of a cursor, incremented from their most significant end. */
  function Bump(p: Bits): (r: Bits)
    ensures |r| == |p|
  {
    Reverse(Inc(Reverse(p)))
  }

  lemma BumpVal(p: Bits)
    ensures RevVal(Bump(p)) == if RevVal(p) + 1 == Pow2(|p|) then 0 else RevVal(p) + 1
  {
    ReverseReverse(Inc(Reverse(p)));
    ValInc(Reverse(p));
  }

  lemma NextCursorBits(v: Word, k: nat)
    requires k <= WIDTH
    ensures NextCursor(v, MaskOf(Pow2(k))) == Bump(v[..k]) + Zeros(WIDTH - k)
  {
    MaskOfPow2(k);
    var u := Or(v, Not(MaskOf(Pow2(k))));
    assert u == v[..k] + Ones(WIDTH - k);
    ReverseConcat(v[..k], Ones(WIDTH - k));
    assert Reverse(u) == Ones(WIDTH - k) + Reverse(v[..k]);
    IncOnes(WIDTH - k, Reverse(v[..k]));
    ReverseConcat(Zeros(WIDTH - k), Inc(Reverse(v[..k])));
    assert Reverse(Zeros(WIDTH - k)) == Zeros(WIDTH - k);
  }

  lemma {:induction false} IncPrefix(a: Bits, n: nat)
    requires n <= |a|
    ensures Inc(a)[..n] == Inc(a[..n])
  {
    if n > 0 {
      IncPrefix(a[1..], n - 1);
      assert a[..n][1..] == a[1..][..n - 1];
    }
  }

  lemma NextExpansionBits(v: Word, k: nat)
    requires k <= WIDTH
    ensures NextExpansion(v, MaskOf(Pow2(k))) == v[..k] + Inc(v[k..])
  {
    hide Pow2, MaskOf;
    MaskOfPow2(k);
    assert Or(v, MaskOf(Pow2(k))) == Ones(k) + v[k..];
    IncOnes(k, v[k..]);
  }

  /** `v & (m0 ^ m1)` is zero just when the bits between the two masks are. */
  lemma MaskDifference(v: Word, k0: nat, k1: nat)
    requires k0 <= k1 <= WIDTH
    ensures And(v, Xor(MaskOf(Pow2(k0)), MaskOf(Pow2(k1)))) == Zeros(WIDTH) <==> Val(v[k0..k1]) == 0
  {
    hide Val, Pow2, MaskOf;
    MaskOfPow2(k0);
    MaskOfPow2(k1);
    var d := And(v, Xor(MaskOf(Pow2(k0)), MaskOf(Pow2(k1))));
    assert forall i :: 0 <= i < WIDTH ==> d[i] == (k0 <= i < k1 && v[i]);
    ValZeros(k1 - k0);
    if d == Zeros(WIDTH) {
      forall i | 0 <= i < k1 - k0 ensures !v[k0..k1][i] {
        assert !d[k0 + i];
      }
      assert v[k0..k1] == Zeros(k1 - k0);
    }
    if Val(v[k0..k1]) == 0 {
      ValInjective(v[k0..k1], Zeros(k1 - k0));
      forall i | 0 <= i < WIDTH ensures !d[i] {
        if k0 <= i < k1 {
          assert v[k0..k1][i - k0] == v[i];
        }
      }
    }
  }

  // ----- progress -----

  /** Every call either ends the scan or moves the cursor strictly forward. */
  lemma CursorAdvances(v: Word, k: nat)
    requires k <= WIDTH
    ensures var n := NextCursor(v, MaskOf(Pow2(k)));
            n == Zeros(WIDTH) || RevVal(n) > RevVal(v)
  {
    hide Val, Reverse, Pow2;
    NextCursorValue(v, k);
    var n := NextCursor(v, MaskOf(Pow2(k)));
    SplitAt(v, k);
    if RevVal(v[..k]) + 1 == Pow2(k) {
      ReverseZeros(WIDTH);
      RevValInjective(n, Zeros(WIDTH));
    } else {
      Distribute(RevVal(v[..k]), Pow2(WIDTH - k));
    }
  }

  lemma ReverseZeros(n: nat)
    ensures RevVal(Zeros(n)) == 0
  {
    assert Reverse(Zeros(n)) == Zeros(n);
    ValZeros(n);
  }

  lemma Distribute(a: nat, p: nat)
    ensures (a + 1) * p == a * p + p
  {
  }

  lemma SplitAt(v: Bits, k: nat)
    requires k <= |v|
    ensures RevVal(v) == RevVal(v[..k]) * Pow2(|v| - k) + RevVal(v[k..])
    ensures RevVal(v[k..]) < Pow2(|v| - k)
    ensures RevVal(v[..k]) < Pow2(k)
  {
    assert v == v[..k] + v[k..];
    RevValConcat(v[..k], v[k..]);
    ValBound(Reverse(v[k..]));
    ValBound(Reverse(v[..k]));
  }

  /** The next cursor is the least one, in reversed order, above every word that shares v's low k bits. */
  lemma NextCursorValue(v: Word, k: nat)
    requires k <= WIDTH
    ensures var n := NextCursor(v, MaskOf(Pow2(k)));
            RevVal(n) == if RevVal(v[..k]) + 1 == Pow2(k) then 0 else (RevVal(v[..k]) + 1) * Pow2(WIDTH - k)
  {
    NextCursorBits(v, k);
    BumpVal(v[..k]);
    RevValConcat(Bump(v[..k]), Zeros(WIDTH - k));
    ReverseZeros(WIDTH - k);
  }

  /** A cursor of at most k bits stands at a multiple of 2^(64 - k) in reversed order. */
  lemma CursorStride(v: Word, k0: nat, k: nat) returns (e: nat)
    requires k0 <= k <= WIDTH
    ensures RevVal(NextCursor(v, MaskOf(Pow2(k0)))) == e * Pow2(WIDTH - k)
  {
    NextCursorValue(v, k0);
    hide *;
    if RevVal(v[..k0]) + 1 == Pow2(k0) {
      e := 0;
    } else {
      Pow2Add(k - k0, WIDTH - k);
      assert (k - k0) + (WIDTH - k) == WIDTH - k0;
      e := (RevVal(v[..k0]) + 1) * Pow2(k - k0);
      MulAssoc(RevVal(v[..k0]) + 1, Pow2(k - k0), Pow2(WIDTH - k));
    }
  }

  lemma MulAssoc(a: nat, b: nat, c: nat)
    ensures a * (b * c) == (a * b) * c
  {
  }

  // ----- coverage -----

  /** h lies in the gap that a call at cursor v, with smaller exponent k, moves the cursor over. */
  ghost predicate InGap(h: Word, v: Word, k: nat)
    requires k <= WIDTH
  {
    var n := NextCursor(v, MaskOf(Pow2(k)));
    RevVal(v) <= RevVal(h) && (n == Zeros(WIDTH) || RevVal(h) < RevVal(n))
  }

  lemma {:induction false} OrderedPrefix(a: Bits, b: Bits, k: nat)
    requires |a| == |b| && k <= |a| && RevVal(a) <= RevVal(b)
    ensures RevVal(a[..k]) <= RevVal(b[..k])
    ensures a[..k] == b[..k] ==> RevVal(a[k..]) <= RevVal(b[k..])
  {
    hide Val, Reverse, Pow2;
    SplitAt(a, k);
    SplitAt(b, k);
    var p := Pow2(|a| - k);
    if RevVal(a[..k]) > RevVal(b[..k]) {
      MulGe(RevVal(a[..k]), RevVal(b[..k]) + 1, p);
      Distribute(RevVal(b[..k]), p);
    }
  }

  /** The gap is exactly the words from v on that agree with v on the smaller table's bits. */
  lemma {:induction false} GapIsBucket(h: Word, v: Word, k: nat)
    requires k <= WIDTH
    ensures InGap(h, v, k) <==> h[..k] == v[..k] && RevVal(v) <= RevVal(h)
  {
    hide Val, Reverse, Pow2;
    var n := NextCursor(v, MaskOf(Pow2(k)));
    NextCursorValue(v, k);
    SplitAt(h, k);
    SplitAt(v, k);
    ReverseZeros(WIDTH);
    var a, b, p := RevVal(v[..k]), RevVal(h[..k]), Pow2(WIDTH - k);
    Distribute(a, p);
    if InGap(h, v, k) {
      OrderedPrefix(v, h, k);
      if b > a {
        MulGe(b, a + 1, p);
      }
      RevValInjective(h[..k], v[..k]);
    }
    if h[..k] == v[..k] && RevVal(v) <= RevVal(h) && n != Zeros(WIDTH) && a + 1 == Pow2(k) {
      RevValInjective(n, Zeros(WIDTH));
      assert false;
    }
  }

  /** A call with tables of exponents k0 <= k1 visits the bucket of h in the larger table. */
  predicate VisitsLarge(h: Word, v: Word, k0: nat, k1: nat)
    requires k0 <= k1 <= WIDTH
  {
    h[..k0] == v[..k0] && Val(h[k0..k1]) >= Val(v[k0..k1])
  }

  /** Bits 1...10...0, least significant first: a number of the form 2^j - 1. */
  predicate LowRun(y: Bits) {
    forall i, j :: 0 <= i < j < |y| && y[j] ==> y[i]
  }

  lemma {:induction false} LowRunShape(y: Bits) returns (j: nat)
    requires LowRun(y)
    ensures j <= |y| && y == Ones(j) + Zeros(|y| - j)
  {
    if y == [] || !y[0] {
      j := 0;
      assert y == Zeros(|y|);
    } else {
      assert LowRun(y[1..]) by {
        assert forall i :: 0 <= i < |y| - 1 ==> y[1..][i] == y[i + 1];
      }
      j := LowRunShape(y[1..]);
      assert y == [true] + y[1..];
      assert Ones(j + 1) == [true] + Ones(j);
      j := j + 1;
    }
  }

  /** Among words of one length, one at or after 1...10...0 in reversed order is not smaller in value. */
  lemma {:induction false} LowRunLeast(x: Bits, y: Bits)
    requires |x| == |y| && LowRun(y) && RevVal(y) <= RevVal(x)
    ensures Val(y) <= Val(x)
  {
    hide Val, Reverse, Pow2;
    var j := LowRunShape(y);
    OrderedPrefix(y, x, j);
    assert y[..j] == Ones(j);
    assert Reverse(Ones(j)) == Ones(j);
    ValOnes(j);
    ValBound(Reverse(x[..j]));
    RevValInjective(x[..j], y[..j]);
    assert x == x[..j] + x[j..];
    ValConcat(x[..j], x[j..]);
    ValConcat(Ones(j), Zeros(|y| - j));
    ValZeros(|y| - j);
    MulGe(Val(x[j..]), 0, Pow2(j));
  }

  /** A word with a 0 below a 1 has a later word in reversed order that is smaller in value. */
  lemma {:induction false} Skipped(y: Bits, i: nat, j: nat) returns (x: Bits)
    requires i < j < |y| && !y[i] && y[j]
    ensures |x| == |y| && RevVal(x) > RevVal(y) && Val(x) < Val(y)
  {
    hide Val, Reverse, Pow2;
    x := y[i := true][j := false];
    assert x[..i] == y[..i] && x[j + 1..] == y[j + 1..];
    // reversed order: the first differing bit decides
    assert x[i..][..1] == [true] && y[i..][..1] == [false];
    RevValSingle();
    SplitAt(x, i);
    SplitAt(y, i);
    SplitAt(x[i..], 1);
    SplitAt(y[i..], 1);
    // value: the last differing bit decides
    assert x == x[..j] + [false] + x[j + 1..];
    assert y == y[..j] + [true] + y[j + 1..];
    TopBit(x[..j], y[..j], y[j + 1..]);
  }

  lemma RevValSingle()
    ensures RevVal([true]) == 1 && RevVal([false]) == 0
  {
    assert Reverse([true]) == [true] && Reverse([false]) == [false];
    assert Val([true]) == 1 && Val([false]) == 0;
  }

  lemma {:induction false} TopBit(a: Bits, b: Bits, c: Bits)
    requires |a| == |b|
    ensures Val(a + [false] + c) < Val(b + [true] + c)
  {
    hide Val, Pow2;
    assert a + [false] + c == a + ([false] + c);
    assert b + [true] + c == b + ([true] + c);
    ValConcat(a, [false] + c);
    ValConcat(b, [true] + c);
    ValCons(false, c);
    ValCons(true, c);
    Distribute(2 * Val(c), Pow2(|a|));
    ValBound(a);
  }

  lemma ValCons(b: bool, c: Bits)
    ensures Val([b] + c) == BitVal(b) + 2 * Val(c)
  {
    assert ([b] + c)[1..] == c;
  }

  /**
   A call made while rehashing visits every bucket of the larger table that
   holds a hash of its gap if and only if the cursor bits between the two masks
   read 1...10...0.
   */
  lemma CallCoversGap(v: Word, k0: nat, k1: nat)
    requires k0 <= k1 <= WIDTH
    ensures (forall h: Word :: InGap(h, v, k0) ==> VisitsLarge(h, v, k0, k1)) <==> LowRun(v[k0..k1])
  {
    if LowRun(v[k0..k1]) {
      forall h: Word | InGap(h, v, k0) ensures VisitsLarge(h, v, k0, k1) {
        LowRunCovers(h, v, k0, k1);
      }
    } else {
      var h := MissedHash(v, k0, k1);
    }
  }

  lemma LowRunCovers(h: Word, v: Word, k0: nat, k1: nat)
    requires k0 <= k1 <= WIDTH && LowRun(v[k0..k1]) && InGap(h, v, k0)
    ensures VisitsLarge(h, v, k0, k1)
  {
    GapIsBucket(h, v, k0);
    OrderedPrefix(v, h, k0);
    OrderedPrefix(v[k0..], h[k0..], k1 - k0);
    assert v[k0..][..k1 - k0] == v[k0..k1] && h[k0..][..k1 - k0] == h[k0..k1];
    LowRunLeast(h[k0..k1], v[k0..k1]);
  }

  /** Otherwise there is a hash that it leaves behind, and one with no more bits than the larger table uses. */
  lemma MissedHash(v: Word, k0: nat, k1: nat) returns (h: Word)
    requires k0 <= k1 <= WIDTH && !LowRun(v[k0..k1])
    ensures InGap(h, v, k0) && !VisitsLarge(h, v, k0, k1)
    ensures forall i :: k1 <= i < WIDTH ==> !h[i]
  {
    hide Val, Reverse, Pow2;
    var y := v[k0..k1];
    var i, j :| 0 <= i < j < |y| && y[j] && !y[i];
    var x := Skipped(y, i, j);
    h := v[..k0] + x + Zeros(WIDTH - k1);
    assert h[..k0] == v[..k0] && h[k0..k1] == x;
    assert h[k0..][..k1 - k0] == x && v[k0..][..k1 - k0] == y;
    SplitAt(v, k0);
    SplitAt(h, k0);
    if RevVal(v[k0..]) > RevVal(h[k0..]) {
      OrderedPrefix(h[k0..], v[k0..], k1 - k0);
    }
    GapIsBucket(h, v, k0);
  }

  /** A cursor produced by a smaller table not larger than the present one has only zeros between the masks. */
  lemma FreshCursorIsLowRun(v: Word, k: nat, k0: nat, k1: nat)
    requires k <= k0 <= k1 <= WIDTH
    ensures LowRun(NextCursor(v, MaskOf(Pow2(k)))[k0..k1])
  {
    NextCursorBits(v, k);
  }
}
