/**
 HyperLogLog objects: an object stands for the pointwise maximum, over the set
 of all elements ever added, of their zero-run lengths, whatever its encoding.

 Elements are given by their 64-bit hashes; the hash function and the
 floating-point estimate computed from the registers are parameters.
 */
module Hll {
  import opened Words
  import opened Basics
  import opened HllDense
  import opened HllSparse

  type Hash = Word

  const HDR_SIZE: nat := 16
  const P: nat := 14

  // ----- the pattern length of a hash -----

  /** The word with only bit n set. */
  function OneHot(n: nat): Word
    requires n < WIDTH
  {
    Zeros(n) + [true] + Zeros(WIDTH - n - 1)
  }

  /** The register of an element: the low 14 bits of its hash. */
  function RegIndex(h: Hash): (i: nat)
    ensures i < REGISTERS
  {
    IndexLow(h, P);
    SizeOf14Bits();
    Index(h, REGISTERS)
  }

  lemma SizeOf14Bits()
    ensures Pow2(14) == REGISTERS
  {
    assert Pow2(4) == 16 by { assert Pow2(2) == 4; }
    assert Pow2(8) == 256 by { assert Pow2(6) == 64; }
    assert Pow2(12) == 4096 by { assert Pow2(10) == 1024; }
  }

  /** The first set bit of h from bit j on, or 63. */
  function FirstSet(h: Hash, j: nat): (n: nat)
    requires j < WIDTH
    ensures j <= n < WIDTH && (forall i :: j <= i < n ==> !h[i]) && (n < WIDTH - 1 ==> h[n])
    decreases WIDTH - j
  {
    if j == WIDTH - 1 || h[j] then j else FirstSet(h, j + 1)
  }

  /** The length of the pattern 0...01 above the index bits; a hash with no 1 there counts up to its top bit. */
  function PatLen(h: Hash): (c: nat)
    ensures 1 <= c <= WIDTH - P && (forall i :: P <= i < P + c - 1 ==> !h[i])
    ensures c < WIDTH - P ==> h[P + c - 1]
  {
    FirstSet(h, P) - P + 1
  }

  function PatByte(h: Hash): (c: Byte)
    ensures c != 0 && c <= 63
  {
    PositiveByte(PatLen(h));
    PatLen(h) as bv8
  }

  /** The register of an element is the number in its 14 low bits. */
  lemma RegIndexMeans(h: Hash)
    ensures RegIndex(h) == Val(h[..P])
  {
    hide Val, Pow2;
    IndexLow(h, P);
    SizeOf14Bits();
  }

  /** Its value there is the position, from 1 on, of the first 1 above the index bits. */
  lemma PatternMeans(h: Hash, n: nat)
    requires 1 <= n < WIDTH - P
    ensures PatByte(h) as nat == n <==> h[P + n - 1] && forall i :: P <= i < P + n - 1 ==> !h[i]
  {
    PatByteIsLength(h);
    hide *;
    var c := PatLen(h);
    if h[P + n - 1] && forall i :: P <= i < P + n - 1 ==> !h[i] {
      assert !(c > n) && !(c < n);
    }
  }

  lemma PatByteIsLength(h: Hash)
    ensures PatByte(h) as nat == PatLen(h)
  {
    PositiveByte(PatLen(h));
    hide PatLen;
  }

  lemma PositiveByte(n: nat)
    requires 1 <= n <= 63
    ensures (n as bv8) != 0 && (n as bv8) <= 63 && (n as bv8) as nat == n
  {
  }

  /** hllPatLen: counts the zeros above the index bits one by one, with the top bit set to make the loop end. */
  method ComputePatLen(h: Hash) returns (index: nat, count: nat)
    ensures index == RegIndex(h) && count == PatLen(h)
  {
    index := Index(h, REGISTERS);
    assert OneHot(WIDTH - 1) == Zeros(WIDTH - 1) + [true];
    var hash := Or(h, OneHot(WIDTH - 1));
    assert hash[WIDTH - 1] && forall i :: 0 <= i < WIDTH - 1 ==> hash[i] == h[i];
    hide And, Shl, Zeros, OneHot, Index, Or;
    var bit := OneHot(P);
    count := 1;
    while And(hash, bit) == Zeros(WIDTH)
      invariant 1 <= count <= WIDTH - P && bit == OneHot(P + count - 1)
      invariant FirstSet(h, P) == FirstSet(h, P + count - 1)
      decreases WIDTH - P - count
    {
      TestBit(hash, P + count - 1);
      ShiftOneHot(P + count - 1);
      count := count + 1;
      bit := Shl(bit, 1);
    }
    TestBit(hash, P + count - 1);
  }

  lemma ShiftOneHot(n: nat)
    requires n < WIDTH - 1
    ensures Shl(OneHot(n), 1) == OneHot(n + 1)
  {
  }

  lemma TestBit(h: Hash, n: nat)
    requires n < WIDTH
    ensures And(h, OneHot(n)) == Zeros(WIDTH) <==> !h[n]
  {
    var d := And(h, OneHot(n));
    assert d[n] == h[n];
    if !h[n] {
      assert forall i :: 0 <= i < WIDTH ==> !d[i];
    }
  }

  // ----- what a set of elements means -----

  /** What one element does to the registers. */
  function Observe(r: Registers, h: Hash): Registers {
    var c := PatByte(h);
    if c > r[RegIndex(h)] then r[RegIndex(h) := c] else r
  }

  /** Each register holds the greatest pattern length of the elements that fall into it, or zero. */
  ghost predicate IsMaximum(r: Registers, s: set<Hash>) {
    && (forall h :: h in s ==> PatByte(h) <= r[RegIndex(h)])
    && (forall i :: 0 <= i < REGISTERS && r[i] != 0 ==> Reached(r, s, i))
  }

  ghost predicate Reached(r: Registers, s: set<Hash>, i: nat)
    requires i < REGISTERS
  {
    exists h :: h in s && RegIndex(h) == i && PatByte(h) == r[i]
  }

  function NoRegisters(): Registers {
    seq(REGISTERS, _ => 0)
  }

  lemma EmptyIsMaximum()
    ensures IsMaximum(NoRegisters(), {})
  {
  }

  lemma ObserveIsMaximum(r: Registers, s: set<Hash>, h: Hash)
    requires IsMaximum(r, s)
    ensures IsMaximum(Observe(r, h), s + {h})
  {
    hide PatByte, RegIndex;
    var q := Observe(r, h);
    forall i | 0 <= i < REGISTERS && q[i] != 0 ensures Reached(q, s + {h}, i) {
      if q[i] == r[i] {
        var g :| g in s && RegIndex(g) == i && PatByte(g) == r[i];
        assert g in s + {h};
      } else {
        assert h in s + {h};
      }
    }
  }

  /** A set of elements determines the registers: order and repetition of the adds do not matter. */
  lemma MaximumIsUnique(r: Registers, q: Registers, s: set<Hash>)
    requires IsMaximum(r, s) && IsMaximum(q, s)
    ensures r == q
  {
    forall i | 0 <= i < REGISTERS ensures r[i] == q[i] {
      if r[i] != 0 {
        assert Reached(r, s, i);
      }
      if q[i] != 0 {
        assert Reached(q, s, i);
      }
    }
  }

  function MaxByte(a: Byte, b: Byte): Byte {
    if b > a then b else a
  }

  function Union(r: Registers, q: Registers): Registers {
    seq(REGISTERS, i requires 0 <= i < REGISTERS => MaxByte(r[i], q[i]))
  }

  /** Merging registers gives the registers of the union of the two sets of elements. */
  lemma UnionIsMaximum(r: Registers, s: set<Hash>, q: Registers, t: set<Hash>)
    requires IsMaximum(r, s) && IsMaximum(q, t)
    ensures IsMaximum(Union(r, q), s + t)
  {
    hide PatByte, RegIndex;
    var u := Union(r, q);
    forall i | 0 <= i < REGISTERS && u[i] != 0 ensures Reached(u, s + t, i) {
      if u[i] == r[i] {
        var g :| g in s && RegIndex(g) == i && PatByte(g) == r[i];
        assert g in s + t;
      } else {
        assert Reached(q, t, i);
        var g :| g in t && RegIndex(g) == i && PatByte(g) == q[i];
        assert g in s + t;
      }
    }
  }

  function Elements(hs: seq<Hash>): set<Hash> {
    set h | h in hs
  }

  function ObserveAll(r: Registers, hs: seq<Hash>): Registers {
    if hs == [] then r else Observe(ObserveAll(r, hs[..|hs| - 1]), hs[|hs| - 1])
  }

  /** Any sequence of adds ends in the pointwise maximum over the set of the elements added. */
  lemma {:induction false} AddsReachMaximum(r: Registers, s: set<Hash>, hs: seq<Hash>)
    requires IsMaximum(r, s)
    ensures IsMaximum(ObserveAll(r, hs), s + Elements(hs))
  {
    hide IsMaximum, Observe;
    if hs == [] {
      assert s + Elements(hs) == s;
    } else {
      var n := |hs| - 1;
      AddsReachMaximum(r, s, hs[..n]);
      ObserveIsMaximum(ObserveAll(r, hs[..n]), s + Elements(hs[..n]), hs[n]);
      assert hs == hs[..n] + [hs[n]];
      assert Elements(hs) == Elements(hs[..n]) + {hs[n]};
      assert s + Elements(hs) == s + Elements(hs[..n]) + {hs[n]};
    }
  }

  /** Two sequences of adds with the same elements, in any order and number, give the same registers. */
  lemma AddsCommute(r: Registers, s: set<Hash>, hs: seq<Hash>, gs: seq<Hash>)
    requires IsMaximum(r, s) && Elements(hs) == Elements(gs)
    ensures ObserveAll(r, hs) == ObserveAll(r, gs)
  {
    AddsReachMaximum(r, s, hs);
    AddsReachMaximum(r, s, gs);
    MaximumIsUnique(ObserveAll(r, hs), ObserveAll(r, gs), s + Elements(hs));
  }
}
