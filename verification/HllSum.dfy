/**
 The harmonic sums behind the cardinality estimate, in exact arithmetic: the
 unrolled loop over the dense bytes, the run-length sum over the sparse opcodes
 and the word-skipping sum over one byte per register all compute the same
 sum of 2^-register and the same number of zero registers.
 */
module HllSum {
  import opened Basics
  import opened HllDense
  import opened HllSparse

  /** The table PE: 2^-r for each register value r, with PE[0] = 1. */
  type Powers = f: Byte -> real | f(0) == 1.0 witness ((b: Byte) => 1.0)

  function Sum(r: seq<Byte>, pe: Powers): real {
    if r == [] then 0.0 else Sum(r[..|r| - 1], pe) + pe(r[|r| - 1])
  }

  function ZeroCount(r: seq<Byte>): nat {
    if r == [] then 0 else ZeroCount(r[..|r| - 1]) + if r[|r| - 1] == 0 then 1 else 0
  }

  /** One register adds its own power, zero registers too; with SumConcat this determines both sums. */
  lemma SumOfOne(b: Byte, pe: Powers)
    ensures Sum([b], pe) == pe(b) && ZeroCount([b]) == (if b == 0 then 1 else 0) && Sum([], pe) == 0.0 && ZeroCount([]) == 0
  {
    assert [b][..0] == [];
  }

  lemma {:induction false} SumConcat(a: seq<Byte>, b: seq<Byte>, pe: Powers)
    ensures Sum(a + b, pe) == Sum(a, pe) + Sum(b, pe) && ZeroCount(a + b) == ZeroCount(a) + ZeroCount(b)
  {
    if b == [] {
      assert a + b == a;
    } else {
      assert (a + b)[..|a + b| - 1] == a + b[..|b| - 1];
      SumConcat(a, b[..|b| - 1], pe);
    }
  }

  lemma {:induction false} SumRepeat(v: Byte, n: nat, pe: Powers)
    ensures Sum(Repeat(v, n), pe) == pe(v) * n as real && ZeroCount(Repeat(v, n)) == if v == 0 then n else 0
  {
    if n > 0 {
      assert Repeat(v, n)[..n - 1] == Repeat(v, n - 1);
      SumRepeat(v, n - 1, pe);
      assert pe(v) * n as real == pe(v) * (n - 1) as real + pe(v);
    }
  }

  lemma {:induction false} SumOne(r: seq<Byte>, n: nat, pe: Powers)
    requires n < |r|
    ensures Sum(r[..n + 1], pe) == Sum(r[..n], pe) + pe(r[n]) && ZeroCount(r[..n + 1]) == ZeroCount(r[..n]) + IsNil(r[n])
  {
    assert r[..n + 1][..n] == r[..n];
  }

  /** Four more registers. */
  lemma {:induction false} SumFour(r: seq<Byte>, n: nat, pe: Powers)
    requires n + 4 <= |r|
    ensures Sum(r[..n + 4], pe) == Sum(r[..n], pe) + pe(r[n]) + pe(r[n + 1]) + pe(r[n + 2]) + pe(r[n + 3])
    ensures ZeroCount(r[..n + 4]) == ZeroCount(r[..n]) + IsNil(r[n]) + IsNil(r[n + 1]) + IsNil(r[n + 2]) + IsNil(r[n + 3])
  {
    hide Sum, ZeroCount;
    SumOne(r, n, pe);
    SumOne(r, n + 1, pe);
    SumOne(r, n + 2, pe);
    SumOne(r, n + 3, pe);
  }

  function IsNil(b: Byte): nat {
    if b == 0 then 1 else 0
  }

  // ----- dense -----

  /** The four registers packed in three bytes, by the shifts of the unrolled loop. */
  function Unrolled(b0: Byte, b1: Byte, b2: Byte, k: nat): Byte
    requires k < 4
  {
    match k
    case 0 => b0 & 63
    case 1 => ((b0 >> 6) | (b1 << 2)) & 63
    case 2 => ((b1 >> 4) | (b2 << 4)) & 63
    case _ => (b2 >> 2) & 63
  }

  lemma UnrolledIsQuad(b0: Byte, b1: Byte, b2: Byte, b3: Byte, k: nat)
    requires k < 4
    ensures Unrolled(b0, b1, b2, k) == Quad(b0, b1, b2, b3, k)
  {
    if k == 0 {} else if k == 1 {} else if k == 2 {} else {}
  }

  lemma {:induction false} UnrolledGroup(p: Packed, g: nat, k: nat)
    requires 4 * g + 4 <= REGISTERS && k < 4
    ensures Unpack(p)[4 * g + k] == Unrolled(p[3 * g], p[3 * g + 1], p[3 * g + 2], k)
  {
    hide Unrolled, Quad, GetRegister;
    InGroup(p, 4 * g + k);
    assert (4 * g + k) / 4 == g && (4 * g + k) % 4 == k;
    UnrolledIsQuad(p[3 * g], p[3 * g + 1], p[3 * g + 2], p[3 * g + 3], k);
  }

  /** One group of three bytes in the unrolled loop. */
  method AddGroup(p: Packed, g: nat, pe: Powers, E: real, ez: nat) returns (E': real, ez': nat)
    requires 4 * g + 4 <= REGISTERS
    requires E == Sum(Unpack(p)[..4 * g], pe) && ez == ZeroCount(Unpack(p)[..4 * g])
    ensures E' == Sum(Unpack(p)[..4 * g + 4], pe) && ez' == ZeroCount(Unpack(p)[..4 * g + 4])
  {
    hide Sum, ZeroCount, Unpack, Unrolled, IsNil;
    var b0, b1, b2 := p[3 * g], p[3 * g + 1], p[3 * g + 2];
    var r0, r1, r2, r3 := Unrolled(b0, b1, b2, 0), Unrolled(b0, b1, b2, 1), Unrolled(b0, b1, b2, 2), Unrolled(b0, b1, b2, 3);
    UnrolledGroup(p, g, 0);
    UnrolledGroup(p, g, 1);
    UnrolledGroup(p, g, 2);
    UnrolledGroup(p, g, 3);
    SumFour(Unpack(p), 4 * g, pe);
    ez' := ez + IsNil(r0) + IsNil(r1) + IsNil(r2) + IsNil(r3);
    E' := E + ((pe(r0) + pe(r1)) + (pe(r2) + pe(r3)));
  }

  /** hllDenseSum: 16 registers, that is four groups of three bytes, per turn. */
  method DenseSum(p: Packed, pe: Powers) returns (E: real, ez: nat)
    ensures E == Sum(Unpack(p), pe) && ez == ZeroCount(Unpack(p))
  {
    hide Unpack;
    E, ez := 0.0, 0;
    assert Unpack(p)[..0] == [];
    var j := 0;
    while j < 1024
      invariant 0 <= j <= 1024
      invariant E == Sum(Unpack(p)[..16 * j], pe) && ez == ZeroCount(Unpack(p)[..16 * j])
    {
      hide Sum, ZeroCount;
      E, ez := AddGroup(p, 4 * j, pe, E, ez);
      E, ez := AddGroup(p, 4 * j + 1, pe, E, ez);
      E, ez := AddGroup(p, 4 * j + 2, pe, E, ez);
      E, ez := AddGroup(p, 4 * j + 3, pe, E, ez);
      j := j + 1;
    }
    assert Unpack(p)[..16 * j] == Unpack(p);
  }

  // ----- sparse -----

  /** What the opcode at p adds to the sum and to the zero count. */
  lemma NextRun(s: seq<Byte>, p: nat, pe: Powers)
    requires p < |s| && Parses(s[..p]) && Parses(s)
    ensures HasOp(s[p..]) && Parses(s[..p + OpLen(s[p..])])
    ensures var r, q := Decode(s[..p]), Decode(s[..p + OpLen(s[p..])]);
            var v, n := OpValue(s[p..]), OpSpan(s[p..]);
            && Sum(q, pe) == Sum(r, pe) + pe(v) * n as real
            && ZeroCount(q) == ZeroCount(r) + if v == 0 then n else 0
  {
    hide Parses, Decode, Sum, ZeroCount, Repeat, OpValue, OpSpan;
    ParsesSnoc(s, p);
    SumConcat(Decode(s[..p]), Repeat(OpValue(s[p..]), OpSpan(s[p..])), pe);
    SumRepeat(OpValue(s[p..]), OpSpan(s[p..]), pe);
  }

  /** hllSparseSum: whole runs at a time, the zero runs added at the end. */
  method SparseSum(s: seq<Byte>, pe: Powers) returns (E: real, ez: nat)
    requires Parses(s)
    ensures E == Sum(Decode(s), pe) && ez == ZeroCount(Decode(s))
  {
    hide Parses, Decode, ZeroLen, XZeroLen, ValLen, ValValue;
    E, ez := 0.0, 0;
    var p := 0;
    EmptyDecodes();
    assert s[..0] == [];
    while p < |s|
      invariant 0 <= p <= |s| && Parses(s[..p])
      invariant E + ez as real == Sum(Decode(s[..p]), pe) && ez == ZeroCount(Decode(s[..p]))
      decreases |s| - p
    {
      hide Sum, ZeroCount, Repeat;
      OpcodeKinds(s[p]);
      NextRun(s, p, pe);
      if IsZero(s[p]) {
        ez := ez + ZeroLen(s[p]);
        p := p + 1;
      } else if IsXZero(s[p]) {
        ez := ez + XZeroLen(s[p], s[p + 1]);
        p := p + 2;
      } else {
        ValRange(s[p]);
        E := E + pe(ValValue(s[p])) * ValLen(s[p]) as real;
        p := p + 1;
      }
    }
    assert s[..p] == s;
    E := E + ez as real;
  }

  // ----- one byte per register -----

  predicate WordIsZero(r: Registers, j: nat)
    requires 8 * j + 8 <= REGISTERS
  {
    forall i :: 8 * j <= i < 8 * j + 8 ==> r[i] == 0
  }

  /** The branch of hllRawSum on one byte. */
  function RawTerm(b: Byte, pe: Powers): real {
    if b != 0 then pe(b) else 0.0
  }

  lemma {:induction false} RawFour(r: Registers, n: nat, pe: Powers)
    requires n + 4 <= REGISTERS
    ensures Sum(r[..n + 4], pe) - ZeroCount(r[..n + 4]) as real ==
            Sum(r[..n], pe) - ZeroCount(r[..n]) as real
            + RawTerm(r[n], pe) + RawTerm(r[n + 1], pe) + RawTerm(r[n + 2], pe) + RawTerm(r[n + 3], pe)
    ensures ZeroCount(r[..n + 4]) == ZeroCount(r[..n]) + IsNil(r[n]) + IsNil(r[n + 1]) + IsNil(r[n + 2]) + IsNil(r[n + 3])
  {
    hide Sum, ZeroCount;
    SumFour(r, n, pe);
  }

  /** One word of eight registers. */
  method AddWord(r: Registers, j: nat, pe: Powers, E: real, ez: nat) returns (E': real, ez': nat)
    requires 8 * j + 8 <= REGISTERS
    requires E == Sum(r[..8 * j], pe) - ez as real && ez == ZeroCount(r[..8 * j])
    ensures E' == Sum(r[..8 * j + 8], pe) - ez' as real && ez' == ZeroCount(r[..8 * j + 8])
  {
    hide Sum, ZeroCount;
    var n := 8 * j;
    RawFour(r, n, pe);
    RawFour(r, n + 4, pe);
    if WordIsZero(r, j) {
      E', ez' := E, ez + 8;
    } else {
      hide RawTerm, WordIsZero;
      E' := E + RawTerm(r[n], pe) + RawTerm(r[n + 1], pe) + RawTerm(r[n + 2], pe) + RawTerm(r[n + 3], pe)
        + RawTerm(r[n + 4], pe) + RawTerm(r[n + 5], pe) + RawTerm(r[n + 6], pe) + RawTerm(r[n + 7], pe);
      ez' := ez + IsNil(r[n]) + IsNil(r[n + 1]) + IsNil(r[n + 2]) + IsNil(r[n + 3])
        + IsNil(r[n + 4]) + IsNil(r[n + 5]) + IsNil(r[n + 6]) + IsNil(r[n + 7]);
    }
  }

  /** hllRawSum: eight registers at a time, skipping words that are zero. */
  method RawSum(r: Registers, pe: Powers) returns (E: real, ez: nat)
    ensures E == Sum(r, pe) && ez == ZeroCount(r)
  {
    E, ez := 0.0, 0;
    assert r[..0] == [];
    var j := 0;
    while j < REGISTERS / 8
      invariant 0 <= j <= REGISTERS / 8
      invariant E == Sum(r[..8 * j], pe) - ez as real && ez == ZeroCount(r[..8 * j])
    {
      hide Sum, ZeroCount;
      E, ez := AddWord(r, j, pe, E, ez);
      j := j + 1;
    }
    assert r[..8 * j] == r;
    E := E + ez as real;
  }
}
