/**
 The HyperLogLog object and its commands: adding, promoting from sparse to
 dense, merging, and counting through the cached cardinality.
 */
module HllObject {
  import opened Words
  import opened Basics
  import opened HllDense
  import opened HllSparse
  import opened Hll
  import opened HllSum

  lemma {:induction false} DecodeBound(s: seq<Byte>, i: nat)
    requires i < |Decode(s)|
    ensures Decode(s)[i] <= VAL_MAX_VALUE
  {
    hide IsZero, IsXZero, ValValue, OpSpan;
    var n := OpSpan(s);
    if i < n {
      ValRange(s[0]);
    } else {
      DecodeBound(s[OpLen(s)..], i - n);
    }
  }

  /** The registers that a sparse prefix has set so far, zeros after them. */
  ghost predicate Filled(r: Registers, d: seq<Byte>) {
    && |d| <= REGISTERS
    && (forall i :: 0 <= i < |d| ==> r[i] == d[i])
    && (forall i :: |d| <= i < REGISTERS ==> r[i] == 0)
  }

  lemma FilledZeros(r: Registers, d: seq<Byte>, n: nat)
    requires Filled(r, d) && |d| + n <= REGISTERS
    ensures Filled(r, d + Repeat(0, n))
  {
  }

  /** Prefixes of a valid sparse string cover at most all the registers. */
  lemma {:induction false} PrefixFits(s: seq<Byte>, p: nat)
    requires p < |s| && Parses(s[..p]) && Parses(s) && |Decode(s)| == REGISTERS
    ensures HasOp(s[p..]) && |Decode(s[..p])| + OpSpan(s[p..]) <= REGISTERS
  {
    ParsesSnoc(s, p);
  }

  /** hllSparseToDense: replays the opcodes into an empty dense string. */
  method SparseToDense(s: seq<Byte>) returns (d: Packed)
    requires Parses(s) && |Decode(s)| == REGISTERS
    ensures Unpack(d) == Decode(s)
  {
    hide Parses, Decode, EmptyPacked, Unpack, SetRegister, ZeroLen, XZeroLen, ValLen, ValValue;
    d := EmptyPacked();
    var idx, p := 0, 0;
    EmptyDecodes();
    UnpackEmpty();
    assert s[..0] == [];
    while p < |s|
      invariant 0 <= p <= |s| && Parses(s[..p]) && idx == |Decode(s[..p])|
      invariant Filled(Unpack(d), Decode(s[..p]))
      decreases |s| - p
    {
      ParsesSnoc(s, p);
      PrefixFits(s, p);
      OpcodeKinds(s[p]);
      if IsZero(s[p]) {
        FilledZeros(Unpack(d), Decode(s[..p]), ZeroLen(s[p]));
        idx := idx + ZeroLen(s[p]);
        p := p + 1;
      } else if IsXZero(s[p]) {
        FilledZeros(Unpack(d), Decode(s[..p]), XZeroLen(s[p], s[p + 1]));
        idx := idx + XZeroLen(s[p], s[p + 1]);
        p := p + 2;
      } else {
        ghost var before := Decode(s[..p]);
        var runlen, regval := ValLen(s[p]), ValValue(s[p]);
        ValRange(s[p]);
        var j := 0;
        while j < runlen
          invariant 0 <= j <= runlen && idx == |before| + j
          invariant Filled(Unpack(d), before + Repeat(regval, j))
        {
          UnpackSet(d, idx, regval);
          d := SetRegister(d, idx, regval);
          idx := idx + 1;
          j := j + 1;
        }
        p := p + 1;
      }
    }
    assert s[..p] == s;
  }

  /** hllDenseAdd: raises one register if needed. */
  method DenseAdd(p: Packed, h: Hash) returns (q: Packed, changed: bool)
    ensures Unpack(q) == Observe(Unpack(p), h)
    ensures changed <==> PatByte(h) > Unpack(p)[RegIndex(h)]
  {
    hide Unpack, GetRegister, SetRegister, PatLen, RegIndex;
    var index, n := ComputePatLen(h);
    var count := n as bv8;
    var oldcount := GetRegister(p, index);
    if count > oldcount {
      UnpackSet(p, index, count);
      return SetRegister(p, index, count), true;
    }
    return p, false;
  }

  /** The sparse string with the register at `index`, inside the opcode at p, replaced through the opcodes n. */
  lemma {:induction false} SpliceSetsRegister(s: seq<Byte>, p: nat, first: nat, index: nat, c: Byte, n: seq<Byte>)
    requires Parses(s) && p < |s| && Parses(s[..p]) && |Decode(s[..p])| == first
    requires HasOp(s[p..]) && first <= index < first + OpSpan(s[p..])
    requires Parses(n) && Decode(n) == Repeat(OpValue(s[p..]), OpSpan(s[p..]))[index - first := c]
    ensures var r := s[..p] + n + s[p + OpLen(s[p..])..];
            Parses(r) && index < |Decode(s)| && Decode(r) == Decode(s)[index := c] && r[..p] == s[..p]
  {
    hide Parses, Decode, OpSpan, OpValue, OpLen, HasOp;
    ParsesSnoc(s, p);
    DecodeSplice(s[..p], n, s[p + OpLen(s[p..])..]);
  }

  lemma LocatedRegister(s: seq<Byte>, p: nat, first: nat, index: nat)
    requires Parses(s) && p < |s| && Parses(s[..p]) && |Decode(s[..p])| == first
    requires HasOp(s[p..]) && first <= index < first + OpSpan(s[p..])
    ensures index < |Decode(s)| && Decode(s)[index] == OpValue(s[p..])
  {
    hide Parses, Decode, OpSpan, OpValue, OpLen, HasOp;
    ParsesSnoc(s, p);
  }

  /** Steps 2 and 3 of hllSparseAdd: the opcodes that take the place of the one at p. */
  method ReplaceOp(s: seq<Byte>, p: nat, first: nat, span: nat, index: nat, count: Byte) returns (edited: seq<Byte>)
    requires Parses(s) && |Decode(s)| == REGISTERS && p < |s| && Parses(s[..p])
    requires HasOp(s[p..]) && span == OpSpan(s[p..]) && first <= index < first + span && 1 <= count <= VAL_MAX_VALUE
    ensures Parses(edited) && Decode(edited) == Repeat(OpValue(s[p..]), span)[index - first := count]
    ensures |edited| <= if IsXZero(s[p]) then 5 else 3
  {
    hide Parses, Decode, ValByte, ValValue, ZeroLen, XZeroLen, ValLen;
    OpcodeKinds(s[p]);
    ValRange(s[p]);
    var isVal := !IsZero(s[p]) && !IsXZero(s[p]);
    var curval := if isVal then ValValue(s[p]) else 0;
    if span == 1 && !IsXZero(s[p]) {
      ValDecodes(count, 1);
      assert Repeat(count, 1) == Repeat(curval, 1)[0 := count];
      edited := [ValByte(count, 1)];
    } else {
      SpanFits(s, p);
      edited := SplitOp(isVal, curval, first, span, index, count);
    }
  }

  /**
   hllSparseAdd up to its promotion: edits the opcode string in place, or says
   that the object must become dense first.
   */
  method SparseEdit(s: seq<Byte>, h: Hash, maxBytes: nat) returns (r: seq<Byte>, changed: bool, promote: bool)
    requires Parses(s) && |Decode(s)| == REGISTERS
    ensures !promote ==> Parses(r) && Decode(r) == Observe(Decode(s), h)
    ensures !promote ==> (changed <==> PatByte(h) > Decode(s)[RegIndex(h)])
    ensures promote ==> PatByte(h) > Decode(s)[RegIndex(h)]
    ensures PatByte(h) > VAL_MAX_VALUE ==> promote
    ensures promote ==> PatByte(h) > VAL_MAX_VALUE || HDR_SIZE + |s| + 3 > maxBytes
    ensures !promote ==> |r| <= |s| + 3 && (|r| > |s| ==> HDR_SIZE + |r| <= maxBytes)
  {
    hide Parses, Decode, PatLen, RegIndex, Observe, OpSpan, OpValue, HasOp, OpLen, ValValue;
    var index, n := ComputePatLen(h);
    var count := n as bv8;
    ObserveAt(Decode(s), h);
    if count > VAL_MAX_VALUE {
      DecodeBound(s, index);
      return s, false, true;
    }
    var p, first, prev, span := LocateOp(s, index);
    LocatedRegister(s, p, first, index);
    OpAt(s, p);
    if !IsZero(s[p]) && !IsXZero(s[p]) && ValValue(s[p]) >= count {
      return s, false, false;
    }
    var edited := ReplaceOp(s, p, first, span, index, count);
    var oldlen := if IsXZero(s[p]) then 2 else 1;
    var deltalen := |edited| - oldlen;
    if deltalen > 0 && HDR_SIZE + |s| + deltalen > maxBytes {
      return s, false, true;
    }
    SpliceSetsRegister(s, p, first, index, count, edited);
    r := s[..p] + edited + s[p + oldlen..];
    var start := if prev == -1 then 0 else prev;
    StartParses(s, r, p, prev);
    r := MergeAdjacent(r, start);
    return r, true, false;
  }

  lemma OpAt(s: seq<Byte>, p: nat)
    requires p < |s| && HasOp(s[p..])
    ensures OpLen(s[p..]) == if IsXZero(s[p]) then 2 else 1
    ensures OpValue(s[p..]) == if IsZero(s[p]) || IsXZero(s[p]) then 0 else ValValue(s[p])
  {
  }

  lemma ObserveAt(r: Registers, h: Hash)
    ensures Observe(r, h) == if PatByte(h) > r[RegIndex(h)] then r[RegIndex(h) := PatByte(h)] else r
  {
  }

  lemma StartParses(s: seq<Byte>, r: seq<Byte>, p: nat, prev: int)
    requires p <= |s| && p <= |r| && r[..p] == s[..p] && (prev == -1 || (0 <= prev < p && Parses(s[..prev])))
    ensures var start := if prev == -1 then 0 else prev;
            Parses(r[..start])
  {
    if prev == -1 {
      assert r[..0] == [];
    } else {
      assert r[..prev] == r[..p][..prev] == s[..prev];
    }
  }

  lemma SpanFits(s: seq<Byte>, p: nat)
    requires Parses(s) && p < |s| && Parses(s[..p]) && |Decode(s)| == REGISTERS
    ensures HasOp(s[p..]) && OpSpan(s[p..]) <= XZERO_MAX_LEN
    ensures !IsZero(s[p]) && !IsXZero(s[p]) ==> OpSpan(s[p..]) <= VAL_MAX_LEN
    ensures IsZero(s[p]) ==> OpSpan(s[p..]) <= ZERO_MAX_LEN
  {
    PrefixFits(s, p);
    ValRange(s[p]);
    ZeroRange(s[p]);
  }

  class HllObject {
    /** 2^-r by register value. */
    const powers: Powers
    /** The estimate as a function of the harmonic sum and the number of zero registers. */
    const finish: (real, nat) -> nat
    var dense: bool
    var bytes: seq<Byte>
    var card: nat
    var cardValid: bool
    ghost var seen: set<Hash>

    /** A well-formed payload of either encoding. */
    ghost predicate Payload()
      reads this
    {
      if dense then |bytes| == DENSE_BYTES + 1 else Parses(bytes) && |Decode(bytes)| == REGISTERS
    }

    ghost function Regs(): Registers
      reads this
      requires Payload()
    {
      if dense then Unpack(bytes) else Decode(bytes)
    }

    /** The object holds the maximum over all elements seen, and a valid cache holds their estimate. */
    ghost predicate Valid()
      reads this
    {
      Payload() && IsMaximum(Regs(), seen) && (cardValid ==> card == EstimateOf(Regs()))
    }

    /** createHLLObject: one XZERO opcode for all registers, cached cardinality 0. */
    constructor (powers: Powers, finish: (real, nat) -> nat)
      requires finish(REGISTERS as real, REGISTERS) == 0
      ensures Valid() && seen == {} && !dense && this.powers == powers && this.finish == finish
      ensures Regs() == NoRegisters()
    {
      this.powers, this.finish := powers, finish;
      dense, bytes := false, XZeroBytes(XZERO_MAX_LEN);
      card, cardValid := 0, true;
      seen := {};
      ZeroRunDecodes(XZERO_MAX_LEN);
      assert ZeroRun(XZERO_MAX_LEN) == XZeroBytes(XZERO_MAX_LEN);
      assert Repeat(0, REGISTERS) == NoRegisters();
      EmptyIsMaximum();
      SumRepeat(0, REGISTERS, powers);
    }

    method Promote()
      requires Payload()
      modifies this`dense, this`bytes
      ensures Payload() && dense && Regs() == old(Regs())
    {
      if !dense {
        bytes := SparseToDense(bytes);
        dense := true;
      }
    }

    /** hllAdd: 1 if and only if a register rose, in either encoding and across a promotion. */
    method AddElement(h: Hash, maxBytes: nat) returns (changed: bool)
      requires Payload()
      modifies this`dense, this`bytes, this`cardValid
      ensures Payload() && Regs() == Observe(old(Regs()), h)
      ensures changed <==> PatByte(h) > old(Regs())[RegIndex(h)]
      ensures dense ==> old(dense) || PatByte(h) > VAL_MAX_VALUE || HDR_SIZE + |old(bytes)| + 3 > maxBytes
      ensures !dense ==> !old(dense) && PatByte(h) <= VAL_MAX_VALUE
      ensures !dense ==> |bytes| <= |old(bytes)| || HDR_SIZE + |bytes| <= maxBytes
      ensures cardValid ==> old(cardValid)
    {
      hide Parses, Decode, Unpack, Observe, RegIndex, PatByte;
      if dense {
        bytes, changed := DenseAdd(bytes, h);
      } else {
        var s, c, promote := SparseEdit(bytes, h, maxBytes);
        if promote {
          Promote();
          bytes, changed := DenseAdd(bytes, h);
          assert changed;
        } else {
          bytes, changed := s, c;
          if changed {
            cardValid := false;
          }
        }
      }
    }

    /** The loop of PFADD: afterwards the object holds the maximum over the old elements and the new ones. */
    method PfAdd(hs: seq<Hash>, maxBytes: nat) returns (updated: bool)
      requires Valid()
      modifies this
      ensures Valid() && seen == old(seen) + Elements(hs)
      ensures Regs() == ObserveAll(old(Regs()), hs)
      ensures updated <==> Regs() != old(Regs())
    {
      hide Parses, Decode, Unpack, Observe, RegIndex, PatByte;
      updated := false;
      ghost var start := Regs();
      var j := 0;
      while j < |hs|
        invariant 0 <= j <= |hs| && Payload()
        invariant Regs() == ObserveAll(start, hs[..j])
        invariant updated <==> Regs() != start
        invariant cardValid ==> old(cardValid)
        invariant AtLeast(Regs(), start)
        invariant card == old(card) && seen == old(seen)
      {
        assert hs[..j + 1][..j] == hs[..j];
        Rises(Regs(), hs[j], start);
        var changed := AddElement(hs[j], maxBytes);
        updated := updated || changed;
        j := j + 1;
      }
      assert hs[..j] == hs;
      if updated {
        cardValid := false;
      }
      AddsReachMaximum(start, seen, hs);
      seen := seen + Elements(hs);
    }

    /** PFCOUNT: the estimate for the present registers, whether read from the cache or computed. */
    method PfCount() returns (r: nat)
      requires Valid()
      modifies this`card, this`cardValid
      ensures Valid() && r == EstimateOf(Regs())
    {
      if !cardValid {
        card := Estimate();
        cardValid := true;
      }
      r := card;
    }

    /** The estimate that hllCount makes of these registers. */
    ghost function EstimateOf(r: Registers): nat {
      finish(Sum(r, powers), ZeroCount(r))
    }

    /** hllCount: the same value for the same registers, through the sum of either encoding. */
    method Estimate() returns (r: nat)
      requires Payload()
      ensures r == EstimateOf(Regs())
    {
      var E, ez;
      if dense {
        E, ez := DenseSum(bytes, powers);
      } else {
        E, ez := SparseSum(bytes, powers);
      }
      r := finish(E, ez);
    }

    /** hllMerge: raises each register of `max` to this object's. */
    method MergeInto(max: array<Byte>)
      requires Payload() && max.Length == REGISTERS
      modifies max
      ensures max[..] == Union(old(max[..]), Regs())
    {
      if dense {
        MergeDense(bytes, max);
      } else {
        MergeSparse(bytes, max);
      }
    }

    /** The last part of PFMERGE: becomes dense and takes all registers from `max`. */
    method StoreMerged(max: array<Byte>, ghost merged: set<Hash>)
      requires Valid() && max.Length == REGISTERS && IsMaximum(max[..], merged)
      modifies this
      ensures Valid() && dense && !cardValid && Regs() == max[..] && seen == merged
    {
      hide Parses, Decode, Unpack, SetRegister, PatByte, RegIndex;
      Promote();
      var j := 0;
      while j < REGISTERS
        invariant 0 <= j <= REGISTERS && Payload() && dense
        invariant forall i :: 0 <= i < j ==> Regs()[i] == max[i]
      {
        MaximumBound(max[..], merged, j);
        UnpackSet(bytes, j, max[j]);
        bytes := SetRegister(bytes, j, max[j]);
        j := j + 1;
      }
      cardValid := false;
      seen := merged;
      assert Regs() == max[..];
    }
  }

  /** PFADD: creates a missing key; replies 1 if and only if it did, or some register changed. */
  method PfAddCommand(o: HllObject?, hs: seq<Hash>, maxBytes: nat, powers: Powers, finish: (real, nat) -> nat)
    returns (r: HllObject, reply: bool)
    requires if o == null then finish(REGISTERS as real, REGISTERS) == 0 else o.Valid()
    modifies o
    ensures r.Valid() && (if o == null then fresh(r) else r == o)
    ensures r.seen == (if o == null then {} else old(o.seen)) + Elements(hs)
    ensures r.Regs() == ObserveAll(if o == null then NoRegisters() else old(o.Regs()), hs)
    ensures reply <==> o == null || r.Regs() != old(o.Regs())
    ensures reply ==> !r.cardValid
  {
    hide Parses, Decode, Unpack, ObserveAll, Elements, IsMaximum, Sum, ZeroCount;
    var created := o == null;
    if created {
      r := new HllObject(powers, finish);
    } else {
      r := o;
    }
    var updated := r.PfAdd(hs, maxBytes);
    reply := created || updated;
    if reply {
      r.cardValid := false;
    }
  }

  method MergeDense(p: Packed, max: array<Byte>)
    requires max.Length == REGISTERS
    modifies max
    ensures max[..] == Union(old(max[..]), Unpack(p))
  {
    hide GetRegister;
    ghost var m := max[..];
    for i := 0 to REGISTERS
      invariant Merged(max[..], m, Unpack(p), i)
    {
      var val := GetRegister(p, i);
      if val > max[i] {
        max[i] := val;
      }
    }
    MergedAll(max[..], m, Unpack(p));
  }

  method MergeSparse(s: seq<Byte>, max: array<Byte>)
    requires Parses(s) && |Decode(s)| == REGISTERS && max.Length == REGISTERS
    modifies max
    ensures max[..] == Union(old(max[..]), Decode(s))
  {
    hide Parses, Decode, ZeroLen, XZeroLen, ValLen, ValValue;
    ghost var m := max[..];
    var i, p := 0, 0;
    EmptyDecodes();
    assert s[..0] == [];
    while p < |s|
      invariant 0 <= p <= |s| && Parses(s[..p]) && i == |Decode(s[..p])| <= REGISTERS
      invariant Merged(max[..], m, Decode(s), i)
      decreases |s| - p
    {
      ParsesSnoc(s, p);
      PrefixFits(s, p);
      OpcodeKinds(s[p]);
      RunRegisters(s, p, i);
      if IsZero(s[p]) {
        MergedZeros(max[..], m, Decode(s), i, ZeroLen(s[p]));
        i := i + ZeroLen(s[p]);
        p := p + 1;
      } else if IsXZero(s[p]) {
        MergedZeros(max[..], m, Decode(s), i, XZeroLen(s[p], s[p + 1]));
        i := i + XZeroLen(s[p], s[p + 1]);
        p := p + 2;
      } else {
        MergeRun(Decode(s), m, max, i, ValLen(s[p]), ValValue(s[p]));
        i := i + ValLen(s[p]);
        p := p + 1;
      }
    }
    assert s[..p] == s;
    MergedAll(max[..], m, Decode(s));
  }

  /** The inner loop of hllMerge over one VAL opcode. */
  method MergeRun(ghost r: Registers, ghost m: seq<Byte>, max: array<Byte>, first: nat, runlen: nat, regval: Byte)
    requires max.Length == REGISTERS && Merged(max[..], m, r, first) && first + runlen <= REGISTERS
    requires forall k :: first <= k < first + runlen ==> r[k] == regval
    modifies max
    ensures Merged(max[..], m, r, first + runlen)
  {
    for j := 0 to runlen
      invariant Merged(max[..], m, r, first + j)
    {
      if regval > max[first + j] {
        max[first + j] := regval;
      }
    }
  }

  lemma {:induction false} RunRegisters(s: seq<Byte>, p: nat, i: nat)
    requires Parses(s) && p < |s| && Parses(s[..p]) && i == |Decode(s[..p])|
    ensures HasOp(s[p..]) && i + OpSpan(s[p..]) <= |Decode(s)|
    ensures forall k :: i <= k < i + OpSpan(s[p..]) ==> Decode(s)[k] == OpValue(s[p..])
  {
    hide Parses, Decode, OpSpan, OpValue, OpLen, HasOp;
    ParsesSnoc(s, p);
  }

  lemma MergedAll(max: seq<Byte>, m: Registers, r: Registers)
    requires Merged(max, m, r, REGISTERS)
    ensures max == Union(m, r)
  {
  }

  /** PFMERGE over existing objects, the destination among them: it ends with the union of their elements. */
  method PfMerge(dest: HllObject, sources: seq<HllObject>)
    requires dest.Valid() && forall o :: o in sources ==> o.Valid()
    modifies dest
    ensures dest.Valid() && dest.seen == old(dest.seen) + old(AllSeen(sources))
  {
    hide IsMaximum, HllObject.Valid;
    var max := new Byte[REGISTERS](_ => 0);
    EmptyIsMaximum();
    assert max[..] == NoRegisters();
    MergeAll(max, [dest] + sources);
    AllSeenCons(dest, sources);
    dest.StoreMerged(max, AllSeen([dest] + sources));
  }

  /** PFCOUNT of several keys: the estimate for the registers of the union. */
  method PfCountUnion(os: seq<HllObject>, powers: Powers, finish: (real, nat) -> nat) returns (r: nat, ghost union: Registers)
    requires forall o :: o in os ==> o.Valid()
    ensures IsMaximum(union, AllSeen(os)) && r == finish(Sum(union, powers), ZeroCount(union))
  {
    hide IsMaximum, HllObject.Valid;
    var max := new Byte[REGISTERS](_ => 0);
    EmptyIsMaximum();
    assert max[..] == NoRegisters();
    MergeAll(max, os);
    union := max[..];
    var E, ez := RawSum(max[..], powers);
    r := finish(E, ez);
  }

  /** The loop of PFMERGE over all its keys. */
  method MergeAll(max: array<Byte>, os: seq<HllObject>)
    requires max.Length == REGISTERS && IsMaximum(max[..], {}) && forall o :: o in os ==> o.Valid()
    modifies max
    ensures IsMaximum(max[..], AllSeen(os))
  {
    hide IsMaximum, HllObject.Valid;
    var j := 0;
    assert AllSeen(os[..0]) == {};
    while j < |os|
      invariant 0 <= j <= |os| && IsMaximum(max[..], AllSeen(os[..j]))
    {
      assert os[..j + 1] == os[..j] + [os[j]];
      AllSeenSnoc(os[..j], os[j]);
      MergeOne(max, AllSeen(os[..j]), os[j]);
      j := j + 1;
    }
    assert os[..j] == os;
  }

  lemma AllSeenCons(o: HllObject, os: seq<HllObject>)
    ensures AllSeen([o] + os) == o.seen + AllSeen(os)
  {
    assert forall i :: 0 <= i < |os| ==> ([o] + os)[i + 1] == os[i];
    assert ([o] + os)[0] == o;
  }

  method MergeOne(max: array<Byte>, ghost merged: set<Hash>, o: HllObject)
    requires max.Length == REGISTERS && IsMaximum(max[..], merged) && o.Valid()
    modifies max
    ensures IsMaximum(max[..], merged + o.seen)
  {
    UnionIsMaximum(max[..], merged, o.Regs(), o.seen);
    o.MergeInto(max);
  }

  ghost function AllSeen(os: seq<HllObject>): set<Hash>
    reads os
  {
    set i, h | 0 <= i < |os| && h in os[i].seen :: h
  }

  lemma AllSeenSnoc(os: seq<HllObject>, o: HllObject)
    ensures AllSeen(os + [o]) == AllSeen(os) + o.seen
  {
    assert forall i :: 0 <= i < |os| ==> (os + [o])[i] == os[i];
    assert (os + [o])[|os|] == o;
  }

  lemma MaximumBound(r: Registers, s: set<Hash>, i: nat)
    requires IsMaximum(r, s) && i < REGISTERS
    ensures r[i] <= 63
  {
    if r[i] != 0 {
      assert Reached(r, s, i);
    }
  }

  /** The registers below i are merged, the others untouched. */
  ghost predicate Merged(max: seq<Byte>, m: seq<Byte>, r: Registers, i: nat) {
    && |max| == REGISTERS && |m| == REGISTERS
    && forall k :: 0 <= k < REGISTERS ==> max[k] == if k < i then MaxByte(m[k], r[k]) else m[k]
  }

  lemma MergedZeros(max: seq<Byte>, m: seq<Byte>, r: Registers, i: nat, n: nat)
    requires Merged(max, m, r, i) && i + n <= REGISTERS && forall k :: i <= k < i + n ==> r[k] == 0
    ensures Merged(max, m, r, i + n)
  {
  }

  ghost predicate AtLeast(r: Registers, q: Registers) {
    forall i :: 0 <= i < REGISTERS ==> r[i] >= q[i]
  }

  /** Observing keeps registers from falling, and changes them just when one rises above the start. */
  lemma Rises(r: Registers, h: Hash, start: Registers)
    requires AtLeast(r, start)
    ensures AtLeast(Observe(r, h), start)
    ensures Observe(r, h) != start <==> r != start || PatByte(h) > r[RegIndex(h)]
  {
    hide PatByte, RegIndex;
    var q := Observe(r, h);
    if r != start {
      var i :| 0 <= i < REGISTERS && r[i] != start[i];
      assert q[i] != start[i];
    } else if PatByte(h) > r[RegIndex(h)] {
      assert q[RegIndex(h)] != start[RegIndex(h)];
    }
  }
}
