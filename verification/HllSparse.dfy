/**
 The sparse HyperLogLog encoding: a run-length code of ZERO, XZERO and VAL
 opcodes, its meaning as a sequence of registers, and the in-place edits of
 hllSparseAdd on the byte string.
 */
module HllSparse {
  import opened Basics
  import opened HllDense

  const VAL_MAX_VALUE: Byte := 32
  const VAL_MAX_LEN: nat := 4
  const ZERO_MAX_LEN: nat := 64
  const XZERO_MAX_LEN: nat := 16384

  // ----- opcode macros -----

  predicate IsZero(b: Byte) { b & 0xc0 == 0 }

  predicate IsXZero(b: Byte) { b & 0xc0 == 0x40 }

  predicate IsVal(b: Byte) { b & 0x80 != 0 }

  function ZeroLen(b: Byte): nat { (b & 0x3f) as nat + 1 }

  function XZeroLen(b: Byte, c: Byte): nat { (b & 0x3f) as nat * 256 + c as nat + 1 }

  function ValValue(b: Byte): Byte { ((b >> 2) & 0x1f) + 1 }

  function ValLen(b: Byte): nat { (b & 0x3) as nat + 1 }

  function ValByte(v: Byte, len: nat): Byte
    requires 1 <= len <= VAL_MAX_LEN
  {
    (((v - 1) << 2) | ((len - 1) as bv8)) | 0x80
  }

  function ZeroByte(len: nat): Byte
    requires 1 <= len <= ZERO_MAX_LEN
  {
    (len - 1) as bv8
  }

  function XZeroBytes(len: nat): seq<Byte>
    requires 1 <= len <= XZERO_MAX_LEN
  {
    [((len - 1) / 256) as bv8 | 0x40, ((len - 1) % 256) as bv8]
  }

  /** The bytes of the opcodes: 00 and a length, 01 and the high part of one, 1 and a value and a length. */
  lemma OpcodeBytes(b: Byte, c: Byte)
    ensures (IsZero(b) <==> b < 0x40) && (IsXZero(b) <==> 0x40 <= b < 0x80) && (IsVal(b) <==> b >= 0x80)
    ensures IsZero(b) ==> ZeroLen(b) == b as nat + 1
    ensures IsXZero(b) ==> XZeroLen(b, c) == (b - 0x40) as nat * 256 + c as nat + 1
    ensures IsVal(b) ==> b == 0x80 + ((ValValue(b) - 1) << 2) + (b & 3) && ValLen(b) == (b & 3) as nat + 1
  {
    if IsZero(b) {
      assert b & 0x3f == b;
    }
    if IsXZero(b) {
      assert b & 0x3f == b - 0x40;
    }
  }

  lemma OpcodeKinds(b: Byte)
    ensures (IsZero(b) && !IsXZero(b) && !IsVal(b)) || (!IsZero(b) && IsXZero(b) && !IsVal(b))
            || (!IsZero(b) && !IsXZero(b) && IsVal(b))
  {
  }

  lemma ValByteDecodes(v: Byte, len: nat)
    requires 1 <= v <= VAL_MAX_VALUE && 1 <= len <= VAL_MAX_LEN
    ensures IsVal(ValByte(v, len)) && ValValue(ValByte(v, len)) == v && ValLen(ValByte(v, len)) == len
  {
    if len == 1 {} else if len == 2 {} else if len == 3 {} else {}
  }

  lemma ZeroByteDecodes(len: nat)
    requires 1 <= len <= ZERO_MAX_LEN
    ensures IsZero(ZeroByte(len)) && ZeroLen(ZeroByte(len)) == len
  {
    SmallByte(len - 1);
  }

  lemma SmallByte(n: nat)
    requires n < 64
    ensures (n as bv8) & 0xc0 == 0 && ((n as bv8) & 0x3f) as nat == n
  {
    ByteRoundTrip(n);
    LowSixBits(n as bv8);
  }

  lemma LowSixBits(b: Byte)
    requires b as nat < 64
    ensures b & 0xc0 == 0 && b & 0x3f == b
  {
  }

  lemma XZeroBytesDecode(len: nat)
    requires 1 <= len <= XZERO_MAX_LEN
    ensures IsXZero(XZeroBytes(len)[0]) && XZeroLen(XZeroBytes(len)[0], XZeroBytes(len)[1]) == len
  {
    var h, l := (len - 1) / 256, (len - 1) % 256;
    SmallByte(h);
    ByteRoundTrip(l);
    hide IsXZero;
    XZeroTag(h as bv8);
  }

  lemma XZeroTag(b: Byte)
    requires b & 0xc0 == 0
    ensures IsXZero(b | 0x40) && (b | 0x40) & 0x3f == b & 0x3f
  {
  }

  lemma ByteRoundTrip(n: nat)
    requires n < 256
    ensures (n as bv8) as nat == n
  {
    var b := ByteFor(n);
    ByteIsItsNumber(b);
  }

  lemma ByteIsItsNumber(b: Byte)
    ensures ((b as nat) as bv8) == b
  {
  }

  lemma NextByte(b: Byte)
    requires b as nat < 255
    ensures (b + 1) as nat == b as nat + 1
  {
  }

  lemma {:induction false} ByteFor(n: nat) returns (b: Byte)
    requires n < 256
    ensures b as nat == n
  {
    if n == 0 {
      b := 0;
    } else {
      var a := ByteFor(n - 1);
      NextByte(a);
      b := a + 1;
    }
  }

  lemma ZeroRange(b: Byte)
    ensures 1 <= ZeroLen(b) <= ZERO_MAX_LEN
  {
    assert b & 0x3f <= 63;
    SmallNumber(b & 0x3f);
  }

  lemma SmallNumber(b: Byte)
    requires b <= 63
    ensures b as nat <= 63
  {
  }

  lemma ValRange(b: Byte)
    ensures 1 <= ValValue(b) <= VAL_MAX_VALUE && 1 <= ValLen(b) <= VAL_MAX_LEN
  {
    assert (b & 3) <= 3;
    assert (b & 3) == 0 || (b & 3) == 1 || (b & 3) == 2 || (b & 3) == 3;
  }

  // ----- meaning -----

  function Repeat(v: Byte, n: nat): (r: seq<Byte>)
    ensures |r| == n && forall i :: 0 <= i < n ==> r[i] == v
  {
    seq(n, _ => v)
  }

  /** The first opcode of s is complete. */
  predicate HasOp(s: seq<Byte>) {
    s != [] && (IsXZero(s[0]) ==> |s| >= 2)
  }

  function OpLen(s: seq<Byte>): (n: nat)
    requires HasOp(s)
    ensures 1 <= n <= |s|
  {
    if IsXZero(s[0]) then 2 else 1
  }

  function OpSpan(s: seq<Byte>): (n: nat)
    requires HasOp(s)
    ensures n >= 1
  {
    if IsZero(s[0]) then ZeroLen(s[0])
    else if IsXZero(s[0]) then XZeroLen(s[0], s[1])
    else ValLen(s[0])
  }

  function OpValue(s: seq<Byte>): Byte
    requires HasOp(s)
  {
    if IsZero(s[0]) || IsXZero(s[0]) then 0 else ValValue(s[0])
  }

  /** s is a sequence of whole opcodes. */
  predicate Parses(s: seq<Byte>) {
    s == [] || (HasOp(s) && Parses(s[OpLen(s)..]))
  }

  function Decode(s: seq<Byte>): seq<Byte> {
    if !HasOp(s) then [] else Repeat(OpValue(s), OpSpan(s)) + Decode(s[OpLen(s)..])
  }

  lemma {:induction false} DecodeConcat(a: seq<Byte>, b: seq<Byte>)
    requires Parses(a)
    ensures Parses(a + b) <==> Parses(b)
    ensures Decode(a + b) == Decode(a) + Decode(b)
  {
    hide IsZero, IsXZero, OpSpan, OpValue;
    if a == [] {
      assert a + b == b;
    } else {
      var n := OpLen(a);
      assert HasOp(a + b) && OpLen(a + b) == n;
      assert (a + b)[n..] == a[n..] + b;
      SameOp(a, a + b);
      DecodeConcat(a[n..], b);
    }
  }

  lemma SameOp(a: seq<Byte>, b: seq<Byte>)
    requires HasOp(a) && a <= b
    ensures HasOp(b) && OpLen(a) == OpLen(b) && OpSpan(a) == OpSpan(b) && OpValue(a) == OpValue(b)
  {
  }

  lemma {:induction false} DecodeOne(s: seq<Byte>)
    requires HasOp(s) && |s| == OpLen(s)
    ensures Parses(s) && Decode(s) == Repeat(OpValue(s), OpSpan(s))
  {
    assert s[OpLen(s)..] == [];
  }

  lemma LengthOfOp(s: seq<Byte>, p: nat)
    requires p < |s| && HasOp(s[p..])
    ensures OpLen(s[p..]) == if IsXZero(s[p]) then 2 else 1
  {
    hide IsXZero;
  }

  lemma FirstOp(t: seq<Byte>)
    requires t != [] && Parses(t)
    ensures HasOp(t) && OpLen(t) <= |t| && Parses(t[OpLen(t)..])
    ensures Decode(t) == Repeat(OpValue(t), OpSpan(t)) + Decode(t[OpLen(t)..])
    ensures Parses(t[..OpLen(t)]) && Decode(t[..OpLen(t)]) == Repeat(OpValue(t), OpSpan(t))
  {
    var op := t[..OpLen(t)];
    hide OpSpan, OpValue, IsXZero, Repeat;
    SameOp(op, t);
    DecodeOne(op);
  }

  lemma {:induction false} ParsesSnoc(s: seq<Byte>, p: nat)
    requires p < |s| && Parses(s[..p]) && Parses(s)
    ensures HasOp(s[p..])
    ensures Parses(s[..p + OpLen(s[p..])])
    ensures Decode(s[..p + OpLen(s[p..])]) == Decode(s[..p]) + Repeat(OpValue(s[p..]), OpSpan(s[p..]))
    ensures Parses(s[p + OpLen(s[p..])..])
    ensures Decode(s) == Decode(s[..p]) + Repeat(OpValue(s[p..]), OpSpan(s[p..])) + Decode(s[p + OpLen(s[p..])..])
  {
    hide *;
    assert s == s[..p] + s[p..];
    DecodeConcat(s[..p], s[p..]);
    FirstOp(s[p..]);
    var n := OpLen(s[p..]);
    assert s[..p + n] == s[..p] + s[p..][..n];
    DecodeConcat(s[..p], s[p..][..n]);
    assert s[p..][n..] == s[p + n..];
  }

  /** Replacing whole opcodes in the middle replaces their registers. */
  lemma {:induction false} DecodeSplice(a: seq<Byte>, n: seq<Byte>, b: seq<Byte>)
    requires Parses(a) && Parses(n)
    ensures Decode(a + n + b) == Decode(a) + Decode(n) + Decode(b)
    ensures Parses(a + n + b) <==> Parses(b)
  {
    hide Parses, Decode;
    assert a + n + b == a + (n + b);
    DecodeConcat(a, n + b);
    DecodeConcat(n, b);
  }

  // ----- step 1: locating the opcode that covers a register -----

  method LocateOp(s: seq<Byte>, index: nat) returns (p: nat, first: nat, prev: int, span: nat)
    requires Parses(s) && index < |Decode(s)|
    ensures p < |s| && Parses(s[..p]) && |Decode(s[..p])| == first
    ensures HasOp(s[p..]) && span == OpSpan(s[p..]) && first <= index < first + span
    ensures prev == -1 || (0 <= prev < p && Parses(s[..prev]))
  {
    hide Parses, Decode, ZeroLen, XZeroLen, ValLen;
    p, first, prev, span := 0, 0, -1, 0;
    EmptyDecodes();
    assert s[..0] == [];
    assert s != [];
    while p < |s|
      invariant p < |s| && Parses(s[..p]) && |Decode(s[..p])| == first <= index
      invariant prev == -1 || (0 <= prev < p && Parses(s[..prev]))
      decreases |s| - p
    {
      ParsesSnoc(s, p);
      var oplen := 1;
      OpcodeKinds(s[p]);
      if IsZero(s[p]) {
        span := ZeroLen(s[p]);
      } else if IsVal(s[p]) {
        span := ValLen(s[p]);
      } else {
        span := XZeroLen(s[p], s[p + 1]);
        oplen := 2;
      }
      if index <= first + span - 1 {
        return;
      }
      prev := p;
      p := p + oplen;
      first := first + span;
      assert s[..|s|] == s;
    }
    assert false;
  }

  // ----- step 2: the opcodes that replace the located one -----

  /** A run of len zeros, as XZERO or ZERO. */
  function ZeroRun(len: nat): seq<Byte>
    requires 1 <= len <= XZERO_MAX_LEN
  {
    if len > ZERO_MAX_LEN then XZeroBytes(len) else [ZeroByte(len)]
  }

  lemma ZeroRunDecodes(len: nat)
    requires 1 <= len <= XZERO_MAX_LEN
    ensures Parses(ZeroRun(len)) && Decode(ZeroRun(len)) == Repeat(0, len)
  {
    var s := ZeroRun(len);
    if len > ZERO_MAX_LEN {
      XZeroBytesDecode(len);
      OpcodeKinds(s[0]);
    } else {
      ZeroByteDecodes(len);
      OpcodeKinds(s[0]);
    }
    DecodeOne(s);
  }

  lemma ValDecodes(v: Byte, len: nat)
    requires 1 <= v <= VAL_MAX_VALUE && 1 <= len <= VAL_MAX_LEN
    ensures Parses([ValByte(v, len)]) && Decode([ValByte(v, len)]) == Repeat(v, len)
  {
    ValByteDecodes(v, len);
    OpcodeKinds(ValByte(v, len));
    DecodeOne([ValByte(v, len)]);
  }

  /** Appends opcodes for len registers of value v, if len is not zero. */
  method AppendRun(n: seq<Byte>, isVal: bool, v: Byte, len: nat) returns (r: seq<Byte>)
    requires Parses(n) && if isVal then len <= VAL_MAX_LEN && 1 <= v <= VAL_MAX_VALUE else len <= XZERO_MAX_LEN && v == 0
    ensures Parses(r) && Decode(r) == Decode(n) + Repeat(v, len)
    ensures |r| <= |n| + if isVal || len <= ZERO_MAX_LEN then 1 else 2
  {
    r := n;
    if len != 0 {
      if isVal {
        ValDecodes(v, len);
        DecodeConcat(n, [ValByte(v, len)]);
        r := n + [ValByte(v, len)];
      } else {
        ZeroRunDecodes(len);
        DecodeConcat(n, ZeroRun(len));
        r := n + ZeroRun(len);
      }
    } else {
      assert Repeat(v, 0) == [];
    }
  }

  lemma EmptyDecodes()
    ensures Parses([]) && Decode([]) == []
  {
  }

  /** Splits a run of span registers at one of them: the part before, the new value, the part after. */
  method SplitOp(isVal: bool, v: Byte, first: nat, span: nat, index: nat, count: Byte) returns (n: seq<Byte>)
    requires first <= index < first + span && 1 <= count <= VAL_MAX_VALUE
    requires if isVal then span <= VAL_MAX_LEN && 1 <= v <= VAL_MAX_VALUE else span <= XZERO_MAX_LEN && v == 0
    ensures Parses(n) && Decode(n) == Repeat(v, span)[index - first := count]
    ensures |n| <= if isVal || span <= ZERO_MAX_LEN then 3 else 5
  {
    hide Decode, Parses, ValByte;
    var last := first + span - 1;
    EmptyDecodes();
    n := AppendRun([], isVal, v, index - first);
    ValDecodes(count, 1);
    DecodeConcat(n, [ValByte(count, 1)]);
    n := n + [ValByte(count, 1)];
    n := AppendRun(n, isVal, v, last - index);
    assert Decode(n) == Repeat(v, span)[index - first := count];
  }

  // ----- step 4: merging adjacent VAL opcodes -----

  lemma {:induction false} MergeVals(s: seq<Byte>, p: nat)
    requires Parses(s) && p + 1 < |s| && Parses(s[..p]) && IsVal(s[p]) && IsVal(s[p + 1])
    requires ValValue(s[p]) == ValValue(s[p + 1]) && ValLen(s[p]) + ValLen(s[p + 1]) <= VAL_MAX_LEN
    ensures var r := s[..p] + [ValByte(ValValue(s[p]), ValLen(s[p]) + ValLen(s[p + 1]))] + s[p + 2..];
            Parses(r) && Decode(r) == Decode(s) && Parses(r[..p])
  {
    hide IsZero, IsXZero, IsVal, Parses, Decode, ValByte, ValValue, ValLen, Repeat;
    var v, l1, l2 := ValValue(s[p]), ValLen(s[p]), ValLen(s[p + 1]);
    OneVal(s, p);
    OneVal(s, p + 1);
    assert s[p + 1 + 1..] == s[p + 2..];
    ValRange(s[p]);
    ValDecodes(v, l1 + l2);
    var m := [ValByte(v, l1 + l2)];
    DecodeSplice(s[..p], m, s[p + 2..]);
    assert (s[..p] + m + s[p + 2..])[..p] == s[..p];
    RepeatConcat(v, l1, l2);
    JoinRuns(Decode(s[..p]), Repeat(v, l1), Repeat(v, l2), Decode(s[p + 2..]));
  }

  lemma RepeatConcat(v: Byte, m: nat, n: nat)
    ensures Repeat(v, m) + Repeat(v, n) == Repeat(v, m + n)
  {
  }

  lemma JoinRuns(a: seq<Byte>, b: seq<Byte>, c: seq<Byte>, d: seq<Byte>)
    ensures a + b + c + d == a + (b + c) + d
  {
  }

  lemma OneVal(s: seq<Byte>, p: nat)
    requires Parses(s) && p < |s| && Parses(s[..p]) && IsVal(s[p])
    ensures Parses(s[..p + 1]) && Parses(s[p + 1..])
    ensures Decode(s) == Decode(s[..p]) + Repeat(ValValue(s[p]), ValLen(s[p])) + Decode(s[p + 1..])
    ensures Decode(s[..p + 1]) == Decode(s[..p]) + Repeat(ValValue(s[p]), ValLen(s[p]))
  {
    OpcodeKinds(s[p]);
    ParsesSnoc(s, p);
  }

  /** Scans up to 5 opcodes from `start`, merging neighbouring VAL opcodes of one value. */
  method MergeAdjacent(bytes: seq<Byte>, start: nat) returns (s: seq<Byte>)
    requires Parses(bytes) && start <= |bytes| && Parses(bytes[..start])
    ensures Parses(s) && Decode(s) == Decode(bytes) && |s| <= |bytes|
  {
    s := bytes;
    var p: nat, scanlen: nat := start, 5;
    while p < |s| && scanlen > 0
      invariant p <= |s| <= |bytes| && Parses(s) && Parses(s[..p]) && Decode(s) == Decode(bytes)
      decreases scanlen
    {
      hide *;
      scanlen := scanlen - 1;
      ParsesSnoc(s, p);
      LengthOfOp(s, p);
      OpcodeKinds(s[p]);
      if IsXZero(s[p]) {
        p := p + 2;
      } else if IsZero(s[p]) {
        p := p + 1;
      } else {
        var merged := false;
        if p + 1 < |s| && IsVal(s[p + 1]) && ValValue(s[p]) == ValValue(s[p + 1]) {
          var len := ValLen(s[p]) + ValLen(s[p + 1]);
          if len <= VAL_MAX_LEN {
            MergeVals(s, p);
            s := s[..p] + [ValByte(ValValue(s[p]), len)] + s[p + 2..];
            merged := true;
          }
        }
        if !merged {
          p := p + 1;
        }
      }
    }
  }
}
