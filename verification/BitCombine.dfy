/**
 BITOP: combining bit strings byte by byte as if they were padded with zeros,
 four words at a time as long as all of them have data.
 */
module BitCombine {
  import opened Basics
  import opened BitStrings
  import opened BitSearch

  datatype Op = AndOp | OrOp | XorOp | NotOp

  function Combine(op: Op, a: Byte, b: Byte): Byte {
    match op
    case AndOp => a & b
    case OrOp => a | b
    case XorOp => a ^ b
    case NotOp => a
  }

  function Begin(op: Op, a: Byte): Byte {
    if op == NotOp then !a else a
  }

  function CombineWord(op: Op, x: bv64, y: bv64): bv64 {
    match op
    case AndOp => x & y
    case OrOp => x | y
    case XorOp => x ^ y
    case NotOp => x
  }

  /** The bytewise result over the first n strings at byte k. */
  function Folded(op: Op, srcs: seq<Bytes>, n: nat, k: nat): Byte
    requires 0 < n <= |srcs|
  {
    if n == 1 then Begin(op, Pad(srcs[0], k)) else Combine(op, Folded(op, srcs, n - 1, k), Pad(srcs[n - 1], k))
  }

  // ----- what the result means, bit by bit -----

  /** How many of the first n strings have bit k set. */
  function Setters(srcs: seq<Bytes>, n: nat, k: nat): nat
    requires n <= |srcs|
  {
    if n == 0 then 0 else Setters(srcs, n - 1, k) + One(BitAt(srcs[n - 1], k))
  }

  lemma AndBit(a: Byte, b: Byte, i: nat)
    requires i < 8
    ensures BitIn(Combine(AndOp, a, b), i) == (BitIn(a, i) && BitIn(b, i))
  {
  }

  lemma OrBit(a: Byte, b: Byte, i: nat)
    requires i < 8
    ensures BitIn(Combine(OrOp, a, b), i) == (BitIn(a, i) || BitIn(b, i))
  {
  }

  lemma XorBit(a: Byte, b: Byte, i: nat)
    requires i < 8
    ensures BitIn(Combine(XorOp, a, b), i) == (BitIn(a, i) != BitIn(b, i))
  {
    XorMask(a, b, Mask(i));
  }

  lemma XorMask(a: Byte, b: Byte, m: Byte)
    requires m == 1 || m == 2 || m == 4 || m == 8 || m == 16 || m == 32 || m == 64 || m == 128
    ensures (a ^ b) & m != 0 <==> (a & m != 0) != (b & m != 0)
  {
  }

  lemma NotBit(a: Byte, i: nat)
    requires i < 8
    ensures BitIn(Begin(NotOp, a), i) == !BitIn(a, i)
  {
  }

  /**
   Bit k of the result is set when it is set in all strings (AND), in some
   string (OR), in an odd number of strings (XOR), or not in the one string (NOT).
   */
  lemma {:induction false} FoldedBit(op: Op, srcs: seq<Bytes>, n: nat, k: nat)
    requires 0 < n <= |srcs| && (op == NotOp ==> n == 1)
    ensures BitIn(Folded(op, srcs, n, k / 8), k % 8) ==
            match op
            case AndOp => Setters(srcs, n, k) == n
            case OrOp => Setters(srcs, n, k) > 0
            case XorOp => Setters(srcs, n, k) % 2 == 1
            case NotOp => !BitAt(srcs[0], k)
    ensures Setters(srcs, n, k) <= n
  {
    hide BitIn, Combine;
    NotBit(Pad(srcs[0], k / 8), k % 8);
    if n > 1 {
      FoldedBit(op, srcs, n - 1, k);
      var a, b, i := Folded(op, srcs, n - 1, k / 8), Pad(srcs[n - 1], k / 8), k % 8;
      AndBit(a, b, i);
      OrBit(a, b, i);
      XorBit(a, b, i);
    } else {
      assert Setters(srcs, 1, k) == Setters(srcs, 0, k) + One(BitAt(srcs[0], k));
    }
  }

  // ----- words -----

  lemma AndWords(a0: Byte, a1: Byte, a2: Byte, a3: Byte, a4: Byte, a5: Byte, a6: Byte, a7: Byte,
                 b0: Byte, b1: Byte, b2: Byte, b3: Byte, b4: Byte, b5: Byte, b6: Byte, b7: Byte)
    ensures CombineWord(AndOp, EightBytes(a0, a1, a2, a3, a4, a5, a6, a7), EightBytes(b0, b1, b2, b3, b4, b5, b6, b7))
         == EightBytes(Combine(AndOp, a0, b0), Combine(AndOp, a1, b1), Combine(AndOp, a2, b2), Combine(AndOp, a3, b3),
                 Combine(AndOp, a4, b4), Combine(AndOp, a5, b5), Combine(AndOp, a6, b6), Combine(AndOp, a7, b7))
  {
  }

  lemma OrWords(a0: Byte, a1: Byte, a2: Byte, a3: Byte, a4: Byte, a5: Byte, a6: Byte, a7: Byte,
                b0: Byte, b1: Byte, b2: Byte, b3: Byte, b4: Byte, b5: Byte, b6: Byte, b7: Byte)
    ensures CombineWord(OrOp, EightBytes(a0, a1, a2, a3, a4, a5, a6, a7), EightBytes(b0, b1, b2, b3, b4, b5, b6, b7))
         == EightBytes(Combine(OrOp, a0, b0), Combine(OrOp, a1, b1), Combine(OrOp, a2, b2), Combine(OrOp, a3, b3),
                 Combine(OrOp, a4, b4), Combine(OrOp, a5, b5), Combine(OrOp, a6, b6), Combine(OrOp, a7, b7))
  {
  }

  lemma XorWords(a0: Byte, a1: Byte, a2: Byte, a3: Byte, a4: Byte, a5: Byte, a6: Byte, a7: Byte,
                 b0: Byte, b1: Byte, b2: Byte, b3: Byte, b4: Byte, b5: Byte, b6: Byte, b7: Byte)
    ensures CombineWord(XorOp, EightBytes(a0, a1, a2, a3, a4, a5, a6, a7), EightBytes(b0, b1, b2, b3, b4, b5, b6, b7))
         == EightBytes(Combine(XorOp, a0, b0), Combine(XorOp, a1, b1), Combine(XorOp, a2, b2), Combine(XorOp, a3, b3),
                 Combine(XorOp, a4, b4), Combine(XorOp, a5, b5), Combine(XorOp, a6, b6), Combine(XorOp, a7, b7))
  {
  }

  lemma KeptWords(a0: Byte, a1: Byte, a2: Byte, a3: Byte, a4: Byte, a5: Byte, a6: Byte, a7: Byte,
                  b0: Byte, b1: Byte, b2: Byte, b3: Byte, b4: Byte, b5: Byte, b6: Byte, b7: Byte)
    ensures CombineWord(NotOp, EightBytes(a0, a1, a2, a3, a4, a5, a6, a7), EightBytes(b0, b1, b2, b3, b4, b5, b6, b7))
         == EightBytes(Combine(NotOp, a0, b0), Combine(NotOp, a1, b1), Combine(NotOp, a2, b2), Combine(NotOp, a3, b3),
                 Combine(NotOp, a4, b4), Combine(NotOp, a5, b5), Combine(NotOp, a6, b6), Combine(NotOp, a7, b7))
  {
    hide EightBytes;
  }

  /** A word operation works on each byte of the words by itself. */
  lemma WordsByByte(op: Op, a0: Byte, a1: Byte, a2: Byte, a3: Byte, a4: Byte, a5: Byte, a6: Byte, a7: Byte,
                    b0: Byte, b1: Byte, b2: Byte, b3: Byte, b4: Byte, b5: Byte, b6: Byte, b7: Byte)
    ensures CombineWord(op, EightBytes(a0, a1, a2, a3, a4, a5, a6, a7), EightBytes(b0, b1, b2, b3, b4, b5, b6, b7))
         == EightBytes(Combine(op, a0, b0), Combine(op, a1, b1), Combine(op, a2, b2), Combine(op, a3, b3),
                 Combine(op, a4, b4), Combine(op, a5, b5), Combine(op, a6, b6), Combine(op, a7, b7))
  {
    hide EightBytes, Combine, CombineWord;
    match op
    case AndOp => AndWords(a0, a1, a2, a3, a4, a5, a6, a7, b0, b1, b2, b3, b4, b5, b6, b7);
    case OrOp => OrWords(a0, a1, a2, a3, a4, a5, a6, a7, b0, b1, b2, b3, b4, b5, b6, b7);
    case XorOp => XorWords(a0, a1, a2, a3, a4, a5, a6, a7, b0, b1, b2, b3, b4, b5, b6, b7);
    case NotOp => KeptWords(a0, a1, a2, a3, a4, a5, a6, a7, b0, b1, b2, b3, b4, b5, b6, b7);
  }

  function InvertedWord(w: bv64): bv64 {
    !w
  }

  function Inverted(b: Byte): Byte {
    !b
  }

  lemma NotWord(a0: Byte, a1: Byte, a2: Byte, a3: Byte, a4: Byte, a5: Byte, a6: Byte, a7: Byte)
    ensures !EightBytes(a0, a1, a2, a3, a4, a5, a6, a7) == EightBytes(!a0, !a1, !a2, !a3, !a4, !a5, !a6, !a7)
  {
  }

  lemma NotByByte(a0: Byte, a1: Byte, a2: Byte, a3: Byte, a4: Byte, a5: Byte, a6: Byte, a7: Byte)
    ensures InvertedWord(EightBytes(a0, a1, a2, a3, a4, a5, a6, a7))
         == EightBytes(Inverted(a0), Inverted(a1), Inverted(a2), Inverted(a3), Inverted(a4), Inverted(a5), Inverted(a6), Inverted(a7))
  {
    hide EightBytes;
    NotWord(a0, a1, a2, a3, a4, a5, a6, a7);
  }

  /** Byte m of a word as it lies in memory. */
  function ByteOf(w: bv64, m: nat): Byte
    requires m < 8
  {
    match m
    case 0 => (w >> 56) as bv8
    case 1 => ((w >> 48) & 255) as bv8
    case 2 => ((w >> 40) & 255) as bv8
    case 3 => ((w >> 32) & 255) as bv8
    case 4 => ((w >> 24) & 255) as bv8
    case 5 => ((w >> 16) & 255) as bv8
    case 6 => ((w >> 8) & 255) as bv8
    case _ => (w & 255) as bv8
  }

  lemma ByteOfWord(b0: Byte, b1: Byte, b2: Byte, b3: Byte, b4: Byte, b5: Byte, b6: Byte, b7: Byte)
    ensures var w := EightBytes(b0, b1, b2, b3, b4, b5, b6, b7);
            && ByteOf(w, 0) == b0 && ByteOf(w, 1) == b1 && ByteOf(w, 2) == b2 && ByteOf(w, 3) == b3
            && ByteOf(w, 4) == b4 && ByteOf(w, 5) == b5 && ByteOf(w, 6) == b6 && ByteOf(w, 7) == b7
  {
  }

  /** The bytes c with the eight at `at` combined with those of s at `off`. */
  ghost predicate CombinedRange(op: Op, c: Bytes, d: Bytes, at: nat, len: nat, s: Bytes, off: nat)
  {
    && |c| == |d| && at + len <= |d| && off + len <= |s|
    && forall k :: 0 <= k < |d| ==> d[k] == if at <= k < at + len then Combine(op, c[k], s[k - at + off]) else c[k]
  }

  method Load(a: array<Byte>, at: nat) returns (w: bv64)
    requires at + 8 <= a.Length
    ensures w == EightBytes(a[at], a[at + 1], a[at + 2], a[at + 3], a[at + 4], a[at + 5], a[at + 6], a[at + 7])
  {
    w := EightBytes(a[at], a[at + 1], a[at + 2], a[at + 3], a[at + 4], a[at + 5], a[at + 6], a[at + 7]);
  }

  method Store(a: array<Byte>, at: nat, w: bv64)
    requires at + 8 <= a.Length
    modifies a
    ensures forall k :: 0 <= k < a.Length ==> a[k] == if at <= k < at + 8 then ByteOf(w, k - at) else old(a[k])
  {
    hide ByteOf;
    forall m | 0 <= m < 8 {
      a[at + m] := ByteOf(w, m);
    }
  }

  /** One `lres[q] op= lp[i][q]`. */
  method CombineInto(op: Op, res: array<Byte>, at: nat, src: Bytes, off: nat)
    requires at + 8 <= res.Length && off + 8 <= |src|
    modifies res
    ensures CombinedRange(op, old(res[..]), res[..], at, 8, src, off)
  {
    hide ByteOf, EightBytes, Combine, CombineWord;
    ghost var c := res[..];
    var x := Load(res, at);
    var y := EightBytes(src[off], src[off + 1], src[off + 2], src[off + 3], src[off + 4], src[off + 5], src[off + 6], src[off + 7]);
    WordsByByte(op, res[at], res[at + 1], res[at + 2], res[at + 3], res[at + 4], res[at + 5], res[at + 6], res[at + 7],
                src[off], src[off + 1], src[off + 2], src[off + 3], src[off + 4], src[off + 5], src[off + 6], src[off + 7]);
    ByteOfWord(Combine(op, c[at], src[off]), Combine(op, c[at + 1], src[off + 1]), Combine(op, c[at + 2], src[off + 2]),
               Combine(op, c[at + 3], src[off + 3]), Combine(op, c[at + 4], src[off + 4]), Combine(op, c[at + 5], src[off + 5]),
               Combine(op, c[at + 6], src[off + 6]), Combine(op, c[at + 7], src[off + 7]));
    Store(res, at, CombineWord(op, x, y));
  }

  /** One `lres[q] = ~lres[q]`. */
  method InvertWord(res: array<Byte>, at: nat)
    requires at + 8 <= res.Length
    modifies res
    ensures forall k :: 0 <= k < res.Length ==> res[k] == if at <= k < at + 8 then Inverted(old(res[k])) else old(res[k])
  {
    hide ByteOf, EightBytes, Inverted, InvertedWord;
    ghost var c := res[..];
    var x := Load(res, at);
    NotByByte(c[at], c[at + 1], c[at + 2], c[at + 3], c[at + 4], c[at + 5], c[at + 6], c[at + 7]);
    ByteOfWord(Inverted(c[at]), Inverted(c[at + 1]), Inverted(c[at + 2]), Inverted(c[at + 3]),
               Inverted(c[at + 4]), Inverted(c[at + 5]), Inverted(c[at + 6]), Inverted(c[at + 7]));
    Store(res, at, InvertedWord(x));
  }

  lemma JoinRanges(op: Op, c: Bytes, d: Bytes, e: Bytes, at: nat, m: nat, n: nat, s: Bytes, off: nat)
    requires CombinedRange(op, c, d, at, m, s, off) && CombinedRange(op, d, e, at + m, n, s, off + m)
    ensures CombinedRange(op, c, e, at, m + n, s, off)
  {
    hide Combine;
  }

  /** The four words of one turn for one string. */
  method CombineFour(op: Op, res: array<Byte>, at: nat, src: Bytes, off: nat)
    requires at + 32 <= res.Length && off + 32 <= |src|
    modifies res
    ensures CombinedRange(op, old(res[..]), res[..], at, 32, src, off)
  {
    hide CombinedRange;
    ghost var c := res[..];
    CombineInto(op, res, at, src, off);
    ghost var c1 := res[..];
    CombineInto(op, res, at + 8, src, off + 8);
    ghost var c2 := res[..];
    JoinRanges(op, c, c1, c2, at, 8, 8, src, off);
    CombineInto(op, res, at + 16, src, off + 16);
    ghost var c3 := res[..];
    JoinRanges(op, c, c2, c3, at, 16, 8, src, off);
    CombineInto(op, res, at + 24, src, off + 24);
    JoinRanges(op, c, c3, res[..], at, 24, 8, src, off);
  }

  // ----- the fast path -----

  /** From j on the first string's bytes still wait; before j all is combined. */
  ghost predicate DoneUpTo(op: Op, srcs: seq<Bytes>, c: Bytes, j: nat, minlen: nat)
    requires srcs != []
  {
    && j <= minlen <= |c| && minlen <= |srcs[0]|
    && (forall k :: 0 <= k < j ==> c[k] == Folded(op, srcs, |srcs|, k))
    && (forall k :: j <= k < minlen ==> c[k] == srcs[0][k])
  }

  /** In the turn at j, n strings are combined. */
  ghost predicate TurnAt(op: Op, srcs: seq<Bytes>, c: Bytes, j: nat, n: nat, minlen: nat)
    requires 0 < n <= |srcs|
  {
    && j + 32 <= minlen <= |c| && minlen <= |srcs[0]|
    && (forall k :: 0 <= k < j ==> c[k] == Folded(op, srcs, |srcs|, k))
    && (forall k :: j <= k < j + 32 ==> c[k] == Folded(op, srcs, n, k))
    && (forall k :: j + 32 <= k < minlen ==> c[k] == srcs[0][k])
  }

  lemma TurnStarts(op: Op, srcs: seq<Bytes>, c: Bytes, j: nat, minlen: nat)
    requires srcs != [] && op != NotOp && DoneUpTo(op, srcs, c, j, minlen) && j + 32 <= minlen
    ensures TurnAt(op, srcs, c, j, 1, minlen)
  {
    forall k | j <= k < j + 32 ensures c[k] == Folded(op, srcs, 1, k) {
    }
  }

  lemma TurnGoesOn(op: Op, srcs: seq<Bytes>, c: Bytes, d: Bytes, j: nat, n: nat, minlen: nat)
    requires 0 < n < |srcs| && TurnAt(op, srcs, c, j, n, minlen) && minlen <= |srcs[n]|
    requires CombinedRange(op, c, d, j, 32, srcs[n], j)
    ensures TurnAt(op, srcs, d, j, n + 1, minlen)
  {
    hide Combine;
    forall k | j <= k < j + 32 ensures d[k] == Folded(op, srcs, n + 1, k) {
    }
  }

  /** The loop of AND, OR and XOR: lp holds how far each string was read. */
  method FastLoop(op: Op, srcs: seq<Bytes>, res: array<Byte>, minlen: nat) returns (j: nat)
    requires srcs != [] && op != NotOp && (forall i :: 0 <= i < |srcs| ==> minlen <= |srcs[i]|)
    requires DoneUpTo(op, srcs, res[..], 0, minlen)
    modifies res
    ensures DoneUpTo(op, srcs, res[..], j, minlen)
  {
    hide TurnAt, CombinedRange;
    assert minlen <= res.Length;
    hide DoneUpTo;
    var lp: seq<nat>, left := seq(|srcs|, _ => 0), minlen;
    j := 0;
    while left >= 32
      invariant left >= 0 && j + left == minlen <= res.Length
      invariant |lp| == |srcs| && forall i :: 1 <= i < |lp| ==> lp[i] == j
      invariant DoneUpTo(op, srcs, res[..], j, minlen)
      decreases left
    {
      TurnStarts(op, srcs, res[..], j, minlen);
      var i := 1;
      while i < |srcs|
        invariant 1 <= i <= |srcs| && |lp| == |srcs|
        invariant forall k :: 1 <= k < |lp| ==> lp[k] == if k < i then j + 32 else j
        invariant TurnAt(op, srcs, res[..], j, i, minlen)
      {
        ghost var c := res[..];
        CombineFour(op, res, j, srcs[i], lp[i]);
        TurnGoesOn(op, srcs, c, res[..], j, i, minlen);
        lp := lp[i := lp[i] + 32];
        i := i + 1;
      }
      TurnEnds(op, srcs, res[..], j, minlen);
      j, left := j + 32, left - 32;
    }
  }

  lemma TurnEnds(op: Op, srcs: seq<Bytes>, c: Bytes, j: nat, minlen: nat)
    requires srcs != [] && TurnAt(op, srcs, c, j, |srcs|, minlen)
    ensures DoneUpTo(op, srcs, c, j + 32, minlen)
  {
  }

  lemma InvertedRange(srcs: seq<Bytes>, c: Bytes, d: Bytes, j: nat, n: nat, minlen: nat)
    requires |srcs| == 1 && DoneUpTo(NotOp, srcs, c, j, minlen) && j + n <= minlen && |c| == |d|
    requires forall k :: 0 <= k < |d| ==> d[k] == if j <= k < j + n then Inverted(c[k]) else c[k]
    ensures DoneUpTo(NotOp, srcs, d, j + n, minlen)
  {
    assert forall b: Byte :: Inverted(b) == Begin(NotOp, b);
    hide Begin, Inverted;
  }

  method FastNot(srcs: seq<Bytes>, res: array<Byte>, minlen: nat) returns (j: nat)
    requires |srcs| == 1 && DoneUpTo(NotOp, srcs, res[..], 0, minlen)
    modifies res
    ensures DoneUpTo(NotOp, srcs, res[..], j, minlen)
  {
    assert minlen <= res.Length;
    hide DoneUpTo, Begin;
    var left := minlen;
    j := 0;
    while left >= 32
      invariant left >= 0 && j + left == minlen <= res.Length
      invariant DoneUpTo(NotOp, srcs, res[..], j, minlen)
      decreases left
    {
      InvertFour(srcs, res, j, minlen);
      j, left := j + 32, left - 32;
    }
  }

  method InvertFour(srcs: seq<Bytes>, res: array<Byte>, j: nat, ghost minlen: nat)
    requires |srcs| == 1 && DoneUpTo(NotOp, srcs, res[..], j, minlen) && j + 32 <= minlen <= res.Length
    modifies res
    ensures DoneUpTo(NotOp, srcs, res[..], j + 32, minlen)
  {
    hide DoneUpTo, Begin;
    ghost var c := res[..];
    InvertWord(res, j);
    InvertedRange(srcs, c, res[..], j, 8, minlen);
    ghost var c1 := res[..];
    InvertWord(res, j + 8);
    InvertedRange(srcs, c1, res[..], j + 8, 8, minlen);
    ghost var c2 := res[..];
    InvertWord(res, j + 16);
    InvertedRange(srcs, c2, res[..], j + 16, 8, minlen);
    ghost var c3 := res[..];
    InvertWord(res, j + 24);
    InvertedRange(srcs, c3, res[..], j + 24, 8, minlen);
  }

  // ----- the command -----

  function MaxLength(srcs: seq<Bytes>): (m: nat)
    ensures forall i :: 0 <= i < |srcs| ==> |srcs[i]| <= m
    ensures m > 0 ==> exists i :: 0 <= i < |srcs| && |srcs[i]| == m
  {
    if srcs == [] then 0
    else
      var init := srcs[..|srcs| - 1];
      var m := MaxLength(init);
      assert forall i :: 0 <= i < |init| ==> srcs[i] == init[i];
      if |srcs[|srcs| - 1]| > m then |srcs[|srcs| - 1]| else m
  }

  lemma MaxLengthNext(srcs: seq<Bytes>, j: nat)
    requires j < |srcs|
    ensures MaxLength(srcs[..0]) == 0
    ensures MaxLength(srcs[..j + 1]) == if |srcs[j]| > MaxLength(srcs[..j]) then |srcs[j]| else MaxLength(srcs[..j])
  {
    assert srcs[..j + 1][..j] == srcs[..j];
  }

  /** The lengths loop; keys that do not exist count as empty strings. */
  method Lengths(srcs: seq<Bytes>) returns (maxlen: nat, minlen: nat)
    requires srcs != []
    ensures maxlen == MaxLength(srcs) && minlen <= maxlen && forall i :: 0 <= i < |srcs| ==> minlen <= |srcs[i]|
  {
    hide *;
    maxlen, minlen := 0, 0;
    var j := 0;
    MaxLengthNext(srcs, 0);
    while j < |srcs|
      invariant 0 <= j <= |srcs| && maxlen == MaxLength(srcs[..j]) && minlen <= maxlen
      invariant forall i :: 0 <= i < j ==> minlen <= |srcs[i]|
    {
      MaxLengthNext(srcs, j);
      if |srcs[j]| > maxlen {
        maxlen := |srcs[j]|;
      }
      if j == 0 || |srcs[j]| < minlen {
        minlen := |srcs[j]|;
      }
      j := j + 1;
    }
    assert srcs[..j] == srcs;
  }

  /** The computing part of bitopCommand. */
  method BitOp(op: Op, srcs: seq<Bytes>) returns (r: Bytes)
    requires srcs != [] && (op == NotOp ==> |srcs| == 1)
    ensures |r| == MaxLength(srcs)
    ensures forall k :: 0 <= k < |r| ==> r[k] == Folded(op, srcs, |srcs|, k)
  {
    hide Folded, Begin;
    var maxlen, minlen := Lengths(srcs);
    var res := new Byte[maxlen];
    var j := 0;
    if minlen >= 32 && |srcs| <= 16 {
      forall k | 0 <= k < minlen {
        res[k] := srcs[0][k];
      }
      if op == NotOp {
        j := FastNot(srcs, res, minlen);
      } else {
        j := FastLoop(op, srcs, res, minlen);
      }
    }
    while j < maxlen
      invariant 0 <= j <= maxlen && forall k :: 0 <= k < j ==> res[k] == Folded(op, srcs, |srcs|, k)
    {
      var output := FoldByte(op, srcs, j);
      res[j] := output;
      j := j + 1;
    }
    r := res[..];
  }

  /** One byte of the plain loop. */
  method FoldByte(op: Op, srcs: seq<Bytes>, j: nat) returns (output: Byte)
    requires srcs != [] && (op == NotOp ==> |srcs| == 1)
    ensures output == Folded(op, srcs, |srcs|, j)
  {
    hide Combine;
    output := if |srcs[0]| <= j then 0 else srcs[0][j];
    if op == NotOp {
      output := !output;
    }
    var i := 1;
    while i < |srcs|
      invariant 1 <= i <= |srcs| && output == Folded(op, srcs, i, j)
    {
      var byte := if |srcs[i]| <= j then 0 else srcs[i][j];
      output := Combine(op, output, byte);
      i := i + 1;
    }
  }

  /** BITOP does to every bit what its name says. */
  lemma ResultBit(op: Op, srcs: seq<Bytes>, r: Bytes, k: nat)
    requires srcs != [] && (op == NotOp ==> |srcs| == 1) && k < 8 * |r|
    requires forall i :: 0 <= i < |r| ==> r[i] == Folded(op, srcs, |srcs|, i)
    ensures BitAt(r, k) == match op
                           case AndOp => Setters(srcs, |srcs|, k) == |srcs|
                           case OrOp => Setters(srcs, |srcs|, k) > 0
                           case XorOp => Setters(srcs, |srcs|, k) % 2 == 1
                           case NotOp => !BitAt(srcs[0], k)
  {
    hide BitIn, Folded;
    FoldedBit(op, srcs, |srcs|, k);
  }
}
