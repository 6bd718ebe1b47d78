/**
 Integers in a byte array: two's complement, least significant byte first, in
 2, 4 or 8 bytes each.
 */
module IntsetBytes {
  import opened Octets

  type Int64 = v: int | -0x8000_0000_0000_0000 <= v < 0x8000_0000_0000_0000

  predicate IsEncoding(w: nat) {
    w == 2 || w == 4 || w == 8
  }

  function Pow256(w: nat): (r: nat)
    ensures r > 0
  {
    if w == 0 then 1 else 256 * Pow256(w - 1)
  }

  lemma PowersOf256()
    ensures Pow256(2) == 0x1_0000 && Pow256(4) == 0x1_0000_0000 && Pow256(8) == 0x1_0000_0000_0000_0000
  {
    assert Pow256(2) == 0x1_0000;
    assert Pow256(3) == 0x100_0000;
    assert Pow256(4) == 0x1_0000_0000;
    assert Pow256(6) == 256 * 256 * Pow256(4);
    assert Pow256(8) == 256 * 256 * Pow256(6);
  }

  /** The w low bytes of u. */
  function LowBytes(u: nat, w: nat): (s: ByteString)
    ensures |s| == w
  {
    if w == 0 then [] else [u % 256] + LowBytes(u / 256, w - 1)
  }

  function Unsigned(s: ByteString): (u: nat)
    ensures u < Pow256(|s|)
  {
    if s == [] then 0 else s[0] + 256 * Unsigned(s[1..])
  }

  lemma {:induction false} UnsignedLowBytes(u: nat, w: nat)
    requires u < Pow256(w)
    ensures Unsigned(LowBytes(u, w)) == u
  {
    if w > 0 {
      UnsignedLowBytes(u / 256, w - 1);
      assert LowBytes(u, w)[1..] == LowBytes(u / 256, w - 1);
    }
  }

  /** A cast to w bytes and a store. */
  function EncodeInt(v: int, w: nat): (s: ByteString)
    ensures |s| == w
  {
    LowBytes(v % Pow256(w), w)
  }

  function DecodeInt(s: ByteString): int {
    var u := Unsigned(s);
    if 2 * u >= Pow256(|s|) then u - Pow256(|s|) else u
  }

  /** The least significant byte comes first: the first w bytes of a longer encoding are the shorter one. */
  lemma {:induction false} LowestFirst(u: nat, w: nat, x: nat)
    requires w <= x
    ensures LowBytes(u, x)[..w] == LowBytes(u, w) && (w > 0 ==> LowBytes(u, x)[0] == u % 256)
  {
    if w > 0 {
      LowestFirst(u / 256, w - 1, x - 1);
      assert LowBytes(u, x) == [u % 256] + LowBytes(u / 256, x - 1);
    }
  }

  predicate Fits(v: int, w: nat) {
    0 - Pow256(w) <= 2 * v < Pow256(w)
  }

  /** A value survives the store exactly when it fits. */
  lemma DecodeEncode(v: int, w: nat)
    requires w > 0
    ensures Fits(DecodeInt(EncodeInt(v, w)), w)
    ensures DecodeInt(EncodeInt(v, w)) == v <==> Fits(v, w)
  {
    var p := Pow256(w);
    UnsignedLowBytes(v % p, w);
    hide LowBytes, Unsigned;
    EvenPower(w);
    if Fits(v, w) {
      ModInRange(v, p);
    }
  }

  lemma EvenPower(w: nat)
    requires w > 0
    ensures Pow256(w) % 2 == 0
  {
  }

  lemma ModInRange(v: int, p: nat)
    requires 0 < p && 0 <= v + p && v < p
    ensures v % p == if v < 0 then v + p else v
  {
    if v < 0 {
      assert (v + p) % p == v + p;
    }
  }

  lemma DecodedFits(s: ByteString)
    requires s != []
    ensures Fits(DecodeInt(s), |s|)
  {
    hide Unsigned;
  }

  /** _intsetValueEncoding: the least width that a value fits. */
  function ValueEncoding(v: Int64): (w: nat)
    ensures IsEncoding(w)
    ensures forall u :: IsEncoding(u) ==> (w <= u <==> Fits(v, u))
  {
    PowersOf256();
    if v < -0x8000_0000 || v > 0x7fff_ffff then 8
    else if v < -0x8000 || v > 0x7fff then 4
    else 2
  }

  // ----- elements of a byte string -----

  /** The bytes of the element at position i are there. */
  predicate Holds(c: ByteString, w: nat, i: nat) {
    i * w + w <= |c|
  }

  function At(c: ByteString, w: nat, i: nat): int
    requires Holds(c, w, i)
  {
    DecodeInt(c[i * w..i * w + w])
  }

  /** c with the bytes s written at offset `at`. */
  function Written(c: ByteString, at: nat, s: ByteString): (r: ByteString)
    requires at + |s| <= |c|
    ensures |r| == |c|
  {
    c[..at] + s + c[at + |s|..]
  }

  lemma WrittenHere(c: ByteString, at: nat, s: ByteString, from: nat, upTo: nat)
    requires at + |s| <= |c| && at <= from <= upTo <= at + |s|
    ensures Written(c, at, s)[from..upTo] == s[from - at..upTo - at]
  {
  }

  lemma WrittenElsewhere(c: ByteString, at: nat, s: ByteString, from: nat, upTo: nat)
    requires at + |s| <= |c| && from <= upTo <= |c| && (upTo <= at || at + |s| <= from)
    ensures Written(c, at, s)[from..upTo] == c[from..upTo]
  {
  }

  lemma Offsets(i: nat, j: nat, w: nat)
    requires i < j
    ensures i * w + w <= j * w && (i + 1) * w == i * w + w
  {
    calc {
      j * w;
      (i + 1 + (j - i - 1)) * w;
      (i + 1) * w + (j - i - 1) * w;
    }
    assert (i + 1) * w == i * w + w;
    assert (j - i - 1) * w >= 0;
  }

  lemma HoldsBelow(c: ByteString, w: nat, n: nat, i: nat)
    requires i < n && n * w <= |c|
    ensures Holds(c, w, i)
  {
    Offsets(i, n, w);
  }

  function Elements(c: ByteString, w: nat, n: nat): (es: seq<int>)
    requires n * w <= |c|
    ensures |es| == n
  {
    seq(n, i requires 0 <= i < n => HoldsBelow(c, w, n, i); At(c, w, i))
  }

  /** Storing one element changes that element alone. */
  lemma StoreElement(c: ByteString, w: nat, p: nat, v: int, i: nat)
    requires w > 0 && Holds(c, w, p) && Holds(c, w, i) && Fits(v, w)
    ensures var c' := Written(c, p * w, EncodeInt(v, w)); Holds(c', w, i) && At(c', w, i) == if i == p then v else At(c, w, i)
  {
    hide EncodeInt, DecodeInt, Written, Fits;
    var s := EncodeInt(v, w);
    if i == p {
      DecodeEncode(v, w);
      WrittenAll(c, p * w, s);
    } else {
      if i < p {
        Offsets(i, p, w);
      } else {
        Offsets(p, i, w);
      }
      WrittenElsewhere(c, p * w, s, i * w, i * w + w);
    }
  }

  lemma WrittenAll(c: ByteString, at: nat, s: ByteString)
    requires at + |s| <= |c|
    ensures Written(c, at, s)[at..at + |s|] == s
  {
  }

  /**
   Storing the widened element p at its new place, `shift` positions up,
   touches none of the elements below p that are still to be read.
   */
  lemma WidenedStoreIsAbove(c: ByteString, u: nat, w: nat, p: nat, shift: nat, v: int, i: nat)
    requires 0 < u <= w && Holds(c, w, p + shift) && i < p
    ensures var c' := Written(c, (p + shift) * w, EncodeInt(v, w)); Holds(c, u, i) && Holds(c', u, i) && At(c', u, i) == At(c, u, i)
  {
    var at := (p + shift) * w;
    hide EncodeInt, DecodeInt, Written;
    Offsets(i, p, u);
    assert at == p * w + shift * w;
    assert p * u <= p * w by {
      assert p * w == p * u + p * (w - u);
    }
    WrittenElsewhere(c, at, EncodeInt(v, w), i * u, i * u + u);
  }

  lemma MovedBytes(c: ByteString, a: nat, b: nat, d: nat, x: nat, w: nat)
    requires a <= b <= |c| && d + (b - a) <= |c| && d <= x && x + w <= d + (b - a)
    ensures Written(c, d, c[a..b])[x..x + w] == c[x - d + a..x - d + a + w]
  {
    hide Written;
    WrittenHere(c, d, c[a..b], x, x + w);
    SliceOfSlice(c, a, b, x - d, x + w - d);
  }

  lemma SliceOfSlice(c: ByteString, a: nat, b: nat, i: nat, j: nat)
    requires a <= b <= |c| && i <= j <= b - a
    ensures c[a..b][i..j] == c[a + i..a + j]
  {
    var l, r := c[a..b][i..j], c[a + i..a + j];
    forall k | 0 <= k < j - i ensures l[k] == r[k] {
    }
    assert l == r;
  }

  lemma Scaled(a: nat, b: nat, w: nat)
    requires a <= b
    ensures a * w <= b * w && b * w - a * w == (b - a) * w
  {
    assert b * w == (a + (b - a)) * w == a * w + (b - a) * w;
    assert (b - a) * w >= 0;
  }

  /** The n - from elements behind `from` have room at `dest`. */
  predicate RoomToMove(c: ByteString, w: nat, from: nat, dest: nat, n: nat) {
    from <= n && from * w <= n * w <= |c| && dest * w + (n * w - from * w) <= |c|
  }

  lemma HasRoom(c: ByteString, w: nat, from: nat, dest: nat, n: nat)
    requires from <= n && n * w <= |c| && (dest + n - from) * w <= |c|
    ensures RoomToMove(c, w, from, dest, n)
  {
    Scaled(from, n, w);
    Scaled(dest, dest + n - from, w);
  }

  /** Moving the tail of the elements is moving the elements. */
  lemma MovedElement(c: ByteString, w: nat, from: nat, dest: nat, n: nat, k: nat)
    requires RoomToMove(c, w, from, dest, n) && from <= k < n
    ensures var c' := Written(c, dest * w, c[from * w..n * w]);
            Holds(c, w, k) && Holds(c', w, dest + k - from) && At(c', w, dest + k - from) == At(c, w, k)
  {
    hide DecodeInt, Written;
    Scaled(dest, dest + k - from, w);
    Scaled(from, k, w);
    Offsets(k, n, w);
    MovedBytes(c, from * w, n * w, dest * w, (dest + k - from) * w, w);
  }

  lemma UnmovedElement(c: ByteString, w: nat, from: nat, dest: nat, n: nat, i: nat)
    requires RoomToMove(c, w, from, dest, n) && i < dest
    ensures var c' := Written(c, dest * w, c[from * w..n * w]);
            Holds(c, w, i) && Holds(c', w, i) && At(c', w, i) == At(c, w, i)
  {
    hide DecodeInt, Written;
    Offsets(i, dest, w);
    WrittenElsewhere(c, dest * w, c[from * w..n * w], i * w, i * w + w);
  }
}
