/**
 A sorted set of integers in one byte array: all elements in the same width,
 which grows, in place and from back to front, when a value needs more.
 */
module Intset {
  import opened Octets
  import opened IntsetBytes

  ghost predicate Increasing(es: seq<int>) {
    forall i, j :: 0 <= i < j < |es| ==> es[i] < es[j]
  }

  ghost function Values(es: seq<int>): set<int> {
    set e | e in es
  }

  function Inserted(es: seq<int>, p: nat, v: int): seq<int>
    requires p <= |es|
  {
    es[..p] + [v] + es[p..]
  }

  function Removed(es: seq<int>, p: nat): seq<int>
    requires p < |es|
  {
    es[..p] + es[p + 1..]
  }

  /** Position p is where v is, or where it belongs. */
  ghost predicate Place(es: seq<int>, v: int, p: nat) {
    && p <= |es| && (forall i :: 0 <= i < p ==> es[i] < v)
    && (forall i :: p <= i < |es| ==> es[i] >= v)
  }

  lemma InsertKeepsOrder(es: seq<int>, v: int, p: nat)
    requires Increasing(es) && Place(es, v, p) && v !in es
    ensures Increasing(Inserted(es, p, v)) && Values(Inserted(es, p, v)) == Values(es) + {v}
  {
    assert es == es[..p] + es[p..];
    forall i | p <= i < |es| ensures es[i] > v {
      assert es[i] in es;
    }
  }

  lemma RemoveKeepsOrder(es: seq<int>, p: nat)
    requires Increasing(es) && p < |es|
    ensures Increasing(Removed(es, p)) && Values(Removed(es, p)) == Values(es) - {es[p]}
  {
    assert es == es[..p] + [es[p]] + es[p + 1..];
    forall i | 0 <= i < |es| && i != p ensures es[i] != es[p] {
      assert i < p ==> es[i] < es[p];
    }
  }

  // ----- widening -----

  /** The elements below k are still narrow, the others are wide and `shift` positions up. */
  ghost predicate Upgrading(c: ByteString, u: nat, w: nat, es: seq<int>, k: nat, shift: nat) {
    && 0 < u <= w && k <= |es| && shift <= 1 && (|es| + 1) * w <= |c|
    && (forall i :: 0 <= i < |es| ==> Fits(es[i], w))
    && (forall i :: 0 <= i < k ==> Holds(c, u, i) && At(c, u, i) == es[i])
    && (forall q :: k + shift <= q < |es| + shift ==> Holds(c, w, q) && At(c, w, q) == es[q - shift])
  }

  lemma UpgradeStep(c: ByteString, u: nat, w: nat, es: seq<int>, k: nat, shift: nat)
    requires 0 < k && Upgrading(c, u, w, es, k, shift)
    ensures Holds(c, w, k - 1 + shift)
    ensures Upgrading(WithElement(c, w, k - 1 + shift, es[k - 1]), u, w, es, k - 1, shift)
  {
    hide At, Written, EncodeInt, Holds, Fits, WithElement;
    HoldsBelow(c, w, |es| + 1, k - 1 + shift);
    var p := k - 1 + shift;
    var c' := WithElement(c, w, p, es[k - 1]);
    forall i | 0 <= i < k - 1 ensures Holds(c', u, i) && At(c', u, i) == es[i] {
      WidenedStoreIsAbove(c, u, w, k - 1, shift, es[k - 1], i);
    }
    forall q | p <= q < |es| + shift ensures Holds(c', w, q) && At(c', w, q) == es[q - shift] {
      HoldsBelow(c, w, |es| + 1, q);
      StoreElement(c, w, p, es[k - 1], q);
    }
  }

  /** The bytes with v stored as element p. */
  function WithElement(c: ByteString, w: nat, p: nat, v: int): (r: ByteString)
    requires Holds(c, w, p)
    ensures r == Written(c, p * w, EncodeInt(v, w)) && |r| == |c|
  {
    Written(c, p * w, EncodeInt(v, w))
  }

  lemma UpgradeEnd(c: ByteString, u: nat, w: nat, es: seq<int>, shift: nat, v: int)
    requires Upgrading(c, u, w, es, 0, shift) && Fits(v, w) && |c| == (|es| + 1) * w
    ensures var p := if shift == 1 then 0 else |es|;
            Holds(c, w, p) && Elements(WithElement(c, w, p, v), w, |es| + 1) == if shift == 1 then [v] + es else es + [v]
  {
    hide At, WithElement, Holds, Fits;
    var n := |es| + 1;
    var p := if shift == 1 then 0 else |es|;
    HoldsBelow(c, w, n, p);
    var c' := WithElement(c, w, p, v);
    forall i | 0 <= i < n ensures Holds(c', w, i) && At(c', w, i) == if i == p then v else es[i - shift] {
      HoldsBelow(c, w, n, i);
      StoreElement(c, w, p, v, i);
    }
  }

  lemma UpgradeStart(c: ByteString, d: ByteString, u: nat, w: nat, n: nat, shift: nat)
    requires 0 < u <= w && |c| == n * u && |d| == (n + 1) * w && shift <= 1
    requires c <= d
    ensures Upgrading(d, u, w, Elements(c, u, n), n, shift)
  {
    var es := Elements(c, u, n);
    hide DecodeInt;
    forall i | 0 <= i < n ensures Holds(d, u, i) && At(d, u, i) == es[i] && Fits(es[i], w) {
      HoldsBelow(c, u, n, i);
      assert c[i * u..i * u + u] == d[i * u..i * u + u];
      DecodedFits(c[i * u..i * u + u]);
      WiderFits(es[i], u, w);
    }
  }

  lemma {:induction false} PowGrows(u: nat, w: nat)
    requires u <= w
    ensures Pow256(u) <= Pow256(w)
  {
    if u < w {
      PowGrows(u, w - 1);
    }
  }

  lemma WiderFits(v: int, u: nat, w: nat)
    requires u <= w && Fits(v, u)
    ensures Fits(v, w)
  {
    PowGrows(u, w);
  }

  /** A value too wide for the encoding lies outside all elements, on the side of its sign. */
  lemma OutsideAll(es: seq<int>, u: nat, v: int)
    requires !Fits(v, u) && forall i :: 0 <= i < |es| ==> Fits(es[i], u)
    ensures v !in es
    ensures Place(es, v, if v < 0 then 0 else |es|)
  {
  }

  lemma ElementsFit(c: ByteString, w: nat, n: nat)
    requires w > 0 && n * w <= |c|
    ensures forall i :: 0 <= i < n ==> Fits(Elements(c, w, n)[i], w)
  {
    hide DecodeInt, Fits;
    forall i | 0 <= i < n ensures Fits(Elements(c, w, n)[i], w) {
      HoldsBelow(c, w, n, i);
      DecodedFits(c[i * w..i * w + w]);
    }
  }

  // ----- inserting and removing in place -----

  /** Making room at p and storing v there inserts it. */
  lemma InsertBytes(c: ByteString, d: ByteString, w: nat, n: nat, p: nat, v: int)
    requires w > 0 && |c| == n * w && |d| == (n + 1) * w && c <= d && p <= n && Fits(v, w)
    ensures RoomToMove(d, w, p, p + 1, n)
    ensures var m := Written(d, (p + 1) * w, d[p * w..n * w]);
            Holds(m, w, p) && Elements(WithElement(m, w, p, v), w, n + 1) == Inserted(Elements(c, w, n), p, v)
  {
    hide DecodeInt, Written, WithElement, EncodeInt, Fits;
    Scaled(n, n + 1, w);
    HasRoom(d, w, p, p + 1, n);
    var m := Written(d, (p + 1) * w, d[p * w..n * w]);
    HoldsBelow(m, w, n + 1, p);
    var r := WithElement(m, w, p, v);
    var es := Elements(c, w, n);
    forall i | 0 <= i < n + 1 ensures Holds(r, w, i) && At(r, w, i) == Inserted(es, p, v)[i] {
      HoldsBelow(m, w, n + 1, i);
      StoreElement(m, w, p, v, i);
      if i < p {
        UnmovedElement(d, w, p, p + 1, n, i);
        SameElement(c, d, w, n, i);
      } else if i > p {
        MovedElement(d, w, p, p + 1, n, i - 1);
        SameElement(c, d, w, n, i - 1);
      }
    }
  }

  lemma SameElement(c: ByteString, d: ByteString, w: nat, n: nat, i: nat)
    requires c <= d && n * w <= |c| && i < n
    ensures Holds(c, w, i) && Holds(d, w, i) && At(c, w, i) == At(d, w, i)
  {
    hide DecodeInt;
    HoldsBelow(c, w, n, i);
    assert c[i * w..i * w + w] == d[i * w..i * w + w];
  }

  /** Moving the tail behind p down by one and cutting the end removes element p. */
  lemma RemoveBytes(c: ByteString, d: ByteString, w: nat, n: nat, p: nat)
    requires w > 0 && |c| == n * w && p < n && |d| == (n - 1) * w
    requires RoomToMove(c, w, p + 1, p, n)
    requires d <= Written(c, p * w, c[(p + 1) * w..n * w])
    ensures Elements(d, w, n - 1) == Removed(Elements(c, w, n), p)
  {
    hide DecodeInt, Written;
    var m := Written(c, p * w, c[(p + 1) * w..n * w]);
    var es := Elements(c, w, n);
    forall i | 0 <= i < n - 1 ensures Holds(d, w, i) && At(d, w, i) == Removed(es, p)[i] {
      SameElement(d, m, w, n - 1, i);
      if i < p {
        UnmovedElement(c, w, p + 1, p, n, i);
      } else {
        MovedElement(c, w, p + 1, p, n, i + 1);
      }
    }
  }

  class IntSet {
    var encoding: nat
    var length: nat
    var contents: array<Octet>

    ghost predicate Layout()
      reads this, contents
    {
      IsEncoding(encoding) && contents.Length == length * encoding
    }

    ghost function Elems(): seq<int>
      requires Layout()
      reads this, contents
    {
      Elements(contents[..], encoding, length)
    }

    ghost predicate Valid()
      reads this, contents
    {
      Layout() && Increasing(Elems())
    }

    /** intsetNew. */
    constructor ()
      ensures Valid() && fresh(contents) && Elems() == [] && encoding == 2
    {
      encoding, length := 2, 0;
      contents := new Octet[0];
    }

    /** _intsetGetEncoded. */
    function GetEncoded(pos: nat, enc: nat): int
      requires Holds(contents[..], enc, pos)
      reads this, contents
    {
      DecodeInt(contents[pos * enc..pos * enc + enc])
    }

    lemma GetIsAt(pos: nat, enc: nat)
      requires Holds(contents[..], enc, pos)
      ensures GetEncoded(pos, enc) == At(contents[..], enc, pos)
    {
      assert contents[..][pos * enc..pos * enc + enc] == contents[pos * enc..pos * enc + enc];
    }

    /** _intsetSet. */
    method Set(pos: nat, value: Int64)
      requires Holds(contents[..], encoding, pos)
      modifies contents
      ensures contents[..] == WithElement(old(contents[..]), encoding, pos, value)
    {
      var s, at := EncodeInt(value, encoding), pos * encoding;
      hide EncodeInt;
      forall k | 0 <= k < |s| {
        contents[at + k] := s[k];
      }
    }

    /** intsetResize. */
    method Resize(len: nat)
      modifies this`contents
      ensures fresh(contents) && contents.Length == len * encoding
      ensures contents[..] <= old(contents[..]) || old(contents[..]) <= contents[..]
    {
      var size := len * encoding;
      var c := new Octet[size];
      forall i | 0 <= i < size && i < contents.Length {
        c[i] := contents[i];
      }
      contents := c;
    }

    /** intsetMoveTail. */
    method MoveTail(from: nat, dest: nat)
      requires RoomToMove(contents[..], encoding, from, dest, length)
      modifies contents
      ensures contents[..] == Written(old(contents[..]), dest * encoding, old(contents[from * encoding..length * encoding]))
    {
      var src, dst, bytes := from * encoding, dest * encoding, length * encoding - from * encoding;
      forall k | 0 <= k < bytes {
        contents[dst + k] := contents[src + k];
      }
    }

    method Get(pos: nat) returns (v: int)
      requires Layout() && pos < length
      ensures v == Elems()[pos]
    {
      HoldsBelow(contents[..], encoding, length, pos);
      GetIsAt(pos, encoding);
      v := GetEncoded(pos, encoding);
    }

    /** intsetSearch. */
    method Search(value: Int64) returns (found: bool, pos: nat)
      requires Valid()
      ensures found == (value in Elems()) && Place(Elems(), value, pos)
      ensures found ==> pos < length && Elems()[pos] == value
    {
      hide Elements;
      ghost var es := Elems();
      if length == 0 {
        return false, 0;
      }
      var last := Get(length - 1);
      if value > last {
        return false, length;
      }
      var first := Get(0);
      if value < first {
        return false, 0;
      }
      var min, max, mid, cur: int := 0, length - 1, -1, -1;
      while max >= min
        invariant 0 <= min <= length && -1 <= max < length && min <= max + 1
        invariant forall i :: 0 <= i < min ==> es[i] < value
        invariant forall i :: max < i < length ==> es[i] > value
        invariant mid == -1 ==> min == 0 && max == length - 1
        invariant mid != -1 ==> cur != value
      {
        mid := (min + max) / 2;
        cur := Get(mid);
        if value > cur {
          min := mid + 1;
        } else if value < cur {
          max := mid - 1;
        } else {
          break;
        }
      }
      if value == cur {
        found, pos := true, mid;
      } else {
        found, pos := false, min;
      }
    }

    /** intsetUpgradeAndAdd. */
    method UpgradeAndAdd(value: Int64)
      requires Valid() && ValueEncoding(value) > encoding
      modifies this
      ensures Valid() && fresh(contents) && encoding == ValueEncoding(value)
      ensures Elems() == Inserted(old(Elems()), if value < 0 then 0 else old(length), value)
      ensures Values(Elems()) == old(Values(Elems())) + {value} && value !in old(Elems())
    {
      hide Elements, Fits, Upgrading, WithElement, Increasing, Values;
      ghost var c0, es := contents[..], Elems();
      var cur, w := encoding, ValueEncoding(value);
      var prepend := if value < 0 then 1 else 0;
      ElementsFit(c0, cur, length);
      OutsideAll(es, cur, value);
      InsertKeepsOrder(es, value, if value < 0 then 0 else length);
      encoding := w;
      Scaled(length, length + 1, w);
      assert length * cur <= length * w by {
        assert length * w == length * cur + length * (w - cur);
      }
      Resize(length + 1);
      UpgradeStart(c0, contents[..], cur, w, length, prepend);
      Widen(cur, prepend, es);
      UpgradeEnd(contents[..], cur, w, es, prepend, value);
      Set(if prepend == 1 then 0 else length, value);
      length := length + 1;
      assert Elems() == Inserted(es, if value < 0 then 0 else |es|, value);
    }

    /** The loop of intsetUpgradeAndAdd: widens all elements, the last one first. */
    method Widen(cur: nat, prepend: nat, ghost es: seq<int>)
      requires IsEncoding(encoding) && length == |es| && contents.Length == (length + 1) * encoding
      requires Upgrading(contents[..], cur, encoding, es, length, prepend)
      modifies contents
      ensures Upgrading(contents[..], cur, encoding, es, 0, prepend)
    {
      hide Upgrading, WithElement;
      var k: nat := length;
      while k > 0
        invariant k <= length && Upgrading(contents[..], cur, encoding, es, k, prepend)
      {
        UpgradeStep(contents[..], cur, encoding, es, k, prepend);
        k := k - 1;
        var v := NarrowElement(cur, es, k, prepend);
        Set(k + prepend, v);
      }
    }

    /** Reads an element that is still narrow. */
    method NarrowElement(cur: nat, ghost es: seq<int>, k: nat, ghost shift: nat) returns (v: Int64)
      requires IsEncoding(encoding) && k < |es| && Upgrading(contents[..], cur, encoding, es, k + 1, shift)
      ensures v == es[k]
    {
      GetIsAt(k, cur);
      WiderFits(es[k], encoding, 8);
      PowersOf256();
      v := GetEncoded(k, cur);
    }

    /** intsetAdd: fails exactly when the value is a member. */
    method Add(value: Int64) returns (success: bool)
      requires Valid()
      modifies this, contents
      ensures Valid() && success == (value !in old(Elems()))
      ensures encoding == if ValueEncoding(value) > old(encoding) then ValueEncoding(value) else old(encoding)
      ensures Values(Elems()) == old(Values(Elems())) + {value}
      ensures contents == old(contents) || fresh(contents)
    {
      hide Elements, Increasing, Values, Fits, WithElement, Written;
      if ValueEncoding(value) > encoding {
        UpgradeAndAdd(value);
        return true;
      }
      ghost var c0, es := contents[..], Elems();
      var found, pos := Search(value);
      if found {
        AlreadyThere(es, value);
        return false;
      }
      InsertKeepsOrder(es, value, pos);
      Scaled(length, length + 1, encoding);
      Resize(length + 1);
      InsertBytes(c0, contents[..], encoding, length, pos, value);
      if pos < length {
        MoveTail(pos, pos + 1);
      } else {
        NothingToMove(contents[..], (pos + 1) * encoding, pos * encoding);
      }
      Set(pos, value);
      length := length + 1;
      assert Elems() == Inserted(es, pos, value);
      return true;
    }

    /** intsetRemove: succeeds exactly when the value is a member. */
    method Remove(value: Int64) returns (success: bool)
      requires Valid()
      modifies this, contents
      ensures Valid() && success == (value in old(Elems()))
      ensures Values(Elems()) == old(Values(Elems())) - {value}
      ensures encoding == old(encoding) && (contents == old(contents) || fresh(contents))
    {
      hide Elements, Increasing, Values, Fits, Written;
      ghost var c0, es := contents[..], Elems();
      ElementsFit(c0, encoding, length);
      NotThere(es, value);
      if ValueEncoding(value) > encoding {
        return false;
      }
      var found, pos := Search(value);
      if !found {
        return false;
      }
      RemoveKeepsOrder(es, pos);
      Scaled(length - 1, length, encoding);
      HasRoom(c0, encoding, pos + 1, pos, length);
      if pos < length - 1 {
        MoveTail(pos + 1, pos);
      } else {
        NothingToMove(contents[..], pos * encoding, length * encoding);
      }
      Resize(length - 1);
      RemoveBytes(c0, contents[..], encoding, length, pos);
      length := length - 1;
      return true;
    }

    /** intsetFind. */
    method Find(value: Int64) returns (found: bool)
      requires Valid()
      ensures found == (value in Values(Elems()))
    {
      hide Elements;
      ElementsFit(contents[..], encoding, length);
      if ValueEncoding(value) > encoding {
        return false;
      }
      var pos;
      found, pos := Search(value);
    }
  }

  lemma AlreadyThere(es: seq<int>, v: int)
    requires v in es
    ensures Values(es) == Values(es) + {v}
  {
  }

  lemma NotThere(es: seq<int>, v: int)
    ensures v !in es ==> Values(es) - {v} == Values(es)
  {
  }

  lemma NothingToMove(c: ByteString, at: nat, x: nat)
    requires at <= |c| && x <= |c|
    ensures Written(c, at, c[x..x]) == c
  {
  }
}
