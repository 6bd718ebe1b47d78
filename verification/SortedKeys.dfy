/**
 The list of (slot, key) nodes that maps slots to keys, ordered by slot and then
 by the bytes of the key, as a sequence in list order.
 */
module SortedKeys {
  import opened Octets

  datatype Node = Node(slot: nat, key: ByteString)

  /** The order of memcmp, a proper prefix first. */
  predicate Less(a: ByteString, b: ByteString) {
    if b == [] then false
    else if a == [] then true
    else a[0] < b[0] || (a[0] == b[0] && Less(a[1..], b[1..]))
  }

  predicate Before(a: Node, b: Node) {
    a.slot < b.slot || (a.slot == b.slot && Less(a.key, b.key))
  }

  lemma {:induction false} LessIsTotal(a: ByteString, b: ByteString)
    ensures Less(a, b) || Less(b, a) || a == b
    ensures !(Less(a, b) && Less(b, a)) && !Less(a, a)
  {
    if a != [] && b != [] {
      LessIsTotal(a[1..], b[1..]);
      assert a == [a[0]] + a[1..] && b == [b[0]] + b[1..];
    }
    if a != [] {
      LessIsTotal(a[1..], a[1..]);
    }
  }

  lemma {:induction false} LessIsTransitive(a: ByteString, b: ByteString, c: ByteString)
    requires Less(a, b) && Less(b, c)
    ensures Less(a, c)
  {
    if a != [] {
      if a[0] == b[0] == c[0] {
        LessIsTransitive(a[1..], b[1..], c[1..]);
      }
    }
  }

  /** The first difference decides, and a string comes before those that go on behind it. */
  lemma {:induction false} FirstDifference(p: ByteString, x: Octet, y: Octet, s: ByteString, t: ByteString)
    requires x < y
    ensures Less(p + [x] + s, p + [y] + t) && Less(p, p + [x] + s)
  {
    if p == [] {
      assert p + [x] + s == [x] + s && p + [y] + t == [y] + t;
    } else {
      assert (p + [x] + s)[1..] == p[1..] + [x] + s && (p + [y] + t)[1..] == p[1..] + [y] + t;
      FirstDifference(p[1..], x, y, s, t);
    }
  }

  lemma BeforeIsTotal(a: Node, b: Node)
    ensures Before(a, b) || Before(b, a) || a == b
    ensures !(Before(a, b) && Before(b, a)) && !Before(a, a)
  {
    hide Less;
    LessIsTotal(a.key, b.key);
    LessIsTotal(a.key, a.key);
  }

  lemma BeforeIsTransitive(a: Node, b: Node, c: Node)
    requires Before(a, b) && Before(b, c)
    ensures Before(a, c)
  {
    hide Less;
    if a.slot == b.slot == c.slot {
      LessIsTransitive(a.key, b.key, c.key);
    }
  }

  ghost predicate Sorted(z: seq<Node>) {
    forall i, j :: 0 <= i < j < |z| ==> Before(z[i], z[j])
  }

  ghost function Nodes(z: seq<Node>): set<Node> {
    set n | n in z
  }

  /** zslInsert: after all smaller nodes. */
  function Insert(z: seq<Node>, n: Node): seq<Node> {
    if z == [] || !Before(z[0], n) then [n] + z else [z[0]] + Insert(z[1..], n)
  }

  /** zslDelete: the first node that is not smaller, if it is the one. */
  function Delete(z: seq<Node>, n: Node): seq<Node> {
    if z == [] then []
    else if Before(z[0], n) then [z[0]] + Delete(z[1..], n)
    else if z[0] == n then z[1..]
    else z
  }

  lemma SortedCons(x: Node, z: seq<Node>)
    requires Sorted(z) && forall n :: n in z ==> Before(x, n)
    ensures Sorted([x] + z)
  {
    hide Before;
  }

  lemma HeadIsFirst(z: seq<Node>)
    requires z != [] && Sorted(z)
    ensures Sorted(z[1..]) && (forall n :: n in z[1..] ==> Before(z[0], n))
    ensures Nodes(z) == {z[0]} + Nodes(z[1..]) && z[0] !in z[1..]
  {
    forall n | n in z[1..] ensures Before(z[0], n) && n != z[0] {
      var i :| 0 <= i < |z| - 1 && z[1..][i] == n;
      assert z[i + 1] == n;
      BeforeIsTotal(z[0], n);
    }
    hide Before;
    assert z == [z[0]] + z[1..];
  }

  lemma {:induction false} InsertKeeps(z: seq<Node>, n: Node)
    requires Sorted(z) && n !in z
    ensures Sorted(Insert(z, n)) && Nodes(Insert(z, n)) == Nodes(z) + {n}
  {
    if z == [] {
    } else {
      hide Before;
      HeadIsFirst(z);
      BeforeIsTotal(z[0], n);
      if Before(z[0], n) {
        InsertKeeps(z[1..], n);
        var r := Insert(z[1..], n);
        forall m | m in r ensures Before(z[0], m) {
          assert m in Nodes(r);
        }
        SortedCons(z[0], r);
        assert Nodes([z[0]] + r) == {z[0]} + Nodes(r);
      } else {
        forall m | m in z ensures Before(n, m) {
          if m != z[0] {
            assert m in z[1..];
            BeforeIsTransitive(n, z[0], m);
          }
        }
        SortedCons(n, z);
        assert Nodes([n] + z) == {n} + Nodes(z);
      }
    }
  }

  lemma {:induction false} DeleteKeeps(z: seq<Node>, n: Node)
    requires Sorted(z)
    ensures Sorted(Delete(z, n)) && Nodes(Delete(z, n)) == Nodes(z) - {n}
  {
    if z != [] {
      hide Before;
      HeadIsFirst(z);
      BeforeIsTotal(z[0], n);
      if Before(z[0], n) {
        DeleteKeeps(z[1..], n);
        var r := Delete(z[1..], n);
        forall m | m in r ensures Before(z[0], m) {
          assert m in Nodes(r);
        }
        SortedCons(z[0], r);
        assert Nodes([z[0]] + r) == {z[0]} + Nodes(r);
      } else if z[0] != n {
        assert n !in z[1..];
        assert z == [z[0]] + z[1..];
        assert Nodes(z) - {n} == Nodes(z);
      }
    }
  }

  /** Deleting the node at position i is cutting it out. */
  lemma {:induction false} DeleteAt(z: seq<Node>, i: nat)
    requires Sorted(z) && i < |z|
    ensures Delete(z, z[i]) == z[..i] + z[i + 1..]
  {
    hide Before;
    HeadIsFirst(z);
    BeforeIsTotal(z[0], z[0]);
    if i > 0 {
      DeleteAt(z[1..], i - 1);
      assert z[1..][i - 1] == z[i] && z[i] in z[1..];
      assert [z[0]] + (z[1..][..i - 1] + z[1..][i..]) == z[..i] + z[i + 1..];
    }
  }

  // ----- ranges -----

  /** The nodes of a slot are the positions from f up to l. */
  ghost predicate IsRange(z: seq<Node>, slot: nat, f: nat, l: nat) {
    && f <= l <= |z|
    && (forall i :: 0 <= i < f ==> z[i].slot < slot)
    && (forall i :: f <= i < l ==> z[i].slot == slot)
    && (forall i :: l <= i < |z| ==> z[i].slot > slot)
  }

  /** How many nodes have a smaller slot. */
  function Start(z: seq<Node>, slot: nat): (r: nat)
    ensures r <= |z|
  {
    if z == [] || z[0].slot >= slot then 0 else 1 + Start(z[1..], slot)
  }

  lemma {:induction false} StartSplits(z: seq<Node>, slot: nat)
    requires Sorted(z)
    ensures forall i :: 0 <= i < Start(z, slot) ==> z[i].slot < slot
    ensures forall i :: Start(z, slot) <= i < |z| ==> z[i].slot >= slot
  {
    if z != [] {
      if z[0].slot >= slot {
        forall i | 0 <= i < |z| ensures z[i].slot >= slot {
          assert i > 0 ==> Before(z[0], z[i]);
        }
      } else {
        StartSplits(z[1..], slot);
        forall i | 0 <= i < |z| ensures z[i].slot < slot <==> i < Start(z, slot) {
          assert i > 0 ==> z[i] == z[1..][i - 1];
        }
      }
    }
  }

  lemma {:induction false} StartGrows(z: seq<Node>, slot: nat)
    ensures Start(z, slot) <= Start(z, slot + 1)
  {
    if z != [] && z[0].slot < slot {
      StartGrows(z[1..], slot);
    }
  }

  lemma RangeOf(z: seq<Node>, slot: nat)
    requires Sorted(z)
    ensures IsRange(z, slot, Start(z, slot), Start(z, slot + 1))
  {
    hide Start;
    StartSplits(z, slot);
    StartSplits(z, slot + 1);
    StartGrows(z, slot);
  }

  datatype Position = Nowhere | Index(i: nat)

  /** zslIsInRange for the range of one slot. */
  predicate InRange(z: seq<Node>, slot: nat) {
    z != [] && z[|z| - 1].slot >= slot && z[0].slot <= slot
  }

  lemma NonEmptyInRange(z: seq<Node>, slot: nat, f: nat, l: nat)
    requires IsRange(z, slot, f, l) && f < l
    ensures InRange(z, slot)
  {
    assert z[f].slot == slot && z[l - 1].slot == slot;
    assert f > 0 ==> z[0].slot < slot;
    assert l < |z| ==> z[|z| - 1].slot > slot;
  }

  /** zslFirstInRange. */
  method FirstInRange(z: seq<Node>, slot: nat) returns (p: Position)
    requires Sorted(z)
    ensures var f, l := Start(z, slot), Start(z, slot + 1); p == if f < l then Index(f) else Nowhere
  {
    RangeOf(z, slot);
    hide Start;
    if !InRange(z, slot) {
      if Start(z, slot) < Start(z, slot + 1) {
        NonEmptyInRange(z, slot, Start(z, slot), Start(z, slot + 1));
      }
      return Nowhere;
    }
    var i := 0;
    while z[i].slot < slot
      invariant 0 <= i < |z| && i <= Start(z, slot)
      decreases |z| - i
    {
      i := i + 1;
    }
    ghost var f, l := Start(z, slot), Start(z, slot + 1);
    assert i == f;
    assert f < l ==> z[f].slot == slot;
    p := if z[i].slot > slot then Nowhere else Index(i);
  }

  /** zslLastInRange. */
  method LastInRange(z: seq<Node>, slot: nat) returns (p: Position)
    requires Sorted(z)
    ensures var f, l := Start(z, slot), Start(z, slot + 1); p == if f < l then Index(l - 1) else Nowhere
  {
    RangeOf(z, slot);
    hide Start;
    if !InRange(z, slot) {
      if Start(z, slot) < Start(z, slot + 1) {
        NonEmptyInRange(z, slot, Start(z, slot), Start(z, slot + 1));
      }
      return Nowhere;
    }
    var i := 0;
    while i + 1 < |z| && z[i + 1].slot <= slot
      invariant 0 <= i < |z| && forall k :: 0 <= k <= i ==> z[k].slot <= slot
    {
      i := i + 1;
    }
    p := if z[i].slot < slot then Nowhere else Index(i);
  }

  /** zslGetRank: counts from 1; 0 if there is no such node. */
  function Rank(z: seq<Node>, n: Node): nat {
    if z == [] then 0
    else if z[0] == n then 1
    else if !Before(z[0], n) then 0
    else
      var r := Rank(z[1..], n);
      if r == 0 then 0 else 1 + r
  }

  lemma {:induction false} RankIsPosition(z: seq<Node>, i: nat)
    requires Sorted(z) && i < |z|
    ensures Rank(z, z[i]) == i + 1
  {
    hide Before;
    HeadIsFirst(z);
    if i > 0 {
      assert z[i] == z[1..][i - 1] && z[i] in z[1..];
      BeforeIsTotal(z[0], z[i]);
      RankIsPosition(z[1..], i - 1);
    }
  }
}
