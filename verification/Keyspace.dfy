/**
 The key space of a database and its indexes: the expire times of keys, and the
 ordered list that finds the keys of a hash slot in cluster mode.
 */
module Keyspace {
  import opened Basics
  import opened Octets
  import opened SortedKeys

  /** What decides whether a key whose time has come is deleted: expireIfNeeded's view of the server. */
  datatype Context = Context(now: int, loading: bool, replica: bool)

  /** Keys with values, and the expire times of some of them. */
  datatype Contents<V> = Contents(dict: map<ByteString, V>, expires: map<ByteString, int>)

  function WithoutKeys<V>(c: Contents<V>, gone: set<ByteString>): Contents<V> {
    Contents(c.dict - gone, c.expires - gone)
  }

  /** getExpire: -1 when the key has none. */
  function ExpireOf<V>(c: Contents<V>, key: ByteString): int {
    if key in c.expires then c.expires[key] else -1
  }

  predicate Due<V>(c: Contents<V>, key: ByteString, ctx: Context) {
    ExpireOf(c, key) >= 0 && !ctx.loading && ctx.now > ExpireOf(c, key)
  }

  /** The contents after expireIfNeeded: a replica waits for its master to delete the key. */
  function Swept<V>(c: Contents<V>, key: ByteString, ctx: Context): Contents<V> {
    if Due(c, key, ctx) && !ctx.replica then WithoutKeys(c, {key}) else c
  }

  /** SET-like overwriting: the key gets the value and becomes persistent. */
  function WithValue<V>(c: Contents<V>, key: ByteString, v: V): Contents<V> {
    Contents(c.dict[key := v], c.expires - {key})
  }

  /** The value moves with its expire time; what the destination had is gone. */
  function Renamed<V>(c: Contents<V>, src: ByteString, dst: ByteString): Contents<V>
    requires src in c.dict
  {
    var rest := WithoutKeys(c, {src, dst});
    Contents(rest.dict[dst := c.dict[src]],
             if ExpireOf(c, src) == -1 then rest.expires else rest.expires[dst := ExpireOf(c, src)])
  }

  // ----- the index -----

  function NodeOf(slotOf: ByteString -> nat, key: ByteString): Node {
    Node(slotOf(key), key)
  }

  ghost predicate Indexes(z: seq<Node>, slotOf: ByteString -> nat, keys: set<ByteString>) {
    Sorted(z) && Nodes(z) == set k | k in keys :: NodeOf(slotOf, k)
  }

  lemma IndexHas(z: seq<Node>, slotOf: ByteString -> nat, keys: set<ByteString>, k: ByteString)
    requires Indexes(z, slotOf, keys)
    ensures NodeOf(slotOf, k) in z <==> k in keys
  {
    assert NodeOf(slotOf, k) in z <==> NodeOf(slotOf, k) in Nodes(z);
  }

  lemma IndexAt(z: seq<Node>, slotOf: ByteString -> nat, keys: set<ByteString>, i: nat)
    requires Indexes(z, slotOf, keys) && i < |z|
    ensures z[i] == NodeOf(slotOf, z[i].key) && z[i].key in keys
  {
    assert z[i] in Nodes(z);
  }

  lemma IndexInsert(z: seq<Node>, slotOf: ByteString -> nat, keys: set<ByteString>, k: ByteString)
    requires Indexes(z, slotOf, keys) && k !in keys
    ensures Indexes(Insert(z, NodeOf(slotOf, k)), slotOf, keys + {k})
  {
    IndexHas(z, slotOf, keys, k);
    InsertKeeps(z, NodeOf(slotOf, k));
    hide Sorted, Insert, Nodes;
  }

  lemma IndexDelete(z: seq<Node>, slotOf: ByteString -> nat, keys: set<ByteString>, k: ByteString)
    requires Indexes(z, slotOf, keys) && k in keys
    ensures Indexes(Delete(z, NodeOf(slotOf, k)), slotOf, keys - {k})
  {
    DeleteKeeps(z, NodeOf(slotOf, k));
    hide Sorted, Delete, Nodes;
  }

  /** The keys of a slot. */
  ghost function KeysIn(slotOf: ByteString -> nat, keys: set<ByteString>, slot: nat): set<ByteString> {
    set k | k in keys && slotOf(k) == slot
  }

  ghost function KeySet(z: seq<Node>): set<ByteString> {
    set n | n in z :: n.key
  }

  lemma {:induction false} KeySetSize(z: seq<Node>)
    requires forall i, j :: 0 <= i < j < |z| ==> z[i].key != z[j].key
    ensures |KeySet(z)| == |z|
  {
    if z != [] {
      var n := |z| - 1;
      var init := z[..n];
      KeySetSize(init);
      assert z == init + [z[n]];
      assert KeySet(z) == KeySet(init) + {z[n].key};
      assert z[n].key !in KeySet(init);
    }
  }

  lemma KeysDiffer(z: seq<Node>, slotOf: ByteString -> nat, keys: set<ByteString>, i: nat, j: nat)
    requires Indexes(z, slotOf, keys) && i < j < |z|
    ensures z[i].key != z[j].key
  {
    IndexAt(z, slotOf, keys, i);
    IndexAt(z, slotOf, keys, j);
    assert Before(z[i], z[j]);
    BeforeIsTotal(z[i], z[j]);
  }

  /** The stretch of a slot in the index holds the slot's keys, each once. */
  lemma RangeHoldsSlot(z: seq<Node>, slotOf: ByteString -> nat, keys: set<ByteString>, slot: nat, f: nat, l: nat)
    requires Indexes(z, slotOf, keys) && IsRange(z, slot, f, l)
    ensures KeySet(z[f..l]) == KeysIn(slotOf, keys, slot)
    ensures |KeysIn(slotOf, keys, slot)| == l - f
  {
    var r := z[f..l];
    forall i | 0 <= i < |r| ensures r[i] == NodeOf(slotOf, r[i].key) && r[i].key in keys && r[i].slot == slot {
      IndexAt(z, slotOf, keys, f + i);
      assert z[f + i].slot == slot;
    }
    forall i, j | 0 <= i < j < |r| ensures r[i].key != r[j].key {
      KeysDiffer(z, slotOf, keys, f + i, f + j);
    }
    KeySetSize(r);
    forall k | k in KeysIn(slotOf, keys, slot) ensures k in KeySet(r) {
      IndexHas(z, slotOf, keys, k);
      var i :| 0 <= i < |z| && z[i] == NodeOf(slotOf, k);
      assert f <= i < l;
      assert r[i - f] == z[i];
    }
  }

  /** The node behind n in the list. */
  function Forward(z: seq<Node>, n: Node): Option<Node> {
    var r := Rank(z, n);
    if r < |z| then Some(z[r]) else None
  }

  /** The node that a walk through a slot's stretch from f up to l has reached after k steps. */
  ghost predicate Reached(z: seq<Node>, f: nat, l: nat, k: nat, n: Option<Node>) {
    n == if f < l && f + k < |z| then Some(z[f + k]) else None
  }

  lemma WalkGoesOn(z: seq<Node>, slot: nat, f: nat, l: nat, k: nat, n: Option<Node>)
    requires IsRange(z, slot, f, l) && Reached(z, f, l, k, n) && k <= l - f
    ensures n.Some? && n.value.slot == slot <==> k < l - f
    ensures k < l - f ==> f + k < |z| && n == Some(z[f + k])
  {
  }

  lemma WalkStart(z: seq<Node>, f: nat, l: nat, n: Option<Node>)
    requires f <= l <= |z| && n == if f < l then Some(z[f]) else None
    ensures Reached(z, f, l, 0, n)
  {
  }

  lemma WalkStep(z: seq<Node>, f: nat, l: nat, k: nat)
    requires Sorted(z) && f + k < l <= |z|
    ensures Reached(z, f, l, k + 1, Forward(z, z[f + k]))
  {
    hide Sorted;
    RankIsPosition(z, f + k);
  }

  /** The keys are those of the nodes from f on. */
  ghost predicate Taken(z: seq<Node>, f: nat, keys: seq<ByteString>) {
    f + |keys| <= |z| && forall i :: 0 <= i < |keys| ==> keys[i] == z[f + i].key
  }

  lemma TakeNext(z: seq<Node>, f: nat, keys: seq<ByteString>)
    requires Taken(z, f, keys) && f + |keys| < |z|
    ensures Taken(z, f, keys + [z[f + |keys|].key])
  {
  }

  datatype RenameResult = SameObject | NoKey | Exists | Done

  class Database<V(==)> {
    const slotOf: ByteString -> nat
    const cluster: bool
    var dict: map<ByteString, V>
    var expires: map<ByteString, int>
    var slotsToKeys: seq<Node>

    /** Only keys have expire times, and in cluster mode the index lists exactly the keys. */
    ghost predicate Valid()
      reads this
    {
      expires.Keys <= dict.Keys && (cluster ==> Indexes(slotsToKeys, slotOf, dict.Keys))
    }

    function Holding(): Contents<V>
      reads this
    {
      Contents(dict, expires)
    }

    constructor (slotOf: ByteString -> nat, cluster: bool)
      ensures Valid() && Holding() == Contents(map[], map[]) && this.slotOf == slotOf && this.cluster == cluster
    {
      this.slotOf, this.cluster := slotOf, cluster;
      dict, expires, slotsToKeys := map[], map[], [];
    }

    /** dbAdd: aborts if the key is there. */
    method Add(key: ByteString, v: V)
      requires Valid() && key !in dict
      modifies this
      ensures Valid() && Holding() == Contents(old(dict)[key := v], old(expires))
    {
      if cluster {
        IndexInsert(slotsToKeys, slotOf, dict.Keys, key);
      }
      dict := dict[key := v];
      assert dict.Keys == old(dict.Keys) + {key};
      if cluster {
        slotsToKeys := Insert(slotsToKeys, NodeOf(slotOf, key));
      }
    }

    /** dbOverwrite: aborts if the key is not there. */
    method Overwrite(key: ByteString, v: V)
      requires Valid() && key in dict
      modifies this`dict
      ensures Valid() && Holding() == Contents(old(dict)[key := v], old(expires))
    {
      dict := dict[key := v];
      assert dict.Keys == old(dict.Keys);
    }

    /** dbDelete. */
    method Delete(key: ByteString) returns (deleted: bool)
      requires Valid()
      modifies this
      ensures Valid() && deleted == (key in old(dict)) && Holding() == WithoutKeys(old(Holding()), {key})
      ensures cluster ==> slotsToKeys == if deleted then SortedKeys.Delete(old(slotsToKeys), NodeOf(slotOf, key)) else old(slotsToKeys)
    {
      if |expires| > 0 {
        expires := expires - {key};
      }
      assert expires == old(expires) - {key};
      if key !in dict {
        assert dict == dict - {key};
        return false;
      }
      if cluster {
        IndexDelete(slotsToKeys, slotOf, dict.Keys, key);
      }
      dict := dict - {key};
      assert dict.Keys == old(dict.Keys) - {key};
      if cluster {
        slotsToKeys := SortedKeys.Delete(slotsToKeys, NodeOf(slotOf, key));
      }
      return true;
    }

    /** expireIfNeeded: says whether the key's time has passed. */
    method ExpireIfNeeded(key: ByteString, ctx: Context) returns (expired: bool)
      requires Valid()
      modifies this
      ensures Valid() && expired == Due(old(Holding()), key, ctx)
      ensures expired <==> key in old(expires) && !ctx.loading && 0 <= old(expires)[key] < ctx.now
      ensures if expired && !ctx.replica then dict == old(dict) - {key} && expires == old(expires) - {key}
              else dict == old(dict) && expires == old(expires)
      ensures Holding() == Swept(old(Holding()), key, ctx)
    {
      var when := ExpireOf(Holding(), key);
      if when < 0 || ctx.loading {
        return false;
      }
      if ctx.replica {
        return ctx.now > when;
      }
      if ctx.now <= when {
        return false;
      }
      expired := Delete(key);
    }

    /** lookupKeyWrite. */
    method LookupWrite(key: ByteString, ctx: Context) returns (v: Option<V>)
      requires Valid()
      modifies this
      ensures Valid() && Holding() == Swept(old(Holding()), key, ctx)
      ensures v == if key in dict then Some(dict[key]) else None
    {
      var _ := ExpireIfNeeded(key, ctx);
      v := if key in dict then Some(dict[key]) else None;
    }

    /** removeExpire: aborts if the key is not there. */
    method RemoveExpire(key: ByteString) returns (removed: bool)
      requires Valid() && key in dict
      modifies this`expires
      ensures Valid() && removed == (key in old(expires)) && Holding() == Contents(dict, old(expires) - {key})
    {
      removed := key in expires;
      expires := expires - {key};
    }

    /** setExpire: aborts if the key is not there. */
    method SetExpire(key: ByteString, when: int)
      requires Valid() && key in dict
      modifies this`expires
      ensures Valid() && Holding() == Contents(dict, old(expires)[key := when])
    {
      expires := expires[key := when];
    }

    /** setKey. */
    method SetKey(key: ByteString, v: V, ctx: Context)
      requires Valid()
      modifies this
      ensures Valid() && Holding() == WithValue(old(Holding()), key, v)
      ensures dict == old(dict)[key := v] && expires == old(expires) - {key}
    {
      var found := LookupWrite(key, ctx);
      if found == None {
        Add(key, v);
      } else {
        Overwrite(key, v);
      }
      var _ := RemoveExpire(key);
    }

    /** emptyDb and flushdbCommand, for the one database of cluster mode. */
    method Flush() returns (removed: nat)
      requires Valid()
      modifies this
      ensures Valid() && Holding() == Contents(map[], map[]) && removed == |old(dict)|
    {
      removed := |dict|;
      dict, expires := map[], map[];
      if cluster {
        slotsToKeys := [];
      }
    }

    /** renameGenericCommand; nx asks not to overwrite. */
    method Rename(src: ByteString, dst: ByteString, nx: bool, ctx: Context) returns (r: RenameResult)
      requires Valid()
      modifies this
      ensures Valid()
      ensures var c1 := Swept(old(Holding()), src, ctx);
              var c2 := Swept(c1, dst, ctx);
              if src == dst then r == SameObject && Holding() == old(Holding())
              else if src !in c1.dict then r == NoKey && Holding() == c1
              else if nx && dst in c2.dict then r == Exists && Holding() == c2
              else r == Done && Holding() == Renamed(c2, src, dst)
      ensures r == Done ==>
        && src in old(dict) && src !in dict && dst in dict && dict[dst] == old(dict)[src]
        && (if src in old(expires) && old(expires)[src] != -1 then dst in expires && expires[dst] == old(expires)[src] else dst !in expires)
        && forall k :: k != src && k != dst ==>
             (k in dict <==> k in old(dict)) && (k in dict ==> dict[k] == old(dict)[k])
             && (k in expires <==> k in old(expires)) && (k in expires ==> expires[k] == old(expires)[k])
    {
      hide Indexes;
      if src == dst {
        return SameObject;
      }
      var o := LookupWrite(src, ctx);
      if o == None {
        return NoKey;
      }
      var expire := ExpireOf(Holding(), src);
      var there := LookupWrite(dst, ctx);
      ghost var c2 := Holding();
      assert src in c2.dict && c2.dict[src] == o.value && ExpireOf(c2, src) == expire;
      if there != None {
        if nx {
          return Exists;
        }
        var _ := Delete(dst);
      }
      assert Holding() == WithoutKeys(c2, {dst}) by {
        assert there == None ==> c2.dict - {dst} == c2.dict && c2.expires - {dst} == c2.expires;
      }
      r := Done;
      Move(src, dst, o.value, expire);
      MovedIsRenamed(c2, src, dst);
    }

    /** The last steps of a rename, once the destination is free. */
    method Move(src: ByteString, dst: ByteString, v: V, expire: int)
      requires Valid() && dst !in dict && dst != src && src in dict
      modifies this
      ensures Valid()
      ensures Holding() == WithoutKeys(Contents(old(dict)[dst := v], if expire == -1 then old(expires) else old(expires)[dst := expire]), {src})
    {
      Add(dst, v);
      if expire != -1 {
        SetExpire(dst, expire);
      }
      var _ := Delete(src);
    }

    /** countKeysInSlot: by the ranks of the first and the last node of the slot. */
    method CountKeysInSlot(slot: nat) returns (count: int)
      requires Valid() && cluster
      ensures count == |KeysIn(slotOf, dict.Keys, slot)|
    {
      var z := slotsToKeys;
      RangeOf(z, slot);
      RangeHoldsSlot(z, slotOf, dict.Keys, slot, Start(z, slot), Start(z, slot + 1));
      hide Start, Sorted, KeysIn;
      count := 0;
      var p := FirstInRange(z, slot);
      if p.Index? {
        RankIsPosition(z, p.i);
        var rank := Rank(z, z[p.i]);
        count := |z| - (rank - 1);
        p := LastInRange(z, slot);
        if p.Index? {
          RankIsPosition(z, p.i);
          rank := Rank(z, z[p.i]);
          count := count - (|z| - rank);
        }
      }
    }

    /** getKeysInSlot: at most `count` keys of the slot, all different. */
    method GetKeysInSlot(slot: nat, count: nat) returns (keys: seq<ByteString>)
      requires Valid() && cluster
      ensures var there := KeysIn(slotOf, dict.Keys, slot);
              |keys| == (if count < |there| then count else |there|)
              && (forall i :: 0 <= i < |keys| ==> keys[i] in there)
              && forall i, j :: 0 <= i < j < |keys| ==> keys[i] != keys[j]
    {
      var z := slotsToKeys;
      ghost var f, l := Start(z, slot), Start(z, slot + 1);
      RangeOf(z, slot);
      assert f <= l <= |z| && Sorted(z);
      hide Start, KeysIn, Indexes, Sorted, IsRange, Reached, Forward;
      keys := [];
      assert Taken(z, f, keys);
      hide Taken;
      var p := FirstInRange(z, slot);
      var n := if p.Index? then Some(z[p.i]) else None;
      WalkStart(z, f, l, n);
      WalkGoesOn(z, slot, f, l, 0, n);
      var left := count;
      while n.Some? && n.value.slot == slot && left > 0
        invariant left >= 0 && |keys| <= l - f && left + |keys| == count
        invariant Taken(z, f, keys) && Reached(z, f, l, |keys|, n)
        invariant n.Some? && n.value.slot == slot <==> |keys| < l - f
        decreases left
      {
        WalkGoesOn(z, slot, f, l, |keys|, n);
        WalkStep(z, f, l, |keys|);
        TakeNext(z, f, keys);
        keys := keys + [n.value.key];
        n := Forward(z, n.value);
        left := left - 1;
        WalkGoesOn(z, slot, f, l, |keys|, n);
      }
      FirstKeysOf(z, slotOf, dict.Keys, slot, f, l, keys);
    }

    /** delKeysInSlot: removes the keys of the slot and no other. */
    method DelKeysInSlot(slot: nat) returns (removed: nat)
      requires Valid() && cluster
      modifies this
      ensures Valid() && removed == |KeysIn(slotOf, old(dict.Keys), slot)|
      ensures Holding() == WithoutKeys(old(Holding()), KeysIn(slotOf, old(dict.Keys), slot))
    {
      ghost var z, c := slotsToKeys, Holding();
      ghost var f, l := Start(z, slot), Start(z, slot + 1);
      RangeOf(z, slot);
      RangeHoldsSlot(z, slotOf, dict.Keys, slot, f, l);
      assert f <= l <= |z|;
      hide Start, KeysIn, Indexes, KeySet, WithoutKeys, Sorted, IsRange, Reached;
      NothingCut(z, f, c);
      var p := FirstInRange(slotsToKeys, slot);
      var n := if p.Index? then Some(slotsToKeys[p.i]) else None;
      WalkStart(z, f, l, n);
      removed := RemoveFrom(z, c, slot, f, l, n);
    }

    /** The loop of delKeysInSlot. */
    method RemoveFrom(ghost z: seq<Node>, ghost c: Contents<V>, slot: nat, ghost f: nat, ghost l: nat, first: Option<Node>)
      returns (removed: nat)
      requires Valid() && cluster && IsRange(z, slot, f, l) && Reached(z, f, l, 0, first)
      requires slotsToKeys == z[..f] + z[f + 0..] && Holding() == WithoutKeys(c, KeySet(z[f..f + 0]))
      modifies this
      ensures Valid() && removed == l - f && Holding() == WithoutKeys(c, KeySet(z[f..l]))
    {
      hide *;
      RangeBounds(z, slot, f, l);
      removed := 0;
      var n := first;
      WalkGoesOn(z, slot, f, l, 0, n);
      while n.Some? && n.value.slot == slot
        invariant Valid() && removed <= l - f
        invariant slotsToKeys == z[..f] + z[f + removed..]
        invariant Holding() == WithoutKeys(c, KeySet(z[f..f + removed]))
        invariant Reached(z, f, l, removed, n)
        invariant n.Some? && n.value.slot == slot <==> removed < l - f
        decreases l - f - removed
      {
        WalkGoesOn(z, slot, f, l, removed, n);
        n := RemoveOne(z, c, f, l, removed, n.value);
        removed := removed + 1;
        WalkGoesOn(z, slot, f, l, removed, n);
      }
    }

    /** One turn of the loop: steps on before the node is freed. */
    method RemoveOne(ghost z: seq<Node>, ghost c: Contents<V>, ghost f: nat, ghost l: nat, ghost k: nat, n: Node)
      returns (next: Option<Node>)
      requires Valid() && cluster && f + k < l <= |z| && n == z[f + k]
      requires slotsToKeys == z[..f] + z[f + k..] && Holding() == WithoutKeys(c, KeySet(z[f..f + k]))
      modifies this
      ensures Valid() && Reached(z, f, l, k + 1, next)
      ensures slotsToKeys == z[..f] + z[f + k + 1..] && Holding() == WithoutKeys(c, KeySet(z[f..f + k + 1]))
    {
      hide Indexes, WithoutKeys, Forward, SortedKeys.Delete, KeySet;
      CutStep(z, slotsToKeys, slotOf, c, Holding(), f, k);
      next := Forward(slotsToKeys, n);
      var deleted := Delete(n.key);
    }
  }

  lemma RangeBounds(z: seq<Node>, slot: nat, f: nat, l: nat)
    requires IsRange(z, slot, f, l)
    ensures f <= l <= |z|
  {
  }

  lemma NothingCut<V>(z: seq<Node>, f: nat, c: Contents<V>)
    requires f <= |z|
    ensures z == z[..f] + z[f + 0..] && c == WithoutKeys(c, KeySet(z[f..f + 0]))
  {
    assert z[f..f + 0] == [] && KeySet([]) == {};
    assert c.dict - {} == c.dict && c.expires - {} == c.expires;
  }

  lemma MovedIsRenamed<V>(c: Contents<V>, src: ByteString, dst: ByteString)
    requires src in c.dict && src != dst
    ensures var w, e := WithoutKeys(c, {dst}), ExpireOf(c, src);
            WithoutKeys(Contents(w.dict[dst := c.dict[src]], if e == -1 then w.expires else w.expires[dst := e]), {src})
            == Renamed(c, src, dst)
  {
    var w, e := WithoutKeys(c, {dst}), ExpireOf(c, src);
    var d, x := w.dict[dst := c.dict[src]], if e == -1 then w.expires else w.expires[dst := e];
    var r := Renamed(c, src, dst);
    assert d - {src} == r.dict;
    assert x - {src} == r.expires;
  }

  /** Keys taken from the start of a slot's stretch are keys of the slot, all different. */
  lemma FirstKeysOf(z: seq<Node>, slotOf: ByteString -> nat, keys: set<ByteString>, slot: nat, f: nat, l: nat, taken: seq<ByteString>)
    requires Indexes(z, slotOf, keys) && IsRange(z, slot, f, l) && |taken| <= l - f
    requires Taken(z, f, taken)
    ensures |KeysIn(slotOf, keys, slot)| == l - f
    ensures forall i :: 0 <= i < |taken| ==> taken[i] in KeysIn(slotOf, keys, slot)
    ensures forall i, j :: 0 <= i < j < |taken| ==> taken[i] != taken[j]
  {
    RangeHoldsSlot(z, slotOf, keys, slot, f, l);
    hide KeysIn, Indexes, IsRange;
    forall i | 0 <= i < |taken| ensures taken[i] in KeysIn(slotOf, keys, slot) {
      assert z[f..l][i] == z[f + i] && z[f..l][i] in z[f..l];
    }
    forall i, j | 0 <= i < j < |taken| ensures taken[i] != taken[j] {
      KeysDiffer(z, slotOf, keys, f + i, f + j);
    }
  }

  /** Deleting the node that comes after those of the slot that are already gone. */
  lemma CutStep<V>(z: seq<Node>, now: seq<Node>, slotOf: ByteString -> nat, c: Contents<V>, here: Contents<V>, f: nat, k: nat)
    requires f + k < |z| && now == z[..f] + z[f + k..] && Indexes(now, slotOf, here.dict.Keys)
    requires here == WithoutKeys(c, KeySet(z[f..f + k]))
    ensures var n := z[f + k];
            && n == NodeOf(slotOf, n.key) && n.key in here.dict
            && Forward(now, n) == (if f + k + 1 < |z| then Some(z[f + k + 1]) else None)
            && SortedKeys.Delete(now, n) == z[..f] + z[f + k + 1..]
            && WithoutKeys(here, {n.key}) == WithoutKeys(c, KeySet(z[f..f + k + 1]))
  {
    hide Sorted, KeySet, WithoutKeys, Forward, SortedKeys.Delete, Indexes;
    CutIndex(z, now, slotOf, here.dict.Keys, f, k);
    CutKeys(z, f, k);
    WithoutMore(c, KeySet(z[f..f + k]), z[f + k].key);
  }

  lemma CutKeys(z: seq<Node>, f: nat, k: nat)
    requires f + k < |z|
    ensures KeySet(z[f..f + k + 1]) == KeySet(z[f..f + k]) + {z[f + k].key}
  {
    assert z[f..f + k + 1] == z[f..f + k] + [z[f + k]];
  }

  lemma CutIndex(z: seq<Node>, now: seq<Node>, slotOf: ByteString -> nat, keys: set<ByteString>, f: nat, k: nat)
    requires f + k < |z| && now == z[..f] + z[f + k..] && Indexes(now, slotOf, keys)
    ensures var n := z[f + k];
            && n == NodeOf(slotOf, n.key) && n.key in keys
            && Forward(now, n) == (if f + k + 1 < |z| then Some(z[f + k + 1]) else None)
            && SortedKeys.Delete(now, n) == z[..f] + z[f + k + 1..]
  {
    assert Sorted(now);
    hide Sorted, Indexes, SortedKeys.Delete, Rank;
    var n := z[f + k];
    assert now[f] == n;
    IndexAt(now, slotOf, keys, f);
    RankIsPosition(now, f);
    DeleteAt(now, f);
    assert now[..f] == z[..f] && now[f + 1..] == z[f + k + 1..];
    assert f + 1 < |now| ==> now[f + 1] == z[f + k + 1];
  }

  lemma WithoutMore<V>(c: Contents<V>, gone: set<ByteString>, k: ByteString)
    ensures WithoutKeys(WithoutKeys(c, gone), {k}) == WithoutKeys(c, gone + {k})
  {
    assert c.dict - gone - {k} == c.dict - (gone + {k});
    assert c.expires - gone - {k} == c.expires - (gone + {k});
  }
}
