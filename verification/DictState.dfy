/**
 The two hash tables of a dictionary as values: the placement of entries, the
 lookup they define, and what linking and unlinking one entry does to both.

 A chain of `dictEntry` cells is the sequence of its entries, head first.
 */
module DictState {
  import opened Basics
  import opened Words

  datatype Entry<K, V> = Entry(key: K, val: V)

  type Chain<K, V> = seq<Entry<K, V>>

  /** `dictht`: its size is the number of buckets, 0 when no table is allocated. */
  datatype Table<K, V> = Table(buckets: seq<Chain<K, V>>, used: nat)

  /** `ht[0]`, `ht[1]` and `rehashidx`; no rehashing is in progress when `rehashidx` is -1. */
  datatype State<K, V> = State(ht0: Table<K, V>, ht1: Table<K, V>, rehashidx: int)

  function NoTable<K, V>(): Table<K, V> {
    Table([], 0)
  }

  // ----- sizes -----

  function Log2(n: nat): nat {
    if n <= 1 then 0 else 1 + Log2(n / 2)
  }

  lemma {:induction false} Log2Pow2(k: nat)
    ensures Log2(Pow2(k)) == k
  {
    if k > 0 {
      Log2Pow2(k - 1);
    }
  }

  lemma {:induction false} Pow2Monotone(a: nat, b: nat)
    ensures a < b ==> Pow2(a) < Pow2(b)
    ensures Pow2(a) < Pow2(b) ==> a < b
    decreases a + b
  {
    if a > 0 && b > 0 {
      Pow2Monotone(a - 1, b - 1);
    }
  }

  function Exp<K, V>(t: Table<K, V>): nat {
    Log2(|t.buckets|)
  }

  // ----- chains -----

  function ChainFind<K(==), V>(c: Chain<K, V>, k: K): Option<V> {
    if c == [] then None
    else if c[0].key == k then Some(c[0].val)
    else ChainFind(c[1..], k)
  }

  ghost predicate DistinctKeys<K, V>(c: Chain<K, V>) {
    forall i, j :: 0 <= i < j < |c| ==> c[i].key != c[j].key
  }

  lemma {:induction false} ChainFindAt<K, V>(c: Chain<K, V>, i: nat)
    requires DistinctKeys(c) && i < |c|
    ensures ChainFind(c, c[i].key) == Some(c[i].val)
  {
    if i > 0 {
      ChainFindAt(c[1..], i - 1);
    }
  }

  lemma {:induction false} ChainFindWhere<K, V>(c: Chain<K, V>, k: K) returns (i: nat)
    requires ChainFind(c, k).Some?
    ensures i < |c| && c[i].key == k
  {
    if c[0].key == k {
      i := 0;
    } else {
      i := ChainFindWhere(c[1..], k);
      i := i + 1;
    }
  }

  function Unlinked<K, V>(c: Chain<K, V>, i: nat): (d: Chain<K, V>)
    requires i < |c|
    ensures |d| == |c| - 1 && forall j :: 0 <= j < |d| ==> d[j] == if j < i then c[j] else c[j + 1]
  {
    c[..i] + c[i + 1..]
  }

  lemma {:induction false} ChainUnlink<K, V>(c: Chain<K, V>, i: nat, k: K)
    requires DistinctKeys(c) && i < |c|
    ensures ChainFind(Unlinked(c, i), k) == if k == c[i].key then None else ChainFind(c, k)
  {
    var d := Unlinked(c, i);
    if i == 0 {
      assert d == c[1..];
      if k == c[0].key && ChainFind(d, k).Some? {
        var j := ChainFindWhere(d, k);
      }
    } else {
      assert d[0] == c[0] && d[1..] == Unlinked(c[1..], i - 1);
      assert c[1..][i - 1] == c[i];
      ChainUnlink(c[1..], i - 1, k);
    }
  }

  lemma {:induction false} ChainSetValue<K, V>(c: Chain<K, V>, i: nat, v: V, k: K)
    requires DistinctKeys(c) && i < |c|
    ensures DistinctKeys(c[i := Entry(c[i].key, v)])
    ensures ChainFind(c[i := Entry(c[i].key, v)], k) == if k == c[i].key then Some(v) else ChainFind(c, k)
  {
    var d := c[i := Entry(c[i].key, v)];
    if i == 0 {
      assert d[1..] == c[1..];
    } else {
      assert d[1..] == c[1..][i - 1 := Entry(c[i].key, v)];
      ChainSetValue(c[1..], i - 1, v, k);
    }
  }

  // ----- one table -----

  function Count<K, V>(bs: seq<Chain<K, V>>): nat {
    if bs == [] then 0 else |bs[0]| + Count(bs[1..])
  }

  lemma {:induction false} CountUpdate<K, V>(bs: seq<Chain<K, V>>, i: nat, c: Chain<K, V>)
    requires i < |bs|
    ensures Count(bs[i := c]) == Count(bs) - |bs[i]| + |c|
    ensures Count(bs) >= |bs[i]|
  {
    if i == 0 {
      assert bs[i := c][1..] == bs[1..];
    } else {
      assert bs[i := c][1..] == bs[1..][i - 1 := c];
      CountUpdate(bs[1..], i - 1, c);
    }
  }

  lemma {:induction false} CountZero<K, V>(bs: seq<Chain<K, V>>)
    requires forall i :: 0 <= i < |bs| ==> bs[i] == []
    ensures Count(bs) == 0
  {
    if bs != [] {
      CountZero(bs[1..]);
    }
  }

  function NewBuckets<K, V>(size: nat): seq<Chain<K, V>> {
    seq(size, _ => [])
  }

  ghost predicate WellPlaced<K, V>(t: Table<K, V>, hash: K -> Word) {
    forall i, j :: 0 <= i < |t.buckets| && 0 <= j < |t.buckets[i]| ==>
      Index(hash(t.buckets[i][j].key), |t.buckets|) == i
  }

  /** An allocated table: a power of two of buckets, every entry in its bucket, once, and counted. */
  ghost predicate TableOk<K, V>(t: Table<K, V>, hash: K -> Word) {
    && |t.buckets| == Pow2(Exp(t)) && Exp(t) < WIDTH
    && WellPlaced(t, hash)
    && (forall i :: 0 <= i < |t.buckets| ==> DistinctKeys(t.buckets[i]))
    && t.used == Count(t.buckets)
  }

  function Slot<K, V>(t: Table<K, V>, hash: K -> Word, k: K): nat
    requires |t.buckets| > 0
  {
    Index(hash(k), |t.buckets|)
  }

  lemma SlotInRange<K, V>(t: Table<K, V>, hash: K -> Word, k: K)
    requires TableOk(t, hash)
    ensures 0 < |t.buckets| && Slot(t, hash, k) < |t.buckets|
  {
    IndexLow(hash(k), Exp(t));
  }

  ghost function TableFind<K, V>(t: Table<K, V>, hash: K -> Word, k: K): Option<V> {
    if |t.buckets| > 0 && Slot(t, hash, k) < |t.buckets| then ChainFind(t.buckets[Slot(t, hash, k)], k) else None
  }

  lemma TableFindAt<K, V>(t: Table<K, V>, hash: K -> Word, i: nat, j: nat)
    requires TableOk(t, hash) && i < |t.buckets| && j < |t.buckets[i]|
    ensures TableFind(t, hash, t.buckets[i][j].key) == Some(t.buckets[i][j].val)
  {
    ChainFindAt(t.buckets[i], j);
  }

  /** Linking an absent entry at the head of its chain adds exactly that key. */
  lemma {:induction false} LinkEntry<K(!new), V>(t: Table<K, V>, hash: K -> Word, e: Entry<K, V>, r: Table<K, V>)
    requires TableOk(t, hash) && TableFind(t, hash, e.key) == None
    requires Slot(t, hash, e.key) < |t.buckets|
    requires r == Table(t.buckets[Slot(t, hash, e.key) := [e] + t.buckets[Slot(t, hash, e.key)]], t.used + 1)
    ensures TableOk(r, hash)
    ensures forall k :: TableFind(r, hash, k) == if k == e.key then Some(e.val) else TableFind(t, hash, k)
  {
    hide Index, Pow2, Log2;
    var s := Slot(t, hash, e.key);
    var c := t.buckets[s];
    var d := [e] + c;
    CountUpdate(t.buckets, s, d);
    forall j | 0 <= j < |c| ensures c[j].key != e.key {
      if c[j].key == e.key {
        ChainFindAt(c, j);
      }
    }
    assert forall j :: 0 < j < |d| ==> d[j] == c[j - 1];
    assert WellPlaced(r, hash);
    assert d[1..] == c;
    forall k ensures TableFind(r, hash, k) == if k == e.key then Some(e.val) else TableFind(t, hash, k) {
      assert ChainFind(d, k) == if e.key == k then Some(e.val) else ChainFind(c, k);
    }
  }

  /** Unlinking one entry removes exactly that key. */
  lemma {:induction false} UnlinkEntry<K(!new), V>(t: Table<K, V>, hash: K -> Word, i: nat, j: nat, r: Table<K, V>)
    requires TableOk(t, hash) && i < |t.buckets| && j < |t.buckets[i]|
    requires t.used > 0
    requires r == Table(t.buckets[i := Unlinked(t.buckets[i], j)], t.used - 1)
    ensures TableOk(r, hash)
    ensures forall k :: TableFind(r, hash, k) == if k == t.buckets[i][j].key then None else TableFind(t, hash, k)
  {
    hide Index, Pow2, Log2;
    var c := t.buckets[i];
    var d := Unlinked(c, j);
    CountUpdate(t.buckets, i, d);
    assert WellPlaced(r, hash);
    forall k ensures TableFind(r, hash, k) == if k == c[j].key then None else TableFind(t, hash, k) {
      ChainUnlink(c, j, k);
      assert Slot(t, hash, c[j].key) == i;
    }
  }

  /** Storing a value in the entry found changes that key's value and nothing else. */
  lemma {:induction false} StoreValue<K(!new), V>(t: Table<K, V>, hash: K -> Word, i: nat, j: nat, v: V, r: Table<K, V>)
    requires TableOk(t, hash) && i < |t.buckets| && j < |t.buckets[i]|
    requires r == Table(t.buckets[i := t.buckets[i][j := Entry(t.buckets[i][j].key, v)]], t.used)
    ensures TableOk(r, hash)
    ensures forall k :: TableFind(r, hash, k) == if k == t.buckets[i][j].key then Some(v) else TableFind(t, hash, k)
  {
    hide Index, Pow2, Log2;
    var c := t.buckets[i];
    var d := c[j := Entry(c[j].key, v)];
    CountUpdate(t.buckets, i, d);
    ChainSetValue(c, j, v, c[j].key);
    assert WellPlaced(r, hash);
    forall k ensures TableFind(r, hash, k) == if k == c[j].key then Some(v) else TableFind(t, hash, k) {
      ChainSetValue(c, j, v, k);
      assert Slot(t, hash, c[j].key) == i;
    }
  }

  lemma {:induction false} FreshTable<K(!new), V>(k: nat, hash: K -> Word, t: Table<K, V>)
    requires k < WIDTH && t == Table(NewBuckets(Pow2(k)), 0)
    ensures TableOk(t, hash) && Exp(t) == k
    ensures forall key :: TableFind(t, hash, key) == None
  {
    hide Pow2;
    Log2Pow2(k);
    CountZero(t.buckets);
  }

  // ----- the two tables -----

  lemma NoTableFinds<K(!new), V>(hash: K -> Word)
    ensures forall k :: TableFind<K, V>(NoTable(), hash, k) == None
  {
  }

  predicate IsRehashing<K, V>(s: State<K, V>) {
    s.rehashidx != -1
  }

  ghost predicate Disjoint<K(!new), V>(s: State<K, V>, hash: K -> Word) {
    forall k :: TableFind(s.ht0, hash, k) == None || TableFind(s.ht1, hash, k) == None
  }

  ghost predicate StateOk<K(!new), V>(s: State<K, V>, hash: K -> Word) {
    && (s.ht0 == NoTable() || TableOk(s.ht0, hash))
    && if s.rehashidx == -1 then s.ht1 == NoTable()
       else
         && 0 <= s.rehashidx <= |s.ht0.buckets|
         && TableOk(s.ht0, hash) && TableOk(s.ht1, hash)
         && (forall i :: 0 <= i < s.rehashidx ==> s.ht0.buckets[i] == [])
         && Disjoint(s, hash)
  }

  ghost function Lookup<K, V>(s: State<K, V>, hash: K -> Word, k: K): Option<V> {
    var r := TableFind(s.ht0, hash, k);
    if r.Some? then r else TableFind(s.ht1, hash, k)
  }

  function Get<K, V>(m: map<K, V>, k: K): Option<V> {
    if k in m then Some(m[k]) else None
  }

  /** The map m without the key k. */
  function Without<K, V>(m: map<K, V>, k: K): (r: map<K, V>)
    ensures k !in m ==> r == m
    ensures r.Keys == m.Keys - {k}
    ensures forall x :: x in r ==> r[x] == m[x]
  {
    map x | x in m && x != k :: m[x]
  }

  /** The dictionary holds exactly the finite map m, and its counters add up to the size of m. */
  ghost predicate Represents<K(!new), V>(s: State<K, V>, hash: K -> Word, m: map<K, V>) {
    && (forall k :: Lookup(s, hash, k) == Get(m, k))
    && |m| == s.ht0.used + s.ht1.used
  }

  /** Moving the first entry of the bucket under `rehashidx` to the new table changes no lookup. */
  lemma {:induction false} MoveEntry<K(!new), V>(s: State<K, V>, hash: K -> Word, r: State<K, V>)
    requires StateOk(s, hash) && IsRehashing(s) && s.rehashidx < |s.ht0.buckets|
    requires var c := s.ht0.buckets[s.rehashidx];
             && c != [] && s.ht0.used > 0
             && var d := Slot(s.ht1, hash, c[0].key);
             && d < |s.ht1.buckets|
             && r == State(Table(s.ht0.buckets[s.rehashidx := c[1..]], s.ht0.used - 1),
                           Table(s.ht1.buckets[d := [c[0]] + s.ht1.buckets[d]], s.ht1.used + 1), s.rehashidx)
    ensures StateOk(r, hash)
    ensures forall k :: Lookup(r, hash, k) == Lookup(s, hash, k)
  {
    hide Index, Pow2, Log2, WellPlaced;
    var c := s.ht0.buckets[s.rehashidx];
    assert Unlinked(c, 0) == c[1..];
    TableFindAt(s.ht0, hash, s.rehashidx, 0);
    UnlinkEntry(s.ht0, hash, s.rehashidx, 0, r.ht0);
    assert TableFind(s.ht1, hash, c[0].key) == None;
    LinkEntry(s.ht1, hash, c[0], r.ht1);
  }

  /** Passing an empty bucket changes nothing but the index. */
  lemma {:induction false} PassEmptyBucket<K(!new), V>(s: State<K, V>, hash: K -> Word, r: State<K, V>, m: map<K, V>)
    requires StateOk(s, hash) && Represents(s, hash, m) && IsRehashing(s)
    requires s.rehashidx < |s.ht0.buckets| && s.ht0.buckets[s.rehashidx] == []
    requires r == s.(rehashidx := s.rehashidx + 1)
    ensures StateOk(r, hash) && Represents(r, hash, m)
  {
    hide TableOk, TableFind;
  }

  lemma {:induction false} BucketCounted<K(!new), V>(s: State<K, V>, hash: K -> Word, i: nat)
    requires StateOk(s, hash) && i < |s.ht0.buckets|
    ensures s.ht0.used >= |s.ht0.buckets[i]|
  {
    CountUpdate(s.ht0.buckets, i, []);
  }

  /** While entries remain in the old table, the bucket search from `rehashidx` stays inside it. */
  lemma {:induction false} OldTableNotExhausted<K(!new), V>(s: State<K, V>, hash: K -> Word)
    requires StateOk(s, hash) && IsRehashing(s) && s.ht0.used != 0
    ensures s.rehashidx < |s.ht0.buckets|
  {
    if s.rehashidx == |s.ht0.buckets| {
      CountZero(s.ht0.buckets);
    }
  }

  /** An emptied old table has no keys, so the new table alone is the dictionary. */
  lemma {:induction false} OldTableEmpty<K(!new), V>(s: State<K, V>, hash: K -> Word)
    requires StateOk(s, hash) && s.ht0.used == 0
    ensures forall k :: TableFind(s.ht0, hash, k) == None
  {
    forall k ensures TableFind(s.ht0, hash, k) == None {
      if TableFind(s.ht0, hash, k).Some? {
        var i := Slot(s.ht0, hash, k);
        var j := ChainFindWhere(s.ht0.buckets[i], k);
        CountUpdate(s.ht0.buckets, i, []);
      }
    }
  }

  lemma {:induction false} SameLookupRepresents<K(!new), V>(s: State<K, V>, hash: K -> Word, r: State<K, V>, m: map<K, V>)
    requires Represents(s, hash, m)
    requires forall k :: Lookup(r, hash, k) == Lookup(s, hash, k)
    requires r.ht0.used + r.ht1.used == s.ht0.used + s.ht1.used
    ensures Represents(r, hash, m)
  {
  }
}
