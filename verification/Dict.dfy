/**
 The dictionary of dict.c as an object: two tables, the rehash index and the
 count of safe iterators, updated in place by the API, against the finite map
 the dictionary stands for.
 */
module Dict {
  import opened Basics
  import opened Words
  import opened Cursor
  import opened DictState
  import opened Scan

  const INITIAL_SIZE: nat := 4
  const FORCE_RESIZE_RATIO: nat := 5

  const LONG_MAX: nat := 0x7FFF_FFFF_FFFF_FFFF

  /** A table of this size is the largest whose bytes an address can count: 2^60 pointers of 8 bytes. */
  const MAX_SIZE: nat := 0x1000_0000_0000_0000

  /** The tables that keys can be added to: `_dictKeyIndex` returns the bucket as an int. */
  const MAX_BUCKETS: nat := 0x8000_0000

  // ----- bucket numbers as ints -----

  /** An unsigned bucket number returned as a 32-bit int. */
  function AsInt(i: nat): int {
    var w := i % 0x1_0000_0000;
    if w < 0x8000_0000 then w else w - 0x1_0000_0000
  }

  /** The hash 0xFFFFFFFF. */
  function AllOnes32(): Hash32 {
    Ones(32) + Zeros(WIDTH - 32)
  }

  /**
   A bucket number survives its way through an int, for every hash, if and only
   if the table has at most 2^31 buckets. From 2^32 buckets on there is a hash
   whose bucket number comes out as -1, which means that the key is present.
   */
  lemma IndexFitsInt(k: nat)
    requires k <= WIDTH
    ensures (forall h: Hash32 :: AsInt(Index(h, Pow2(k))) == Index(h, Pow2(k))) <==> k <= 31
    ensures k >= 32 ==> AsInt(Index(AllOnes32(), Pow2(k))) == -1
  {
    Pow2Values();
    hide Pow2, Index, Val;
    if k <= 31 {
      Pow2Monotone(k, 31);
      forall h: Hash32 ensures AsInt(Index(h, Pow2(k))) == Index(h, Pow2(k)) {
        IndexLow(h, k);
      }
    } else {
      var h := AllOnes32();
      IndexLow(h, k);
      assert h[..k] == Ones(32) + Zeros(k - 32);
      ValConcat(Ones(32), Zeros(k - 32));
      ValOnes(32);
      ValZeros(k - 32);
      assert AsInt(Index(h, Pow2(k))) != Index(h, Pow2(k));
    }
  }

  /** A dictionary of 2^k buckets, k at least 32: a key with that hash is absent, and its bucket number says that it is present. */
  lemma AbsentKeyRefused<K(!new), V>(hash: K -> Word, key: K, k: nat)
    requires 32 <= k < WIDTH && hash(key) == AllOnes32()
    ensures var s: State<K, V> := State(Table(NewBuckets(Pow2(k)), 0), NoTable(), -1);
            && StateOk(s, hash) && Represents(s, hash, map[]) && Lookup(s, hash, key) == None
            && |s.ht0.buckets| > 0 && AsInt(Slot(s.ht0, hash, key)) == -1
  {
    var t: Table<K, V> := Table(NewBuckets(Pow2(k)), 0);
    FreshTable(k, hash, t);
    NoTableFinds<K, V>(hash);
    IndexFitsInt(k);
    hide Pow2, TableOk, TableFind, Index, AsInt;
  }

  lemma BelowIsInt(i: nat)
    requires i < MAX_BUCKETS
    ensures AsInt(i) == i
  {
    Pow2Values();
  }

  /** s is the table size for `size` elements, given that it is a power of two. */
  predicate LeastPower(s: nat, size: nat) {
    s >= size && s >= INITIAL_SIZE && (s == INITIAL_SIZE || s < 2 * size)
  }

  lemma LeastPowerIsUnique(a: nat, b: nat, size: nat)
    requires LeastPower(Pow2(a), size) && LeastPower(Pow2(b), size)
    ensures a == b
  {
    NextPowerIsDouble(a, b);
    NextPowerIsDouble(b, a);
  }

  lemma NextPowerIsDouble(a: nat, b: nat)
    ensures a < b ==> 2 * Pow2(a) <= Pow2(b)
  {
    if a < b {
      Pow2Monotone(a + 1, b);
    }
  }

  /** A table for at most 2^31 keys has at most 2^31 buckets. */
  lemma LeastPowerBound(k: nat, size: nat)
    requires LeastPower(Pow2(k), size) && size <= MAX_BUCKETS
    ensures Pow2(k) <= MAX_BUCKETS
  {
    Pow2Values();
    hide Pow2;
    if k > 31 {
      NextPowerIsDouble(31, k);
    } else {
      Pow2Monotone(k, 31);
    }
  }

  lemma InitialPower(k: nat)
    requires LeastPower(Pow2(k), INITIAL_SIZE)
    ensures Pow2(k) == INITIAL_SIZE
  {
    assert Pow2(2) == 4 by { assert Pow2(1) == 2; }
    LeastPowerIsUnique(k, 2, INITIAL_SIZE);
  }

  /** What comes of growing or shrinking: nothing is known of a server that asks for more memory than addresses can count. */
  datatype Resize = Unchanged | Resized | NoMemory

  /** What comes of adding a key: it may also be stored outside the table, or read through NULL. */
  datatype Addition = Added | Present | Wild

  /** An absent key whose bucket is i: added, taken for a present one, or stored elsewhere. */
  function AdditionAt(i: nat): Addition {
    if AsInt(i) == i then Added else if AsInt(i) == -1 then Present else Wild
  }

  lemma OddIsNoPower(k: nat)
    ensures Pow2(k) != LONG_MAX
  {
  }

  // ----- progress -----

  /** How many of the buckets hold entries. */
  function Filled<K, V>(bs: seq<Chain<K, V>>): (n: nat)
    ensures n <= |bs|
  {
    if bs == [] then 0 else Filled(bs[..|bs| - 1]) + if bs[|bs| - 1] == [] then 0 else 1
  }

  /** Buckets passed in one call that leaves more to do: n of them held entries, or 10n were empty. */
  ghost predicate Passed<K, V>(bs: seq<Chain<K, V>>, n: nat) {
    Filled(bs) <= n && |bs| - Filled(bs) <= 10 * n && (Filled(bs) == n || |bs| - Filled(bs) == 10 * n)
  }

  lemma FilledNext<K, V>(bs: seq<Chain<K, V>>, i: nat, j: nat)
    requires i <= j < |bs|
    ensures Filled(bs[i..j + 1]) == Filled(bs[i..j]) + if bs[j] == [] then 0 else 1
  {
    assert bs[i..j + 1][..j - i] == bs[i..j];
  }

  lemma FilledNone<K, V>(bs: seq<Chain<K, V>>, i: nat)
    requires i <= |bs|
    ensures Filled(bs[i..i]) == 0
  {
    assert bs[i..i] == [];
  }

  /**
   What one operation makes of a rehash: it ends, or goes on by a bucket at
   least, with old buckets left to move, and the sizes stay.
   */
  ghost predicate Advances<K, V>(s: State<K, V>, r: State<K, V>) {
    IsRehashing(s) ==>
      || (!IsRehashing(r) && |r.ht0.buckets| == |s.ht1.buckets|)
      || (s.rehashidx < r.rehashidx < |r.ht0.buckets|
          && |r.ht0.buckets| == |s.ht0.buckets| && |r.ht1.buckets| == |s.ht1.buckets|)
  }

  /** A rehash that s was in is over in r: its new table is the first one there, and the next may have begun. */
  ghost predicate Over<K, V>(s: State<K, V>, r: State<K, V>) {
    |r.ht0.buckets| == |s.ht1.buckets|
  }

  ghost predicate Operated<K, V>(s: State<K, V>, r: State<K, V>) {
    IsRehashing(s) ==> Advances(s, r) || Over(s, r)
  }

  lemma {:induction false} RehashingStill<K, V>(run: seq<State<K, V>>, n: nat)
    requires n < |run| && forall i :: 0 < i < |run| ==> Operated(run[i - 1], run[i])
    requires IsRehashing(run[0]) && run[0].rehashidx >= 0 && forall i :: 0 < i <= n ==> !Over(run[0], run[i])
    ensures run[n].rehashidx >= run[0].rehashidx + n && (n > 0 ==> run[n].rehashidx < |run[0].ht0.buckets|)
    ensures |run[n].ht0.buckets| == |run[0].ht0.buckets| && |run[n].ht1.buckets| == |run[0].ht1.buckets|
  {
    if n > 0 {
      RehashingStill(run, n - 1);
      assert Operated(run[n - 1], run[n]) && !Over(run[0], run[n]);
    }
  }

  /**
   A rehash is over after as many operations as there are old buckets still to
   be moved, and one operation at least, if no iterator is bound meanwhile.
   */
  lemma RehashEnds<K(!new), V>(run: seq<State<K, V>>, hash: K -> Word)
    requires run != [] && (forall i :: 0 < i < |run| ==> Operated(run[i - 1], run[i]))
    requires IsRehashing(run[0]) && StateOk(run[0], hash)
    requires |run| > |run[0].ht0.buckets| - run[0].rehashidx && |run| > 1
    ensures exists i :: 0 < i < |run| && i <= |run[0].ht0.buckets| && Over(run[0], run[i])
  {
    var left: nat := |run[0].ht0.buckets| - run[0].rehashidx;
    var n := if left > 0 then left else 1;
    assert n <= |run[0].ht0.buckets| by { TableNotEmpty(run[0].ht0, hash); }
    hide StateOk, Over;
    if forall i :: 0 < i <= n ==> !Over(run[0], run[i]) {
      RehashingStill(run, n);
      assert false;
    }
  }

  lemma TableNotEmpty<K, V>(t: Table<K, V>, hash: K -> Word)
    requires TableOk(t, hash)
    ensures |t.buckets| > 0
  {
    hide WellPlaced, DistinctKeys, Count, Log2;
  }

  /** As many keys as buckets, and either resizing is allowed or the ratio is over the safe threshold. */
  predicate NeedsGrowth<K, V>(t: Table<K, V>, canResize: bool)
    requires |t.buckets| > 0
  {
    t.used >= |t.buckets| && (canResize || t.used / |t.buckets| > FORCE_RESIZE_RATIO)
  }

  lemma GrowthMeans<K, V>(t: Table<K, V>, canResize: bool)
    requires |t.buckets| > 0
    ensures NeedsGrowth(t, canResize) <==> t.used >= (if canResize then 1 else 6) * |t.buckets|
  {
    if t.used / |t.buckets| > 5 {
      MulGe(t.used / |t.buckets|, 6, |t.buckets|);
    } else {
      MulGe(5, t.used / |t.buckets|, |t.buckets|);
    }
  }

  /** `_dictNextPower`: the least power of two from 4 on that is at least `size`, below LONG_MAX. */
  method NextPower(size: nat) returns (i: nat)
    ensures size >= LONG_MAX ==> i == LONG_MAX
    ensures size < LONG_MAX ==> LeastPower(i, size) && i == Pow2(Log2(i)) && Log2(i) < WIDTH
  {
    if size >= LONG_MAX {
      return LONG_MAX;
    }
    i := INITIAL_SIZE;
    ghost var k := 2;
    assert Pow2(2) == 4 by { assert Pow2(1) == 2; }
    while i < size
      invariant i == Pow2(k) && k >= 2
      invariant i == INITIAL_SIZE || i < 2 * size
      decreases size - i
    {
      i := i * 2;
      k := k + 1;
    }
    Log2Pow2(k);
    Pow2Values();
    if k > 63 {
      Pow2Monotone(64, k);
    }
  }

  /** Searches a chain; -1 if the key is not in it. */
  method SearchChain<K(==), V>(c: Chain<K, V>, k: K) returns (j: int)
    ensures -1 <= j < |c|
    ensures j == -1 <==> ChainFind(c, k) == None
    ensures j >= 0 ==> c[j].key == k && ChainFind(c, k) == Some(c[j].val)
  {
    j := 0;
    while j < |c|
      invariant 0 <= j <= |c|
      invariant ChainFind(c, k) == ChainFind(c[j..], k)
    {
      if c[j].key == k {
        return;
      }
      assert c[j..][1..] == c[j + 1..];
      j := j + 1;
    }
    j := -1;
  }

  /** The end of `dictScan`: increments the reversed cursor above the bits of the smaller mask. */
  method Advance(cursor: Word, m0: Word) returns (v: Word)
    ensures v == NextCursor(cursor, m0)
  {
    v := Or(cursor, Not(m0));
    v := Rev(v);
    v := Inc(v);
    v := Rev(v);
  }

  class Dict<K(==, !new), V> {
    const hash: K -> Word
    var ht0: Table<K, V>
    var ht1: Table<K, V>
    var rehashidx: int
    var iterators: nat
    ghost var contents: map<K, V>

    function Tables(): State<K, V>
      reads this
    {
      State(ht0, ht1, rehashidx)
    }

    ghost predicate Valid()
      reads this
    {
      && StateOk(Tables(), hash) && Represents(Tables(), hash, contents) && (forall k :: Is32(hash(k)))
      && (IsRehashing(Tables()) ==> |ht0.buckets| != |ht1.buckets|)
    }

    constructor (hash: K -> Word)
      requires forall k :: Is32(hash(k))
      ensures Valid() && contents == map[] && this.hash == hash && iterators == 0 && Roomy()
    {
      this.hash := hash;
      ht0, ht1 := NoTable(), NoTable();
      rehashidx, iterators := -1, 0;
      contents := map[];
    }

    /** The table that takes new keys. */
    ghost function Target(): Table<K, V>
      reads this
    {
      if IsRehashing(Tables()) then ht1 else ht0
    }

    /**
     The keys, and n more, fit the table that takes new ones, one for a bucket;
     while rehashing, with room for a key for each bucket still to be moved but one.
     */
    ghost predicate RoomFor(n: nat)
      reads this
    {
      if IsRehashing(Tables())
      then rehashidx < |ht0.buckets| && |contents| + n + |ht0.buckets| - rehashidx <= |ht1.buckets| + 1
      else |contents| + n <= |ht0.buckets|
    }

    /** There are no more keys than buckets to put them in. */
    ghost predicate Roomy()
      reads this
    {
      RoomFor(0)
    }

    lemma LoadAtMostOne()
      requires Roomy()
      ensures |contents| <= |Target().buckets|
    {
    }

    /** No table is larger than an int can index. */
    ghost predicate SmallTables()
      reads this
    {
      |ht0.buckets| <= MAX_BUCKETS && |ht1.buckets| <= MAX_BUCKETS
    }

    /** `dictExpand`: changes nothing while rehashing, when too small, or when the size would be the same. */
    method Expand(size: nat) returns (r: Resize)
      requires Valid()
      modifies this`ht0, this`ht1, this`rehashidx
      ensures Valid()
      ensures r == if old(IsRehashing(Tables())) || old(ht0.used) > size || (size < LONG_MAX && LeastPower(old(|ht0.buckets|), size))
                   then Unchanged else if size <= MAX_SIZE then Resized else NoMemory
      ensures !r.Resized? ==> Tables() == old(Tables())
      ensures r.Resized? && old(ht0) == NoTable() ==>
        rehashidx == -1 && ht1 == NoTable() && ht0.used == 0 && LeastPower(|ht0.buckets|, size)
      ensures r.Resized? && old(ht0) != NoTable() ==>
        rehashidx == 0 && ht0 == old(ht0) && ht1.used == 0 && LeastPower(|ht1.buckets|, size)
      ensures old(SmallTables()) && size <= MAX_BUCKETS ==> SmallTables()
    {
      var realsize := NextPower(size);
      ghost var k := Log2(realsize);
      OldSizeUnique(Tables(), hash, size, realsize);
      hide StateOk, Represents, Pow2, Log2, LeastPower;
      if size <= MAX_BUCKETS {
        LeastPowerBound(k, size);
      }
      if rehashidx != -1 || ht0.used > size {
        return Unchanged;
      }
      if realsize == |ht0.buckets| {
        return Unchanged;
      }
      if size > MAX_SIZE {
        return NoMemory;
      }
      var n: Table<K, V> := Table(NewBuckets(realsize), 0);
      InstalledOk(Tables(), hash, contents, k, n);
      if |ht0.buckets| == 0 {
        ht0 := n;
        return Resized;
      }
      ht1 := n;
      rehashidx := 0;
      return Resized;
    }

    static lemma OldSizeUnique(s: State<K, V>, hash: K -> Word, size: nat, realsize: nat)
      requires StateOk(s, hash)
      requires if size < LONG_MAX then LeastPower(realsize, size) && realsize == Pow2(Log2(realsize)) else realsize == LONG_MAX
      ensures (size < LONG_MAX && LeastPower(|s.ht0.buckets|, size)) <==> |s.ht0.buckets| == realsize
      ensures s.ht0 == NoTable() <==> |s.ht0.buckets| == 0
      ensures s.rehashidx == -1 ==> s.ht1 == NoTable()
    {
      hide Pow2, Log2, WellPlaced, Count, DistinctKeys, Disjoint;
      OddIsNoPower(Exp(s.ht0));
      if size < LONG_MAX && LeastPower(|s.ht0.buckets|, size) {
        LeastPowerIsUnique(Exp(s.ht0), Log2(realsize), size);
      }
    }

    /** An empty table may take the place of no table, or be the one to rehash to. */
    static lemma InstalledOk(s: State<K, V>, hash: K -> Word, m: map<K, V>, k: nat, n: Table<K, V>)
      requires s.rehashidx == -1 && StateOk(s, hash) && Represents(s, hash, m)
      requires k < WIDTH && n == Table(NewBuckets(Pow2(k)), 0)
      ensures var r := if |s.ht0.buckets| == 0 then s.(ht0 := n) else s.(ht1 := n, rehashidx := 0);
              StateOk(r, hash) && Represents(r, hash, m)
    {
      FreshTable(k, hash, n);
      EmptyTablesFind(s, hash);
      hide Pow2, Log2, TableFind, TableOk, Represents;
      SameLookupRepresents(s, hash, if |s.ht0.buckets| == 0 then s.(ht0 := n) else s.(ht1 := n, rehashidx := 0), m);
    }

    static lemma EmptyTablesFind(s: State<K, V>, hash: K -> Word)
      requires s.rehashidx == -1 && StateOk(s, hash)
      ensures forall k :: TableFind(s.ht1, hash, k) == None
      ensures |s.ht0.buckets| == 0 ==> s.ht0 == NoTable() && forall k :: TableFind(s.ht0, hash, k) == None
    {
    }

    /** Moves every entry of the bucket under `rehashidx` to the head of its chain in the new table. */
    method MoveBucket()
      requires Valid() && IsRehashing(Tables()) && rehashidx < |ht0.buckets| && ht0.buckets[rehashidx] != []
      modifies this`ht0, this`ht1, this`rehashidx
      ensures Valid() && rehashidx == old(rehashidx) + 1
      ensures ht0.used < old(ht0.used) && ht0.buckets == old(ht0.buckets)[old(rehashidx) := []]
      ensures |ht0.buckets| == old(|ht0.buckets|) && |ht1.buckets| == old(|ht1.buckets|)
    {
      hide TableOk, Lookup, Disjoint, Index, Represents;
      var c := ht0.buckets[rehashidx];
      ghost var start := Tables();
      var j := 0;
      BucketCounted(start, hash, rehashidx);
      assert c[0..] == c && Remaining(start, c, 0) == start;
      while j < |c|
        invariant 0 <= j <= |c|
        invariant rehashidx == old(rehashidx) && ht0.buckets == start.ht0.buckets
        invariant |ht1.buckets| == |start.ht1.buckets|
        invariant ht0.used == start.ht0.used - j
        invariant StateOk(Remaining(Tables(), c, j), hash)
        invariant Represents(Remaining(Tables(), c, j), hash, contents)
      {
        ghost var s := Remaining(Tables(), c, j);
        assert s.ht0.buckets[rehashidx] == c[j..] && c[j..][0] == c[j] && c[j..][1..] == c[j + 1..];
        SlotInRange(ht1, hash, c[j].key);
        BucketCounted(s, hash, rehashidx);
        var h := Index(hash(c[j].key), |ht1.buckets|);
        ht1 := Table(ht1.buckets[h := [c[j]] + ht1.buckets[h]], ht1.used + 1);
        ht0 := Table(ht0.buckets, ht0.used - 1);
        j := j + 1;
        ghost var r := Remaining(Tables(), c, j);
        assert r.ht0.buckets == s.ht0.buckets[rehashidx := c[j - 1..][1..]];
        MoveEntry(s, hash, r);
        SameLookupRepresents(s, hash, r, contents);
      }
      assert c[j..] == [];
      ht0 := Table(ht0.buckets[rehashidx := []], ht0.used);
      rehashidx := rehashidx + 1;
      ghost var last := State(ht0, ht1, rehashidx - 1);
      assert last == Remaining(State(Table(start.ht0.buckets, ht0.used), ht1, rehashidx - 1), c, j);
      PassEmptyBucket(last, hash, Tables(), contents);
    }

    /** The tables with the first j entries of the bucket under `rehashidx` taken out of the old one. */
    static ghost function Remaining(s: State<K, V>, c: Chain<K, V>, j: nat): State<K, V>
      requires 0 <= s.rehashidx < |s.ht0.buckets| && j <= |c|
    {
      s.(ht0 := Table(s.ht0.buckets[s.rehashidx := c[j..]], s.ht0.used))
    }

    /** Since the old table was `start`, the buckets from `from` on were passed, `moved` of them with entries. */
    ghost predicate PassedSince(start: seq<Chain<K, V>>, from: nat, moved: nat)
      reads this
    {
      && |ht0.buckets| == |start| && from <= rehashidx <= |start| && Filled(start[from..rehashidx]) == moved
      && forall i :: rehashidx <= i < |start| ==> ht0.buckets[i] == start[i]
    }

    /** The inner loop of `dictRehash`: passes empty buckets, at most as many as may still be visited. */
    method PassEmptyBuckets(visits: nat, ghost start: seq<Chain<K, V>>, ghost from: nat, ghost moved: nat) returns (left: nat)
      requires Valid() && IsRehashing(Tables()) && ht0.used != 0 && visits > 0 && PassedSince(start, from, moved)
      modifies this`rehashidx
      ensures Valid() && IsRehashing(Tables()) && rehashidx < |ht0.buckets| && PassedSince(start, from, moved)
      ensures left <= visits && rehashidx == old(rehashidx) + visits - left
      ensures left > 0 ==> ht0.buckets[rehashidx] != []
    {
      hide StateOk, Represents, Filled;
      left := visits;
      OldTableNotExhausted(Tables(), hash);
      while ht0.buckets[rehashidx] == []
        invariant Valid() && IsRehashing(Tables()) && rehashidx < |ht0.buckets| && PassedSince(start, from, moved)
        invariant 0 < left <= visits && rehashidx == old(rehashidx) + visits - left
        decreases |ht0.buckets| - rehashidx
      {
        ghost var s := Tables();
        FilledNext(start, from, rehashidx);
        rehashidx := rehashidx + 1;
        PassEmptyBucket(s, hash, Tables(), contents);
        OldTableNotExhausted(Tables(), hash);
        left := left - 1;
        if left == 0 {
          return;
        }
      }
    }

    /** One turn of the outer loop of `dictRehash`: passes empty buckets, then moves one, unless too many were empty. */
    method PassAndMove(visits: nat, ghost start: seq<Chain<K, V>>, ghost from: nat, ghost moved: nat) returns (left: nat)
      requires Valid() && IsRehashing(Tables()) && ht0.used != 0 && visits > 0 && PassedSince(start, from, moved)
      modifies this`ht0, this`ht1, this`rehashidx
      ensures Valid() && IsRehashing(Tables()) && |ht1.buckets| == old(|ht1.buckets|) && left <= visits
      ensures left == 0 ==> rehashidx == old(rehashidx) + visits && rehashidx < |ht0.buckets| && PassedSince(start, from, moved)
      ensures left > 0 ==> rehashidx == old(rehashidx) + visits - left + 1 && PassedSince(start, from, moved + 1)
    {
      hide StateOk, Represents, Filled;
      left := PassEmptyBuckets(visits, start, from, moved);
      if left > 0 {
        FilledNext(start, from, rehashidx);
        MoveBucket();
      }
    }

    lemma PassedEnough(start: seq<Chain<K, V>>, from: nat, moved: nat, n: nat, left: nat)
      requires PassedSince(start, from, moved) && moved <= n && left <= 10 * n && (moved == n || left == 0)
      requires rehashidx - from == moved + (10 * n - left)
      ensures |ht0.buckets| == |start| && from <= rehashidx <= |start| && Passed(start[from..rehashidx], n)
    {
      hide Filled;
    }

    /** `dictRehash`: up to n buckets, at most 10n empty ones; true while keys remain to be moved. */
    method Rehash(n: nat) returns (more: bool)
      requires Valid()
      modifies this`ht0, this`ht1, this`rehashidx
      ensures Valid()
      ensures more ==> IsRehashing(Tables())
      ensures !more ==> !IsRehashing(Tables())
      ensures more ==> old(rehashidx) >= 0 && old(rehashidx) + n <= rehashidx < |ht0.buckets|
      ensures more ==> rehashidx <= |old(ht0.buckets)| && Passed(old(ht0.buckets)[old(rehashidx)..rehashidx], n)
      ensures !old(IsRehashing(Tables())) ==> Tables() == old(Tables())
      ensures old(|ht0.buckets|) > 0 ==> |ht0.buckets| > 0
      ensures if more || !old(IsRehashing(Tables()))
              then |ht0.buckets| == old(|ht0.buckets|) && |ht1.buckets| == old(|ht1.buckets|)
              else |ht0.buckets| == old(|ht1.buckets|) && ht1 == NoTable()
    {
      if rehashidx == -1 {
        return false;
      }
      assert 0 <= rehashidx <= |ht0.buckets|;
      hide StateOk, Represents, Filled, Passed, Slot, TableFind, Is32;
      ghost var start, from := ht0.buckets, rehashidx;
      FilledNone(start, from);
      var emptyVisits: nat := n * 10;
      var left: nat := n;
      assert PassedSince(start, from, 0);
      hide Dict.PassedSince;
      while left > 0 && ht0.used != 0
        invariant Valid() && IsRehashing(Tables()) && |ht1.buckets| == old(|ht1.buckets|)
        invariant left <= n && emptyVisits <= 10 * n && (left > 0 ==> emptyVisits > 0)
        invariant PassedSince(start, from, n - left) && rehashidx - from == (n - left) + (10 * n - emptyVisits)
        decreases left
      {
        left := left - 1;
        emptyVisits := PassAndMove(emptyVisits, start, from, n - left - 1);
        if emptyVisits == 0 {
          PassedEnough(start, from, n - left - 1, n, 0);
          return true;
        }
      }
      if ht0.used == 0 {
        DropOldTable();
        return false;
      }
      OldTableNotExhausted(Tables(), hash);
      PassedEnough(start, from, n, n, emptyVisits);
      return true;
    }

    /** The new table becomes the only one. */
    method DropOldTable()
      requires Valid() && IsRehashing(Tables()) && ht0.used == 0
      modifies this`ht0, this`ht1, this`rehashidx
      ensures Valid() && !IsRehashing(Tables()) && ht0 == old(ht1) && ht1 == NoTable() && |ht0.buckets| > 0
    {
      hide StateOk, Represents;
      ghost var s := Tables();
      ht0 := ht1;
      ht1 := NoTable();
      rehashidx := -1;
      NewTableOk(s, hash, contents, Tables());
    }

    static lemma NewTableOk(s: State<K, V>, hash: K -> Word, m: map<K, V>, r: State<K, V>)
      requires StateOk(s, hash) && Represents(s, hash, m) && IsRehashing(s) && s.ht0.used == 0
      requires r == State(s.ht1, NoTable(), -1)
      ensures StateOk(r, hash) && Represents(r, hash, m) && |r.ht0.buckets| > 0
    {
      OldTableEmpty(s, hash);
      NoTableFinds<K, V>(hash);
      TableNotEmpty(s.ht1, hash);
      hide TableFind, TableOk, Represents;
      SameLookupRepresents(s, hash, r, m);
    }

    /** `_dictRehashStep`: one step, unless a safe iterator is bound to the dictionary. */
    method RehashStep()
      requires Valid()
      modifies this`ht0, this`ht1, this`rehashidx
      ensures Valid()
      ensures iterators > 0 || !old(IsRehashing(Tables())) ==> Tables() == old(Tables())
      ensures iterators == 0 ==> Advances(old(Tables()), Tables())
      ensures old(|ht0.buckets|) > 0 ==> |ht0.buckets| > 0
      ensures |Target().buckets| == old(|Target().buckets|) && (old(SmallTables()) ==> SmallTables())
      ensures old(Roomy()) ==> Roomy()
    {
      if iterators == 0 {
        var _ := Rehash(1);
      }
    }

    /** `_dictExpandIfNeeded`: never fails within the size bound. */
    method ExpandIfNeeded(canResize: bool)
      requires Valid() && 2 * |contents| <= MAX_SIZE
      modifies this`ht0, this`ht1, this`rehashidx
      ensures Valid()
      ensures |ht0.buckets| > 0
      ensures old(IsRehashing(Tables())) ==> Tables() == old(Tables())
      ensures !old(IsRehashing(Tables())) && old(|ht0.buckets|) == 0 ==> rehashidx == -1 && |ht0.buckets| == INITIAL_SIZE
      ensures !old(IsRehashing(Tables())) && old(|ht0.buckets|) > 0 ==>
        if old(NeedsGrowth(ht0, canResize))
        then rehashidx == 0 && ht0 == old(ht0) && LeastPower(|ht1.buckets|, 2 * ht0.used)
        else Tables() == old(Tables())
      ensures !IsRehashing(Tables()) ==> ht0.used < (if canResize then 1 else 6) * |ht0.buckets|
      ensures !old(IsRehashing(Tables())) && IsRehashing(Tables()) ==>
        (if canResize then 1 else 6) * |ht0.buckets| <= ht0.used <= |ht1.buckets| / 2
      ensures old(SmallTables()) && 2 * |contents| <= MAX_BUCKETS ==> SmallTables()
    {
      if rehashidx != -1 {
        return;
      }
      EmptyTablesFind(Tables(), hash);
      hide Represents;
      if |ht0.buckets| == 0 {
        var r := Expand(INITIAL_SIZE);
        InitialPower(Exp(ht0));
        return;
      }
      hide StateOk, TableFind;
      GrowthMeans(ht0, canResize);
      if NeedsGrowth(ht0, canResize) {
        hide NeedsGrowth;
        var r := Expand(ht0.used * 2);
        assert r.Resized?;
      }
    }

    /** The table and position of a key, if it is in the dictionary. */
    method Locate(k: K) returns (second: bool, i: nat, j: int)
      requires Valid() && |ht0.buckets| > 0
      ensures j >= -1 && (j == -1 <==> k !in contents)
      ensures j >= 0 ==>
        var t := if second then ht1 else ht0;
        && i < |t.buckets| && j < |t.buckets[i]| && t.buckets[i][j].key == k
        && contents[k] == t.buckets[i][j].val
      ensures second ==> IsRehashing(Tables())
      ensures j == -1 ==>
        second == IsRehashing(Tables()) && var t := if second then ht1 else ht0; i == Slot(t, hash, k) < |t.buckets|
      ensures j >= 0 && second ==> TableFind(ht0, hash, k) == None
      ensures j >= 0 && !second ==> TableFind(ht1, hash, k) == None
    {
      second := false;
      SlotInRange(ht0, hash, k);
      i := Index(hash(k), |ht0.buckets|);
      j := SearchChain(ht0.buckets[i], k);
      assert Lookup(Tables(), hash, k) == Get(contents, k);
      if j == -1 && rehashidx != -1 {
        second := true;
        SlotInRange(ht1, hash, k);
        i := Index(hash(k), |ht1.buckets|);
        j := SearchChain(ht1.buckets[i], k);
      }
    }

    /** `_dictKeyIndex`: -1 if the key is present, else its bucket in the table that takes new keys, as an int. */
    method KeyIndex(k: K, canResize: bool) returns (index: int)
      requires Valid() && 2 * |contents| <= MAX_SIZE
      modifies this`ht0, this`ht1, this`rehashidx
      ensures Valid() && |ht0.buckets| > 0 && |Target().buckets| > Slot(Target(), hash, k)
      ensures index == if k in contents then -1 else AsInt(Slot(Target(), hash, k))
      ensures |Target().buckets| <= MAX_BUCKETS && k !in contents ==> index == Slot(Target(), hash, k)
      ensures old(IsRehashing(Tables())) ==> Tables() == old(Tables())
      ensures !old(IsRehashing(Tables())) && old(|ht0.buckets|) > 0 ==> ht0 == old(ht0)
      ensures !IsRehashing(Tables()) ==> ht0.used < (if canResize then 1 else 6) * |ht0.buckets|
      ensures !old(IsRehashing(Tables())) && IsRehashing(Tables()) ==>
        rehashidx == 0 && (if canResize then 1 else 6) * |ht0.buckets| <= ht0.used <= |ht1.buckets| / 2
      ensures old(SmallTables()) && 2 * |contents| <= MAX_BUCKETS ==> SmallTables()
    {
      hide StateOk, Represents, Pow2, TableFind, Index, NeedsGrowth, LeastPower, AsInt;
      ExpandIfNeeded(canResize);
      var second, i, j := Locate(k);
      TargetSlot(Tables(), hash, k);
      if j != -1 {
        return -1;
      }
      return AsInt(i);
    }

    static lemma TargetSlot(s: State<K, V>, hash: K -> Word, k: K)
      requires StateOk(s, hash) && |s.ht0.buckets| > 0
      ensures var t := if IsRehashing(s) then s.ht1 else s.ht0;
              |t.buckets| > 0 && Slot(t, hash, k) < |t.buckets|
              && (|t.buckets| <= MAX_BUCKETS ==> AsInt(Slot(t, hash, k)) == Slot(t, hash, k))
    {
      hide Pow2, Index, AsInt;
      var t := if IsRehashing(s) then s.ht1 else s.ht0;
      SlotInRange(t, hash, k);
      if |t.buckets| <= MAX_BUCKETS {
        BelowIsInt(Slot(t, hash, k));
      }
    }

    /** The first half of `dictAddRaw`: a rehash step, and the index of the key. */
    method StepAndIndex(k: K, canResize: bool) returns (index: int)
      requires Valid() && 2 * |contents| <= MAX_SIZE
      modifies this`ht0, this`ht1, this`rehashidx
      ensures Valid() && |ht0.buckets| > 0 && |Target().buckets| > Slot(Target(), hash, k)
      ensures index == if k in contents then -1 else AsInt(Slot(Target(), hash, k))
      ensures |Target().buckets| <= MAX_BUCKETS && k !in contents ==> index == Slot(Target(), hash, k)
      ensures iterators == 0 ==> Operated(old(Tables()), Tables())
      ensures iterators == 0 && canResize && old(Roomy()) ==> RoomFor(1)
      ensures old(SmallTables()) && 2 * |contents| <= MAX_BUCKETS ==> SmallTables()
    {
      hide AsInt, Index, Pow2, StateOk, Represents;
      if rehashidx != -1 {
        RehashStep();
      }
      KeysCounted(Tables(), hash, contents);
      index := KeyIndex(k, canResize);
    }

    static lemma KeysCounted(s: State<K, V>, hash: K -> Word, m: map<K, V>)
      requires StateOk(s, hash) && Represents(s, hash, m)
      ensures |m| == s.ht0.used + s.ht1.used && (s.rehashidx == -1 ==> s.ht1.used == 0)
    {
      hide Lookup, TableOk, Disjoint;
    }

    /**
     `dictAdd`: adds an absent key. In a table of more than 2^31 buckets the
     bucket number of some hashes is no int: then an absent key is refused, or
     stored outside the table.
     */
    method Add(k: K, v: V, canResize: bool) returns (r: Addition)
      requires Valid() && 2 * |contents| <= MAX_SIZE
      modifies this`ht0, this`ht1, this`rehashidx, this`contents
      ensures Valid() && |ht0.buckets| > 0 && |Target().buckets| > 0
      ensures r == if k in old(contents) then Present else AdditionAt(Slot(Target(), hash, k))
      ensures |Target().buckets| <= MAX_BUCKETS ==> (r.Added? <==> k !in old(contents)) && !r.Wild?
      ensures contents == if r.Added? then old(contents)[k := v] else old(contents)
      ensures iterators == 0 ==> Operated(old(Tables()), Tables())
      ensures iterators == 0 && canResize && old(Roomy()) ==> Roomy()
      ensures old(SmallTables()) && 2 * |old(contents)| <= MAX_BUCKETS ==> SmallTables()
    {
      hide AsInt, Index, Pow2, StateOk, Represents;
      var index := StepAndIndex(k, canResize);
      TargetSlot(Tables(), hash, k);
      if index == -1 {
        return Present;
      }
      if index != Slot(if rehashidx != -1 then ht1 else ht0, hash, k) {
        return Wild;
      }
      LinkAt(index, Entry(k, v));
      return Added;
    }

    /** Links an entry at the head of its chain, in the table that takes new keys. */
    method LinkAt(index: nat, e: Entry<K, V>)
      requires Valid() && |ht0.buckets| > 0 && e.key !in contents
      requires |Target().buckets| > 0 && index == Slot(Target(), hash, e.key) < |Target().buckets|
      modifies this`ht0, this`ht1, this`contents
      ensures Valid() && contents == old(contents)[e.key := e.val]
      ensures |ht0.buckets| == old(|ht0.buckets|) && |ht1.buckets| == old(|ht1.buckets|)
    {
      hide StateOk, Represents, Index;
      ghost var s := Tables();
      if rehashidx != -1 {
        ht1 := Table(ht1.buckets[index := [e] + ht1.buckets[index]], ht1.used + 1);
      } else {
        ht0 := Table(ht0.buckets[index := [e] + ht0.buckets[index]], ht0.used + 1);
      }
      contents := contents[e.key := e.val];
      LinkedState(s, hash, e, Tables(), old(contents));
    }

    /** `dictFind`: one rehash step at most, then the value if the key is present. */
    method Find(k: K) returns (r: Option<V>)
      requires Valid()
      modifies this`ht0, this`ht1, this`rehashidx
      ensures Valid() && (old(SmallTables()) ==> SmallTables())
      ensures |Target().buckets| == old(|Target().buckets|) && (old(|ht0.buckets|) > 0 ==> |ht0.buckets| > 0)
      ensures if iterators > 0 then Tables() == old(Tables()) else Advances(old(Tables()), Tables())
      ensures old(Roomy()) ==> Roomy()
      ensures r == Get(contents, k)
    {
      assert Lookup(Tables(), hash, k) == Get(contents, k);
      if |ht0.buckets| == 0 {
        return None;
      }
      hide StateOk, Represents;
      if rehashidx != -1 {
        RehashStep();
      }
      var second, i, j := Locate(k);
      if j == -1 {
        return None;
      }
      r := Some((if second then ht1 else ht0).buckets[i][j].val);
    }

    /**
     `dictReplace`: adds an absent key, or gives a present one a new value. An
     absent key that is taken for a present one is not found then, and the
     source reads through NULL.
     */
    method Replace(k: K, v: V, canResize: bool) returns (r: Addition, ghost between: State<K, V>)
      requires Valid() && 2 * |contents| <= MAX_SIZE
      modifies this`ht0, this`ht1, this`rehashidx, this`contents
      ensures Valid() && |Target().buckets| > 0
      ensures r == if k in old(contents) then Present
                   else if AdditionAt(Slot(Target(), hash, k)).Added? then Added else Wild
      ensures |Target().buckets| <= MAX_BUCKETS ==> (r.Added? <==> k !in old(contents)) && !r.Wild?
      ensures contents == if r.Wild? then old(contents) else old(contents)[k := v]
      ensures iterators == 0 ==>
        Operated(old(Tables()), between) && if r.Added? then Tables() == between else r.Present? ==> Operated(between, Tables())
      ensures iterators == 0 && canResize && old(Roomy()) ==> Roomy()
      ensures old(SmallTables()) && 2 * |old(contents)| <= MAX_BUCKETS ==> SmallTables()
    {
      hide StateOk, Represents, AsInt, Index, Pow2, AdditionAt;
      r := Add(k, v, canResize);
      between := Tables();
      if r.Present? {
        var found := Find(k);
        if found == None {
          return Wild, between;
        }
        Overwrite(k, v);
      }
    }

    /** Gives a present key a new value. */
    method Overwrite(k: K, v: V)
      requires Valid() && k in contents && |ht0.buckets| > 0
      modifies this`ht0, this`ht1, this`contents
      ensures Valid() && contents == old(contents)[k := v]
      ensures |ht0.buckets| == old(|ht0.buckets|) && |ht1.buckets| == old(|ht1.buckets|)
    {
      hide StateOk, Represents;
      var second, i, j := Locate(k);
      ghost var s := Tables();
      if second {
        ht1 := Table(ht1.buckets[i := ht1.buckets[i][j := Entry(ht1.buckets[i][j].key, v)]], ht1.used);
      } else {
        ht0 := Table(ht0.buckets[i := ht0.buckets[i][j := Entry(ht0.buckets[i][j].key, v)]], ht0.used);
      }
      contents := contents[k := v];
      StoredState(s, hash, second, i, j, v, Tables(), old(contents));
    }

    /** `dictGenericDelete`: unlinks the entry of the key; fails if and only if the key is absent. */
    method Delete(k: K) returns (ok: bool)
      requires Valid()
      modifies this`ht0, this`ht1, this`rehashidx, this`contents
      ensures Valid() && (old(SmallTables()) ==> SmallTables()) && (old(Roomy()) ==> Roomy())
      ensures if iterators > 0 then rehashidx == old(rehashidx) else Advances(old(Tables()), Tables())
      ensures ok <==> k in old(contents)
      ensures contents == Without(old(contents), k)
    {
      if |ht0.buckets| == 0 {
        assert Lookup(Tables(), hash, k) == Get(contents, k);
        return false;
      }
      hide StateOk, Represents, TableFind, Slot, Is32;
      if rehashidx != -1 {
        RehashStep();
      }
      var second, i, j := Locate(k);
      if j == -1 {
        return false;
      }
      UnlinkAt(second, i, j);
      return true;
    }

    /** Unlinks the entry at position j of bucket i. */
    method UnlinkAt(second: bool, i: nat, j: nat)
      requires Valid()
      requires var t := if second then ht1 else ht0; i < |t.buckets| && j < |t.buckets[i]|
      requires second ==> IsRehashing(Tables())
      modifies this`ht0, this`ht1, this`contents
      ensures Valid() && contents == Without(old(contents), old(if second then ht1 else ht0).buckets[i][j].key)
      ensures |ht0.buckets| == old(|ht0.buckets|) && |ht1.buckets| == old(|ht1.buckets|)
    {
      hide StateOk, Represents, TableFind;
      var k := (if second then ht1 else ht0).buckets[i][j].key;
      UnlinkedState(Tables(), hash, second, i, j, contents);
      ghost var r := UnlinkedAt(Tables(), second, i, j);
      if second {
        ht1 := Table(ht1.buckets[i := Unlinked(ht1.buckets[i], j)], ht1.used - 1);
      } else {
        ht0 := Table(ht0.buckets[i := Unlinked(ht0.buckets[i], j)], ht0.used - 1);
      }
      assert Tables() == r;
      contents := Without(contents, k);
    }

    /**
     `dictScan`: emits the chains of the cursor's buckets in order and returns
     the next cursor. `Emits` gives the visited buckets in closed form.
     */
    method ScanCall(cursor: Word) returns (v: Word, emitted: Chain<K, V>)
      requires Valid()
      ensures emitted == Emits(Tables(), hash, cursor)
      ensures v == NextOf(Tables(), cursor)
      ensures contents == map[] ==> v == Zeros(WIDTH) && emitted == []
    {
      hide StateOk, Represents, TableOk, Emits, Val, Pow2, Log2, And, MaskOf, Expansions, Flatten, NextCursor;
      KeysCounted(Tables(), hash, contents);
      if ht0.used + ht1.used == 0 {
        EmitsNothing(Tables(), hash, cursor);
        return Zeros(WIDTH), [];
      }
      NonEmptyTables(Tables(), hash);
      EmitsBuckets(Tables(), hash, cursor);
      v := cursor;
      var t0, t1 := ht0, ht0;
      if rehashidx != -1 {
        t0, t1 := ht0, ht1;
        if |t0.buckets| > |t1.buckets| {
          t0, t1 := ht1, ht0;
        }
      }
      var m0 := MaskOf(|t0.buckets|);
      CursorBucket(t0, hash, v);
      emitted := t0.buckets[Val(And(v, m0))];
      if rehashidx != -1 {
        var expansions;
        v, expansions := EmitExpansions(t0, t1, cursor);
        emitted := emitted + expansions;
      }
      SameLowBits(v, cursor, Exp(t0));
      v := Advance(v, m0);
    }

    /** The do-while loop over the expansions of the cursor in the larger table. */
    method EmitExpansions(t0: Table<K, V>, t1: Table<K, V>, cursor: Word) returns (v: Word, emitted: Chain<K, V>)
      requires TableOk(t0, hash) && TableOk(t1, hash) && Exp(t0) <= Exp(t1)
      ensures v[..Exp(t0)] == cursor[..Exp(t0)]
      ensures emitted == Flatten(Expansions(t1, Val(cursor[..Exp(t0)]), Pow2(Exp(t0)),
                                            Val(cursor[Exp(t0)..Exp(t1)]), Pow2(Exp(t1) - Exp(t0))))
    {
      ghost var k0, k1 := Exp(t0), Exp(t1);
      assert |t0.buckets| == Pow2(k0) && |t1.buckets| == Pow2(k1) && k1 < WIDTH;
      hide TableOk, Val, Pow2, Log2, NextExpansion, Flatten, Expansion, Expansions, MaskOf, And, Xor;
      var m0, m1 := MaskOf(|t0.buckets|), MaskOf(|t1.buckets|);
      ghost var low, step, from, end := Val(cursor[..k0]), Pow2(k0), Val(cursor[k0..k1]), Pow2(k1 - k0);
      ValBound(cursor[k0..k1]);
      v, emitted := cursor, [];
      ghost var i := from;
      var more := true;
      while more
        invariant from <= i <= end && v[..k0] == cursor[..k0]
        invariant more ==> i < end && Val(v[k0..k1]) == i
        invariant !more ==> i == end
        invariant emitted == Flatten(Expansions(t1, low, step, from, i))
        decreases end - i, more
      {
        ExpansionChain(t1, hash, v, k0);
        emitted := emitted + t1.buckets[Val(And(v, m1))];
        ExpansionsSnoc(t1, low, step, from, i);
        ExpansionStep(v, k0, k1);
        v := NextExpansion(v, m0);
        i := i + 1;
        more := And(v, Xor(m0, m1)) != Zeros(WIDTH);
      }
    }
  }

  lemma PresentAllocated<K(!new), V>(s: State<K, V>, hash: K -> Word, m: map<K, V>, k: K)
    requires StateOk(s, hash) && Represents(s, hash, m) && k in m
    ensures |s.ht0.buckets| > 0
  {
    assert Lookup(s, hash, k) == Get(m, k);
  }

  lemma EmitsNothing<K(!new), V>(s: State<K, V>, hash: K -> Word, v: Word)
    requires StateOk(s, hash) && Size(s) == 0
    ensures Emits(s, hash, v) == []
  {
  }

  lemma EmitsBuckets<K(!new), V>(s: State<K, V>, hash: K -> Word, v: Word)
    requires StateOk(s, hash) && Size(s) > 0
    ensures var t0, t1 := Smaller(s), Larger(s);
            var k0, k1 := Exp(t0), Exp(t1);
            && k0 <= k1 <= WIDTH && Val(v[..k0]) < |t0.buckets|
            && Emits(s, hash, v) == t0.buckets[Val(v[..k0])] +
                 if !IsRehashing(s) then [] else
                   Flatten(Expansions(t1, Val(v[..k0]), Pow2(k0), Val(v[k0..k1]), Pow2(k1 - k0)))
  {
    hide Val, Pow2, Log2, Flatten, Expansions;
    NonEmptyTables(s, hash);
  }

  lemma CursorBucket<K, V>(t: Table<K, V>, hash: K -> Word, v: Word)
    requires TableOk(t, hash)
    ensures |t.buckets| == Pow2(Exp(t)) && Exp(t) <= WIDTH
    ensures Val(And(v, MaskOf(|t.buckets|))) == Val(v[..Exp(t)]) < |t.buckets|
  {
    IndexLow(v, Exp(t));
  }

  lemma SameLowBits(v: Word, w: Word, k: nat)
    requires k <= WIDTH && v[..k] == w[..k]
    ensures NextCursor(v, MaskOf(Pow2(k))) == NextCursor(w, MaskOf(Pow2(k)))
  {
    hide NextCursor;
    NextCursorBits(v, k);
    NextCursorBits(w, k);
  }

  lemma ExpansionChain<K, V>(t: Table<K, V>, hash: K -> Word, v: Word, k0: nat)
    requires TableOk(t, hash) && k0 <= Exp(t) && |t.buckets| > 0
    ensures Val(And(v, MaskOf(|t.buckets|))) < |t.buckets|
    ensures t.buckets[Val(And(v, MaskOf(|t.buckets|)))] == Expansion(t, Val(v[..k0]), Pow2(k0), Val(v[k0..Exp(t)]))
  {
    hide Val, Pow2, Log2, MaskOf, And;
    ExpansionOf(t, hash, v, k0);
  }

  lemma ExpansionsSnoc<K, V>(t: Table<K, V>, low: nat, step: nat, from: nat, i: nat)
    requires from <= i
    ensures Flatten(Expansions(t, low, step, from, i + 1)) ==
            Flatten(Expansions(t, low, step, from, i)) + Expansion(t, low, step, i)
  {
    hide Flatten, Expansion;
    assert Expansions(t, low, step, from, i + 1) == Expansions(t, low, step, from, i) + [Expansion(t, low, step, i)];
    FlattenSnoc(Expansions(t, low, step, from, i), Expansion(t, low, step, i));
  }

  /** One turn of the expansion loop: the bits between the masks are incremented, and wrap to zero at the end. */
  lemma ExpansionStep(v: Word, k0: nat, k1: nat)
    requires k0 <= k1 <= WIDTH
    ensures var n := NextExpansion(v, MaskOf(Pow2(k0)));
            && n[..k0] == v[..k0]
            && Val(n[k0..k1]) == (if Val(v[k0..k1]) + 1 == Pow2(k1 - k0) then 0 else Val(v[k0..k1]) + 1)
            && (And(n, Xor(MaskOf(Pow2(k0)), MaskOf(Pow2(k1)))) == Zeros(WIDTH) <==> Val(v[k0..k1]) + 1 == Pow2(k1 - k0))
  {
    hide NextExpansion, Pow2, Val;
    var n := NextExpansion(v, MaskOf(Pow2(k0)));
    NextExpansionBits(v, k0);
    assert n[k0..k1] == Inc(v[k0..])[..k1 - k0];
    IncPrefix(v[k0..], k1 - k0);
    assert v[k0..][..k1 - k0] == v[k0..k1];
    ValInc(v[k0..k1]);
    MaskDifference(n, k0, k1);
  }

  /** Adding an absent key to the table that takes new keys. */
  lemma {:induction false} LinkedState<K(!new), V>(s: State<K, V>, hash: K -> Word, e: Entry<K, V>, r: State<K, V>, m: map<K, V>)
    requires StateOk(s, hash) && Represents(s, hash, m) && e.key !in m && |s.ht0.buckets| > 0
    requires var t := if IsRehashing(s) then s.ht1 else s.ht0;
             && |t.buckets| > 0
             && var d := Slot(t, hash, e.key);
             && d < |t.buckets|
             && var n := Table(t.buckets[d := [e] + t.buckets[d]], t.used + 1);
             r == if IsRehashing(s) then s.(ht1 := n) else s.(ht0 := n)
    ensures StateOk(r, hash) && Represents(r, hash, m[e.key := e.val])
  {
    hide TableOk, TableFind, Index;
    assert Lookup(s, hash, e.key) == Get(m, e.key);
    if IsRehashing(s) {
      LinkEntry(s.ht1, hash, e, r.ht1);
    } else {
      NoTableFinds<K, V>(hash);
      LinkEntry(s.ht0, hash, e, r.ht0);
    }
    forall k ensures Lookup(r, hash, k) == Get(m[e.key := e.val], k) {
      assert Lookup(s, hash, k) == Get(m, k);
    }
  }

  /** The tables after unlinking entry j of chain i of one of them. */
  ghost function UnlinkedAt<K, V>(s: State<K, V>, second: bool, i: nat, j: nat): State<K, V> {
    var t := if second then s.ht1 else s.ht0;
    if i < |t.buckets| && j < |t.buckets[i]| && t.used > 0 then
      var n := Table(t.buckets[i := Unlinked(t.buckets[i], j)], t.used - 1);
      if second then s.(ht1 := n) else s.(ht0 := n)
    else s
  }

  lemma {:induction false} UnlinkedState<K(!new), V>(s: State<K, V>, hash: K -> Word, second: bool, i: nat, j: nat, m: map<K, V>)
    requires StateOk(s, hash) && Represents(s, hash, m) && (second ==> IsRehashing(s))
    requires var t := if second then s.ht1 else s.ht0;
             i < |t.buckets| && j < |t.buckets[i]|
    ensures var t := if second then s.ht1 else s.ht0;
            var k := t.buckets[i][j].key;
            && t.used > 0
            && StateOk(UnlinkedAt(s, second, i, j), hash)
            && Represents(UnlinkedAt(s, second, i, j), hash, Without(m, k))
  {
    var t := if second then s.ht1 else s.ht0;
    var r := UnlinkedAt(s, second, i, j);
    var k := t.buckets[i][j].key;
    EntryCounted(t, hash, i, j);
    hide TableOk, TableFind, Index, Unlinked;
    assert Lookup(s, hash, k) == Get(m, k);
    var n := Without(m, k);
    NoTableFinds<K, V>(hash);
    UnlinkEntry(t, hash, i, j, if second then r.ht1 else r.ht0);
    forall x ensures Lookup(r, hash, x) == Get(n, x) {
      assert Lookup(s, hash, x) == Get(m, x);
    }
  }

  lemma EntryCounted<K, V>(t: Table<K, V>, hash: K -> Word, i: nat, j: nat)
    requires TableOk(t, hash) && i < |t.buckets| && j < |t.buckets[i]|
    ensures t.used > 0 && TableFind(t, hash, t.buckets[i][j].key).Some?
  {
    CountUpdate(t.buckets, i, []);
    TableFindAt(t, hash, i, j);
  }

  /** Storing a value in entry j of chain i of one of the tables. */
  lemma {:induction false} StoredState<K(!new), V>(s: State<K, V>, hash: K -> Word, second: bool, i: nat, j: nat, v: V,
                                                   r: State<K, V>, m: map<K, V>)
    requires StateOk(s, hash) && Represents(s, hash, m) && (second ==> IsRehashing(s))
    requires var t := if second then s.ht1 else s.ht0;
             && i < |t.buckets| && j < |t.buckets[i]|
             && var n := Table(t.buckets[i := t.buckets[i][j := Entry(t.buckets[i][j].key, v)]], t.used);
             r == if second then s.(ht1 := n) else s.(ht0 := n)
    ensures var t := if second then s.ht1 else s.ht0;
            StateOk(r, hash) && Represents(r, hash, m[t.buckets[i][j].key := v])
  {
    var t := if second then s.ht1 else s.ht0;
    var k := t.buckets[i][j].key;
    EntryCounted(t, hash, i, j);
    hide TableOk, TableFind, Index;
    assert Lookup(s, hash, k) == Get(m, k);
    assert m[k := v].Keys == m.Keys;
    NoTableFinds<K, V>(hash);
    StoreValue(t, hash, i, j, v, if second then r.ht1 else r.ht0);
    forall x ensures Lookup(r, hash, x) == Get(m[k := v], x) {
      assert Lookup(s, hash, x) == Get(m, x);
    }
  }
}
