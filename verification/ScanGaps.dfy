/**
 Where the scan does miss elements: the exact condition, call by call.
 */
module ScanGaps {
  import opened Basics
  import opened Words
  import opened Cursor
  import opened DictState
  import opened Scan

  /** A table of 2^k buckets holding the single key `key`. */
  function Singleton<K>(k: nat, hash: K -> Word, key: K): Table<K, ()> {
    var i := Index(hash(key), Pow2(k));
    Table(if i < Pow2(k) then NewBuckets(Pow2(k))[i := [Entry(key, ())]] else [], 1)
  }

  lemma {:induction false} SingletonOk<K(!new)>(k: nat, hash: K -> Word, key: K)
    requires k < WIDTH
    ensures TableOk(Singleton(k, hash, key), hash) && Exp(Singleton(k, hash, key)) == k
    ensures |Singleton(k, hash, key).buckets| == Pow2(k)
    ensures TableFind(Singleton(k, hash, key), hash, key) == Some(())
    ensures forall i :: 0 <= i < Pow2(k) && i != Index(hash(key), Pow2(k)) ==> Singleton(k, hash, key).buckets[i] == []
  {
    hide Pow2, Log2, Index, TableOk;
    var e: Table<K, ()> := Table(NewBuckets(Pow2(k)), 0);
    FreshTable(k, hash, e);
    IndexLow(hash(key), k);
    assert [Entry(key, ())] + e.buckets[Index(hash(key), Pow2(k))] == [Entry(key, ())];
    LinkEntry(e, hash, Entry(key, ()), Singleton(k, hash, key));
  }

  /** A dictionary with one key, about to be rehashed from 2^k1 to 2^k0 buckets. */
  function Shrinking<K>(k0: nat, k1: nat, hash: K -> Word, key: K): State<K, ()> {
    State(Singleton(k1, hash, key), Table(NewBuckets(Pow2(k0)), 0), 0)
  }

  lemma {:induction false} ShrinkingOk<K(!new)>(k0: nat, k1: nat, hash: K -> Word, key: K)
    requires k0 < k1 < WIDTH
    ensures var s := Shrinking(k0, k1, hash, key);
            && StateOk(s, hash) && Lookup(s, hash, key) == Some(()) && Size(s) == 1
            && Smaller(s) == s.ht1 && Larger(s) == s.ht0 && Exp(s.ht1) == k0 && Exp(s.ht0) == k1
  {
    hide Pow2, Log2, Index, TableOk, TableFind;
    var s := Shrinking(k0, k1, hash, key);
    SingletonOk(k1, hash, key);
    FreshTable(k0, hash, s.ht1);
    Pow2Monotone(k0, k1);
  }

  lemma OtherBucketIsEmpty<K(!new)>(k: nat, hash: K -> Word, key: K, low: nat, step: nat, n: nat)
    requires k < WIDTH && low + n * step != Index(hash(key), Pow2(k))
    ensures Expansion(Singleton(k, hash, key), low, step, n) == []
  {
    hide Pow2, Index, Singleton, TableOk, TableFind, Exp;
    SingletonOk(k, hash, key);
  }

  lemma ShrinkingEmits<K(!new)>(k0: nat, k1: nat, hash: K -> Word, key: K, v: Word)
    requires k0 < k1 < WIDTH && StateOk(Shrinking(k0, k1, hash, key), hash)
    ensures Val(v[k0..k1]) <= Pow2(k1 - k0)
    ensures Emits(Shrinking(k0, k1, hash, key), hash, v)
         == Flatten(Expansions(Singleton(k1, hash, key), Val(v[..k0]), Pow2(k0), Val(v[k0..k1]), Pow2(k1 - k0)))
  {
    hide Val, Pow2, Log2, Index, TableFind, StateOk, TableOk, Expansions, Flatten, Exp;
    ShrinkingOk(k0, k1, hash, key);
    SingletonOk(k1, hash, key);
    NonEmptyTables(Shrinking(k0, k1, hash, key), hash);
    ExpansionOf(Singleton(k1, hash, key), hash, v, k0);
  }

  /** What a call at cursor v emits then: the key if and only if its bucket is visited. */
  lemma {:induction false} ShrinkingEmitsNothing<K(!new)>(k0: nat, k1: nat, hash: K -> Word, key: K, v: Word)
    requires k0 < k1 < WIDTH && !VisitsLarge(hash(key), v, k0, k1)
    ensures var s := Shrinking(k0, k1, hash, key);
            StateOk(s, hash) && Emits(s, hash, v) == []
  {
    hide Val, Pow2, Log2, Index, TableFind, Emits, Shrinking, Singleton, StateOk, TableOk, VisitsLarge, Expansion;
    ShrinkingOk(k0, k1, hash, key);
    ShrinkingEmits(k0, k1, hash, key, v);
    var low, step, from, to := Val(v[..k0]), Pow2(k0), Val(v[k0..k1]), Pow2(k1 - k0);
    var cs := Expansions(Singleton(k1, hash, key), low, step, from, to);
    forall i | 0 <= i < |cs| ensures cs[i] == [] {
      ExpansionMisses(hash(key), v, k0, k1, from + i);
      OtherBucketIsEmpty(k1, hash, key, low, step, from + i);
    }
    FlattenEmpty(cs);
  }

  lemma {:induction false} ExpansionMisses(h: Word, v: Word, k0: nat, k1: nat, i: nat)
    requires k0 <= k1 < WIDTH && !VisitsLarge(h, v, k0, k1) && Val(v[k0..k1]) <= i
    ensures Val(v[..k0]) + i * Pow2(k0) != Index(h, Pow2(k1))
  {
    hide Val, Pow2, Index;
    IndexLow(h, k1);
    assert h[..k1] == h[..k0] + h[k0..k1];
    ValConcat(h[..k0], h[k0..k1]);
    ValBound(v[..k0]);
    ValBound(h[..k0]);
    var a, b, j, p := Val(v[..k0]), Val(h[..k0]), Val(h[k0..k1]), Pow2(k0);
    if a + i * p == b + j * p {
      SameDigits(a, i, b, j, p);
      ValInjective(v[..k0], h[..k0]);
    }
  }

  lemma SameDigits(a: nat, i: nat, b: nat, j: nat, p: nat)
    requires a < p && b < p && a + i * p == b + j * p
    ensures a == b && i == j
  {
    if i > j {
      MulGe(i, j + 1, p);
      Distribute(j, p);
    } else if j > i {
      MulGe(j, i + 1, p);
      Distribute(i, p);
    }
  }

  /** A call on s that leaves a key of its gap behind. */
  ghost predicate Misses<K(!new), V>(s: State<K, V>, hash: K -> Word, v: Word, k: K)
    requires StateOk(s, hash)
  {
    && Lookup(s, hash, k).Some? && RevVal(v) <= RevVal(hash(k))
    && (NextOf(s, v) == Zeros(WIDTH) || RevVal(hash(k)) < RevVal(NextOf(s, v)))
    && !EmitsKey(s, hash, v, k)
  }

  /** Some dictionary being rehashed between tables of 2^k0 and 2^k1 buckets loses a key to a call at v. */
  ghost predicate CanMiss(v: Word, k0: nat, k1: nat) {
    exists s: State<Hash32, ()>, k: Hash32 :: LosesKey(s, v, k0, k1, k)
  }

  ghost predicate LosesKey(s: State<Hash32, ()>, v: Word, k0: nat, k1: nat, k: Hash32) {
    && StateOk(s, Plain) && IsRehashing(s) && Exp(Smaller(s)) == k0 && Exp(Larger(s)) == k1
    && Misses(s, Plain, v, k)
  }

  /** Keys that are their own hashes. */
  function Plain(h: Hash32): Word {
    h
  }

  /**
   The exact condition: a call made while rehashing between 2^k0 and 2^k1
   buckets can lose a key if and only if the cursor bits between the two masks
   do not read 1...10...0.
   */
  lemma CallMissesExactlyWhen(v: Word, k0: nat, k1: nat)
    requires k0 < k1 <= 32
    ensures CanMiss(v, k0, k1) <==> !LowRun(v[k0..k1])
  {
    if LowRun(v[k0..k1]) {
      forall s: State<Hash32, ()>, k: Hash32 ensures !LosesKey(s, v, k0, k1, k) {
        if LosesKey(s, v, k0, k1, k) {
          PresentNonEmpty(s, Plain, k);
          CallEmitsGap(s, Plain, v, k);
        }
      }
    } else {
      var h: Hash32 := MissedHash(v, k0, k1);
      MissedKey(v, k0, k1, h);
      assert LosesKey(Shrinking(k0, k1, Plain, h), v, k0, k1, h);
    }
  }

  lemma MissedKey(v: Word, k0: nat, k1: nat, h: Hash32)
    requires k0 < k1 < WIDTH && InGap(h, v, k0) && !VisitsLarge(h, v, k0, k1)
    ensures LosesKey(Shrinking(k0, k1, Plain, h), v, k0, k1, h)
  {
    hide RevVal, Pow2, Log2, Index, TableFind, TableOk, NextCursor, Emits;
    ShrinkingOk(k0, k1, Plain, h);
    ShrinkingEmitsNothing(k0, k1, Plain, h, v);
  }
}
