/**
 Whole scans over a dictionary that changes between calls: what one call of
 `dictScan` emits, and what a scan from cursor 0 back to cursor 0 guarantees.
 */
module Scan {
  import opened Basics
  import opened Words
  import opened Cursor
  import opened DictState

  function Smaller<K, V>(s: State<K, V>): Table<K, V> {
    if IsRehashing(s) && |s.ht0.buckets| > |s.ht1.buckets| then s.ht1 else s.ht0
  }

  function Larger<K, V>(s: State<K, V>): Table<K, V> {
    if !IsRehashing(s) then s.ht0 else if |s.ht0.buckets| > |s.ht1.buckets| then s.ht0 else s.ht1
  }

  function Size<K, V>(s: State<K, V>): nat {
    s.ht0.used + s.ht1.used
  }

  lemma {:induction false} FlattenMember<K, V>(cs: seq<Chain<K, V>>, i: nat, e: Entry<K, V>)
    requires i < |cs| && e in cs[i]
    ensures e in Flatten(cs)
  {
    if i > 0 {
      FlattenMember(cs[1..], i - 1, e);
    }
  }

  lemma {:induction false} FlattenEmpty<K, V>(cs: seq<Chain<K, V>>)
    requires forall i :: 0 <= i < |cs| ==> cs[i] == []
    ensures Flatten(cs) == []
  {
    if cs != [] {
      FlattenEmpty(cs[1..]);
    }
  }

  /** The bucket at position i of the run of expansions of a cursor with low part `low`. */
  function Expansion<K, V>(t: Table<K, V>, low: nat, step: nat, i: nat): Chain<K, V> {
    var b := low + i * step;
    if b < |t.buckets| then t.buckets[b] else []
  }

  /** The chains of the larger table that hold the expansions of the cursor from its own high bits on. */
  function Expansions<K, V>(t: Table<K, V>, low: nat, step: nat, from: nat, to: nat): (r: seq<Chain<K, V>>)
    ensures from <= to ==> |r| == to - from
  {
    if from > to then [] else seq(to - from, i requires 0 <= i < to - from => Expansion(t, low, step, from + i))
  }

  /** What one call emits: nothing when empty, else the cursor's bucket and, while rehashing, its expansions. */
  ghost function Emits<K(!new), V>(s: State<K, V>, hash: K -> Word, v: Word): Chain<K, V>
    requires StateOk(s, hash)
  {
    if Size(s) == 0 then [] else
      var t0, t1 := Smaller(s), Larger(s);
      var k0, k1 := Exp(t0), Exp(t1);
      NonEmptyTables(s, hash);
      var low := Val(v[..k0]);
      if !IsRehashing(s) then t0.buckets[low] else
        t0.buckets[low] + Flatten(Expansions(t1, low, Pow2(k0), Val(v[k0..k1]), Pow2(k1 - k0)))
  }

  ghost function NextOf<K(!new), V>(s: State<K, V>, v: Word): Word {
    if Size(s) == 0 || |Smaller(s).buckets| == 0 then Zeros(WIDTH) else NextCursor(v, MaskOf(|Smaller(s).buckets|))
  }

  lemma NonEmptyTables<K(!new), V>(s: State<K, V>, hash: K -> Word)
    requires StateOk(s, hash) && Size(s) > 0
    ensures TableOk(Smaller(s), hash) && TableOk(Larger(s), hash)
    ensures Exp(Smaller(s)) <= Exp(Larger(s)) < WIDTH
    ensures forall v: Word :: Val(v[..Exp(Smaller(s))]) < |Smaller(s).buckets|
  {
    var t0, t1 := Smaller(s), Larger(s);
    Pow2Monotone(Exp(t1), Exp(t0));
    forall v: Word ensures Val(v[..Exp(t0)]) < |t0.buckets| {
      ValBound(v[..Exp(t0)]);
    }
  }

  // ----- one call -----

  /** An expansion of h's low part is the bucket h falls into in the larger table. */
  lemma {:induction false} ExpansionOf<K, V>(t: Table<K, V>, hash: K -> Word, h: Word, k0: nat)
    requires TableOk(t, hash) && k0 <= Exp(t)
    ensures Val(h[k0..Exp(t)]) < Pow2(Exp(t) - k0)
    ensures Val(h[..k0]) + Val(h[k0..Exp(t)]) * Pow2(k0) == Index(h, |t.buckets|) < |t.buckets|
  {
    hide Val, Pow2;
    IndexLow(h, Exp(t));
    ValBound(h[k0..Exp(t)]);
    assert h[..Exp(t)] == h[..k0] + h[k0..Exp(t)];
    ValConcat(h[..k0], h[k0..Exp(t)]);
  }

  ghost predicate EmitsKey<K(!new), V>(s: State<K, V>, hash: K -> Word, v: Word, k: K)
    requires StateOk(s, hash)
  {
    exists e :: e in Emits(s, hash, v) && e.key == k
  }

  /** The cursor bits that the smaller table ignores and the larger one uses. */
  ghost function BetweenMasks<K(!new), V>(s: State<K, V>, hash: K -> Word, v: Word): Bits
    requires StateOk(s, hash)
  {
    if Size(s) == 0 then [] else
      NonEmptyTables(s, hash);
      v[Exp(Smaller(s))..Exp(Larger(s))]
  }

  /** The condition, checkable before a call, under which that call misses nothing of its gap. */
  ghost predicate SafeCall<K(!new), V>(s: State<K, V>, hash: K -> Word, v: Word)
    requires StateOk(s, hash)
  {
    IsRehashing(s) ==> LowRun(BetweenMasks(s, hash, v))
  }

  lemma {:induction false} EmitsFromSmaller<K(!new), V>(s: State<K, V>, hash: K -> Word, v: Word, k: K)
    requires StateOk(s, hash) && Size(s) > 0 && Exp(Smaller(s)) <= WIDTH
    requires TableFind(Smaller(s), hash, k).Some? && hash(k)[..Exp(Smaller(s))] == v[..Exp(Smaller(s))]
    ensures EmitsKey(s, hash, v, k)
  {
    hide Val, Pow2, Log2, Index, Flatten, Expansions;
    NonEmptyTables(s, hash);
    var t0 := Smaller(s);
    IndexLow(hash(k), Exp(t0));
    var c := t0.buckets[Val(v[..Exp(t0)])];
    var j := ChainFindWhere(c, k);
    assert c[j] in Emits(s, hash, v);
  }

  lemma {:induction false} EmitsFromLarger<K(!new), V>(s: State<K, V>, hash: K -> Word, v: Word, k: K)
    requires StateOk(s, hash) && Size(s) > 0 && IsRehashing(s)
    requires Exp(Smaller(s)) <= Exp(Larger(s)) <= WIDTH
    requires TableFind(Larger(s), hash, k).Some?
    requires VisitsLarge(hash(k), v, Exp(Smaller(s)), Exp(Larger(s)))
    ensures EmitsKey(s, hash, v, k)
  {
    hide Val, Pow2, Log2, Index, Flatten, ChainFind;
    NonEmptyTables(s, hash);
    var t1, h, k0, k1 := Larger(s), hash(k), Exp(Smaller(s)), Exp(Larger(s));
    ExpansionOf(t1, hash, h, k0);
    var c := t1.buckets[Index(h, |t1.buckets|)];
    var j := ChainFindWhere(c, k);
    var low, step, from, to := Val(v[..k0]), Pow2(k0), Val(v[k0..k1]), Pow2(k1 - k0);
    var i := Val(h[k0..k1]) - from;
    assert Expansions(t1, low, step, from, to)[i] == Expansion(t1, low, step, Val(h[k0..k1])) == c;
    FlattenMember(Expansions(t1, low, step, from, to), i, c[j]);
    assert c[j] in Emits(s, hash, v);
  }

  /** A call emits a key it holds, unless the key's hash was passed before or is not reached yet. */
  lemma {:induction false} CallEmitsGap<K(!new), V>(s: State<K, V>, hash: K -> Word, v: Word, k: K)
    requires StateOk(s, hash) && Lookup(s, hash, k).Some? && SafeCall(s, hash, v)
    requires Size(s) > 0 && RevVal(v) <= RevVal(hash(k))
    requires NextOf(s, v) == Zeros(WIDTH) || RevVal(hash(k)) < RevVal(NextOf(s, v))
    ensures EmitsKey(s, hash, v, k)
  {
    hide Val, RevVal, Pow2, Log2, NextCursor, Emits, TableFind;
    NonEmptyTables(s, hash);
    var h, k0, k1 := hash(k), Exp(Smaller(s)), Exp(Larger(s));
    assert InGap(h, v, k0);
    GapIsBucket(h, v, k0);
    if TableFind(Smaller(s), hash, k).Some? {
      EmitsFromSmaller(s, hash, v, k);
    } else {
      NoTableFinds<K, V>(hash);
      assert IsRehashing(s);
      LowRunCovers(h, v, k0, k1);
      EmitsFromLarger(s, hash, v, k);
    }
  }

  // ----- whole scans -----

  /** A call of `dictScan`: the dictionary as it stands then, and the cursor passed in. */
  datatype Call<K, V> = Call(dict: State<K, V>, cursor: Word)

  /** The calls made so far by a scan that began with cursor 0 and has not ended before its last call. */
  ghost predicate Scanning<K(!new), V>(run: seq<Call<K, V>>, hash: K -> Word) {
    && run != [] && run[0].cursor == Zeros(WIDTH)
    && (forall i :: 0 <= i < |run| ==> StateOk(run[i].dict, hash))
    && (forall i :: 0 < i < |run| ==>
          run[i].cursor == NextOf(run[i - 1].dict, run[i - 1].cursor) && run[i].cursor != Zeros(WIDTH))
  }

  /** A scan that ended: its last call returned cursor 0. */
  ghost predicate CompleteScan<K(!new), V>(run: seq<Call<K, V>>, hash: K -> Word) {
    && Scanning(run, hash)
    && NextOf(run[|run| - 1].dict, run[|run| - 1].cursor) == Zeros(WIDTH)
  }

  ghost predicate PresentThroughout<K(!new), V>(run: seq<Call<K, V>>, hash: K -> Word, k: K) {
    forall i :: 0 <= i < |run| ==> Lookup(run[i].dict, hash, k).Some?
  }

  ghost predicate EmittedBy<K(!new), V>(run: seq<Call<K, V>>, hash: K -> Word, n: nat, k: K)
    requires Scanning(run, hash) && n <= |run|
  {
    exists i :: 0 <= i < n && EmitsKey(run[i].dict, hash, run[i].cursor, k)
  }

  lemma PresentNonEmpty<K(!new), V>(s: State<K, V>, hash: K -> Word, k: K)
    requires StateOk(s, hash) && Lookup(s, hash, k).Some?
    ensures Size(s) > 0
  {
    if Size(s) == 0 {
      OldTableEmpty(s, hash);
      var i := Slot(s.ht1, hash, k);
      var j := ChainFindWhere(s.ht1.buckets[i], k);
      CountUpdate(s.ht1.buckets, i, []);
    }
  }

  lemma {:induction false} EmittedBefore<K(!new), V>(run: seq<Call<K, V>>, hash: K -> Word, k: K, n: nat)
    requires Scanning(run, hash) && PresentThroughout(run, hash, k) && n < |run|
    requires forall i :: 0 <= i < |run| ==> SafeCall(run[i].dict, hash, run[i].cursor)
    ensures EmittedBy(run, hash, n, k) || RevVal(run[n].cursor) <= RevVal(hash(k))
  {
    hide StateOk, Lookup, NextOf, Emits, RevVal;
    if n == 0 {
      ReverseZeros(WIDTH);
    } else {
      EmittedBefore(run, hash, k, n - 1);
      var c := run[n - 1];
      if !EmittedBy(run, hash, n - 1, k) && RevVal(hash(k)) < RevVal(run[n].cursor) {
        PresentNonEmpty(c.dict, hash, k);
        assert SafeCall(c.dict, hash, c.cursor);
        CallEmitsGap(c.dict, hash, c.cursor, k);
        assert EmittedBy(run, hash, n, k);
      }
    }
  }

  /**
   Scan completeness: whatever happens to the dictionary between the calls, a
   key present at every call of a complete scan is emitted by one of them,
   provided every call made while rehashing is safe.
   */
  lemma ScanCompleteness<K(!new), V>(run: seq<Call<K, V>>, hash: K -> Word, k: K)
    requires CompleteScan(run, hash) && PresentThroughout(run, hash, k)
    requires forall i :: 0 <= i < |run| ==> SafeCall(run[i].dict, hash, run[i].cursor)
    ensures EmittedBy(run, hash, |run|, k)
  {
    var n := |run| - 1;
    EmittedBefore(run, hash, k, n);
    if !EmittedBy(run, hash, n, k) {
      PresentNonEmpty(run[n].dict, hash, k);
      CallEmitsGap(run[n].dict, hash, run[n].cursor, k);
    }
  }

  /** A scan during which the smaller table never shrinks makes only safe calls. */
  lemma GrowingCallsAreSafe<K(!new), V>(run: seq<Call<K, V>>, hash: K -> Word, n: nat)
    requires Scanning(run, hash) && n < |run|
    requires forall i :: 0 < i < |run| ==> Exp(Smaller(run[i - 1].dict)) <= Exp(Smaller(run[i].dict))
    ensures SafeCall(run[n].dict, hash, run[n].cursor)
  {
    hide Log2, Pow2, NextCursor, Lookup;
    var s := run[n].dict;
    if Size(s) > 0 {
      NonEmptyTables(s, hash);
      if n > 0 {
        var p := run[n - 1];
        assert Exp(Smaller(p.dict)) <= Exp(Smaller(s));
        assert run[n].cursor == NextOf(p.dict, p.cursor) != Zeros(WIDTH);
        NonEmptyTables(p.dict, hash);
        FreshCursorIsLowRun(p.cursor, Exp(Smaller(p.dict)), Exp(Smaller(s)), Exp(Larger(s)));
      }
    }
  }

  lemma ScanCompletenessWithoutShrinking<K(!new), V>(run: seq<Call<K, V>>, hash: K -> Word, k: K)
    requires CompleteScan(run, hash) && PresentThroughout(run, hash, k)
    requires forall i :: 0 < i < |run| ==> Exp(Smaller(run[i - 1].dict)) <= Exp(Smaller(run[i].dict))
    ensures EmittedBy(run, hash, |run|, k)
  {
    forall n | 0 <= n < |run| ensures SafeCall(run[n].dict, hash, run[n].cursor) {
      GrowingCallsAreSafe(run, hash, n);
    }
    ScanCompleteness(run, hash, k);
  }

  /** Under any schedule of resizes, shrinking included, a scan that has not ended has moved its cursor at every call. */
  lemma {:induction false} ScanProgress<K(!new), V>(run: seq<Call<K, V>>, hash: K -> Word, n: nat)
    requires Scanning(run, hash) && n < |run|
    ensures RevVal(run[n].cursor) >= n
  {
    hide StateOk, Log2, Pow2, RevVal, NextCursor;
    if n > 0 {
      ScanProgress(run, hash, n - 1);
      var p := run[n - 1];
      assert run[n].cursor == NextOf(p.dict, p.cursor) != Zeros(WIDTH);
      CallAdvances(p.dict, hash, p.cursor);
    }
  }

  lemma CallAdvances<K(!new), V>(s: State<K, V>, hash: K -> Word, v: Word)
    requires StateOk(s, hash)
    ensures NextOf(s, v) == Zeros(WIDTH) || RevVal(NextOf(s, v)) > RevVal(v)
  {
    hide Log2, Pow2, RevVal, NextCursor;
    if NextOf(s, v) != Zeros(WIDTH) {
      NonEmptyTables(s, hash);
      CursorAdvances(v, Exp(Smaller(s)));
    }
  }

  /**
   While the smaller table has at most 2^k buckets at every call, the cursors of
   a scan are spread at distances of 2^(64 - k) in reversed order.
   */
  lemma {:induction false} ScanStrides<K(!new), V>(run: seq<Call<K, V>>, hash: K -> Word, k: nat, n: nat) returns (c: nat)
    requires Scanning(run, hash) && k <= WIDTH && n < |run|
    requires forall i :: 0 <= i < |run| ==> Exp(Smaller(run[i].dict)) <= k
    ensures RevVal(run[n].cursor) == c * Pow2(WIDTH - k) && c >= n
  {
    hide StateOk, Log2, Pow2, RevVal, NextCursor;
    if n == 0 {
      ReverseZeros(WIDTH);
      c := 0;
    } else {
      var b := ScanStrides(run, hash, k, n - 1);
      var p := run[n - 1];
      assert run[n].cursor == NextOf(p.dict, p.cursor) != Zeros(WIDTH);
      CallAdvances(p.dict, hash, p.cursor);
      c := NextStride(p.dict, hash, p.cursor, k);
      if c <= b {
        MulGe(b, c, Pow2(WIDTH - k));
      }
    }
  }

  lemma NextStride<K(!new), V>(s: State<K, V>, hash: K -> Word, v: Word, k: nat) returns (e: nat)
    requires StateOk(s, hash) && NextOf(s, v) != Zeros(WIDTH) && Exp(Smaller(s)) <= k <= WIDTH
    ensures RevVal(NextOf(s, v)) == e * Pow2(WIDTH - k)
  {
    hide Log2, Pow2, RevVal, NextCursor, TableOk, StateOk;
    NonEmptyTables(s, hash);
    TableSize(Smaller(s), hash);
    e := CursorStride(v, Exp(Smaller(s)), k);
  }

  lemma TableSize<K, V>(t: Table<K, V>, hash: K -> Word)
    requires TableOk(t, hash)
    ensures |t.buckets| == Pow2(Exp(t))
  {
    hide Pow2, Log2, WellPlaced, Count, DistinctKeys;
  }

  /** Scan termination: no scan makes more calls than the largest smaller table that it meets has buckets. */
  lemma ScanTerminates<K(!new), V>(run: seq<Call<K, V>>, hash: K -> Word, k: nat)
    requires Scanning(run, hash) && k <= WIDTH
    requires forall i :: 0 <= i < |run| ==> Exp(Smaller(run[i].dict)) <= k
    ensures |run| <= Pow2(k)
  {
    hide *;
    var n := LastCall(run, hash);
    var c := ScanStrides(run, hash, k, n);
    RevValBelow(run[n].cursor);
    assert k + (WIDTH - k) == WIDTH;
    FewerStrides(c, k, WIDTH - k);
  }

  lemma LastCall<K(!new), V>(run: seq<Call<K, V>>, hash: K -> Word) returns (n: nat)
    requires Scanning(run, hash)
    ensures n + 1 == |run|
  {
    hide StateOk, NextOf;
    n := |run| - 1;
  }

  lemma FewerStrides(c: nat, a: nat, b: nat)
    requires c * Pow2(b) < Pow2(a + b)
    ensures c < Pow2(a)
  {
    Pow2Add(a, b);
    hide Pow2;
    if c >= Pow2(a) {
      MulGe(c, Pow2(a), Pow2(b));
    }
  }

  /** So every scan ends, under any schedule of resizes at all. */
  lemma ScanAlwaysEnds<K(!new), V>(run: seq<Call<K, V>>, hash: K -> Word)
    requires Scanning(run, hash)
    ensures |run| <= Pow2(WIDTH)
  {
    hide Pow2, Disjoint, WellPlaced, DistinctKeys, Count;
    ScanTerminates(run, hash, WIDTH);
  }

  lemma RevValBelow(v: Bits)
    ensures RevVal(v) < Pow2(|v|)
  {
    ValBound(Reverse(v));
  }

  // ----- a table of fixed size -----

  ghost predicate FixedSize<K(!new), V>(run: seq<Call<K, V>>, k: nat) {
    forall i :: 0 <= i < |run| ==>
      !IsRehashing(run[i].dict) && Size(run[i].dict) > 0 && |run[i].dict.ht0.buckets| == Pow2(k)
  }

  /** The i-th cursor of a scan over a table of 2^k buckets holds i in its low k bits, reversed, and zeros above. */
  lemma {:induction false} FixedCursor<K(!new), V>(run: seq<Call<K, V>>, hash: K -> Word, k: nat, n: nat)
    requires Scanning(run, hash) && k <= WIDTH && FixedSize(run, k) && n < |run|
    ensures RevVal(run[n].cursor[..k]) == n
    ensures NextOf(run[n].dict, run[n].cursor) == Zeros(WIDTH) <==> n + 1 == Pow2(k)
  {
    hide StateOk, RevVal, Pow2, NextCursor;
    assert !IsRehashing(run[n].dict) && Size(run[n].dict) > 0 && |run[n].dict.ht0.buckets| == Pow2(k);
    if n == 0 {
      assert Zeros(WIDTH)[..k] == Zeros(k);
      ReverseZeros(k);
    } else {
      FixedCursor(run, hash, k, n - 1);
      NextCursorBits(run[n - 1].cursor, k);
      BumpVal(run[n - 1].cursor[..k]);
      assert run[n].cursor == NextOf(run[n - 1].dict, run[n - 1].cursor);
    }
    FixedNext(run[n].cursor, k);
  }

  lemma FixedNext(v: Word, k: nat)
    requires k <= WIDTH
    ensures NextCursor(v, MaskOf(Pow2(k))) == Zeros(WIDTH) <==> RevVal(v[..k]) + 1 == Pow2(k)
  {
    hide Val, Reverse, Pow2, NextCursor;
    NextCursorValue(v, k);
    ReverseZeros(WIDTH);
    var n := NextCursor(v, MaskOf(Pow2(k)));
    if RevVal(v[..k]) + 1 == Pow2(k) {
      RevValInjective(n, Zeros(WIDTH));
    } else {
      MulGe(RevVal(v[..k]) + 1, 1, Pow2(WIDTH - k));
    }
  }

  ghost predicate Visited<K(!new), V>(run: seq<Call<K, V>>, k: nat, b: nat) {
    exists i :: 0 <= i < |run| && Index(run[i].cursor, Pow2(k)) == b
  }

  /** On a table of fixed size N a complete scan makes exactly N calls and visits each bucket exactly once. */
  lemma FixedScanVisitsOnce<K(!new), V>(run: seq<Call<K, V>>, hash: K -> Word, k: nat)
    requires CompleteScan(run, hash) && k <= WIDTH && FixedSize(run, k)
    ensures |run| == Pow2(k)
    ensures forall i, j :: 0 <= i < j < |run| ==> Index(run[i].cursor, Pow2(k)) != Index(run[j].cursor, Pow2(k))
    ensures forall b :: 0 <= b < Pow2(k) ==> Visited(run, k, b)
  {
    hide RevVal, Val, Reverse, Pow2, Index, StateOk, NextOf;
    FixedCursor(run, hash, k, |run| - 1);
    forall i, j | 0 <= i < j < |run| ensures Index(run[i].cursor, Pow2(k)) != Index(run[j].cursor, Pow2(k)) {
      FixedCursor(run, hash, k, i);
      FixedCursor(run, hash, k, j);
      SameIndex(run[i].cursor, run[j].cursor, k);
    }
    forall b | 0 <= b < Pow2(k) ensures Visited(run, k, b) {
      var w := ToBits(b, k) + Zeros(WIDTH - k);
      assert w[..k] == ToBits(b, k);
      ToBitsVal(b, k);
      IndexLow(w, k);
      RevValBelow(w[..k]);
      var i := RevVal(w[..k]);
      FixedCursor(run, hash, k, i);
      RevValInjective(run[i].cursor[..k], w[..k]);
      SameIndex(run[i].cursor, w, k);
    }
  }

  lemma {:induction false} ToBitsVal(n: nat, k: nat)
    requires n < Pow2(k)
    ensures Val(ToBits(n, k)) == n
  {
    if k > 0 {
      ToBitsVal(n / 2, k - 1);
      assert ToBits(n, k)[1..] == ToBits(n / 2, k - 1);
    }
  }
}
