/**
 Whole scans, seen by their table sizes and cursors alone: which schedules of
 resizes leave no key behind, whatever the dictionaries hold, and a schedule
 that loses a key because a shrink began in the middle of the scan.
 */
module ScanSchedules {
  import opened Basics
  import opened Words
  import opened Cursor
  import opened DictState
  import opened Scan
  import opened ScanGaps

  /** A call: its cursor, whether there are two tables, and the exponents of the smaller and the larger one. */
  datatype Stop = Stop(cursor: Word, rehashing: bool, k0: nat, k1: nat)

  function StopOf<K, V>(c: Call<K, V>): Stop {
    Stop(c.cursor, IsRehashing(c.dict), Exp(Smaller(c.dict)), Exp(Larger(c.dict)))
  }

  function NextStop(p: Stop): Word
    requires p.k0 <= WIDTH
  {
    NextCursor(p.cursor, MaskOf(Pow2(p.k0)))
  }

  /** The calls of a scan from cursor 0 back to 0; a rehash is between tables of different sizes. */
  ghost predicate Schedule(ps: seq<Stop>) {
    && ps != [] && ps[0].cursor == Zeros(WIDTH)
    && (forall i :: 0 <= i < |ps| ==> ps[i].k0 <= ps[i].k1 <= 32 && (ps[i].rehashing <==> ps[i].k0 < ps[i].k1))
    && (forall i :: 0 < i < |ps| ==> ps[i].cursor == NextStop(ps[i - 1]) && ps[i].cursor != Zeros(WIDTH))
    && NextStop(ps[|ps| - 1]) == Zeros(WIDTH)
  }

  predicate Safe(p: Stop)
    requires p.k0 <= p.k1 <= WIDTH
  {
    LowRun(p.cursor[p.k0..p.k1])
  }

  /** A scan with these sizes and cursors. */
  ghost predicate ScanOf<K(!new), V>(run: seq<Call<K, V>>, hash: K -> Word, ps: seq<Stop>) {
    && |run| == |ps| && CompleteScan(run, hash)
    && forall i :: 0 <= i < |ps| ==> StopOf(run[i]) == ps[i]
  }

  /** No scan with these sizes and cursors, over whatever dictionaries, misses a key that is there at every call. */
  ghost predicate NeverMisses<K(!new), V(!new)>(ps: seq<Stop>, hash: K -> Word) {
    forall run: seq<Call<K, V>>, k: K ::
      ScanOf(run, hash, ps) && PresentThroughout(run, hash, k) ==> EmittedBy(run, hash, |run|, k)
  }

  // ----- dictionaries that hold one key -----

  function Holding(p: Stop, h: Hash32): State<Hash32, ()> {
    if p.rehashing then Shrinking(p.k0, p.k1, Plain, h) else State(Singleton(p.k0, Plain, h), NoTable(), -1)
  }

  /** The call at p does not come upon h. */
  predicate Passes(p: Stop, h: Hash32)
    requires p.k0 <= p.k1 <= WIDTH
  {
    if p.rehashing then !VisitsLarge(h, p.cursor, p.k0, p.k1) else h[..p.k0] != p.cursor[..p.k0]
  }

  lemma HoldingOk(p: Stop, h: Hash32)
    requires p.k0 <= p.k1 <= 32 && (p.rehashing <==> p.k0 < p.k1)
    ensures var s := Holding(p, h);
            && StateOk(s, Plain) && Lookup(s, Plain, h).Some? && StopOf(Call(s, p.cursor)) == p
            && NextOf(s, p.cursor) == NextStop(p)
  {
    hide Pow2, Log2, TableOk, TableFind, NextCursor, Index;
    if p.rehashing {
      ShrinkingOk(p.k0, p.k1, Plain, h);
      NonEmptyTables(Holding(p, h), Plain);
    } else {
      SingletonOk(p.k0, Plain, h);
    }
  }

  lemma HoldingEmitsNothing(p: Stop, h: Hash32)
    requires p.k0 <= p.k1 <= 32 && (p.rehashing <==> p.k0 < p.k1) && Passes(p, h)
    ensures StateOk(Holding(p, h), Plain) && Emits(Holding(p, h), Plain, p.cursor) == []
  {
    HoldingOk(p, h);
    if p.rehashing {
      ShrinkingEmitsNothing(p.k0, p.k1, Plain, h, p.cursor);
    } else {
      hide Pow2, Log2, TableOk, TableFind, Index, Val, Singleton, StateOk;
      SingletonOk(p.k0, Plain, h);
      NonEmptyTables(Holding(p, h), Plain);
      IndexLow(h, p.k0);
      if Val(h[..p.k0]) == Val(p.cursor[..p.k0]) {
        ValInjective(h[..p.k0], p.cursor[..p.k0]);
      }
    }
  }

  // ----- no other call comes back to the gap -----

  lemma {:induction false} LaterStops(ps: seq<Stop>, i: nat, j: nat)
    requires Schedule(ps) && i <= j < |ps|
    ensures RevVal(ps[i].cursor) <= RevVal(ps[j].cursor)
  {
    hide RevVal, NextCursor, Pow2;
    if i < j {
      LaterStops(ps, i, j - 1);
      CursorAdvances(ps[j - 1].cursor, ps[j - 1].k0);
    }
  }

  /** A hash in the gap of call i is in the bucket of no earlier call, and of no later one that uses as many bits. */
  lemma OtherCallsPass(ps: seq<Stop>, i: nat, j: nat, h: Word)
    requires Schedule(ps) && i < |ps| && j < |ps| && i != j && InGap(h, ps[i].cursor, ps[i].k0)
    requires i < j ==> ps[i].k0 <= ps[j].k0
    ensures h[..ps[j].k0] != ps[j].cursor[..ps[j].k0]
  {
    hide RevVal, NextCursor, Pow2;
    var v, w := ps[i].cursor, ps[j].cursor;
    GapIsBucket(h, w, ps[j].k0);
    if j < i {
      LaterStops(ps, j, i);
      LaterStops(ps, j + 1, i);
    } else {
      LaterStops(ps, i, j);
      LaterStops(ps, i + 1, j);
      GapIsBucket(h, v, ps[i].k0);
      GapIsBucket(w, v, ps[i].k0);
      assert w[..ps[j].k0][..ps[i].k0] == w[..ps[i].k0] && h[..ps[j].k0][..ps[i].k0] == h[..ps[i].k0];
    }
  }

  // ----- which schedules lose a key -----

  /** No call of the schedule comes upon h. */
  ghost predicate SlipsThrough(ps: seq<Stop>, h: Hash32)
    requires Schedule(ps)
  {
    forall i :: 0 <= i < |ps| ==> Passes(ps[i], h)
  }

  /** A hash that all calls pass is lost: dictionaries that hold nothing else emit nothing. */
  lemma PassedKeyIsLost(ps: seq<Stop>, h: Hash32) returns (run: seq<Call<Hash32, ()>>)
    requires Schedule(ps) && SlipsThrough(ps, h)
    ensures ScanOf(run, Plain, ps) && PresentThroughout(run, Plain, h) && !EmittedBy(run, Plain, |run|, h)
  {
    hide RevVal, NextCursor, Pow2, Holding, Emits, NextOf, StateOk, Lookup, InGap, VisitsLarge, Exp, Passes;
    run := seq(|ps|, j requires 0 <= j < |ps| => Call(Holding(ps[j], h), ps[j].cursor));
    forall j | 0 <= j < |ps|
      ensures StateOk(run[j].dict, Plain) && Lookup(run[j].dict, Plain, h).Some? && StopOf(run[j]) == ps[j]
      ensures NextOf(run[j].dict, run[j].cursor) == NextStop(ps[j]) && Emits(run[j].dict, Plain, run[j].cursor) == []
    {
      HoldingOk(ps[j], h);
      HoldingEmitsNothing(ps[j], h);
    }
    assert run[|ps| - 1].cursor == ps[|ps| - 1].cursor;
  }

  /** A call that does not pass a key's hash emits the key, in whichever table it is. */
  lemma CallEmitsUnpassed<K(!new), V>(c: Call<K, V>, hash: K -> Word, k: K, h: Hash32)
    requires StateOk(c.dict, hash) && Lookup(c.dict, hash, k).Some? && h == hash(k)
    requires var p := StopOf(c); p.k0 <= p.k1 <= WIDTH && !Passes(p, h)
    ensures EmitsKey(c.dict, hash, c.cursor, k)
  {
    PresentNonEmpty(c.dict, hash, k);
    NoTableFinds<K, V>(hash);
    hide Val, Pow2, Log2, TableFind, Emits, TableOk, Index;
    if TableFind(Smaller(c.dict), hash, k).Some? {
      EmitsFromSmaller(c.dict, hash, c.cursor, k);
    } else {
      EmitsFromLarger(c.dict, hash, c.cursor, k);
    }
  }

  /** A key whose hash does not slip through is emitted, in dictionaries of any keys and values and under any hash. */
  lemma ScanComesUpon<K(!new), V>(ps: seq<Stop>, run: seq<Call<K, V>>, hash: K -> Word, k: K, h: Hash32)
    requires Schedule(ps) && h == hash(k) && !SlipsThrough(ps, h)
    requires ScanOf(run, hash, ps) && PresentThroughout(run, hash, k)
    ensures EmittedBy(run, hash, |run|, k)
  {
    hide Passes, StateOk, EmitsKey, Lookup, StopOf, NextCursor, NextOf, Pow2;
    var i :| 0 <= i < |ps| && !Passes(ps[i], h);
    assert StopOf(run[i]) == ps[i];
    CallEmitsUnpassed(run[i], hash, k, h);
  }

  /**
   For every schedule, shrinking tables included: if no hash slips through
   between the calls, no scan misses a key, whatever the dictionaries hold and
   however they hash it; if one does, dictionaries with that hash lose a key.
   */
  lemma NeverMissesIffNoneSlips<K(!new), V(!new)>(ps: seq<Stop>, hash: K -> Word)
    requires Schedule(ps) && forall k :: Is32(hash(k))
    ensures (forall h: Hash32 :: !SlipsThrough(ps, h)) ==> NeverMisses<K, V>(ps, hash)
    ensures (exists h: Hash32 :: SlipsThrough(ps, h)) ==> !NeverMisses<Hash32, ()>(ps, Plain)
  {
    hide Schedule, SlipsThrough, PresentThroughout, EmittedBy;
    forall h: Hash32 | SlipsThrough(ps, h) ensures !NeverMisses<Hash32, ()>(ps, Plain) {
      var run := PassedKeyIsLost(ps, h);
    }
    if forall h: Hash32 :: !SlipsThrough(ps, h) {
      forall run: seq<Call<K, V>>, k: K | ScanOf(run, hash, ps) && PresentThroughout(run, hash, k)
        ensures EmittedBy(run, hash, |run|, k)
      {
        var h: Hash32 := hash(k);
        ScanComesUpon(ps, run, hash, k, h);
      }
    }
  }

  /**
   A schedule with an unsafe call, after which the smaller table never gets
   smaller than it was then, has a run of dictionaries that hold one key at
   every call and a scan that never emits it.
   */
  lemma UnsafeCallLosesKey(ps: seq<Stop>, i: nat) returns (run: seq<Call<Hash32, ()>>, h: Hash32)
    requires Schedule(ps) && i < |ps| && !Safe(ps[i])
    requires forall j :: i < j < |ps| ==> ps[i].k0 <= ps[j].k0
    ensures ScanOf(run, Plain, ps) && PresentThroughout(run, Plain, h) && !EmittedBy(run, Plain, |run|, h)
  {
    hide RevVal, NextCursor, Pow2, InGap, VisitsLarge, ScanOf, PresentThroughout, EmittedBy;
    h := MissedHash(ps[i].cursor, ps[i].k0, ps[i].k1);
    forall j | 0 <= j < |ps| ensures Passes(ps[j], h) {
      if j != i {
        OtherCallsPass(ps, i, j, h);
        VisitedBucket(h, ps[j].cursor, ps[j].k0, ps[j].k1);
      }
    }
    run := PassedKeyIsLost(ps, h);
  }

  lemma VisitedBucket(h: Word, v: Word, k0: nat, k1: nat)
    requires k0 <= k1 <= WIDTH
    ensures VisitsLarge(h, v, k0, k1) ==> h[..k0] == v[..k0]
  {
  }

  lemma SafeStopsAreSafeCalls<K(!new), V>(ps: seq<Stop>, run: seq<Call<K, V>>, hash: K -> Word, i: nat)
    requires Schedule(ps) && ScanOf(run, hash, ps) && i < |ps| && Safe(ps[i])
    ensures StateOk(run[i].dict, hash) && SafeCall(run[i].dict, hash, run[i].cursor)
  {
    hide StateOk, Exp;
    assert StopOf(run[i]) == ps[i];
  }

  lemma SafeScanEmits<K(!new), V>(ps: seq<Stop>, run: seq<Call<K, V>>, hash: K -> Word, k: K)
    requires Schedule(ps) && (forall i :: 0 <= i < |ps| ==> Safe(ps[i]))
    requires ScanOf(run, hash, ps) && PresentThroughout(run, hash, k)
    ensures EmittedBy(run, hash, |run|, k)
  {
    hide Safe, CompleteScan, PresentThroughout, SafeCall, StateOk;
    forall i | 0 <= i < |run| ensures StateOk(run[i].dict, hash) && SafeCall(run[i].dict, hash, run[i].cursor) {
      SafeStopsAreSafeCalls(ps, run, hash, i);
    }
    ScanCompleteness(run, hash, k);
  }

  /**
   The condition call by call: if all calls are safe, no scan misses a key,
   whatever the dictionaries hold and however they hash it; if one is unsafe,
   and the smaller table never shrinks below its size then, some lose a key.
   */
  lemma NeverMissesExactlyWhen<K(!new), V(!new)>(ps: seq<Stop>, hash: K -> Word)
    requires Schedule(ps)
    requires forall i, j :: 0 <= i < j < |ps| && !Safe(ps[i]) ==> ps[i].k0 <= ps[j].k0
    ensures (forall i :: 0 <= i < |ps| ==> Safe(ps[i])) ==> NeverMisses<K, V>(ps, hash)
    ensures (exists i :: 0 <= i < |ps| && !Safe(ps[i])) ==> !NeverMisses<Hash32, ()>(ps, Plain)
  {
    if forall i :: 0 <= i < |ps| ==> Safe(ps[i]) {
      hide Schedule, Safe, PresentThroughout, EmittedBy;
      forall run: seq<Call<K, V>>, k: K | ScanOf(run, hash, ps) && PresentThroughout(run, hash, k)
        ensures EmittedBy(run, hash, |run|, k)
      {
        SafeScanEmits(ps, run, hash, k);
      }
    } else {
      var i :| 0 <= i < |ps| && !Safe(ps[i]);
      hide Schedule, Safe, ScanOf, PresentThroughout, EmittedBy;
      var run, h := UnsafeCallLosesKey(ps, i);
    }
  }

  // ----- a shrink that begins in the middle of a scan -----

  /** The cursor whose lowest bits are b, all others zero. */
  function Low(b: Bits): Word
    requires |b| <= WIDTH
  {
    b + Zeros(WIDTH - |b|)
  }

  lemma LowNext(b: Bits, k: nat, n: Bits)
    requires |b| <= WIDTH && k <= WIDTH && |n| == k && Bump(Low(b)[..k]) == n
    ensures NextCursor(Low(b), MaskOf(Pow2(k))) == Low(n)
  {
    NextCursorBits(Low(b), k);
  }

  lemma BumpIs(p: Bits, r: Bits, i: Bits, q: Bits)
    requires Reverse(p) == r && Inc(r) == i && Reverse(i) == q
    ensures Bump(p) == q
  {
  }

  lemma ShrinkCursors()
    ensures NextCursor(Low([]), MaskOf(Pow2(4))) == Low([false, false, false, true])
    ensures NextCursor(Low([false, false, false, true]), MaskOf(Pow2(2))) == Low([false, true])
    ensures NextCursor(Low([false, true]), MaskOf(Pow2(2))) == Low([true, false])
    ensures NextCursor(Low([true, false]), MaskOf(Pow2(2))) == Low([true, true])
    ensures NextCursor(Low([true, true]), MaskOf(Pow2(2))) == Low([false, false])
  {
    hide NextCursor, Pow2, MaskOf;
    assert Low([])[..4] == [false, false, false, false];
    BumpIs([false, false, false, false], [false, false, false, false], [true, false, false, false],
           [false, false, false, true]);
    LowNext([], 4, [false, false, false, true]);
    assert Low([false, false, false, true])[..2] == [false, false];
    BumpIs([false, false], [false, false], [true, false], [false, true]);
    LowNext([false, false, false, true], 2, [false, true]);
    assert Low([false, true])[..2] == [false, true];
    BumpIs([false, true], [true, false], [false, true], [true, false]);
    LowNext([false, true], 2, [true, false]);
    assert Low([true, false])[..2] == [true, false];
    BumpIs([true, false], [false, true], [true, true], [true, true]);
    LowNext([true, false], 2, [true, true]);
    assert Low([true, true])[..2] == [true, true];
    assert Inc([true, true]) == [false, false] by { assert Inc([true]) == [false]; }
    BumpIs([true, true], [true, true], [false, false], [false, false]);
    LowNext([true, true], 2, [false, false]);
  }

  lemma LowNonZero(b: Bits, i: nat)
    requires i < |b| <= WIDTH && b[i]
    ensures Low(b) != Zeros(WIDTH)
  {
    assert Low(b)[i] && !Zeros(WIDTH)[i];
  }

  lemma LowZero()
    ensures Low([]) == Zeros(WIDTH) && Low([false, false]) == Zeros(WIDTH)
  {
  }

  /** One call on 16 buckets; then a shrink to 4 buckets is under way for the other four calls. */
  function ShrinkSchedule(): (ps: seq<Stop>)
    ensures |ps| == 5
  {
    [ Stop(Low([]), false, 4, 4),
      Stop(Low([false, false, false, true]), true, 2, 4),
      Stop(Low([false, true]), true, 2, 4),
      Stop(Low([true, false]), true, 2, 4),
      Stop(Low([true, true]), true, 2, 4) ]
  }

  lemma ShrinkScheduleOk()
    ensures Schedule(ShrinkSchedule())
  {
    hide NextCursor, Pow2, MaskOf, Low;
    ShrinkCursors();
    LowZero();
    LowNonZero([false, false, false, true], 3);
    LowNonZero([false, true], 1);
    LowNonZero([true, false], 0);
    LowNonZero([true, true], 0);
  }

  lemma SecondCallUnsafe()
    ensures !Safe(ShrinkSchedule()[1])
  {
    var p := ShrinkSchedule()[1];
    assert !p.cursor[2..4][0] && p.cursor[2..4][1];
  }

  /** The documented guarantee fails: a complete scan with these sizes never emits a key that is there at every call. */
  lemma ShrinkMidScanLosesKey() returns (run: seq<Call<Hash32, ()>>, h: Hash32)
    ensures ScanOf(run, Plain, ShrinkSchedule()) && PresentThroughout(run, Plain, h) && !EmittedBy(run, Plain, |run|, h)
  {
    hide Schedule, Safe, ScanOf, EmittedBy, PresentThroughout;
    ShrinkScheduleOk();
    SecondCallUnsafe();
    run, h := UnsafeCallLosesKey(ShrinkSchedule(), 1);
  }
}
