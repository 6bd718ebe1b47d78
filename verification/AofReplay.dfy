/**
 What the commands of an append only file mean: replaying a rewritten file
 rebuilds the dataset it was made from, followed by what was fed since the fork.
 */
module AofReplay {
  import opened Octets
  import opened AofLoad
  import opened AofEmit
  import AofRewrite

  datatype Value =
    | Text(text: ByteString)
    | ListV(elements: seq<ByteString>)
    | SetV(members: set<ByteString>)
    | ZSetV(scores: map<ByteString, ByteString>)
    | HashV(fields: map<ByteString, ByteString>)

  datatype Slot = Slot(value: Value, expire: Expiry)

  type Db = map<ByteString, Slot>

  /** The databases of a server and the one that a client selected. */
  datatype Data = Data(dbs: seq<Db>, cur: nat)

  /** What the commands that are not modelled do to the databases. */
  type Other = (seq<Db>, nat, Command) -> seq<Db>

  // ----- commands -----

  function Nil(kind: Kind): Value {
    match kind
    case ListKind => ListV([])
    case SetKind => SetV({})
    case ZSetKind => ZSetV(map[])
    case HashKind => HashV(map[])
  }

  predicate Fits(kind: Kind, v: Value) {
    match kind
    case ListKind => v.ListV?
    case SetKind => v.SetV?
    case ZSetKind => v.ZSetV?
    case HashKind => v.HashV?
  }

  /** Adds pairs of arguments to a map; `keyLast` when the key is the second of a pair. */
  function AddPairs(m: map<ByteString, ByteString>, args: seq<ByteString>, keyLast: bool): map<ByteString, ByteString>
    decreases |args|
  {
    if |args| < 2 then m
    else if keyLast then AddPairs(m[args[1] := args[0]], args[2..], keyLast)
    else AddPairs(m[args[0] := args[1]], args[2..], keyLast)
  }

  function Grown(kind: Kind, v: Value, args: seq<ByteString>): (r: Value)
    requires Fits(kind, v)
    ensures Fits(kind, r)
  {
    match kind
    case ListKind => ListV(v.elements + args)
    case SetKind => SetV(v.members + set a | a in args)
    case ZSetKind => ZSetV(AddPairs(v.scores, args, true))
    case HashKind => HashV(AddPairs(v.fields, args, false))
  }

  function Held(db: Db, kind: Kind, key: ByteString): Value {
    if key in db then db[key].value else Nil(kind)
  }

  /** Stores a value under a key; what is already there keeps its expire time. */
  function Put(db: Db, key: ByteString, v: Value): Db {
    db[key := Slot(v, if key in db then db[key].expire else Never)]
  }

  /** The data with another content of the selected database. */
  function OnDb(d: Data, db: Db): Data
    requires d.cur < |d.dbs|
  {
    Data(d.dbs[d.cur := db], d.cur)
  }

  /** The command adds items to a collection, or makes one. */
  predicate Adds(db: Db, c: Command, kind: Kind) {
    && |c| > 2 && c[0] == Name(kind) && (|c| - 2) % Width(kind) == 0
    && Fits(kind, Held(db, kind, c[1]))
  }

  function AddsTo(db: Db, c: Command, kind: Kind): Db
    requires Adds(db, c, kind)
  {
    Put(db, c[1], Grown(kind, Held(db, kind, c[1]), c[2..]))
  }

  function Exec(d: Data, c: Command, other: Other): (r: Data)
    requires d.cur < |d.dbs|
    ensures r.cur < |r.dbs| == |d.dbs|
  {
    var db := d.dbs[d.cur];
    if |c| == 2 && c[0] == SELECT then
      var j := ParseInt(c[1], -LONG_MAX - 1, LONG_MAX);
      if 0 <= j < |d.dbs| then d.(cur := j) else d
    else if |c| == 3 && c[0] == SET then OnDb(d, db[c[1] := Slot(Text(c[2]), Never)])
    else if |c| == 3 && c[0] == PEXPIREAT then
      if c[1] in db then OnDb(d, db[c[1] := db[c[1]].(expire := At(ParseInt(c[2], -LONG_MAX - 1, LONG_MAX)))]) else d
    else if Adds(db, c, ListKind) then OnDb(d, AddsTo(db, c, ListKind))
    else if Adds(db, c, SetKind) then OnDb(d, AddsTo(db, c, SetKind))
    else if Adds(db, c, ZSetKind) then OnDb(d, AddsTo(db, c, ZSetKind))
    else if Adds(db, c, HashKind) then OnDb(d, AddsTo(db, c, HashKind))
    else
      var dbs := other(d.dbs, d.cur, c);
      if |dbs| == |d.dbs| then d.(dbs := dbs) else d
  }

  function ExecAll(d: Data, cs: seq<Command>, other: Other): (r: Data)
    requires d.cur < |d.dbs|
    ensures r.cur < |r.dbs| == |d.dbs|
    decreases |cs|
  {
    if cs == [] then d else ExecAll(Exec(d, cs[0], other), cs[1..], other)
  }

  lemma {:induction false} ExecConcat(d: Data, a: seq<Command>, b: seq<Command>, other: Other)
    requires d.cur < |d.dbs|
    ensures ExecAll(d, a + b, other) == ExecAll(ExecAll(d, a, other), b, other)
    decreases |a|
  {
    hide Exec;
    if a == [] {
      assert a + b == b;
    } else {
      assert (a + b)[1..] == a[1..] + b && (a + b)[0] == a[0];
      ExecConcat(Exec(d, a[0], other), a[1..], b, other);
    }
  }

  lemma ExecOne(d: Data, c: Command, other: Other)
    requires d.cur < |d.dbs|
    ensures ExecAll(d, [c], other) == Exec(d, c, other)
  {
    hide Exec;
    assert [c][1..] == [];
  }

  // ----- what the commands are called -----

  function Ascii(s: string): ByteString
    requires forall i :: 0 <= i < |s| ==> s[i] as int < 256
  {
    seq(|s|, i requires 0 <= i < |s| => s[i] as int)
  }

  lemma CommandNames()
    ensures Name(ListKind) == Ascii("RPUSH") && Name(SetKind) == Ascii("SADD")
    ensures Name(ZSetKind) == Ascii("ZADD") && Name(HashKind) == Ascii("HMSET")
    ensures SET == Ascii("SET") && SELECT == Ascii("SELECT") && PEXPIREAT == Ascii("PEXPIREAT")
  {
  }

  /** What each command does to a key that is not there, by name, with its arguments in the order it takes them. */
  lemma CommandsByName(d: Data, k: ByteString, a: ByteString, b: ByteString, other: Other)
    requires d.cur < |d.dbs| && k !in d.dbs[d.cur]
    ensures Exec(d, [Ascii("RPUSH"), k, a, b], other) == OnDb(d, d.dbs[d.cur][k := Slot(ListV([a, b]), Never)])
    ensures Exec(d, [Ascii("SADD"), k, a, b], other) == OnDb(d, d.dbs[d.cur][k := Slot(SetV({a, b}), Never)])
    ensures Exec(d, [Ascii("ZADD"), k, a, b], other) == OnDb(d, d.dbs[d.cur][k := Slot(ZSetV(map[b := a]), Never)])
    ensures Exec(d, [Ascii("HMSET"), k, a, b], other) == OnDb(d, d.dbs[d.cur][k := Slot(HashV(map[a := b]), Never)])
  {
    hide *;
    CommandNames();
    AddedByName(d, k, a, b, ListKind, other);
    AddedByName(d, k, a, b, SetKind, other);
    AddedByName(d, k, a, b, ZSetKind, other);
    AddedByName(d, k, a, b, HashKind, other);
    FirstTwo(a, b);
  }

  lemma FirstTwo(a: ByteString, b: ByteString)
    ensures Grown(ListKind, Nil(ListKind), [a, b]) == ListV([a, b]) && Grown(SetKind, Nil(SetKind), [a, b]) == SetV({a, b})
    ensures Grown(ZSetKind, Nil(ZSetKind), [a, b]) == ZSetV(map[b := a])
    ensures Grown(HashKind, Nil(HashKind), [a, b]) == HashV(map[a := b])
  {
    assert [] + [a, b] == [a, b] && {} + (set x | x in [a, b]) == {a, b};
    assert [a, b][2..] == [];
    var none: map<ByteString, ByteString> := map[];
    assert none[b := a] == map[b := a] && none[a := b] == map[a := b];
    assert AddPairs(map[b := a], [], true) == map[b := a] && AddPairs(map[a := b], [], false) == map[a := b];
  }

  lemma AddedByName(d: Data, k: ByteString, a: ByteString, b: ByteString, kind: Kind, other: Other)
    requires d.cur < |d.dbs| && k !in d.dbs[d.cur]
    ensures Exec(d, [Name(kind), k, a, b], other)
            == OnDb(d, d.dbs[d.cur][k := Slot(Grown(kind, Nil(kind), [a, b]), Never)])
  {
    var c := [Name(kind), k, a, b];
    assert c[2..] == [a, b];
    hide Name, Grown, Exec;
    ExecAdds(d, c, kind, other);
  }

  /** Adding to a key that is there keeps its expire time; SET makes it persistent, PEXPIREAT changes nothing else. */
  lemma CommandsOnKey(d: Data, c: Command, kind: Kind, v: ByteString, when: int, other: Other)
    requires d.cur < |d.dbs| && Adds(d.dbs[d.cur], c, kind) && c[1] in d.dbs[d.cur] && -LONG_MAX <= when <= LONG_MAX
    ensures var db, k := d.dbs[d.cur], c[1];
            && Exec(d, c, other) == OnDb(d, db[k := Slot(Grown(kind, db[k].value, c[2..]), db[k].expire)])
            && Exec(d, [SET, k, v], other) == OnDb(d, db[k := Slot(Text(v), Never)])
            && Exec(d, [PEXPIREAT, k, Decimal(when)], other) == OnDb(d, db[k := Slot(db[k].value, At(when))])
  {
    ExecAdds(d, c, kind, other);
    ParseDecimal(when, [], -LONG_MAX - 1, LONG_MAX);
    assert Decimal(when) + [] == Decimal(when);
    assert SET != PEXPIREAT && SELECT != SET;
    hide ParseInt, Name, Grown, Decimal, Fits;
  }

  // ----- collections -----

  lemma NamesDiffer(a: Kind, b: Kind)
    ensures Name(a) == Name(b) ==> a == b
    ensures Name(a) != SET && Name(a) != SELECT && Name(a) != PEXPIREAT
  {
  }

  lemma ExecAdds(d: Data, c: Command, kind: Kind, other: Other)
    requires d.cur < |d.dbs| && Adds(d.dbs[d.cur], c, kind)
    ensures Exec(d, c, other) == OnDb(d, AddsTo(d.dbs[d.cur], c, kind))
  {
    NamesDiffer(kind, ListKind);
    NamesDiffer(kind, SetKind);
    NamesDiffer(kind, ZSetKind);
    NamesDiffer(kind, HashKind);
    hide AddsTo, Name, Fits, Held, ParseInt;
  }

  lemma {:induction false} AddPairsConcat(m: map<ByteString, ByteString>, a: seq<ByteString>, b: seq<ByteString>, keyLast: bool)
    requires |a| % 2 == 0
    ensures AddPairs(m, a + b, keyLast) == AddPairs(AddPairs(m, a, keyLast), b, keyLast)
    decreases |a|
  {
    if a == [] {
      assert a + b == b;
    } else {
      assert (a + b)[2..] == a[2..] + b && (a + b)[0] == a[0] && (a + b)[1] == a[1];
      AddPairsConcat(if keyLast then m[a[1] := a[0]] else m[a[0] := a[1]], a[2..], b, keyLast);
    }
  }

  lemma GrownConcat(kind: Kind, v: Value, a: seq<ByteString>, b: seq<ByteString>)
    requires Fits(kind, v) && |a| % Width(kind) == 0
    ensures Grown(kind, v, a + b) == Grown(kind, Grown(kind, v, a), b)
  {
    match kind
    case ListKind =>
      assert v.elements + (a + b) == v.elements + a + b;
    case SetKind =>
      assert v.members + (set x | x in a + b) == v.members + (set x | x in a) + (set x | x in b);
    case ZSetKind =>
      AddPairsConcat(v.scores, a, b, true);
    case HashKind =>
      AddPairsConcat(v.fields, a, b, false);
  }

  lemma WholeItems(kind: Kind, items: seq<Item>)
    requires ItemsOf(kind, items)
    ensures |Flat(items)| % Width(kind) == 0 && |Flat(items)| >= |items|
  {
    FlatLength(kind, items);
  }

  lemma ExecChunk(d: Data, kind: Kind, key: ByteString, items: seq<Item>, other: Other)
    requires d.cur < |d.dbs| && ItemsOf(kind, items) && items != [] && Fits(kind, Held(d.dbs[d.cur], kind, key))
    ensures var db := d.dbs[d.cur];
            Exec(d, [Name(kind), key] + Flat(items), other)
            == OnDb(d, Put(db, key, Grown(kind, Held(db, kind, key), Flat(items))))
  {
    var db, c := d.dbs[d.cur], [Name(kind), key] + Flat(items);
    hide Name, Width, Flat, Grown, Held, Fits, Exec, Put;
    WholeItems(kind, items);
    assert c[2..] == Flat(items);
    ExecAdds(d, c, kind, other);
  }

  lemma PutTwice(d: Data, kind: Kind, key: ByteString, v: Value, w: Value)
    requires d.cur < |d.dbs|
    ensures var d' := OnDb(d, Put(d.dbs[d.cur], key, v));
            && d'.cur < |d'.dbs| && Held(d'.dbs[d'.cur], kind, key) == v
            && OnDb(d', Put(d'.dbs[d'.cur], key, w)) == OnDb(d, Put(d.dbs[d.cur], key, w))
  {
    var d' := OnDb(d, Put(d.dbs[d.cur], key, v));
    assert Put(d'.dbs[d'.cur], key, w) == Put(d.dbs[d.cur], key, w);
  }

  lemma ExecFirstChunk(d: Data, kind: Kind, key: ByteString, items: seq<Item>, limit: nat, other: Other)
    requires d.cur < |d.dbs| && limit > 0 && items != []
    ensures var n := Min(limit, |items|);
            ExecAll(d, Chunks(kind, key, items, limit), other)
            == ExecAll(Exec(d, [Name(kind), key] + Flat(items[..n]), other), Chunks(kind, key, items[n..], limit), other)
  {
    var n := Min(limit, |items|);
    var cs := Chunks(kind, key, items, limit);
    hide Exec, Name, Flat;
    assert cs[0] == [Name(kind), key] + Flat(items[..n]) && cs[1..] == Chunks(kind, key, items[n..], limit);
  }

  lemma ExecNoChunk(d: Data, kind: Kind, key: ByteString, limit: nat, other: Other)
    requires d.cur < |d.dbs| && limit > 0
    ensures ExecAll(d, Chunks(kind, key, [], limit), other) == d
  {
  }

  /** Replaying the chunks of a collection adds all its items, whatever the chunk limit. */
  lemma {:induction false} ChunksGrow(d: Data, kind: Kind, key: ByteString, items: seq<Item>, limit: nat, other: Other)
    requires d.cur < |d.dbs| && limit > 0 && ItemsOf(kind, items) && items != []
    requires Fits(kind, Held(d.dbs[d.cur], kind, key))
    ensures var db := d.dbs[d.cur];
            ExecAll(d, Chunks(kind, key, items, limit), other)
            == OnDb(d, Put(db, key, Grown(kind, Held(db, kind, key), Flat(items))))
    decreases |items|
  {
    hide Flat, Name, Width, Grown, Held, Fits, Exec, ExecAll, Put, OnDb, Chunks;
    var db, n := d.dbs[d.cur], Min(limit, |items|);
    var first, rest := items[..n], items[n..];
    var v := Grown(kind, Held(db, kind, key), Flat(first));
    ExecFirstChunk(d, kind, key, items, limit, other);
    ExecChunk(d, kind, key, first, other);
    PutTwice(d, kind, key, v, Grown(kind, v, Flat(rest)));
    var d' := OnDb(d, Put(db, key, v));
    assert items == first + rest;
    if rest == [] {
      assert first == items;
      ExecNoChunk(d', kind, key, limit, other);
    } else {
      ChunksGrow(d', kind, key, rest, limit, other);
      FlatConcat(first, rest);
      WholeItems(kind, first);
      GrownConcat(kind, Held(db, kind, key), Flat(first), Flat(rest));
    }
  }

  /** The argument by which an item is found in its collection. */
  function KeyOf(kind: Kind, item: Item): ByteString
    requires |item| == Width(kind)
  {
    if kind == ZSetKind then item[1] else item[0]
  }

  /** The argument that goes with it: a score or a field's value. */
  function ValueOf(kind: Kind, item: Item): ByteString
    requires |item| == Width(kind) == 2
  {
    if kind == ZSetKind then item[0] else item[1]
  }

  ghost predicate Distinct(kind: Kind, items: seq<Item>)
    requires ItemsOf(kind, items)
  {
    forall i, j :: 0 <= i < j < |items| ==> KeyOf(kind, items[i]) != KeyOf(kind, items[j])
  }

  ghost function Pairs(kind: Kind, items: seq<Item>): map<ByteString, ByteString>
    requires Width(kind) == 2 && ItemsOf(kind, items) && Distinct(kind, items)
  {
    map i | 0 <= i < |items| :: KeyOf(kind, items[i]) := ValueOf(kind, items[i])
  }

  /** What Redis stores: no empty collection, and no member twice. */
  ghost predicate WellFormed(v: StoredValue) {
    v.Collection? ==>
      v.items != [] && ItemsOf(v.kind, v.items) && (v.kind != ListKind ==> Distinct(v.kind, v.items))
  }

  /** The value that a walk through it shows. */
  ghost function Meaning(v: StoredValue): Value
    requires WellFormed(v)
  {
    match v
    case Plain(text) => Text(text)
    case Collection(kind, items) =>
      match kind
      case ListKind => ListV(seq(|items|, i requires 0 <= i < |items| => items[i][0]))
      case SetKind => SetV(set i | 0 <= i < |items| :: items[i][0])
      case ZSetKind => ZSetV(Pairs(kind, items))
      case HashKind => HashV(Pairs(kind, items))
  }

  lemma FlatSnoc(items: seq<Item>)
    requires items != []
    ensures Flat(items) == Flat(items[..|items| - 1]) + items[|items| - 1]
  {
    var n := |items| - 1;
    assert items == items[..n] + [items[n]];
    var last: seq<Item> := [items[n]];
    FlatConcat(items[..n], last);
    assert Flat(last) == last[0] + Flat(last[1..]);
  }

  lemma AddOnePair(kind: Kind, m: map<ByteString, ByteString>, item: Item)
    requires Width(kind) == 2 && |item| == 2
    ensures AddPairs(m, item, kind == ZSetKind) == m[KeyOf(kind, item) := ValueOf(kind, item)]
  {
    assert |item[2..]| == 0;
  }

  lemma MeaningOfOne(kind: Kind, item: Item)
    requires |item| == Width(kind)
    ensures Grown(kind, Nil(kind), item) == Meaning(Collection(kind, [item]))
  {
    var items := [item];
    if Width(kind) == 2 {
      AddOnePair(kind, map[], item);
      assert Pairs(kind, items) == map[KeyOf(kind, item) := ValueOf(kind, item)] by {
        assert KeyOf(kind, items[0]) in Pairs(kind, items);
      }
    } else {
      assert item == [item[0]];
      assert items[0][0] == item[0];
    }
  }

  lemma PairAt(kind: Kind, items: seq<Item>, i: nat)
    requires Width(kind) == 2 && ItemsOf(kind, items) && Distinct(kind, items) && i < |items|
    ensures KeyOf(kind, items[i]) in Pairs(kind, items)
    ensures Pairs(kind, items)[KeyOf(kind, items[i])] == ValueOf(kind, items[i])
  {
    hide KeyOf, ValueOf;
  }

  lemma PairOf(kind: Kind, items: seq<Item>, k: ByteString) returns (i: nat)
    requires Width(kind) == 2 && ItemsOf(kind, items) && Distinct(kind, items) && k in Pairs(kind, items)
    ensures i < |items| && KeyOf(kind, items[i]) == k && Pairs(kind, items)[k] == ValueOf(kind, items[i])
  {
    hide ValueOf;
    i :| 0 <= i < |items| && KeyOf(kind, items[i]) == k;
    PairAt(kind, items, i);
  }

  lemma PairsStep(kind: Kind, items: seq<Item>)
    requires Width(kind) == 2 && items != [] && ItemsOf(kind, items) && Distinct(kind, items)
    requires ItemsOf(kind, items[..|items| - 1]) && Distinct(kind, items[..|items| - 1])
    ensures var n := |items| - 1;
            Pairs(kind, items) == Pairs(kind, items[..n])[KeyOf(kind, items[n]) := ValueOf(kind, items[n])]
  {
    hide Pairs, ValueOf, KeyOf, Width, Distinct;
    var n := |items| - 1;
    var m, m' := Pairs(kind, items), Pairs(kind, items[..n])[KeyOf(kind, items[n]) := ValueOf(kind, items[n])];
    forall k | k in m ensures k in m' && m'[k] == m[k] {
      OldPair(kind, items, k);
    }
    forall k | k in m' ensures k in m {
      PairKept(kind, items, k);
    }
    assert m.Keys == m'.Keys;
  }

  lemma OldPair(kind: Kind, items: seq<Item>, k: ByteString)
    requires Width(kind) == 2 && items != [] && ItemsOf(kind, items) && Distinct(kind, items)
    requires ItemsOf(kind, items[..|items| - 1]) && Distinct(kind, items[..|items| - 1])
    requires k in Pairs(kind, items)
    ensures var n := |items| - 1;
            if k == KeyOf(kind, items[n]) then Pairs(kind, items)[k] == ValueOf(kind, items[n])
            else k in Pairs(kind, items[..n]) && Pairs(kind, items[..n])[k] == Pairs(kind, items)[k]
  {
    hide Pairs, ValueOf, KeyOf, Width;
    var n := |items| - 1;
    var i := PairOf(kind, items, k);
    if i < n {
      assert items[..n][i] == items[i];
      PairAt(kind, items[..n], i);
      assert KeyOf(kind, items[i]) != KeyOf(kind, items[n]);
    }
  }

  lemma PairKept(kind: Kind, items: seq<Item>, k: ByteString)
    requires Width(kind) == 2 && items != [] && ItemsOf(kind, items) && Distinct(kind, items)
    requires ItemsOf(kind, items[..|items| - 1]) && Distinct(kind, items[..|items| - 1])
    requires k == KeyOf(kind, items[|items| - 1]) || k in Pairs(kind, items[..|items| - 1])
    ensures k in Pairs(kind, items)
  {
    hide Pairs, ValueOf, KeyOf, Width, Distinct;
    var n := |items| - 1;
    var i := n;
    if k != KeyOf(kind, items[n]) {
      i := PairOf(kind, items[..n], k);
    }
    PairAt(kind, items, i);
  }

  /** One more item, as the command adds it and as a walk shows it. */
  lemma MeaningStep(kind: Kind, items: seq<Item>)
    requires |items| > 1 && WellFormed(Collection(kind, items)) && WellFormed(Collection(kind, items[..|items| - 1]))
    ensures Fits(kind, Meaning(Collection(kind, items[..|items| - 1])))
    ensures Grown(kind, Meaning(Collection(kind, items[..|items| - 1])), items[|items| - 1]) == Meaning(Collection(kind, items))
  {
    hide Pairs, AddPairs, Distinct;
    var n := |items| - 1;
    var init, last := items[..n], items[n];
    if Width(kind) == 2 {
      PairsStep(kind, items);
      AddOnePair(kind, Pairs(kind, init), last);
    } else {
      assert last == [last[0]];
      assert forall i :: 0 <= i < n ==> init[i] == items[i];
      assert kind == SetKind ==>
        Grown(kind, Meaning(Collection(kind, init)), last).members == Meaning(Collection(kind, items)).members;
    }
  }

  lemma {:induction false} GrownMeaning(kind: Kind, items: seq<Item>)
    requires WellFormed(Collection(kind, items))
    ensures Grown(kind, Nil(kind), Flat(items)) == Meaning(Collection(kind, items))
    decreases |items|
  {
    var n := |items| - 1;
    var init := items[..n];
    FlatSnoc(items);
    if n == 0 {
      assert init == [] && Flat(init) == [] && Flat(items) == items[0] && items == [items[0]];
      MeaningOfOne(kind, items[0]);
    } else {
      assert WellFormed(Collection(kind, init)) by {
        assert forall i :: 0 <= i < n ==> init[i] == items[i];
      }
      GrownMeaning(kind, init);
      WholeItems(kind, init);
      GrownConcat(kind, Nil(kind), Flat(init), items[n]);
      MeaningStep(kind, items);
    }
  }

  /** Replaying the commands emitted for a collection rebuilds it: the list in order, the set, the scores, the fields. */
  lemma CollectionRebuilt(d: Data, kind: Kind, key: ByteString, items: seq<Item>, limit: nat, other: Other)
    requires d.cur < |d.dbs| && limit > 0 && WellFormed(Collection(kind, items)) && key !in d.dbs[d.cur]
    ensures ExecAll(d, Chunks(kind, key, items, limit), other)
            == OnDb(d, d.dbs[d.cur][key := Slot(Meaning(Collection(kind, items)), Never)])
  {
    hide Chunks, Exec, ExecAll, Meaning, Flat;
    ChunksGrow(d, kind, key, items, limit, other);
    GrownMeaning(kind, items);
  }

  // ----- datasets -----

  ghost predicate EntryOk(e: KeyRecord) {
    WellFormed(e.value) && (e.expire.At? ==> -LONG_MAX - 1 <= e.expire.when <= LONG_MAX)
  }

  ghost predicate EntriesOk(es: seq<KeyRecord>) {
    && (forall i :: 0 <= i < |es| ==> EntryOk(es[i]))
    && (forall i, j :: 0 <= i < j < |es| ==> es[i].key != es[j].key)
  }

  /** The keys of a database that have not expired, with their values and expire times. */
  ghost function LiveDb(es: seq<KeyRecord>, now: int): Db
    requires EntriesOk(es)
  {
    map i | 0 <= i < |es| && Live(es[i], now) :: es[i].key := Slot(Meaning(es[i].value), es[i].expire)
  }

  ghost function EntrySlot(e: KeyRecord): Slot
    requires EntryOk(e)
  {
    Slot(Meaning(e.value), e.expire)
  }

  lemma ValueRebuilt(d: Data, key: ByteString, v: StoredValue, limit: nat, other: Other)
    requires d.cur < |d.dbs| && limit > 0 && WellFormed(v) && key !in d.dbs[d.cur]
    ensures ExecAll(d, ValueCommands(key, v, limit), other) == OnDb(d, d.dbs[d.cur][key := Slot(Meaning(v), Never)])
  {
    match v
    case Plain(text) =>
      ExecOne(d, [SET, key, text], other);
      assert SET != SELECT;
    case Collection(kind, items) =>
      CollectionRebuilt(d, kind, key, items, limit, other);
  }

  lemma ExpireRebuilt(d: Data, e: KeyRecord, other: Other)
    requires d.cur < |d.dbs| && EntryOk(e) && e.key in d.dbs[d.cur] && d.dbs[d.cur][e.key].expire == Never
    ensures ExecAll(d, ExpireCommands(e), other)
            == OnDb(d, d.dbs[d.cur][e.key := Slot(d.dbs[d.cur][e.key].value, e.expire)])
  {
    if e.expire.At? {
      var w := e.expire.when;
      ExecOne(d, [PEXPIREAT, e.key, Decimal(w)], other);
      ParseDecimal(w, [], -LONG_MAX - 1, LONG_MAX);
      assert Decimal(w) + [] == Decimal(w);
      assert PEXPIREAT != SET;
    } else {
      assert d.dbs[d.cur][e.key := d.dbs[d.cur][e.key]] == d.dbs[d.cur];
    }
  }

  lemma EntryRebuilt(d: Data, e: KeyRecord, now: int, limit: nat, other: Other)
    requires d.cur < |d.dbs| && limit > 0 && EntryOk(e) && e.key !in d.dbs[d.cur]
    ensures ExecAll(d, EntryCommands(e, now, limit), other)
            == if Live(e, now) then OnDb(d, d.dbs[d.cur][e.key := EntrySlot(e)]) else d
  {
    hide Exec, Meaning, ValueCommands, ExpireCommands, WellFormed;
    if Live(e, now) {
      var d' := ExecAll(d, ValueCommands(e.key, e.value, limit), other);
      ExecConcat(d, ValueCommands(e.key, e.value, limit), ExpireCommands(e), other);
      ValueRebuilt(d, e.key, e.value, limit, other);
      ExpireRebuilt(d', e, other);
      assert d'.dbs[d'.cur][e.key := EntrySlot(e)] == d.dbs[d.cur][e.key := EntrySlot(e)];
    }
  }

  lemma LiveAt(es: seq<KeyRecord>, now: int, i: nat)
    requires EntriesOk(es) && i < |es| && Live(es[i], now)
    ensures es[i].key in LiveDb(es, now) && LiveDb(es, now)[es[i].key] == EntrySlot(es[i])
  {
    hide Meaning, WellFormed, Live;
  }

  lemma LiveOf(es: seq<KeyRecord>, now: int, k: ByteString) returns (i: nat)
    requires EntriesOk(es) && k in LiveDb(es, now)
    ensures i < |es| && Live(es[i], now) && es[i].key == k && LiveDb(es, now)[k] == EntrySlot(es[i])
  {
    hide Meaning, WellFormed, Live;
    i :| 0 <= i < |es| && Live(es[i], now) && es[i].key == k;
    LiveAt(es, now, i);
  }

  lemma LiveDbStep(es: seq<KeyRecord>, now: int)
    requires es != [] && EntriesOk(es)
    ensures var n := |es| - 1;
            && EntriesOk(es[..n]) && es[n].key !in LiveDb(es[..n], now)
            && LiveDb(es, now) == if Live(es[n], now) then LiveDb(es[..n], now)[es[n].key := EntrySlot(es[n])]
                                  else LiveDb(es[..n], now)
  {
    hide LiveDb, EntrySlot, EntryOk, Live;
    var n := |es| - 1;
    var init := es[..n];
    assert forall i :: 0 <= i < n ==> init[i] == es[i];
    var was := LiveDb(init, now);
    var m, m' := LiveDb(es, now), if Live(es[n], now) then was[es[n].key := EntrySlot(es[n])] else was;
    forall k | k in was ensures k != es[n].key && k in m {
      var i := LiveOf(init, now, k);
      LiveAt(es, now, i);
    }
    if Live(es[n], now) {
      LiveAt(es, now, n);
    }
    forall k | k in m ensures k in m' && m'[k] == m[k] {
      var i := LiveOf(es, now, k);
      if i < n {
        LiveAt(init, now, i);
      }
    }
    assert m.Keys == m'.Keys;
  }

  lemma {:induction false} EntriesRebuilt(d: Data, es: seq<KeyRecord>, now: int, limit: nat, other: Other)
    requires d.cur < |d.dbs| && limit > 0 && EntriesOk(es) && d.dbs[d.cur] == map[]
    ensures ExecAll(d, EntriesCommands(es, now, limit), other) == OnDb(d, LiveDb(es, now))
    decreases |es|
  {
    assert es == [] ==> LiveDb(es, now) == map[];
    hide Exec, EntryCommands, LiveDb, EntryOk, EntriesOk, Live;
    if es != [] {
      var n := |es| - 1;
      var init := es[..n];
      LiveDbStep(es, now);
      EntriesRebuilt(d, init, now, limit, other);
      var d' := OnDb(d, LiveDb(init, now));
      ExecConcat(d, EntriesCommands(init, now, limit), EntryCommands(es[n], now, limit), other);
      LastEntryOk(es);
      EntryRebuilt(d', es[n], now, limit, other);
    }
  }

  lemma LastEntryOk(es: seq<KeyRecord>)
    requires es != [] && EntriesOk(es)
    ensures EntryOk(es[|es| - 1])
  {
  }

  ghost predicate DatasetOk(dbs: seq<seq<KeyRecord>>) {
    |dbs| <= INT_MAX && forall j :: 0 <= j < |dbs| ==> EntriesOk(dbs[j])
  }

  /** The first n databases as they should be rebuilt, the others empty. */
  ghost function LiveDbs(dbs: seq<seq<KeyRecord>>, n: nat, now: int): (r: seq<Db>)
    requires DatasetOk(dbs)
    ensures |r| == |dbs|
  {
    seq(|dbs|, j requires 0 <= j < |dbs| => if j < n then LiveDb(dbs[j], now) else map[])
  }

  lemma ExecSelect(d: Data, j: nat, other: Other)
    requires d.cur < |d.dbs| && j < |d.dbs| && j <= INT_MAX
    ensures Exec(d, [SELECT, Decimal(j)], other) == d.(cur := j)
  {
    ParseDecimal(j, [], -LONG_MAX - 1, LONG_MAX);
    assert Decimal(j) + [] == Decimal(j);
  }

  /** Replaying the commands for a dataset rebuilds every database, without its expired keys. */
  lemma {:induction false} DatasetRebuilt(dbs: seq<seq<KeyRecord>>, n: nat, now: int, limit: nat, other: Other)
    requires DatasetOk(dbs) && 0 < |dbs| && n <= |dbs| && limit > 0
    ensures ExecAll(Data(LiveDbs(dbs, 0, now), 0), DatasetCommands(dbs, n, now, limit), other).dbs == LiveDbs(dbs, n, now)
  {
    hide Exec, EntriesCommands, EntriesOk, LiveDb;
    var start := Data(LiveDbs(dbs, 0, now), 0);
    if n > 0 {
      var es, j := dbs[n - 1], n - 1;
      DatasetRebuilt(dbs, j, now, limit, other);
      var before := DatasetCommands(dbs, j, now, limit);
      var d := ExecAll(start, before, other);
      if es == [] {
        assert before + [] == before;
        LiveDbsStep(dbs, j, now);
      } else {
        var select := [SELECT, Decimal(j)];
        var cmds := EntriesCommands(es, now, limit);
        ExecConcat(start, before, [select] + cmds, other);
        ExecConcat(d, [select], cmds, other);
        ExecOne(d, select, other);
        ExecSelect(d, j, other);
        EntriesRebuilt(d.(cur := j), es, now, limit, other);
        LiveDbsStep(dbs, j, now);
      }
    }
  }

  lemma LiveDbsStep(dbs: seq<seq<KeyRecord>>, j: nat, now: int)
    requires DatasetOk(dbs) && j < |dbs|
    ensures EntriesOk(dbs[j]) && LiveDbs(dbs, j, now)[j] == map[]
    ensures LiveDbs(dbs, j + 1, now) == LiveDbs(dbs, j, now)[j := LiveDb(dbs[j], now)]
    ensures dbs[j] == [] ==> LiveDbs(dbs, j + 1, now) == LiveDbs(dbs, j, now)
  {
    EmptyLiveDb(now);
    hide LiveDb, EntriesOk;
  }

  lemma EmptyLiveDb(now: int)
    ensures EntriesOk([]) && LiveDb([], now) == map[]
  {
  }

  // ----- what a server feeds -----

  /** A write command that a client ran on a database. */
  datatype Op = Op(db: nat, cmd: Command)

  ghost predicate OpsOk(ops: seq<Op>, dbnum: nat) {
    dbnum <= INT_MAX &&
    forall i :: 0 <= i < |ops| ==> ops[i].db < dbnum && !(|ops[i].cmd| == 2 && ops[i].cmd[0] == SELECT)
  }

  ghost function RunOps(dbs: seq<Db>, ops: seq<Op>, other: Other): (r: seq<Db>)
    requires OpsOk(ops, |dbs|)
    ensures |r| == |dbs|
  {
    if ops == [] then dbs
    else
      var n := |ops| - 1;
      Exec(Data(RunOps(dbs, ops[..n], other), ops[n].db), ops[n].cmd, other).dbs
  }

  /** The database selected by what was fed since the fork; none at first. */
  function Selected(ops: seq<Op>): int {
    if ops == [] then -1 else ops[|ops| - 1].db
  }

  function Fed(selected: int, op: Op): seq<Command> {
    (if op.db != selected then [[SELECT, Decimal(op.db)]] else []) + [op.cmd]
  }

  function FedAll(ops: seq<Op>): seq<Command> {
    if ops == [] then [] else FedAll(ops[..|ops| - 1]) + Fed(Selected(ops[..|ops| - 1]), ops[|ops| - 1])
  }

  /** feedAppendOnlyFile for commands that need no translation. */
  method FeedAppendOnlyFile(selected: int, op: Op) returns (buf: ByteString, nowSelected: int)
    ensures buf == EncodeAll(Fed(selected, op)) && nowSelected == op.db
    ensures buf == EncodeAll(if op.db == selected then [op.cmd] else [[SELECT, Decimal(op.db)], op.cmd])
  {
    hide Encode, EncodeAll;
    buf := [];
    NothingEncoded();
    ghost var sel: seq<Command> := [];
    if op.db != selected {
      var number := Digits(op.db);
      buf := Count(42, 2) + Bulk(SELECT) + Bulk(number);
      SelectText(number);
      sel := [[SELECT, number]];
    }
    nowSelected := op.db;
    EncodeOne(op.cmd);
    EncodeAllConcat(sel, [op.cmd]);
    assert Fed(selected, op) == sel + [op.cmd];
    assert Decimal(op.db) == Digits(op.db);
    assert sel + [op.cmd] == if op.db == selected then [op.cmd] else [[SELECT, Decimal(op.db)], op.cmd];
    buf := CatGenericCommand(buf, op.cmd);
  }

  lemma SelectText(number: ByteString)
    ensures Count(42, 2) + Bulk(SELECT) + Bulk(number) == EncodeAll([[SELECT, number]])
  {
    hide Bulk, Count;
    var c := [SELECT, number];
    EncodeOne(c);
    assert c[1..] == [number] && [number][1..] == [];
    assert Bulks(c) == Bulk(SELECT) + Bulks(c[1..]);
    assert Bulks([number]) == Bulk(number) + Bulks([number][1..]);
  }

  lemma ExecKeepsCur(d: Data, c: Command, other: Other)
    requires d.cur < |d.dbs| && !(|c| == 2 && c[0] == SELECT)
    ensures Exec(d, c, other).cur == d.cur
  {
    hide ParseInt, Adds, AddsTo;
  }

  /** What is fed selects its databases itself: it can follow any log. */
  lemma {:induction false} FedReplays(dbs: seq<Db>, cur: nat, ops: seq<Op>, other: Other)
    requires cur < |dbs| && OpsOk(ops, |dbs|)
    ensures ExecAll(Data(dbs, cur), FedAll(ops), other)
            == Data(RunOps(dbs, ops, other), if ops == [] then cur else ops[|ops| - 1].db)
  {
    hide Exec;
    if ops != [] {
      var n := |ops| - 1;
      var init, op := ops[..n], ops[n];
      FedReplays(dbs, cur, init, other);
      var d := ExecAll(Data(dbs, cur), FedAll(init), other);
      ExecConcat(Data(dbs, cur), FedAll(init), Fed(Selected(init), op), other);
      ExecOne(d.(cur := op.db), op.cmd, other);
      ExecKeepsCur(d.(cur := op.db), op.cmd, other);
      if op.db != Selected(init) {
        var select := [SELECT, Decimal(op.db)];
        ExecConcat(d, [select], [op.cmd], other);
        ExecOne(d, select, other);
        ExecSelect(d, op.db, other);
      } else {
        assert Fed(Selected(init), op) == [op.cmd];
      }
    }
  }

  // ----- the rewritten log -----

  /**
   After any run of the rewrite protocol that ends in success, loading the new
   log into an empty server gives the dataset at the fork, without the keys
   that had expired, with all commands run since the fork applied to it.
   */
  lemma RewrittenLogRestores(log: ByteString, run: seq<AofRewrite.Step>, dbs: seq<seq<KeyRecord>>, now: int, limit: nat,
                             ops: seq<Op>, known: ByteString -> bool, other: Other)
    requires AofRewrite.Legal(log, run)
    requires AofRewrite.After(log, run).Busy? && AofRewrite.After(log, run).rw.phase.Finished?
    requires DatasetOk(dbs) && 0 < |dbs| && limit > 0 && OpsOk(ops, |dbs|)
    requires AofRewrite.LastSnapshot(run) == EncodeAll(DatasetCommands(dbs, |dbs|, now, limit))
    requires AofRewrite.FedSinceFork(run) == EncodeAll(FedAll(ops))
    requires Loadable(DatasetCommands(dbs, |dbs|, now, limit) + FedAll(ops), known)
    ensures var file := AofRewrite.Apply(AofRewrite.After(log, run), AofRewrite.Done(true)).log;
            var l := Load(file, known);
            && l.end == AtEnd
            && ExecAll(Data(LiveDbs(dbs, 0, now), 0), l.cmds, other).dbs == RunOps(LiveDbs(dbs, |dbs|, now), ops, other)
  {
    AofRewrite.RewriteConservation(log, run);
    hide *;
    var snapshot, fed := DatasetCommands(dbs, |dbs|, now, limit), FedAll(ops);
    EncodeAllConcat(snapshot, fed);
    LoadWhole(snapshot + fed, known);
    var start := Data(LiveDbs(dbs, 0, now), 0);
    DatasetRebuilt(dbs, |dbs|, now, limit, other);
    ExecConcat(start, snapshot, fed, other);
    var d := ExecAll(start, snapshot, other);
    FedReplays(d.dbs, d.cur, ops, other);
  }
}
