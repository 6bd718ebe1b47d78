/**
 The commands that a rewrite emits to rebuild a dataset: collections in chunks
 of at most `limit` items, each command announcing its number of arguments
 before they are written.
 */
module AofEmit {
  import opened Octets
  import opened AofLoad

  datatype Kind = ListKind | SetKind | ZSetKind | HashKind

  function Name(kind: Kind): ByteString {
    match kind
    case ListKind => [82, 80, 85, 83, 72]
    case SetKind => [83, 65, 68, 68]
    case ZSetKind => [90, 65, 68, 68]
    case HashKind => [72, 77, 83, 69, 84]
  }

  const SET: ByteString := [83, 69, 84]
  const SELECT: ByteString := [83, 69, 76, 69, 67, 84]
  const PEXPIREAT: ByteString := [80, 69, 88, 80, 73, 82, 69, 65, 84]

  /** An element, or a score and its member, or a field and its value. */
  function Width(kind: Kind): nat {
    match kind
    case ListKind => 1
    case SetKind => 1
    case ZSetKind => 2
    case HashKind => 2
  }

  /** One item of a collection: as many arguments as its kind takes. */
  type Item = seq<ByteString>

  predicate ItemsOf(kind: Kind, items: seq<Item>) {
    forall i :: 0 <= i < |items| ==> |items[i]| == Width(kind)
  }

  function Flat(items: seq<Item>): seq<ByteString> {
    if items == [] then [] else items[0] + Flat(items[1..])
  }

  lemma {:induction false} FlatConcat(a: seq<Item>, b: seq<Item>)
    ensures Flat(a + b) == Flat(a) + Flat(b)
  {
    if a == [] {
      assert a + b == b;
    } else {
      assert (a + b)[1..] == a[1..] + b && (a + b)[0] == a[0];
      FlatConcat(a[1..], b);
    }
  }

  lemma {:induction false} FlatLength(kind: Kind, items: seq<Item>)
    requires ItemsOf(kind, items)
    ensures |Flat(items)| == |items| * Width(kind)
  {
    if items != [] {
      FlatLength(kind, items[1..]);
    }
  }

  function Min(a: nat, b: nat): nat {
    if a < b then a else b
  }

  function Chunks(kind: Kind, key: ByteString, items: seq<Item>, limit: nat): (cs: seq<Command>)
    requires limit > 0
    decreases |items|
  {
    if items == [] then []
    else
      var n := Min(limit, |items|);
      [[Name(kind), key] + Flat(items[..n])] + Chunks(kind, key, items[n..], limit)
  }

  /** No chunk holds more items than allowed, and every chunk but the last one as many. */
  lemma {:induction false} ChunkSizes(kind: Kind, key: ByteString, items: seq<Item>, limit: nat, i: nat)
    requires limit > 0 && ItemsOf(kind, items) && i < |Chunks(kind, key, items, limit)|
    ensures var cs := Chunks(kind, key, items, limit);
            2 < |cs[i]| <= 2 + limit * Width(kind) && (i < |cs| - 1 ==> |cs[i]| == 2 + limit * Width(kind))
    decreases |items|
  {
    hide Name, Flat;
    var n := Min(limit, |items|);
    FlatLength(kind, items[..n]);
    if i == 0 {
      FirstChunkSize(kind, n, limit);
    } else {
      ChunkSizes(kind, key, items[n..], limit, i - 1);
    }
  }

  lemma FirstChunkSize(kind: Kind, n: nat, limit: nat)
    requires 0 < n <= limit
    ensures 0 < n * Width(kind) <= limit * Width(kind)
  {
  }

  /** What is written of a command that announced `size` items when only `items` of them are written. */
  function Begun(kind: Kind, key: ByteString, size: nat, items: seq<Item>): ByteString {
    Count(42, 2 + size * Width(kind)) + Bulks([Name(kind), key] + Flat(items))
  }

  /** With all announced items written, the command is whole: its header tells the truth. */
  lemma BegunIsWhole(kind: Kind, key: ByteString, items: seq<Item>)
    requires ItemsOf(kind, items)
    ensures Begun(kind, key, |items|, items) == Encode([Name(kind), key] + Flat(items))
  {
    FlatLength(kind, items);
    hide Bulks, Count, Name, Width, Flat, ItemsOf;
    assert |[Name(kind), key] + Flat(items)| == 2 + |items| * Width(kind);
  }

  lemma BegunGrows(kind: Kind, key: ByteString, size: nat, items: seq<Item>, item: Item)
    ensures Begun(kind, key, size, items + [item]) == Begun(kind, key, size, items) + Bulks(item)
  {
    hide Count, Name, Bulks;
    FlatConcat(items, [item]);
    assert Flat([item]) == item + Flat([item][1..]);
    assert [Name(kind), key] + Flat(items + [item]) == [Name(kind), key] + Flat(items) + item;
    BulksConcat([Name(kind), key] + Flat(items), item);
  }

  lemma BegunEmpty(kind: Kind, key: ByteString, size: nat)
    ensures Begun(kind, key, size, []) == Count(42, 2 + size * Width(kind)) + Bulk(Name(kind)) + Bulk(key)
  {
    hide Count, Name, Bulk;
    var two := [Name(kind), key];
    assert two + Flat([]) == two && two[1..] == [key] && [key][1..] == [];
    assert Bulks(two) == Bulk(Name(kind)) + Bulks(two[1..]);
    assert Bulks([key]) == Bulk(key) + Bulks([key][1..]);
  }

  lemma FirstChunk(kind: Kind, key: ByteString, items: seq<Item>, limit: nat, n: nat)
    requires limit > 0 && items != [] && n == Min(limit, |items|) && ItemsOf(kind, items)
    ensures EncodeAll(Chunks(kind, key, items, limit))
            == Begun(kind, key, n, items[..n]) + EncodeAll(Chunks(kind, key, items[n..], limit))
  {
    hide Begun, Encode;
    BegunIsWhole(kind, key, items[..n]);
    var cs := Chunks(kind, key, items, limit);
    assert cs[1..] == Chunks(kind, key, items[n..], limit);
  }

  /** What holds before each item: either a command is whole, or `count` of its announced items are written. */
  ghost predicate Emitting(kind: Kind, key: ByteString, items: seq<Item>, limit: nat, i: nat, count: nat, base: ByteString, out: ByteString)
    requires limit > 0 && count <= i <= |items|
  {
    var start := i - count;
    && EncodeAll(Chunks(kind, key, items, limit)) == base + EncodeAll(Chunks(kind, key, items[start..], limit))
    && (if count == 0 then out == base else out == base + Begun(kind, key, Min(limit, |items| - start), items[start..i]))
  }

  lemma EmitItem(kind: Kind, key: ByteString, items: seq<Item>, limit: nat, i: nat, count: nat, base: ByteString, out: ByteString, out': ByteString)
    requires limit > 0 && count < limit && count <= i < |items|
    requires Emitting(kind, key, items, limit, i, count, base, out)
    requires out' == out + (if count == 0 then Begun(kind, key, Min(limit, |items| - i), []) else []) + Bulks(items[i])
    ensures Emitting(kind, key, items, limit, i + 1, count + 1, base, out')
  {
    hide Begun, Bulks, Chunks, EncodeAll;
    var start := i - count;
    var size := Min(limit, |items| - start);
    assert items[start..i + 1] == items[start..i] + [items[i]];
    BegunGrows(kind, key, size, items[start..i], items[i]);
    if count == 0 {
      assert items[start..i] == [];
      assert out' == base + (Begun(kind, key, size, []) + Bulks(items[i]));
    } else {
      assert out' == base + (Begun(kind, key, size, items[start..i]) + Bulks(items[i]));
    }
  }

  lemma EmitWhole(kind: Kind, key: ByteString, items: seq<Item>, limit: nat, i: nat, count: nat, base: ByteString, out: ByteString)
    requires limit > 0 && 0 < count <= limit && count <= i <= |items| && ItemsOf(kind, items)
    requires count == limit || i == |items|
    requires Emitting(kind, key, items, limit, i, count, base, out)
    ensures Emitting(kind, key, items, limit, i, 0, out, out)
  {
    var start := i - count;
    hide Begun, Chunks, EncodeAll;
    var tail := items[start..];
    assert Min(limit, |tail|) == count;
    FirstChunk(kind, key, tail, limit, count);
    assert tail[..count] == items[start..i] && tail[count..] == items[i..];
  }

  lemma EmitStart(kind: Kind, key: ByteString, items: seq<Item>, limit: nat)
    requires limit > 0
    ensures Emitting(kind, key, items, limit, 0, 0, [], [])
  {
    hide Chunks, EncodeAll;
    assert items[0..] == items;
  }

  lemma EmitEnd(kind: Kind, key: ByteString, items: seq<Item>, limit: nat, base: ByteString, out: ByteString)
    requires limit > 0 && Emitting(kind, key, items, limit, |items|, 0, base, out)
    ensures out == EncodeAll(Chunks(kind, key, items, limit))
  {
    assert items[|items|..] == [];
    assert EncodeAll(Chunks(kind, key, [], limit)) == [];
  }

  /**
   The loop that rewriteListObject, rewriteSetObject, rewriteSortedSetObject and
   rewriteHashObject share, with its running counts of items written in this
   command and of items left.
   */
  method RewriteCollection(kind: Kind, key: ByteString, items: seq<Item>, limit: nat) returns (out: ByteString)
    requires limit > 0 && ItemsOf(kind, items)
    ensures out == EncodeAll(Chunks(kind, key, items, limit))
  {
    hide Name, Bulks, Bulk, Count, Chunks, EncodeAll, Emitting, Begun;
    out := [];
    var count, left, i := 0, |items|, 0;
    ghost var base: ByteString := [];
    EmitStart(kind, key, items, limit);
    while i < |items|
      invariant i <= |items| && left == |items| - i && count <= i && count < limit
      invariant Emitting(kind, key, items, limit, i, count, base, out)
    {
      ghost var was := out;
      if count == 0 {
        var cmdItems := if left > limit then limit else left;
        BegunEmpty(kind, key, cmdItems);
        out := out + (Count(42, 2 + cmdItems * Width(kind)) + Bulk(Name(kind)) + Bulk(key));
      }
      out := out + Bulks(items[i]);
      assert count > 0 ==> was + [] == was;
      EmitItem(kind, key, items, limit, i, count, base, was, out);
      i, count := i + 1, count + 1;
      if count == limit {
        EmitWhole(kind, key, items, limit, i, count, base, out);
        base := out;
        count := 0;
      }
      left := left - 1;
    }
    if count > 0 {
      EmitWhole(kind, key, items, limit, i, count, base, out);
    }
    EmitEnd(kind, key, items, limit, if count > 0 then out else base, out);
  }

  // ----- the dataset -----

  /** A value as it is walked through: a string, or a collection with its items in iteration order. */
  datatype StoredValue = Plain(text: ByteString) | Collection(kind: Kind, items: seq<Item>)

  /** When a key expires, in milliseconds. */
  datatype Expiry = Never | At(when: int)

  datatype KeyRecord = KeyRecord(key: ByteString, value: StoredValue, expire: Expiry)

  predicate Live(e: KeyRecord, now: int) {
    e.expire.At? ==> e.expire.when >= now
  }

  predicate StoredOk(v: StoredValue) {
    v.Collection? ==> ItemsOf(v.kind, v.items)
  }

  function ValueCommands(key: ByteString, v: StoredValue, limit: nat): seq<Command>
    requires limit > 0
  {
    match v
    case Plain(text) => [[SET, key, text]]
    case Collection(kind, items) => Chunks(kind, key, items, limit)
  }

  function ExpireCommands(e: KeyRecord): seq<Command> {
    if e.expire.At? then [[PEXPIREAT, e.key, Decimal(e.expire.when)]] else []
  }

  function EntryCommands(e: KeyRecord, now: int, limit: nat): seq<Command>
    requires limit > 0
  {
    if Live(e, now) then ValueCommands(e.key, e.value, limit) + ExpireCommands(e) else []
  }

  function EntriesCommands(es: seq<KeyRecord>, now: int, limit: nat): seq<Command>
    requires limit > 0
  {
    if es == [] then [] else EntriesCommands(es[..|es| - 1], now, limit) + EntryCommands(es[|es| - 1], now, limit)
  }

  /** The commands for the first n databases; empty ones are passed over. */
  function DatasetCommands(dbs: seq<seq<KeyRecord>>, n: nat, now: int, limit: nat): seq<Command>
    requires limit > 0 && n <= |dbs|
  {
    if n == 0 then []
    else
      DatasetCommands(dbs, n - 1, now, limit) +
      if dbs[n - 1] == [] then [] else [[SELECT, Decimal(n - 1)]] + EntriesCommands(dbs[n - 1], now, limit)
  }

  lemma EncodeOne(c: Command)
    ensures EncodeAll([c]) == Encode(c)
  {
    hide Encode;
    assert [c][1..] == [];
  }

  method RewriteEntry(e: KeyRecord, now: int, limit: nat) returns (out: ByteString)
    requires limit > 0 && StoredOk(e.value)
    ensures out == EncodeAll(EntryCommands(e, now, limit))
    ensures out == if e.expire.At? && e.expire.when < now then []
                   else EncodeAll(ValueCommands(e.key, e.value, limit) + ExpireCommands(e))
  {
    hide Encode, EncodeAll;
    out := [];
    if e.expire.At? && e.expire.when < now {
      NothingEncoded();
      return;
    }
    match e.value {
      case Plain(text) =>
        out := CatGenericCommand(out, [SET, e.key, text]);
        EncodeOne([SET, e.key, text]);
        assert out == Encode([SET, e.key, text]);
      case Collection(kind, items) =>
        out := RewriteCollection(kind, e.key, items, limit);
    }
    assert out == EncodeAll(ValueCommands(e.key, e.value, limit));
    EncodeAllConcat(ValueCommands(e.key, e.value, limit), ExpireCommands(e));
    if e.expire.At? {
      EncodeOne([PEXPIREAT, e.key, Decimal(e.expire.when)]);
      out := CatGenericCommand(out, [PEXPIREAT, e.key, Decimal(e.expire.when)]);
    } else {
      NothingEncoded();
    }
  }

  lemma NothingEncoded()
    ensures EncodeAll([]) == []
  {
  }

  method RewriteEntries(es: seq<KeyRecord>, now: int, limit: nat) returns (out: ByteString)
    requires limit > 0 && forall i :: 0 <= i < |es| ==> StoredOk(es[i].value)
    ensures out == EncodeAll(EntriesCommands(es, now, limit))
  {
    hide EncodeAll, EntryCommands;
    out := [];
    NothingEncoded();
    var i := 0;
    while i < |es|
      invariant 0 <= i <= |es|
      invariant out == EncodeAll(EntriesCommands(es[..i], now, limit))
    {
      var more := RewriteEntry(es[i], now, limit);
      assert es[..i + 1][..i] == es[..i];
      EncodeAllConcat(EntriesCommands(es[..i], now, limit), EntryCommands(es[i], now, limit));
      out := out + more;
      i := i + 1;
    }
    assert es[..i] == es;
  }

  /** The databases loop of rewriteAppendOnlyFile. */
  method RewriteDataset(dbs: seq<seq<KeyRecord>>, now: int, limit: nat) returns (out: ByteString)
    requires limit > 0 && forall j, i :: 0 <= j < |dbs| && 0 <= i < |dbs[j]| ==> StoredOk(dbs[j][i].value)
    ensures out == EncodeAll(DatasetCommands(dbs, |dbs|, now, limit))
    ensures (forall j :: 0 <= j < |dbs| ==> dbs[j] == []) ==> out == []
  {
    hide EncodeAll, Encode, EntriesCommands;
    out := [];
    NothingEncoded();
    var j := 0;
    while j < |dbs|
      invariant 0 <= j <= |dbs|
      invariant out == EncodeAll(DatasetCommands(dbs, j, now, limit))
      invariant (forall i :: 0 <= i < j ==> dbs[i] == []) ==> out == []
    {
      var before, sel, cmds := DatasetCommands(dbs, j, now, limit), [SELECT, Decimal(j)], EntriesCommands(dbs[j], now, limit);
      if dbs[j] != [] {
        out := CatGenericCommand(out, sel);
        var more := RewriteEntries(dbs[j], now, limit);
        out := out + more;
        EncodeOne(sel);
        EncodeAllConcat([sel], cmds);
        EncodeAllConcat(before, [sel] + cmds);
      } else {
        assert before + [] == before;
      }
      j := j + 1;
    }
  }
}
