/**
 Files that are not just commands: what the loader says of a rest that was never
 written, and that it takes for a cut command only what could have become one.
 */
module AofFaults {
  import opened Octets
  import opened AofLoad

  // ----- behind good commands -----

  lemma LoadOne(c: Command, rest: ByteString, known: ByteString -> bool)
    requires Encodable(c) && known(c[0])
    ensures Load(Encode(c) + rest, known) == Resumed([c], |Encode(c)|, Load(rest, known))
  {
    hide ReadCommand, Encode;
    ReadWholeCommand(c, rest);
    assert (Encode(c) + rest)[|Encode(c)|..] == rest;
  }

  lemma ResumedTwice(a: seq<Command>, k: nat, b: seq<Command>, m: nat, l: Loading)
    ensures Resumed(a, k, Resumed(b, m, l)) == Resumed(a + b, k + m, l)
  {
    assert a + (b + l.cmds) == a + b + l.cmds;
  }

  lemma EncodeAllParts(cs: seq<Command>, t: ByteString)
    requires cs != []
    ensures EncodeAll(cs) + t == Encode(cs[0]) + (EncodeAll(cs[1..]) + t)
    ensures |EncodeAll(cs)| == |Encode(cs[0])| + |EncodeAll(cs[1..])|
  {
    hide Encode;
  }

  /** Whatever follows whole commands is loaded as it would be by itself. */
  lemma {:induction false} LoadThen(cs: seq<Command>, t: ByteString, known: ByteString -> bool)
    requires Loadable(cs, known)
    ensures Load(EncodeAll(cs) + t, known) == Resumed(cs, |EncodeAll(cs)|, Load(t, known))
    decreases |cs|
  {
    hide Load, Encode, Encodable, Resumed;
    if cs == [] {
      LoadStart(Load(t, known));
      assert EncodeAll(cs) == [] && [] + t == t;
    } else {
      EncodeAllParts(cs, t);
      hide EncodeAll;
      LoadThen(cs[1..], t, known);
      LoadOne(cs[0], EncodeAll(cs[1..]) + t, known);
      ResumedTwice([cs[0]], |Encode(cs[0])|, cs[1..], |EncodeAll(cs[1..])|, Load(t, known));
      assert [cs[0]] + cs[1..] == cs;
    }
  }

  lemma AfterTwice(a: seq<ByteString>, k: nat, b: seq<ByteString>, m: nat, r: Read<seq<ByteString>>)
    ensures After(a, k, After(b, m, r)) == After(a + b, k + m, r)
  {
    if r.Got? {
      assert a + (b + r.value) == a + b + r.value;
    }
  }

  lemma ReadOneBulk(a: ByteString, rest: ByteString, n: nat)
    requires |a| <= UINT_MAX && n > 0
    ensures ReadBulks(Bulk(a) + rest, n) == After([a], |Bulk(a)|, ReadBulks(rest, n - 1))
  {
    hide ReadBulk, Bulk;
    ReadWholeBulk(a, rest);
    assert (Bulk(a) + rest)[|Bulk(a)|..] == rest;
  }

  lemma BulksParts(args: seq<ByteString>, t: ByteString)
    requires args != []
    ensures Bulks(args) + t == Bulk(args[0]) + (Bulks(args[1..]) + t)
    ensures |Bulks(args)| == |Bulk(args[0])| + |Bulks(args[1..])|
  {
    hide Bulk;
  }

  lemma {:induction false} BulksThen(args: seq<ByteString>, t: ByteString, n: nat)
    requires forall i :: 0 <= i < |args| ==> |args[i]| <= UINT_MAX
    ensures ReadBulks(Bulks(args) + t, |args| + n) == After(args, |Bulks(args)|, ReadBulks(t, n))
    decreases |args|
  {
    hide ReadBulks, Bulk, After;
    if args == [] {
      AfterNothing(ReadBulks(t, n));
      assert Bulks(args) == [] && [] + t == t;
    } else {
      BulksParts(args, t);
      hide Bulks;
      BulksThen(args[1..], t, n);
      ReadOneBulk(args[0], Bulks(args[1..]) + t, |args| + n);
      AfterTwice([args[0]], |Bulk(args[0])|, args[1..], |Bulks(args[1..])|, ReadBulks(t, n));
      assert [args[0]] + args[1..] == args;
    }
  }

  /** The arguments of a command whose count line says m, as far as they are good. */
  lemma CommandThen(m: nat, args: seq<ByteString>, t: ByteString)
    requires |args| <= m <= INT_MAX && 1 <= m && forall i :: 0 <= i < |args| ==> |args[i]| <= UINT_MAX
    ensures var s, r := Count(42, m) + Bulks(args) + t, ReadBulks(t, m - |args|);
            && s != [] && (r.Bad? ==> ReadCommand(s) == Bad) && (r.Overrun? ==> ReadCommand(s) == Overrun)
  {
    hide ParseInt, Gets, Bulks, ReadBulks;
    var h, s := Count(42, m), Count(42, m) + Bulks(args) + t;
    assert s == h + (Bulks(args) + t);
    GetsCount(42, m, Bulks(args) + t);
    ParseCount(42, m, INT_MAX);
    assert s[|h|..] == Bulks(args) + t;
    assert h[1] == Digits(m)[0];
    BulksThen(args, t, m - |args|);
  }

  // ----- what is refused -----

  /** After whole commands, a byte that is not '*': the format is wrong, and nothing is cut off. */
  lemma JunkIsBadFormat(cs: seq<Command>, t: ByteString, known: ByteString -> bool)
    requires Loadable(cs, known) && t != [] && t[0] != 42
    ensures Load(EncodeAll(cs) + t, known) == Loading(cs, |EncodeAll(cs)|, BadFormat)
  {
    assert Gets(t, 127)[0] == t[0];
    LoadThen(cs, t, known);
    assert cs + [] == cs;
  }

  lemma GetsSigned(prefix: Octet, n: int, t: ByteString)
    requires prefix != 10 && -LONG_MAX - 1 < n <= LONG_MAX
    ensures Gets([prefix] + Decimal(n) + CRLF + t, 127) == [prefix] + Decimal(n) + CRLF
  {
    var m := if n < 0 then -n else n;
    CountLength(prefix, m);
    var h := [prefix] + Decimal(n) + [13];
    assert |Digits(m)| <= 20;
    assert [prefix] + Decimal(n) + CRLF == h + [10];
    assert [prefix] + Decimal(n) + CRLF + t == h + [10] + t;
    GetsLine(h, t, 127);
  }

  lemma ReadsSigned(prefix: Octet, n: int, t: ByteString, hi: int)
    requires prefix != 10 && -hi - 1 < n <= hi <= LONG_MAX
    ensures var s := [prefix] + Decimal(n) + CRLF + t;
            var line := Gets(s, 127);
            |line| > 1 && line[0] == prefix && line[1] != 0 && ParseInt(line[1..], -hi - 1, hi) == n
  {
    GetsSigned(prefix, n, t);
    var line := [prefix] + Decimal(n) + CRLF;
    assert line[1..] == Decimal(n) + CRLF;
    ParseDecimal(n, CRLF, -hi - 1, hi);
    assert line[1] == Decimal(n)[0];
  }

  /** A command that announces no arguments, or fewer. */
  lemma NoArgumentsIsBadFormat(cs: seq<Command>, n: int, t: ByteString, known: ByteString -> bool)
    requires Loadable(cs, known) && -INT_MAX - 1 < n < 1
    ensures Load(EncodeAll(cs) + ([42] + Decimal(n) + CRLF + t), known) == Loading(cs, |EncodeAll(cs)|, BadFormat)
  {
    var s := [42] + Decimal(n) + CRLF + t;
    ReadsSigned(42, n, t, INT_MAX);
    hide Gets, ParseInt, Decimal;
    assert ReadCommand(s) == Bad;
    LoadThen(cs, s, known);
    assert cs + [] == cs;
  }

  /** An argument whose line does not begin with '$', after any good ones. */
  lemma NoLengthIsBadFormat(cs: seq<Command>, m: nat, args: seq<ByteString>, t: ByteString, known: ByteString -> bool)
    requires Loadable(cs, known) && |args| < m <= INT_MAX && forall i :: 0 <= i < |args| ==> |args[i]| <= UINT_MAX
    requires t != [] && t[0] != 36
    ensures Load(EncodeAll(cs) + (Count(42, m) + Bulks(args) + t), known) == Loading(cs, |EncodeAll(cs)|, BadFormat)
  {
    assert Gets(t, 127)[0] == t[0];
    assert ReadBulks(t, m - |args|) == Bad;
    CommandThen(m, args, t);
    hide ReadCommand, Bulks, Count, ReadBulks;
    LoadThen(cs, Count(42, m) + Bulks(args) + t, known);
    assert cs + [] == cs;
  }

  /** An argument of negative length. */
  lemma NegativeLengthOverruns(cs: seq<Command>, m: nat, args: seq<ByteString>, n: int, t: ByteString, known: ByteString -> bool)
    requires Loadable(cs, known) && |args| < m <= INT_MAX && forall i :: 0 <= i < |args| ==> |args[i]| <= UINT_MAX
    requires -LONG_MAX - 1 < n < 0
    ensures Load(EncodeAll(cs) + (Count(42, m) + Bulks(args) + ([36] + Decimal(n) + CRLF + t)), known)
            == Loading(cs, |EncodeAll(cs)|, OutOfMemory)
  {
    var r := [36] + Decimal(n) + CRLF + t;
    ReadsSigned(36, n, t, LONG_MAX);
    hide Gets, ParseInt, Decimal, Bulks, Count;
    assert ReadBulk(r) == Overrun;
    assert ReadBulks(r, m - |args|) == Overrun;
    CommandThen(m, args, r);
    hide ReadCommand, ReadBulks;
    LoadThen(cs, Count(42, m) + Bulks(args) + r, known);
    assert cs + [] == cs;
  }

  /** A whole command whose name is not known: those before it are run, it and those behind it are not. */
  lemma UnknownIsReported(cs: seq<Command>, c: Command, t: ByteString, known: ByteString -> bool)
    requires Loadable(cs, known) && Encodable(c) && !known(c[0])
    ensures Load(EncodeAll(cs) + (Encode(c) + t), known) == Loading(cs, |EncodeAll(cs)|, UnknownCommand(c[0]))
  {
    hide ReadCommand, Encode;
    ReadWholeCommand(c, t);
    LoadThen(cs, Encode(c) + t, known);
    assert cs + [] == cs;
  }

  /** A NUL behind the '*' counts as a cut file only if the file ends within that line. */
  lemma NulAfterStar(cs: seq<Command>, t: ByteString, known: ByteString -> bool)
    requires Loadable(cs, known)
    ensures Load(EncodeAll(cs) + ([42, 0] + t), known)
            == Loading(cs, |EncodeAll(cs)|, if |t| < 125 && 10 !in t then CutShort else ReadError)
  {
    var s: ByteString := [42, 0] + t;
    ReadNul(t);
    hide ReadCommand;
    LoadThen(cs, s, known);
    assert cs + [] == cs;
  }

  lemma ReadNul(t: ByteString)
    ensures ReadCommand([42, 0] + t) == if |t| < 125 && 10 !in t then Short else Unreadable
  {
    var s: ByteString := [42, 0] + t;
    NulLine(t);
    GetsEnds(t, 125);
    hide Gets, ReadBulks, ParseInt;
    var g := Gets(t, 125);
    if |t| < 125 && 10 !in t {
      assert t != [] ==> t[|t| - 1] in t;
    } else if [42, 0] + g == s {
      assert g == ([42, 0] + g)[2..] == s[2..] == t;
    }
  }

  lemma NulLine(t: ByteString)
    ensures Gets([42, 0] + t, 127) == [42, 0] + Gets(t, 125)
  {
    var s: ByteString := [42, 0] + t;
    assert s[1..] == [0] + t && s[1..][1..] == t;
    assert Gets(s, 127) == [42] + Gets(s[1..], 126);
  }

  /** fgets reads all and finds no newline exactly when there is none and the room suffices. */
  lemma {:induction false} GetsEnds(s: ByteString, limit: nat)
    ensures |s| < limit && 10 !in s ==> Gets(s, limit) == s
    ensures Gets(s, limit) == s && |s| < limit && (s == [] || s[|s| - 1] != 10) ==> 10 !in s
  {
    if s != [] && limit > 0 && s[0] != 10 {
      assert s == [s[0]] + s[1..];
      GetsEnds(s[1..], limit - 1);
      assert s[1..] != [] ==> s[1..][|s| - 2] == s[|s| - 1];
    } else if s != [] && s[0] == 10 {
      assert 10 in s;
    }
  }

  // ----- what is taken for a cut command -----

  /** A line that ended, by a newline or for lack of room, stays the same whatever follows. */
  predicate Ended(line: ByteString, limit: nat) {
    |line| == limit || (line != [] && line[|line| - 1] == 10)
  }

  lemma {:induction false} GetsStays(s: ByteString, x: ByteString, limit: nat)
    requires Ended(Gets(s, limit), limit)
    ensures Gets(s + x, limit) == Gets(s, limit)
  {
    if s != [] && limit > 0 && s[0] != 10 {
      assert (s + x)[1..] == s[1..] + x;
      var line := Gets(s[1..], limit - 1);
      assert Gets(s, limit) == [s[0]] + line;
      if line == [] {
        assert limit == 1;
      }
      GetsStays(s[1..], x, limit - 1);
    }
  }

  /** A line that did not end is the whole rest of the file. */
  lemma {:induction false} NotEnded(s: ByteString, limit: nat)
    requires !Ended(Gets(s, limit), limit)
    ensures Gets(s, limit) == s && |s| < limit && forall i :: 0 <= i < |s| ==> s[i] != 10
  {
    if s != [] && limit > 0 && s[0] != 10 {
      var line := Gets(s[1..], limit - 1);
      assert Gets(s, limit) == [s[0]] + line;
      assert line != [] ==> ([s[0]] + line)[|line|] == line[|line| - 1];
      NotEnded(s[1..], limit - 1);
    }
  }

  lemma {:induction false} ScanNewline(s: ByteString, acc: nat)
    ensures ScanDigits(s + [10], acc) == ScanDigits(s, acc)
  {
    if s != [] {
      assert (s + [10])[1..] == s[1..] + [10];
      if IsDigit(s[0]) {
        ScanNewline(s[1..], 10 * acc + (s[0] - 48));
      }
    }
  }

  lemma {:induction false} SkipNewline(s: ByteString)
    ensures SkipSpaces(s + [10]) == if SkipSpaces(s) == [] then [] else SkipSpaces(s) + [10]
  {
    if s != [] && IsSpace(s[0]) {
      assert (s + [10])[1..] == s[1..] + [10];
      SkipNewline(s[1..]);
    } else if s == [] {
      assert SkipSpaces([10]) == SkipSpaces([10][1..]);
    }
  }

  /** The newline that was cut off does not change the number. */
  lemma ParseNewline(s: ByteString, lo: int, hi: int)
    ensures ParseInt(s + [10], lo, hi) == ParseInt(s, lo, hi)
  {
    SkipNewline(s);
    var t := SkipSpaces(s);
    hide SkipSpaces;
    if t != [] {
      assert (t + [10])[1..] == t[1..] + [10];
      ScanNewline(t, 0);
      ScanNewline(t[1..], 0);
    }
  }

  lemma BulkStays(s: ByteString, x: ByteString)
    requires ReadBulk(s).Got?
    ensures ReadBulk(s + x) == ReadBulk(s)
  {
    hide Gets, ParseInt;
    var line := Gets(s, 127);
    if !Ended(line, 127) {
      NotEnded(s, 127);
    }
    GetsStays(s, x, 127);
    var n := |line|;
    assert (s + x)[n..] == s[n..] + x;
    var kept := |ReadBulk(s).value|;
    assert (s[n..] + x)[..kept] == s[n..][..kept];
  }

  /** An argument that was cut has a continuation. */
  lemma CompleteBulk(s: ByteString) returns (x: ByteString)
    requires ReadBulk(s).Short?
    ensures ReadBulk(s + x).Got? && ReadBulk(s + x).used == |s + x|
  {
    hide Gets, ParseInt;
    if s == [] {
      x := Bulk([]);
      ReadWholeBulk([], []);
      assert Bulk([]) + [] == [] + x;
    } else {
      var line := Gets(s, 127);
      var len: nat := ParseInt(line[1..], -LONG_MAX - 1, LONG_MAX);
      if Ended(line, 127) {
        x := seq(len + 2 - |s[|line|..]|, _ => 0);
        GetsStays(s, x, 127);
        assert (s + x)[|line|..] == s[|line|..] + x;
      } else {
        NotEnded(s, 127);
        var y: ByteString := seq(len + 2, _ => 0);
        x := [10] + y;
        assert s + x == s + [10] + y;
        GetsLine(s, y, 127);
        ParseNewline(s[1..], -LONG_MAX - 1, LONG_MAX);
        assert (s + [10])[1..] == s[1..] + [10];
        assert (s + x)[|s + [10]|..] == y;
      }
    }
  }

  /** As many empty arguments as are missing. */
  lemma EmptyBulks(n: nat) returns (x: ByteString)
    ensures ReadBulks(x, n).Got?
  {
    var args: seq<ByteString> := seq(n, _ => []);
    x := Bulks(args);
    ReadWholeBulks(args, []);
    assert x + [] == x;
  }

  lemma {:induction false} CompleteBulks(s: ByteString, n: nat) returns (x: ByteString)
    requires ReadBulks(s, n).Short?
    ensures ReadBulks(s + x, n).Got?
    decreases n
  {
    hide ReadBulk;
    var r := ReadBulk(s);
    if r.Short? {
      var y := CompleteBulk(s);
      var t := EmptyBulks(n - 1);
      BulkStays(s + y, t);
      x := y + t;
      assert s + x == s + y + t && (s + y + t)[|s + y|..] == t;
    } else {
      x := CompleteBulks(s[r.used..], n - 1);
      BulkStays(s, x);
      assert (s + x)[r.used..] == s[r.used..] + x;
    }
  }

  /**
   A rest is taken for a cut command only if some bytes more would make a
   command of it, but for a line whose second byte is NUL.
   */
  lemma ShortCanBeCompleted(s: ByteString) returns (x: ByteString)
    requires s != [] && ReadCommand(s).Short? && (|s| > 1 ==> s[1] != 0)
    ensures ReadCommand(s + x).Got?
  {
    hide ParseInt, Gets, ReadBulks, Bulks;
    var line := Gets(s, 127);
    assert line == s[..|line|];
    if |line| == 1 {
      OneByteLine(s);
      var c: Command := [[]];
      x := Encode(c)[1..];
      ReadWholeCommand(c, []);
      assert Encode(c) + [] == s + x;
    } else {
      var argc := ParseInt(line[1..], -INT_MAX - 1, INT_MAX);
      if Ended(line, 127) {
        x := CompleteBulks(s[|line|..], argc);
        GetsStays(s, x, 127);
        assert (s + x)[|line|..] == s[|line|..] + x;
      } else {
        NotEnded(s, 127);
        var y := EmptyBulks(argc);
        x := [10] + y;
        assert s + x == s + [10] + y;
        GetsLine(s, y, 127);
        ParseNewline(s[1..], -INT_MAX - 1, INT_MAX);
        assert (s + [10])[1..] == s[1..] + [10];
        assert (s + x)[|s + [10]|..] == y;
      }
    }
  }

  lemma OneByteLine(s: ByteString)
    requires s != [] && s[0] == 42 && |Gets(s, 127)| == 1
    ensures s == [42]
  {
    assert Gets(s, 127) == [s[0]] + Gets(s[1..], 126);
  }

  /** So whenever the loader cuts a file, what it cuts off could have become a command, or has a NUL behind its '*'. */
  lemma {:induction false} OnlyCutCommandsAreCutOff(s: ByteString, known: ByteString -> bool) returns (x: ByteString)
    requires Load(s, known).end == CutShort
    ensures var rest := s[Load(s, known).upTo..];
            rest != [] && rest[0] == 42 && ((|rest| > 1 && rest[1] == 0) || ReadCommand(rest + x).Got?)
    decreases |s|
  {
    hide ParseInt, ReadBulks;
    var r := ReadCommand(s);
    if r.Got? {
      hide ReadCommand;
      x := OnlyCutCommandsAreCutOff(s[r.used..], known);
      var more := Load(s[r.used..], known);
      assert s[r.used..][more.upTo..] == s[Load(s, known).upTo..];
    } else {
      assert Gets(s, 127)[0] == s[0];
      hide ReadCommand, Gets;
      assert s[0..] == s;
      x := [];
      if !(|s| > 1 && s[1] == 0) {
        x := ShortCanBeCompleted(s);
      }
    }
  }
}
