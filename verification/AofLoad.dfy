/**
 Writing commands to the append only file and loading them back, including from
 a file that was cut short.
 */
module AofLoad {
  import opened Octets

  type Command = seq<ByteString>

  const INT_MAX: int := 0x7fff_ffff
  const LONG_MAX: int := 0x7fff_ffff_ffff_ffff
  const UINT_MAX: int := 0xffff_ffff

  // ----- writing -----

  /** A count line: '*' or '$', a number, CR LF. */
  function Count(prefix: Octet, n: nat): ByteString {
    [prefix] + Digits(n) + CRLF
  }

  function Bulk(a: ByteString): ByteString {
    Count(36, |a|) + a + CRLF
  }

  function Bulks(args: seq<ByteString>): ByteString {
    if args == [] then [] else Bulk(args[0]) + Bulks(args[1..])
  }

  function Encode(c: Command): ByteString {
    Count(42, |c|) + Bulks(c)
  }

  function EncodeAll(cs: seq<Command>): ByteString {
    if cs == [] then [] else Encode(cs[0]) + EncodeAll(cs[1..])
  }

  lemma {:induction false} BulksConcat(a: seq<ByteString>, b: seq<ByteString>)
    ensures Bulks(a + b) == Bulks(a) + Bulks(b)
  {
    if a == [] {
      assert a + b == b;
    } else {
      assert (a + b)[1..] == a[1..] + b && (a + b)[0] == a[0];
      BulksConcat(a[1..], b);
    }
  }

  lemma {:induction false} EncodeAllConcat(a: seq<Command>, b: seq<Command>)
    ensures EncodeAll(a + b) == EncodeAll(a) + EncodeAll(b)
  {
    if a == [] {
      assert a + b == b;
    } else {
      assert (a + b)[1..] == a[1..] + b && (a + b)[0] == a[0];
      EncodeAllConcat(a[1..], b);
    }
  }

  /** catAppendOnlyGenericCommand. */
  method CatGenericCommand(dst: ByteString, argv: Command) returns (r: ByteString)
    ensures r == dst + Encode(argv)
  {
    hide Bulk, Count;
    r := dst + Count(42, |argv|);
    var j := 0;
    while j < |argv|
      invariant 0 <= j <= |argv|
      invariant r == dst + (Count(42, |argv|) + Bulks(argv[..j]))
    {
      BulksConcat(argv[..j], [argv[j]]);
      assert Bulks([argv[j]]) == Bulk(argv[j]) + Bulks([argv[j]][1..]);
      assert argv[..j] + [argv[j]] == argv[..j + 1];
      r := r + Bulk(argv[j]);
      j := j + 1;
    }
    assert argv[..j] == argv;
  }

  // ----- reading -----

  /** fgets with room for `limit` bytes: up to and including a newline. */
  function Gets(s: ByteString, limit: nat): (line: ByteString)
    ensures |line| <= |s| && line == s[..|line|]
    ensures s != [] && limit > 0 ==> line != []
  {
    if s == [] || limit == 0 then []
    else if s[0] == 10 then [10]
    else [s[0]] + Gets(s[1..], limit - 1)
  }

  /** What an attempt to read something from the rest of the file gives. */
  datatype Read<T> =
    | Got(value: T, used: nat)
    | Short      // the file ended
    | Bad        // the format is wrong
    | Unreadable // a read error that is not the end of the file
    | Overrun    // a length for which no block of memory can be had

  /**
   A negative length is taken as an unsigned one above all memory: the block
   asked for cannot be had, or its size wraps around and the block is too small
   for what is read into it. A string keeps its length in an unsigned int.
   */
  function ReadBulk(s: ByteString): (r: Read<ByteString>)
    ensures r.Got? ==> 2 < r.used <= |s| && |r.value| <= UINT_MAX
  {
    if s == [] then Short
    else
      var line := Gets(s, 127);
      if line[0] != 36 then Bad
      else
        var len, rest := ParseInt(line[1..], -LONG_MAX - 1, LONG_MAX), s[|line|..];
        if len < 0 then Overrun
        else if |rest| < len + 2 then Short
        else Got(rest[..len % (UINT_MAX + 1)], |line| + len + 2)
  }

  function ReadBulks(s: ByteString, n: nat): (r: Read<seq<ByteString>>)
    ensures r.Got? ==> r.used <= |s| && |r.value| == n
  {
    if n == 0 then Got([], 0)
    else
      match ReadBulk(s)
      case Short => Short
      case Bad => Bad
      case Unreadable => Unreadable
      case Overrun => Overrun
      case Got(a, k) => After([a], k, ReadBulks(s[k..], n - 1))
  }

  /** A result for what follows `args`, which took k bytes. */
  function After(args: seq<ByteString>, k: nat, r: Read<seq<ByteString>>): Read<seq<ByteString>> {
    match r
    case Got(more, m) => Got(args + more, k + m)
    case _ => r
  }

  /** Reads one command; s is not empty. */
  function ReadCommand(s: ByteString): (r: Read<Command>)
    requires s != []
    ensures r.Got? ==> 0 < r.used <= |s| && |r.value| > 0
  {
    var line := Gets(s, 127);
    if line[0] != 42 then Bad
    else if |line| == 1 then Short
    else if line[1] == 0 then (if line == s && |line| < 127 && line[|line| - 1] != 10 then Short else Unreadable)
    else
      var argc := ParseInt(line[1..], -INT_MAX - 1, INT_MAX);
      if argc < 1 then Bad
      else
        After([], |line|, ReadBulks(s[|line|..], argc))
  }

  /** How reading the file came to its end. */
  datatype End = AtEnd | CutShort | BadFormat | ReadError | OutOfMemory | UnknownCommand(name: ByteString)

  datatype Loading = Loading(cmds: seq<Command>, upTo: nat, end: End)

  /** The commands run, the offset after the last one, and why there are no more. */
  function Load(s: ByteString, known: ByteString -> bool): (r: Loading)
    ensures r.upTo <= |s|
    decreases |s|
  {
    if s == [] then Loading([], 0, AtEnd)
    else
      match ReadCommand(s)
      case Short => Loading([], 0, CutShort)
      case Bad => Loading([], 0, BadFormat)
      case Unreadable => Loading([], 0, ReadError)
      case Overrun => Loading([], 0, OutOfMemory)
      case Got(c, k) =>
        if !known(c[0]) then Loading([], 0, UnknownCommand(c[0]))
        else
          var more := Load(s[k..], known);
          Loading([c] + more.cmds, k + more.upTo, more.end)
  }

  /** Nothing is known of a server that asked for memory which cannot be had. */
  datatype Status = Ok | EmptyFile | Exit(end: End) | Undefined

  /** The two nested loops of loadAppendOnlyFile; truncatedTo is the size the file is cut to, if it is. */
  method LoadAppendOnlyFile(file: ByteString, known: ByteString -> bool, loadTruncated: bool)
    returns (status: Status, ran: seq<Command>, truncatedTo: int)
    ensures file == [] ==> status == EmptyFile && ran == []
    ensures file != [] ==>
      var l := Load(file, known);
      && ran == l.cmds
      && status == (if l.end == OutOfMemory then Undefined
                    else if l.end == AtEnd || (l.end == CutShort && loadTruncated) then Ok
                    else Exit(l.end))
      && truncatedTo == (if l.end == CutShort && loadTruncated then l.upTo else -1)
  {
    hide *;
    ran, truncatedTo := [], -1;
    if file == [] {
      return EmptyFile, ran, truncatedTo;
    }
    var pos, validUpTo := 0, 0;
    assert file[0..] == file;
    LoadStart(Load(file, known));
    while pos < |file|
      invariant 0 <= pos <= |file|
      invariant loadTruncated ==> validUpTo == pos
      invariant Load(file, known) == Resumed(ran, pos, Load(file[pos..], known))
      decreases |file| - pos
    {
      LoadStep(file, known, pos, ran);
      var c := NextCommand(file, pos);
      if !c.Got? {
        if c.Overrun? {
          return Undefined, ran, -1;
        }
        if c.Short? && loadTruncated {
          return Ok, ran, validUpTo;
        }
        return Exit(if c.Short? then CutShort else if c.Bad? then BadFormat else ReadError), ran, -1;
      }
      if !known(c.value[0]) {
        return Exit(UnknownCommand(c.value[0])), ran, -1;
      }
      ran := ran + [c.value];
      pos := pos + c.used;
      if loadTruncated {
        validUpTo := pos;
      }
    }
    assert file[pos..] == [];
    LoadEnd(known, ran, pos);
    status := Ok;
  }

  /** The loading of a file whose first `upTo` bytes gave the commands `cmds`. */
  function Resumed(cmds: seq<Command>, upTo: nat, more: Loading): Loading {
    Loading(cmds + more.cmds, upTo + more.upTo, more.end)
  }

  lemma LoadStart(l: Loading)
    ensures Resumed([], 0, l) == l
  {
    assert [] + l.cmds == l.cmds;
  }

  lemma LoadEnd(known: ByteString -> bool, ran: seq<Command>, pos: nat)
    ensures Resumed(ran, pos, Load([], known)) == Loading(ran, pos, AtEnd)
  {
    assert ran + [] == ran;
  }

  lemma LoadStep(file: ByteString, known: ByteString -> bool, pos: nat, ran: seq<Command>)
    requires pos < |file|
    ensures var r, here := ReadCommand(file[pos..]), Resumed(ran, pos, Load(file[pos..], known));
            match r
            case Short => here == Loading(ran, pos, CutShort)
            case Bad => here == Loading(ran, pos, BadFormat)
            case Unreadable => here == Loading(ran, pos, ReadError)
            case Overrun => here == Loading(ran, pos, OutOfMemory)
            case Got(c, k) =>
              if known(c[0]) then here == Resumed(ran + [c], pos + k, Load(file[pos + k..], known))
              else here == Loading(ran, pos, UnknownCommand(c[0]))
  {
    hide ReadCommand;
    var r := ReadCommand(file[pos..]);
    if r.Got? {
      var more := Load(file[pos + r.used..], known);
      assert file[pos..][r.used..] == file[pos + r.used..];
      assert ran + ([r.value] + more.cmds) == ran + [r.value] + more.cmds;
    }
  }

  /** One turn of the outer loop up to the command lookup. */
  method NextCommand(file: ByteString, start: nat) returns (r: Read<Command>)
    requires start < |file|
    ensures r == ReadCommand(file[start..])
  {
    hide ParseInt, ReadBulks;
    var rest := file[start..];
    var line := Gets(rest, 127);
    if line[0] != 42 {
      return Bad;
    }
    if |line| == 1 {
      return Short;
    }
    if line[1] == 0 {
      return if line == rest && |line| < 127 && line[|line| - 1] != 10 then Short else Unreadable;
    }
    var argc := ParseInt(line[1..], -INT_MAX - 1, INT_MAX);
    if argc < 1 {
      return Bad;
    }
    assert file[start + |line|..] == rest[|line|..];
    var args := NextArguments(file, start + |line|, argc);
    r := After([], |line|, args);
  }

  /** The inner loop: reads argc arguments. */
  method NextArguments(file: ByteString, start: nat, argc: nat) returns (r: Read<seq<ByteString>>)
    requires start <= |file|
    ensures r == ReadBulks(file[start..], argc)
  {
    hide *;
    var pos: nat, argv: seq<ByteString>, j: nat := start, [], 0;
    AfterNothing(ReadBulks(file[start..], argc));
    while j < argc
      invariant start <= pos <= |file| && j <= argc
      invariant ReadBulks(file[start..], argc) == After(argv, pos - start, ReadBulks(file[pos..], argc - j))
    {
      BulksStep(file, pos, argc - j, argv, pos - start);
      var a := ReadBulk(file[pos..]);
      if a.Short? {
        return Short;
      }
      if a.Bad? {
        return Bad;
      }
      if a.Unreadable? {
        return Unreadable;
      }
      if a.Overrun? {
        return Overrun;
      }
      argv, pos, j := argv + [a.value], pos + a.used, j + 1;
    }
    NoBulks(file[pos..], argv, pos - start);
    r := Got(argv, pos - start);
  }

  lemma AfterNothing(r: Read<seq<ByteString>>)
    ensures After([], 0, r) == r
  {
    if r.Got? {
      assert [] + r.value == r.value;
    }
  }

  lemma NoBulks(s: ByteString, argv: seq<ByteString>, k: nat)
    ensures After(argv, k, ReadBulks(s, 0)) == Got(argv, k)
  {
    assert argv + [] == argv;
  }

  lemma BulksStep(file: ByteString, pos: nat, n: nat, argv: seq<ByteString>, k: nat)
    requires pos <= |file| && n > 0
    ensures var a, here := ReadBulk(file[pos..]), After(argv, k, ReadBulks(file[pos..], n));
            match a
            case Got(v, used) =>
              used <= |file| - pos && here == After(argv + [v], k + used, ReadBulks(file[pos + used..], n - 1))
            case Short => here == Short
            case Bad => here == Bad
            case Unreadable => here == Unreadable
            case Overrun => here == Overrun
  {
    hide ReadBulk;
    var a := ReadBulk(file[pos..]);
    if a.Got? {
      assert file[pos..][a.used..] == file[pos + a.used..];
      var more := ReadBulks(file[pos + a.used..], n - 1);
      if more.Got? {
        assert argv + ([a.value] + more.value) == argv + [a.value] + more.value;
      }
    }
  }

  // ----- reading back what was written -----

  /** What an int can count, of strings whose lengths an unsigned int can hold, as those of all strings in memory. */
  predicate Encodable(c: Command) {
    1 <= |c| <= INT_MAX && forall i :: 0 <= i < |c| ==> |c[i]| <= UINT_MAX
  }

  lemma {:induction false} GetsLine(h: ByteString, t: ByteString, limit: nat)
    requires |h| < limit && forall i :: 0 <= i < |h| ==> h[i] != 10
    ensures Gets(h + [10] + t, limit) == h + [10]
  {
    var s := h + [10] + t;
    if h != [] {
      assert s[1..] == h[1..] + [10] + t;
      GetsLine(h[1..], t, limit - 1);
    }
  }

  lemma {:induction false} GetsAll(s: ByteString, limit: nat)
    requires |s| <= limit && forall i :: 0 <= i < |s| ==> s[i] != 10
    ensures Gets(s, limit) == s
  {
    if s != [] {
      GetsAll(s[1..], limit - 1);
    }
  }

  lemma CountLength(prefix: Octet, n: nat)
    requires n <= LONG_MAX
    ensures 4 <= |Count(prefix, n)| <= 22
  {
    assert Pow10(19) == 10_000_000_000_000_000_000 by {
      assert Pow10(10) == 10_000_000_000;
    }
    DigitsLength(n, 19);
  }

  /** A whole count line is read as such. */
  lemma GetsCount(prefix: Octet, n: nat, t: ByteString)
    requires prefix != 10 && n <= LONG_MAX
    ensures Gets(Count(prefix, n) + t, 127) == Count(prefix, n)
  {
    var h := [prefix] + Digits(n) + [13];
    CountLength(prefix, n);
    assert Count(prefix, n) == h + [10];
    GetsLine(h, t, 127);
  }

  /** A count line that was cut is read to the end. */
  lemma GetsCutCount(prefix: Octet, n: nat, k: nat)
    requires prefix != 10 && n <= LONG_MAX && k < |Count(prefix, n)|
    ensures Gets(Count(prefix, n)[..k], 127) == Count(prefix, n)[..k]
  {
    CountLength(prefix, n);
    var h := [prefix] + Digits(n) + [13];
    assert Count(prefix, n) == h + [10];
    GetsAll(Count(prefix, n)[..k], 127);
  }

  lemma ParseCount(prefix: Octet, n: nat, hi: int)
    requires n <= hi
    ensures ParseInt(Count(prefix, n)[1..], -hi - 1, hi) == n
  {
    assert Count(prefix, n)[1..] == Decimal(n) + CRLF;
    ParseDecimal(n, CRLF, -hi - 1, hi);
  }

  lemma ReadWholeBulk(a: ByteString, t: ByteString)
    requires |a| <= UINT_MAX
    ensures ReadBulk(Bulk(a) + t) == Got(a, |Bulk(a)|)
  {
    hide ParseInt, Gets, Digits;
    var h := Count(36, |a|);
    var s := Bulk(a) + t;
    assert s == h + (a + CRLF + t);
    GetsCount(36, |a|, a + CRLF + t);
    ParseCount(36, |a|, LONG_MAX);
    assert s[|h|..] == a + CRLF + t;
    assert (a + CRLF + t)[..|a|] == a;
  }

  lemma ReadCutBulk(a: ByteString, k: nat)
    requires |a| <= UINT_MAX && k < |Bulk(a)|
    ensures ReadBulk(Bulk(a)[..k]) == Short
  {
    hide ParseInt, Gets, Digits;
    var h := Count(36, |a|);
    var s := Bulk(a)[..k];
    assert Bulk(a) == h + (a + CRLF);
    if k == 0 {
    } else if k < |h| {
      assert s == h[..k];
      GetsCutCount(36, |a|, k);
      assert s[|s|..] == [];
      assert s[1..] == (Digits(|a|) + CRLF)[..k - 1];
      ParseCut(|a|, CRLF, k - 1, -LONG_MAX - 1, LONG_MAX);
    } else {
      var t := (a + CRLF)[..k - |h|];
      assert s == h + t;
      GetsCount(36, |a|, t);
      ParseCount(36, |a|, LONG_MAX);
      assert s[|h|..] == t;
    }
  }

  lemma {:induction false} ReadWholeBulks(args: seq<ByteString>, t: ByteString)
    requires forall i :: 0 <= i < |args| ==> |args[i]| <= UINT_MAX
    ensures ReadBulks(Bulks(args) + t, |args|) == Got(args, |Bulks(args)|)
  {
    hide ReadBulk, Bulk;
    if args != [] {
      var a, b := Bulk(args[0]), Bulks(args[1..]);
      assert Bulks(args) + t == a + (b + t);
      ReadWholeBulk(args[0], b + t);
      assert (a + (b + t))[|a|..] == b + t;
      ReadWholeBulks(args[1..], t);
      assert [args[0]] + args[1..] == args;
    }
  }

  lemma {:induction false} ReadCutBulks(args: seq<ByteString>, k: nat)
    requires forall i :: 0 <= i < |args| ==> |args[i]| <= UINT_MAX
    requires k < |Bulks(args)|
    ensures ReadBulks(Bulks(args)[..k], |args|) == Short
  {
    hide ReadBulk, Bulk;
    var a, b := Bulk(args[0]), Bulks(args[1..]);
    var s := Bulks(args)[..k];
    if k < |a| {
      assert s == a[..k];
      ReadCutBulk(args[0], k);
    } else {
      var t := b[..k - |a|];
      assert s == a + t;
      ReadWholeBulk(args[0], t);
      assert s[|a|..] == t;
      ReadCutBulks(args[1..], k - |a|);
    }
  }

  lemma ReadWholeCommand(c: Command, t: ByteString)
    requires Encodable(c)
    ensures Encode(c) != [] && ReadCommand(Encode(c) + t) == Got(c, |Encode(c)|)
  {
    hide ParseInt, Gets, Bulks, ReadBulks;
    var h := Count(42, |c|);
    var s := Encode(c) + t;
    assert s == h + (Bulks(c) + t);
    GetsCount(42, |c|, Bulks(c) + t);
    ParseCount(42, |c|, INT_MAX);
    assert s[|h|..] == Bulks(c) + t;
    ReadWholeBulks(c, t);
    assert h[1] == Digits(|c|)[0];
    assert [] + c == c;
  }

  lemma {:induction false} ReadNoBulks(n: nat)
    requires n > 0
    ensures ReadBulks([], n) == Short
  {
    assert ReadBulk([]) == Short;
  }

  lemma ReadCutHeader(c: Command, k: nat)
    requires Encodable(c) && 0 < k < |Count(42, |c|)|
    ensures ReadCommand(Count(42, |c|)[..k]) == Short
  {
    hide ParseInt, Gets, ReadBulks;
    var h := Count(42, |c|);
    var s := h[..k];
    GetsCutCount(42, |c|, k);
    if k > 1 {
      assert s[|s|..] == [];
      assert s[1] == Digits(|c|)[0];
      assert s[1..] == (Digits(|c|) + CRLF)[..k - 1];
      ParseCut(|c|, CRLF, k - 1, -INT_MAX - 1, INT_MAX);
      ReadNoBulks(ParseInt(s[1..], -INT_MAX - 1, INT_MAX));
    }
  }

  lemma ReadCutCommand(c: Command, k: nat)
    requires Encodable(c) && 0 < k < |Encode(c)|
    ensures ReadCommand(Encode(c)[..k]) == Short
  {
    hide ParseInt, Gets, Bulks, ReadBulks;
    var h := Count(42, |c|);
    var s := Encode(c)[..k];
    if k < |h| {
      assert s == h[..k];
      ReadCutHeader(c, k);
    } else {
      var t := Bulks(c)[..k - |h|];
      assert s == h + t;
      GetsCount(42, |c|, t);
      ParseCount(42, |c|, INT_MAX);
      assert s[|h|..] == t;
      assert h[1] == Digits(|c|)[0];
      ReadCutBulks(c, k - |h|);
    }
  }

  ghost predicate Loadable(cs: seq<Command>, known: ByteString -> bool) {
    forall i :: 0 <= i < |cs| ==> Encodable(cs[i]) && known(cs[i][0])
  }

  /** Where the first k commands end. */
  function Offset(cs: seq<Command>, k: nat): nat
    requires k <= |cs|
  {
    |EncodeAll(cs[..k])|
  }

  /**
   A file that was cut after n bytes: exactly the k commands that are whole are
   run, the offset where the last of them ends is reported, and the cut is never
   mistaken for a format error.
   */
  lemma {:induction false} LoadCut(cs: seq<Command>, known: ByteString -> bool, n: nat, k: nat)
    requires Loadable(cs, known) && k <= |cs|
    requires Offset(cs, k) <= n && (if k < |cs| then n < Offset(cs, k + 1) else n == Offset(cs, k))
    ensures n <= |EncodeAll(cs)|
    ensures Load(EncodeAll(cs)[..n], known)
            == Loading(cs[..k], Offset(cs, k), if n == Offset(cs, k) then AtEnd else CutShort)
    decreases |cs|
  {
    hide ReadCommand, Encode;
    if cs != [] {
      var e, rest := Encode(cs[0]), EncodeAll(cs[1..]);
      if k == 0 {
        assert cs[..1] == [cs[0]] && cs[..1][1..] == [];
        assert n < |e|;
        assert EncodeAll(cs)[..n] == e[..n];
        if n > 0 {
          ReadCutCommand(cs[0], n);
        }
      } else {
        OffsetTail(cs, k);
        if k < |cs| {
          OffsetTail(cs, k + 1);
        }
        LoadCut(cs[1..], known, n - |e|, k - 1);
        var t := rest[..n - |e|];
        var s := EncodeAll(cs)[..n];
        assert s == e + t;
        ReadWholeCommand(cs[0], t);
        assert s[|e|..] == t;
        assert [cs[0]] + cs[1..][..k - 1] == cs[..k];
      }
    }
  }

  /** No file of whole commands, cut wherever it may be, is ever taken for anything but a file that ends. */
  lemma {:induction false} CutOnlyEnds(cs: seq<Command>, known: ByteString -> bool, n: nat)
    requires Loadable(cs, known) && n <= |EncodeAll(cs)|
    ensures Load(EncodeAll(cs)[..n], known).end in {AtEnd, CutShort}
  {
    assert EncodeAll([]) == [] && cs[..0] == [];
    hide Load, EncodeAll;
    var k := 0;
    while k < |cs| && Offset(cs, k + 1) <= n
      invariant k <= |cs| && Offset(cs, k) <= n
    {
      k := k + 1;
    }
    assert cs[..|cs|] == cs;
    LoadCut(cs, known, n, k);
  }

  lemma OffsetTail(cs: seq<Command>, k: nat)
    requires 0 < k <= |cs|
    ensures Offset(cs, k) == |Encode(cs[0])| + Offset(cs[1..], k - 1)
  {
    assert cs[..k][1..] == cs[1..][..k - 1];
  }

  /** A complete file loads all its commands. */
  lemma LoadWhole(cs: seq<Command>, known: ByteString -> bool)
    requires Loadable(cs, known)
    ensures Load(EncodeAll(cs), known) == Loading(cs, |EncodeAll(cs)|, AtEnd)
  {
    assert cs[..|cs|] == cs;
    LoadCut(cs, known, |EncodeAll(cs)|, |cs|);
    assert EncodeAll(cs)[..|EncodeAll(cs)|] == EncodeAll(cs);
  }

  // ----- truncating any file -----

  lemma {:induction false} GetsLocal(s: ByteString, m: nat, limit: nat)
    requires |Gets(s, limit)| <= m <= |s|
    ensures Gets(s[..m], limit) == Gets(s, limit)
  {
    if s != [] && limit > 0 && s[0] != 10 {
      assert s[..m][1..] == s[1..][..m - 1];
      GetsLocal(s[1..], m - 1, limit - 1);
    }
  }

  lemma BulkLocal(s: ByteString, m: nat)
    requires ReadBulk(s).Got? && ReadBulk(s).used <= m <= |s|
    ensures ReadBulk(s[..m]) == ReadBulk(s)
  {
    hide ParseInt, Gets;
    var line := Gets(s, 127);
    GetsLocal(s, m, 127);
    var len := ParseInt(line[1..], -LONG_MAX - 1, LONG_MAX);
    var kept := len % (UINT_MAX + 1);
    assert s[..m][|line|..][..kept] == s[|line|..][..kept];
  }

  lemma {:induction false} BulksLocal(s: ByteString, n: nat, m: nat)
    requires ReadBulks(s, n).Got? && ReadBulks(s, n).used <= m <= |s|
    ensures ReadBulks(s[..m], n) == ReadBulks(s, n)
  {
    hide ReadBulk;
    if n > 0 {
      var k := ReadBulk(s).used;
      BulkLocal(s, m);
      assert s[..m][k..] == s[k..][..m - k];
      BulksLocal(s[k..], n - 1, m - k);
    }
  }

  /** Reading a command looks at no byte behind it. */
  lemma CommandLocal(s: ByteString, m: nat)
    requires s != [] && ReadCommand(s).Got? && ReadCommand(s).used <= m <= |s|
    ensures ReadCommand(s[..m]) == ReadCommand(s)
  {
    hide ParseInt, Gets, ReadBulks;
    var line := Gets(s, 127);
    GetsLocal(s, m, 127);
    var n := |line|;
    assert s[..m][n..] == s[n..][..m - n];
    BulksLocal(s[n..], ParseInt(line[1..], -INT_MAX - 1, INT_MAX), m - n);
  }

  /**
   Whatever a file contains: cut at the offset that loading it reported, it
   loads the same commands again and is complete.
   */
  lemma {:induction false} TruncatingHeals(s: ByteString, known: ByteString -> bool)
    ensures var l := Load(s, known);
            Load(s[..l.upTo], known) == Loading(l.cmds, l.upTo, AtEnd)
    decreases |s|
  {
    hide ReadCommand;
    var l := Load(s, known);
    if s != [] && ReadCommand(s).Got? && known(ReadCommand(s).value[0]) {
      var k := ReadCommand(s).used;
      TruncatingHeals(s[k..], known);
      CommandLocal(s, l.upTo);
      assert s[..l.upTo][k..] == s[k..][..l.upTo - k];
    }
  }
}
