/** Argument packing of fs/exec.c: strings are copied downward into pages, and a forward walk
    over them then builds argv and envp. */
module ExecArgs {
  const PAGE_SIZE: nat := 4096
  const MAX_ARG_PAGES: nat := 32
  const TOP: nat := 0x2_0000 - 4                  // where copying starts
  const BASE: nat := 0x3BE_0000                   // where the pages go: TASK_SIZE - LIBRARY_SIZE - 0x2_0000

  newtype byte = b: int | 0 <= b < 256
  type Str = s: seq<byte> | forall k | 0 <= k < |s| :: s[k] != 0
  type Bytes4K = s: seq<byte> | |s| == 4096 witness seq(4096, _ => 0)
  datatype ArgPage = NoPage | Page(bytes: Bytes4K)

  /** The strings one after the other, each with its 0. */
  function Flat(strs: seq<Str>): seq<byte> { if strs == [] then [] else strs[0] + [0] + Flat(strs[1..]) }

  lemma {:induction false} FlatConcat(a: seq<Str>, b: seq<Str>)
    ensures Flat(a + b) == Flat(a) + Flat(b)
  {
    if a == [] {
      assert a + b == b;
    } else {
      assert (a + b)[1..] == a[1..] + b;
      FlatConcat(a[1..], b);
      Assoc(a[0] + [0], Flat(a[1..]), Flat(b));
    }
  }

  lemma Assoc(a: seq<byte>, b: seq<byte>, c: seq<byte>)
    ensures a + (b + c) == (a + b) + c
  {
  }

  lemma FlatSplit(strs: seq<Str>, i: nat)
    requires i < |strs|
    ensures Flat(strs[i..]) == strs[i] + [0] + Flat(strs[i + 1..])
  {
    assert strs[i..][0] == strs[i] && strs[i..][1..] == strs[i + 1..];
  }

  function ByteAt(pages: seq<ArgPage>, a: int): byte
    requires |pages| == MAX_ARG_PAGES && 0 <= a < 0x2_0000
  {
    var g := pages[a / PAGE_SIZE];
    if g.Page? then g.bytes[a % PAGE_SIZE] else 0
  }

  /** The bytes stand from address p on. */
  ghost predicate Holds(pages: seq<ArgPage>, p: int, bytes: seq<byte>) {
    && |pages| == MAX_ARG_PAGES && 0 <= p && p + |bytes| <= 0x2_0000
    && forall a {:trigger ByteAt(pages, a)} | p <= a < p + |bytes| :: ByteAt(pages, a) == bytes[a - p]
  }

  /** One byte more at the lower end, everything else as it was. */
  lemma StoreBelow(pages: seq<ArgPage>, pages': seq<ArgPage>, p: int, bytes: seq<byte>, b: byte)
    requires Holds(pages, p, bytes) && p > 0 && |pages'| == MAX_ARG_PAGES && ByteAt(pages', p - 1) == b
    requires forall a | 0 <= a < 0x2_0000 && a != p - 1 :: ByteAt(pages', a) == ByteAt(pages, a)
    ensures Holds(pages', p - 1, [b] + bytes)
  {
  }

  lemma PlaceOf(a: int, n: int)
    requires 0 <= a < 0x2_0000 && 0 <= n < 0x2_0000
    ensures 0 <= a / PAGE_SIZE < MAX_ARG_PAGES && 0 <= a % PAGE_SIZE < PAGE_SIZE
    ensures a != n ==> a / PAGE_SIZE != n / PAGE_SIZE || a % PAGE_SIZE != n % PAGE_SIZE
  {
  }

  // ---- scripts ------------------------------------------------------------------------------------

  /** What the first line of a script says. */
  datatype Interp = NotOne | Interp(path: Str, name: Str, arg: Arg)
  datatype Arg = NoArg | Arg(text: Str)

  ghost predicate Blank(b: byte) { b == 32 || b == 9 }

  /** The line is blanks, a path, and perhaps a blank and an argument; the name is what
      follows the path's last slash. */
  ghost predicate Says(line: seq<byte>, i: Interp)
    requires i.Interp?
  {
    exists a: nat, b: nat {:trigger line[a..b]} :: a < b <= |line| && line[a..b] == i.path
      && (forall k | 0 <= k < a :: Blank(line[k])) && (forall k | a <= k < b :: !Blank(line[k]))
      && (if b == |line| then i.arg == NoArg else Blank(line[b]) && i.arg.Arg? && i.arg.text == line[b + 1..])
      && IsName(i.path, i.name)
  }

  ghost predicate IsName(path: seq<byte>, name: seq<byte>) {
    && |name| <= |path| && path[|path| - |name|..] == name && (forall k | 0 <= k < |name| :: name[k] != 47)
    && (|name| < |path| ==> path[|path| - |name| - 1] == 47)
  }

  /** The line ends at a line feed among its first 127 bytes, before any 0. */
  ghost predicate EndsAt(block: seq<byte>, n: nat) {
    n < 127 && n < |block| && block[n] == 10 && forall k | 0 <= k < n :: block[k] != 0 && block[k] != 10
  }

  /** do_execve's look at the bytes behind "#!". */
  method ParseInterp(block: seq<byte>) returns (i: Interp)
    ensures i.Interp? ==> exists n: nat :: EndsAt(block, n) && Says(block[..n], i)
    ensures i.NotOne? ==> forall n: nat | EndsAt(block, n) :: forall k | 0 <= k < n :: Blank(block[k])
  {
    var n := 0;
    while n < 127 && n < |block| && block[n] != 0 && block[n] != 10
      invariant 0 <= n <= 127 && n <= |block| && forall k | 0 <= k < n :: block[k] != 0 && block[k] != 10
    {
      n := n + 1;
    }
    if n == 127 || n == |block| || block[n] == 0 {
      return NotOne;
    }
    assert EndsAt(block, n);
    i := ParseLine(block[..n]);
    forall m: nat | EndsAt(block, m) ensures m == n { }
  }

  // exec.c:386-403
  method ParseLine(line: Str) returns (i: Interp)
    ensures i.Interp? ==> Says(line, i)
    ensures i.NotOne? ==> forall k | 0 <= k < |line| :: Blank(line[k])
  {
    var a := 0;
    while a < |line| && (line[a] == 32 || line[a] == 9)
      invariant 0 <= a <= |line| && forall k | 0 <= k < a :: Blank(line[k])
    {
      a := a + 1;
    }
    if a == |line| {
      return NotOne;
    }
    var cp, name := SplitPath(line, a);
    i := Interp(Part(line, a, cp), Part(line, name, cp), ArgAfter(line, cp));
    NameIs(line, a, name, cp);
    SaysSo(line, a, cp, i);
  }

  function ArgAfter(line: Str, cp: nat): Arg
    requires cp <= |line|
  {
    if cp < |line| then Arg(Part(line, cp + 1, |line|)) else NoArg
  }

  lemma SaysSo(line: Str, a: nat, b: nat, i: Interp)
    requires i.Interp? && a < b <= |line| && line[a..b] == i.path && i.arg == ArgAfter(line, b) && IsName(i.path, i.name)
    requires (forall k | 0 <= k < a :: Blank(line[k])) && (forall k | a <= k < b :: !Blank(line[k])) && (b < |line| ==> Blank(line[b]))
    ensures Says(line, i)
  {
    assert b < |line| ==> line[b + 1..] == line[b + 1..|line|];
    assert line[a..b] == i.path;
  }

  function Part(s: Str, from: nat, to: nat): (r: Str)
    requires from <= to <= |s|
    ensures r == s[from..to]
  {
    assert forall k | 0 <= k < to - from :: s[from..to][k] == s[from + k];
    s[from..to]
  }

  lemma NameIs(line: seq<byte>, a: nat, name: nat, cp: nat)
    requires a <= name <= cp <= |line| && (forall k | name <= k < cp :: line[k] != 47) && (name > a ==> line[name - 1] == 47)
    ensures IsName(line[a..cp], line[name..cp])
  {
  }

  /** The path from a on ends at cp, and its last part begins at name. */
  method SplitPath(line: seq<byte>, a: nat) returns (cp: nat, name: nat)
    requires a < |line| && !Blank(line[a])
    ensures a <= name <= cp <= |line| && a < cp && (forall k | a <= k < cp :: !Blank(line[k])) && (cp < |line| ==> Blank(line[cp]))
    ensures (forall k | name <= k < cp :: line[k] != 47) && (name > a ==> line[name - 1] == 47)
  {
    cp, name := a, a;
    while cp < |line| && line[cp] != 32 && line[cp] != 9
      invariant a <= name <= cp <= |line| && forall k | a <= k < cp :: !Blank(line[k])
      invariant forall k | name <= k < cp :: line[k] != 47
      invariant name > a ==> line[name - 1] == 47
    {
      if line[cp] == 47 {
        name := cp + 1;
      }
      cp := cp + 1;
    }
  }

  /** What a script is run with: the interpreter's name, its argument, the script, and the
      arguments but for the first. */
  function Spliced(i: Interp, filename: Str, argv: seq<Str>): seq<Str>
    requires i.Interp?
  {
    [i.name] + (if i.arg.Arg? then [i.arg.text] else []) + [filename] + if argv == [] then [] else argv[1..]
  }

  /** String by string: the interpreter's name, its argument if there is one, the script, and
      argv from its second string on. */
  lemma SplicedIs(i: Interp, filename: Str, argv: seq<Str>)
    requires i.Interp?
    ensures var all, n := Spliced(i, filename, argv), if i.arg.Arg? then 2 else 1;
      && |all| == n + (if argv == [] then 1 else |argv|)
      && all[0] == i.name && (i.arg.Arg? ==> all[1] == i.arg.text) && all[n] == filename
      && forall k | 1 <= k < |argv| :: all[n + k] == argv[k]
  {
  }

  /** argc after the splice: one less to begin with, then one for each string added. */
  function SplicedArgc(i: Interp, argc: int): int
    requires i.Interp?
  {
    argc - 1 + 1 + (if i.arg.Arg? then 1 else 0) + 1
  }

  /** argc counts the strings exactly if there was an argv[0] to replace: with an empty argv
      it is one short, and the last string counts as environment. */
  lemma SpliceCountsIff(i: Interp, filename: Str, argv: seq<Str>)
    requires i.Interp?
    ensures SplicedArgc(i, |argv|) == |Spliced(i, filename, argv)| <==> argv != []
    ensures argv == [] ==> SplicedArgc(i, 0) == |Spliced(i, filename, argv)| - 1
  {
  }

  // ---- the pages -------------------------------------------------------------------------------------

  /** Some get_free_page in between found nothing. */
  ghost predicate Refused(free: nat -> bool, from: nat, to: nat) { exists n {:trigger free(n)} :: from <= n < to && !free(n) }

  /** How a copy ends: it ran below the argument space if it was Overrun, and what it stores
      from then on is no part of the model. */
  datatype Copy = Copied | NoMemory | Overrun

  class ArgSpace {
    const page: array<ArgPage>
    const free: nat -> bool          // whether the n-th get_free_page succeeds
    var calls: nat

    ghost predicate Valid()
      reads this
    {
      page.Length == MAX_ARG_PAGES
    }

    /** Store one byte, in a fresh page if need be. */
    method Store(p: nat, b: byte, newPage: bool) returns (ok: bool)
      ensures calls >= old(calls) && (!ok ==> Refused(free, old(calls), calls))
      requires Valid() && p < 0x2_0000 && (!newPage ==> page[p / PAGE_SIZE].Page?)
      modifies this`calls, page
      ensures ok ==> page[p / PAGE_SIZE].Page? && ByteAt(page[..], p) == b
      ensures ok ==> forall a | 0 <= a < 0x2_0000 && a != p :: ByteAt(page[..], a) == ByteAt(old(page[..]), a)
      ensures !ok ==> page[..] == old(page[..])
      ensures forall k | 0 <= k < MAX_ARG_PAGES && old(page[k].Page?) :: page[k].Page?
    {
      var n := p / PAGE_SIZE;
      if newPage && page[n].NoPage? {
        calls := calls + 1;
        if !free(calls - 1) {
          return false;
        }
        page[n] := Page(seq(4096, _ => 0));
      }
      ghost var was := page[..];
      page[n] := Page(page[n].bytes[p % PAGE_SIZE := b]);
      ok := true;
      forall a | 0 <= a < 0x2_0000 && a != p
        ensures ByteAt(page[..], a) == ByteAt(old(page[..]), a)
      {
        PlaceOf(a, p);
      }
    }

    /** copy_strings: below p, from the last string and its last byte down; 0 for no memory.
        The test for strings that do not fit compares an unsigned difference with 0. */
    method CopyStrings(strs: seq<Str>, p0: nat, ghost above: seq<byte>) returns (p: nat, out: Copy)
      requires Valid() && p0 < 0x2_0000
      requires p0 != 0 ==> Holds(page[..], p0, above)
      modifies this`calls, page
      ensures p0 == 0 ==> p == 0 && page[..] == old(page[..]) && out == NoMemory
      ensures out != Copied ==> p == 0
      ensures calls >= old(calls) && (p0 != 0 && out == NoMemory ==> Refused(free, old(calls), calls))
      ensures out == Copied ==> p == p0 - |Flat(strs)| && Holds(page[..], p, Flat(strs) + above)
      ensures out == Overrun ==> p0 < |Flat(strs)|
    {
      if p0 == 0 {
        return 0, NoMemory;
      }
      p, out := p0, Copied;
      var offset := 0;
      var argc := |strs|;
      assert strs[argc..] == [] && [] + above == above;
      while argc > 0
        invariant calls >= old(calls)
        invariant 0 <= argc <= |strs| && p0 - p == |Flat(strs[argc..])|
        invariant Holds(page[..], p, Flat(strs[argc..]) + above)
        invariant offset == 0 || (offset == p % PAGE_SIZE && p < 0x2_0000 && page[p / PAGE_SIZE].Page?)
        invariant out == Copied
      {
        argc := argc - 1;
        FlatSplit(strs, argc);
        FlatRoom(strs, argc);
        out, p, offset := CopyOne(strs[argc], p, offset, Flat(strs[argc + 1..]) + above);
        if out != Copied {
          return 0, out;
        }
        Assoc(strs[argc] + [0], Flat(strs[argc + 1..]), above);
      }
      assert strs[0..] == strs;
    }

    lemma FlatRoom(strs: seq<Str>, i: nat)
      requires i < |strs|
      ensures |Flat(strs)| >= |Flat(strs[i + 1..])| + |strs[i]| + 1
    {
      FlatSplit(strs, i);
      FlatConcat(strs[..i], strs[i..]);
      assert strs[..i] + strs[i..] == strs;
    }

    // exec.c:234-259
    method CopyOne(str: Str, p0: nat, offset0: nat, ghost above: seq<byte>) returns (out: Copy, p: nat, offset: nat)
      requires Valid() && p0 < 0x2_0000 && Holds(page[..], p0, above)
      requires offset0 == 0 || (offset0 == p0 % PAGE_SIZE && page[p0 / PAGE_SIZE].Page?)
      modifies this`calls, page
      ensures calls >= old(calls) && (out == NoMemory ==> Refused(free, old(calls), calls))
      ensures out == Copied ==> p == p0 - |str| - 1 && Holds(page[..], p, str + [0] + above)
      ensures out == Copied ==> offset == 0 || (offset == p % PAGE_SIZE && page[p / PAGE_SIZE].Page?)
      ensures out == Overrun ==> p0 < |str| + 1
    {
      var s := str + [0];
      var len := |s|;
      p, offset := p0, offset0;
      assert s[len..] + above == above;
      while len > 0
        invariant calls >= old(calls)
        invariant 0 <= len <= |s| && p == p0 - (|s| - len)
        invariant Holds(page[..], p, s[len..] + above)
        invariant offset == 0 || (offset == p % PAGE_SIZE && page[p / PAGE_SIZE].Page?)
      {
        if p == 0 {
          return Overrun, p, offset;      // --p leaves page[]
        }
        len := len - 1;
        var ok;
        ok, offset := CopyByte(p, offset, s[len], s[len + 1..] + above);
        if !ok {
          return NoMemory, p, offset;
        }
        assert [s[len]] + (s[len + 1..] + above) == s[len..] + above;
        p := p - 1;
      }
      out := Copied;
      assert s[0..] + above == str + [0] + above;
    }

    method CopyByte(p: nat, offset0: nat, b: byte, ghost above: seq<byte>) returns (ok: bool, offset: nat)
      requires Valid() && 0 < p < 0x2_0000 && Holds(page[..], p, above)
      requires offset0 == 0 || (offset0 == p % PAGE_SIZE && page[p / PAGE_SIZE].Page?)
      modifies this`calls, page
      ensures calls >= old(calls) && (!ok ==> Refused(free, old(calls), calls))
      ensures ok ==> Holds(page[..], p - 1, [b] + above)
      ensures ok ==> offset == (p - 1) % PAGE_SIZE && page[(p - 1) / PAGE_SIZE].Page?
    {
      var newPage := offset0 == 0;          // --offset < 0
      PreviousPlace(p);
      offset := if newPage then (p - 1) % PAGE_SIZE else offset0 - 1;
      ghost var was := page[..];
      ok := Store(p - 1, b, newPage);
      if ok {
        StoreBelow(was, page[..], p, above, b);
      }
    }

    lemma PreviousPlace(p: nat)
      requires 0 < p < 0x2_0000
      ensures p % PAGE_SIZE > 0 ==> (p - 1) % PAGE_SIZE == p % PAGE_SIZE - 1 && (p - 1) / PAGE_SIZE == p / PAGE_SIZE
    {
    }
  }

  // ---- the pointer tables ------------------------------------------------------------------------------

  /** Where string i begins. */
  function Start(p: nat, strs: seq<Str>, i: nat): nat
    requires i <= |strs|
  {
    p + |Flat(strs[..i])|
  }

  /** User memory holds the strings from p on. */
  ghost predicate Strings(mem: nat -> byte, p: nat, strs: seq<Str>) {
    BytesAt(mem, p, Flat(strs))
  }

  /** The string that starts at a. */
  ghost predicate StringAt(mem: nat -> byte, a: nat, s: Str) {
    (forall x {:trigger mem(x)} | a <= x < a + |s| :: mem(x) == s[x - a]) && mem(a + |s|) == 0
  }

  lemma StringFound(mem: nat -> byte, p: nat, strs: seq<Str>, i: nat)
    requires Strings(mem, p, strs) && i < |strs|
    ensures StringAt(mem, Start(p, strs, i), strs[i]) && Start(p, strs, i + 1) == Start(p, strs, i) + |strs[i]| + 1
  {
    FlatAt(strs, i);
    SliceAt(mem, p, Flat(strs), |Flat(strs[..i])|, strs[i] + [0]);
    StringIn(mem, Start(p, strs, i), strs[i]);
  }

  /** Bytes bs stand at a. */
  ghost predicate BytesAt(mem: nat -> byte, a: nat, bs: seq<byte>) {
    forall x {:trigger mem(x)} | a <= x < a + |bs| :: mem(x) == bs[x - a]
  }

  lemma SliceAt(mem: nat -> byte, p: nat, f: seq<byte>, lo: nat, bs: seq<byte>)
    requires BytesAt(mem, p, f) && lo + |bs| <= |f| && f[lo..lo + |bs|] == bs
    ensures BytesAt(mem, p + lo, bs)
  {
    forall x {:trigger mem(x)} | p + lo <= x < p + lo + |bs|
      ensures mem(x) == bs[x - (p + lo)]
    {
      assert mem(x) == f[x - p];
      assert f[lo..lo + |bs|][x - (p + lo)] == f[x - p];
    }
  }

  lemma StringIn(mem: nat -> byte, a: nat, s: Str)
    requires BytesAt(mem, a, s + [0])
    ensures StringAt(mem, a, s)
  {
    assert (s + [0])[|s|] == 0;
    assert mem(a + |s|) == (s + [0])[|s|];
  }

  lemma FlatAt(strs: seq<Str>, i: nat)
    requires i < |strs|
    ensures |Flat(strs)| >= |Flat(strs[..i])| + |strs[i]| + 1
    ensures Flat(strs)[|Flat(strs[..i])|..|Flat(strs[..i])| + |strs[i]| + 1] == strs[i] + [0]
    ensures |Flat(strs[..i + 1])| == |Flat(strs[..i])| + |strs[i]| + 1
  {
    FlatSplit(strs, i);
    FlatConcat(strs[..i], strs[i..]);
    assert strs[..i] + strs[i..] == strs;
    Middle(Flat(strs[..i]), strs[i] + [0], Flat(strs[i + 1..]));
    assert strs[..i + 1] == strs[..i] + [strs[i]];
    FlatConcat(strs[..i], [strs[i]]);
    assert Flat([strs[i]]) == strs[i] + [0] + Flat([]);
  }

  lemma Middle(a: seq<byte>, s: seq<byte>, c: seq<byte>)
    ensures (a + (s + c))[|a|..|a| + |s|] == s
  {
  }

  function AlignDown(p: nat): nat { p - p % 4 }

  /** The stack that a program finds: its number of arguments, the two tables, and behind
      their pointers the strings.  All of it lies below the strings. */
  ghost predicate Tables(words: map<nat, nat>, sp: nat, p: nat, strs: seq<Str>, argc: nat, envc: nat)
    requires argc + envc <= |strs|
  {
    var argv, envp := sp + 12, sp + 12 + 4 * (argc + 1);
    && Word(words, sp, argc) && Word(words, sp + 4, argv) && Word(words, sp + 8, envp)
    && Table(words, argv, argc, p, strs, 0) && Table(words, envp, envc, p, strs, argc)
    && envp + 4 * (envc + 1) <= p
  }

  ghost predicate Word(words: map<nat, nat>, a: nat, w: nat) { a in words && words[a] == w }

  /** n pointers, to the strings from number `from` on, and a 0. */
  ghost predicate Table(words: map<nat, nat>, table: nat, n: nat, p: nat, strs: seq<Str>, from: nat)
    requires from + n <= |strs|
  {
    && (forall i {:trigger Points(words, table, p, strs, from, i)} | 0 <= i < n :: Points(words, table, p, strs, from, i))
    && Word(words, table + 4 * n, 0)
  }

  ghost predicate Points(words: map<nat, nat>, table: nat, p: nat, strs: seq<Str>, from: nat, i: nat)
    requires from + i < |strs|
  {
    Word(words, table + 4 * i, Start(p, strs, from + i))
  }

  /** Other words are as before. */
  ghost predicate OnlyWords(before: map<nat, nat>, after: map<nat, nat>, from: nat, to: nat) {
    forall a | !(from <= a < to) :: (a in after <==> a in before) && (a in before ==> after[a] == before[a])
  }

  function UserByte(pages: seq<ArgPage>, a: nat): byte {
    if |pages| == MAX_ARG_PAGES && BASE <= a < BASE + 0x2_0000 then ByteAt(pages, a - BASE) else 0
  }

  class UserStack {
    const mem: nat -> byte
    var words: map<nat, nat>

    /** The pages, mapped where change_ldt puts them. */
    constructor (pages: seq<ArgPage>)
      requires |pages| == MAX_ARG_PAGES
      ensures Mapped(mem, pages) && words == map[]
    {
      mem := (a: nat) => UserByte(pages, a);
      words := map[];
    }

    /** "while (get_fs_byte(p++))": to behind the string. */
    method SkipString(p0: nat, ghost s: Str) returns (p: nat)
      requires StringAt(mem, p0, s)
      ensures p == p0 + |s| + 1
    {
      p := p0;
      while mem(p) != 0
        invariant p0 <= p <= p0 + |s|
        decreases p0 + |s| - p
      {
        p := p + 1;
      }
      p := p + 1;
    }

    /** One of the two tables: pointers to n strings from number `from` on, then 0. */
    method PointTo(p0: nat, table: nat, n: nat, ghost base: nat, ghost strs: seq<Str>, ghost from: nat) returns (p: nat)
      requires from + n <= |strs| && Strings(mem, base, strs) && p0 == Start(base, strs, from)
      modifies this
      ensures p == Start(base, strs, from + n) && OnlyWords(old(words), words, table, table + 4 * n + 4)
      ensures Table(words, table, n, base, strs, from)
    {
      p := p0;
      var left, at := n, table;
      while left > 0
        invariant 0 <= left <= n && at == table + 4 * (n - left) && p == Start(base, strs, from + n - left)
        invariant OnlyWords(old(words), words, table, table + 4 * n + 4)
        invariant forall i {:trigger Points(words, table, base, strs, from, i)} | 0 <= i < n - left :: Points(words, table, base, strs, from, i)
      {
        ghost var was := words;
        words := words[at := p];
        forall i | 0 <= i < n - left + 1
          ensures Points(words, table, base, strs, from, i)
        {
          assert i < n - left ==> Points(was, table, base, strs, from, i);
        }
        at := at + 4;
        StringFound(mem, base, strs, from + n - left);
        p := SkipString(p, strs[from + n - left]);
        left := left - 1;
      }
      ghost var was := words;
      words := words[at := 0];
      forall i | 0 <= i < n
        ensures Points(words, table, base, strs, from, i)
      {
        assert Points(was, table, base, strs, from, i);
      }
    }

    /** create_tables. */
    method CreateTables(p: nat, argc: nat, envc: nat, ghost strs: seq<Str>) returns (sp: nat)
      requires argc + envc <= |strs| && Strings(mem, p, strs) && 4 * (argc + envc) + 24 <= p
      modifies this
      ensures Tables(words, sp, p, strs, argc, envc) && sp == AlignDown(p) - 4 * (argc + envc + 5)
      ensures sp % 4 == 0 && p - 4 < sp + 4 * (argc + envc + 5) <= p
    {
      sp := AlignDown(p);
      sp := sp - 4 * (envc + 1);
      var envp := sp;
      sp := sp - 4 * (argc + 1);
      var argv := sp;
      sp := sp - 12;
      words := words[sp + 8 := envp][sp + 4 := argv][sp := argc];
      assert strs[..0] == [];
      var q := PointTo(p, argv, argc, p, strs, 0);
      ghost var half := words;
      q := PointTo(q, envp, envc, p, strs, argc);
      TableKept(half, words, envp, envc, argv, argc, p, strs);
    }
  }

  lemma TableKept(half: map<nat, nat>, w: map<nat, nat>, envp: nat, envc: nat, argv: nat, argc: nat, p: nat, strs: seq<Str>)
    requires OnlyWords(half, w, envp, envp + 4 * envc + 4) && envp == argv + 4 * (argc + 1) && argc <= |strs|
    requires Table(half, argv, argc, p, strs, 0)
    ensures Table(w, argv, argc, p, strs, 0)
  {
    forall i | 0 <= i < argc
      ensures Points(w, argv, p, strs, 0, i)
    {
      assert Points(half, argv, p, strs, 0, i);
    }
  }

  // ---- the round trip ------------------------------------------------------------------------------------

  /** The pages, mapped at BASE, as user memory. */
  ghost predicate Mapped(mem: nat -> byte, pages: seq<ArgPage>) {
    |pages| == MAX_ARG_PAGES && forall a {:trigger ByteAt(pages, a)} | 0 <= a < 0x2_0000 :: mem(BASE + a) == ByteAt(pages, a)
  }

  /** Strings packed into the pages are found in user memory, and there is room below for
      the tables. */
  lemma PackedAreStrings(pages: seq<ArgPage>, p: nat, strs: seq<Str>, mem: nat -> byte)
    requires Holds(pages, p, Flat(strs)) && Mapped(mem, pages) && p + |Flat(strs)| == TOP
    ensures Strings(mem, BASE + p, strs) && 4 * |strs| + 24 <= BASE + p
  {
    var f := Flat(strs);
    forall a {:trigger mem(a)} | BASE + p <= a < BASE + p + |f|
      ensures mem(a) == f[a - (BASE + p)]
    {
      assert ByteAt(pages, a - BASE) == f[a - BASE - p];
    }
    CountBytes(strs);
  }

  lemma {:induction false} CountBytes(strs: seq<Str>)
    ensures |Flat(strs)| >= |strs|
  {
    if strs != [] {
      CountBytes(strs[1..]);
    }
  }

  /** The new program's stack: for argc and envc strings, pointers to exactly those
      strings, in order. */
  ghost predicate Ready(mem: nat -> byte, words: map<nat, nat>, sp: nat, strs: seq<Str>, argc: nat, envc: nat) {
    argc + envc <= |strs| && exists p: nat :: Strings(mem, p, strs) && Tables(words, sp, p, strs, argc, envc)
  }

  /** What a program reads through its i-th argument pointer is the i-th string. */
  lemma ArgumentIs(mem: nat -> byte, words: map<nat, nat>, sp: nat, strs: seq<Str>, argc: nat, envc: nat, i: nat)
    requires Ready(mem, words, sp, strs, argc, envc) && i < argc
    ensures sp in words && words[sp] == argc && sp + 4 in words && words[sp + 4] + 4 * i in words
    ensures StringAt(mem, words[words[sp + 4] + 4 * i], strs[i])
  {
    var p: nat :| Strings(mem, p, strs) && Tables(words, sp, p, strs, argc, envc);
    assert Strings(mem, p, strs) && Tables(words, sp, p, strs, argc, envc);
    StringFound(mem, p, strs, i);
    assert Points(words, sp + 12, p, strs, 0, i);
  }

  /** And through its i-th environment pointer the one i places behind the arguments. */
  lemma EnvironmentIs(mem: nat -> byte, words: map<nat, nat>, sp: nat, strs: seq<Str>, argc: nat, envc: nat, i: nat)
    requires Ready(mem, words, sp, strs, argc, envc) && i < envc
    ensures sp + 8 in words && words[sp + 8] + 4 * i in words
    ensures StringAt(mem, words[words[sp + 8] + 4 * i], strs[argc + i])
  {
    var p: nat :| Strings(mem, p, strs) && Tables(words, sp, p, strs, argc, envc);
    assert Strings(mem, p, strs) && Tables(words, sp, p, strs, argc, envc);
    StringFound(mem, p, strs, argc + i);
    assert Points(words, sp + 12 + 4 * (argc + 1), p, strs, argc, i);
  }

  /** With the strings packed: map the pages and build the tables. */
  method Finish(space: ArgSpace, p: nat, argc: nat, envc: nat, ghost strs: seq<Str>) returns (stack: UserStack, sp: nat)
    requires space.Valid() && Holds(space.page[..], p, Flat(strs)) && p + |Flat(strs)| == TOP && argc + envc <= |strs|
    ensures Ready(stack.mem, stack.words, sp, strs, argc, envc)
  {
    stack := new UserStack(space.page[..]);
    PackedAreStrings(space.page[..], p, strs, stack.mem);
    sp := stack.CreateTables(BASE + p, argc, envc, strs);
  }

  /** The strings packed so far; p is 0 after a failure. */
  ghost predicate Packed(pages: seq<ArgPage>, p: nat, strs: seq<Str>) {
    p != 0 ==> Holds(pages, p, Flat(strs)) && p + |Flat(strs)| == TOP
  }

  /** More strings in front of those already packed. */
  method PackMore(space: ArgSpace, more: seq<Str>, p0: nat, ghost strs: seq<Str>, ghost front: seq<Str>, ghost all: seq<Str>) returns (p: nat, overrun: bool)
    requires space.Valid() && Packed(space.page[..], p0, strs)
    requires all == front + (more + strs)
    modifies space, space.page
    ensures Packed(space.page[..], p, more + strs)
    ensures overrun ==> p0 != 0 && p == 0 && |Flat(more + strs)| > TOP && |Flat(all)| > TOP
    ensures space.calls >= old(space.calls)
    ensures |Flat(strs)| <= |Flat(more + strs)| <= |Flat(all)|
    ensures !Refused(space.free, old(space.calls), space.calls) && (p0 != 0 <==> |Flat(strs)| < TOP) ==>
      (p != 0 <==> |Flat(more + strs)| < TOP) && (overrun <==> |Flat(strs)| < TOP < |Flat(more + strs)|)
  {
    FlatConcat(more, strs);
    FlatConcat(front, more + strs);
    if p0 == 0 {
      return 0, false;
    }
    var out;
    p, out := space.CopyStrings(more, p0, Flat(strs));
    overrun := out == Overrun;
  }

  /** execve of a program: argv[i] and envp[i] lead to exactly the strings given. */
  method Program(space: ArgSpace, argv: seq<Str>, envp: seq<Str>) returns (stack: UserStack?, sp: nat, overrun: bool)
    requires space.Valid()
    modifies space, space.page
    ensures stack != null ==> Ready(stack.mem, stack.words, sp, argv + envp, |argv|, |envp|)
    ensures stack != null ==> |Flat(argv + envp)| < TOP
    ensures overrun ==> stack == null && |Flat(argv + envp)| > TOP
    ensures !Refused(space.free, old(space.calls), space.calls) ==> (stack != null <==> |Flat(argv + envp)| < TOP)
    ensures !Refused(space.free, old(space.calls), space.calls) ==> (overrun <==> |Flat(argv + envp)| > TOP && |Flat(envp)| != TOP)
  {
    sp := 0;
    assert envp + [] == envp && argv + envp == [] + (argv + envp);
    FlatConcat(argv, envp);
    var p, over := PackMore(space, envp, TOP, [], argv, argv + envp);
    p, overrun := PackMore(space, argv, p, envp, [], argv + envp);
    overrun := overrun || over;
    if p == 0 {
      return null, 0, overrun;
    }
    stack, sp := Finish(space, p, |argv|, |envp|, argv + envp);
  }

  function Rest(argv: seq<Str>): seq<Str> { if argv == [] then [] else argv[1..] }
  function ArgOf(i: Interp): seq<Str>
    requires i.Interp?
  {
    if i.arg.Arg? then [i.arg.text] else []
  }

  /** The strings packed before some call of copy_strings fill the room to the last byte: p is 0
      then, which that call takes for a failure of the one before. */
  ghost predicate JustFull(i: Interp, filename: Str, argv: seq<Str>, envp: seq<Str>)
    requires i.Interp?
  {
    var t := Rest(argv) + envp;
    |Flat(envp)| == TOP || |Flat(t)| == TOP || |Flat([filename] + t)| == TOP || |Flat(ArgOf(i) + ([filename] + t))| == TOP
  }

  lemma SplicedParts(i: Interp, filename: Str, argv: seq<Str>, envp: seq<Str>)
    requires i.Interp?
    ensures var all := Spliced(i, filename, argv) + envp;
      var t := Rest(argv) + envp;
      && all == ([i.name] + ArgOf(i) + [filename] + Rest(argv)) + (envp + [])
      && all == ([i.name] + ArgOf(i) + [filename]) + t
      && all == ([i.name] + ArgOf(i)) + ([filename] + t)
      && all == [i.name] + (ArgOf(i) + ([filename] + t))
      && all == [] + ([i.name] + (ArgOf(i) + ([filename] + t)))
  {
  }

  // exec.c:439-444
  method PackInterp(space: ArgSpace, i: Interp, p0: nat, argc0: int, ghost strs: seq<Str>, ghost all: seq<Str>)
    returns (p: nat, argc: int, overrun: bool)
    requires space.Valid() && i.Interp? && Packed(space.page[..], p0, strs)
    requires all == [i.name] + (ArgOf(i) + strs)
    modifies space, space.page
    ensures Packed(space.page[..], p, all) && argc == argc0 + |ArgOf(i)| + 1
    ensures overrun ==> p == 0 && |Flat(all)| > TOP
    ensures space.calls >= old(space.calls) && |Flat(strs)| <= |Flat(all)|
    ensures !Refused(space.free, old(space.calls), space.calls) && (p0 != 0 <==> |Flat(strs)| < TOP) ==>
      (p != 0 <==> |Flat(all)| < TOP) && (overrun <==> |Flat(strs)| < TOP < |Flat(all)| && |Flat(ArgOf(i) + strs)| != TOP)
  {
    p, argc := p0, argc0;
    var over := false;
    if i.arg.Arg? {
      p, over := PackMore(space, [i.arg.text], p, strs, [i.name], all);
      argc := argc + 1;
    }
    ghost var packed := ArgOf(i) + strs;
    assert Packed(space.page[..], p, packed) by { assert ArgOf(i) == [] ==> packed == strs; }
    assert all == [] + ([i.name] + packed);
    p, overrun := PackMore(space, [i.name], p, packed, [], all);
    argc, overrun := argc + 1, overrun || over;
  }

  // exec.c:420-444
  method PackScript(space: ArgSpace, i: Interp, filename: Str, argv: seq<Str>, envp: seq<Str>, ghost all: seq<Str>)
    returns (p: nat, argc: int, overrun: bool)
    requires space.Valid() && i.Interp? && all == Spliced(i, filename, argv) + envp
    modifies space, space.page
    ensures Packed(space.page[..], p, all) && argc == SplicedArgc(i, |argv|)
    ensures overrun ==> p == 0 && |Flat(all)| > TOP
    ensures !Refused(space.free, old(space.calls), space.calls) ==>
      (p != 0 <==> |Flat(all)| < TOP) && (overrun <==> |Flat(all)| > TOP && !JustFull(i, filename, argv, envp))
  {
    ghost var t := Rest(argv) + envp;
    SplicedParts(i, filename, argv, envp);
    argc := |argv|;
    assert envp + [] == envp;
    var over1, over2, over3;
    p, over1 := PackMore(space, envp, TOP, [], [i.name] + ArgOf(i) + [filename] + Rest(argv), all);
    argc := argc - 1;
    p, over2 := PackMore(space, Rest(argv), p, envp, [i.name] + ArgOf(i) + [filename], all);
    p, over3 := PackMore(space, [filename], p, t, [i.name] + ArgOf(i), all);
    argc := argc + 1;
    p, argc, overrun := PackInterp(space, i, p, argc, [filename] + t, all);
    overrun := overrun || over1 || over2 || over3;
  }

  /** execve of a script: argv becomes the interpreter's name, its argument, the script and
      argv[1..], as far as argc counts. */
  method Script(space: ArgSpace, i: Interp, filename: Str, argv: seq<Str>, envp: seq<Str>) returns (stack: UserStack?, sp: nat, overrun: bool)
    requires space.Valid() && i.Interp?
    modifies space, space.page
    ensures stack != null ==> Ready(stack.mem, stack.words, sp, Spliced(i, filename, argv) + envp, SplicedArgc(i, |argv|), |envp|)
    ensures stack != null ==> |Flat(Spliced(i, filename, argv) + envp)| < TOP
    ensures overrun ==> stack == null && |Flat(Spliced(i, filename, argv) + envp)| > TOP
    ensures !Refused(space.free, old(space.calls), space.calls) ==> (stack != null <==> |Flat(Spliced(i, filename, argv) + envp)| < TOP)
    ensures !Refused(space.free, old(space.calls), space.calls) ==>
      (overrun <==> |Flat(Spliced(i, filename, argv) + envp)| > TOP && !JustFull(i, filename, argv, envp))
  {
    sp := 0;
    ghost var all := Spliced(i, filename, argv) + envp;
    var p, argc;
    p, argc, overrun := PackScript(space, i, filename, argv, envp, all);
    if p == 0 {
      return null, 0, overrun;
    }
    stack, sp := Finish(space, p, argc, |envp|, all);
  }
}
