/** The long listing of ls -l: the "total" line and one detail line per
    entry, with the permission string, the owner and group fallbacks and
    the choice of time layout. */
module LsLong {
  import opened Text
  import opened Icons
  import opened LsEntries

  // ---------------------------------------------------------------------
  // The total line.
  // ---------------------------------------------------------------------

  /** The 512-byte blocks of one entry: its Stat_t.Blocks when Info()
      succeeds, nothing when it fails. */
  function BlocksOf(e: Entry): int
  {
    match e.info
    case Ok(st) => st.blocks
    case Err(_) => 0
  }

  /** The sum of blocks over the entries whose Info() succeeds. */
  function SumBlocks(s: seq<Entry>): int
  {
    if s == [] then 0 else SumBlocks(s[..|s| - 1]) + BlocksOf(s[|s| - 1])
  }

  /** Go's x / 2 on integers, which truncates toward zero. */
  function Half(x: int): (h: int)
    ensures x >= 0 ==> 0 <= x - 2 * h <= 1
    ensures x < 0 ==> -1 <= x - 2 * h <= 0
  {
    if x >= 0 then x / 2 else -((-x) / 2)
  }

  lemma HalfOdd(x: int)
    ensures Half(-x) == -Half(x)
  {
  }

  /** "total %d\n" of the halved sum: 512-byte units shown as 1K blocks. */
  function TotalLine(s: seq<Entry>): string
  {
    "total " + IntToString(Half(SumBlocks(s))) + "\n"
  }

  lemma {:induction false} SumBlocksAppend(s: seq<Entry>, t: seq<Entry>)
    ensures SumBlocks(s + t) == SumBlocks(s) + SumBlocks(t)
    decreases |t|
  {
    if t == [] {
      assert s + t == s;
    } else {
      var t' := t[..|t| - 1];
      assert (s + t)[..|s + t| - 1] == s + t';
      SumBlocksAppend(s, t');
    }
  }

  /** Entries whose Info() fails add nothing to the total. */
  lemma {:induction false} SumBlocksAllFailed(s: seq<Entry>)
    requires forall k :: 0 <= k < |s| ==> s[k].info.Err?
    ensures SumBlocks(s) == 0
  {
    if s != [] {
      SumBlocksAllFailed(s[..|s| - 1]);
    }
  }

  /** The total does not depend on the order of the entries, so sorting
      before printing it changes nothing. */
  lemma {:induction false} SumBlocksPermutation(s: seq<Entry>, t: seq<Entry>)
    requires multiset(s) == multiset(t)
    ensures SumBlocks(s) == SumBlocks(t)
    decreases |s|
  {
    if s == [] {
      assert |t| == |multiset(t)| == 0;
    } else {
      var e := s[|s| - 1];
      assert e in multiset(t);
      var m :| 0 <= m < |t| && t[m] == e;
      var t' := t[..m] + t[m + 1..];
      assert t == t[..m] + [e] + t[m + 1..];
      assert s == s[..|s| - 1] + [e];
      assert multiset(s[..|s| - 1]) == multiset(t') by {
        assert multiset(s) == multiset(s[..|s| - 1]) + multiset{e};
        assert multiset(s[..|s| - 1]) == multiset(s) - multiset{e};
        RemoveAt(t, m);
      }
      SumBlocksPermutation(s[..|s| - 1], t');
      SumBlocksAppend(t[..m] + [e], t[m + 1..]);
      SumBlocksAppend(t[..m], [e]);
      SumBlocksAppend(t[..m], t[m + 1..]);
      assert SumBlocks([e]) == BlocksOf(e) by { assert [e][..0] == []; }
    }
  }

  lemma RemoveAt<T>(t: seq<T>, m: nat)
    requires m < |t|
    ensures multiset(t[..m] + t[m + 1..]) == multiset(t) - multiset{t[m]}
  {
    assert t == t[..m] + [t[m]] + t[m + 1..];
    assert multiset(t) == multiset(t[..m]) + multiset{t[m]} + multiset(t[m + 1..]);
  }

  /** Printed with the code's own loop: sum, then halve once. */
  method PrintTotalBlocks(entries: seq<Entry>) returns (out: string)
    ensures out == TotalLine(entries)
  {
    var totalBlocks := 0;
    var i := 0;
    while i < |entries|
      invariant 0 <= i <= |entries|
      invariant totalBlocks == SumBlocks(entries[..i])
    {
      assert entries[..i + 1][..i] == entries[..i];
      match entries[i].info {
        case Err(_) =>
        case Ok(st) =>
          totalBlocks := totalBlocks + st.blocks;
      }
      i := i + 1;
    }
    assert entries[..i] == entries;
    out := "total " + IntToString(Half(totalBlocks)) + "\n";
  }

  /** Halving once after summing is not halving each entry: two entries of
      one block each give a total of 1, not 0. */
  lemma HalvedOnceAfterSumming(a: Entry, b: Entry)
    requires a.info.Ok? && a.info.value.blocks == 1
    requires b.info.Ok? && b.info.value.blocks == 1
    ensures TotalLine([a, b]) == "total 1\n"
    ensures Half(BlocksOf(a)) + Half(BlocksOf(b)) == 0
  {
    assert [a, b][..1] == [a] && [a][..0] == [];
    assert SumBlocks([a]) == 1;
    assert SumBlocks([a, b]) == 2;
    assert NatToString(1) == ['1'];
  }

  // ---------------------------------------------------------------------
  // The permission string.
  // ---------------------------------------------------------------------

  function Pow2(n: nat): (p: nat)
    ensures p >= 1
  {
    if n == 0 then 1 else 2 * Pow2(n - 1)
  }

  /** Bit k of b. */
  predicate Bit(b: nat, k: nat)
  {
    if k == 0 then b % 2 == 1 else Bit(b / 2, k - 1)
  }

  /** The last n permission characters of FileMode.String for bits b:
      position i shows "rwx"[i % 3] when bit n-1-i is set and '-' otherwise. */
  function Rwx(b: nat, n: nat): (r: string)
    ensures |r| == n
  {
    if n == 0 then ""
    else Rwx(b / 2, n - 1) + [if b % 2 == 1 then "rwx"[(n - 1) % 3] else '-']
  }

  /** Reads the bits back from a permission string: any character other
      than '-' is a set bit. */
  function Unrwx(s: string): nat
  {
    if s == [] then 0 else 2 * Unrwx(s[..|s| - 1]) + (if s[|s| - 1] != '-' then 1 else 0)
  }

  lemma {:induction false} RwxAt(b: nat, n: nat, i: nat)
    requires i < n
    ensures Rwx(b, n)[i] == if Bit(b, n - 1 - i) then "rwx"[i % 3] else '-'
  {
    if i < n - 1 {
      RwxAt(b / 2, n - 1, i);
    }
  }

  lemma {:induction false} UnrwxRwx(b: nat, n: nat)
    requires b < Pow2(n)
    ensures Unrwx(Rwx(b, n)) == b
  {
    if n > 0 {
      var r := Rwx(b, n);
      assert r[..|r| - 1] == Rwx(b / 2, n - 1);
      UnrwxRwx(b / 2, n - 1);
    }
  }

  /** FileMode(perm).String() for a mode holding only permission bits: no
      type letter, so a '-' and then the nine rwx characters. */
  function ModeString(perm: Perm9): string
  {
    "-" + Rwx(perm, 9)
  }

  /** perms in printDetailedEntry: the mode string with its first character
      replaced by 'd' for a directory and '-' for anything else. */
  function PermString(st: Stat): string
  {
    (if st.isDir then "d" else "-") + ModeString(st.perm)[1..]
  }

  /** The permission string has ten characters: the type character, then
      an rwx character or '-' per bit, from bit 8 down to bit 0. */
  lemma PermStringShape(st: Stat)
    ensures |PermString(st)| == 10
    ensures PermString(st)[0] == (if st.isDir then 'd' else '-')
    ensures forall i :: 0 <= i < 9 ==> PermString(st)[1..][i] == PermChar(st.perm, i)
  {
    assert PermString(st)[1..] == Rwx(st.perm, 9);
    forall i | 0 <= i < 9 ensures Rwx(st.perm, 9)[i] == PermChar(st.perm, i) {
      RwxAt(st.perm, 9, i);
      RepeatedRwx(i);
    }
  }

  /** Character i of the nine, as FileMode.String writes it: "rwxrwxrwx"[i]
      when bit 8-i is set, '-' otherwise. */
  function PermChar(perm: Perm9, i: nat): char
    requires i < 9
  {
    if Bit(perm, 8 - i) then "rwxrwxrwx"[i] else '-'
  }

  lemma RepeatedRwx(i: nat)
    requires i < 9
    ensures "rwxrwxrwx"[i] == "rwx"[i % 3]
  {
    if i >= 6 {
      assert i % 3 == i - 6;
    } else if i >= 3 {
      assert i % 3 == i - 3;
    }
  }

  /** The permission string determines the directory bit and the nine
      permission bits. */
  lemma PermStringInverse(st: Stat)
    ensures PermString(st)[0] == 'd' <==> st.isDir
    ensures Unrwx(PermString(st)[1..]) == st.perm
  {
    assert PermString(st)[1..] == Rwx(st.perm, 9);
    assert Pow2(9) == 512;
    UnrwxRwx(st.perm, 9);
  }

  // ---------------------------------------------------------------------
  // Owner and group.
  // ---------------------------------------------------------------------

  /** user.LookupId / user.LookupGroupId on the decimal id: the name when
      the database knows the id, otherwise the decimal id itself. */
  function NameOrId(id: nat, db: map<string, string>): (r: string)
    ensures NatToString(id) in db ==> r == db[NatToString(id)]
    ensures NatToString(id) !in db ==> r == NatToString(id)
  {
    var key := NatToString(id);
    if key in db then db[key] else key
  }

  /** When the lookup fails the field still identifies the id. */
  lemma FallbackIsId(id: nat, db: map<string, string>)
    requires NatToString(id) !in db
    ensures forall k :: 0 <= k < |NameOrId(id, db)| ==> IsDigit(NameOrId(id, db)[k])
    ensures ParseNat(NameOrId(id, db)) == id
  {
    ParseNatToString(id);
  }

  // ---------------------------------------------------------------------
  // The time layout.
  // ---------------------------------------------------------------------

  /** One hour, and 6*30*24 hours, in nanoseconds. */
  const Hour: int := 3_600_000_000_000
  const SixMonths: int := 6 * 30 * 24 * Hour

  const RecentLayout: string := "Jan _2 15:04"
  const OldLayout: string := "Jan _2 2006"

  /** The layout for a file whose modification time is mtime at time now:
      the year layout when the age exceeds 4320 hours. */
  function Layout(now: int, mtime: int): (l: string)
    ensures l == OldLayout <==> now - mtime > SixMonths
    ensures l == RecentLayout <==> now - mtime <= SixMonths
  {
    if now - mtime > SixMonths then OldLayout else RecentLayout
  }

  /** An age of exactly 4320 hours, and a future modification time, keep the
      hour:minute layout; in this integer-nanosecond model one nanosecond
      more switches to the year. */
  lemma LayoutBoundary(mtime: int)
    ensures Layout(mtime + SixMonths, mtime) == RecentLayout
    ensures Layout(mtime + SixMonths + 1, mtime) == OldLayout
    ensures Layout(mtime - 1, mtime) == RecentLayout
  {
  }

  // ---------------------------------------------------------------------
  // The detail line.
  // ---------------------------------------------------------------------

  /** What printDetailedEntry reads besides the entry: the user and group
      databases, keyed by decimal id, the current time in nanoseconds, and
      time.Format, as format(mtime, layout). */
  datatype Context = Context(
    users: map<string, string>,
    groups: map<string, string>,
    now: int,
    format: (int, string) -> string)

  /** What printDetailedEntry writes for an entry whose Info() fails. */
  function ErrorLine(name: string, err: string): string
  {
    "ls: error reading file info for " + name + ": " + err + "\n"
  }

  /** The format "%s %d %s %s %4d %s %s\n" of printDetailedEntry. */
  function DetailFormat(perms: string, links: nat, owner: string, group: string, size: int,
                        time: string, name: string): string
  {
    perms + " " + NatToString(links) + " "
      + (owner + " " + group + " " + PadLeft(IntToString(size), 4) + " " + time + " " + name + "\n")
  }

  /** printDetailedEntry of the permission string, link count, owner,
      group, size, time and icon name; icon is the getFileNameWithIcon in
      use. */
  function DetailLine(e: Entry, ctx: Context, icon: Entry -> string): string
  {
    match e.info
    case Err(err) => ErrorLine(e.name, err)
    case Ok(st) =>
      DetailFormat(PermString(st), st.nlink, NameOrId(st.uid, ctx.users), NameOrId(st.gid, ctx.groups),
                   st.size, ctx.format(st.mtime, Layout(ctx.now, st.mtime)), icon(e))
  }

  /** The first two fields of a line built as p + " " + n + " " + rest. */
  lemma LeadingSplit(p: string, n: string, rest: string)
    ensures var line := p + " " + n + " " + rest;
            && line[..|p|] == p && line[|p|] == ' '
            && line[|p| + 1..|p| + 1 + |n|] == n && line[|p| + 1 + |n|] == ' '
  {
    var line := p + " " + n + " " + rest;
    assert line == p + [' '] + n + [' '] + rest;
  }

  /** The last field of a line built as head + (init + " " + last + "\n"). */
  lemma TrailingSplit(head: string, init: string, last: string)
    ensures var line := head + (init + " " + last + "\n");
            && |line| >= |last| + 2
            && line[|line| - |last| - 2] == ' '
            && line[|line| - |last| - 1..] == last + "\n"
  {
    var line := head + (init + " " + last + "\n");
    assert line == (head + init) + [' '] + (last + "\n");
  }

  /** A detail line starts with the permission string and the decimal
      link count (which ParseNatToString reads back), each followed by a
      space. */
  lemma DetailLineStart(e: Entry, ctx: Context, icon: Entry -> string)
    requires e.info.Ok?
    ensures var line := DetailLine(e, ctx, icon);
            var st := e.info.value;
            var k := |NatToString(st.nlink)|;
            && |line| > 11 + k
            && line[..10] == PermString(st) && line[10] == ' '
            && line[11..11 + k] == NatToString(st.nlink) && line[11 + k] == ' '
  {
    var st := e.info.value;
    var perms, n := PermString(st), NatToString(st.nlink);
    var owner, group := NameOrId(st.uid, ctx.users), NameOrId(st.gid, ctx.groups);
    var time := ctx.format(st.mtime, Layout(ctx.now, st.mtime));
    var rest := owner + " " + group + " " + PadLeft(IntToString(st.size), 4) + " " + time + " " + icon(e) + "\n";
    assert DetailLine(e, ctx, icon) == perms + " " + n + " " + rest;
    assert |perms| == 10;
    LeadingSplit(perms, n, rest);
  }

  /** A detail line ends with a space, the icon name and the newline. */
  lemma DetailLineEnd(e: Entry, ctx: Context, icon: Entry -> string)
    requires e.info.Ok?
    ensures var line := DetailLine(e, ctx, icon);
            && |line| >= |icon(e)| + 2
            && line[|line| - |icon(e)| - 2] == ' '
            && line[|line| - |icon(e)| - 1..] == icon(e) + "\n"
  {
    var st := e.info.value;
    var owner, group := NameOrId(st.uid, ctx.users), NameOrId(st.gid, ctx.groups);
    var time := ctx.format(st.mtime, Layout(ctx.now, st.mtime));
    var head := PermString(st) + " " + NatToString(st.nlink) + " ";
    var init := owner + " " + group + " " + PadLeft(IntToString(st.size), 4) + " " + time;
    assert DetailLine(e, ctx, icon) == head + (init + " " + icon(e) + "\n");
    TrailingSplit(head, init, icon(e));
  }

  /** The size is right-aligned in four columns and never truncated. */
  lemma SizeField(size: int)
    ensures |PadLeft(IntToString(size), 4)| == if |IntToString(size)| < 4 then 4 else |IntToString(size)|
    ensures PadLeft(IntToString(size), 4)[|PadLeft(IntToString(size), 4)| - |IntToString(size)|..] == IntToString(size)
    ensures 0 <= size < 1000 ==> |PadLeft(IntToString(size), 4)| == 4
  {
    if 0 <= size < 1000 {
      assert Pow10(3) == 1000;
      NatDigitsBound(size, 3);
    }
  }

  /** An entry whose Info() fails prints only its error message, whatever
      the context and icon renderer. */
  lemma FailedEntryLine(e: Entry, ctx: Context, icon: Entry -> string)
    requires e.info.Err?
    ensures DetailLine(e, ctx, icon) == ErrorLine(e.name, e.info.error)
    ensures DetailLine(e, ctx, icon) == DetailLine(e, Context(map[], map[], 0, (t: int, l: string) => ""), (x: Entry) => "")
  {
  }

  /** The lines of f over the entries, in order. */
  function Lines(s: seq<Entry>, f: Entry -> string): string
  {
    if s == [] then "" else Lines(s[..|s| - 1], f) + f(s[|s| - 1])
  }

  /** Each entry's line is independent of the others: a failed entry in the
      middle does not stop the entries after it. */
  lemma {:induction false} LinesAppend(s: seq<Entry>, t: seq<Entry>, f: Entry -> string)
    ensures Lines(s + t, f) == Lines(s, f) + Lines(t, f)
    decreases |t|
  {
    if t == [] {
      assert s + t == s;
    } else {
      var t' := t[..|t| - 1];
      assert (s + t)[..|s + t| - 1] == s + t';
      LinesAppend(s, t', f);
    }
  }

  lemma LinesSingle(e: Entry, f: Entry -> string)
    ensures Lines([e], f) == f(e)
  {
    assert [e][..0] == [];
  }

  /** printDetailedEntry as a function of the entry. */
  function DetailOf(ctx: Context, icon: Entry -> string): Entry -> string
  {
    e => DetailLine(e, ctx, icon)
  }

  lemma LinesStep(s: seq<Entry>, i: nat, f: Entry -> string)
    requires i < |s|
    ensures Lines(s[..i + 1], f) == Lines(s[..i], f) + f(s[i])
  {
    assert s[..i + 1][..i] == s[..i];
  }

  /** The long listing: the total line, then each entry's detail line,
      written by the code's loop over the entries. */
  method PrintLong(entries: seq<Entry>, ctx: Context, icon: Entry -> string) returns (out: string)
    ensures out == TotalLine(entries) + Lines(entries, DetailOf(ctx, icon))
  {
    var total := PrintTotalBlocks(entries);
    var details := "";
    var line := DetailOf(ctx, icon);
    var i := 0;
    while i < |entries|
      invariant 0 <= i <= |entries|
      invariant details == Lines(entries[..i], line)
    {
      LinesStep(entries, i, line);
      details := details + line(entries[i]);
      i := i + 1;
    }
    assert entries[..i] == entries;
    out := total + details;
  }
}
