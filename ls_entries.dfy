/** Directory entries as ls sees them, and the order Run sorts them in:
    Go's `<` on names, which compares the UTF-8 bytes and therefore orders
    valid UTF-8 strings by code point, with upper case before lower case. */
module LsEntries {
  import opened Text
  import opened Icons

  /** Permission bits as FileMode.Perm() leaves them: the low nine bits. */
  type Perm9 = p: nat | p < 512

  /** The parts of os.FileInfo and syscall.Stat_t the listing reads. The
      modification time is in nanoseconds, so an age is a Go Duration. */
  datatype Stat = Stat(
    isDir: bool,
    perm: Perm9,
    nlink: nat,
    uid: nat,
    gid: nat,
    size: int,
    blocks: int,
    mtime: int)

  /** An os.DirEntry: its name, its directory bit, and what Info() returns
      (the stat record, or the text of the error). */
  datatype Entry = Entry(name: string, isDir: bool, info: Result<Stat, string>)

  /** Which of the two getFileNameWithIcon definitions in package ls the
      listing calls: the switch in ls.go or the table in common.go. */
  datatype IconStyle = SwitchIcons | TableIcons

  /** getFileNameWithIcon(entry): the glyph chosen from the entry's name and
      directory bit, then the name. */
  function IconName(e: Entry, style: IconStyle): (r: string)
    ensures |r| >= |e.name| && r[|r| - |e.name|..] == e.name
  {
    match style
    case SwitchIcons => IconSwitch(e.name, e.isDir)
    case TableIcons => IconTable(e.name, e.isDir)
  }

  // ---------------------------------------------------------------------
  // Go string comparison.
  // ---------------------------------------------------------------------

  /** a < b on Go strings: lexicographic, a proper prefix first. */
  predicate Less(a: string, b: string)
  {
    if a == [] then b != []
    else if b == [] then false
    else if a[0] != b[0] then a[0] < b[0]
    else Less(a[1..], b[1..])
  }

  predicate LessEq(a: string, b: string)
  {
    !Less(b, a)
  }

  lemma {:induction false} LessIrreflexive(a: string)
    ensures !Less(a, a)
  {
    if a != [] {
      LessIrreflexive(a[1..]);
    }
  }

  /** Exactly one of a < b, a == b, b < a holds. */
  lemma {:induction false} LessTrichotomy(a: string, b: string)
    ensures Less(a, b) || a == b || Less(b, a)
    ensures !(Less(a, b) && Less(b, a))
    ensures Less(a, b) ==> a != b
  {
    if a != [] && b != [] && a[0] == b[0] {
      LessTrichotomy(a[1..], b[1..]);
      if a[1..] == b[1..] {
        assert a == [a[0]] + a[1..] && b == [b[0]] + b[1..];
      }
    }
    if a == b {
      LessIrreflexive(a);
    }
  }

  lemma {:induction false} LessTransitive(a: string, b: string, c: string)
    requires Less(a, b) && Less(b, c)
    ensures Less(a, c)
  {
    if a != [] && a[0] == b[0] && b[0] == c[0] {
      LessTransitive(a[1..], b[1..], c[1..]);
    }
  }

  lemma LessEqTransitive(a: string, b: string, c: string)
    requires LessEq(a, b) && LessEq(b, c)
    ensures LessEq(a, c)
  {
    LessTrichotomy(a, b);
    LessTrichotomy(b, c);
    LessTrichotomy(a, c);
    if Less(c, a) {
      if Less(a, b) {
        LessTransitive(c, a, b);
      }
    }
  }

  /** The comparison is case-sensitive: every upper-case ASCII name starting
      with a letter sorts before every lower-case one. */
  lemma UpperBeforeLower(a: string, b: string)
    requires a != [] && 'A' <= a[0] <= 'Z'
    requires b != [] && 'a' <= b[0] <= 'z'
    ensures Less(a, b) && !Less(b, a)
  {
  }

  /** A proper prefix sorts first. */
  lemma {:induction false} PrefixFirst(a: string, b: string)
    requires b != []
    ensures Less(a, a + b)
  {
    if a != [] {
      assert (a + b)[1..] == a[1..] + b;
      PrefixFirst(a[1..], b);
    }
  }

  // ---------------------------------------------------------------------
  // Sortedness, and the reference sort.
  // ---------------------------------------------------------------------

  predicate Sorted(s: seq<Entry>)
  {
    forall k, l :: 0 <= k < l < |s| ==> LessEq(s[k].name, s[l].name)
  }

  predicate DistinctNames(s: seq<Entry>)
  {
    forall k, l :: 0 <= k < l < |s| ==> s[k].name != s[l].name
  }

  /** Inserts e after every entry whose name is not greater than its own. */
  function Insert(e: Entry, s: seq<Entry>): (r: seq<Entry>)
    ensures multiset(r) == multiset(s) + multiset{e}
  {
    if s == [] then [e]
    else if LessEq(s[0].name, e.name) then
      assert s == [s[0]] + s[1..];
      [s[0]] + Insert(e, s[1..])
    else [e] + s
  }

  lemma {:induction false} InsertSorted(e: Entry, s: seq<Entry>)
    requires Sorted(s)
    ensures Sorted(Insert(e, s))
  {
    if s != [] {
      LessTrichotomy(s[0].name, e.name);
      if LessEq(s[0].name, e.name) {
        InsertSorted(e, s[1..]);
        var r := Insert(e, s);
        forall l | 0 < l < |r| ensures LessEq(r[0].name, r[l].name) {
          assert r[l] in multiset(s[1..]) + multiset{e};
          if r[l] != e {
            var m :| 0 <= m < |s[1..]| && s[1..][m] == r[l];
            assert s[m + 1] == r[l];
          }
        }
      } else {
        forall l | 0 < l < |s| ensures LessEq(e.name, s[l].name) {
          LessEqTransitive(e.name, s[0].name, s[l].name);
        }
      }
    }
  }

  /** Insertion sort: the reference definition the in-place sort is checked against. */
  function SortByName(s: seq<Entry>): (r: seq<Entry>)
    ensures multiset(r) == multiset(s)
  {
    if s == [] then []
    else
      assert s == s[..|s| - 1] + [s[|s| - 1]];
      Insert(s[|s| - 1], SortByName(s[..|s| - 1]))
  }

  lemma {:induction false} SortByNameSorted(s: seq<Entry>)
    ensures Sorted(SortByName(s))
  {
    if s != [] {
      SortByNameSorted(s[..|s| - 1]);
      InsertSorted(s[|s| - 1], SortByName(s[..|s| - 1]));
    }
  }

  /** Inserting an entry no smaller than all of a sorted sequence appends it. */
  lemma {:induction false} InsertAtEnd(e: Entry, s: seq<Entry>)
    requires forall k :: 0 <= k < |s| ==> LessEq(s[k].name, e.name)
    ensures Insert(e, s) == s + [e]
  {
    if s != [] {
      InsertAtEnd(e, s[1..]);
      assert [s[0]] + (s[1..] + [e]) == s + [e];
    }
  }

  /** Re-sorting is a no-op. */
  lemma {:induction false} SortByNameOfSorted(s: seq<Entry>)
    requires Sorted(s)
    ensures SortByName(s) == s
  {
    if s != [] {
      var p := s[..|s| - 1];
      assert Sorted(p);
      SortByNameOfSorted(p);
      InsertAtEnd(s[|s| - 1], p);
    }
  }

  /** Entries with the same name are the same entry. Unlike DistinctNames,
      this depends only on which entries occur, not on their order. */
  predicate UniqueNames(s: seq<Entry>)
  {
    forall e, f :: e in s && f in s && e.name == f.name ==> e == f
  }

  lemma DistinctNamesUnique(s: seq<Entry>)
    requires DistinctNames(s)
    ensures UniqueNames(s)
  {
    forall e, f | e in s && f in s && e.name == f.name ensures e == f {
      var k :| 0 <= k < |s| && s[k] == e;
      var l :| 0 <= l < |s| && s[l] == f;
      assert !(k < l) && !(l < k);
    }
  }

  /** The first entry of a sorted sequence has the least name. */
  lemma SortedHead(s: seq<Entry>, e: Entry)
    requires Sorted(s) && e in s
    ensures LessEq(s[0].name, e.name)
  {
    var i :| 0 <= i < |s| && s[i] == e;
    if i == 0 {
      LessIrreflexive(e.name);
    }
  }

  lemma SameHead(s: seq<Entry>, t: seq<Entry>)
    requires Sorted(s) && Sorted(t) && UniqueNames(s)
    requires multiset(s) == multiset(t) && s != []
    ensures t != [] && s[0] == t[0]
  {
    assert s[0] in multiset(t);
    assert t[0] in multiset(s);
    SortedHead(s, t[0]);
    SortedHead(t, s[0]);
    LessTrichotomy(s[0].name, t[0].name);
  }

  lemma SameTails<T>(s: seq<T>, t: seq<T>)
    requires s != [] && t != [] && s[0] == t[0] && multiset(s) == multiset(t)
    ensures multiset(s[1..]) == multiset(t[1..])
  {
    assert s == [s[0]] + s[1..] && t == [t[0]] + t[1..];
    assert multiset(s[1..]) == multiset(s) - multiset{s[0]};
    assert multiset(t[1..]) == multiset(t) - multiset{t[0]};
  }

  /** When names identify entries the sorted order is unique: two sorted
      arrangements of the same entries are equal. */
  lemma {:induction false} SortedUnique(s: seq<Entry>, t: seq<Entry>)
    requires Sorted(s) && Sorted(t) && UniqueNames(s)
    requires multiset(s) == multiset(t)
    ensures s == t
    decreases |s|
  {
    if s == [] {
      assert |t| == |multiset(t)| == 0;
    } else {
      SameHead(s, t);
      assert s == [s[0]] + s[1..] && t == [t[0]] + t[1..];
      SameTails(s, t);
      assert UniqueNames(s[1..]) by {
        forall e | e in s[1..] ensures e in s { }
      }
      SortedUnique(s[1..], t[1..]);
    }
  }

  // ---------------------------------------------------------------------
  // The in-place sort (sort.Slice with the name comparison).
  // ---------------------------------------------------------------------

  /** The state of the insertion step: a[..i + 1] is sorted except that
      the entry at j, which is no greater than any entry after it up to i,
      may be smaller than the ones before it. */
  predicate Inserting(s: seq<Entry>, i: nat, j: nat)
    requires j <= i < |s|
  {
    && (forall k, l :: 0 <= k < l <= i && k != j && l != j ==> LessEq(s[k].name, s[l].name))
    && (forall l :: j < l <= i ==> LessEq(s[j].name, s[l].name))
  }

  /** Swapping the entry at j with its smaller-named predecessor moves the
      insertion one place down. */
  lemma SwapStep(s: seq<Entry>, i: nat, j: nat)
    requires 0 < j <= i < |s| && Inserting(s, i, j)
    requires Less(s[j].name, s[j - 1].name)
    ensures Inserting(s[j - 1 := s[j]][j := s[j - 1]], i, j - 1)
    ensures multiset(s[j - 1 := s[j]][j := s[j - 1]]) == multiset(s)
  {
    LessTrichotomy(s[j].name, s[j - 1].name);
  }

  /** Once the entry at j is no smaller than its predecessor, the prefix is sorted. */
  lemma InsertDone(s: seq<Entry>, i: nat, j: nat)
    requires j <= i < |s| && Inserting(s, i, j)
    requires j > 0 ==> LessEq(s[j - 1].name, s[j].name)
    ensures Sorted(s[..i + 1])
  {
    forall k | 0 <= k < j ensures LessEq(s[k].name, s[j].name) {
      if k < j - 1 {
        LessEqTransitive(s[k].name, s[j - 1].name, s[j].name);
      }
    }
  }

  /** Moves a[i] down into the sorted prefix a[..i]. */
  method InsertInPlace(a: array<Entry>, i: nat)
    requires i < a.Length && Sorted(a[..i])
    modifies a
    ensures Sorted(a[..i + 1])
    ensures multiset(a[..]) == multiset(old(a[..]))
    ensures a[i + 1..] == old(a[i + 1..])
  {
    var j := i;
    while j > 0 && Less(a[j].name, a[j - 1].name)
      invariant 0 <= j <= i
      invariant Inserting(a[..], i, j)
      invariant multiset(a[..]) == multiset(old(a[..]))
      invariant a[i + 1..] == old(a[i + 1..])
    {
      ghost var s := a[..];
      SwapStep(s, i, j);
      a[j - 1], a[j] := a[j], a[j - 1];
      assert a[..] == s[j - 1 := s[j]][j := s[j - 1]];
      j := j - 1;
    }
    InsertDone(a[..], i, j);
    assert a[..][..i + 1] == a[..i + 1];
  }

  /** Sorts the entries in place by name (sort.Slice with the name
      comparison). The result is sorted and a permutation of the input. */
  method SortEntries(a: array<Entry>)
    modifies a
    ensures Sorted(a[..])
    ensures multiset(a[..]) == multiset(old(a[..]))
  {
    var i := 0;
    while i < a.Length
      invariant 0 <= i <= a.Length
      invariant Sorted(a[..i])
      invariant multiset(a[..]) == multiset(old(a[..]))
    {
      InsertInPlace(a, i);
      i := i + 1;
    }
    assert a[..a.Length] == a[..];
  }

  /** For a directory listing, whose names are distinct, the in-place sort
      and the reference sort agree. */
  lemma SortMatchesReference(before: seq<Entry>, after: seq<Entry>)
    requires DistinctNames(before)
    requires Sorted(after) && multiset(after) == multiset(before)
    ensures after == SortByName(before)
  {
    SortByNameSorted(before);
    DistinctNamesUnique(before);
    assert UniqueNames(after) by {
      forall e | e in after ensures e in before {
        assert e in multiset(after);
      }
    }
    SortedUnique(after, SortByName(before));
  }
}
