/** ls's Run after flag parsing: report an unreadable directory, or sort
    the entries by name and print them long or in columns. */
module LsRun {
  import opened Text
  import opened LsEntries
  import opened LsLong
  import opened LsColumns

  /** getFileNameWithIcon of the chosen definition, as a function of the entry. */
  function IconOf(style: IconStyle): Entry -> string
  {
    e => IconName(e, style)
  }

  /** The diagnostic for a directory os.ReadDir cannot read. */
  function AccessError(dir: string, cause: string): string
  {
    "ls: cannot access '" + dir + "': " + cause + "\n"
  }

  /** What Run prints for the sorted entries. */
  function Listing(sorted: seq<Entry>, long: bool, probe: Option<int>, ctx: Context, style: IconStyle): string
  {
    if long then TotalLine(sorted) + Lines(sorted, DetailOf(ctx, IconOf(style)))
    else
      var names := Names(sorted, IconOf(style));
      var colWidth := MaxByteLen(names) + 2;
      Grid(names, colWidth, ColCount(EffectiveWidth(probe), colWidth))
  }

  /** The entries as sort.Slice leaves them: sorted in place in a slice. */
  method SortedCopy(entries: seq<Entry>) returns (sorted: seq<Entry>)
    requires DistinctNames(entries)
    ensures sorted == SortByName(entries)
  {
    var a := new Entry[|entries|](i requires 0 <= i < |entries| => entries[i]);
    assert a[..] == entries;
    SortEntries(a);
    SortMatchesReference(entries, a[..]);
    sorted := a[..];
  }

  /** Run for the directory dir, given what os.ReadDir returned: the
      entries, whose names a directory keeps distinct, or the error text.
      Returns what is written to standard output and to standard error. */
  method Run(dir: string, listing: Result<seq<Entry>, string>, long: bool, probe: Option<int>,
             ctx: Context, style: IconStyle) returns (stdout: string, stderr: string)
    requires listing.Ok? ==> DistinctNames(listing.value)
    ensures listing.Err? ==> stdout == "" && stderr == AccessError(dir, listing.error)
    ensures listing.Ok? ==> stderr == "" && stdout == Listing(SortByName(listing.value), long, probe, ctx, style)
  {
    stdout, stderr := "", "";
    if listing.Err? {
      stderr := AccessError(dir, listing.error);
    } else {
      var sorted := SortedCopy(listing.value);
      stdout := PrintListing(sorted, long, probe, ctx, style);
    }
  }

  /** The branch on -l, for the sorted entries. */
  method PrintListing(sorted: seq<Entry>, long: bool, probe: Option<int>, ctx: Context, style: IconStyle)
    returns (stdout: string)
    ensures stdout == Listing(sorted, long, probe, ctx, style)
  {
    var icon := IconOf(style);
    if long {
      stdout := PrintLong(sorted, ctx, icon);
    } else {
      stdout := PrintMultiColumn(sorted, probe, icon);
    }
  }

  /** The sorted listing holds the same entries, so the total line of the
      long format is the same as for the entries in directory order. */
  lemma TotalIgnoresOrder(entries: seq<Entry>)
    ensures TotalLine(SortByName(entries)) == TotalLine(entries)
  {
    SumBlocksPermutation(SortByName(entries), entries);
  }

  /** Listing already sorted entries again gives the same output. */
  lemma ListingOfSorted(entries: seq<Entry>, long: bool, probe: Option<int>, ctx: Context, style: IconStyle)
    requires Sorted(entries)
    ensures Listing(SortByName(entries), long, probe, ctx, style) == Listing(entries, long, probe, ctx, style)
  {
    SortByNameOfSorted(entries);
  }

  /** In the long format the total line covers every entry, and the detail
      lines of s + [e] are those of s followed by the line of e alone. */
  lemma LongListingExtends(s: seq<Entry>, e: Entry, probe: Option<int>, ctx: Context, style: IconStyle)
    ensures Listing(s + [e], true, probe, ctx, style)
            == TotalLine(s + [e]) + Lines(s, DetailOf(ctx, IconOf(style))) + DetailLine(e, ctx, IconOf(style))
  {
    LinesAppend(s, [e], DetailOf(ctx, IconOf(style)));
    LinesSingle(e, DetailOf(ctx, IconOf(style)));
  }

  /** An empty directory prints nothing in columns, not even a newline,
      and only "total 0" in the long format. */
  lemma EmptyListing(probe: Option<int>, ctx: Context, style: IconStyle)
    ensures Listing([], false, probe, ctx, style) == ""
    ensures Listing([], true, probe, ctx, style) == "total 0\n"
  {
    assert Names([], IconOf(style)) == [];
    assert IntToString(Half(SumBlocks([]))) == "0";
  }
}
