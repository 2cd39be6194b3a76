/** The short listing of ls: icon names laid out in columns whose width is
    the longest name's UTF-8 byte length plus two, as many columns as fit
    the terminal width, left-aligned by rune count. */
module LsColumns {
  import opened Text
  import opened LsEntries

  // ---------------------------------------------------------------------
  // Width, column width and column count.
  // ---------------------------------------------------------------------

  /** The terminal width: the probe's answer, replaced by 80 when the probe
      fails or answers less than 20. */
  function EffectiveWidth(probe: Option<int>): (w: int)
    ensures w >= 20
    ensures w == 80 || (probe.Some? && w == probe.value)
    ensures probe.Some? && probe.value >= 20 ==> w == probe.value
  {
    if probe.None? || probe.value < 20 then 80 else probe.value
  }

  lemma WidthExamples()
    ensures EffectiveWidth(None) == 80
    ensures EffectiveWidth(Some(15)) == 80
    ensures EffectiveWidth(Some(20)) == 20
    ensures EffectiveWidth(Some(132)) == 132
  {
  }

  /** The rendered names, one per entry. */
  function Names(s: seq<Entry>, icon: Entry -> string): (r: seq<string>)
    ensures |r| == |s| && forall k :: 0 <= k < |s| ==> r[k] == icon(s[k])
  {
    if s == [] then [] else Names(s[..|s| - 1], icon) + [icon(s[|s| - 1])]
  }

  /** The largest UTF-8 byte length among the names (0 for none). */
  function MaxByteLen(names: seq<string>): nat
  {
    if names == [] then 0
    else
      var m := MaxByteLen(names[..|names| - 1]);
      var b := ByteLen(names[|names| - 1]);
      if b > m then b else m
  }

  /** MaxByteLen is the maximum: no name is longer, and some name is that
      long when there is one. */
  lemma {:induction false} MaxByteLenIsMax(names: seq<string>)
    ensures forall k :: 0 <= k < |names| ==> ByteLen(names[k]) <= MaxByteLen(names)
    ensures names == [] ==> MaxByteLen(names) == 0
    ensures names != [] ==> exists k :: 0 <= k < |names| && ByteLen(names[k]) == MaxByteLen(names)
  {
    if names != [] {
      var p := names[..|names| - 1];
      MaxByteLenIsMax(p);
      assert forall k :: 0 <= k < |p| ==> p[k] == names[k];
      if ByteLen(names[|names| - 1]) <= MaxByteLen(p) && p != [] {
        var k :| 0 <= k < |p| && ByteLen(p[k]) == MaxByteLen(p);
        assert names[k] == p[k];
      }
    }
  }

  /** width / colWidth, raised to 1 when no column fits. */
  function ColCount(width: int, colWidth: nat): nat
    requires width >= 0 && colWidth >= 1
  {
    if width / colWidth == 0 then 1 else width / colWidth
  }

  /** The column count is at least one, and it is the largest number of
      columns that fit the width, unless none does. */
  lemma ColCountBounds(width: int, colWidth: nat)
    requires width >= 0 && colWidth >= 1
    ensures ColCount(width, colWidth) >= 1
    ensures ColCount(width, colWidth) == 1 || ColCount(width, colWidth) * colWidth <= width
    ensures width < (ColCount(width, colWidth) + 1) * colWidth
  {
    var q := width / colWidth;
    assert width == q * colWidth + width % colWidth;
    if q == 0 {
      assert width < colWidth;
    }
  }

  /** Ten-byte names on an 80-column terminal: columns of 12, six of them.
      A name wider than the terminal still gets one column. */
  lemma ColumnExamples()
    ensures ColCount(EffectiveWidth(Some(80)), 10 + 2) == 6
    ensures ColCount(EffectiveWidth(Some(15)), 10 + 2) == 6
    ensures ColCount(EffectiveWidth(Some(20)), 30 + 2) == 1
  {
  }

  // ---------------------------------------------------------------------
  // The grid, cell by cell as the printing loop writes it.
  // ---------------------------------------------------------------------

  /** Whether a newline follows the i-th of n names. */
  predicate BreakAfter(i: nat, n: nat, cols: nat)
    requires cols >= 1
  {
    (i + 1) % cols == 0 || i == n - 1
  }

  /** The i-th name padded to colWidth runes, with its row break if any. */
  function Cell(names: seq<string>, i: nat, colWidth: nat, cols: nat): string
    requires i < |names| && cols >= 1
  {
    PadRight(names[i], colWidth) + (if BreakAfter(i, |names|, cols) then "\n" else "")
  }

  /** Cells lo .. hi-1. */
  function Cells(names: seq<string>, lo: nat, hi: nat, colWidth: nat, cols: nat): string
    requires lo <= hi <= |names| && cols >= 1
    decreases hi - lo
  {
    if lo == hi then "" else Cells(names, lo, hi - 1, colWidth, cols) + Cell(names, hi - 1, colWidth, cols)
  }

  function Grid(names: seq<string>, colWidth: nat, cols: nat): string
    requires cols >= 1
  {
    Cells(names, 0, |names|, colWidth, cols)
  }

  /** The first loop of printMultiColumn: the rendered names and the
      largest byte length among them. */
  method CollectNames(entries: seq<Entry>, icon: Entry -> string) returns (names: seq<string>, maxLen: nat)
    ensures names == Names(entries, icon) && maxLen == MaxByteLen(names)
  {
    names := [];
    maxLen := 0;
    var i := 0;
    while i < |entries|
      invariant 0 <= i <= |entries|
      invariant names == Names(entries[..i], icon)
      invariant maxLen == MaxByteLen(names)
    {
      var name := icon(entries[i]);
      NamesStep(entries, i, icon);
      MaxByteLenStep(names, name);
      names := names + [name];
      if ByteLen(name) > maxLen {
        maxLen := ByteLen(name);
      }
      i := i + 1;
    }
    assert entries[..i] == entries;
  }

  lemma NamesStep(s: seq<Entry>, i: nat, icon: Entry -> string)
    requires i < |s|
    ensures Names(s[..i + 1], icon) == Names(s[..i], icon) + [icon(s[i])]
  {
    assert s[..i + 1][..i] == s[..i];
  }

  lemma MaxByteLenStep(names: seq<string>, name: string)
    ensures MaxByteLen(names + [name])
            == if ByteLen(name) > MaxByteLen(names) then ByteLen(name) else MaxByteLen(names)
  {
    assert (names + [name])[..|names|] == names;
  }

  /** The second loop of printMultiColumn: each name padded to colWidth,
      a newline after every cols-th name and after the last. */
  method PrintGrid(names: seq<string>, colWidth: nat, cols: nat) returns (out: string)
    requires cols >= 1
    ensures out == Grid(names, colWidth, cols)
  {
    out := "";
    var i := 0;
    while i < |names|
      invariant 0 <= i <= |names|
      invariant out == Cells(names, 0, i, colWidth, cols)
    {
      ghost var prev := out;
      out := out + PadRight(names[i], colWidth);
      if (i + 1) % cols == 0 || i == |names| - 1 {
        out := out + "\n";
        assert out == prev + (PadRight(names[i], colWidth) + "\n");
      }
      assert out == prev + Cell(names, i, colWidth, cols);
      i := i + 1;
    }
  }

  lemma QuotientNonnegative(a: int, b: nat)
    requires a >= 0 && b >= 1
    ensures a / b >= 0
  {
  }

  /** printMultiColumn, with the terminal probe as a parameter and icon as
      the getFileNameWithIcon in use. */
  method PrintMultiColumn(entries: seq<Entry>, probe: Option<int>, icon: Entry -> string) returns (out: string)
    ensures var names := Names(entries, icon);
            var colWidth := MaxByteLen(names) + 2;
            out == Grid(names, colWidth, ColCount(EffectiveWidth(probe), colWidth))
  {
    var width := if probe.Some? then probe.value else 0;
    if probe.None? || width < 20 {
      width := 80;
    }
    var names, maxLen := CollectNames(entries, icon);
    var colWidth := maxLen + 2;
    var cols := width / colWidth;
    QuotientNonnegative(width, colWidth);
    if cols == 0 {
      cols := 1;
    }
    out := PrintGrid(names, colWidth, cols);
  }

  // ---------------------------------------------------------------------
  // The reference layout, row by row.
  // ---------------------------------------------------------------------

  /** The names of one row, each padded to colWidth runes. */
  function Row(names: seq<string>, colWidth: nat): string
  {
    if names == [] then "" else Row(names[..|names| - 1], colWidth) + PadRight(names[|names| - 1], colWidth)
  }

  /** The names cut into rows of cols names, the last one possibly shorter. */
  function RowNames(names: seq<string>, cols: nat): seq<seq<string>>
    requires cols >= 1
    decreases |names|
  {
    if names == [] then []
    else if |names| <= cols then [names]
    else [names[..cols]] + RowNames(names[cols..], cols)
  }

  /** The rows laid end to end. */
  function Concat(rows: seq<seq<string>>): seq<string>
  {
    if rows == [] then [] else rows[0] + Concat(rows[1..])
  }

  /** Each row printed and followed by a newline. */
  function JoinRows(rows: seq<seq<string>>, colWidth: nat): string
  {
    if rows == [] then "" else Row(rows[0], colWidth) + "\n" + JoinRows(rows[1..], colWidth)
  }

  /** The reference layout: the rows of cols names, each ending in a newline. */
  function Rows(names: seq<string>, colWidth: nat, cols: nat): string
    requires cols >= 1
  {
    JoinRows(RowNames(names, cols), colWidth)
  }

  /** With more than cols names, the reference layout is the first row,
      a newline, and the layout of the rest. */
  lemma RowsFirstRest(names: seq<string>, colWidth: nat, cols: nat)
    requires 1 <= cols < |names|
    ensures Rows(names, colWidth, cols) == Row(names[..cols], colWidth) + "\n" + Rows(names[cols..], colWidth, cols)
  {
    var rest := RowNames(names[cols..], cols);
    assert RowNames(names, cols) == [names[..cols]] + rest;
    assert ([names[..cols]] + rest)[1..] == rest;
  }

  /** Laying the rows end to end gives back the names, in order. */
  lemma {:induction false} RowNamesConcat(names: seq<string>, cols: nat)
    requires cols >= 1
    ensures Concat(RowNames(names, cols)) == names
    decreases |names|
  {
    if |names| > cols {
      var rest := RowNames(names[cols..], cols);
      RowNamesConcat(names[cols..], cols);
      assert ([names[..cols]] + rest)[1..] == rest;
      assert names[..cols] + names[cols..] == names;
    } else if names != [] {
      assert [names][1..] == [];
    }
  }

  /** Every row holds between one and cols names, and every row but the
      last holds exactly cols. */
  lemma {:induction false} RowNamesSizes(names: seq<string>, cols: nat)
    requires cols >= 1
    ensures forall k :: 0 <= k < |RowNames(names, cols)| ==> 1 <= |RowNames(names, cols)[k]| <= cols
    ensures forall k :: 0 <= k < |RowNames(names, cols)| - 1 ==> |RowNames(names, cols)[k]| == cols
    decreases |names|
  {
    if |names| > cols {
      var rest := RowNames(names[cols..], cols);
      RowNamesSizes(names[cols..], cols);
      var rows := [names[..cols]] + rest;
      assert RowNames(names, cols) == rows;
      assert |rows[0]| == cols;
      forall k | 0 <= k < |rows| ensures 1 <= |rows[k]| <= cols {
        if k > 0 {
          assert rows[k] == rest[k - 1];
        }
      }
      forall k | 0 <= k < |rows| - 1 ensures |rows[k]| == cols {
        if k > 0 {
          assert rows[k] == rest[k - 1];
        }
      }
    }
  }

  /** There are ceil(n / cols) rows. */
  lemma {:induction false} RowNamesCount(names: seq<string>, cols: nat)
    requires cols >= 1
    ensures |RowNames(names, cols)| == (|names| + cols - 1) / cols
    decreases |names|
  {
    var n := |names|;
    if n == 0 {
      DivModUnique(cols - 1, cols, 0, cols - 1);
    } else if n <= cols {
      DivModUnique(n + cols - 1, cols, 1, n - 1);
    } else {
      RowNamesCount(names[cols..], cols);
      DivShift(n - 1, cols);
    }
  }

  /** The last row holds n % cols names, or a full cols when cols divides n. */
  lemma {:induction false} LastRowSize(names: seq<string>, cols: nat)
    requires cols >= 1 && |names| >= 1
    ensures var rows := RowNames(names, cols);
            |rows| >= 1 && |rows[|rows| - 1]| == if |names| % cols == 0 then cols else |names| % cols
    decreases |names|
  {
    var n := |names|;
    if n < cols {
      DivModUnique(n, cols, 0, n);
    } else if n == cols {
      DivModUnique(n, cols, 1, 0);
    } else {
      var rest := RowNames(names[cols..], cols);
      LastRowSize(names[cols..], cols);
      ModShift(n - cols, cols);
      assert ([names[..cols]] + rest)[|rest|] == rest[|rest| - 1];
    }
  }

  lemma {:induction false} CellsSplit(names: seq<string>, lo: nat, mid: nat, hi: nat, colWidth: nat, cols: nat)
    requires lo <= mid <= hi <= |names| && cols >= 1
    ensures Cells(names, lo, hi, colWidth, cols)
            == Cells(names, lo, mid, colWidth, cols) + Cells(names, mid, hi, colWidth, cols)
    decreases hi - mid
  {
    if mid < hi {
      CellsSplit(names, lo, mid, hi - 1, colWidth, cols);
    }
  }

  /** Past the first row, the cells are those of the remaining names. */
  lemma {:induction false} CellsShift(names: seq<string>, cols: nat, lo: nat, hi: nat, colWidth: nat)
    requires 1 <= cols <= |names| && lo <= hi <= |names| - cols
    ensures Cells(names, cols + lo, cols + hi, colWidth, cols) == Cells(names[cols..], lo, hi, colWidth, cols)
    decreases hi - lo
  {
    if lo < hi {
      CellsShift(names, cols, lo, hi - 1, colWidth);
      ModShift(hi, cols);
      assert names[cols..][hi - 1] == names[cols + hi - 1];
    }
  }

  /** The first k < cols cells of a row that is not the last carry no breaks. */
  lemma {:induction false} CellsRow(names: seq<string>, k: nat, colWidth: nat, cols: nat)
    requires cols >= 1 && k <= |names| && k < cols && (k < |names| || k == 0)
    ensures Cells(names, 0, k, colWidth, cols) == Row(names[..k], colWidth)
  {
    if k > 0 {
      CellsRow(names, k - 1, colWidth, cols);
      assert names[..k][..k - 1] == names[..k - 1];
      DivModUnique(k, cols, 0, k);
      assert !BreakAfter(k - 1, |names|, cols);
    }
  }

  /** The first row, cols names ending in one newline, or all names when
      there are no more than cols of them. */
  lemma FirstRow(names: seq<string>, k: nat, colWidth: nat, cols: nat)
    requires 1 <= k <= |names| && cols >= 1
    requires (k == cols && cols < |names|) || (k == |names| && |names| <= cols)
    ensures Cells(names, 0, k, colWidth, cols) == Row(names[..k], colWidth) + "\n"
  {
    CellsRow(names, k - 1, colWidth, cols);
    assert names[..k][..k - 1] == names[..k - 1];
    assert BreakAfter(k - 1, |names|, cols) by {
      if k == cols {
        DivModUnique(k, cols, 1, 0);
      }
    }
  }

  /** With more than cols names, the grid is the first row followed by
      the grid of the remaining names. */
  lemma GridFirstRest(names: seq<string>, colWidth: nat, cols: nat)
    requires 1 <= cols < |names|
    ensures Grid(names, colWidth, cols) == Row(names[..cols], colWidth) + "\n" + Grid(names[cols..], colWidth, cols)
  {
    var n := |names|;
    assert Cells(names, cols, n, colWidth, cols) == Grid(names[cols..], colWidth, cols) by {
      CellsShift(names, cols, 0, n - cols, colWidth);
    }
    assert Grid(names, colWidth, cols) == Cells(names, 0, cols, colWidth, cols) + Cells(names, cols, n, colWidth, cols) by {
      CellsSplit(names, 0, cols, n, colWidth, cols);
    }
    assert Cells(names, 0, cols, colWidth, cols) == Row(names[..cols], colWidth) + "\n" by {
      FirstRow(names, cols, colWidth, cols);
    }
  }

  /** The loop writes exactly the row-by-row layout. */
  lemma {:induction false} GridIsRows(names: seq<string>, colWidth: nat, cols: nat)
    requires cols >= 1
    ensures Grid(names, colWidth, cols) == Rows(names, colWidth, cols)
    decreases |names|
  {
    var n := |names|;
    if n == 0 {
    } else if n <= cols {
      FirstRow(names, n, colWidth, cols);
      assert names[..n] == names;
      assert RowNames(names, cols) == [names];
      assert [names][1..] == [];
      assert Rows(names, colWidth, cols) == Row(names, colWidth) + "\n" + JoinRows([], colWidth);
    } else {
      GridFirstRest(names, colWidth, cols);
      RowsFirstRest(names, colWidth, cols);
      GridIsRows(names[cols..], colWidth, cols);
    }
  }

  // ---------------------------------------------------------------------
  // Properties of the layout.
  // ---------------------------------------------------------------------

  /** A cell holds a newline exactly when a row break follows it. */
  lemma CellNewlines(names: seq<string>, i: nat, colWidth: nat, cols: nat)
    requires i < |names| && cols >= 1 && '\n' !in names[i]
    ensures Count(Cell(names, i, colWidth, cols), '\n') == if BreakAfter(i, |names|, cols) then 1 else 0
  {
    var padded := PadRight(names[i], colWidth);
    assert '\n' !in padded by {
      forall j | 0 <= j < |padded| ensures padded[j] != '\n' {
        if j < |names[i]| {
          assert padded[j] == names[i][j];
        }
      }
    }
    CountZeroIff(padded, '\n');
    var brk: string := if BreakAfter(i, |names|, cols) then "\n" else "";
    CountAppend(padded, brk, '\n');
    assert Count("\n", '\n') == 1 by {
      assert "\n"[..0] == [];
    }
  }

  /** How many of the first h of n cells end in a newline. */
  function BreakCount(n: nat, h: nat, cols: nat): (k: nat)
    requires cols >= 1
    ensures k <= h
  {
    if h == 0 then 0 else BreakCount(n, h - 1, cols) + (if BreakAfter(h - 1, n, cols) then 1 else 0)
  }

  /** The newlines among the first h cells are exactly their row breaks. */
  lemma {:induction false} CellsNewlines(names: seq<string>, h: nat, colWidth: nat, cols: nat)
    requires h <= |names| && cols >= 1
    requires forall k :: 0 <= k < |names| ==> '\n' !in names[k]
    ensures Count(Cells(names, 0, h, colWidth, cols), '\n') == BreakCount(|names|, h, cols)
  {
    if h > 0 {
      var init, last := Cells(names, 0, h - 1, colWidth, cols), Cell(names, h - 1, colWidth, cols);
      assert Cells(names, 0, h, colWidth, cols) == init + last;
      CellsNewlines(names, h - 1, colWidth, cols);
      CellNewlines(names, h - 1, colWidth, cols);
      CountAppend(init, last, '\n');
    }
  }

  /** Before the last cell, a break follows every cols-th name. */
  lemma {:induction false} BreakCountBefore(n: nat, h: nat, cols: nat)
    requires h < n && cols >= 1
    ensures BreakCount(n, h, cols) == h / cols
  {
    if h > 0 {
      BreakCountBefore(n, h - 1, cols);
      MultipleStep(h, cols);
    }
  }

  /** All n cells hold ceil(n / cols) breaks: the last cell always ends its row. */
  lemma BreakCountAll(n: nat, cols: nat)
    requires cols >= 1
    ensures BreakCount(n, n, cols) == (n + cols - 1) / cols
  {
    if n == 0 {
      DivModUnique(cols - 1, cols, 0, cols - 1);
    } else {
      BreakCountBefore(n, n - 1, cols);
      DivShift(n - 1, cols);
    }
  }

  /** With names free of newlines, n names print ceil(n / cols) newlines. */
  lemma RowCount(names: seq<string>, colWidth: nat, cols: nat)
    requires cols >= 1
    requires forall k :: 0 <= k < |names| ==> '\n' !in names[k]
    ensures Count(Grid(names, colWidth, cols), '\n') == (|names| + cols - 1) / cols
  {
    CellsNewlines(names, |names|, colWidth, cols);
    BreakCountAll(|names|, cols);
  }

  /** Every padded cell is exactly colWidth runes and ends in at least two
      spaces, since colWidth exceeds every name's byte length, and so its
      rune count, by two. */
  lemma CellWidth(names: seq<string>, i: nat)
    requires i < |names|
    ensures var colWidth := MaxByteLen(names) + 2;
            var cell := PadRight(names[i], colWidth);
            |cell| == colWidth && cell[..|names[i]|] == names[i]
            && cell[colWidth - 2] == ' ' && cell[colWidth - 1] == ' '
  {
    ByteLenBounds(names[i]);
    MaxByteLenIsMax(names);
  }
}
