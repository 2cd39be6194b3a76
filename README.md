# ls and cat listing engines, modelled in Dafny

This project models the output logic of two tools from a small Go
re-implementation of Unix utilities:

- **ls** (`internal/ls/ls.go`, `internal/ls/common.go`). It reads a
  directory's entries and sorts them by name. With `-l` it prints a
  `total` line and one detail line per entry: permissions, link count,
  owner, group, size, time and the icon-prefixed name. Without `-l` it
  lays the icon-prefixed names out in columns fitted to the terminal
  width. The icon glyph comes from the entry's name and its directory
  bit.
- **cat** (`internal/cat/cat.go`, `printFromReader`). It prints the lines
  of one input. Plain mode writes each line as it is. With `-n` it draws
  a header and footer to the terminal width, numbers each line, and
  soft-wraps it at byte offsets that are multiples of `width - 9`.

Everything the programs take from the operating system is a parameter:

- the directory entries and their `Info()` records;
- the terminal width, or its absence;
- the user and group databases;
- the current time and `time.Format`;
- the scanned lines.

Each operation returns the text written to standard output. Where the
program also writes to standard error, that text is returned as well.

Modules:

- `Text` (text.dfy): UTF-8 byte length, decimal conversion and its
  parser, `fmt` padding, `strings.Repeat`, character counting, and
  division facts.
- `Icons` (icons.dfy): `filepath.Ext`, ASCII case folding, and both
  `getFileNameWithIcon` definitions.
  - The `switch` in ls.go is modelled by `SwitchGlyph` and `IconSwitch`.
  - The `iconMap` table and exact names in common.go are modelled by
    `IconMap`, `GetIcon`, `TableGlyph` and `IconTable`.
  - The package declares both definitions, so the listing takes an
    `IconStyle` that selects one.
- `LsEntries` (ls_entries.dfy): the entry record and Go string `<`. It
  also holds `sort.Slice` in two forms. One is an in-place insertion
  sort on an `array<Entry>`. The other is a functional reference sort,
  `SortByName`, with the proof that they agree on distinct names.
- `LsLong` (ls_long.dfy): `printTotalBlocks` and `printDetailedEntry`.
- `LsColumns` (ls_columns.dfy): `printMultiColumn`, with a reference
  row-by-row layout.
- `LsRun` (ls_run.dfy): `Run` after flag parsing.
- `Cat` (cat.dfy): `printFromReader`.

Points of the code worth knowing when reading the model:

- **Sorting.** Names are sorted by Go's byte-wise string `<`
  (internal/ls/ls.go:42-44). The order is case-sensitive, so a name starting
  with an ASCII upper-case letter comes before every name starting with an
  ASCII lower-case letter (`LsEntries.UpperBeforeLower`), and it breaks no
  ties.
- **Wrap points.** The cat wrap test uses the byte offset that `range`
  over a string yields, not a rune count. A multi-byte rune can
  therefore step over a multiple of `width - 9` without a break
  (`Cat.StraddlingRune`).
- **Output streams.** The wrapped text of `cat -n` goes to standard
  error, through the builtins `print` and `println`. The prefixes and
  line ends go to standard output, through `fmt`.

## Model

| member | source | states |
|---|---|---|
| Text.ByteLenBounds | internal/ls/ls.go:148-149 | `len` of a string counts UTF-8 bytes: between its rune count and four times that, and equal to the rune count exactly for ASCII |
| Text.ByteLenAppend | internal/ls/ls.go:148-149 | the byte length of a concatenation is the sum of the byte lengths |
| Text.Utf8Len | internal/ls/ls.go:148-149 | a rune takes one to four UTF-8 bytes, and one exactly when it is below 0x80 |
| Text.ByteLen | internal/ls/ls.go:148-149 | `len` of a string: the sum of its runes' UTF-8 lengths; bounded by ByteLenBounds |
| Text.ParseNatToString | internal/ls/ls.go:123-125 | the decimal text printed by `%d` for a count reads back as that number |
| Text.NatToStringInjective | internal/ls/ls.go:100-101 | distinct ids print as distinct decimal strings |
| Text.NatToString | internal/ls/ls.go:100-101 | decimal text of a natural: non-empty, digits only, no leading zero |
| Text.IntToString | internal/ls/ls.go:128 | `%d` of a signed size is non-empty and starts with '-' exactly when the size is negative |
| Text.IntToStringReadsBack | internal/ls/ls.go:128 | `%d` of a signed size reads back: after the optional '-', digits only, whose value is the size or, for a negative size, its magnitude |
| Text.NatDigitsBound | internal/cat/cat.go:94 | a number below 10^d has at most d decimal digits |
| Text.PadLeft | internal/ls/ls.go:123-128 | `%4d` right-aligns: the field is max(width, length) long, ends with the text and starts with spaces |
| Text.PadRight | internal/ls/ls.go:161 | `%-*s` left-aligns: the field is max(width, length) runes long and holds the text followed by spaces |
| Text.Repeat | internal/cat/cat.go:81-84 | `strings.Repeat(s, n)` has n times the length of s |
| Text.CountAppend | internal/ls/ls.go:160-166 | the newlines of a concatenation are those of its parts |
| Text.CountZeroIff | internal/ls/ls.go:160-166 | a string holds no newline exactly when it counts zero of them |
| Icons.ExtShape | internal/ls/common.go:158 | `filepath.Ext` is a suffix of the name that starts with '.' and holds no further '.' or '/' |
| Icons.ExtEmptyIff | internal/ls/common.go:158 | `filepath.Ext` is empty exactly when the last path element has no '.' |
| Icons.ExtAt | internal/ls/common.go:158 | the extension of a name is the suffix from its last '.', when no '/' follows that '.' |
| Icons.ExtOfDotless | internal/ls/common.go:158 | a name without '.' has the empty extension |
| Icons.Ext | internal/ls/common.go:158 | `filepath.Ext`: the suffix from the last '.' of the final path element, or ""; its shape is stated by ExtShape and ExtEmptyIff |
| Icons.Lower | internal/ls/common.go:158 | `strings.ToLower` on the extension: same length, each character folded (ASCII only, see "Left out") |
| Icons.LowerCharEqual | internal/ls/common.go:158 | two characters fold to the same character exactly when they differ at most in ASCII case |
| Icons.LowerEqual | internal/ls/ls.go:177 | two extensions fold to the same string exactly when they have the same length and differ position by position at most in ASCII case |
| Icons.LowerIdempotent | internal/ls/common.go:158 | folded text holds no ASCII upper-case letter, so folding it again changes nothing |
| Icons.SwitchCase | internal/ls/ls.go:180-258 | the cases of the switch in source order, extension tests mixed with exact names, then the default glyph; stated by SwitchCaseIgnoresOtherNames, SwitchGithub and VersionsDifferOnGo |
| Icons.SwitchGlyph | internal/ls/ls.go:170-259 | the folder glyph for a directory, otherwise the switch on the folded extension and the name; stated by DirectoryAlwaysFolder and SwitchExtensionCaseInsensitive |
| Icons.IconSwitch | internal/ls/ls.go:170-259 | the name with the switch's glyph before it: the result ends with the name, and what precedes it is the chosen glyph |
| Icons.IconMap | internal/ls/common.go:10-140 | the 129 keys of `iconMap` with their glyphs, as Go's two-valued map index; lookups stated by GetIcon, IrregularTableEntries, TableFoldsCase and TableGithub |
| Icons.GetIcon | internal/ls/common.go:143-148 | `getIcon` returns the table's value for a key present and the default glyph otherwise |
| Icons.TableGlyph | internal/ls/common.go:151-180 | the folder glyph for a directory, then the exact names in order, then `getIcon` of the folded extension; stated by TableRuleOrder and TableExtensionCaseInsensitive |
| Icons.IconTable | internal/ls/common.go:151-181 | the name with the table version's glyph before it: the result ends with the name, and what precedes it is the chosen glyph |
| Icons.DirectoryAlwaysFolder | internal/ls/common.go:152-155 | a directory gets the folder glyph in both versions, whatever its name |
| Icons.TableRuleOrder | internal/ls/common.go:161-180 | exact names get one of the dedicated glyphs; every other name gets `getIcon` of its folded extension |
| Icons.TableExtensionCaseInsensitive | internal/ls/common.go:158-179 | outside the exact names, two names with the same folded extension get the same glyph |
| Icons.ExactNamesCaseSensitive | internal/ls/common.go:169-170 | any spelling of a .toml name other than the exact "cargo.toml" gets the default glyph |
| Icons.CargoTomlIsRust | internal/ls/common.go:169-170 | "cargo.toml" gets the Rust glyph in both versions |
| Icons.IrregularTableEntries | internal/ls/common.go:68-122 | a ".cmd" file is printed with no glyph at all, and ".cue" has a glyph without the trailing space |
| Icons.TableNoExtension | internal/ls/common.go:143-148 | a non-exact name without extension gets the default glyph of `getIcon` |
| Icons.TableFoldsCase | internal/ls/common.go:11 | every non-exact name whose folded extension is ".md" gets the Markdown entry |
| Icons.ReadmeUpperIsMarkdown | internal/ls/common.go:158-179 | "README.MD" gets the Markdown entry |
| Icons.SwitchCaseIgnoresOtherNames | internal/ls/ls.go:180-258 | outside the names the switch tests, its choice depends only on the extension |
| Icons.SwitchExtensionCaseInsensitive | internal/ls/ls.go:177-258 | outside those names, two names with the same folded extension get the same switch glyph |
| Icons.VersionsAgreeOnExactNames | internal/ls/ls.go:180-253 | on the nine exact names the switch and the table choose the same glyph |
| Icons.VersionsDifferOnGo | internal/ls/ls.go:182-183 | the switch gives "main.go" the go.mod glyph; the table gives it its own ".go" entry |
| Icons.VersionsDifferOnGithub | internal/ls/ls.go:215-216 | the switch matches ".GITHUB" as a folded extension; the table falls back to its default |
| Icons.SwitchGithub | internal/ls/ls.go:215-216 | every non-exact name with folded extension ".github" gets the Git glyph from the switch |
| Icons.TableGithub | internal/ls/common.go:172-179 | every non-exact name with folded extension ".github" gets the table's default glyph |
| LsEntries.IconName | internal/ls/common.go:151-181 | the icon name of an entry ends with the entry's name |
| LsEntries.Less | internal/ls/ls.go:43 | Go's `<` on names: lexicographic by code point (as UTF-8 byte order is), a proper prefix first; a strict total order by LessIrreflexive, LessTrichotomy and LessTransitive |
| LsEntries.LessIrreflexive | internal/ls/ls.go:43 | no name sorts before itself |
| LsEntries.LessTrichotomy | internal/ls/ls.go:43 | Go's `<` on names is a strict total order: exactly one of a < b, a == b, b < a holds |
| LsEntries.LessTransitive | internal/ls/ls.go:43 | Go's `<` on names is transitive |
| LsEntries.LessEqTransitive | internal/ls/ls.go:43 | the non-strict order is transitive |
| LsEntries.UpperBeforeLower | internal/ls/ls.go:43 | the comparison is case-sensitive: a name starting with an ASCII upper-case letter sorts before every name starting with an ASCII lower-case letter |
| LsEntries.PrefixFirst | internal/ls/ls.go:43 | a proper prefix sorts first |
| LsEntries.Insert | internal/ls/ls.go:42-44 | inserting adds exactly the one entry to the multiset |
| LsEntries.InsertSorted | internal/ls/ls.go:42-44 | inserting into a sorted sequence keeps it sorted |
| LsEntries.SortByName | internal/ls/ls.go:42-44 | the reference sort is a permutation of its input |
| LsEntries.SortByNameSorted | internal/ls/ls.go:42-44 | the reference sort's result is sorted by name |
| LsEntries.SortByNameOfSorted | internal/ls/ls.go:42-44 | sorting an already-sorted listing changes nothing |
| LsEntries.SortedUnique | internal/ls/ls.go:42-44 | two sorted permutations of entries with unique names are equal, so an unstable sort is determined |
| LsEntries.SwapStep | internal/ls/ls.go:42-44 | one swap of the insertion step keeps the step's invariant and the multiset |
| LsEntries.InsertDone | internal/ls/ls.go:42-44 | the insertion step ends with a sorted prefix |
| LsEntries.InsertInPlace | internal/ls/ls.go:42-44 | moves a[i] into the sorted prefix: the prefix through i is sorted, the array is a permutation, and everything after i is unchanged |
| LsEntries.SortEntries | internal/ls/ls.go:42-44 | sorts the array in place: it is sorted by name and a permutation of what it held |
| LsEntries.SortMatchesReference | internal/ls/ls.go:42-44 | for distinct names, any sorted permutation is the reference sort |
| LsLong.Half | internal/ls/ls.go:76 | Go's `/ 2` truncates toward zero, for negative sums too |
| LsLong.HalfOdd | internal/ls/ls.go:76 | halving commutes with negation, as truncation does |
| LsLong.SumBlocksAppend | internal/ls/ls.go:65-73 | the block sum of a concatenation is the sum of the parts' sums |
| LsLong.SumBlocksAllFailed | internal/ls/ls.go:66-69 | entries whose `Info()` fails add nothing to the total |
| LsLong.SumBlocksPermutation | internal/ls/ls.go:65-73 | the total does not depend on the order of the entries |
| LsLong.PrintTotalBlocks | internal/ls/ls.go:61-77 | the loop prints "total " and the halved sum of blocks over the entries whose `Info()` succeeds |
| LsLong.HalvedOnceAfterSumming | internal/ls/ls.go:72-76 | two entries of one block each print "total 1": the sum is halved, not each entry |
| LsLong.TotalLine | internal/ls/ls.go:76 | "total ", the truncated half of the block sum, a newline; printed by PrintTotalBlocks |
| LsLong.RwxAt | internal/ls/ls.go:92 | character i of the permission bits is the rwx letter when the bit is set and '-' otherwise |
| LsLong.UnrwxRwx | internal/ls/ls.go:92 | the rwx string reads back to the bits it was made from |
| LsLong.PermStringShape | internal/ls/ls.go:92-97 | the permission field has ten characters: 'd' or '-', then the nine permission characters of `FileMode.String` |
| LsLong.PermStringInverse | internal/ls/ls.go:92-97 | the permission field determines both the directory bit and the nine permission bits |
| LsLong.RepeatedRwx | internal/ls/ls.go:92 | the nine letters are "rwx" three times |
| LsLong.PermString | internal/ls/ls.go:92-97 | `Perm().String()` with its first character replaced by 'd' or '-'; stated by PermStringShape and PermStringInverse |
| LsLong.NameOrId | internal/ls/ls.go:100-113 | the owner or group field is the database's name for the decimal id when it has one, and the id itself otherwise |
| LsLong.FallbackIsId | internal/ls/ls.go:104-113 | when the lookup fails, the field is all digits and reads back as the id |
| LsLong.Layout | internal/ls/ls.go:117-120 | the year layout is used exactly when the file is more than 6*30*24 hours old, and the time-of-day layout otherwise |
| LsLong.LayoutBoundary | internal/ls/ls.go:118 | an age of exactly 4320 hours, and a future time, keep the time-of-day layout; in the integer-nanosecond model one nanosecond more switches (see the LsLong.Layout line under "Left out") |
| LsLong.ErrorLine | internal/ls/ls.go:84 | "ls: error reading file info for ", the name, ": ", the error text and a newline |
| LsLong.DetailFormat | internal/ls/ls.go:123-131 | the format "%s %d %s %s %4d %s %s\n" of its seven fields |
| LsLong.DetailLine | internal/ls/ls.go:80-132 | the error line when `Info()` fails, otherwise the format of permissions, link count, owner, group, size, time and icon name; stated by DetailLineStart, DetailLineEnd, SizeField and FailedEntryLine |
| LsLong.LeadingSplit | internal/ls/ls.go:123 | the first two space-separated fields of a line are found at their offsets |
| LsLong.TrailingSplit | internal/ls/ls.go:123 | the last field of a line is found before its newline |
| LsLong.DetailLineStart | internal/ls/ls.go:123-125 | a detail line starts with the ten-character permission field and the decimal link count, each followed by a space |
| LsLong.DetailLineEnd | internal/ls/ls.go:123-131 | a detail line ends with a space, the icon name and a newline |
| LsLong.SizeField | internal/ls/ls.go:123-128 | the size is right-aligned in four columns and never truncated |
| LsLong.FailedEntryLine | internal/ls/ls.go:82-86 | an entry whose `Info()` fails prints only its error line, whatever the databases, clock and icons |
| LsLong.LinesAppend | internal/ls/ls.go:51-53 | each entry contributes its own line independently of the others |
| LsLong.LinesSingle | internal/ls/ls.go:51-53 | one entry's lines are its own line |
| LsLong.LinesStep | internal/ls/ls.go:51-53 | the lines of a prefix one longer add the next entry's line |
| LsLong.PrintLong | internal/ls/ls.go:47-53 | the long listing is the total line followed by each entry's detail line, in order |
| LsColumns.EffectiveWidth | internal/ls/ls.go:137-140 | the width is the terminal's when known and at least 20, and 80 otherwise |
| LsColumns.WidthExamples | internal/ls/ls.go:137-140 | no terminal and width 15 both give 80; 20 and 132 are kept |
| LsColumns.Names | internal/ls/ls.go:145-147 | the names collected are the icon names of the entries, in order |
| LsColumns.MaxByteLenIsMax | internal/ls/ls.go:142-151 | maxLen bounds every name's byte length and is attained (0 for no names) |
| LsColumns.MaxByteLenStep | internal/ls/ls.go:148-150 | a further name raises the maximum exactly when it is longer |
| LsColumns.NamesStep | internal/ls/ls.go:145-147 | collecting one more entry appends its icon name |
| LsColumns.CollectNames | internal/ls/ls.go:142-151 | the first loop yields the icon names and their largest byte length |
| LsColumns.ColCount | internal/ls/ls.go:153-157 | width / colWidth, raised to 1 when zero; stated by ColCountBounds |
| LsColumns.ColCountBounds | internal/ls/ls.go:153-157 | at least one column; the columns fit the width unless only one is used; one more would not fit |
| LsColumns.ColumnExamples | internal/ls/ls.go:137-157 | 10-byte names give 6 columns on 80 and on an unusable width of 15; 30-byte names give one column on 20 |
| LsColumns.PrintGrid | internal/ls/ls.go:160-166 | the second loop prints each name padded to colWidth, with a newline after every cols-th name and after the last |
| LsColumns.PrintMultiColumn | internal/ls/ls.go:135-167 | the output is the grid of the icon names, with column width maxLen + 2 and the column count fitted to the width |
| LsColumns.Grid | internal/ls/ls.go:160-166 | what the second loop writes: each name padded, followed by a newline after every cols-th name and after the last; stated by GridIsRows and RowCount |
| LsColumns.Rows | internal/ls/ls.go:160-166 | the reference layout: each row of RowNames padded and followed by a newline |
| LsColumns.RowNamesConcat | internal/ls/ls.go:160-166 | the rows laid end to end give back the names, in order |
| LsColumns.RowNamesSizes | internal/ls/ls.go:163 | every row holds between one and cols names, and every row but the last exactly cols |
| LsColumns.RowNamesCount | internal/ls/ls.go:163 | there are ceil(n / cols) rows |
| LsColumns.LastRowSize | internal/ls/ls.go:163 | the last row holds n % cols names, or cols when cols divides n |
| LsColumns.RowsFirstRest | internal/ls/ls.go:160-166 | with more names than columns, the reference layout is the first row, a newline, and the layout of the rest |
| LsColumns.CellsSplit | internal/ls/ls.go:160-166 | the cells of a range are those of its two halves |
| LsColumns.CellsShift | internal/ls/ls.go:163 | dropping the first row's cols names keeps every later break in place |
| LsColumns.CellsRow | internal/ls/ls.go:163 | cells before the first break are one unbroken row |
| LsColumns.FirstRow | internal/ls/ls.go:163 | the first cols cells, or all of them when fewer, are one row and a newline |
| LsColumns.GridFirstRest | internal/ls/ls.go:160-166 | with more names than columns, the output is the first row, a newline, and the layout of the rest |
| LsColumns.GridIsRows | internal/ls/ls.go:160-166 | the loop's output equals the reference layout: rows of cols names, the last possibly shorter, each ending in a newline |
| LsColumns.CellNewlines | internal/ls/ls.go:161-165 | a cell holds a newline exactly when a row break follows it |
| LsColumns.BreakCount | internal/ls/ls.go:163 | a count of breaks among the first h cells is at most h |
| LsColumns.CellsNewlines | internal/ls/ls.go:160-166 | the newlines among the first h cells are exactly their row breaks |
| LsColumns.BreakCountBefore | internal/ls/ls.go:163 | before the last name, a break follows every cols-th name |
| LsColumns.BreakCountAll | internal/ls/ls.go:163 | n names have ceil(n / cols) breaks, since the last name always ends its row |
| LsColumns.RowCount | internal/ls/ls.go:160-166 | names free of newlines print exactly ceil(n / cols) lines |
| LsColumns.CellWidth | internal/ls/ls.go:153-161 | every padded cell is exactly colWidth long, starts with the name, and ends in at least two spaces |
| LsRun.SortedCopy | internal/ls/ls.go:42-44 | sorting the slice in place yields the reference sort of the entries |
| LsRun.AccessError | internal/ls/ls.go:37 | "ls: cannot access '", the directory, "': ", the error and a newline |
| LsRun.Listing | internal/ls/ls.go:46-57 | what Run prints for the sorted entries: the total and detail lines with -l, the column grid otherwise |
| LsRun.Run | internal/ls/ls.go:33-57 | an unreadable directory prints only "ls: cannot access" to standard error; otherwise the entries are sorted by name and listed long or in columns |
| LsRun.PrintListing | internal/ls/ls.go:46-57 | the branch on -l prints the long listing or the multi-column one of the sorted entries |
| LsRun.TotalIgnoresOrder | internal/ls/ls.go:42-49 | the total line of the sorted listing is that of the entries in directory order |
| LsRun.ListingOfSorted | internal/ls/ls.go:42-57 | listing entries already in order prints the same as listing them sorted |
| LsRun.LongListingExtends | internal/ls/ls.go:47-53 | the long listing of s + [e] is the total line over all of s + [e], then the detail lines of s, then e's detail line |
| LsRun.EmptyListing | internal/ls/ls.go:47-57 | an empty directory prints nothing in the column format, not even a newline, and only "total 0" in the long format |
| Cat.BorderShape | internal/cat/cat.go:80-85 | each border is width characters and a newline, with its junction in column 8 and the rule elsewhere |
| Cat.RepeatAll | internal/cat/cat.go:81 | every character of a repeated one-character string is that character |
| Cat.Border | internal/cat/cat.go:81 | seven rule characters, the junction, width - 8 more rule characters, a newline; stated by BorderShape |
| Cat.Header | internal/cat/cat.go:80-85 | the top border, seven spaces, "│ File: ", the name, a newline, and the middle border |
| Cat.Footer | internal/cat/cat.go:109-111 | the bottom border, with its '┴' junction |
| Cat.Prefix | internal/cat/cat.go:94 | `%6d │ ` of the line number; stated by PrefixShape |
| Cat.BreakAt | internal/cat/cat.go:97 | the wrap test: the byte offset of rune j is a non-zero multiple of width - 9 |
| Cat.PrefixShape | internal/cat/cat.go:94-99 | a line number below a million gives a nine-character prefix, as long as the continuation prefix, with the digits right-aligned and read back |
| Cat.PrintFromReader | internal/cat/cat.go:75-118 | with -n: header, numbered lines and footer on standard output, and the wrapped text on standard error; without it, each line and a newline on standard output |
| Cat.PrintNumbered | internal/cat/cat.go:88-107 | the -n loop writes each line's prefix and continuations, numbered from 1, and accumulates the wrapped text |
| Cat.PrintNumberedLine | internal/cat/cat.go:94-104 | one numbered line: the prefix, a continuation prefix per break, the newline; the runes with a newline at each break on standard error |
| Cat.PrintPlain | internal/cat/cat.go:113-117 | plain mode writes each line followed by a newline |
| Cat.RuneStep | internal/cat/cat.go:96-101 | one more rune advances the byte offset by its UTF-8 length and adds a break exactly when the offset is a non-zero multiple |
| Cat.DropNewlinesAppend | internal/cat/cat.go:96-101 | removing newlines distributes over concatenation |
| Cat.DropStep | internal/cat/cat.go:96-101 | one printed rune, after an optional break, adds just that rune once newlines are removed |
| Cat.ErrTextRestores | internal/cat/cat.go:96-101 | the wrapped text with its break newlines removed is the line itself |
| Cat.ErrTextNewlines | internal/cat/cat.go:96-101 | the wrapped text holds one newline per break, matching the continuation prefixes on standard output |
| Cat.AsciiBreaks | internal/cat/cat.go:96-97 | for width > 9, an ASCII line of j characters breaks (j - 1) / (width - 9) times |
| Cat.AsciiOffset | internal/cat/cat.go:96 | on ASCII text the byte offset equals the rune index |
| Cat.StraddlingRune | internal/cat/cat.go:96-97 | "aéb" with modulus 2 does not break at all, because the offsets are 0, 1 and 3 |
| Cat.NumberedStep | internal/cat/cat.go:91-107 | one more scanned line appends its own numbered output and wrapped text |
| Cat.NumberedPrefix | internal/cat/cat.go:91-107 | the output for a prefix one longer adds line n numbered n + 1 |
| Cat.PlainOutAppend | internal/cat/cat.go:113-117 | one more line appends it and a newline |
| Cat.NewlineIndex | internal/cat/cat.go:113-117 | the index of the first newline, or the length when there is none |
| Cat.NewlineAfter | internal/cat/cat.go:113-117 | the first newline of a line and its terminator is the terminator |
| Cat.SplitPlainOut | internal/cat/cat.go:113-117 | splitting the plain output at its newlines gives back the scanned lines |
| Cat.PlainOutInjective | internal/cat/cat.go:113-117 | different inputs give different plain output |
| Cat.PlainOutNewlines | internal/cat/cat.go:113-117 | the plain output holds one newline per line |

## Left out

- Flag parsing, the choice of directory and `os.ReadDir` (internal/ls/ls.go:19-34): the entries, or the error text, are a parameter of `Run`.
- `term.GetSize` in ls (internal/ls/ls.go:137): the width is a parameter, and `None` means the size is not available.
- `term.GetSize` in cat (internal/cat/cat.go:24): the width is a plain integer parameter of `Cat.PrintFromReader`.
- `user.LookupId` and `user.LookupGroupId`: they are maps from the decimal id to the name.
- `time.Since`, `time.Format` and the clock: the current time is a parameter, in nanoseconds. Formatting is a function parameter applied to the layout the code chooses.
- LsLong.Layout: compares the age in integer nanoseconds; the floating-point rounding of `Duration.Hours()` is not modelled. In Go, 4320 hours and one nanosecond still reads as 4320.0 hours, so the year layout only appears from two nanoseconds on.
- LsLong.DetailLine: takes one fixed current time for the whole listing, while `time.Since` (internal/ls/ls.go:118) reads the clock again for each entry.
- LsLong.PrintTotalBlocks: each entry has a single `Info()` result, shared with LsLong.DetailLine. The code calls `entry.Info()` twice per entry (internal/ls/ls.go:66 and 82), so between the calls the total and a detail line could disagree, or one call could fail while the other succeeds.
- Icons.Lower: folds ASCII letters only, where `strings.ToLower` folds all of Unicode.
- Integer widths: `int64` sizes, block counts and link counts are unbounded integers, with no overflow.
- Names and cat's scanned lines are sequences of Unicode scalar values, so strings that are not valid UTF-8 are not modelled. On an invalid byte, `range` (internal/cat/cat.go:96) yields U+FFFD and advances one byte, and printing that rune writes three bytes, so `Cat.ErrTextRestores` says nothing about such input.
- LsRun.Run: requires distinct names, which `os.ReadDir` guarantees. `sort.Slice` is not stable, so for equal names the order would not be determined.
- Cat.PrintFromReader: requires a width of at least 8 with -n, because `strings.Repeat` panics on a negative count. It also requires a width other than 9 for any non-empty line, because the modulus would be zero. The panics themselves are not modelled.
- Cat.BreakAt: guards against a zero modulus only so that the predicate is defined everywhere; no call reaches that case.
- Cat.PrintFromReader: returns standard output and standard error as two strings, so the order in which they interleave on a terminal is not modelled.
- `bufio.Scanner` (internal/cat/cat.go:77): the scanned lines are a parameter. Its line splitting, its token-size limit and the read error reported at internal/cat/cat.go:120-123 are not modelled.
- cat's `Run` and `printFile` (internal/cat/cat.go:21-71): opening files and the loop over them are not modelled. `reader.Name()` is the `name` parameter. Nor is the early return when the size probe fails (internal/cat/cat.go:24-29): `Run` then prints only "cat: error getting terminal size: …" to standard error and prints nothing else, even without -n.
- The echo tool and the `cmd/` entry points are not part of this model.
