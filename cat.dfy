/** printFromReader of cat: the lines of one input, either as they are or,
    with -n, between a header and a footer drawn to the terminal width,
    numbered, and soft-wrapped at byte offsets that are multiples of
    width - 9. The rune text and the wrap newlines go through Go's builtin
    print and println, which write to standard error; everything else goes
    through fmt to standard output. The model returns the two streams. */
module Cat {
  import opened Text

  // ---------------------------------------------------------------------
  // Header, footer and line prefixes.
  // ---------------------------------------------------------------------

  const Rule: string := "─"

  /** Seven rule characters, a junction, width - 8 more, a newline. */
  function Border(junction: char, width: int): string
    requires width >= 8
  {
    Repeat(Rule, 7) + [junction] + Repeat(Rule, width - 8) + "\n"
  }

  function Header(name: string, width: int): string
    requires width >= 8
  {
    Border('┬', width) + Repeat(" ", 7) + "│ File: " + name + "\n" + Border('┼', width)
  }

  function Footer(width: int): string
    requires width >= 8
  {
    Border('┴', width)
  }

  /** Each border is exactly the terminal width, plus its newline, with
      the junction in column 8, under the bar of the line prefixes. */
  lemma BorderShape(junction: char, width: int)
    requires width >= 8
    ensures |Border(junction, width)| == width + 1
    ensures Border(junction, width)[7] == junction
    ensures Border(junction, width)[width] == '\n'
    ensures forall k :: 0 <= k < width && k != 7 ==> Border(junction, width)[k] == '─'
  {
    var b := Border(junction, width);
    RepeatAll(Rule, 7);
    RepeatAll(Rule, width - 8);
    forall k | 0 <= k < width && k != 7 ensures b[k] == '─' {
      if k < 7 {
        assert b[k] == Repeat(Rule, 7)[k];
      } else {
        assert b[k] == Repeat(Rule, width - 8)[k - 8];
      }
    }
  }

  /** Every character of Repeat([c], n) is c. */
  lemma {:induction false} RepeatAll(s: string, n: nat)
    requires |s| == 1
    ensures forall k :: 0 <= k < |Repeat(s, n)| ==> Repeat(s, n)[k] == s[0]
  {
    if n > 0 {
      RepeatAll(s, n - 1);
    }
  }

  /** "%6d │ " of the line number. */
  function Prefix(k: nat): string
  {
    PadLeft(NatToString(k), 6) + " │ "
  }

  /** The marker that starts a continuation row. */
  const Continuation: string := "       │ "

  /** Line numbers below a million take six columns, so every prefix and
      continuation marker puts the bar in the same column; the number can
      be read back from the prefix. */
  lemma PrefixShape(k: nat)
    requires k < 1_000_000
    ensures |Prefix(k)| == |Continuation| == 9
    ensures Prefix(k)[6..] == Continuation[6..] == " │ "
    ensures Prefix(k)[6 - |NatToString(k)|..6] == NatToString(k)
    ensures ParseNat(Prefix(k)[6 - |NatToString(k)|..6]) == k
  {
    NatDigitsBound(k, 6);
    ParseNatToString(k);
    var p := PadLeft(NatToString(k), 6);
    assert Prefix(k) == p + " │ ";
    assert Prefix(k)[..6] == p;
  }

  // ---------------------------------------------------------------------
  // The wrap rule.
  // ---------------------------------------------------------------------

  /** A break goes before rune j of the line when its starting byte offset
      i satisfies i % m == 0 and i != 0, where m is width - 9. For i >= 0,
      Go's truncated % and Dafny's Euclidean % agree, whatever the sign of m.
      The code cannot reach m == 0 with a rune to place (CanRender); the
      guard only makes the predicate total. */
  predicate BreakAt(line: string, j: nat, m: int)
    requires j <= |line|
  {
    var i := ByteLen(line[..j]);
    m != 0 && i % m == 0 && i != 0
  }

  /** The number of breaks before runes 0 .. j-1. */
  function Breaks(line: string, j: nat, m: int): nat
    requires j <= |line|
  {
    if j == 0 then 0 else Breaks(line, j - 1, m) + (if BreakAt(line, j - 1, m) then 1 else 0)
  }

  /** What runes 0 .. j-1 write to standard error: each rune, preceded by
      a newline when a break goes before it. */
  function ErrText(line: string, j: nat, m: int): string
    requires j <= |line|
  {
    if j == 0 then ""
    else ErrText(line, j - 1, m) + (if BreakAt(line, j - 1, m) then "\n" else "") + [line[j - 1]]
  }

  /** What the k-th line writes to standard output: its prefix, one
      continuation marker per break, and the newline ending the row. */
  function OutText(line: string, k: nat, m: int): string
  {
    Prefix(k) + Repeat(Continuation, Breaks(line, |line|, m)) + "\n"
  }

  /** Standard output of the numbered lines, the first numbered 1. */
  function NumberedOut(lines: seq<string>, m: int): string
  {
    if lines == [] then ""
    else NumberedOut(lines[..|lines| - 1], m) + OutText(lines[|lines| - 1], |lines|, m)
  }

  /** Standard error of the numbered lines. */
  function NumberedErr(lines: seq<string>, m: int): string
  {
    if lines == [] then ""
    else NumberedErr(lines[..|lines| - 1], m) + ErrText(lines[|lines| - 1], |lines[|lines| - 1]|, m)
  }

  /** Plain mode: each line and a newline. */
  function PlainOut(lines: seq<string>): string
  {
    if lines == [] then "" else lines[0] + "\n" + PlainOut(lines[1..])
  }

  // ---------------------------------------------------------------------
  // printFromReader.
  // ---------------------------------------------------------------------

  /** The precondition the code needs: with -n, a width of at least 8
      (strings.Repeat panics on a negative count) and, for any non-empty
      line, a width other than 9 (the modulus would be zero). */
  predicate CanRender(lines: seq<string>, numbered: bool, width: int)
  {
    numbered ==> width >= 8 && (width == 9 ==> forall k :: 0 <= k < |lines| ==> lines[k] == [])
  }

  /** printFromReader for the input called name, whose scanner yields
      lines, on a terminal width columns wide. Returns standard output and
      standard error. */
  method PrintFromReader(name: string, lines: seq<string>, numbered: bool, width: int)
    returns (stdout: string, stderr: string)
    requires CanRender(lines, numbered, width)
    ensures numbered ==>
              stdout == Header(name, width) + NumberedOut(lines, width - 9) + Footer(width)
              && stderr == NumberedErr(lines, width - 9)
    ensures !numbered ==> stdout == PlainOut(lines) && stderr == ""
  {
    if numbered {
      var body;
      body, stderr := PrintNumbered(lines, width);
      stdout := Header(name, width) + body + Footer(width);
    } else {
      stdout := PrintPlain(lines);
      stderr := "";
    }
  }

  /** The -n loop over the scanned lines, counting from 1. */
  method PrintNumbered(lines: seq<string>, width: int) returns (out: string, err: string)
    requires forall k :: 0 <= k < |lines| ==> lines[k] == [] || width != 9
    ensures out == NumberedOut(lines, width - 9)
    ensures err == NumberedErr(lines, width - 9)
  {
    out, err := "", "";
    var lineCounter := 1;
    var n := 0;
    while n < |lines|
      invariant 0 <= n <= |lines| && lineCounter == n + 1
      invariant out == NumberedOut(lines[..n], width - 9)
      invariant err == NumberedErr(lines[..n], width - 9)
    {
      var o, e := PrintNumberedLine(lines[n], lineCounter, width);
      NumberedPrefix(lines, n, width - 9);
      out := out + o;
      err := err + e;
      lineCounter := lineCounter + 1;
      n := n + 1;
    }
    assert lines[..n] == lines;
  }

  /** The loop without -n. */
  method PrintPlain(lines: seq<string>) returns (out: string)
    ensures out == PlainOut(lines)
  {
    out := "";
    var n := 0;
    while n < |lines|
      invariant 0 <= n <= |lines|
      invariant out == PlainOut(lines[..n])
    {
      PlainOutAppend(lines[..n], lines[n]);
      assert lines[..n + 1] == lines[..n] + [lines[n]];
      out := out + lines[n] + "\n";
      n := n + 1;
    }
    assert lines[..n] == lines;
  }

  /** One numbered line: the prefix, then the runes with their byte
      offsets, a break and a continuation marker before each rune the wrap
      rule selects, then the newline. */
  method PrintNumberedLine(line: string, lineCounter: nat, width: int) returns (out: string, err: string)
    requires line == [] || width != 9
    ensures out == OutText(line, lineCounter, width - 9)
    ensures err == ErrText(line, |line|, width - 9)
  {
    out := Prefix(lineCounter);
    err := "";
    var i := 0;
    var j := 0;
    while j < |line|
      invariant 0 <= j <= |line| && i == ByteLen(line[..j])
      invariant out == Prefix(lineCounter) + Repeat(Continuation, Breaks(line, j, width - 9))
      invariant err == ErrText(line, j, width - 9)
    {
      var t := line[j];
      RuneStep(line, j, width - 9);
      if i % (width - 9) == 0 && i != 0 {
        err := err + "\n";
        out := out + Continuation;
      }
      err := err + [t];
      i := i + Utf8Len(t);
      j := j + 1;
    }
    out := out + "\n";
  }

  /** Rune j advances the byte offset by its length and adds at most one
      break. */
  lemma RuneStep(line: string, j: nat, m: int)
    requires j < |line|
    ensures ByteLen(line[..j + 1]) == ByteLen(line[..j]) + Utf8Len(line[j])
    ensures BreakAt(line, j, m) ==> ErrText(line, j + 1, m) == ErrText(line, j, m) + "\n" + [line[j]]
    ensures !BreakAt(line, j, m) ==> ErrText(line, j + 1, m) == ErrText(line, j, m) + [line[j]]
    ensures Repeat(Continuation, Breaks(line, j + 1, m))
            == Repeat(Continuation, Breaks(line, j, m)) + (if BreakAt(line, j, m) then Continuation else "")
  {
    assert line[..j + 1][..j] == line[..j];
  }

  // ---------------------------------------------------------------------
  // Properties.
  // ---------------------------------------------------------------------

  /** Deleting the inserted newlines from a line's standard error text
      gives the line back: wrapping adds breaks and loses nothing. */
  function DropNewlines(s: string): string
  {
    if s == [] then ""
    else DropNewlines(s[..|s| - 1]) + (if s[|s| - 1] == '\n' then "" else [s[|s| - 1]])
  }

  lemma {:induction false} DropNewlinesAppend(s: string, t: string)
    ensures DropNewlines(s + t) == DropNewlines(s) + DropNewlines(t)
    decreases |t|
  {
    if t == [] {
      assert s + t == s;
    } else {
      var t' := t[..|t| - 1];
      assert (s + t)[..|s + t| - 1] == s + t';
      DropNewlinesAppend(s, t');
    }
  }

  lemma DropNewlinesOne(c: char)
    ensures DropNewlines([c]) == if c == '\n' then "" else [c]
  {
    assert [c][..0] == [];
  }

  /** Dropping newlines from a possible break and a rune keeps the rune. */
  lemma DropStep(prev: string, brk: string, c: char)
    requires (brk == "" || brk == "\n") && c != '\n'
    ensures DropNewlines(prev + brk + [c]) == DropNewlines(prev) + [c]
  {
    DropNewlinesOne(c);
    DropNewlinesOne('\n');
    DropNewlinesAppend(prev, brk);
    DropNewlinesAppend(prev + brk, [c]);
  }

  lemma {:induction false} ErrTextRestores(line: string, j: nat, m: int)
    requires j <= |line|
    requires forall k :: 0 <= k < |line| ==> line[k] != '\n'
    ensures DropNewlines(ErrText(line, j, m)) == line[..j]
  {
    if j > 0 {
      ErrTextRestores(line, j - 1, m);
      DropStep(ErrText(line, j - 1, m), if BreakAt(line, j - 1, m) then "\n" else "", line[j - 1]);
      assert line[..j - 1] + [line[j - 1]] == line[..j];
    }
  }

  /** The newlines written to standard error for a line are exactly its
      breaks, one per continuation marker on standard output. */
  lemma {:induction false} ErrTextNewlines(line: string, j: nat, m: int)
    requires j <= |line|
    requires forall k :: 0 <= k < |line| ==> line[k] != '\n'
    ensures Count(ErrText(line, j, m), '\n') == Breaks(line, j, m)
  {
    if j > 0 {
      ErrTextNewlines(line, j - 1, m);
      var brk: string := if BreakAt(line, j - 1, m) then "\n" else "";
      CountAppend(ErrText(line, j - 1, m), brk, '\n');
      CountAppend(ErrText(line, j - 1, m) + brk, [line[j - 1]], '\n');
      assert Count([line[j - 1]], '\n') == 0 by {
        assert [line[j - 1]][..0] == [];
      }
      assert Count("\n", '\n') == 1 by {
        assert "\n"[..0] == [];
      }
    }
  }

  /** For an ASCII line, where byte offsets are rune indexes, a line of L
      characters gets (L - 1) / m breaks when m > 0. */
  lemma {:induction false} AsciiBreaks(line: string, j: nat, m: int)
    requires IsAscii(line) && 1 <= j <= |line| && m > 0
    ensures Breaks(line, j, m) == (j - 1) / m
  {
    AsciiOffset(line, j - 1);
    if j == 1 {
      assert (j - 1) / m == 0;
    } else {
      AsciiBreaks(line, j - 1, m);
      MultipleStep(j - 1, m);
    }
  }

  /** In an ASCII line, the byte offset of rune j is j. */
  lemma AsciiOffset(line: string, j: nat)
    requires IsAscii(line) && j <= |line|
    ensures ByteLen(line[..j]) == j
  {
    assert IsAscii(line[..j]) by {
      forall k | 0 <= k < j ensures line[..j][k] as int < 0x80 {
        assert line[..j][k] == line[k];
      }
    }
    ByteLenBounds(line[..j]);
  }

  /** A rune that straddles a multiple of width - 9 causes no break: with a
      width of 11, "aéb" has runes at byte offsets 0, 1 and 3, and the
      multiple 2 falls inside the two bytes of 'é'. */
  lemma StraddlingRune()
    ensures Breaks("aéb", 3, 2) == 0
    ensures ErrText("aéb", 3, 2) == "aéb"
  {
    var line := "aéb";
    assert line[..1] == "a" && line[..2] == "aé";
    assert ByteLen("a") == 1 by { assert "a"[..0] == []; }
    assert ByteLen("aé") == 3 by { assert "aé"[..1] == "a"; }
    assert ByteLen(line[..0]) == 0;
  }

  /** The numbered output of lines s + [l] extends that of s by the line
      numbered |s| + 1. */
  lemma NumberedStep(s: seq<string>, l: string, m: int)
    ensures NumberedOut(s + [l], m) == NumberedOut(s, m) + OutText(l, |s| + 1, m)
    ensures NumberedErr(s + [l], m) == NumberedErr(s, m) + ErrText(l, |l|, m)
  {
    assert (s + [l])[..|s|] == s;
  }

  /** The same step, for the prefixes of one sequence of lines. */
  lemma NumberedPrefix(lines: seq<string>, n: nat, m: int)
    requires n < |lines|
    ensures NumberedOut(lines[..n + 1], m) == NumberedOut(lines[..n], m) + OutText(lines[n], n + 1, m)
    ensures NumberedErr(lines[..n + 1], m) == NumberedErr(lines[..n], m) + ErrText(lines[n], |lines[n]|, m)
  {
    assert lines[..n + 1] == lines[..n] + [lines[n]];
    NumberedStep(lines[..n], lines[n], m);
  }

  lemma {:induction false} PlainOutAppend(s: seq<string>, l: string)
    ensures PlainOut(s + [l]) == PlainOut(s) + l + "\n"
  {
    if s != [] {
      assert (s + [l])[1..] == s[1..] + [l];
      PlainOutAppend(s[1..], l);
    }
  }

  /** Index of the first newline of s, or |s| when there is none. */
  function NewlineIndex(s: string): (i: nat)
    ensures i <= |s|
    ensures forall k :: 0 <= k < i ==> s[k] != '\n'
    ensures i < |s| ==> s[i] == '\n'
  {
    if s == [] || s[0] == '\n' then 0 else 1 + NewlineIndex(s[1..])
  }

  /** Cuts text into its lines, the pieces between newlines; a last piece
      without a newline is a line too. */
  function SplitLines(s: string): seq<string>
    decreases |s|
  {
    if s == [] then []
    else
      var i := NewlineIndex(s);
      if i == |s| then [s] else [s[..i]] + SplitLines(s[i + 1..])
  }

  /** The first newline of x + "\n" + r is the one after x. */
  lemma NewlineAfter(x: string, r: string)
    requires '\n' !in x
    ensures NewlineIndex(x + "\n" + r) == |x|
  {
    var s := x + "\n" + r;
    assert s[|x|] == '\n';
    assert forall k :: 0 <= k < |x| ==> s[k] == x[k];
  }

  /** Splitting plain output at its newlines gives back the lines. */
  lemma {:induction false} SplitPlainOut(lines: seq<string>)
    requires forall k :: 0 <= k < |lines| ==> '\n' !in lines[k]
    ensures SplitLines(PlainOut(lines)) == lines
  {
    if lines != [] {
      var x, rest := lines[0], PlainOut(lines[1..]);
      var s := x + "\n" + rest;
      assert PlainOut(lines) == s;
      NewlineAfter(x, rest);
      assert s[..|x|] == x && s[|x| + 1..] == rest;
      SplitPlainOut(lines[1..]);
      assert lines == [x] + lines[1..];
    }
  }

  /** Plain output determines the lines: two inputs whose lines hold no
      newline and produce the same output are the same input. */
  lemma PlainOutInjective(a: seq<string>, b: seq<string>)
    requires forall k :: 0 <= k < |a| ==> '\n' !in a[k]
    requires forall k :: 0 <= k < |b| ==> '\n' !in b[k]
    requires PlainOut(a) == PlainOut(b)
    ensures a == b
  {
    SplitPlainOut(a);
    SplitPlainOut(b);
  }

  /** Plain output is the lines in order, each followed by one newline:
      it holds exactly one newline per line. */
  lemma {:induction false} PlainOutNewlines(lines: seq<string>)
    requires forall k :: 0 <= k < |lines| ==> '\n' !in lines[k]
    ensures Count(PlainOut(lines), '\n') == |lines|
  {
    if lines != [] {
      PlainOutNewlines(lines[1..]);
      CountAbsent(lines[0], '\n');
      CountAppend(lines[0], "\n", '\n');
      CountAppend(lines[0] + "\n", PlainOut(lines[1..]), '\n');
      assert Count("\n", '\n') == 1 by {
        assert "\n"[..0] == [];
      }
    }
  }
}
