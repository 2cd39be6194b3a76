/** Value helpers shared by the ls and cat models: failure datatypes, UTF-8
    byte lengths, Go's decimal rendering of integers (fmt "%d") and fmt's
    space padding ("%4d", "%6d", "%-*s"). */
module Text {

  datatype Option<T> = None | Some(value: T)

  datatype Result<T, E> = Ok(value: T) | Err(error: E)

  // ---------------------------------------------------------------------
  // UTF-8 lengths. Go's len(s) counts bytes; Dafny strings count scalars.
  // ---------------------------------------------------------------------

  /** Number of bytes in the UTF-8 encoding of one Unicode scalar value. */
  function Utf8Len(c: char): (n: nat)
    ensures 1 <= n <= 4
    ensures n == 1 <==> c as int < 0x80
  {
    if c as int < 0x80 then 1
    else if c as int < 0x800 then 2
    else if c as int < 0x1_0000 then 3
    else 4
  }

  /** Go's len(s): the UTF-8 byte length of a string. */
  function ByteLen(s: string): nat
  {
    if s == [] then 0 else ByteLen(s[..|s| - 1]) + Utf8Len(s[|s| - 1])
  }

  predicate IsAscii(s: string)
  {
    forall k :: 0 <= k < |s| ==> s[k] as int < 0x80
  }

  lemma {:induction false} ByteLenAppend(s: string, t: string)
    ensures ByteLen(s + t) == ByteLen(s) + ByteLen(t)
    decreases |t|
  {
    if t == [] {
      assert s + t == s;
    } else {
      var t' := t[..|t| - 1];
      assert (s + t)[..|s + t| - 1] == s + t';
      ByteLenAppend(s, t');
    }
  }

  /** A string takes at least one byte per scalar and at most four, and
      exactly one per scalar precisely when it is ASCII. */
  lemma {:induction false} ByteLenBounds(s: string)
    ensures |s| <= ByteLen(s) <= 4 * |s|
    ensures ByteLen(s) == |s| <==> IsAscii(s)
  {
    if s != [] {
      var s' := s[..|s| - 1];
      ByteLenBounds(s');
      if IsAscii(s) {
        assert IsAscii(s') by {
          forall k | 0 <= k < |s'| ensures s'[k] as int < 0x80 { assert s'[k] == s[k]; }
        }
      }
      if ByteLen(s) == |s| {
        forall k | 0 <= k < |s| ensures s[k] as int < 0x80 {
          if k < |s| - 1 { assert s[k] == s'[k]; }
        }
      }
    }
  }

  // ---------------------------------------------------------------------
  // Decimal rendering, as fmt.Sprint / "%d" writes integers.
  // ---------------------------------------------------------------------

  predicate IsDigit(c: char) { '0' <= c <= '9' }

  function DigitChar(d: nat): (c: char)
    requires d < 10
    ensures IsDigit(c) && c as int - '0' as int == d
  {
    (d + '0' as int) as char
  }

  /** The decimal digits of n, most significant first, without leading zeros. */
  function NatToString(n: nat): (s: string)
    ensures |s| >= 1
    ensures forall k :: 0 <= k < |s| ==> IsDigit(s[k])
    ensures |s| > 1 ==> s[0] != '0'
  {
    if n < 10 then [DigitChar(n)] else NatToString(n / 10) + [DigitChar(n % 10)]
  }

  function Pow10(d: nat): (p: nat)
    ensures p >= 1
  {
    if d == 0 then 1 else 10 * Pow10(d - 1)
  }

  /** A number below 10^d has at most d digits. */
  lemma {:induction false} NatDigitsBound(n: nat, d: nat)
    requires d >= 1 && n < Pow10(d)
    ensures |NatToString(n)| <= d
  {
    if n >= 10 {
      assert Pow10(d) == 10 * Pow10(d - 1);
      assert d >= 2;
      assert n / 10 < Pow10(d - 1);
      NatDigitsBound(n / 10, d - 1);
    }
  }

  /** Reads a string of decimal digits back as a number (the inverse of NatToString). */
  function ParseNat(s: string): nat
    requires forall k :: 0 <= k < |s| ==> IsDigit(s[k])
  {
    if s == [] then 0
    else
      assert IsDigit(s[|s| - 1]);
      10 * ParseNat(s[..|s| - 1]) + (s[|s| - 1] as int - '0' as int)
  }

  lemma {:induction false} ParseNatToString(n: nat)
    ensures ParseNat(NatToString(n)) == n
  {
    if n >= 10 {
      var s := NatToString(n);
      assert s[..|s| - 1] == NatToString(n / 10);
      ParseNatToString(n / 10);
    }
  }

  /** Distinct numbers have distinct decimal renderings. */
  lemma NatToStringInjective(m: nat, n: nat)
    requires NatToString(m) == NatToString(n)
    ensures m == n
  {
    ParseNatToString(m);
    ParseNatToString(n);
  }

  /** Go's decimal rendering of a signed integer: a '-' exactly for a
      negative number, then the digits of its magnitude. */
  function IntToString(i: int): (s: string)
    ensures |s| >= 1 && (s[0] == '-' <==> i < 0)
  {
    if i < 0 then "-" + NatToString(-i) else NatToString(i)
  }

  /** The rendering reads back: after the sign, digits only, whose value
      is the magnitude. */
  lemma IntToStringReadsBack(i: int)
    ensures var s := IntToString(i);
            && (i < 0 ==> (forall k :: 1 <= k < |s| ==> IsDigit(s[k])) && ParseNat(s[1..]) == -i)
            && (i >= 0 ==> (forall k :: 0 <= k < |s| ==> IsDigit(s[k])) && ParseNat(s) == i)
  {
    if i < 0 {
      assert IntToString(i)[1..] == NatToString(-i);
      ParseNatToString(-i);
    } else {
      ParseNatToString(i);
    }
  }

  // ---------------------------------------------------------------------
  // Padding. fmt pads to a count of runes (Unicode scalars).
  // ---------------------------------------------------------------------

  function Spaces(n: nat): (s: string)
    ensures |s| == n && forall k :: 0 <= k < n ==> s[k] == ' '
  {
    seq(n, _ => ' ')
  }

  /** fmt's "%*s": right-align s in a field of w runes; never truncates. */
  function PadLeft(s: string, w: nat): (r: string)
    ensures |r| == if |s| < w then w else |s|
    ensures r[|r| - |s|..] == s
    ensures forall k :: 0 <= k < |r| - |s| ==> r[k] == ' '
  {
    if |s| < w then Spaces(w - |s|) + s else s
  }

  /** fmt's "%-*s": left-align s in a field of w runes; never truncates. */
  function PadRight(s: string, w: nat): (r: string)
    ensures |r| == if |s| < w then w else |s|
    ensures r[..|s|] == s
    ensures forall k :: |s| <= k < |r| ==> r[k] == ' '
  {
    if |s| < w then s + Spaces(w - |s|) else s
  }

  /** strings.Repeat(s, n). */
  function Repeat(s: string, n: nat): (r: string)
    ensures |r| == n * |s|
  {
    if n == 0 then "" else Repeat(s, n - 1) + s
  }

  /** Number of occurrences of c in s. */
  function Count(s: string, c: char): nat
  {
    if s == [] then 0 else Count(s[..|s| - 1], c) + (if s[|s| - 1] == c then 1 else 0)
  }

  lemma {:induction false} CountAppend(s: string, t: string, c: char)
    ensures Count(s + t, c) == Count(s, c) + Count(t, c)
    decreases |t|
  {
    if t == [] {
      assert s + t == s;
    } else {
      var t' := t[..|t| - 1];
      assert (s + t)[..|s + t| - 1] == s + t';
      CountAppend(s, t', c);
    }
  }

  /** A character is absent exactly when it occurs zero times. */
  lemma {:induction false} CountZeroIff(s: string, c: char)
    ensures Count(s, c) == 0 <==> c !in s
  {
    if s != [] {
      var s' := s[..|s| - 1];
      CountZeroIff(s', c);
      assert s == s' + [s[|s| - 1]];
      assert c in s <==> c in s' || c == s[|s| - 1];
    }
  }

  lemma {:induction false} CountAbsent(s: string, c: char)
    requires forall k :: 0 <= k < |s| ==> s[k] != c
    ensures Count(s, c) == 0
  {
    if s != [] {
      CountAbsent(s[..|s| - 1], c);
    }
  }

  // ---------------------------------------------------------------------
  // Division by a positive number (Dafny's / and % here agree with Go's,
  // the dividends being nonnegative).
  // ---------------------------------------------------------------------

  /** Quotient and remainder are the unique q, r with x == q * c + r, r < c. */
  lemma DivModUnique(x: nat, c: nat, q: nat, r: nat)
    requires c >= 1 && x == q * c + r && r < c
    ensures x / c == q && x % c == r
  {
    var q', r' := x / c, x % c;
    assert q' * c + r' == q * c + r;
    if q' < q {
      assert (q - q') * c == q * c - q' * c;
      MulAtLeast(q - q', c);
    } else if q' > q {
      assert (q' - q) * c == q' * c - q * c;
      MulAtLeast(q' - q, c);
    }
  }

  lemma MulAtLeast(a: nat, c: nat)
    requires a >= 1
    ensures a * c >= c
  {
    assert a * c == (a - 1) * c + c;
  }

  lemma ModShift(x: nat, c: nat)
    requires c >= 1
    ensures (c + x) % c == x % c
  {
    var q, r := x / c, x % c;
    assert c + x == (q + 1) * c + r;
    DivModUnique(c + x, c, q + 1, r);
  }

  lemma DivShift(x: nat, c: nat)
    requires c >= 1
    ensures (x + c) / c == x / c + 1
  {
    DivModUnique(x + c, c, x / c + 1, x % c);
  }

  /** n / c grows by one exactly at the multiples of c. */
  lemma MultipleStep(n: nat, c: nat)
    requires n >= 1 && c >= 1
    ensures n / c == (n - 1) / c + (if n % c == 0 then 1 else 0)
  {
    var q, r := (n - 1) / c, (n - 1) % c;
    assert n - 1 == q * c + r;
    if r == c - 1 {
      assert n == (q + 1) * c + 0;
      DivModUnique(n, c, q + 1, 0);
    } else {
      assert n == q * c + (r + 1);
      DivModUnique(n, c, q, r + 1);
    }
  }
}
