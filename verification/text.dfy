/** Text primitives behind the C library calls the server makes on its
    NUL-terminated strings: `strstr` and `index` (substring search),
    `strcasecmp` (ASCII case-insensitive equality), the `%d` / `%zu`
    conversions of `sprintf`, and the conversion of a 64-bit `off_t` to a
    32-bit `int`. Strings are `seq<char>`; a C string never holds a NUL, and
    nothing here depends on one. */
module Text {

  datatype Option<+T> = None | Some(value: T)

  /** The line terminator of HTTP/1.0 (section 2.2 of RFC 1945). */
  const CRLF: string := "\r\n"

  // ---------------------------------------------------------------------
  // Substring search
  // ---------------------------------------------------------------------

  /** `pat` occurs in `s` starting at position `i`. */
  ghost predicate OccursAt(s: string, pat: string, i: int)
  {
    0 <= i && i + |pat| <= |s| && s[i..i + |pat|] == pat
  }

  /** `pat` occurs somewhere in `s`. */
  ghost predicate Contains(s: string, pat: string)
  {
    exists i :: OccursAt(s, pat, i)
  }

  /** The first occurrence of `pat` in `s` at or after `from`. */
  function FindFrom(s: string, pat: string, from: nat): (r: Option<nat>)
    ensures r.Some? ==> from <= r.value && OccursAt(s, pat, r.value)
    ensures forall j :: from <= j && (r.None? || j < r.value) ==> !OccursAt(s, pat, j)
    decreases |s| - from
  {
    if from + |pat| > |s| then None
    else if s[from..from + |pat|] == pat then Some(from)
    else FindFrom(s, pat, from + 1)
  }

  /** `strstr(s, pat)` as a position: the first occurrence of `pat`, or
      `None` where the C call returns NULL. `index(s, c)` is `Find(s, [c])`. */
  function Find(s: string, pat: string): (r: Option<nat>)
    ensures r.Some? ==> OccursAt(s, pat, r.value)
    ensures r.Some? ==> forall j :: 0 <= j < r.value ==> !OccursAt(s, pat, j)
    ensures r.None? <==> !Contains(s, pat)
  {
    FindFrom(s, pat, 0)
  }

  /** Some position of `s` holds the character `c`. */
  predicate HasChar(s: string, c: char)
  {
    exists i :: 0 <= i < |s| && s[i] == c
  }

  /** A one-character pattern occurs exactly where that character stands. */
  lemma OccursAtChar(s: string, c: char, i: int)
    ensures OccursAt(s, [c], i) <==> 0 <= i < |s| && s[i] == c
  {
    if 0 <= i < |s| {
      assert s[i..i + 1] == [s[i]];
    }
  }

  /** `s` contains the character `c` exactly when some position holds it. */
  lemma ContainsChar(s: string, c: char)
    ensures Contains(s, [c]) <==> HasChar(s, c)
  {
    if Contains(s, [c]) {
      var i :| OccursAt(s, [c], i);
      OccursAtChar(s, c, i);
    }
    if HasChar(s, c) {
      var i :| 0 <= i < |s| && s[i] == c;
      OccursAtChar(s, c, i);
    }
  }

  /** The first occurrence of a character, as `index(s, c)` finds it. */
  lemma FindCharIsIndex(s: string, c: char)
    ensures Find(s, [c]).Some? <==> HasChar(s, c)
    ensures Find(s, [c]).Some? ==>
      var i := Find(s, [c]).value;
      i < |s| && s[i] == c && forall j :: 0 <= j < i ==> s[j] != c
  {
    ContainsChar(s, c);
    var r := Find(s, [c]);
    if r.Some? {
      OccursAtChar(s, c, r.value);
      forall j | 0 <= j < r.value
        ensures s[j] != c
      {
        OccursAtChar(s, c, j);
      }
    }
  }

  /** A pattern with a character that `s` lacks does not occur in `s`. */
  lemma MissingChar(s: string, pat: string, k: nat)
    requires k < |pat|
    requires forall i :: 0 <= i < |s| ==> s[i] != pat[k]
    ensures !Contains(s, pat)
  {
    forall i
      ensures !OccursAt(s, pat, i)
    {
      if 0 <= i && i + |pat| <= |s| {
        assert s[i..i + |pat|][k] == s[i + k] != pat[k];
      }
    }
  }

  /** An occurrence inside a prefix of `s` is an occurrence in `s`. */
  lemma OccursInPrefix(s: string, n: nat, pat: string, j: int)
    requires n <= |s|
    ensures OccursAt(s[..n], pat, j) ==> OccursAt(s, pat, j)
  {
    if OccursAt(s[..n], pat, j) {
      assert s[j..j + |pat|] == s[..n][j..j + |pat|];
    }
  }

  /** Searching `p + pat + rest` for `pat` stops at the end of `p`, when the
      pattern never straddles into or appears inside `p`. For a line of text
      followed by CRLF this is "the first CRLF ends the line". */
  lemma FindAfter(p: string, pat: string, rest: string)
    requires |pat| > 0
    requires forall j :: 0 <= j < |p| ==> !OccursAt(p + pat, pat, j)
    ensures Find(p + pat + rest, pat) == Some(|p|)
  {
    var s := p + pat + rest;
    assert s[|p|..|p| + |pat|] == pat;
    assert OccursAt(s, pat, |p|);
    var r := Find(s, pat);
    assert r.Some?;
    assert r.value <= |p|;
    if r.value < |p| {
      var j := r.value;
      assert s[j..j + |pat|] == (p + pat)[j..j + |pat|];
      assert OccursAt(p + pat, pat, j);
      assert false;
    }
  }

  /** No occurrence of a single character `c` before the end of `p`. */
  lemma FindCharAfter(p: string, c: char, rest: string)
    requires forall i :: 0 <= i < |p| ==> p[i] != c
    ensures Find(p + [c] + rest, [c]) == Some(|p|)
  {
    forall j | 0 <= j < |p|
      ensures !OccursAt(p + [c], [c], j)
    {
      OccursAtChar(p + [c], c, j);
    }
    FindAfter(p, [c], rest);
  }

  // ---------------------------------------------------------------------
  // strcasecmp
  // ---------------------------------------------------------------------

  /** `tolower` in the C locale: only the ASCII capitals change. */
  function ToLower(c: char): (l: char)
    ensures 'A' <= c <= 'Z' ==> l != c && l as int - c as int == 'a' as int - 'A' as int
    ensures !('A' <= c <= 'Z') ==> l == c
  {
    if 'A' <= c <= 'Z' then (c as int + ('a' as int - 'A' as int)) as char else c
  }

  /** `strcasecmp(a, b) == 0`: equal lengths and equal after `tolower`. */
  predicate EqualsIgnoreCase(a: string, b: string)
  {
    |a| == |b| && forall i :: 0 <= i < |a| ==> ToLower(a[i]) == ToLower(b[i])
  }

  /** The string with every character passed through `tolower`. */
  function Lowered(s: string): (l: string)
    ensures |l| == |s|
  {
    if |s| == 0 then [] else [ToLower(s[0])] + Lowered(s[1..])
  }

  /** Character-wise comparison after `tolower` is comparison of the
      lowered strings: the reference reading of `strcasecmp(a, b) == 0`. */
  lemma {:induction false} CaseFoldEquality(a: string, b: string)
    ensures EqualsIgnoreCase(a, b) <==> Lowered(a) == Lowered(b)
    decreases |a|
  {
    if |a| > 0 && |b| > 0 {
      CaseFoldEquality(a[1..], b[1..]);
      assert Lowered(a)[0] == ToLower(a[0]) && Lowered(b)[0] == ToLower(b[0]);
      assert Lowered(a)[1..] == Lowered(a[1..]) && Lowered(b)[1..] == Lowered(b[1..]);
      if EqualsIgnoreCase(a, b) {
        assert forall i :: 0 <= i < |a[1..]| ==> a[1..][i] == a[i + 1] && b[1..][i] == b[i + 1];
      }
      if Lowered(a) == Lowered(b) {
        forall i | 0 <= i < |a|
          ensures ToLower(a[i]) == ToLower(b[i])
        {
          if i > 0 {
            assert a[i] == a[1..][i - 1] && b[i] == b[1..][i - 1];
          }
        }
      }
    } else if |a| > 0 {
      assert Lowered(a) != Lowered(b);
    } else if |b| > 0 {
      assert Lowered(a) != Lowered(b);
    }
  }

  // ---------------------------------------------------------------------
  // Decimal numerals: sprintf's %d and %zu, and reading them back
  // ---------------------------------------------------------------------

  predicate IsDigit(c: char)
  {
    '0' <= c <= '9'
  }

  predicate AllDigits(s: string)
  {
    forall i :: 0 <= i < |s| ==> IsDigit(s[i])
  }

  /** A numeral as `%d` prints a non-negative value: digits only, no
      leading zero except for "0" itself. */
  predicate IsCanonicalNumeral(s: string)
  {
    |s| > 0 && AllDigits(s) && (s[0] == '0' ==> |s| == 1)
  }

  function DigitChar(d: nat): (c: char)
    requires d < 10
    ensures IsDigit(c) && c as int - '0' as int == d
  {
    ('0' as int + d) as char
  }

  /** The value of a string of decimal digits (most significant first). */
  function DecimalValue(s: string): nat
    requires AllDigits(s)
  {
    if |s| == 0 then 0
    else DecimalValue(s[..|s| - 1]) * 10 + (s[|s| - 1] as int - '0' as int)
  }

  /** `sprintf("%d")` / `sprintf("%zu")` of a non-negative value. */
  function NatToDecimal(n: nat): (s: string)
    ensures IsCanonicalNumeral(s)
    ensures n < 10 <==> |s| == 1
    decreases n
  {
    if n < 10 then [DigitChar(n)]
    else NatToDecimal(n / 10) + [DigitChar(n % 10)]
  }

  /** Printing a number and reading it back gives the number. */
  lemma {:induction false} DecimalRoundTrip(n: nat)
    ensures DecimalValue(NatToDecimal(n)) == n
    decreases n
  {
    if n >= 10 {
      var s := NatToDecimal(n);
      assert s[..|s| - 1] == NatToDecimal(n / 10);
      DecimalRoundTrip(n / 10);
    }
  }

  /** A numeral with a non-zero leading digit has a non-zero value. */
  lemma {:induction false} LeadingDigitPositive(s: string)
    requires |s| > 0 && AllDigits(s) && s[0] != '0'
    ensures DecimalValue(s) > 0
    decreases |s|
  {
    if |s| > 1 {
      LeadingDigitPositive(s[..|s| - 1]);
    }
  }

  /** Reading a canonical numeral and printing the value gives the numeral
      back: together with DecimalRoundTrip, `%d` is a bijection between the
      naturals and the canonical numerals. */
  lemma {:induction false} NumeralRoundTrip(s: string)
    requires IsCanonicalNumeral(s)
    ensures NatToDecimal(DecimalValue(s)) == s
    decreases |s|
  {
    if |s| > 1 {
      var p := s[..|s| - 1];
      var d := s[|s| - 1] as int - '0' as int;
      LeadingDigitPositive(p);
      NumeralRoundTrip(p);
      var v := DecimalValue(s);
      assert v == DecimalValue(p) * 10 + d;
      assert v / 10 == DecimalValue(p) && v % 10 == d;
      assert s == p + [s[|s| - 1]];
    }
  }

  /** A numeral as `%d` prints any value: a canonical numeral, or '-'
      followed by the canonical numeral of a positive value. */
  predicate IsCanonicalInt(s: string)
  {
    IsCanonicalNumeral(s) || (|s| > 1 && s[0] == '-' && IsCanonicalNumeral(s[1..]) && s[1] != '0')
  }

  /** `sprintf("%d")` of any C `int`, with a leading '-' when negative. */
  function IntToDecimal(i: int): (s: string)
    ensures IsCanonicalInt(s)
    ensures i < 0 <==> s[0] == '-'
  {
    if i < 0 then "-" + NatToDecimal(-i) else NatToDecimal(i)
  }

  /** Reads a `%d` numeral back: an optional '-' then at least one digit. */
  function ParseInt(s: string): Option<int>
  {
    if |s| > 1 && s[0] == '-' && AllDigits(s[1..]) then Some(0 - DecimalValue(s[1..]))
    else if |s| > 0 && AllDigits(s) then Some(DecimalValue(s))
    else None
  }

  /** Every `%d` rendering reads back as the value printed. */
  lemma IntRoundTrip(i: int)
    ensures ParseInt(IntToDecimal(i)) == Some(i)
  {
    if i < 0 {
      var d := NatToDecimal(-i);
      var s := "-" + d;
      assert s[0] == '-' && s[1..] == d;
      DecimalRoundTrip(-i);
      assert ParseInt(s) == Some(0 - DecimalValue(d));
    } else {
      var d := NatToDecimal(i);
      assert IsDigit(d[0]);
      DecimalRoundTrip(i);
      assert ParseInt(d) == Some(DecimalValue(d));
    }
  }

  /** Every numeral `%d` can print is the printing of the value it reads
      as: with IntRoundTrip, `%d` is a bijection between the integers and
      the canonical signed numerals. */
  lemma SignedNumeralRoundTrip(s: string)
    requires IsCanonicalInt(s)
    ensures ParseInt(s).Some? && IntToDecimal(ParseInt(s).value) == s
  {
    if IsCanonicalNumeral(s) {
      NumeralRoundTrip(s);
    } else {
      var d := s[1..];
      LeadingDigitPositive(d);
      NumeralRoundTrip(d);
      assert ParseInt(s) == Some(0 - DecimalValue(d));
      assert s == "-" + d;
    }
  }

  // ---------------------------------------------------------------------
  // Integer width
  // ---------------------------------------------------------------------

  const Int32Min: int := -0x8000_0000
  const Int32Modulus: int := 0x1_0000_0000

  /** The conversion of a wider integer to a 32-bit two's-complement `int`
      (as gcc and clang perform it): the unique value in the `int` range
      congruent to `n` modulo 2^32. */
  function ToInt32(n: int): (r: int)
    ensures Int32Min <= r < Int32Min + Int32Modulus
    ensures (r - n) % Int32Modulus == 0
    ensures Int32Min <= n < Int32Min + Int32Modulus ==> r == n
  {
    (n - Int32Min) % Int32Modulus + Int32Min
  }
}
