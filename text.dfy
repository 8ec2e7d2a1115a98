/**
 * The parts of Go's `strings` and `strconv` packages that the core relies on,
 * over strings as sequences of Unicode code points (Go's runes).
 */
module Text {
  import opened Wrappers

  // ---------------------------------------------------------------------------
  // Whitespace and trimming (strings.TrimSpace)
  // ---------------------------------------------------------------------------

  /** Go's unicode.IsSpace: the ASCII blanks, NEL, NBSP and the Unicode Z separators. */
  predicate IsSpace(c: char) {
    c == '\t' || c == '\n' || c == '\U{000B}' || c == '\U{000C}' || c == '\r' || c == ' '
    || c == '\U{0085}' || c == '\U{00A0}' || c == '\U{1680}'
    || ('\U{2000}' <= c <= '\U{200A}')
    || c == '\U{2028}' || c == '\U{2029}' || c == '\U{202F}' || c == '\U{205F}' || c == '\U{3000}'
  }

  predicate AllSpace(s: string) {
    forall k :: 0 <= k < |s| ==> IsSpace(s[k])
  }

  /** Drops the leading white space: the result is the suffix that starts at the first non-space. */
  function TrimLeftSpace(s: string): (r: string)
    ensures |r| <= |s| && r == s[|s| - |r|..]
    ensures AllSpace(s[..|s| - |r|])
    ensures r == [] || !IsSpace(r[0])
  {
    if s == [] || !IsSpace(s[0]) then s
    else
      var r := TrimLeftSpace(s[1..]);
      assert s[1..][..|s[1..]| - |r|] == s[1..|s| - |r|];
      r
  }

  /** Drops the trailing white space: the result is the prefix that ends at the last non-space. */
  function TrimRightSpace(s: string): (r: string)
    ensures |r| <= |s| && r == s[..|r|]
    ensures AllSpace(s[|r|..])
    ensures r == [] || !IsSpace(r[|r| - 1])
  {
    if s == [] || !IsSpace(s[|s| - 1]) then s
    else
      var r := TrimRightSpace(s[..|s| - 1]);
      assert s[..|s| - 1][|r|..] == s[|r|..|s| - 1];
      r
  }

  /** strings.TrimSpace: a contiguous piece of `s` that neither starts nor ends with white space. */
  function TrimSpace(s: string): (r: string)
    ensures |r| <= |s|
    ensures r == [] || (!IsSpace(r[0]) && !IsSpace(r[|r| - 1]))
    ensures r == [] <==> AllSpace(s)
  {
    var l := TrimLeftSpace(s);
    var r := TrimRightSpace(l);
    assert r == [] ==> AllSpace(l) && s == s[..|s| - |l|] + l;
    r
  }

  /** Padding a word with white space on either side is undone by TrimSpace. */
  lemma {:induction false} TrimSpaceOfPadded(pre: string, w: string, post: string)
    requires AllSpace(pre) && AllSpace(post)
    requires w != [] && !IsSpace(w[0]) && !IsSpace(w[|w| - 1])
    ensures TrimSpace(pre + w + post) == w
  {
    assert pre + w + post == pre + (w + post);
    TrimLeftOfPadded(pre, w + post);
    TrimRightOfPadded(w, post);
  }

  lemma {:induction false} TrimLeftOfPadded(pre: string, s: string)
    requires AllSpace(pre) && s != [] && !IsSpace(s[0])
    ensures TrimLeftSpace(pre + s) == s
  {
    if pre != [] {
      assert (pre + s)[1..] == pre[1..] + s;
      TrimLeftOfPadded(pre[1..], s);
    } else {
      assert pre + s == s;
    }
  }

  lemma {:induction false} TrimRightOfPadded(s: string, post: string)
    requires AllSpace(post) && s != [] && !IsSpace(s[|s| - 1])
    ensures TrimRightSpace(s + post) == s
  {
    if post != [] {
      assert (s + post)[..|s + post| - 1] == s + post[..|post| - 1];
      TrimRightOfPadded(s, post[..|post| - 1]);
    } else {
      assert s + post == s;
    }
  }

  // ---------------------------------------------------------------------------
  // Substrings (strings.Contains, strings.HasPrefix, strings.TrimPrefix)
  // ---------------------------------------------------------------------------

  predicate HasPrefix(s: string, p: string) {
    |p| <= |s| && s[..|p|] == p
  }

  /** strings.Contains: `sub` occurs in `s` at some offset. */
  predicate Contains(s: string, sub: string)
    decreases |s|
  {
    HasPrefix(s, sub) || (s != [] && Contains(s[1..], sub))
  }

  /** `sub` occurs in `s` starting at offset `i`. */
  predicate OccursAt(s: string, sub: string, i: int) {
    0 <= i <= |s| - |sub| && s[i..i + |sub|] == sub
  }

  /** Contains agrees with the positional definition of an occurrence. */
  lemma {:induction false} ContainsAt(s: string, sub: string)
    ensures Contains(s, sub) <==> exists i :: OccursAt(s, sub, i)
    decreases |s|
  {
    if HasPrefix(s, sub) {
      assert OccursAt(s, sub, 0);
    } else if s == [] {
    } else {
      ContainsAt(s[1..], sub);
      if exists i :: OccursAt(s, sub, i) {
        var i :| OccursAt(s, sub, i);
        assert i != 0;
        assert OccursAt(s[1..], sub, i - 1);
      }
      if Contains(s[1..], sub) {
        var i :| OccursAt(s[1..], sub, i);
        assert OccursAt(s, sub, i + 1);
      }
    }
  }

  /** With a one-character pattern, Contains is membership of that character. */
  lemma {:induction false} ContainsChar(s: string, c: char)
    ensures Contains(s, [c]) <==> c in s
    decreases |s|
  {
    if s != [] {
      ContainsChar(s[1..], c);
      assert s == [s[0]] + s[1..];
    }
  }

  /** strings.TrimPrefix: removes one leading occurrence of `p`, if there is one. */
  function TrimPrefix(s: string, p: string): (r: string)
    ensures HasPrefix(s, p) ==> s == p + r
    ensures !HasPrefix(s, p) ==> r == s
  {
    if HasPrefix(s, p) then s[|p|..] else s
  }

  // ---------------------------------------------------------------------------
  // strings.ReplaceAll, for the non-empty patterns the core uses
  // ---------------------------------------------------------------------------

  /** Replaces the non-overlapping occurrences of `pat`, scanning left to right. */
  function ReplaceAll(s: string, pat: string, rep: string): string
    requires |pat| > 0
    decreases |s|
  {
    if |s| < |pat| then s
    else if s[..|pat|] == pat then rep + ReplaceAll(s[|pat|..], pat, rep)
    else [s[0]] + ReplaceAll(s[1..], pat, rep)
  }

  /** A string in which the pattern does not occur comes back unchanged. */
  lemma {:induction false} ReplaceAllAbsent(s: string, pat: string, rep: string)
    requires |pat| > 0 && !Contains(s, pat)
    ensures ReplaceAll(s, pat, rep) == s
    decreases |s|
  {
    if |s| >= |pat| {
      assert s == [s[0]] + s[1..];
      ReplaceAllAbsent(s[1..], pat, rep);
    }
  }

  /** Replacing a pattern by itself changes nothing. */
  lemma {:induction false} ReplaceAllSelf(s: string, pat: string)
    requires |pat| > 0
    ensures ReplaceAll(s, pat, pat) == s
    decreases |s|
  {
    if |s| >= |pat| {
      if s[..|pat|] == pat {
        ReplaceAllSelf(s[|pat|..], pat);
        assert s == s[..|pat|] + s[|pat|..];
      } else {
        ReplaceAllSelf(s[1..], pat);
        assert s == [s[0]] + s[1..];
      }
    }
  }

  /** A string holding no `{` is left alone by the replacement of any `{...}` placeholder. */
  lemma {:induction false} ReplaceAllNoBrace(s: string, pat: string, rep: string)
    requires |pat| > 0 && pat[0] == '{' && '{' !in s
    ensures ReplaceAll(s, pat, rep) == s
    decreases |s|
  {
    if |s| >= |pat| {
      assert s[0] != pat[0];
      assert s == [s[0]] + s[1..];
      ReplaceAllNoBrace(s[1..], pat, rep);
    }
  }

  /**
   * The first occurrence of a `{...}` placeholder, with no `{` before it, is
   * replaced and the scan resumes right after it.
   */
  lemma {:induction false} ReplaceAllOccurrence(pre: string, pat: string, rep: string, post: string)
    requires |pat| > 0 && pat[0] == '{' && '{' !in pre
    ensures ReplaceAll(pre + pat + post, pat, rep) == pre + rep + ReplaceAll(post, pat, rep)
    decreases |pre|
  {
    var s := pre + pat + post;
    if pre == [] {
      assert s == pat + post;
      assert s[..|pat|] == pat && s[|pat|..] == post;
    } else {
      var tail := pre[1..] + pat + post;
      assert s[..|pat|][0] == pre[0] != pat[0];
      assert ReplaceAll(s, pat, rep) == [pre[0]] + ReplaceAll(s[1..], pat, rep);
      assert s[1..] == tail;
      ReplaceAllOccurrence(pre[1..], pat, rep, post);
      calc {
        [pre[0]] + ReplaceAll(tail, pat, rep);
        [pre[0]] + (pre[1..] + rep + ReplaceAll(post, pat, rep));
        { assert pre == [pre[0]] + pre[1..]; }
        pre + rep + ReplaceAll(post, pat, rep);
      }
    }
  }

  /**
   * A string whose only `{` opens a placeholder `q` other than `pat` (their
   * first letters differ) is left alone by the replacement of `pat`.
   */
  lemma {:induction false} ReplaceAllOther(pre: string, q: string, post: string, pat: string, rep: string)
    requires |pat| > 1 && pat[0] == '{' && |q| > 1 && q[1] != pat[1]
    requires '{' !in pre && '{' !in q[1..] && '{' !in post
    ensures ReplaceAll(pre + q + post, pat, rep) == pre + q + post
    decreases |pre|
  {
    var s := pre + q + post;
    if pre == [] {
      assert s == q + post;
      if |s| >= |pat| {
        assert s[..|pat|][1] == q[1];
        assert s[1..] == q[1..] + post;
        ReplaceAllNoBrace(s[1..], pat, rep);
        assert s == [s[0]] + s[1..];
      }
    } else {
      assert s[0] == pre[0] != pat[0];
      assert s[1..] == pre[1..] + q + post;
      ReplaceAllOther(pre[1..], q, post, pat, rep);
      assert s == [s[0]] + s[1..];
    }
  }

  // ---------------------------------------------------------------------------
  // Case mapping (strings.ToLower, restricted to ASCII letters)
  // ---------------------------------------------------------------------------

  function LowerChar(c: char): char {
    if 'A' <= c <= 'Z' then (c as int + 32) as char else c
  }

  function ToLower(s: string): (r: string)
    ensures |r| == |s|
    ensures forall i :: 0 <= i < |s| ==> r[i] == LowerChar(s[i])
  {
    seq(|s|, i requires 0 <= i < |s| => LowerChar(s[i]))
  }

  /** Lower-casing twice is lower-casing once. */
  lemma ToLowerIdempotent(s: string)
    ensures ToLower(ToLower(s)) == ToLower(s)
  {
  }

  /** An occurrence survives lower-casing: lowering both sides keeps `w` inside `s`. */
  lemma {:induction false} ContainsLower(s: string, w: string)
    requires Contains(s, w)
    ensures Contains(ToLower(s), ToLower(w))
    decreases |s|
  {
    if HasPrefix(s, w) {
      assert ToLower(s)[..|w|] == ToLower(w);
    } else {
      assert ToLower(s)[1..] == ToLower(s[1..]);
      ContainsLower(s[1..], w);
    }
  }

  // ---------------------------------------------------------------------------
  // Decimal integers (fmt "%d" and strconv.ParseInt with base 10)
  // ---------------------------------------------------------------------------

  const Int32Min: int := -0x8000_0000
  const Int32Max: int := 0x7FFF_FFFF

  predicate IsDigit(c: char) {
    '0' <= c <= '9'
  }

  predicate AllDigits(s: string) {
    forall k :: 0 <= k < |s| ==> IsDigit(s[k])
  }

  function DigitChar(d: nat): (c: char)
    requires d < 10
    ensures IsDigit(c)
  {
    (d + '0' as int) as char
  }

  function DigitValue(c: char): nat
    requires IsDigit(c)
  {
    c as int - '0' as int
  }

  /** The value of a string of decimal digits, most significant first. */
  function DigitsValue(s: string): nat
    requires AllDigits(s)
  {
    if s == [] then 0 else DigitsValue(s[..|s| - 1]) * 10 + DigitValue(s[|s| - 1])
  }

  /** "%d" of a natural number: its digits without leading zeros. */
  function NatDecimal(n: nat): (s: string)
    ensures s != [] && AllDigits(s)
    ensures s[0] == '0' ==> n == 0
  {
    if n < 10 then [DigitChar(n)] else NatDecimal(n / 10) + [DigitChar(n % 10)]
  }

  /** "%d" of an integer. */
  function Decimal(n: int): (s: string)
    ensures s != []
    ensures s[0] == '-' <==> n < 0
  {
    if n < 0 then "-" + NatDecimal(-n) else NatDecimal(n)
  }

  /** Reading back the digits that NatDecimal wrote gives the number. */
  lemma {:induction false} NatDecimalValue(n: nat)
    ensures DigitsValue(NatDecimal(n)) == n
  {
    if n >= 10 {
      NatDecimalValue(n / 10);
      var s := NatDecimal(n);
      assert s[..|s| - 1] == NatDecimal(n / 10);
    }
  }

  /**
   * strconv.ParseInt(s, 10, 32): an optional sign, then one or more decimal
   * digits (no underscores with an explicit base), and a value that fits in
   * 32 signed bits. Every other input is an error (None).
   */
  function ParseInt32(s: string): (r: Option<int>)
    ensures r.Some? ==> Int32Min <= r.value <= Int32Max
    ensures s == [] ==> r.None?
  {
    if s == [] then None
    else
      var neg := s[0] == '-';
      var digits := if s[0] == '+' || s[0] == '-' then s[1..] else s;
      if digits == [] || !AllDigits(digits) then None
      else
        var u: int := DigitsValue(digits);
        if !neg && u >= 0x8000_0000 then None
        else if neg && u > 0x8000_0000 then None
        else
          var v: int := if neg then -u else u;
          Some(v)
  }

  /** A character other than a digit after the optional sign makes the input an error. */
  lemma NonDigitRejected(s: string, k: nat)
    requires 0 < k < |s| || (k == 0 && |s| > 0 && s[0] != '+' && s[0] != '-')
    requires !IsDigit(s[k])
    ensures ParseInt32(s).None?
  {
    var digits := if s[0] == '+' || s[0] == '-' then s[1..] else s;
    if digits != [] {
      if s[0] == '+' || s[0] == '-' {
        assert digits[k - 1] == s[k];
      } else {
        assert digits[k] == s[k];
      }
    }
  }

  /** A value outside the 32-bit range is an error, with or without a sign. */
  lemma OutOfRangeRejected(d: string)
    requires d != [] && AllDigits(d)
    ensures DigitsValue(d) > Int32Max ==> ParseInt32(d).None? && ParseInt32("+" + d).None?
    ensures DigitsValue(d) > -Int32Min ==> ParseInt32("-" + d).None?
  {
    assert ("+" + d)[1..] == d;
    assert ("-" + d)[1..] == d;
    assert d[0] != '+' && d[0] != '-' by { assert IsDigit(d[0]); }
  }

  /** Every 32-bit integer survives rendering with "%d" and parsing back. */
  lemma DecimalParseRoundTrip(n: int)
    requires Int32Min <= n <= Int32Max
    ensures ParseInt32(Decimal(n)) == Some(n)
  {
    if n < 0 {
      NatDecimalValue(-n);
      assert Decimal(n)[1..] == NatDecimal(-n);
    } else {
      NatDecimalValue(n);
    }
  }

  // ---------------------------------------------------------------------------
  // Go's string order: byte-wise, which on UTF-8 is code point order
  // ---------------------------------------------------------------------------

  predicate StrLess(a: string, b: string) {
    if a == [] then b != []
    else if b == [] then false
    else if a[0] != b[0] then a[0] < b[0]
    else StrLess(a[1..], b[1..])
  }

  lemma {:induction false} StrLessIrreflexive(a: string)
    ensures !StrLess(a, a)
  {
    if a != [] {
      StrLessIrreflexive(a[1..]);
    }
  }

  lemma {:induction false} StrLessTransitive(a: string, b: string, c: string)
    requires StrLess(a, b) && StrLess(b, c)
    ensures StrLess(a, c)
  {
    if a != [] && b != [] && c != [] && a[0] == b[0] && b[0] == c[0] {
      StrLessTransitive(a[1..], b[1..], c[1..]);
    }
  }

  /** Whatever sorts before `z` sorts before `y`, or `y` sorts before `z`. */
  lemma StrLessWeak(x: string, y: string, z: string)
    requires StrLess(x, z)
    ensures StrLess(x, y) || StrLess(y, z)
  {
    if !StrLess(x, y) && !StrLess(y, z) {
      if x == y {
        assert false;
      }
      StrLessTotal(x, y);
      if y == z {
        assert false;
      }
      StrLessTotal(y, z);
      StrLessTransitive(z, y, x);
      StrLessTransitive(x, z, x);
      StrLessIrreflexive(x);
    }
  }

  /** Two different strings are ordered one way or the other. */
  lemma {:induction false} StrLessTotal(a: string, b: string)
    requires a != b
    ensures StrLess(a, b) || StrLess(b, a)
  {
    if a != [] && b != [] && a[0] == b[0] {
      assert a == [a[0]] + a[1..] && b == [b[0]] + b[1..];
      StrLessTotal(a[1..], b[1..]);
    }
  }
}
