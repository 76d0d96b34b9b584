/**
  The Python built-in string and list operations that the harvesting core
  relies on, written out so that their edge cases are explicit: `s[:n]`,
  `startswith`, substring search, ASCII case folding (as SQLite's LIKE does
  it), `replace`, `join`, `split()[0]`, `strip` and a decimal digit parse.
 */
module Builtins {
  import opened Wrappers

  function Min(a: int, b: int): int { if a <= b then a else b }
  function Max(a: int, b: int): int { if a >= b then a else b }

  /** Python's `s[:n]`: a non-negative `n` keeps at most `n` elements, a negative one drops `-n` from the end. */
  function PyPrefix<T>(s: seq<T>, n: int): (r: seq<T>)
    ensures |r| <= |s| && r == s[..|r|]
    ensures n >= 0 ==> |r| == Min(n, |s|)
    ensures n < 0 ==> |r| == Max(0, |s| + n)
  {
    if n >= 0 then (if n <= |s| then s[..n] else s)
    else if |s| + n >= 0 then s[..|s| + n]
    else []
  }

  predicate StartsWith(s: string, prefix: string) {
    |prefix| <= |s| && s[..|prefix|] == prefix
  }

  /** `pat` occurs in `s` at position `i`. */
  predicate OccursAt(s: string, pat: string, i: nat) {
    i + |pat| <= |s| && s[i..i + |pat|] == pat
  }

  /** Python's `pat in s`. */
  predicate Contains(s: string, pat: string)
    decreases |s|
  {
    StartsWith(s, pat) || (|s| > 0 && Contains(s[1..], pat))
  }

  lemma {:induction false} ContainsIff(s: string, pat: string)
    ensures Contains(s, pat) <==> exists i: nat :: OccursAt(s, pat, i)
    decreases |s|
  {
    if StartsWith(s, pat) {
      assert OccursAt(s, pat, 0);
    } else if |s| > 0 {
      ContainsIff(s[1..], pat);
      if Contains(s[1..], pat) {
        var i: nat :| OccursAt(s[1..], pat, i);
        assert s[1..][i..i + |pat|] == s[i + 1..i + 1 + |pat|];
        assert OccursAt(s, pat, i + 1);
      } else {
        forall i: nat ensures !OccursAt(s, pat, i) {
          if i == 0 {
            assert !StartsWith(s, pat);
          } else if i + |pat| <= |s| {
            assert !OccursAt(s[1..], pat, i - 1);
            assert s[1..][i - 1..i - 1 + |pat|] == s[i..i + |pat|];
          }
        }
      }
    } else {
      forall i: nat ensures !OccursAt(s, pat, i) {
        assert !StartsWith(s, pat);
      }
    }
  }

  /** An occurrence at a known position is found by `Contains`. */
  lemma OccursAtContains(s: string, pat: string, i: nat)
    requires OccursAt(s, pat, i)
    ensures Contains(s, pat)
  {
    ContainsIff(s, pat);
  }

  /** ASCII upper case to lower case; every other character is left alone. */
  function LowerChar(c: char): (r: char)
    ensures 'A' <= c <= 'Z' ==> 'a' <= r <= 'z'
    ensures !('A' <= c <= 'Z') ==> r == c
  {
    if 'A' <= c <= 'Z' then (c as int + 32) as char else c
  }

  function Lower(s: string): (r: string)
    ensures |r| == |s|
    ensures forall i :: 0 <= i < |s| ==> r[i] == LowerChar(s[i])
  {
    seq(|s|, i requires 0 <= i < |s| => LowerChar(s[i]))
  }

  lemma LowerSlice(s: string, i: nat, j: nat)
    requires i <= j <= |s|
    ensures Lower(s)[i..j] == Lower(s[i..j])
  {
  }

  /** Case-insensitive substring test, folding ASCII letters only. */
  predicate ContainsIgnoreCase(s: string, pat: string) {
    Contains(Lower(s), Lower(pat))
  }

  /** A case-insensitive match inside a piece of a text is a case-insensitive match in the text. */
  lemma ContainsIgnoreCaseWithin(big: string, small: string, i: nat, pat: string)
    requires OccursAt(big, small, i)
    requires ContainsIgnoreCase(small, pat)
    ensures ContainsIgnoreCase(big, pat)
  {
    var ls, lp := Lower(small), Lower(pat);
    ContainsIff(ls, lp);
    var m: nat :| OccursAt(ls, lp, m);
    LowerSlice(big, i, i + |small|);
    OccursAtNested(Lower(big), ls, i, lp, m);
    OccursAtContains(Lower(big), lp, i + m);
  }

  /** An occurrence inside an occurrence is an occurrence in the whole text. */
  lemma OccursAtNested(big: string, small: string, i: nat, pat: string, m: nat)
    requires OccursAt(big, small, i) && OccursAt(small, pat, m)
    ensures OccursAt(big, pat, i + m)
  {
    assert forall j :: 0 <= j < |small| ==> big[i + j] == small[j] by {
      forall j | 0 <= j < |small| ensures big[i + j] == small[j] {
        assert big[i..i + |small|][j] == small[j];
      }
    }
    assert forall k :: 0 <= k < |pat| ==> small[m + k] == pat[k] by {
      forall k | 0 <= k < |pat| ensures small[m + k] == pat[k] {
        assert small[m..m + |pat|][k] == pat[k];
      }
    }
    assert big[i + m..i + m + |pat|] == pat;
  }

  /** Python's `s.replace(pat, rep)` for a non-empty `pat`: leftmost occurrences, scanned left to right. */
  function Replace(s: string, pat: string, rep: string): string
    requires |pat| > 0
    decreases |s|
  {
    if |s| < |pat| then s
    else if s[..|pat|] == pat then rep + Replace(s[|pat|..], pat, rep)
    else [s[0]] + Replace(s[1..], pat, rep)
  }

  /** Replacing a pattern that does not occur changes nothing. */
  lemma {:induction false} ReplaceAbsent(s: string, pat: string, rep: string)
    requires |pat| > 0
    requires !Contains(s, pat)
    ensures Replace(s, pat, rep) == s
    decreases |s|
  {
    if |s| >= |pat| {
      assert !StartsWith(s, pat);
      assert s[..|pat|] != pat;
      ReplaceAbsent(s[1..], pat, rep);
      assert [s[0]] + s[1..] == s;
    }
  }

  /** Removing every occurrence of `pat` from `pat + d` gives back `d` when `d` holds no occurrence. */
  lemma RemovePrefixOnce(pat: string, d: string)
    requires |pat| > 0
    requires !Contains(d, pat)
    ensures Replace(pat + d, pat, "") == d
  {
  }

  /** Python's `sep.join(xs)`. */
  function Join(xs: seq<string>, sep: string): string
    decreases |xs|
  {
    if |xs| == 0 then ""
    else if |xs| == 1 then xs[0]
    else xs[0] + sep + Join(xs[1..], sep)
  }

  /** Every element of a joined list occurs in the joined text. */
  lemma {:induction false} JoinOccurs(xs: seq<string>, sep: string, k: nat)
    requires k < |xs|
    ensures exists i: nat :: OccursAt(Join(xs, sep), xs[k], i)
    decreases |xs|
  {
    var j := Join(xs, sep);
    if |xs| == 1 {
      assert j[0..|xs[0]|] == xs[0];
      assert OccursAt(j, xs[k], 0);
    } else if k == 0 {
      assert j[0..|xs[0]|] == xs[0];
      assert OccursAt(j, xs[k], 0);
    } else {
      JoinOccurs(xs[1..], sep, k - 1);
      var rest := Join(xs[1..], sep);
      var i: nat :| OccursAt(rest, xs[1..][k - 1], i);
      var off := |xs[0]| + |sep|;
      assert j == xs[0] + sep + rest;
      assert j[off + i..off + i + |xs[k]|] == rest[i..i + |xs[k]|];
      assert OccursAt(j, xs[k], off + i);
    }
  }

  /** The characters Python's `str.isspace` accepts. */
  predicate IsSpace(c: char) {
    var n := c as int;
    n == 0x20 || 0x09 <= n <= 0x0D || 0x1C <= n <= 0x1F || n == 0x85 || n == 0xA0
    || n == 0x1680 || 0x2000 <= n <= 0x200A || n == 0x2028 || n == 0x2029
    || n == 0x202F || n == 0x205F || n == 0x3000
  }

  function SkipSpace(s: string): (r: string)
    ensures |r| <= |s| && r == s[|s| - |r|..]
    ensures |r| > 0 ==> !IsSpace(r[0])
    ensures forall i :: 0 <= i < |s| - |r| ==> IsSpace(s[i])
    decreases |s|
  {
    if |s| > 0 && IsSpace(s[0]) then SkipSpace(s[1..]) else s
  }

  /** The longest prefix of `s` without whitespace. */
  function TakeToken(s: string): (r: string)
    ensures |r| <= |s| && r == s[..|r|]
    ensures forall i :: 0 <= i < |r| ==> !IsSpace(r[i])
    ensures |r| < |s| ==> IsSpace(s[|r|])
    decreases |s|
  {
    if |s| == 0 || IsSpace(s[0]) then "" else [s[0]] + TakeToken(s[1..])
  }

  /** Python's `s.split()[0]`; `None` where Python raises `IndexError` (no field at all). */
  function FirstField(s: string): Option<string> {
    var t := SkipSpace(s);
    if |t| == 0 then None else Some(TakeToken(t))
  }

  /** A token followed by whitespace (or by nothing) is read back whole. */
  lemma {:induction false} TakeTokenOf(a: string, b: string)
    requires forall i :: 0 <= i < |a| ==> !IsSpace(a[i])
    requires |b| == 0 || IsSpace(b[0])
    ensures TakeToken(a + b) == a
    decreases |a|
  {
    if |a| > 0 {
      assert (a + b)[1..] == a[1..] + b;
      TakeTokenOf(a[1..], b);
      assert [a[0]] + a[1..] == a;
    } else {
      assert a + b == b;
    }
  }

  function StripRight(s: string): (r: string)
    ensures |r| <= |s| && r == s[..|r|]
    ensures |r| > 0 ==> !IsSpace(r[|r| - 1])
    decreases |s|
  {
    if |s| > 0 && IsSpace(s[|s| - 1]) then StripRight(s[..|s| - 1]) else s
  }

  /** Python's `s.strip()` (no argument). */
  function Strip(s: string): string {
    StripRight(SkipSpace(s))
  }

  predicate IsDigit(c: char) { '0' <= c <= '9' }

  /** A non-empty string of ASCII decimal digits. */
  predicate IsDigits(s: string) {
    |s| > 0 && forall i :: 0 <= i < |s| ==> IsDigit(s[i])
  }

  function DigitsValue(s: string): nat
    requires forall i :: 0 <= i < |s| ==> IsDigit(s[i])
    decreases |s|
  {
    if |s| == 0 then 0
    else
      assert IsDigit(s[|s| - 1]);
      DigitsValue(s[..|s| - 1]) * 10 + (s[|s| - 1] as int - '0' as int)
  }

  function DigitChar(d: nat): char
    requires d < 10
  {
    ('0' as int + d) as char
  }

  /** The decimal text of `n`, as Python's `str(n)` writes it. */
  function NatToDigits(n: nat): (r: string)
    ensures forall i :: 0 <= i < |r| ==> IsDigit(r[i])
    ensures |r| > 0
    decreases n
  {
    if n < 10 then [DigitChar(n)] else NatToDigits(n / 10) + [DigitChar(n % 10)]
  }

  /** Reading back the decimal text of a number gives the number. */
  lemma {:induction false} DigitsRoundTrip(n: nat)
    ensures IsDigits(NatToDigits(n)) && DigitsValue(NatToDigits(n)) == n
    decreases n
  {
    var s := NatToDigits(n);
    if n >= 10 {
      DigitsRoundTrip(n / 10);
      assert s[..|s| - 1] == NatToDigits(n / 10);
    }
  }

  /**
    Python's `int(s)` on a string without surrounding whitespace: an optional
    sign and a run of ASCII digits; `None` where Python raises `ValueError`.
   */
  function PyInt(s: string): (r: Option<int>)
    ensures r.Some? ==> IsDigits(s) || (|s| > 0 && s[0] in "+-" && IsDigits(s[1..]))
    ensures IsDigits(s) ==> r == Some(DigitsValue(s))
    ensures |s| > 0 && s[0] in "+-" && IsDigits(s[1..]) ==>
      r == Some(if s[0] == '-' then -(DigitsValue(s[1..]) as int) else DigitsValue(s[1..]))
  {
    if IsDigits(s) then Some(DigitsValue(s))
    else if |s| > 0 && s[0] in "+-" && IsDigits(s[1..]) then
      var v: int := DigitsValue(s[1..]);
      Some(if s[0] == '-' then -v else v)
    else None
  }

  /** Python's `str(n)`. */
  function IntToText(n: int): string {
    if n < 0 then "-" + NatToDigits(-n) else NatToDigits(n)
  }

  /** `int(str(n)) == n` for every integer. */
  lemma IntTextRoundTrip(n: int)
    ensures PyInt(IntToText(n)) == Some(n)
  {
    if n < 0 {
      DigitsRoundTrip(-n);
      var s := IntToText(n);
      assert s[1..] == NatToDigits(-n);
      assert !IsDigits(s) by { assert !IsDigit(s[0]); }
    } else {
      DigitsRoundTrip(n);
    }
  }

  /** Code-point lexicographic order, as SQLite's BINARY collation compares UTF-8 text. */
  predicate StrLess(a: string, b: string)
    decreases |a|
  {
    if |a| == 0 then |b| > 0
    else if |b| == 0 then false
    else if a[0] < b[0] then true
    else if a[0] == b[0] then StrLess(a[1..], b[1..])
    else false
  }

  lemma {:induction false} StrLessIrreflexive(a: string)
    ensures !StrLess(a, a)
    decreases |a|
  {
    if |a| > 0 { StrLessIrreflexive(a[1..]); }
  }

  lemma {:induction false} StrLessTransitive(a: string, b: string, c: string)
    requires StrLess(a, b) && StrLess(b, c)
    ensures StrLess(a, c)
    decreases |a|
  {
    if |a| > 0 && a[0] == b[0] && b[0] == c[0] {
      StrLessTransitive(a[1..], b[1..], c[1..]);
    }
  }

  lemma {:induction false} StrLessTotal(a: string, b: string)
    ensures a == b || StrLess(a, b) || StrLess(b, a)
    decreases |a|
  {
    if |a| > 0 && |b| > 0 && a[0] == b[0] {
      StrLessTotal(a[1..], b[1..]);
      if a[1..] == b[1..] {
        assert a == [a[0]] + a[1..] && b == [b[0]] + b[1..];
      }
    }
  }

  /** The empty text sorts before every other text. */
  lemma EmptyIsLeast(s: string)
    requires |s| > 0
    ensures StrLess("", s)
  {
  }
}
