/**
 * The Python `str` operations the pipeline is built from, with CPython's
 * semantics written out: `find`, slicing with negative bounds, `split(c)[0]`,
 * `replace`, `lower`, `isspace`/`strip`, `splitlines`, `'\n'.join` and `int`.
 */
module PyText {
  import opened Wrappers

  // ---------------------------------------------------------------------------
  // Searching
  // ---------------------------------------------------------------------------

  /** `sub` occurs in `s` starting at index `k`. */
  predicate OccursAt(s: string, sub: string, k: int)
  {
    0 <= k && k + |sub| <= |s| && s[k..k + |sub|] == sub
  }

  /** `s.find(sub, start)`: the least index at or after `start` where `sub` occurs, or -1. */
  function Find(s: string, sub: string, start: nat): (r: int)
    ensures r == -1 || (start <= r && OccursAt(s, sub, r))
    ensures r == -1 ==> forall k :: start <= k ==> !OccursAt(s, sub, k)
    ensures r != -1 ==> forall k :: start <= k < r ==> !OccursAt(s, sub, k)
    decreases |s| - start
  {
    if start + |sub| > |s| then -1
    else if s[start..start + |sub|] == sub then start
    else Find(s, sub, start + 1)
  }

  /** Python's `sub in s` for strings. */
  predicate Contains(s: string, sub: string)
  {
    Find(s, sub, 0) != -1
  }

  lemma ContainsIff(s: string, sub: string)
    ensures Contains(s, sub) <==> exists k :: OccursAt(s, sub, k)
  {
    if !Contains(s, sub) {
      forall k ensures !OccursAt(s, sub, k) {
        if 0 <= k { assert !OccursAt(s, sub, k); }
      }
    }
  }

  // ---------------------------------------------------------------------------
  // Slicing
  // ---------------------------------------------------------------------------

  /** A slice bound as Python normalises it: a negative bound counts from the end; the result is clamped to [0, len]. */
  function SliceBound(len: nat, b: int): (r: nat)
    ensures r <= len
    ensures 0 <= b <= len ==> r == b
    ensures -(len as int) <= b < 0 ==> r == len + b
    ensures b < -(len as int) ==> r == 0
    ensures len < b ==> r == len
  {
    if b < 0 then (if len + b < 0 then 0 else len + b)
    else if b > len then len
    else b
  }

  /** `s[a:b]` (step 1): empty when the normalised bounds cross. */
  function Slice<T>(s: seq<T>, a: int, b: int): (r: seq<T>)
    ensures |r| <= |s|
    ensures 0 <= a <= b <= |s| ==> r == s[a..b]
    ensures b < 0 && 0 <= a <= |s| + b ==> r == s[a..|s| + b]
    ensures 0 <= b <= a ==> r == []
    ensures b < 0 && |s| + b <= a ==> r == []
  {
    var lo, hi := SliceBound(|s|, a), SliceBound(|s|, b);
    if lo <= hi then s[lo..hi] else []
  }

  // ---------------------------------------------------------------------------
  // Splitting and replacing
  // ---------------------------------------------------------------------------

  /** `s.split(c)[0]`: the longest prefix of `s` without `c`. */
  function BeforeFirst(s: string, c: char): (r: string)
    ensures r <= s
    ensures c !in r
    ensures |r| < |s| ==> s[|r|] == c
  {
    if s == [] || s[0] == c then []
    else [s[0]] + BeforeFirst(s[1..], c)
  }

  lemma {:induction false} BeforeFirstAt(x: string, c: char, y: string)
    requires c !in x
    ensures BeforeFirst(x + [c] + y, c) == x
  {
    if x != [] {
      assert (x + [c] + y)[1..] == x[1..] + [c] + y;
      BeforeFirstAt(x[1..], c, y);
    }
  }

  lemma BeforeFirstAbsent(s: string, c: char)
    requires c !in s
    ensures BeforeFirst(s, c) == s
  {
  }

  /** `s.replace(pat, rep)`: every non-overlapping occurrence of `pat`, scanning left to right, replaced by `rep`. */
  function Replace(s: string, pat: string, rep: string): (r: string)
    requires |pat| > 0
    ensures pat[0] !in s ==> r == s
    ensures forall ch :: ch in r ==> ch in s || ch in rep
    decreases |s|
  {
    if |s| < |pat| then s
    else if s[..|pat|] == pat then rep + Replace(s[|pat|..], pat, rep)
    else [s[0]] + Replace(s[1..], pat, rep)
  }

  /** An occurrence at the front is replaced, and the scan resumes right after it. */
  lemma ReplaceAtFront(pat: string, t: string, rep: string)
    requires |pat| > 0
    ensures Replace(pat + t, pat, rep) == rep + Replace(t, pat, rep)
  {
    assert (pat + t)[..|pat|] == pat;
    assert (pat + t)[|pat|..] == t;
  }

  /**
   * The first occurrence, after a stretch `x` where none starts, is replaced
   * and the scan resumes right after it.
   */
  lemma {:induction false} ReplaceAfter(x: string, pat: string, t: string, rep: string)
    requires |pat| > 0
    requires forall k :: 0 <= k < |x| ==> !OccursAt(x + pat + t, pat, k)
    ensures Replace(x + pat + t, pat, rep) == x + rep + Replace(t, pat, rep)
    decreases |x|
  {
    if x == [] {
      assert x + pat + t == pat + t;
      ReplaceAtFront(pat, t, rep);
    } else {
      ShiftNoOccurrence(x, pat, t);
      ReplaceAfter(x[1..], pat, t, rep);
      ReplaceAfterStep(x, pat, t, rep);
    }
  }

  lemma ReplaceAfterStep(x: string, pat: string, t: string, rep: string)
    requires |pat| > 0 && x != [] && !OccursAt(x + pat + t, pat, 0)
    requires Replace(x[1..] + pat + t, pat, rep) == x[1..] + rep + Replace(t, pat, rep)
    ensures Replace(x + pat + t, pat, rep) == x + rep + Replace(t, pat, rep)
  {
    var u := x[1..] + pat + t;
    assert x + pat + t == [x[0]] + u;
    ReplaceCons(x[0], u, pat, rep);
    ConsJoin(x, rep, Replace(t, pat, rep));
  }

  /** A character where no occurrence starts is kept, and the scan moves on. */
  lemma ReplaceCons(c: char, u: string, pat: string, rep: string)
    requires |pat| > 0 && !OccursAt([c] + u, pat, 0)
    ensures Replace([c] + u, pat, rep) == [c] + Replace(u, pat, rep)
  {
    var s := [c] + u;
    ReplaceSkipFirst(s, pat, rep);
    assert s[1..] == u;
  }

  lemma ConsJoin(x: string, a: string, b: string)
    requires x != []
    ensures [x[0]] + (x[1..] + a + b) == x + a + b
  {
    assert x == [x[0]] + x[1..];
  }

  /** No occurrence starts in `x` of `x + pat + t`: none starts in `x[1..]` of the text without its first character. */
  lemma ShiftNoOccurrence(x: string, pat: string, t: string)
    requires x != []
    requires forall k :: 0 <= k < |x| ==> !OccursAt(x + pat + t, pat, k)
    ensures !OccursAt(x + pat + t, pat, 0)
    ensures forall k :: 0 <= k < |x[1..]| ==> !OccursAt(x[1..] + pat + t, pat, k)
  {
    var s := x + pat + t;
    assert s[1..] == x[1..] + pat + t;
    forall k | 0 <= k < |x[1..]| ensures !OccursAt(x[1..] + pat + t, pat, k) {
      if OccursAt(x[1..] + pat + t, pat, k) {
        assert s[1..][k..k + |pat|] == s[k + 1..k + 1 + |pat|];
        assert OccursAt(s, pat, k + 1);
      }
    }
  }

  /** Where no occurrence starts at the front, the first character is kept and the scan moves on by one. */
  lemma ReplaceSkipFirst(s: string, pat: string, rep: string)
    requires |pat| > 0 && s != [] && !OccursAt(s, pat, 0)
    ensures Replace(s, pat, rep) == [s[0]] + Replace(s[1..], pat, rep)
  {
    if |s| >= |pat| {
      assert s[0..|pat|] == s[..|pat|];
    }
  }

  /** Text in which the pattern occurs nowhere comes back unchanged. */
  lemma {:induction false} ReplaceAbsent(s: string, pat: string, rep: string)
    requires |pat| > 0
    requires forall k :: !OccursAt(s, pat, k)
    ensures Replace(s, pat, rep) == s
    decreases |s|
  {
    if |s| >= |pat| {
      assert !OccursAt(s, pat, 0);
      assert s[0..|pat|] == s[..|pat|];
      forall k ensures !OccursAt(s[1..], pat, k) {
        if OccursAt(s[1..], pat, k) {
          assert s[1..][k..k + |pat|] == s[k + 1..k + 1 + |pat|];
          assert OccursAt(s, pat, k + 1);
        }
      }
      ReplaceAbsent(s[1..], pat, rep);
      assert s == [s[0]] + s[1..];
    }
  }

  // ---------------------------------------------------------------------------
  // Case and whitespace
  // ---------------------------------------------------------------------------

  function LowerChar(c: char): char
  {
    if 'A' <= c <= 'Z' then (c as int + 32) as char else c
  }

  /** `s.lower()` for ASCII letters. */
  function Lower(s: string): (r: string)
    ensures |r| == |s|
    ensures forall i :: 0 <= i < |s| ==> r[i] == LowerChar(s[i])
    ensures forall i :: 0 <= i < |r| ==> !('A' <= r[i] <= 'Z')
    ensures forall i :: 0 <= i < |s| && !('A' <= s[i] <= 'Z') ==> r[i] == s[i]
  {
    seq(|s|, i requires 0 <= i < |s| => LowerChar(s[i]))
  }

  /** Lower-casing twice gives the same text as lower-casing once. */
  lemma LowerTwice(s: string)
    ensures Lower(Lower(s)) == Lower(s)
  {
    assert forall i :: 0 <= i < |s| ==> Lower(Lower(s))[i] == Lower(s)[i];
  }

  /** `c.isspace()`: the characters CPython treats as whitespace. */
  predicate IsSpace(c: char)
  {
    c == ' ' || ('\t' <= c <= '\r') || ('\U{1C}' <= c <= '\U{1F}') ||
    c == '\U{85}' || c == '\U{A0}' || c == '\U{1680}' || ('\U{2000}' <= c <= '\U{200A}') ||
    c == '\U{2028}' || c == '\U{2029}' || c == '\U{202F}' || c == '\U{205F}' || c == '\U{3000}'
  }

  /** `s.strip() == ""`: the line holds whitespace only (or nothing). */
  predicate IsBlank(s: string)
  {
    forall i :: 0 <= i < |s| ==> IsSpace(s[i])
  }

  /**
   * The whitespace `int()` skips around its digits: what `str.isspace` accepts,
   * except U+001C..U+001F. CPython passes characters below 128 unchanged to
   * its ASCII parser, which skips only '\t'..'\r' and ' ', and turns other
   * whitespace into ' ' first.
   */
  predicate IntSpace(c: char)
  {
    IsSpace(c) && !('\U{1C}' <= c <= '\U{1F}')
  }

  function IntStripLeft(s: string): string
  {
    if s != [] && IntSpace(s[0]) then IntStripLeft(s[1..]) else s
  }

  /** Leading and trailing `IntSpace` removed, as `int()` does before reading digits. */
  function IntStrip(s: string): string
  {
    IntStripTail(IntStripLeft(s))
  }

  function IntStripTail(s: string): string
  {
    if s != [] && IntSpace(s[|s| - 1]) then IntStripTail(s[..|s| - 1]) else s
  }

  lemma {:induction false} StripKeepsNonSpace(s: string, c: char)
    requires c in s && !IntSpace(c)
    ensures c in IntStrip(s)
  {
    StripLeftKeeps(s, c);
    StripTailKeeps(IntStripLeft(s), c);
  }

  lemma {:induction false} StripLeftKeeps(s: string, c: char)
    requires c in s && !IntSpace(c)
    ensures c in IntStripLeft(s)
  {
    if s != [] && IntSpace(s[0]) {
      assert c in s[1..];
      StripLeftKeeps(s[1..], c);
    }
  }

  lemma {:induction false} StripTailKeeps(s: string, c: char)
    requires c in s && !IntSpace(c)
    ensures c in IntStripTail(s)
  {
    if s != [] && IntSpace(s[|s| - 1]) {
      assert c in s[..|s| - 1];
      StripTailKeeps(s[..|s| - 1], c);
    }
  }

  lemma NoSpaceStrip(s: string)
    requires forall i :: 0 <= i < |s| ==> !IntSpace(s[i])
    ensures IntStrip(s) == s
  {
  }

  // ---------------------------------------------------------------------------
  // Lines
  // ---------------------------------------------------------------------------

  /** `s.splitlines()` with '\n' as the only line boundary: a final '\n' does not open an empty line. */
  function SplitLines(s: string): (r: seq<string>)
    ensures forall i :: 0 <= i < |r| ==> '\n' !in r[i]
    decreases |s|
  {
    if s == [] then []
    else
      var line := BeforeFirst(s, '\n');
      if |line| == |s| then [s] else [line] + SplitLines(s[|line| + 1..])
  }

  /** `'\n'.join(lines)`. */
  function JoinLines(lines: seq<string>): (r: string)
    ensures |lines| == 1 ==> r == lines[0]
  {
    if lines == [] then []
    else if |lines| == 1 then lines[0]
    else lines[0] + "\n" + JoinLines(lines[1..])
  }

  /** Splitting a join gives the lines back when none holds a line end and the last is not empty. */
  lemma {:induction false} SplitJoin(lines: seq<string>)
    requires forall i :: 0 <= i < |lines| ==> '\n' !in lines[i]
    requires lines == [] || lines[|lines| - 1] != []
    ensures SplitLines(JoinLines(lines)) == lines
  {
    if |lines| == 1 {
      BeforeFirstAbsent(lines[0], '\n');
    } else if |lines| > 1 {
      var rest := JoinLines(lines[1..]);
      var s := lines[0] + "\n" + rest;
      BeforeFirstAt(lines[0], '\n', rest);
      assert s[|lines[0]| + 1..] == rest;
      SplitJoin(lines[1..]);
    }
  }

  // ---------------------------------------------------------------------------
  // Integers
  // ---------------------------------------------------------------------------

  predicate IsDigit(c: char)
  {
    '0' <= c <= '9'
  }

  /** Decimal digits, where a single '_' may separate two digits (the literal form `int()` accepts). */
  predicate IsDigitGroups(s: string)
  {
    |s| > 0 && IsDigit(s[0]) && IsDigit(s[|s| - 1]) &&
    forall i :: 0 <= i < |s| ==> GroupChar(s, i)
  }

  /** Position `i` of `s` holds a digit, or a '_' followed by a digit. */
  predicate GroupChar(s: string, i: nat)
    requires i < |s|
  {
    IsDigit(s[i]) || (s[i] == '_' && i + 1 < |s| && IsDigit(s[i + 1]))
  }

  /** The number the digits of `s` spell, ignoring separators. */
  function DigitsValue(s: string): nat
  {
    if s == [] then 0
    else
      var last := s[|s| - 1];
      if IsDigit(last) then 10 * DigitsValue(s[..|s| - 1]) + (last as int - '0' as int)
      else DigitsValue(s[..|s| - 1])
  }

  /**
   * `int(s)` in base 10 over ASCII digits: `None` where Python raises
   * `ValueError` (CPython's limit on the number of digits aside).
   */
  function ParseInt(s: string): Option<int>
  {
    var t := IntStrip(s);
    if |t| > 0 && (t[0] == '+' || t[0] == '-') then
      var digits := t[1..];
      if IsDigitGroups(digits) then
        Some(if t[0] == '-' then -(DigitsValue(digits) as int) else DigitsValue(digits) as int)
      else None
    else if IsDigitGroups(t) then
      Some(DigitsValue(t))
    else None
  }

  /** Decimal rendering of a natural number, most significant digit first. */
  function Decimal(n: nat): (r: string)
    ensures |r| > 0
    ensures forall i :: 0 <= i < |r| ==> IsDigit(r[i])
  {
    if n < 10 then [('0' as int + n) as char]
    else Decimal(n / 10) + [('0' as int + n % 10) as char]
  }

  lemma {:induction false} DecimalValue(n: nat)
    ensures DigitsValue(Decimal(n)) == n
  {
    if n >= 10 {
      var d := Decimal(n);
      assert d[..|d| - 1] == Decimal(n / 10);
      DecimalValue(n / 10);
    }
  }

  /** `int()` reads back what `Decimal` writes. */
  lemma ParseIntDecimal(n: nat)
    ensures ParseInt(Decimal(n)) == Some(n)
  {
    var d := Decimal(n);
    NoSpaceStrip(d);
    assert IntStrip(d) == d;
    assert !(d[0] == '+' || d[0] == '-');
    DecimalGroups(d);
    DecimalValue(n);
    assert ParseInt(d) == Some(DigitsValue(d));
  }

  /** `int()` reads back a negative number written as '-' followed by `Decimal`. */
  lemma ParseIntNegative(n: nat)
    ensures ParseInt("-" + Decimal(n)) == Some(-(n as int))
  {
    var d := Decimal(n);
    var s := "-" + d;
    NoSpaceStrip(s);
    assert s[1..] == d;
    DecimalGroups(d);
    DecimalValue(n);
  }

  lemma DecimalGroups(d: string)
    requires |d| > 0 && forall i :: 0 <= i < |d| ==> IsDigit(d[i])
    ensures IsDigitGroups(d)
  {
  }

  /** A character that is neither a digit, '_', a sign nor whitespace makes `int()` raise. */
  lemma ParseIntRejects(s: string, c: char)
    requires c in s
    requires !IsDigit(c) && c != '_' && c != '+' && c != '-' && !IntSpace(c)
    ensures ParseInt(s) == None
  {
    StripKeepsNonSpace(s, c);
    var t := IntStrip(s);
    var i :| 0 <= i < |t| && t[i] == c;
    if |t| > 0 && (t[0] == '+' || t[0] == '-') {
      assert t[1..][i - 1] == c;
      NotDigitGroups(t[1..], i - 1);
    } else {
      NotDigitGroups(t, i);
    }
  }

  /** `int()` does not skip U+001C, although `str.isspace` counts it as whitespace. */
  lemma ParseIntKeepsSeparators()
    ensures IsSpace('\U{1C}') && ParseInt("\U{1C}1") == None
  {
    ParseIntRejects("\U{1C}1", '\U{1C}');
  }

  lemma NotDigitGroups(t: string, i: int)
    requires 0 <= i < |t| && !IsDigit(t[i]) && t[i] != '_'
    ensures !IsDigitGroups(t)
  {
    assert !GroupChar(t, i);
  }

  /** Regrouping a concatenation of three sequences. */
  lemma Assoc<T>(a: seq<T>, b: seq<T>, c: seq<T>)
    ensures a + (b + c) == a + b + c
  {
  }
}
