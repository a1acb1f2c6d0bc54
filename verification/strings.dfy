/** A JavaScript value that may be null or undefined, as the handlers receive it. */
module Options {
  datatype Option<+T> = None | Some(value: T)
}

/**
 * The few JavaScript string operations the application relies on:
 * `startsWith`, `includes`, `indexOf`, `lastIndexOf`, `replace` with a
 * string pattern, `trim`, and the truthiness of a possibly-null string.
 * Strings are sequences of characters.
 */
module Strings {
  import opened Options

  /** `!!s` for a string that may be null or undefined. */
  predicate Truthy(s: Option<string>) {
    s.Some? && s.value != ""
  }

  predicate StartsWith(s: string, prefix: string) {
    |prefix| <= |s| && s[..|prefix|] == prefix
  }

  predicate EndsWith(s: string, suffix: string) {
    |suffix| <= |s| && s[|s| - |suffix|..] == suffix
  }

  /** `pat` occurs in `s` starting at index `k`. */
  predicate OccursAt(s: string, pat: string, k: int) {
    0 <= k && k + |pat| <= |s| && s[k..k + |pat|] == pat
  }

  /** `k` is the index of the first occurrence of `pat` in `s`. */
  ghost predicate FirstOccurrence(s: string, pat: string, k: int) {
    OccursAt(s, pat, k) && forall j :: 0 <= j < k ==> !OccursAt(s, pat, j)
  }

  lemma FirstOccurrenceUnique(s: string, pat: string, k: int)
    requires FirstOccurrence(s, pat, k)
    ensures forall j :: FirstOccurrence(s, pat, j) ==> j == k
  {
  }

  /** Index of the first occurrence of `pat` at or after `from`. */
  function IndexOfFrom(s: string, pat: string, from: nat): (r: Option<nat>)
    ensures r.Some? ==> from <= r.value && OccursAt(s, pat, r.value)
    ensures r.Some? ==> forall j :: from <= j < r.value ==> !OccursAt(s, pat, j)
    ensures r.None? ==> forall j :: from <= j ==> !OccursAt(s, pat, j)
    decreases |s| - from
  {
    if from + |pat| > |s| then None
    else if s[from..from + |pat|] == pat then Some(from)
    else IndexOfFrom(s, pat, from + 1)
  }

  /** `s.indexOf(pat)`, with -1 rendered as `None`. */
  function IndexOf(s: string, pat: string): (r: Option<nat>)
    ensures r.Some? ==> FirstOccurrence(s, pat, r.value)
    ensures r.None? ==> forall j :: !OccursAt(s, pat, j)
  {
    IndexOfFrom(s, pat, 0)
  }

  /** Index of the last occurrence of `pat` that starts before `n`. */
  function LastIndexBefore(s: string, pat: string, n: nat): (r: Option<nat>)
    ensures r.Some? ==> r.value < n && OccursAt(s, pat, r.value)
    ensures r.Some? ==> forall j :: r.value < j < n ==> !OccursAt(s, pat, j)
    ensures r.None? ==> forall j :: j < n ==> !OccursAt(s, pat, j)
  {
    if n == 0 then None
    else if OccursAt(s, pat, n - 1) then Some(n - 1)
    else LastIndexBefore(s, pat, n - 1)
  }

  /** `s.lastIndexOf(pat)`, with -1 rendered as `None`. */
  function LastIndexOf(s: string, pat: string): (r: Option<nat>)
    ensures r.Some? ==> OccursAt(s, pat, r.value)
    ensures r.Some? ==> forall j :: r.value < j ==> !OccursAt(s, pat, j)
    ensures r.None? ==> forall j :: !OccursAt(s, pat, j)
  {
    LastIndexBefore(s, pat, |s| + 1)
  }

  /** A string occurs in a concatenation where it was put. */
  lemma OccursInMiddle(x: string, y: string, z: string)
    ensures OccursAt(x + y + z, y, |x|)
  {
    assert (x + y + z)[|x|..|x| + |y|] == y;
  }

  /** An occurrence stays where it is when text is appended. */
  lemma OccursInLonger(s: string, w: string, pat: string, k: int)
    requires OccursAt(s, pat, k)
    ensures OccursAt(s + w, pat, k)
  {
    assert (s + w)[k..k + |pat|] == s[k..k + |pat|];
  }

  lemma PrefixOfConcat(prefix: string, w: string)
    ensures StartsWith(prefix + w, prefix)
  {
    assert (prefix + w)[..|prefix|] == prefix;
  }

  /** A prefix is kept when text is appended. */
  lemma StartsWithLonger(s: string, w: string, prefix: string)
    requires StartsWith(s, prefix)
    ensures StartsWith(s + w, prefix)
  {
    assert (s + w)[..|prefix|] == s[..|prefix|];
  }

  /** A slice that begins with an occurrence of `pat` starts with `pat`. */
  lemma SliceFromOccurrence(s: string, pat: string, lo: nat, hi: nat)
    requires OccursAt(s, pat, lo) && lo + |pat| <= hi <= |s|
    ensures StartsWith(s[lo..hi], pat)
  {
    assert s[lo..hi][..|pat|] == s[lo..lo + |pat|];
  }

  /** A slice that ends with an occurrence of `pat` ends with `pat`. */
  lemma SliceToOccurrence(s: string, pat: string, lo: nat, hi: nat)
    requires OccursAt(s, pat, hi - |pat|) && lo + |pat| <= hi <= |s|
    ensures EndsWith(s[lo..hi], pat)
  {
    assert s[lo..hi][hi - lo - |pat|..] == s[hi - |pat|..hi];
  }

  /** `s.includes(pat)`. */
  function Contains(s: string, pat: string): (b: bool)
    ensures b <==> exists k :: OccursAt(s, pat, k)
  {
    IndexOf(s, pat).Some?
  }

  /** `s.replace(pat, rep)` with a string pattern: only the first occurrence is replaced. */
  function ReplaceFirst(s: string, pat: string, rep: string): (r: string)
    ensures (forall k :: !OccursAt(s, pat, k)) ==> r == s
    ensures forall k :: FirstOccurrence(s, pat, k) ==> r == s[..k] + rep + s[k + |pat|..]
  {
    match IndexOf(s, pat)
    case None => s
    case Some(k) => s[..k] + rep + s[k + |pat|..]
  }

  /** The ECMAScript WhiteSpace and LineTerminator code points, which `trim` removes. */
  predicate IsWhiteSpace(c: char) {
    c == '\t' || c == '\n' || c == '\U{000B}' || c == '\U{000C}' || c == '\r' || c == ' '
    || c == '\U{00A0}' || c == '\U{1680}' || ('\U{2000}' <= c <= '\U{200A}')
    || c == '\U{2028}' || c == '\U{2029}' || c == '\U{202F}' || c == '\U{205F}'
    || c == '\U{3000}' || c == '\U{FEFF}'
  }

  predicate AllWhiteSpace(s: string) {
    forall i :: 0 <= i < |s| ==> IsWhiteSpace(s[i])
  }

  /** The index of the first character at or after `i` that is not white space, or `|s|`. */
  function SkipSpaceFrom(s: string, i: nat): (n: nat)
    requires i <= |s|
    ensures i <= n <= |s|
    ensures forall k :: i <= k < n ==> IsWhiteSpace(s[k])
    ensures n < |s| ==> !IsWhiteSpace(s[n])
    decreases |s| - i
  {
    if i < |s| && IsWhiteSpace(s[i]) then SkipSpaceFrom(s, i + 1) else i
  }

  /** The index just after the last character before `j` that is not white space, or 0. */
  function SkipSpaceBack(s: string, j: nat): (n: nat)
    requires j <= |s|
    ensures n <= j
    ensures forall k :: n <= k < j ==> IsWhiteSpace(s[k])
    ensures 0 < n ==> !IsWhiteSpace(s[n - 1])
  {
    if 0 < j && IsWhiteSpace(s[j - 1]) then SkipSpaceBack(s, j - 1) else j
  }

  /** The number of white-space characters `s` starts with. */
  function LeadingSpace(s: string): (n: nat)
    ensures n <= |s|
    ensures forall k :: 0 <= k < n ==> IsWhiteSpace(s[k])
    ensures n < |s| ==> !IsWhiteSpace(s[n])
  {
    SkipSpaceFrom(s, 0)
  }

  /** The index at which the white space that `s` ends with begins. */
  function TrailingSpaceStart(s: string): (n: nat)
    ensures n <= |s|
    ensures forall k :: n <= k < |s| ==> IsWhiteSpace(s[k])
    ensures 0 < n ==> !IsWhiteSpace(s[n - 1])
  {
    SkipSpaceBack(s, |s|)
  }

  /** `s.trim()`: what lies between the leading and the trailing white space. */
  function Trim(s: string): (r: string)
    ensures |r| <= |s|
    ensures r == [] || (!IsWhiteSpace(r[0]) && !IsWhiteSpace(r[|r| - 1]))
  {
    var i, j := LeadingSpace(s), TrailingSpaceStart(s);
    if i < j then
      assert s[i..j][0] == s[i] && s[i..j][j - i - 1] == s[j - 1];
      s[i..j]
    else []
  }

  /** The leading white space is characterised by where it stops. */
  lemma LeadingSpaceUnique(s: string, n: nat)
    requires n <= |s| && (forall k :: 0 <= k < n ==> IsWhiteSpace(s[k]))
    requires n < |s| ==> !IsWhiteSpace(s[n])
    ensures LeadingSpace(s) == n
  {
  }

  /** The trailing white space is characterised by where it starts. */
  lemma TrailingSpaceStartUnique(s: string, n: nat)
    requires n <= |s| && (forall k :: n <= k < |s| ==> IsWhiteSpace(s[k]))
    requires 0 < n ==> !IsWhiteSpace(s[n - 1])
    ensures TrailingSpaceStart(s) == n
  {
  }

  /** `s.trim()` is empty exactly when `s` consists of white space only. */
  lemma TrimEmptyIffBlank(s: string)
    ensures Trim(s) == [] <==> AllWhiteSpace(s)
  {
    var i, j := LeadingSpace(s), TrailingSpaceStart(s);
    if i < j {
      assert s[i..j][0] == s[i];
    }
  }

  lemma BlankPrefix(s: string, n: nat)
    requires n <= |s| && forall k :: 0 <= k < n ==> IsWhiteSpace(s[k])
    ensures AllWhiteSpace(s[..n])
  {
    assert forall k :: 0 <= k < n ==> s[..n][k] == s[k];
  }

  lemma BlankSuffix(s: string, n: nat)
    requires n <= |s| && forall k :: n <= k < |s| ==> IsWhiteSpace(s[k])
    ensures AllWhiteSpace(s[n..])
  {
    assert forall k :: 0 <= k < |s| - n ==> s[n..][k] == s[n + k];
  }

  lemma SplitInThree(s: string, i: nat, e: nat)
    requires i <= e <= |s|
    ensures s == s[..i] + s[i..e] + s[e..]
  {
  }

  /** `trim` cuts a white-space prefix and a white-space suffix and keeps the rest as it is. */
  lemma TrimSplitsPadding(s: string)
    ensures var i, r := LeadingSpace(s), Trim(s);
      && i + |r| <= |s| && s == s[..i] + r + s[i + |r|..]
      && AllWhiteSpace(s[..i]) && AllWhiteSpace(s[i + |r|..])
  {
    var i, j := LeadingSpace(s), TrailingSpaceStart(s);
    var e := if i < j then j else i;
    assert Trim(s) == s[i..e] && |Trim(s)| == e - i;
    SplitInThree(s, i, e);
    BlankPrefix(s, i);
    BlankSuffix(s, e);
  }

  /**
   * A prefix that ends in a character other than white space starts the
   * trimmed text exactly when it starts the text after the leading white
   * space: trailing white space never matters to such a test.
   */
  lemma TrimmedPrefix(s: string, prefix: string)
    requires prefix != [] && !IsWhiteSpace(prefix[|prefix| - 1])
    ensures StartsWith(Trim(s), prefix) <==> StartsWith(s[LeadingSpace(s)..], prefix)
  {
    var i, j := LeadingSpace(s), TrailingSpaceStart(s);
    var n := |prefix|;
    if StartsWith(s[i..], prefix) {
      assert s[i..][n - 1] == s[i + n - 1];
      assert i + n <= j;
      assert Trim(s)[..n] == s[i..][..n];
    }
  }

  /** Trimming twice is trimming once. */
  lemma TrimIdempotent(s: string)
    ensures Trim(Trim(s)) == Trim(s)
  {
    var r := Trim(s);
    if r != [] {
      LeadingSpaceUnique(r, 0);
      TrailingSpaceStartUnique(r, |r|);
      assert r[0..|r|] == r;
    }
  }

  /** Leading white space in front of a non-blank string just adds to the count. */
  lemma PaddedLeadingSpace(a: string, s: string, b: string)
    requires AllWhiteSpace(a) && !AllWhiteSpace(s)
    ensures LeadingSpace(a + s + b) == |a| + LeadingSpace(s)
  {
    var x, n := a + s + b, LeadingSpace(s);
    forall k | 0 <= k < |a| + n ensures IsWhiteSpace(x[k]) {
      if k < |a| { assert x[k] == a[k]; } else { assert x[k] == s[k - |a|]; }
    }
    assert x[|a| + n] == s[n];
    LeadingSpaceUnique(x, |a| + n);
  }

  /** Trailing white space after a non-blank string starts where that string's own does. */
  lemma PaddedTrailingSpace(a: string, s: string, b: string)
    requires AllWhiteSpace(b) && !AllWhiteSpace(s)
    ensures TrailingSpaceStart(a + s + b) == |a| + TrailingSpaceStart(s)
  {
    var x, n := a + s + b, TrailingSpaceStart(s);
    forall k | |a| + n <= k < |x| ensures IsWhiteSpace(x[k]) {
      if k < |a| + |s| { assert x[k] == s[k - |a|]; } else { assert x[k] == b[k - |a| - |s|]; }
    }
    assert x[|a| + n - 1] == s[n - 1];
    TrailingSpaceStartUnique(x, |a| + n);
  }

  lemma BlankConcat(a: string, s: string, b: string)
    requires AllWhiteSpace(a) && AllWhiteSpace(s) && AllWhiteSpace(b)
    ensures AllWhiteSpace(a + s + b)
  {
    var x := a + s + b;
    forall k | 0 <= k < |x| ensures IsWhiteSpace(x[k]) {
      if k < |a| { assert x[k] == a[k]; }
      else if k < |a| + |s| { assert x[k] == s[k - |a|]; }
      else { assert x[k] == b[k - |a| - |s|]; }
    }
  }

  lemma MiddleSlice(a: string, s: string, b: string, i: nat, j: nat)
    requires i <= j <= |s|
    ensures (a + s + b)[|a| + i..|a| + j] == s[i..j]
  {
    var x := a + s + b;
    assert forall k :: 0 <= k < j - i ==> x[|a| + i..|a| + j][k] == s[i..j][k];
  }

  /** A string that is not blank keeps at least one character. */
  lemma SpanOfNonBlank(s: string)
    requires !AllWhiteSpace(s)
    ensures LeadingSpace(s) < TrailingSpaceStart(s)
  {
    var k :| 0 <= k < |s| && !IsWhiteSpace(s[k]);
    assert LeadingSpace(s) <= k < TrailingSpaceStart(s);
  }

  /** Padding whose white space extends the leading and trailing runs leaves the kept span alone. */
  lemma TrimBySpan(a: string, s: string, b: string)
    requires LeadingSpace(s) < TrailingSpaceStart(s)
    requires LeadingSpace(a + s + b) == |a| + LeadingSpace(s)
    requires TrailingSpaceStart(a + s + b) == |a| + TrailingSpaceStart(s)
    ensures Trim(a + s + b) == Trim(s)
  {
    MiddleSlice(a, s, b, LeadingSpace(s), TrailingSpaceStart(s));
  }

  /** Surrounding white space does not change what `trim` returns. */
  lemma TrimIgnoresPadding(a: string, s: string, b: string)
    requires AllWhiteSpace(a) && AllWhiteSpace(b)
    ensures Trim(a + s + b) == Trim(s)
  {
    if AllWhiteSpace(s) {
      TrimEmptyIffBlank(s);
      BlankConcat(a, s, b);
      TrimEmptyIffBlank(a + s + b);
    } else {
      SpanOfNonBlank(s);
      PaddedLeadingSpace(a, s, b);
      PaddedTrailingSpace(a, s, b);
      TrimBySpan(a, s, b);
    }
  }
}
