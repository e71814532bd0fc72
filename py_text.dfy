/** The two Python string operations that `.env` parsing relies on:
    `str.strip()` without arguments and `str.split(sep, 1)`. */
module PyText {

  import opened Wrappers

  /** The characters Python's `str.isspace()` accepts: U+0009..U+000D,
      U+001C..U+0020, U+0085, U+00A0, U+1680, U+2000..U+200A, U+2028,
      U+2029, U+202F, U+205F and U+3000. */
  const SpaceChars: seq<char> :=
    ['\t', '\n', '\U{0B}', '\U{0C}', '\r', '\U{1C}', '\U{1D}', '\U{1E}', '\U{1F}', ' ',
     '\U{85}', '\U{A0}', '\U{1680}', '\U{2000}', '\U{2001}', '\U{2002}', '\U{2003}',
     '\U{2004}', '\U{2005}', '\U{2006}', '\U{2007}', '\U{2008}', '\U{2009}', '\U{200A}',
     '\U{2028}', '\U{2029}', '\U{202F}', '\U{205F}', '\U{3000}']

  /** Whether `c` is one of `chars`, looked up one by one. */
  predicate OneOf(c: char, chars: seq<char>) {
    chars != [] && (chars[0] == c || OneOf(c, chars[1..]))
  }

  /** Python's `str.isspace()` for one character. */
  predicate IsSpace(c: char) {
    OneOf(c, SpaceChars)
  }

  /** Every character of `s` in `[lo, hi)` is whitespace. */
  predicate SpaceBetween(s: string, lo: int, hi: int) {
    forall i :: lo <= i < hi && 0 <= i < |s| ==> IsSpace(s[i])
  }

  /** The first index at or after `i` that does not hold whitespace
      (`|s|` when there is none): the left end `strip` keeps. */
  function SkipSpace(s: string, i: nat): (lo: nat)
    requires i <= |s|
    ensures i <= lo <= |s|
    ensures SpaceBetween(s, i, lo)
    ensures lo < |s| ==> !IsSpace(s[lo])
    decreases |s| - i
  {
    if i < |s| && IsSpace(s[i]) then SkipSpace(s, i + 1) else i
  }

  /** The last index `hi`, at or before `j` and not below `lo`, such that
      `s[hi - 1]` is not whitespace (`lo` when there is none): the right end
      `strip` keeps. */
  function SkipSpaceBack(s: string, lo: nat, j: nat): (hi: nat)
    requires lo <= j <= |s|
    ensures lo <= hi <= j
    ensures SpaceBetween(s, hi, j)
    ensures hi > lo ==> !IsSpace(s[hi - 1])
    decreases j
  {
    if j > lo && IsSpace(s[j - 1]) then SkipSpaceBack(s, lo, j - 1) else j
  }

  /** `s.strip()`: `s` without its leading and trailing whitespace. */
  function Strip(s: string): (r: string)
    ensures |r| <= |s|
    ensures r == [] || (!IsSpace(r[0]) && !IsSpace(r[|r| - 1]))
  {
    var lo := SkipSpace(s, 0);
    s[lo..SkipSpaceBack(s, lo, |s|)]
  }

  /** What `Strip` removes is whitespace, on both sides, and nothing else:
      the result is the slice of `s` that starts at its first non-whitespace
      character, with only whitespace after it. */
  lemma StripCutsOnlySpace(s: string)
    ensures var lo, r := SkipSpace(s, 0), Strip(s);
            && lo + |r| <= |s|
            && s[lo..lo + |r|] == r
            && SpaceBetween(s, 0, lo)
            && SpaceBetween(s, lo + |r|, |s|)
  {
  }

  /** Stripping is exact: padding `x` with whitespace on both sides and
      stripping gives back `x`, provided `x` itself neither starts nor ends
      with whitespace. */
  lemma StripRemovesExactlyPadding(pre: string, x: string, post: string)
    requires SpaceBetween(pre, 0, |pre|) && SpaceBetween(post, 0, |post|)
    requires x == [] || (!IsSpace(x[0]) && !IsSpace(x[|x| - 1]))
    ensures Strip(pre + x + post) == x
  {
    var s := pre + x + post;
    assert forall i :: 0 <= i < |pre| ==> s[i] == pre[i];
    assert forall i :: |pre| + |x| <= i < |s| ==> s[i] == post[i - |pre| - |x|];
    if x == [] {
      SkipSpaceStopsAt(s, 0, |s|);
    } else {
      assert s[|pre|] == x[0] && s[|pre| + |x| - 1] == x[|x| - 1];
      SkipSpaceStopsAt(s, 0, |pre|);
      SkipSpaceBackStopsAt(s, |pre|, |s|, |pre| + |x|);
      assert s[|pre|..|pre| + |x|] == x;
    }
  }

  lemma {:induction false} SkipSpaceStopsAt(s: string, i: nat, k: nat)
    requires i <= k <= |s| && SpaceBetween(s, i, k) && (k < |s| ==> !IsSpace(s[k]))
    ensures SkipSpace(s, i) == k
    decreases k - i
  {
    if i < k {
      SkipSpaceStopsAt(s, i + 1, k);
    }
  }

  lemma {:induction false} SkipSpaceBackStopsAt(s: string, lo: nat, j: nat, k: nat)
    requires lo <= k <= j <= |s| && SpaceBetween(s, k, j) && (k > lo ==> !IsSpace(s[k - 1]))
    ensures SkipSpaceBack(s, lo, j) == k
    decreases j
  {
    if k < j {
      SkipSpaceBackStopsAt(s, lo, j - 1, k);
    }
  }

  /** The position of the first `c` in `s` at or after `i`, or `|s|` when
      there is none. */
  function IndexOf(s: string, c: char, i: nat): (k: nat)
    requires i <= |s|
    ensures i <= k <= |s|
    ensures k < |s| ==> s[k] == c
    ensures forall j :: i <= j < k ==> s[j] != c
    decreases |s| - i
  {
    if i == |s| || s[i] == c then i else IndexOf(s, c, i + 1)
  }

  /** `s.split(sep, 1)`: `None` when `sep` does not occur (Python then returns
      a one-element list), otherwise the text before the FIRST `sep` and the
      text after it. */
  function SplitFirst(s: string, sep: char): (r: Option<(string, string)>)
    ensures r.None? <==> sep !in s
    ensures r.Some? ==> s == r.value.0 + [sep] + r.value.1 && sep !in r.value.0
  {
    var k := IndexOf(s, sep, 0);
    if k == |s| then
      None
    else
      assert s == s[..k] + [sep] + s[k + 1..];
      Some((s[..k], s[k + 1..]))
  }

  /** The split happens at the first separator: whatever position `p` holds
      the first `sep`, the two parts are the text before and after `p`. */
  lemma SplitFirstAt(s: string, sep: char, p: nat)
    requires p < |s| && s[p] == sep && sep !in s[..p]
    ensures SplitFirst(s, sep) == Some((s[..p], s[p + 1..]))
  {
    var k := IndexOf(s, sep, 0);
    assert k <= p;
    assert k >= p by {
      assert forall j :: 0 <= j < p ==> s[..p][j] == s[j];
    }
  }
}
