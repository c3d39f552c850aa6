/**
 * The Python `str` operations the scraper calls, over strings as sequences of
 * code points: `strip`, the `in` operator and `split` with an explicit
 * separator. `isspace`, `find` and `join` are here to define and characterise
 * those three.
 */
module PyStr {
  import opened Wrappers

  /** The 29 code points for which Python's `str.isspace` holds. */
  const PYTHON_WHITESPACE: set<char> := {
    '\t', '\n', '\U{0B}', '\U{0C}', '\r', '\U{1C}', '\U{1D}', '\U{1E}', '\U{1F}', ' ',
    '\U{85}', '\U{A0}', '\U{1680}',
    '\U{2000}', '\U{2001}', '\U{2002}', '\U{2003}', '\U{2004}', '\U{2005}',
    '\U{2006}', '\U{2007}', '\U{2008}', '\U{2009}', '\U{200A}',
    '\U{2028}', '\U{2029}', '\U{202F}', '\U{205F}', '\U{3000}'
  }

  /** Python's `str.isspace` for a single code point, by ranges. */
  predicate IsSpace(c: char)
    ensures IsSpace(c) <==> c in PYTHON_WHITESPACE
  {
    c == '\t' || c == '\n' || c == '\U{0B}' || c == '\U{0C}' || c == '\r' ||
    ('\U{1C}' <= c <= '\U{1F}') || c == ' ' || c == '\U{85}' || c == '\U{A0}' ||
    c == '\U{1680}' || ('\U{2000}' <= c <= '\U{200A}') || c == '\U{2028}' || c == '\U{2029}' ||
    c == '\U{202F}' || c == '\U{205F}' || c == '\U{3000}'
  }

  /** Every code point of `s` in `[lo, hi)` is whitespace. */
  predicate SpaceBetween(s: string, lo: nat, hi: nat)
    requires lo <= hi <= |s|
  {
    forall k :: lo <= k < hi ==> IsSpace(s[k])
  }

  /** Neither the first nor the last code point is whitespace. */
  predicate NoSurroundingSpace(s: string)
  {
    s != [] ==> !IsSpace(s[0]) && !IsSpace(s[|s| - 1])
  }

  /** The index of the first non-whitespace code point at or after `i`, or `|s|`. */
  function SkipSpace(s: string, i: nat): (j: nat)
    requires i <= |s|
    ensures i <= j <= |s| && SpaceBetween(s, i, j)
    ensures j < |s| ==> !IsSpace(s[j])
    decreases |s| - i
  {
    if i < |s| && IsSpace(s[i]) then SkipSpace(s, i + 1) else i
  }

  /** The end of `s[lo..hi]` once its trailing whitespace is dropped. */
  function SkipSpaceBack(s: string, lo: nat, hi: nat): (j: nat)
    requires lo <= hi <= |s|
    ensures lo <= j <= hi && SpaceBetween(s, j, hi)
    ensures lo < j ==> !IsSpace(s[j - 1])
    decreases hi
  {
    if lo < hi && IsSpace(s[hi - 1]) then SkipSpaceBack(s, lo, hi - 1) else hi
  }

  /**
   * Python's `s.strip()`: the infix of `s` left once its leading and trailing
   * whitespace is removed; it neither starts nor ends with whitespace.
   */
  function Strip(s: string): (r: string)
    ensures NoSurroundingSpace(r)
    ensures exists a, b ::
              0 <= a <= b <= |s| && r == s[a..b] && SpaceBetween(s, 0, a) && SpaceBetween(s, b, |s|)
  {
    var a := SkipSpace(s, 0);
    var b := SkipSpaceBack(s, a, |s|);
    assert SpaceBetween(s, b, |s|);
    s[a..b]
  }

  /** At most one index ends a whitespace prefix at a non-whitespace code point (or at `|s|`). */
  lemma FirstNonSpaceUnique(s: string, i: nat, j: nat)
    requires i <= |s| && SpaceBetween(s, 0, i) && (i < |s| ==> !IsSpace(s[i]))
    requires j <= |s| && SpaceBetween(s, 0, j) && (j < |s| ==> !IsSpace(s[j]))
    ensures i == j
  {
  }

  /** At most one index above `lo` starts a whitespace suffix after a non-whitespace code point (or is `lo`). */
  lemma LastNonSpaceUnique(s: string, lo: nat, i: nat, j: nat)
    requires lo <= i <= |s| && SpaceBetween(s, i, |s|) && (lo < i ==> !IsSpace(s[i - 1]))
    requires lo <= j <= |s| && SpaceBetween(s, j, |s|) && (lo < j ==> !IsSpace(s[j - 1]))
    ensures i == j
  {
  }

  /**
   * `Strip` is the only infix of `s` with whitespace on both sides outside it
   * and none at its own ends.
   */
  lemma StripUnique(s: string, a: nat, b: nat)
    requires a <= b <= |s| && SpaceBetween(s, 0, a) && SpaceBetween(s, b, |s|)
    requires NoSurroundingSpace(s[a..b])
    ensures Strip(s) == s[a..b]
  {
    var a' := SkipSpace(s, 0);
    var b' := SkipSpaceBack(s, a', |s|);
    if a == b {
      assert SpaceBetween(s, 0, |s|);
      FirstNonSpaceUnique(s, a', |s|);
    } else {
      assert s[a..b][0] == s[a] && s[a..b][b - a - 1] == s[b - 1];
      FirstNonSpaceUnique(s, a', a);
      LastNonSpaceUnique(s, a, b', b);
    }
  }

  /** Stripping a string that has no surrounding whitespace leaves it unchanged. */
  lemma StripKeepsTrimmed(s: string)
    requires NoSurroundingSpace(s)
    ensures Strip(s) == s
  {
    StripUnique(s, 0, |s|);
    assert s[0..|s|] == s;
  }

  /** `strip` is idempotent. */
  lemma StripIdempotent(s: string)
    ensures Strip(Strip(s)) == Strip(s)
  {
    StripKeepsTrimmed(Strip(s));
  }

  /** `pat` occurs in `s` starting at index `i`. */
  predicate OccursAt(s: string, pat: string, i: nat)
  {
    i + |pat| <= |s| && s[i..i + |pat|] == pat
  }

  /** Python's `pat in s`: the empty pattern is in every string, and no pattern longer than `s` is. */
  ghost predicate Contains(s: string, pat: string)
    ensures pat == [] ==> Contains(s, pat)
    ensures Contains(s, pat) ==> |pat| <= |s|
  {
    assert pat == [] ==> OccursAt(s, pat, 0);
    exists i: nat :: OccursAt(s, pat, i)
  }

  /** The leftmost occurrence of `pat` in `s` at or after index `from`. */
  function FindFrom(s: string, pat: string, from: nat): (r: Option<nat>)
    ensures r.Some? ==> from <= r.value && OccursAt(s, pat, r.value)
    ensures r.Some? ==> forall j: nat :: from <= j < r.value ==> !OccursAt(s, pat, j)
    ensures r.None? ==> forall j: nat :: from <= j ==> !OccursAt(s, pat, j)
    decreases |s| - from
  {
    if |s| < from + |pat| then None
    else if OccursAt(s, pat, from) then Some(from)
    else FindFrom(s, pat, from + 1)
  }

  /** Python's `s.find(pat)`, with `None` for -1. */
  function Find(s: string, pat: string): Option<nat>
  {
    FindFrom(s, pat, 0)
  }

  /** `in` holds exactly when `find` succeeds. */
  lemma ContainsIffFound(s: string, pat: string)
    ensures Contains(s, pat) <==> Find(s, pat).Some?
  {
    if Find(s, pat).Some? {
      assert OccursAt(s, pat, Find(s, pat).value);
    }
  }

  /** A one-character pattern occurs exactly where that character is. */
  lemma OccursAtChar(s: string, c: char, i: nat)
    ensures OccursAt(s, [c], i) <==> i < |s| && s[i] == c
  {
    if i < |s| {
      assert s[i..i + 1] == [s[i]];
    }
  }

  /**
   * The pieces of `s[from..]` that Python's `split(sep)` produces: the text
   * between the leftmost non-overlapping occurrences of `sep`, scanning left to
   * right from `from`.
   */
  function SplitFrom(s: string, sep: string, from: nat): (r: seq<string>)
    requires sep != [] && from <= |s|
    ensures |r| >= 1
    decreases |s| - from
  {
    match FindFrom(s, sep, from)
    case None => [s[from..]]
    case Some(i) => [s[from..i]] + SplitFrom(s, sep, i + |sep|)
  }

  /**
   * Python's `s.split(sep)` for a non-empty separator: joining the pieces with
   * `sep` gives `s` back, and no piece contains `sep`. These two facts fix the
   * result only for a separator that cannot overlap itself, such as `src=` or
   * `&`; for one that can (`"aa"` in `"aaa"`), the leftmost choice is fixed by
   * `FindFrom` and stated by `SplitFirstPieces`.
   */
  function Split(s: string, sep: string): (r: seq<string>)
    requires sep != []
    ensures |r| >= 1
    ensures Join(r, sep) == s
    ensures forall k :: 0 <= k < |r| ==> !Contains(r[k], sep)
  {
    SplitFromJoin(s, sep, 0);
    SplitFromPiecesFree(s, sep, 0);
    assert s[0..] == s;
    SplitFrom(s, sep, 0)
  }

  /** Python's `sep.join(parts)`. */
  function Join(parts: seq<string>, sep: string): string
  {
    if parts == [] then []
    else if |parts| == 1 then parts[0]
    else parts[0] + sep + Join(parts[1..], sep)
  }

  /** Joining the pieces of a split with the same separator gives the text back. */
  lemma {:induction false} SplitFromJoin(s: string, sep: string, from: nat)
    requires sep != [] && from <= |s|
    ensures Join(SplitFrom(s, sep, from), sep) == s[from..]
    decreases |s| - from
  {
    match FindFrom(s, sep, from)
    case None =>
    case Some(i) =>
      SplitFromJoin(s, sep, i + |sep|);
      assert SplitFrom(s, sep, from)[1..] == SplitFrom(s, sep, i + |sep|);
      assert s[from..] == s[from..i] + s[i..i + |sep|] + s[i + |sep|..];
  }

  /** An occurrence of `pat` inside `s[lo..hi]` is an occurrence in that slice. */
  lemma OccursInSlice(s: string, pat: string, lo: nat, hi: nat, e: nat)
    ensures lo <= e && e + |pat| <= hi <= |s| && OccursAt(s, pat, e) ==> OccursAt(s[lo..hi], pat, e - lo)
  {
    if lo <= e && e + |pat| <= hi <= |s| && OccursAt(s, pat, e) {
      forall k | 0 <= k < |pat| ensures s[lo..hi][e - lo + k] == pat[k] {
        assert s[e..e + |pat|][k] == pat[k];
      }
      assert s[lo..hi][e - lo..e - lo + |pat|] == pat;
    }
  }

  /** No occurrence of `pat` lies inside `s[lo..hi]` when none starts in `[lo, hi)`. */
  lemma NoneInside(s: string, pat: string, lo: nat, hi: nat)
    requires lo <= hi <= |s| && pat != []
    requires forall j: nat :: lo <= j < hi ==> !OccursAt(s, pat, j)
    ensures !Contains(s[lo..hi], pat)
  {
    if Contains(s[lo..hi], pat) {
      var j: nat :| OccursAt(s[lo..hi], pat, j);
      forall k | 0 <= k < |pat| ensures s[lo + j + k] == pat[k] {
        assert s[lo..hi][j..j + |pat|][k] == pat[k];
      }
      assert s[lo + j..lo + j + |pat|] == pat;
      assert OccursAt(s, pat, lo + j);
      assert false;
    }
  }

  /** No piece of a split contains the separator. */
  lemma {:induction false} SplitFromPiecesFree(s: string, sep: string, from: nat)
    requires sep != [] && from <= |s|
    ensures forall k :: 0 <= k < |SplitFrom(s, sep, from)| ==> !Contains(SplitFrom(s, sep, from)[k], sep)
    decreases |s| - from
  {
    match FindFrom(s, sep, from)
    case None =>
      NoneInside(s, sep, from, |s|);
      assert s[from..|s|] == s[from..];
    case Some(i) =>
      SplitFromPiecesFree(s, sep, i + |sep|);
      NoneInside(s, sep, from, i);
  }

  /**
   * The first two pieces of `s.split(sep)`: the first is everything before the
   * leftmost separator (or the whole string); a second piece exists exactly when
   * the separator occurs, and it runs from just after the leftmost separator to
   * the next one, or to the end.
   */
  lemma SplitFirstPieces(s: string, sep: string)
    requires sep != []
    ensures Find(s, sep).None? ==> Split(s, sep) == [s]
    ensures Find(s, sep).Some? ==>
      var i := Find(s, sep).value;
      |Split(s, sep)| >= 2 &&
      Split(s, sep)[0] == s[..i] &&
      Split(s, sep)[1] == (match FindFrom(s, sep, i + |sep|) case None => s[i + |sep|..] case Some(j) => s[i + |sep|..j])
  {
    match Find(s, sep)
    case None =>
      assert s[0..] == s;
    case Some(i) =>
      assert Split(s, sep) == [s[0..i]] + SplitFrom(s, sep, i + |sep|);
  }
}
