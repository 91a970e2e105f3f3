/**
 * The string operations the code-generation handler relies on:
 * ASCII lower-casing (`toLowerCase`), first-occurrence search (what a
 * leftmost regular-expression match reduces to) and whitespace trimming
 * (`trim`).
 */
module Text {

  datatype Option<T> = None | Some(value: T)

  /**
   * The characters JavaScript's `String.prototype.trim` removes: the
   * WhiteSpace code points (TAB, VT, FF, ZWNBSP and every space separator)
   * and the LineTerminator code points (LF, CR, LS, PS).
   */
  predicate IsWhitespace(c: char) {
    || c == '\t' || c == '\n' || c == '\U{B}' || c == '\U{C}' || c == '\r'
    || c == ' ' || c == '\U{A0}' || c == '\U{1680}'
    || ('\U{2000}' <= c <= '\U{200A}')
    || c == '\U{2028}' || c == '\U{2029}' || c == '\U{202F}' || c == '\U{205F}'
    || c == '\U{3000}' || c == '\U{FEFF}'
  }

  predicate AllWhitespace(s: string) {
    forall k :: 0 <= k < |s| ==> IsWhitespace(s[k])
  }

  /** Neither the first nor the last character of `s` is whitespace. */
  predicate NoEdgeWhitespace(s: string) {
    s == [] || (!IsWhitespace(s[0]) && !IsWhitespace(s[|s| - 1]))
  }

  // ---------------------------------------------------------------------
  // Lower-casing
  // ---------------------------------------------------------------------

  predicate IsAsciiUpper(c: char) {
    'A' <= c <= 'Z'
  }

  function LowerChar(c: char): (d: char)
    ensures !IsAsciiUpper(d)
    ensures !IsAsciiUpper(c) ==> d == c
    ensures IsAsciiUpper(c) ==> d as int == c as int + 32
  {
    if IsAsciiUpper(c) then (c as int + 32) as char else c
  }

  /** `toLowerCase`, restricted to the ASCII letters. */
  function Lower(s: string): (r: string)
    ensures |r| == |s|
    ensures forall i :: 0 <= i < |r| ==> !IsAsciiUpper(r[i])
    ensures forall i :: 0 <= i < |s| && !IsAsciiUpper(s[i]) ==> r[i] == s[i]
    ensures forall i :: 0 <= i < |s| && IsAsciiUpper(s[i]) ==> r[i] as int == s[i] as int + 32
  {
    seq(|s|, i requires 0 <= i < |s| => LowerChar(s[i]))
  }

  /** Lower-casing twice is lower-casing once. */
  lemma LowerIdempotent(s: string)
    ensures Lower(Lower(s)) == Lower(s)
  {
  }

  // ---------------------------------------------------------------------
  // Searching
  // ---------------------------------------------------------------------

  /** `pat` occurs in `s` starting at index `i`. */
  predicate OccursAt(s: string, pat: string, i: int) {
    0 <= i && i + |pat| <= |s| && s[i..i + |pat|] == pat
  }

  /** `pat` is a contiguous part of `s`. */
  ghost predicate IsSubstring(pat: string, s: string) {
    exists i :: OccursAt(s, pat, i)
  }

  /** The first index at or after `from` where `pat` occurs in `s`, if any. */
  function Find(s: string, pat: string, from: nat): (r: Option<nat>)
    ensures r.Some? ==> from <= r.value && OccursAt(s, pat, r.value)
    ensures forall j :: from <= j && (r.None? || j < r.value) ==> !OccursAt(s, pat, j)
    decreases |s| - from
  {
    if from + |pat| > |s| then None
    else if s[from..from + |pat|] == pat then Some(from)
    else Find(s, pat, from + 1)
  }

  /** `y` occurs in `x + y` right after `x`. */
  lemma OccursAtEnd(x: string, y: string)
    ensures OccursAt(x + y, y, |x|)
  {
    assert (x + y)[|x|..|x| + |y|] == y;
  }

  /** An occurrence in `x` is still there once `y` is appended. */
  lemma OccursExtended(x: string, y: string, pat: string, i: int)
    requires OccursAt(x, pat, i)
    ensures OccursAt(x + y, pat, i)
  {
    assert (x + y)[i..i + |pat|] == x[i..i + |pat|];
  }

  /** A part of a part of `s` is a part of `s`. */
  lemma SubstringTransitive(a: string, b: string, c: string, i: int, j: int)
    requires OccursAt(b, a, i) && OccursAt(c, b, j)
    ensures OccursAt(c, a, i + j)
  {
    forall k | 0 <= k < |a| ensures c[i + j + k] == a[k] {
      assert a[k] == b[i..i + |a|][k] == b[i + k];
      assert b[i + k] == c[j..j + |b|][i + k] == c[j + i + k];
    }
  }

  // ---------------------------------------------------------------------
  // Trimming
  // ---------------------------------------------------------------------

  /** The first index at or after `i` that does not hold whitespace (or `|s|`). */
  function SkipWhitespace(s: string, i: nat): (k: nat)
    requires i <= |s|
    ensures i <= k <= |s|
    ensures forall m :: i <= m < k ==> IsWhitespace(s[m])
    ensures k == |s| || !IsWhitespace(s[k])
    decreases |s| - i
  {
    if i < |s| && IsWhitespace(s[i]) then SkipWhitespace(s, i + 1) else i
  }

  /** The end of `s[lo..j]` once its trailing whitespace is dropped. */
  function SkipWhitespaceBack(s: string, lo: nat, j: nat): (k: nat)
    requires lo <= j <= |s|
    ensures lo <= k <= j
    ensures forall m :: k <= m < j ==> IsWhitespace(s[m])
    ensures k == lo || !IsWhitespace(s[k - 1])
    decreases j
  {
    if lo < j && IsWhitespace(s[j - 1]) then SkipWhitespaceBack(s, lo, j - 1) else j
  }

  /**
   * `s[i..j]` is what is left of `s` once its leading and trailing
   * whitespace is removed: everything outside it is whitespace and, unless
   * it is empty, it neither starts nor ends with whitespace.
   */
  ghost predicate TrimmedAt(s: string, i: int, j: int) {
    && 0 <= i <= j <= |s|
    && (forall k :: 0 <= k < i ==> IsWhitespace(s[k]))
    && (forall k :: j <= k < |s| ==> IsWhitespace(s[k]))
    && NoEdgeWhitespace(s[i..j])
  }

  /** What trimming leaves is empty exactly when `s` is all whitespace. */
  lemma TrimmedAtEmpty(s: string, i: int, j: int)
    requires TrimmedAt(s, i, j)
    ensures i == j <==> AllWhitespace(s)
  {
    if i < j {
      assert s[i..j][0] == s[i];
    }
  }

  /** `trim`: removes whitespace from both ends. */
  function Trim(s: string): (r: string)
    ensures exists i, j :: TrimmedAt(s, i, j) && r == s[i..j]
    ensures NoEdgeWhitespace(r)
    ensures IsSubstring(r, s)
    ensures r == [] <==> AllWhitespace(s)
  {
    var i := SkipWhitespace(s, 0);
    var j := SkipWhitespaceBack(s, i, |s|);
    assert i < j ==> s[i..j][0] == s[i] && s[i..j][j - i - 1] == s[j - 1];
    assert TrimmedAt(s, i, j);
    TrimmedAtEmpty(s, i, j);
    assert OccursAt(s, s[i..j], i);
    s[i..j]
  }

  /**
   * Trimming is determined by its characterisation: whichever `i`, `j`
   * satisfy `TrimmedAt(s, i, j)`, `Trim(s)` is `s[i..j]`.
   */
  lemma TrimUnique(s: string, i: int, j: int)
    requires TrimmedAt(s, i, j)
    ensures Trim(s) == s[i..j]
  {
    var i', j' :| TrimmedAt(s, i', j') && Trim(s) == s[i'..j'];
    TrimmedAtEmpty(s, i, j);
    TrimmedAtEmpty(s, i', j');
    if i < j && i' < j' {
      assert s[i..j][0] == s[i] && s[i'..j'][0] == s[i'];
      assert s[i..j][j - i - 1] == s[j - 1] && s[i'..j'][j' - i' - 1] == s[j' - 1];
      assert i == i' && j == j';
    }
  }

  /** Whitespace around a part with no whitespace at its edges is exactly what `Trim` removes. */
  lemma TrimSurrounded(a: string, m: string, b: string)
    requires AllWhitespace(a) && AllWhitespace(b) && NoEdgeWhitespace(m)
    ensures Trim(a + m + b) == m
  {
    var s := a + m + b;
    assert s[|a|..|a| + |m|] == m;
    assert forall k :: 0 <= k < |a| ==> s[k] == a[k];
    assert forall k :: |a| + |m| <= k < |s| ==> s[k] == b[k - |a| - |m|];
    TrimUnique(s, |a|, |a| + |m|);
  }

  /** Trimming an already trimmed string changes nothing. */
  lemma TrimIdempotent(s: string)
    ensures Trim(Trim(s)) == Trim(s)
  {
    var r := Trim(s);
    assert r[0..|r|] == r;
    TrimUnique(r, 0, |r|);
  }
}
