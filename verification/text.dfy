/** Character classes, Python's `str.strip()` and the substring relation. */
module Text {

  /** The characters Python's `str.isspace()` accepts, which `str.strip()`
      with no argument removes from both ends. */
  predicate IsWhitespace(c: char) {
    || c == ' '
    || ('\t' <= c <= '\r')
    || ('\U{1C}' <= c <= '\U{1F}')
    || c == '\U{85}' || c == '\U{A0}' || c == '\U{1680}'
    || ('\U{2000}' <= c <= '\U{200A}')
    || c == '\U{2028}' || c == '\U{2029}' || c == '\U{202F}'
    || c == '\U{205F}' || c == '\U{3000}'
  }

  /** The class `[\r\n]` of the wrapper pattern. */
  predicate IsCrLf(c: char) {
    c == '\r' || c == '\n'
  }

  ghost predicate All(s: string, p: char -> bool) {
    forall i :: 0 <= i < |s| ==> p(s[i])
  }

  /** `a` occurs in `b` as one contiguous block. */
  ghost predicate IsSubstring(a: string, b: string) {
    exists i, j :: 0 <= i <= j <= |b| && a == b[i..j]
  }

  /** Length of the longest prefix of `s` whose characters satisfy `p`. */
  function CountLeading(s: string, p: char -> bool): (n: nat)
    ensures n <= |s|
    ensures forall i :: 0 <= i < n ==> p(s[i])
    ensures n < |s| ==> !p(s[n])
  {
    if |s| == 0 || !p(s[0]) then 0
    else
      1 + CountLeading(s[1..], p)
  }

  /** Length of the longest suffix of `s` whose characters satisfy `p`. */
  function CountTrailing(s: string, p: char -> bool): (n: nat)
    ensures n <= |s|
    ensures forall i :: |s| - n <= i < |s| ==> p(s[i])
    ensures n < |s| ==> !p(s[|s| - n - 1])
  {
    if |s| == 0 || !p(s[|s| - 1]) then 0
    else
      1 + CountTrailing(s[..|s| - 1], p)
  }

  /** Python's `s.strip()`: the whitespace runs at both ends are removed, and
      what remains is empty or starts and ends with a non-whitespace character. */
  function Strip(s: string): (r: string)
    ensures exists i, j :: 0 <= i <= j <= |s| && r == s[i..j]
                           && (forall k :: 0 <= k < i ==> IsWhitespace(s[k]))
                           && (forall k :: j <= k < |s| ==> IsWhitespace(s[k]))
    ensures |r| == 0 || (!IsWhitespace(r[0]) && !IsWhitespace(r[|r| - 1]))
  {
    var i := CountLeading(s, IsWhitespace);
    var n := CountTrailing(s[i..], IsWhitespace);
    StripWitness(s, IsWhitespace, i, n);
    s[i..|s| - n]
  }

  /** The cut points `Strip` computes delimit runs of `p` characters, and
      what lies between them starts and ends outside `p`. */
  lemma StripWitness(s: string, p: char -> bool, i: nat, n: nat)
    requires i == CountLeading(s, p) && n == CountTrailing(s[i..], p)
    ensures i <= |s| - n <= |s|
    ensures forall k :: 0 <= k < i ==> p(s[k])
    ensures forall k :: |s| - n <= k < |s| ==> p(s[k])
    ensures var r := s[i..|s| - n]; |r| == 0 || (!p(r[0]) && !p(r[|r| - 1]))
  {
    TrailingRun(s, p, i, n);
    if i < |s| - n {
      var r := s[i..|s| - n];
      assert r[0] == s[i];
      assert r[|r| - 1] == s[|s| - n - 1];
    }
  }

  /** The trailing run of the suffix from `i` on, read in `s` itself. */
  lemma TrailingRun(s: string, p: char -> bool, i: nat, n: nat)
    requires i <= |s| && n == CountTrailing(s[i..], p)
    ensures i <= |s| - n
    ensures forall k :: |s| - n <= k < |s| ==> p(s[k])
    ensures i < |s| - n ==> !p(s[|s| - n - 1])
  {
    var rest := s[i..];
    forall k | |s| - n <= k < |s|
      ensures p(s[k])
    {
      assert s[k] == rest[k - i];
    }
    if i < |s| - n {
      assert s[|s| - n - 1] == rest[|rest| - n - 1];
    }
  }

  lemma StripIsSubstring(s: string)
    ensures IsSubstring(Strip(s), s)
  {
    var i, j :| 0 <= i <= j <= |s| && Strip(s) == s[i..j];
  }

  /** Text that already starts and ends with non-whitespace is left alone. */
  lemma StripNoEdgeWhitespace(s: string)
    requires |s| > 0 && !IsWhitespace(s[0]) && !IsWhitespace(s[|s| - 1])
    ensures Strip(s) == s
  {
    var i, j :| 0 <= i <= j <= |s| && Strip(s) == s[i..j]
                && (forall k :: 0 <= k < i ==> IsWhitespace(s[k]))
                && (forall k :: j <= k < |s| ==> IsWhitespace(s[k]));
    assert i == 0 && j == |s|;
  }

  /** One space on each side of text with non-whitespace edges is stripped. */
  lemma StripPadded(x: string)
    requires |x| > 0 && !IsWhitespace(x[0]) && !IsWhitespace(x[|x| - 1])
    ensures Strip([' '] + x + [' ']) == x
  {
    var s := [' '] + x + [' '];
    var i, j :| 0 <= i <= j <= |s| && Strip(s) == s[i..j]
                && (forall k :: 0 <= k < i ==> IsWhitespace(s[k]))
                && (forall k :: j <= k < |s| ==> IsWhitespace(s[k]));
    assert s[1] == x[0] && s[|s| - 2] == x[|x| - 1];
    assert i <= 1 && j >= |s| - 1;
    assert Strip(s)[0] == s[i] && Strip(s)[|Strip(s)| - 1] == s[j - 1];
    assert i == 1 && j == |s| - 1;
    assert s[1..|s| - 1] == x;
  }

  /** A stripped string never ends in a newline, so the anchor `$` of a
      pattern applied to it can only match at the very end. */
  lemma StripNeverEndsInNewline(s: string)
    ensures |Strip(s)| == 0 || Strip(s)[|Strip(s)| - 1] != '\n'
  {
  }

  lemma SubstringOfSlice(a: string, b: string, i: nat, j: nat)
    requires i <= j <= |b|
    requires IsSubstring(a, b[i..j])
    ensures IsSubstring(a, b)
  {
    var k, l :| 0 <= k <= l <= j - i && a == b[i..j][k..l];
    assert forall m :: 0 <= m < l - k ==> b[i..j][k..l][m] == b[i + k..i + l][m];
    assert a == b[i + k..i + l];
  }

  lemma {:induction false} SubstringTransitive(a: string, b: string, c: string)
    requires IsSubstring(a, b) && IsSubstring(b, c)
    ensures IsSubstring(a, c)
  {
    var i, j :| 0 <= i <= j <= |c| && b == c[i..j];
    SubstringOfSlice(a, c, i, j);
  }

  /** A property holds of a concatenation exactly when it holds of each part. */
  lemma AllConcat(x: string, y: string, p: char -> bool)
    ensures All(x + y, p) <==> All(x, p) && All(y, p)
  {
    assert forall i :: 0 <= i < |x| ==> (x + y)[i] == x[i];
    assert forall i :: 0 <= i < |y| ==> (x + y)[|x| + i] == y[i];
  }

  lemma SliceSplit(s: string, i: nat, j: nat, k: nat)
    requires i <= j <= k <= |s|
    ensures s[i..k] == s[i..j] + s[j..k]
  {
  }

  lemma SubstringNoLonger(a: string, b: string)
    requires IsSubstring(a, b)
    ensures |a| <= |b|
  {
  }

  lemma SubstringRefl(a: string)
    ensures IsSubstring(a, a)
  {
    assert a == a[0..|a|];
  }
}
