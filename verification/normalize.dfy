/** `remove_enclosing_paired_tag`: strips redundant outer block wrappers
    (`p`, `ul`, `li`, `ol`) from a markup fragment until none is left. */
module Normalizer {
  import opened Wrappers
  import opened Text
  import opened WrapperPattern

  /** The normaliser as written: the stripped fragment is matched with
      `re.findall`; no match returns the fragment untouched (surrounding
      whitespace included), a match recurses on group 2, and the branch for a
      match that is not a pair would return `None`. The result is never `None`,
      lies inside the input, and is a fixed point: stripped, it no longer
      matches the wrapper pattern. */
  function RemoveEnclosingPairedTag(node: string): (r: Option<string>)
    ensures r.Some?
    ensures IsSubstring(r.value, node)
    ensures !MatchesPattern(Strip(r.value))
    decreases |node|
  {
    var t := Strip(node);
    var results := FindAll(t);
    StripNeverEndsInNewline(node);
    StripIsSubstring(node);
    SubstringNoLonger(t, node);
    if |results| == 0 then
      SubstringRefl(node);
      Some(node)
    else if |results[0]| == 2 then
      var r := RemoveEnclosingPairedTag(results[0][1]);
      SubstringTransitive(r.value, results[0][1], t);
      SubstringTransitive(r.value, t, node);
      r
    else
      None
  }

  /** One step of the recursion: a match hands group 2 to the recursive call. */
  lemma UnfoldOnMatch(s: string, m: WrapperMatch)
    requires MatchWrapper(Strip(s)) == Some(m)
    ensures RemoveEnclosingPairedTag(s) == RemoveEnclosingPairedTag(m.inner)
  {
    FindAllNoFinalNewline(Strip(s));
    assert FindAll(Strip(s)) == [[m.name, m.inner]];
  }

  /** The normalised fragment. */
  function Normalize(s: string): (r: string) {
    RemoveEnclosingPairedTag(s).value
  }

  /** The input comes back exactly as given if and only if, once stripped, it
      does not match the wrapper pattern. */
  lemma ReturnsInputIffNoWrapper(s: string)
    ensures RemoveEnclosingPairedTag(s) == Some(s) <==> !MatchesPattern(Strip(s))
  {
    var t := Strip(s);
    StripNeverEndsInNewline(s);
    StripIsSubstring(s);
    SubstringNoLonger(t, s);
    if MatchesPattern(t) {
      var inner := FindAll(t)[0][1];
      SubstringNoLonger(Normalize(inner), inner);
      assert |Normalize(s)| < |s|;
    }
  }

  /** On a match, the result is the normalisation of the inner part the
      engine captures: opener, closer and the CR/LF runs next to them go. */
  lemma UnwrapsPreferredCapture(s: string, name: string, attrs: string, lead: string, inner: string, trail: string)
    requires Decomposes(Strip(s), name, attrs, lead, inner, trail) && PreferredSplit(inner, trail)
    ensures RemoveEnclosingPairedTag(s) == RemoveEnclosingPairedTag(inner)
  {
    MatchWrapperExact(Strip(s), name, attrs, lead, inner, trail);
    UnfoldOnMatch(s, WrapperMatch(name, inner));
  }

  /** Normalising twice is normalising once: the normalised fragment comes
      back unchanged. */
  lemma Idempotent(s: string)
    ensures RemoveEnclosingPairedTag(Normalize(s)) == Some(Normalize(s))
    ensures RemoveEnclosingPairedTag(Normalize(s)) == RemoveEnclosingPairedTag(s)
  {
    ReturnsInputIffNoWrapper(Normalize(s));
  }

  /** A wrapper with no CR/LF around its content, as it appears in markup. */
  function Wrap(name: string, attrs: string, x: string): (r: string) {
    WrapperText(name, attrs, [], x, [])
  }

  lemma WrapDecomposes(name: string, attrs: string, x: string)
    requires name in TagNames && '>' !in attrs
    requires |x| > 0 && !IsCrLf(x[0]) && !IsCrLf(x[|x| - 1])
    ensures Decomposes(Strip(Wrap(name, attrs, x)), name, attrs, [], x, []) && PreferredSplit(x, [])
  {
    var w := Wrap(name, attrs, x);
    WrapperTextPieces(w, name, attrs, [], x, []);
    StripNoEdgeWhitespace(w);
  }

  /** One wrapper around content that does not start or end with CR/LF is
      removed, whatever attributes the opener carries. */
  lemma StripsOneWrapper(name: string, attrs: string, x: string)
    requires name in TagNames && '>' !in attrs
    requires |x| > 0 && !IsCrLf(x[0]) && !IsCrLf(x[|x| - 1])
    ensures RemoveEnclosingPairedTag(Wrap(name, attrs, x)) == RemoveEnclosingPairedTag(x)
  {
    WrapDecomposes(name, attrs, x);
    UnwrapsPreferredCapture(Wrap(name, attrs, x), name, attrs, [], x, []);
  }

  /** Wrapping `x` in the given tags, innermost last. */
  function WrapAll(names: seq<string>, x: string): (r: string)
    decreases |names|
  {
    if |names| == 0 then x else Wrap(names[0], "", WrapAll(names[1..], x))
  }

  lemma WrapEdges(name: string, attrs: string, x: string)
    ensures var w := Wrap(name, attrs, x); |w| > 0 && w[0] == '<' && w[|w| - 1] == '>'
  {
  }

  lemma WrapAllEdges(names: seq<string>, x: string)
    requires |x| > 0 && !IsCrLf(x[0]) && !IsCrLf(x[|x| - 1])
    ensures var w := WrapAll(names, x); |w| > 0 && !IsCrLf(w[0]) && !IsCrLf(w[|w| - 1])
  {
    if |names| > 0 {
      WrapEdges(names[0], "", WrapAll(names[1..], x));
    }
  }

  /** Any stack of redundant wrappers is removed completely. */
  lemma {:induction false} NestedWrappersUnwrap(names: seq<string>, x: string)
    requires forall k :: 0 <= k < |names| ==> names[k] in TagNames
    requires |x| > 0 && !IsCrLf(x[0]) && !IsCrLf(x[|x| - 1])
    ensures RemoveEnclosingPairedTag(WrapAll(names, x)) == RemoveEnclosingPairedTag(x)
    decreases |names|
  {
    if |names| > 0 {
      var w := WrapAll(names[1..], x);
      assert WrapAll(names, x) == Wrap(names[0], "", w);
      NestedWrappersUnwrap(names[1..], x);
      WrapAllEdges(names[1..], x);
      StripsOneWrapper(names[0], "", w);
    }
  }

  /** The loop form of the normaliser: strip one wrapper at a time until the
      fragment no longer matches. It computes the same result. */
  method NormalizeIteratively(s: string) returns (r: string)
    ensures RemoveEnclosingPairedTag(s) == Some(r)
  {
    r := s;
    var m := MatchWrapper(Strip(r));
    while m.Some?
      invariant m == MatchWrapper(Strip(r))
      invariant RemoveEnclosingPairedTag(r) == RemoveEnclosingPairedTag(s)
      decreases |r|
    {
      MatchedInnerIsSubstring(Strip(r));
      StripIsSubstring(r);
      SubstringNoLonger(Strip(r), r);
      UnfoldOnMatch(r, m.value);
      r := m.value.inner;
      m := MatchWrapper(Strip(r));
    }
    MatchWrapperIffPattern(Strip(r));
    ReturnsInputIffNoWrapper(r);
  }
}
