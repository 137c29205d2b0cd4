/** The wrapper pattern of `remove_enclosing_paired_tag`,
      ^<(p|ul|li|ol)[^>]*>[\r\n]*([\s\S]+?)[\r\n]*</\1>$
    as Python's backtracking matcher evaluates it, next to the set of strings
    it describes and the capture a backtracking engine settles on. */
module WrapperPattern {
  import opened Wrappers
  import opened Text

  /** The alternatives of group 1, in the order the engine tries them. */
  const TagNames: seq<string> := ["p", "ul", "li", "ol"]

  /** One successful match: group 1 (the tag name) and group 2 (the inner part). */
  datatype WrapperMatch = WrapperMatch(name: string, inner: string)

  function Opener(name: string, attrs: string): (r: string) {
    "<" + name + attrs + ">"
  }

  function Closer(name: string): (r: string) {
    "</" + name + ">"
  }

  /** The text matched when group 1 is `name`, `[^>]*` consumed `attrs`, the
      two `[\r\n]*` runs consumed `lead` and `trail`, and group 2 is `inner`. */
  function WrapperText(name: string, attrs: string, lead: string, inner: string, trail: string): (r: string) {
    Opener(name, attrs) + lead + inner + trail + Closer(name)
  }

  /** `t` is matched by the pattern with these parts assigned to its pieces. */
  ghost predicate Decomposes(t: string, name: string, attrs: string, lead: string, inner: string, trail: string) {
    && name in TagNames
    && '>' !in attrs
    && All(lead, IsCrLf)
    && All(trail, IsCrLf)
    && |inner| > 0
    && t == WrapperText(name, attrs, lead, inner, trail)
  }

  /** The whole of `t` is in the language of the pattern. */
  ghost predicate MatchesPattern(t: string) {
    exists name, attrs, lead, inner, trail :: Decomposes(t, name, attrs, lead, inner, trail)
  }

  /** The split a backtracking engine settles on: the greedy leading run is as
      long as possible and the lazy group as short as possible. When the middle
      is all CR/LF, the leading run must give back one character to the group. */
  ghost predicate PreferredSplit(inner: string, trail: string) {
    && |inner| > 0
    && if All(inner, IsCrLf) then |inner| == 1 && trail == []
       else !IsCrLf(inner[0]) && !IsCrLf(inner[|inner| - 1])
  }

  /** The alternation after `<`: the first letter fixes which name can match. */
  function OpenerName(t: string): (r: Option<string>)
    ensures r.Some? ==> r.value in TagNames && 1 + |r.value| <= |t| && t[1..1 + |r.value|] == r.value
    ensures r.None? ==> forall n :: n in TagNames && 1 + |n| <= |t| ==> t[1..1 + |n|] != n
  {
    if 2 <= |t| && t[1] == 'p' then Some("p")
    else if 3 <= |t| && t[1..3] == "ul" then Some("ul")
    else if 3 <= |t| && t[1..3] == "li" then Some("li")
    else if 3 <= |t| && t[1..3] == "ol" then Some("ol")
    else None
  }

  /** The position of the first `c` in `s` at or after `from`. */
  function IndexOf(s: string, c: char, from: nat): (r: Option<nat>)
    requires from <= |s|
    decreases |s| - from
    ensures r.Some? ==> from <= r.value < |s| && s[r.value] == c && c !in s[from..r.value]
    ensures r.None? ==> c !in s[from..]
  {
    if from == |s| then None
    else if s[from] == c then Some(from)
    else
      var r := IndexOf(s, c, from + 1);
      assert r.Some? ==> s[from..r.value] == [s[from]] + s[from + 1..r.value];
      assert s[from..] == [s[from]] + s[from + 1..];
      r
  }

  /** Where group 2 of `[\r\n]*([\s\S]+?)[\r\n]*` starts and ends when the
      three pieces together must consume exactly `a`. */
  function InnerBounds(a: string): (r: Option<(nat, nat)>)
    ensures r.None? <==> |a| == 0
    ensures r.Some? ==> var (l, u) := r.value;
                        && l < u <= |a| && All(a[..l], IsCrLf) && All(a[u..], IsCrLf)
                        && PreferredSplit(a[l..u], a[u..])
  {
    if |a| == 0 then None
    else
      var l := CountLeading(a, IsCrLf);
      if l == |a| then
        assert All(a[..|a| - 1], IsCrLf);
        assert a[|a|..] == [];
        Some((|a| - 1, |a|))
      else
        var n := CountTrailing(a, IsCrLf);
        assert a[l..|a| - n][0] == a[l];
        assert All(a[|a| - n..], IsCrLf);
        Some((l, |a| - n))
  }

  /** Python's `re.match` of the pattern against the whole of `t`, with `$`
      at the very end of `t`. Every match it reports is a decomposition of
      `t` with the split the engine prefers. */
  function MatchWrapper(t: string): (r: Option<WrapperMatch>)
    ensures r.Some? ==>
      exists attrs, lead, trail :: Decomposes(t, r.value.name, attrs, lead, r.value.inner, trail)
                                   && PreferredSplit(r.value.inner, trail)
  {
    if |t| == 0 || t[0] != '<' then None
    else match OpenerName(t)
      case None => None
      case Some(name) =>
        match IndexOf(t, '>', 1 + |name|)
        case None => None
        case Some(gt) => MatchAfterOpener(t, name, gt)
  }

  /** The rest of the match once the opener `t[..gt + 1]` is read: the closer
      must end the text, and group 2 is placed inside what lies between. */
  function MatchAfterOpener(t: string, name: string, gt: nat): (r: Option<WrapperMatch>)
    requires name in TagNames && 1 + |name| <= gt < |t|
    requires t[0] == '<' && t[1..1 + |name|] == name && t[gt] == '>' && '>' !in t[1 + |name|..gt]
    ensures r.Some? ==>
      r.value.name == name &&
      exists attrs, lead, trail :: Decomposes(t, name, attrs, lead, r.value.inner, trail)
                                   && PreferredSplit(r.value.inner, trail)
  {
    var close := Closer(name);
    if |t| < gt + 1 + |close| || t[|t| - |close|..] != close then None
    else
      var a := t[gt + 1..|t| - |close|];
      match InnerBounds(a)
      case None => None
      case Some((l, u)) =>
        PiecesDecompose(t, name, gt, l, u);
        Some(WrapperMatch(name, a[l..u]))
  }

  /** The part of `t` a match can span. Without MULTILINE, `$` matches at the
      end of the text and also just before a final newline. A match ends with
      the closer's `>`, so when `t` ends in a newline only the position before
      it can end a match. */
  function UpToFinalNewline(t: string): (r: string)
    ensures t == r || t == r + "\n"
  {
    if |t| > 0 && t[|t| - 1] == '\n' then t[..|t| - 1] else t
  }

  /** `re.findall` with this two-group pattern: the pattern is anchored at the
      start, so there is at most one match, and each match is the pair of groups. */
  function FindAll(t: string): (results: seq<seq<string>>)
    ensures |results| <= 1
    ensures |results| == 0 <==> !MatchesPattern(UpToFinalNewline(t))
    ensures forall k :: 0 <= k < |results| ==> |results[k]| == 2 && |results[k][1]| < |t|
                                                && IsSubstring(results[k][1], t)
  {
    var u := UpToFinalNewline(t);
    match MatchWrapper(u)
    case None =>
      MatchWrapperComplete(u);
      []
    case Some(m) =>
      MatchedInnerIsSubstring(u);
      assert t[0..|u|] == u;
      SubstringOfSlice(m.inner, t, 0, |u|);
      [[m.name, m.inner]]
  }

  /** On text that does not end in a newline, `findall` reports the match of
      the whole text; a final newline after it changes nothing. */
  lemma FindAllNoFinalNewline(t: string)
    requires |t| == 0 || t[|t| - 1] != '\n'
    ensures FindAll(t) == match MatchWrapper(t) case None => [] case Some(m) => [[m.name, m.inner]]
    ensures FindAll(t + "\n") == FindAll(t)
  {
    assert (t + "\n")[..|t|] == t;
  }

  // ---------------------------------------------------------------------------
  // Facts about the pieces

  lemma InnerIsSubstring(t: string, name: string, attrs: string, lead: string, inner: string, trail: string)
    requires t == WrapperText(name, attrs, lead, inner, trail)
    ensures |inner| + 2 * |name| + 5 <= |t|
    ensures IsSubstring(inner, t)
  {
    var k := |Opener(name, attrs)| + |lead|;
    assert t[k..k + |inner|] == inner;
  }

  lemma MatchedInnerIsSubstring(t: string)
    requires MatchWrapper(t).Some?
    ensures |MatchWrapper(t).value.inner| < |t|
    ensures IsSubstring(MatchWrapper(t).value.inner, t)
  {
    var m := MatchWrapper(t).value;
    var attrs, lead, trail :| Decomposes(t, m.name, attrs, lead, m.inner, trail);
    InnerIsSubstring(t, m.name, attrs, lead, m.inner, trail);
  }

  lemma TagNamesDifferInFirstLetter(a: string, b: string)
    requires a in TagNames && b in TagNames && a[0] == b[0]
    ensures a == b
  {
  }

  /** Slicing the text of a decomposition back into its pieces. */
  lemma WrapperTextPieces(t: string, name: string, attrs: string, lead: string, inner: string, trail: string)
    requires t == WrapperText(name, attrs, lead, inner, trail)
    ensures t[0] == '<'
    ensures t[1..1 + |name|] == name
    ensures t[1 + |name|..1 + |name| + |attrs|] == attrs
    ensures t[1 + |name| + |attrs|] == '>'
    ensures t[|t| - |Closer(name)|..] == Closer(name)
    ensures t[2 + |name| + |attrs|..|t| - |Closer(name)|] == lead + inner + trail
  {
    var o := Opener(name, attrs);
    var mid := lead + inner + trail;
    assert t == o + mid + Closer(name);
    assert t[..|o|] == o;
    assert o[1..1 + |name|] == name;
    assert o[1 + |name|..1 + |name| + |attrs|] == attrs;
    assert t[|o|..|o| + |mid|] == mid;
  }

  lemma ThreeWaySplit(a: string, l: nat, u: nat)
    requires l <= u <= |a|
    ensures a == a[..l] + a[l..u] + a[u..]
  {
    SliceSplit(a, 0, l, u);
    SliceSplit(a, 0, u, |a|);
  }

  /** Reassembling the text from the slices the matcher cut it into. */
  lemma AssembleWrapperText(t: string, name: string, gt: nat, lead: string, inner: string, trail: string)
    requires 1 + |name| <= gt && gt + 1 + |Closer(name)| <= |t|
    requires t[0] == '<' && t[1..1 + |name|] == name && t[gt] == '>'
    requires t[|t| - |Closer(name)|..] == Closer(name)
    requires t[gt + 1..|t| - |Closer(name)|] == lead + inner + trail
    ensures t == WrapperText(name, t[1 + |name|..gt], lead, inner, trail)
  {
    var c := |t| - |Closer(name)|;
    var attrs := t[1 + |name|..gt];
    assert t[0..gt + 1] == Opener(name, attrs) by {
      SliceSplit(t, 0, 1, 1 + |name|);
      SliceSplit(t, 0, 1 + |name|, gt);
      SliceSplit(t, 0, gt, gt + 1);
      assert t[0..1] == "<" && t[gt..gt + 1] == ">";
    }
    assert t == t[0..gt + 1] + t[gt + 1..c] + t[c..] by {
      SliceSplit(t, 0, gt + 1, c);
      SliceSplit(t, 0, c, |t|);
    }
  }

  /** The position `IndexOf` reports is the first occurrence. */
  lemma IndexOfFinds(s: string, c: char, from: nat, k: nat)
    requires from <= k < |s| && s[k] == c
    requires forall i :: from <= i < k ==> s[i] != c
    ensures IndexOf(s, c, from) == Some(k)
    decreases k - from
  {
    if from < k {
      IndexOfFinds(s, c, from + 1, k);
    }
  }

  /** The pieces the matcher cuts out of `t` form a preferred decomposition. */
  lemma PiecesDecompose(t: string, name: string, gt: nat, l: nat, u: nat)
    requires name in TagNames && 1 + |name| <= gt && gt + 1 + |Closer(name)| <= |t|
    requires t[0] == '<' && t[1..1 + |name|] == name && t[gt] == '>' && '>' !in t[1 + |name|..gt]
    requires t[|t| - |Closer(name)|..] == Closer(name)
    requires var a := t[gt + 1..|t| - |Closer(name)|];
             && l < u <= |a| && All(a[..l], IsCrLf) && All(a[u..], IsCrLf) && PreferredSplit(a[l..u], a[u..])
    ensures var a := t[gt + 1..|t| - |Closer(name)|];
            exists attrs, lead, trail :: Decomposes(t, name, attrs, lead, a[l..u], trail) && PreferredSplit(a[l..u], trail)
  {
    var a := t[gt + 1..|t| - |Closer(name)|];
    ThreeWaySplit(a, l, u);
    AssembleWrapperText(t, name, gt, a[..l], a[l..u], a[u..]);
    assert Decomposes(t, name, t[1 + |name|..gt], a[..l], a[l..u], a[u..]);
  }

  /** The matcher reads the tag name and the end of the opener of any
      decomposition correctly. */
  lemma DecompositionOpener(t: string, name: string, attrs: string, lead: string, inner: string, trail: string)
    requires Decomposes(t, name, attrs, lead, inner, trail)
    ensures OpenerName(t) == Some(name)
    ensures IndexOf(t, '>', 1 + |name|) == Some(1 + |name| + |attrs|)
  {
    WrapperTextPieces(t, name, attrs, lead, inner, trail);
    var n := OpenerName(t);
    if n.None? {
      assert false;
    }
    assert n.value[0] == t[1] == name[0];
    TagNamesDifferInFirstLetter(n.value, name);
    var gt := 1 + |name| + |attrs|;
    assert forall i :: 1 + |name| <= i < gt ==> t[i] == attrs[i - 1 - |name|];
    IndexOfFinds(t, '>', 1 + |name|, gt);
  }

  /** Every string of the pattern's language is matched. */
  lemma MatchWrapperComplete(t: string)
    ensures MatchesPattern(t) ==> MatchWrapper(t).Some?
  {
    if MatchesPattern(t) {
      var name, attrs, lead, inner, trail :| Decomposes(t, name, attrs, lead, inner, trail);
      DecompositionOpener(t, name, attrs, lead, inner, trail);
      AfterOpenerComplete(t, name, attrs, lead, inner, trail);
      assert MatchWrapper(t) == MatchAfterOpener(t, name, 1 + |name| + |attrs|);
    }
  }

  /** Once the opener of a decomposition is read, the rest of it matches. */
  lemma AfterOpenerComplete(t: string, name: string, attrs: string, lead: string, inner: string, trail: string)
    requires Decomposes(t, name, attrs, lead, inner, trail)
    ensures && 1 + |name| + |attrs| < |t| && t[0] == '<' && t[1..1 + |name|] == name
            && t[1 + |name| + |attrs|] == '>' && '>' !in t[1 + |name|..1 + |name| + |attrs|]
            && MatchAfterOpener(t, name, 1 + |name| + |attrs|).Some?
  {
    WrapperTextPieces(t, name, attrs, lead, inner, trail);
    var gt := 1 + |name| + |attrs|;
    var a := t[gt + 1..|t| - |Closer(name)|];
    assert a == lead + inner + trail && |a| > 0;
    assert InnerBounds(a).Some?;
  }

  /** Two preferred splits of the same middle text coincide. */
  lemma PreferredSplitUnique(a: string, l1: string, i1: string, t1: string, l2: string, i2: string, t2: string)
    requires a == l1 + i1 + t1 && a == l2 + i2 + t2
    requires All(l1, IsCrLf) && All(t1, IsCrLf) && PreferredSplit(i1, t1)
    requires All(l2, IsCrLf) && All(t2, IsCrLf) && PreferredSplit(i2, t2)
    ensures i1 == i2 && l1 == l2 && t1 == t2
  {
    AllConcat(l1, i1, IsCrLf);
    AllConcat(l1 + i1, t1, IsCrLf);
    AllConcat(l2, i2, IsCrLf);
    AllConcat(l2 + i2, t2, IsCrLf);
    if All(a, IsCrLf) {
      // the whole middle is CR/LF: each group is its last character
      assert |l1| == |a| - 1 == |l2|;
      assert l1 == a[..|a| - 1] == l2;
    } else {
      assert a[|l1|] == i1[0] && a[|l2|] == i2[0];
      assert forall k :: 0 <= k < |l1| ==> a[k] == l1[k];
      assert forall k :: 0 <= k < |l2| ==> a[k] == l2[k];
      assert |l1| == |l2|;
      assert a[|a| - |t1| - 1] == i1[|i1| - 1] && a[|a| - |t2| - 1] == i2[|i2| - 1];
      assert forall k :: 0 <= k < |t1| ==> a[|a| - |t1| + k] == t1[k];
      assert forall k :: 0 <= k < |t2| ==> a[|a| - |t2| + k] == t2[k];
      assert |t1| == |t2|;
      assert l1 == a[..|l1|] == l2;
      assert t1 == a[|a| - |t1|..] == t2;
      assert i1 == a[|l1|..|a| - |t1|] == i2;
    }
  }

  /** Two decompositions of one text agree on the tag name and the attributes. */
  lemma DecompositionHeadUnique(t: string, n1: string, a1: string, l1: string, i1: string, t1: string,
                                n2: string, a2: string, l2: string, i2: string, t2: string)
    requires Decomposes(t, n1, a1, l1, i1, t1) && Decomposes(t, n2, a2, l2, i2, t2)
    ensures n1 == n2 && a1 == a2
    ensures l1 + i1 + t1 == l2 + i2 + t2
  {
    WrapperTextPieces(t, n1, a1, l1, i1, t1);
    WrapperTextPieces(t, n2, a2, l2, i2, t2);
    TagNamesDifferInFirstLetter(n1, n2);
    var s := t[1 + |n1|..];
    assert s[|a1|] == '>' && s[|a2|] == '>';
    assert forall k :: 0 <= k < |a1| ==> s[k] == a1[k];
    assert forall k :: 0 <= k < |a2| ==> s[k] == a2[k];
    assert |a1| == |a2|;
    assert a1 == s[..|a1|] == a2;
  }

  /** A text that opens one of the block tags but does not end with the
      matching closer is rejected. */
  lemma CloserMismatchRejected(t: string, name: string)
    requires |t| > 0 && t[0] == '<' && OpenerName(t) == Some(name)
    requires |t| < |Closer(name)| || t[|t| - |Closer(name)|..] != Closer(name)
    ensures MatchWrapper(t) == None
  {
  }

  /** The reference characterisation of the matcher: a preferred decomposition
      of `t` is exactly what the matcher reports. */
  lemma MatchWrapperExact(t: string, name: string, attrs: string, lead: string, inner: string, trail: string)
    requires Decomposes(t, name, attrs, lead, inner, trail) && PreferredSplit(inner, trail)
    ensures MatchWrapper(t) == Some(WrapperMatch(name, inner))
  {
    MatchWrapperComplete(t);
    var m := MatchWrapper(t).value;
    var attrs', lead', trail' :| Decomposes(t, m.name, attrs', lead', m.inner, trail') && PreferredSplit(m.inner, trail');
    DecompositionHeadUnique(t, name, attrs, lead, inner, trail, m.name, attrs', lead', m.inner, trail');
    PreferredSplitUnique(lead + inner + trail, lead, inner, trail, lead', m.inner, trail');
  }

  /** The matcher succeeds on exactly the strings of the pattern's language. */
  lemma MatchWrapperIffPattern(t: string)
    ensures MatchWrapper(t).Some? <==> MatchesPattern(t)
  {
    MatchWrapperComplete(t);
  }
}
