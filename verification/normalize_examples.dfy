/** Fragments of typical shapes and what the normaliser makes of them. */
module NormalizerExamples {
  import opened Wrappers
  import opened Text
  import opened WrapperPattern
  import opened Normalizer

  /** Text content: non-empty, not starting with a tag, no whitespace
      (so no CR/LF) at either end. */
  ghost predicate PlainText(x: string) {
    |x| > 0 && x[0] != '<' && !IsWhitespace(x[0]) && !IsWhitespace(x[|x| - 1])
  }

  /** A fragment whose stripped form starts with something other than `<`
      cannot match and comes back as given. */
  lemma NoAngleUnchanged(s: string)
    requires |Strip(s)| == 0 || Strip(s)[0] != '<'
    ensures RemoveEnclosingPairedTag(s) == Some(s)
  {
    MatchWrapperIffPattern(Strip(s));
    ReturnsInputIffNoWrapper(s);
  }

  /** A fragment the matcher rejects comes back as given. */
  lemma RejectedUnchanged(s: string)
    requires MatchWrapper(Strip(s)).None?
    ensures RemoveEnclosingPairedTag(s) == Some(s)
  {
    MatchWrapperIffPattern(Strip(s));
    ReturnsInputIffNoWrapper(s);
  }

  lemma PlainTextUnchanged(x: string)
    requires PlainText(x)
    ensures RemoveEnclosingPairedTag(x) == Some(x)
  {
    StripNoEdgeWhitespace(x);
    NoAngleUnchanged(x);
  }

  lemma ParagraphUnwrapped(x: string)
    requires PlainText(x)
    ensures RemoveEnclosingPairedTag("<p>" + x + "</p>") == Some(x)
  {
    assert Wrap("p", "", x) == "<p>" + x + "</p>";
    StripsOneWrapper("p", "", x);
    PlainTextUnchanged(x);
  }

  lemma NestedParagraphsUnwrapped(x: string)
    requires PlainText(x)
    ensures RemoveEnclosingPairedTag("<p><p>" + x + "</p></p>") == Some(x)
  {
    var w := "<p>" + x + "</p>";
    assert w[0] == '<' && w[|w| - 1] == '>';
    assert Wrap("p", "", w) == "<p><p>" + x + "</p></p>";
    StripsOneWrapper("p", "", w);
    ParagraphUnwrapped(x);
  }

  /** `$` also matches just before a final newline, so `findall` still finds
      a paragraph that is followed by one. */
  lemma FinalNewlineStillMatched(x: string, t: string)
    requires PlainText(x) && t == "<p>" + x + "</p>\n"
    ensures FindAll(t) == [["p", x]]
  {
    ParagraphNewlineText(x, t);
    ParagraphNewlineFound(x);
  }

  lemma ParagraphNewlineText(x: string, t: string)
    requires t == "<p>" + x + "</p>\n"
    ensures t == Wrap("p", "", x) + "\n"
  {
    assert Wrap("p", "", x) == "<p>" + x + "</p>";
  }

  lemma ParagraphNewlineFound(x: string)
    requires PlainText(x)
    ensures FindAll(Wrap("p", "", x) + "\n") == [["p", x]]
  {
    ParagraphMatched(x);
    FindAllNoFinalNewline(Wrap("p", "", x));
  }

  lemma ParagraphMatched(x: string)
    requires PlainText(x)
    ensures |Wrap("p", "", x)| > 0 && Wrap("p", "", x)[|Wrap("p", "", x)| - 1] == '>'
    ensures MatchWrapper(Wrap("p", "", x)) == Some(WrapperMatch("p", x))
  {
    var w := Wrap("p", "", x);
    assert w[0] == '<' && w[|w| - 1] == '>';
    WrapDecomposes("p", "", x);
    StripNoEdgeWhitespace(w);
    MatchWrapperExact(w, "p", "", [], x, []);
  }

  /** The opener ends at the first `>`, so `<pre>` counts as a `p` opener. */
  lemma OpenerEndsAtFirstAngle(x: string)
    requires PlainText(x)
    ensures RemoveEnclosingPairedTag("<pre>" + x + "</p>") == Some(x)
  {
    assert Wrap("p", "re", x) == "<pre>" + x + "</p>";
    StripsOneWrapper("p", "re", x);
    PlainTextUnchanged(x);
  }

  /** Two sibling paragraphs: `$` anchors the lazy group at the end, so the
      first opener and the last closer are removed and the middle is kept. */
  lemma SiblingsPartlyStripped(x: string, y: string)
    requires PlainText(x) && PlainText(y)
    ensures RemoveEnclosingPairedTag("<p>" + x + "</p><p>" + y + "</p>") == Some(x + "</p><p>" + y)
  {
    var inner := x + "</p><p>" + y;
    assert inner[0] == x[0] && inner[|inner| - 1] == y[|y| - 1];
    assert Wrap("p", "", inner) == "<p>" + x + "</p><p>" + y + "</p>";
    StripsOneWrapper("p", "", inner);
    PlainTextUnchanged(inner);
  }

  /** A closer naming another tag defeats the match. */
  lemma MismatchedCloserUnchanged(x: string)
    ensures RemoveEnclosingPairedTag("<p>" + x + "</li>") == Some("<p>" + x + "</li>")
  {
    var s := "<p>" + x + "</li>";
    StripNoEdgeWhitespace(s);
    assert OpenerName(s) == Some("p");
    assert s[|s| - 4..][0] == '/' && Closer("p")[0] == '<';
    CloserMismatchRejected(s, "p");
    RejectedUnchanged(s);
  }

  /** Inline wrappers are never removed. */
  lemma InlineWrapperUnchanged(x: string)
    ensures RemoveEnclosingPairedTag("<b>" + x + "</b>") == Some("<b>" + x + "</b>")
  {
    var s := "<b>" + x + "</b>";
    StripNoEdgeWhitespace(s);
    assert s[1] == 'b';
    assert OpenerName(s) == None;
    RejectedUnchanged(s);
  }

  lemma ItemUnwrapped(x: string)
    requires PlainText(x)
    ensures RemoveEnclosingPairedTag("<li>" + x + "</li>") == Some(x)
  {
    assert Wrap("li", "", x) == "<li>" + x + "</li>";
    StripsOneWrapper("li", "", x);
    PlainTextUnchanged(x);
  }

  lemma ListStep(x: string)
    requires PlainText(x)
    ensures RemoveEnclosingPairedTag("<ul>\n<li>" + x + "</li>\n</ul>") == RemoveEnclosingPairedTag("<li>" + x + "</li>")
  {
    var item := "<li>" + x + "</li>";
    var s := "<ul>\n<li>" + x + "</li>\n</ul>";
    ListText(x);
    StripNoEdgeWhitespace(s);
    assert PreferredSplit(item, "\n");
    UnwrapsPreferredCapture(s, "ul", "", "\n", item, "\n");
  }

  lemma ListText(x: string)
    ensures var item := "<li>" + x + "</li>";
            var s := "<ul>\n<li>" + x + "</li>\n</ul>";
            && s == WrapperText("ul", "", "\n", item, "\n")
            && |s| > 0 && s[0] == '<' && s[|s| - 1] == '>'
            && |item| > 0 && item[0] == '<' && item[|item| - 1] == '>'
  {
  }

  /** The CR/LF runs next to the opener and the closer are dropped, and the
      nested list item goes too. */
  lemma ListWithLineBreaksUnwrapped(x: string)
    requires PlainText(x)
    ensures RemoveEnclosingPairedTag("<ul>\n<li>" + x + "</li>\n</ul>") == Some(x)
  {
    ListStep(x);
    ItemUnwrapped(x);
  }

  lemma SpacedParagraphStep(x: string)
    requires PlainText(x)
    ensures RemoveEnclosingPairedTag(" <p> " + x + " </p> ") == RemoveEnclosingPairedTag(" " + x + " ")
  {
    var inner := " " + x + " ";
    SpacedParagraphStripped(x);
    assert inner[0] == ' ' && inner[|inner| - 1] == ' ';
    WrapDecomposes("p", "", inner);
    UnwrapsPreferredCapture(" <p> " + x + " </p> ", "p", "", [], inner, []);
  }

  lemma SpacedParagraphStripped(x: string)
    requires PlainText(x)
    ensures Strip(" <p> " + x + " </p> ") == Wrap("p", "", " " + x + " ")
  {
    SpacedParagraphText(x);
    StripPadded(Wrap("p", "", " " + x + " "));
  }

  lemma SpacedParagraphText(x: string)
    ensures var w := Wrap("p", "", " " + x + " ");
            && " <p> " + x + " </p> " == [' '] + w + [' ']
            && |w| > 0 && w[0] == '<' && w[|w| - 1] == '>'
  {
    var w := Wrap("p", "", " " + x + " ");
    assert w == "<p>" + " " + x + " " + "</p>";
  }

  lemma PaddedTextUnchanged(x: string)
    requires PlainText(x)
    ensures RemoveEnclosingPairedTag(" " + x + " ") == Some(" " + x + " ")
  {
    assert " " + x + " " == [' '] + x + [' '];
    StripPadded(x);
    NoAngleUnchanged(" " + x + " ");
  }

  /** Whitespace is trimmed only for the match: the innermost fragment keeps
      its own spaces. */
  lemma InnerSpacesKept(x: string)
    requires PlainText(x)
    ensures RemoveEnclosingPairedTag(" <p> " + x + " </p> ") == Some(" " + x + " ")
  {
    SpacedParagraphStep(x);
    PaddedTextUnchanged(x);
  }

  /** A middle made only of line breaks: the greedy leading run gives back its
      last character to the group, which is all that survives. */
  lemma LineBreaksOnlyKeepsLast()
    ensures RemoveEnclosingPairedTag("<p>\r\n</p>") == Some("\n")
  {
    LineBreaksStep();
    LineBreakUnchanged();
  }

  lemma LineBreaksStep()
    ensures RemoveEnclosingPairedTag("<p>\r\n</p>") == RemoveEnclosingPairedTag("\n")
  {
    var s := "<p>\r\n</p>";
    assert s == WrapperText("p", "", "\r", "\n", "");
    StripNoEdgeWhitespace(s);
    assert PreferredSplit("\n", "");
    UnwrapsPreferredCapture(s, "p", "", "\r", "\n", "");
  }

  lemma LineBreakUnchanged()
    ensures RemoveEnclosingPairedTag("\n") == Some("\n")
  {
    assert Strip("\n") == "";
    NoAngleUnchanged("\n");
  }
}
