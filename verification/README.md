# Bilingual preview: fragment normaliser and page assembly

A Dafny model of the core of `talis_create_preview.py`, the tool that turns a
bilingual TALIS JSON export into an HTML preview grid. It models two things:

- **`remove_enclosing_paired_tag`.** This function strips redundant outer
  block wrappers from a markup fragment. It applies the regular expression
  `^<(p|ul|li|ol)[^>]*>[\r\n]*([\s\S]+?)[\r\n]*</\1>$` to the stripped
  fragment and repeats on the captured inner part until nothing matches.
- **Page assembly in `make_bilingual_preview`.** The `h1` title is
  `study - instrument [culture]`. Each textblock of the `Textblocks` array
  becomes three grid cells:
  - an id cell holding an anchor `div` and a label `div`;
  - a source cell with id `src` + textblock id;
  - a target cell with id `tgt` + textblock id.

  Each text cell holds the markup parser's reading of the normalised text.

Modules:

- `Wrappers`: `Option` and `Result`.
- `Text`:
  - Python's `str.isspace` character set and `str.strip`;
  - the "is a substring of" relation used to bound results.
- `WrapperPattern`:
  - the language of the wrapper pattern, as the predicate `Decomposes`: a
    tag name from the list, attributes without `>`, CR/LF runs, a non-empty
    inner part, and the matching closer;
  - the split Python's backtracking engine prefers (`PreferredSplit`);
  - the matcher `MatchWrapper` and `FindAll`, i.e. `re.findall` with this
    two-group pattern.
- `Normalizer`:
  - the recursive normaliser exactly as written, returning `Option` so that
    the `else: pass` branch (which returns `None`) is modelled;
  - a loop version that is proved to compute the same result.
- `NormalizerExamples`: worked fragments.
- `Preview`:
  - the decoded document (`Document`) and its textblocks (maps from key to
    string);
  - the `KeyError` a missing key raises, as `MissingField`;
  - the grid and the page;
  - a loop version of the page assembly that mirrors the source's `for`
    loop.
- `PreviewExamples`: worked pages.

How the regular expression behaves:

- The first letter after `<` fixes the only tag name that can match.
- The opener ends at the first `>`, so `<pre>` is read as a `p` opener with
  attributes `re`.
- The backreference forces the text to end with the closer of that name.
- The lazy group is anchored by `$`. It is whatever lies between the maximal
  CR/LF runs after the opener and before the closer. When that middle is
  only CR/LF characters, the group is its last character.
- `$` matches at the end of the text and also just before a final newline
  (`FindAll` through `UpToFinalNewline`). The pattern is only applied to
  stripped text, which never ends in a newline
  (`Text.StripNeverEndsInNewline`), so there it always means the end of the
  text (`FindAllNoFinalNewline`).
- A fragment with sibling wrappers is not left unchanged:
  `<p>X</p><p>Y</p>` becomes `X</p><p>Y`, because `$` pins the lazy group to
  the final closer (`SiblingsPartlyStripped`).

The markup parser (`BeautifulSoup(..., "html.parser")`) is a function
parameter `parse`, because its code is not part of this model. The grid is
built from a generic fragment-to-content function `render`. The page
instantiates `render` with `NormalizeThenParse(parse)`, so each text cell
holds `parse(Normalize(text))`.

## Model

| member | source | states |
|---|---|---|
| Text.IsWhitespace | talis_create_preview.py:51 | the characters `node.strip()` removes: exactly Python's `str.isspace` set (space, `\t` to `\r`, U+001C to U+001F, U+0085, U+00A0, U+1680, U+2000 to U+200A, U+2028, U+2029, U+202F, U+205F, U+3000) |
| Text.Strip | talis_create_preview.py:51 | `node.strip()`: the result is a contiguous slice of the input with only whitespace cut off at either end, and it is empty or starts and ends with a non-whitespace character |
| Text.StripNoEdgeWhitespace | talis_create_preview.py:51 | a fragment that already starts and ends with non-whitespace is left alone by the strip |
| Text.StripPadded | talis_create_preview.py:51 | a single space on each side of text with non-whitespace edges is removed by the strip |
| Text.StripNeverEndsInNewline | talis_create_preview.py:51 | the stripped text never ends in a newline, so `$` can only match at its very end |
| WrapperPattern.OpenerName | talis_create_preview.py:51 | the alternation of the four tag names after `<`: a reported name is in the list and spelled at position 1; no name means no listed name is spelled there |
| WrapperPattern.IndexOf | talis_create_preview.py:51 | `[^>]*>`: the reported position is the first `>` at or after the start, and no position means there is no `>` there |
| WrapperPattern.InnerBounds | talis_create_preview.py:51 | `[\r\n]*([\s\S]+?)[\r\n]*` over the middle: no capture exactly when the middle is empty; otherwise the bounds enclose CR/LF-only runs and give the engine's preferred split |
| WrapperPattern.MatchWrapper | talis_create_preview.py:51 | every match it reports is a decomposition of the text into opener, CR/LF run, inner part, CR/LF run and matching closer, with the preferred split |
| WrapperPattern.MatchWrapperComplete | talis_create_preview.py:51 | every text in the pattern's language is matched |
| WrapperPattern.MatchWrapperIffPattern | talis_create_preview.py:51 | the matcher succeeds if and only if the text is in the pattern's language |
| WrapperPattern.PreferredSplitUnique | talis_create_preview.py:51 | two preferred splits of the same middle text give the same leading run, group and trailing run |
| WrapperPattern.DecompositionHeadUnique | talis_create_preview.py:51 | two decompositions of one text agree on the tag name, the attributes and the middle |
| WrapperPattern.MatchWrapperExact | talis_create_preview.py:51 | given any preferred decomposition of the text, the matcher reports exactly its tag name and inner part |
| WrapperPattern.CloserMismatchRejected | talis_create_preview.py:51 | the backreference `</\1>`: a text that opens a listed tag but does not end with that tag's closer is not matched |
| WrapperPattern.FindAll | talis_create_preview.py:51 | `re.findall` yields at most one result; none exactly when the text, less a final newline, is outside the pattern's language; each result is a pair whose second group is a strictly shorter substring of the text |
| WrapperPattern.FindAllNoFinalNewline | talis_create_preview.py:51 | on text not ending in a newline, `findall` reports the whole-text match, and adding a final newline changes nothing |
| Normalizer.RemoveEnclosingPairedTag | talis_create_preview.py:50-58 | the result is never `None`, is a substring of the input, and its stripped form no longer matches the pattern |
| Normalizer.UnfoldOnMatch | talis_create_preview.py:54-56 | on a match, the result is that of the recursive call on group 2 |
| Normalizer.ReturnsInputIffNoWrapper | talis_create_preview.py:51-53 | the input comes back exactly as given (surrounding whitespace included) if and only if its stripped form does not match |
| Normalizer.UnwrapsPreferredCapture | talis_create_preview.py:51-56 | for any preferred decomposition of the stripped input, the result is the normalisation of its inner part |
| Normalizer.Idempotent | talis_create_preview.py:50-58 | the normalised fragment comes back unchanged, so normalising twice equals normalising once |
| Normalizer.WrapDecomposes | talis_create_preview.py:51 | a wrapper written with no CR/LF around content without CR/LF edges is, after stripping, a preferred decomposition with that content as the group |
| Normalizer.StripsOneWrapper | talis_create_preview.py:51-56 | one `p`/`ul`/`li`/`ol` wrapper, with any attributes, around such content is removed |
| Normalizer.NestedWrappersUnwrap | talis_create_preview.py:50-58 | any stack of listed wrappers around such content is removed entirely |
| Normalizer.NormalizeIteratively | talis_create_preview.py:50-58 | the loop that strips one wrapper per round until no match returns what the recursive normaliser returns |
| NormalizerExamples.NoAngleUnchanged | talis_create_preview.py:51-53 | a fragment whose stripped form does not start with `<` comes back as given |
| NormalizerExamples.RejectedUnchanged | talis_create_preview.py:51-53 | a fragment the matcher rejects comes back as given |
| NormalizerExamples.PlainTextUnchanged | talis_create_preview.py:51-53 | plain text comes back as given |
| NormalizerExamples.ParagraphUnwrapped | talis_create_preview.py:50-58 | `<p>x</p>` becomes `x` |
| NormalizerExamples.NestedParagraphsUnwrapped | talis_create_preview.py:50-58 | `<p><p>x</p></p>` becomes `x` |
| NormalizerExamples.FinalNewlineStillMatched | talis_create_preview.py:51 | `findall` on `<p>x</p>` followed by a newline reports `('p', x)`, because `$` matches before the final newline |
| NormalizerExamples.OpenerEndsAtFirstAngle | talis_create_preview.py:51 | `<pre>x</p>` becomes `x`: `re` is read as attributes of a `p` opener |
| NormalizerExamples.SiblingsPartlyStripped | talis_create_preview.py:51-56 | `<p>x</p><p>y</p>` becomes `x</p><p>y` |
| NormalizerExamples.MismatchedCloserUnchanged | talis_create_preview.py:51-53 | `<p>x</li>` comes back as given |
| NormalizerExamples.InlineWrapperUnchanged | talis_create_preview.py:51-53 | `<b>x</b>` comes back as given |
| NormalizerExamples.ItemUnwrapped | talis_create_preview.py:50-58 | `<li>x</li>` becomes `x` |
| NormalizerExamples.ListStep | talis_create_preview.py:51-56 | the line breaks right inside `<ul>` and before `</ul>` are not part of the group |
| NormalizerExamples.ListWithLineBreaksUnwrapped | talis_create_preview.py:50-58 | `<ul>\n<li>x</li>\n</ul>` becomes `x` |
| NormalizerExamples.SpacedParagraphStep | talis_create_preview.py:51-56 | spaces around a paragraph are stripped only for the match; the group keeps the inner spaces |
| NormalizerExamples.PaddedTextUnchanged | talis_create_preview.py:51-53 | plain text padded with spaces comes back with its spaces |
| NormalizerExamples.InnerSpacesKept | talis_create_preview.py:50-58 | ` <p> x </p> ` becomes ` x ` |
| NormalizerExamples.LineBreaksOnlyKeepsLast | talis_create_preview.py:50-58 | `<p>\r\n</p>` becomes `\n` |
| Preview.FirstMissingKey | talis_create_preview.py:169-175 | the first of the five keys whose lookup raises; there is none exactly when the textblock has all five keys |
| Preview.Title | talis_create_preview.py:155 | the `h1` text: study, then ` - `, then instrument, then ` [`, culture and `]` |
| Preview.EntryCells | talis_create_preview.py:179-189 | the three cells of one textblock. The id cell has DOM id = textblock id and class `id`; it holds an anchor `div` with id `id` + textblock id whose class and text are the id, and a label `div` whose class and text are the item label. Then come the cell with id `src` + textblock id holding the rendered source text and the cell with id `tgt` + textblock id holding the rendered target text |
| Preview.BuildCells | talis_create_preview.py:166-189 | the `for` loop as a function: the first textblock missing a key aborts with the first key it lacks; otherwise each textblock's three cells follow those of the textblocks before it, in input order |
| Preview.ShownCells | talis_create_preview.py:179-189 | in a grid whose group `k` shows a textblock, cell `3k` is its id cell, `3k+1` its `src` cell and `3k+2` its `tgt` cell |
| Preview.BuildCellsSucceedsIff | talis_create_preview.py:167-175 | the grid is built if and only if every textblock has all five keys, `comments` included |
| Preview.BuildCellsLayout | talis_create_preview.py:167-189 | a built grid has three cells per textblock in input order. Group `k` is the id cell (DOM id = textblock id, class `id`, anchor `div` with id `id` + textblock id whose class and text are the id, label `div` whose class and text are the item label), then the `src` and `tgt` cells |
| Preview.BuildCellsError | talis_create_preview.py:167-175 | a failed build names the first missing key of the first incomplete textblock; every textblock before it is complete |
| Preview.FailsAtExtended | talis_create_preview.py:167-175 | the first incomplete textblock of a prefix is also the first incomplete textblock of the whole input |
| Preview.BuildCellsFailurePersists | talis_create_preview.py:167-175 | once a prefix fails, the whole input fails with the same error |
| Preview.BuildCellsAppend | talis_create_preview.py:167-189 | one more complete textblock appends exactly its three cells |
| Preview.SameButCommentsCells | talis_create_preview.py:169-189 | textblocks differing only in the `comments` value fail alike and give the same cells |
| Preview.CommentsNotRendered | talis_create_preview.py:175-189 | inputs differing only in the `comments` values give the same grid or the same error |
| Preview.MakePage | talis_create_preview.py:155-156 | the page exists if and only if `study`, `instrument`, `culture` and `Textblocks` are present and every textblock is complete; the first of these four fields that is missing, in that order, is the error; with all four present the result is the page or grid error for the textblocks |
| Preview.BuildPage | talis_create_preview.py:155-189 | the title is `study - instrument [culture]`, and the cells or the error are those of the grid built with "normalise, then parse" |
| Preview.PageTextCells | talis_create_preview.py:173-189 | on a built page, text cells `3k+1` and `3k+2` hold `parse` applied to the normalised source and target texts of textblock `k` |
| Preview.MakeBilingualPreview | talis_create_preview.py:166-189 | the single pass over the textblocks, stopping at the first missing key, produces the same page or error as the functional definition |
| PreviewExamples.OneTextblockGrid | talis_create_preview.py:167-189 | one complete textblock gives exactly its three cells |
| PreviewExamples.OneTextblockPage | talis_create_preview.py:155-189 | a header with the three title fields and one complete textblock give the title and that textblock's cells |
| PreviewExamples.OneParagraphPage | talis_create_preview.py:155-189 | the whole page for header `S`/`I`/`en-US` and textblock `001`/`Q1` with single-paragraph texts: title `S - I [en-US]`, id cell, `src001` = parse(x), `tgt001` = parse(y) |
| PreviewExamples.MissingCommentsAborts | talis_create_preview.py:175 | a textblock without `comments` aborts with that key, although the value is never shown |
| PreviewExamples.LaterTextblockAborts | talis_create_preview.py:167-169 | a second textblock without `textblock_id` aborts the page, even though the first one was complete |
| PreviewExamples.MissingCultureAborts | talis_create_preview.py:155 | without `culture` there is no page |

## Left out

- The command-line handling at lines 19-45 and 197-199 is argument parsing and process exit, not logic of the core.
- The file-existence check at lines 63-65 is file-system I/O. It also calls an undefined `python` function.
- Reading the JSON file (`utf-8-sig` decoding, `json.load`, lines 152-153) is I/O. The model starts from the decoded `Document`.
- JSON values that are not strings are not modelled. Textblocks are maps from key to string, so the `str(textblock_id)` conversion is the identity here.
- The HTML document writer is left out: the Yawrap object, the embedded CSS and JavaScript, the file path, and `jawrap.render()` (lines 67-149 and 191). The model produces the page's title and cell structure, not HTML text.
- The search box markup at lines 160-164 is a constant, independent of the input.
- BeautifulSoup is the parameter `parse`, because its code is not part of this model. What it does to a fragment is not modelled.
- The unused `i = textblocks.index(entry)` at line 168 is left out. It has no effect on the page, apart from being quadratic in time.
- Python's recursion depth limit is not modelled. With redundant wrappers nested deeper than that limit (about 1000 by default), the recursive call at line 55 raises `RecursionError` and no page is built; the model, whose recursion ends because each step makes the fragment strictly shorter, returns the fully unwrapped fragment instead.
