/** The page assembly of `make_bilingual_preview`: from the decoded input to
    the page title and the flat sequence of grid cells, three per textblock.
    The markup parser that re-reads each normalised fragment is a parameter
    `parse`; the grid is built with `render`, the fragment-to-content step,
    which the page instantiates with "normalise, then parse". The page is
    returned only once every textblock was read. */
module Preview {
  import opened Wrappers
  import opened Normalizer

  /** One decoded element of the `Textblocks` array: a JSON object whose
      values are strings. */
  type Entry = map<string, string>

  /** The keys read from every textblock, in the order they are read. */
  const RequiredKeys: seq<string> := ["textblock_id", "item_label", "source_text", "target_text", "comments"]

  /** The `KeyError` a missing key raises; it aborts before anything is rendered. */
  datatype BuildError = MissingField(key: string)

  /** A `div` holding only text: its DOM id (if any), its class, its text. */
  datatype Div = Div(id: Option<string>, klass: string, text: string)

  /** A cell of the three-column grid. The id cell shows the textblock id and
      its label; a text cell holds a re-parsed fragment. */
  datatype Cell<M> =
    | IdCell(id: string, klass: string, anchor: Div, itemLabel: Div)
    | TextCell(id: string, content: M)

  /** The page: its `h1` title and the cells of the grid, in order. */
  datatype Page<M> = Page(title: string, cells: seq<Cell<M>>)

  /** `e` has every key in `RequiredKeys`. */
  ghost predicate HasRequiredKeys(e: Entry) {
    && "textblock_id" in e && "item_label" in e && "source_text" in e
    && "target_text" in e && "comments" in e
  }

  ghost predicate AllHaveRequiredKeys(tbs: seq<Entry>) {
    forall k :: 0 <= k < |tbs| ==> HasRequiredKeys(tbs[k])
  }

  /** The index in `RequiredKeys`, from `from` on, of the first key `e` lacks. */
  function FirstMissingFrom(e: Entry, from: nat): (r: Option<nat>)
    requires from <= |RequiredKeys|
    decreases |RequiredKeys| - from
    ensures r.None? <==> forall k :: from <= k < |RequiredKeys| ==> RequiredKeys[k] in e
    ensures r.Some? ==> from <= r.value < |RequiredKeys| && RequiredKeys[r.value] !in e
                        && forall k :: from <= k < r.value ==> RequiredKeys[k] in e
  {
    if from == |RequiredKeys| then None
    else if RequiredKeys[from] !in e then Some(from)
    else FirstMissingFrom(e, from + 1)
  }

  /** The index of the key whose lookup raises first when the entry is read;
      there is none exactly when the entry has all five keys. */
  function FirstMissingKey(e: Entry): (r: Option<nat>)
    ensures r.None? <==> HasRequiredKeys(e)
    ensures r.Some? ==> r.value < |RequiredKeys| && RequiredKeys[r.value] !in e
                        && forall k :: 0 <= k < r.value ==> RequiredKeys[k] in e
  {
    assert RequiredKeys[0] == "textblock_id" && RequiredKeys[1] == "item_label"
        && RequiredKeys[2] == "source_text" && RequiredKeys[3] == "target_text"
        && RequiredKeys[4] == "comments";
    FirstMissingFrom(e, 0)
  }

  /** The `h1` text. */
  function Title(study: string, instrument: string, culture: string): (r: string) {
    study + " - " + instrument + " [" + culture + "]"
  }

  /** The three cells emitted for one textblock: the id cell (DOM id = the
      textblock id, class `id`, an anchor `div` with id `"id"` + textblock id
      whose class and text are the id, a label `div` whose class and text are
      the item label), then the source and the target cells with ids `"src"`
      and `"tgt"` + textblock id holding the rendered texts. */
  function EntryCells<M>(e: Entry, render: string -> M): (r: seq<Cell<M>>)
    requires HasRequiredKeys(e)
  {
    var id := e["textblock_id"];
    var itemLabel := e["item_label"];
    [ IdCell(id, "id", Div(Some("id" + id), id, id), Div(None, itemLabel, itemLabel)),
      TextCell("src" + id, render(e["source_text"])),
      TextCell("tgt" + id, render(e["target_text"])) ]
  }

  /** Cell group `k` of `cells` shows the textblock `e`. */
  ghost predicate ShowsEntry<M>(cells: seq<Cell<M>>, k: int, e: Entry, render: string -> M)
    requires HasRequiredKeys(e)
  {
    0 <= k && 3 * k + 3 <= |cells| && cells[3 * k..3 * k + 3] == EntryCells(e, render)
  }

  /** The three cells of a shown textblock, one by one. */
  lemma ShownCells<M>(cells: seq<Cell<M>>, k: int, e: Entry, render: string -> M)
    requires HasRequiredKeys(e) && ShowsEntry(cells, k, e, render)
    ensures var id := e["textblock_id"];
            && cells[3 * k] == IdCell(id, "id", Div(Some("id" + id), id, id), Div(None, e["item_label"], e["item_label"]))
            && cells[3 * k + 1] == TextCell("src" + id, render(e["source_text"]))
            && cells[3 * k + 2] == TextCell("tgt" + id, render(e["target_text"]))
  {
    assert cells[3 * k..3 * k + 3][0] == cells[3 * k];
    assert cells[3 * k..3 * k + 3][1] == cells[3 * k + 1];
    assert cells[3 * k..3 * k + 3][2] == cells[3 * k + 2];
  }

  lemma ShowsEntryExtended<M>(cells: seq<Cell<M>>, more: seq<Cell<M>>, k: int, e: Entry, render: string -> M)
    requires HasRequiredKeys(e) && ShowsEntry(cells, k, e, render)
    ensures ShowsEntry(cells + more, k, e, render)
  {
    assert (cells + more)[3 * k..3 * k + 3] == cells[3 * k..3 * k + 3];
  }

  lemma EntryCellsShown<M>(cells: seq<Cell<M>>, n: nat, e: Entry, render: string -> M)
    requires HasRequiredKeys(e) && |cells| == 3 * n
    ensures ShowsEntry(cells + EntryCells(e, render), n, e, render)
  {
    assert (cells + EntryCells(e, render))[3 * n..3 * n + 3] == EntryCells(e, render);
  }

  /** The grid for the textblocks, in input order: the first textblock that
      lacks a key aborts with that key; otherwise each textblock adds its
      three cells after those of the textblocks before it. */
  function BuildCells<M>(tbs: seq<Entry>, render: string -> M): (r: Result<seq<Cell<M>>, BuildError>)
    decreases |tbs|
  {
    if |tbs| == 0 then Success([])
    else
      var e := tbs[|tbs| - 1];
      match BuildCells(tbs[..|tbs| - 1], render)
      case Failure(err) => Failure(err)
      case Success(cells) =>
        match FirstMissingKey(e)
        case Some(i) => Failure(MissingField(RequiredKeys[i]))
        case None => Success(cells + EntryCells(e, render))
  }

  /** The grid is built exactly when every textblock has all five keys,
      `comments` included. */
  lemma {:induction false} BuildCellsSucceedsIff<M>(tbs: seq<Entry>, render: string -> M)
    ensures BuildCells(tbs, render).Success? <==> AllHaveRequiredKeys(tbs)
    decreases |tbs|
  {
    if |tbs| > 0 {
      var prefix := tbs[..|tbs| - 1];
      BuildCellsSucceedsIff(prefix, render);
      assert forall k :: 0 <= k < |prefix| ==> prefix[k] == tbs[k];
    }
  }

  /** A built grid holds three cells per textblock, in input order, group `k`
      showing textblock `k`. */
  lemma {:induction false} BuildCellsLayout<M>(tbs: seq<Entry>, render: string -> M)
    requires BuildCells(tbs, render).Success?
    ensures |BuildCells(tbs, render).value| == 3 * |tbs|
    ensures forall k :: 0 <= k < |tbs| ==> HasRequiredKeys(tbs[k]) && ShowsEntry(BuildCells(tbs, render).value, k, tbs[k], render)
    decreases |tbs|
  {
    if |tbs| > 0 {
      var prefix := tbs[..|tbs| - 1];
      var e := tbs[|tbs| - 1];
      BuildCellsLayout(prefix, render);
      var cells := BuildCells(prefix, render).value;
      var more := EntryCells(e, render);
      assert BuildCells(tbs, render).value == cells + more;
      forall k | 0 <= k < |prefix|
        ensures HasRequiredKeys(tbs[k]) && ShowsEntry(cells + more, k, tbs[k], render)
      {
        assert prefix[k] == tbs[k];
        ShowsEntryExtended(cells, more, k, prefix[k], render);
      }
      EntryCellsShown(cells, |prefix|, e, render);
    }
  }

  /** Textblock `k` is the first incomplete one, and `err` names the first
      key it lacks. */
  ghost predicate FailsAt(tbs: seq<Entry>, k: int, err: BuildError) {
    && 0 <= k < |tbs| && FirstMissingKey(tbs[k]).Some?
    && (forall j :: 0 <= j < k ==> HasRequiredKeys(tbs[j]))
    && err == MissingField(RequiredKeys[FirstMissingKey(tbs[k]).value])
  }

  lemma FailsAtExtended(tbs: seq<Entry>, n: nat, k: int, err: BuildError)
    requires n <= |tbs| && FailsAt(tbs[..n], k, err)
    ensures FailsAt(tbs, k, err)
  {
    assert forall j :: 0 <= j <= k ==> tbs[..n][j] == tbs[j];
  }

  /** A failed build names the first missing key of the first textblock that
      lacks one. */
  lemma {:induction false} BuildCellsError<M>(tbs: seq<Entry>, render: string -> M)
    requires BuildCells(tbs, render).Failure?
    ensures exists k :: FailsAt(tbs, k, BuildCells(tbs, render).error)
    decreases |tbs|
  {
    var n := |tbs| - 1;
    var prefix := tbs[..n];
    if BuildCells(prefix, render).Failure? {
      BuildCellsError(prefix, render);
      var k :| FailsAt(prefix, k, BuildCells(prefix, render).error);
      FailsAtExtended(tbs, n, k, BuildCells(tbs, render).error);
    } else {
      BuildCellsSucceedsIff(prefix, render);
      assert forall j :: 0 <= j < n ==> prefix[j] == tbs[j];
      assert FailsAt(tbs, n, BuildCells(tbs, render).error);
    }
  }

  /** Once a prefix of the textblocks fails, the whole input fails with the
      same error: later textblocks are never looked at. */
  lemma {:induction false} BuildCellsFailurePersists<M>(tbs: seq<Entry>, n: nat, render: string -> M)
    requires n <= |tbs| && BuildCells(tbs[..n], render).Failure?
    ensures BuildCells(tbs, render) == BuildCells(tbs[..n], render)
    decreases |tbs|
  {
    if n < |tbs| {
      var prefix := tbs[..|tbs| - 1];
      assert prefix[..n] == tbs[..n];
      BuildCellsFailurePersists(prefix, n, render);
    } else {
      assert tbs[..n] == tbs;
    }
  }

  /** Extending the input by one complete textblock appends its three cells. */
  lemma BuildCellsAppend<M>(tbs: seq<Entry>, e: Entry, render: string -> M)
    requires BuildCells(tbs, render).Success? && HasRequiredKeys(e)
    ensures BuildCells(tbs + [e], render) == Success(BuildCells(tbs, render).value + EntryCells(e, render))
  {
    assert (tbs + [e])[..|tbs|] == tbs;
  }

  /** `e` and `e'` agree on everything but the value of `comments`. */
  ghost predicate SameButComments(e: Entry, e': Entry) {
    && ("comments" in e <==> "comments" in e')
    && e - {"comments"} == e' - {"comments"}
  }

  lemma SameButCommentsCells<M>(e: Entry, e': Entry, render: string -> M)
    requires SameButComments(e, e')
    ensures FirstMissingKey(e) == FirstMissingKey(e')
    ensures HasRequiredKeys(e) ==> EntryCells(e, render) == EntryCells(e', render)
  {
    var d := e - {"comments"};
    var d' := e' - {"comments"};
    assert forall key :: key != "comments" ==> (key in e <==> key in d) && (key in e' <==> key in d');
    assert "textblock_id" in e ==> e["textblock_id"] == d["textblock_id"] == e'["textblock_id"];
    assert "item_label" in e ==> e["item_label"] == d["item_label"] == e'["item_label"];
    assert "source_text" in e ==> e["source_text"] == d["source_text"] == e'["source_text"];
    assert "target_text" in e ==> e["target_text"] == d["target_text"] == e'["target_text"];
  }

  /** The `comments` value is read but never shown: inputs that differ only
      in it give the same grid, or the same error. */
  lemma {:induction false} CommentsNotRendered<M>(tbs: seq<Entry>, tbs': seq<Entry>, render: string -> M)
    requires |tbs| == |tbs'|
    requires forall k :: 0 <= k < |tbs| ==> SameButComments(tbs[k], tbs'[k])
    ensures BuildCells(tbs, render) == BuildCells(tbs', render)
    decreases |tbs|
  {
    if |tbs| > 0 {
      var n := |tbs| - 1;
      CommentsNotRendered(tbs[..n], tbs'[..n], render);
      SameButCommentsCells(tbs[n], tbs'[n], render);
    }
  }

  /** What a text cell holds: the parser's reading of the normalised fragment. */
  function NormalizeThenParse<M>(parse: string -> M): (r: string -> M) {
    s => parse(Normalize(s))
  }

  /** The decoded JSON document: its top-level string fields and, if present,
      its `Textblocks` array. */
  datatype Document = Document(fields: map<string, string>, textblocks: Option<seq<Entry>>)

  /** The page for a decoded document: the title reads `study`, `instrument`
      and `culture`, then the grid reads `Textblocks`; a missing one is the
      error. */
  function MakePage<M>(doc: Document, parse: string -> M): (r: Result<Page<M>, BuildError>)
    ensures r.Success? <==> && "study" in doc.fields && "instrument" in doc.fields && "culture" in doc.fields
                            && doc.textblocks.Some? && AllHaveRequiredKeys(doc.textblocks.value)
    ensures "study" !in doc.fields ==> r == Failure(MissingField("study"))
    ensures "study" in doc.fields && "instrument" !in doc.fields ==> r == Failure(MissingField("instrument"))
    ensures "study" in doc.fields && "instrument" in doc.fields && "culture" !in doc.fields
            ==> r == Failure(MissingField("culture"))
    ensures "study" in doc.fields && "instrument" in doc.fields && "culture" in doc.fields && doc.textblocks.None?
            ==> r == Failure(MissingField("Textblocks"))
    ensures "study" in doc.fields && "instrument" in doc.fields && "culture" in doc.fields && doc.textblocks.Some?
            ==> r == BuildPage(doc.fields["study"], doc.fields["instrument"], doc.fields["culture"],
                               doc.textblocks.value, parse)
  {
    if "study" !in doc.fields then Failure(MissingField("study"))
    else if "instrument" !in doc.fields then Failure(MissingField("instrument"))
    else if "culture" !in doc.fields then Failure(MissingField("culture"))
    else if doc.textblocks.None? then Failure(MissingField("Textblocks"))
    else
      BuildCellsSucceedsIff(doc.textblocks.value, NormalizeThenParse(parse));
      BuildPage(doc.fields["study"], doc.fields["instrument"], doc.fields["culture"], doc.textblocks.value, parse)
  }

  /** The page for the decoded input, or the error that aborted it. */
  function BuildPage<M>(study: string, instrument: string, culture: string, tbs: seq<Entry>, parse: string -> M)
    : (r: Result<Page<M>, BuildError>)
    ensures r.Success? ==> r.value.title == study + " - " + instrument + " [" + culture + "]"
                           && Success(r.value.cells) == BuildCells(tbs, NormalizeThenParse(parse))
    ensures r.Failure? ==> Failure(r.error) == BuildCells(tbs, NormalizeThenParse(parse))
  {
    var cells :- BuildCells(tbs, NormalizeThenParse(parse));
    Success(Page(Title(study, instrument, culture), cells))
  }

  /** Text cell `k` of a built page holds the parsed normalised source and
      target texts of textblock `k`. */
  lemma PageTextCells<M>(study: string, instrument: string, culture: string, tbs: seq<Entry>, parse: string -> M, k: int)
    requires BuildPage(study, instrument, culture, tbs, parse).Success? && 0 <= k < |tbs|
    ensures HasRequiredKeys(tbs[k])
    ensures var cells := BuildPage(study, instrument, culture, tbs, parse).value.cells;
            && |cells| == 3 * |tbs|
            && cells[3 * k + 1] == TextCell("src" + tbs[k]["textblock_id"], parse(Normalize(tbs[k]["source_text"])))
            && cells[3 * k + 2] == TextCell("tgt" + tbs[k]["textblock_id"], parse(Normalize(tbs[k]["target_text"])))
  {
    BuildCellsLayout(tbs, NormalizeThenParse(parse));
    ShownCells(BuildCells(tbs, NormalizeThenParse(parse)).value, k, tbs[k], NormalizeThenParse(parse));
  }

  /** The page built the way the source does it: one pass over the
      textblocks, appending three cells per textblock and stopping at the
      first missing key. */
  method MakeBilingualPreview<M>(study: string, instrument: string, culture: string, tbs: seq<Entry>, parse: string -> M)
    returns (r: Result<Page<M>, BuildError>)
    ensures r == BuildPage(study, instrument, culture, tbs, parse)
  {
    var render := NormalizeThenParse(parse);
    var cells: seq<Cell<M>> := [];
    var i := 0;
    while i < |tbs|
      invariant 0 <= i <= |tbs|
      invariant BuildCells(tbs[..i], render) == Success(cells)
    {
      var e := tbs[i];
      assert tbs[..i + 1] == tbs[..i] + [e];
      var missing := FirstMissingKey(e);
      if missing.Some? {
        assert tbs[..i + 1][..i] == tbs[..i];
        BuildCellsFailurePersists(tbs, i + 1, render);
        return Failure(MissingField(RequiredKeys[missing.value]));
      }
      BuildCellsAppend(tbs[..i], e, render);
      cells := cells + EntryCells(e, render);
      i := i + 1;
    }
    assert tbs[..i] == tbs;
    return Success(Page(Title(study, instrument, culture), cells));
  }
}
