/** Worked pages: one complete textblock, and the ways a document can lack a
    field. */
module PreviewExamples {
  import opened Wrappers
  import opened Normalizer
  import opened NormalizerExamples
  import opened Preview

  function Textblock(id: string, itemLabel: string, source: string, target: string): (r: Entry) {
    map["textblock_id" := id, "item_label" := itemLabel, "source_text" := source,
        "target_text" := target, "comments" := ""]
  }

  function Header(): (r: map<string, string>) {
    map["study" := "S", "instrument" := "I", "culture" := "en-US"]
  }

  /** A one-textblock document whose texts are single paragraphs: the title
      joins the header fields, the id cell shows the id and label, and each
      text cell holds the parsed paragraph content. */
  lemma OneParagraphPage<M>(x: string, y: string, parse: string -> M)
    requires PlainText(x) && PlainText(y)
    ensures MakePage(Document(Header(), Some([Textblock("001", "Q1", Paragraph(x), Paragraph(y))])), parse)
         == Success(Page("S - I [en-US]",
                         [ IdCell("001", "id", Div(Some("id001"), "001", "001"), Div(None, "Q1", "Q1")),
                           TextCell("src001", parse(x)),
                           TextCell("tgt001", parse(y)) ]))
  {
    var e := Textblock("001", "Q1", Paragraph(x), Paragraph(y));
    var render := NormalizeThenParse(parse);
    OneTextblockPage(Header(), e, parse);
    ParagraphRendered(x, parse);
    ParagraphRendered(y, parse);
    ParagraphCells(x, y, e, parse, render);
    assert Header()["study"] + " - " + Header()["instrument"] + " [" + Header()["culture"] + "]" == "S - I [en-US]";
  }

  lemma ParagraphCells<M>(x: string, y: string, e: Entry, parse: string -> M, render: string -> M)
    requires e == Textblock("001", "Q1", Paragraph(x), Paragraph(y))
    requires render(e["source_text"]) == parse(x) && render(e["target_text"]) == parse(y)
    ensures EntryCells(e, render)
         == [ IdCell("001", "id", Div(Some("id001"), "001", "001"), Div(None, "Q1", "Q1")),
              TextCell("src001", parse(x)),
              TextCell("tgt001", parse(y)) ]
  {
    assert e["textblock_id"] == "001" && e["item_label"] == "Q1";
    assert "id" + "001" == "id001" && "src" + "001" == "src001" && "tgt" + "001" == "tgt001";
  }

  /** A `p` element around plain text. */
  function Paragraph(x: string): (r: string) {
    "<p>" + x + "</p>"
  }

  lemma ParagraphRendered<M>(x: string, parse: string -> M)
    requires PlainText(x)
    ensures NormalizeThenParse(parse)(Paragraph(x)) == parse(x)
  {
    ParagraphNormalized(x);
    RenderNormalized(parse, Paragraph(x), x);
  }

  lemma ParagraphNormalized(x: string)
    requires PlainText(x)
    ensures Normalize(Paragraph(x)) == x
  {
    ParagraphUnwrapped(x);
  }

  lemma RenderNormalized<M>(parse: string -> M, s: string, n: string)
    requires Normalize(s) == n
    ensures NormalizeThenParse(parse)(s) == parse(n)
  {
  }

  /** A header with the three title fields and one complete textblock give
      the title and that textblock's three cells. */
  lemma OneTextblockPage<M>(header: map<string, string>, e: Entry, parse: string -> M)
    requires "study" in header && "instrument" in header && "culture" in header
    requires HasRequiredKeys(e)
    ensures MakePage(Document(header, Some([e])), parse)
         == Success(Page(header["study"] + " - " + header["instrument"] + " [" + header["culture"] + "]",
                         EntryCells(e, NormalizeThenParse(parse))))
  {
    OneTextblockGrid(e, NormalizeThenParse(parse));
  }

  lemma OneTextblockGrid<M>(e: Entry, render: string -> M)
    requires HasRequiredKeys(e)
    ensures BuildCells([e], render) == Success(EntryCells(e, render))
  {
    assert [e][..0] == [];
    assert BuildCells([e][..0], render) == Success([]);
    assert FirstMissingKey(e).None?;
    assert [] + EntryCells(e, render) == EntryCells(e, render);
  }

  /** A textblock without `comments` aborts the page, although the value
      would never be shown. */
  lemma MissingCommentsAborts<M>(x: string, parse: string -> M)
    ensures MakePage(Document(Header(), Some([Textblock("001", "Q1", x, x) - {"comments"}])), parse)
         == Failure(MissingField("comments"))
  {
    var e := Textblock("001", "Q1", x, x) - {"comments"};
    assert "textblock_id" in e && "item_label" in e && "source_text" in e && "target_text" in e;
    assert FirstMissingKey(e) == Some(4);
    assert [e][..0] == [];
    assert BuildCells([e], NormalizeThenParse(parse)) == Failure(MissingField("comments"));
  }

  /** The second textblock lacks its id: the error names `textblock_id`,
      even though the first textblock was complete. */
  lemma LaterTextblockAborts<M>(x: string, parse: string -> M)
    ensures MakePage(Document(Header(), Some([Textblock("001", "Q1", x, x), map["item_label" := "Q2"]])), parse)
         == Failure(MissingField("textblock_id"))
  {
    var tbs := [Textblock("001", "Q1", x, x), map["item_label" := "Q2"]];
    var render := NormalizeThenParse(parse);
    assert FirstMissingKey(tbs[1]) == Some(0);
    assert tbs[..1] == [tbs[0]];
    OneTextblockGrid(tbs[0], render);
    assert BuildCells(tbs, render) == Failure(MissingField("textblock_id"));
  }

  /** Without a `culture` field there is no title and hence no page. */
  lemma MissingCultureAborts<M>(parse: string -> M)
    ensures MakePage(Document(map["study" := "S", "instrument" := "I"], Some([])), parse)
         == Failure(MissingField("culture"))
  {
  }
}
