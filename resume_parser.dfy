/** The text extraction of backend/app/services/resume_parser.py: the text of every page that
    yields any is appended, followed by a newline, and the whole is stripped. The PDF decoding
    itself is not modelled: a document is given as the list of what each page's text
    extraction answered, or as `None` when reading the document raised. */
module ResumeParser {
  import opened Wrappers
  import opened Strings
  import opened Collections

  /** What `page.extract_text()` answered for each page (`None` for Python's `None`), or
      `None` for a document whose reading raised. */
  type Document = Option<seq<Option<string>>>

  /** What one page adds to the text: its text and a newline, or nothing when it has none. */
  function PageContribution(page: Option<string>): string {
    if page.Some? && page.value != "" then page.value + "\n" else ""
  }

  /** A page adds nothing exactly when it has no text, and otherwise its text and one
      newline. */
  lemma PageContributionShape(page: Option<string>)
    ensures PageContribution(page) == "" <==> page.None? || page.value == ""
    ensures PageContribution(page) != "" ==>
              var r := PageContribution(page); r[..|r| - 1] == page.value && r[|r| - 1] == '\n'
  {
  }

  /** The text accumulated over `pages` before stripping. */
  function JoinPages(pages: seq<Option<string>>): string
    decreases |pages|
  {
    if pages == [] then ""
    else JoinPages(pages[..|pages| - 1]) + PageContribution(pages[|pages| - 1])
  }

  /** What `extract_text_from_pdf` answers. */
  function PdfText(doc: Document): (r: Option<string>)
    ensures r.None? <==> doc.None?
    ensures r.Some? ==> Trimmed(r.value)
  {
    match doc
    case None => None
    case Some(pages) => Some(Strip(JoinPages(pages)))
  }

  /** `extract_text_from_pdf` */
  method ExtractTextFromPdf(doc: Document) returns (r: Option<string>)
    ensures r == PdfText(doc)
    ensures doc.None? <==> r.None?
    ensures r.Some? ==> Trimmed(r.value)
  {
    if doc.None? {
      return None;
    }
    var pages := doc.value;
    var text := "";
    for i := 0 to |pages|
      invariant text == JoinPages(pages[..i])
    {
      assert pages[..i + 1][..i] == pages[..i];
      var pageText := pages[i];
      if pageText.Some? && pageText.value != "" {
        text := text + pageText.value + "\n";
      }
    }
    assert pages[..|pages|] == pages;
    return Some(Strip(text));
  }

  /** Every page that yields text is followed by a newline, so the accumulated text is empty
      or ends with one. */
  lemma {:induction false} JoinPagesEndsWithNewline(pages: seq<Option<string>>)
    ensures JoinPages(pages) == "" || JoinPages(pages)[|JoinPages(pages)| - 1] == '\n'
    decreases |pages|
  {
    if pages != [] {
      JoinPagesEndsWithNewline(pages[..|pages| - 1]);
    }
  }

  /** The accumulated text of two runs of pages is the concatenation of theirs. */
  lemma {:induction false} JoinPagesAppend(a: seq<Option<string>>, b: seq<Option<string>>)
    ensures JoinPages(a + b) == JoinPages(a) + JoinPages(b)
    decreases |b|
  {
    if b == [] {
      assert a + b == a;
    } else {
      var b', last := b[..|b| - 1], b[|b| - 1];
      assert b == b' + [last];
      AppendAssoc(a, b', [last]);
      JoinPagesSnoc(a + b', last);
      JoinPagesAppend(a, b');
      JoinPagesSnoc(b', last);
      AppendAssoc(JoinPages(a), JoinPages(b'), PageContribution(last));
    }
  }

  lemma JoinPagesSnoc(pages: seq<Option<string>>, page: Option<string>)
    ensures JoinPages(pages + [page]) == JoinPages(pages) + PageContribution(page)
  {
    assert (pages + [page])[..|pages|] == pages;
  }

  /** A page without text changes nothing, wherever it is. */
  lemma EmptyPageIgnored(a: seq<Option<string>>, page: Option<string>, b: seq<Option<string>>)
    requires page.None? || page.value == ""
    ensures JoinPages(a + [page] + b) == JoinPages(a + b)
  {
    var ap := a + [page];
    assert JoinPages(ap) == JoinPages(a) by {
      assert ap[..|ap| - 1] == a && ap[|ap| - 1] == page;
      assert PageContribution(page) == "";
      assert JoinPages(ap) == JoinPages(a) + "";
    }
    JoinPagesAppend(ap, b);
    JoinPagesAppend(a, b);
  }

  /** A document of one page answers that page's text, stripped. */
  lemma SinglePage(t: string)
    ensures PdfText(Some([Some(t)])) == Some(Strip(t))
  {
    var pages := [Some(t)];
    assert pages[..0] == [];
    assert JoinPages(pages) == "" + PageContribution(Some(t));
    if t != "" {
      assert JoinPages(pages) == "" + t + "\n";
      StripPadded("", t, "\n");
    } else {
      assert JoinPages(pages) == "" == t;
    }
  }

  /** The accumulated text is all whitespace exactly when every page's text is. */
  lemma {:induction false} JoinPagesAllSpace(pages: seq<Option<string>>)
    ensures AllSpace(JoinPages(pages)) <==> forall i :: 0 <= i < |pages| ==> pages[i].None? || AllSpace(pages[i].value)
    decreases |pages|
  {
    if pages != [] {
      var init, last := pages[..|pages| - 1], pages[|pages| - 1];
      JoinPagesAllSpace(init);
      assert forall i :: 0 <= i < |init| ==> init[i] == pages[i];
      var c := PageContribution(last);
      assert AllSpace(JoinPages(init) + c) <==> AllSpace(JoinPages(init)) && AllSpace(c) by {
        var s := JoinPages(init) + c;
        assert forall k :: 0 <= k < |JoinPages(init)| ==> s[k] == JoinPages(init)[k];
        assert forall k :: 0 <= k < |c| ==> s[|JoinPages(init)| + k] == c[k];
      }
      if last.Some? && last.value != "" {
        assert AllSpace(c) <==> AllSpace(last.value) by {
          assert forall k :: 0 <= k < |last.value| ==> c[k] == last.value[k];
          assert IsSpace(c[|c| - 1]);
        }
      }
    }
  }

  /** The answer is the empty text exactly when the document reads and no page yields
      anything but whitespace. */
  lemma NoTextIff(doc: Document)
    ensures PdfText(doc) == Some("") <==>
            doc.Some? && forall i :: 0 <= i < |doc.value| ==> doc.value[i].None? || AllSpace(doc.value[i].value)
  {
    if doc.Some? {
      JoinPagesAllSpace(doc.value);
      StripEmptyIff(JoinPages(doc.value));
    }
  }
}
