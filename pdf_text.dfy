/** `extract_pdf_text`: the text of an uploaded PDF, page by page. Reading
  * the file and extracting each page's text belong to the PDF library; the
  * model starts from what it returned for each page, `None` standing for a
  * page without extractable text. */
module PdfText {
  import opened Wrappers
  import opened Text

  const PageSeparator: string := "<next-page>"

  /** `page.extract_text() or ""`. */
  function PageText(page: Option<string>): string {
    match page
    case None => ""
    case Some(t) => t
  }

  /** A page is skipped when its text is empty or only whitespace. */
  predicate IsBlank(page: Option<string>) {
    |Strip(PageText(page))| == 0
  }

  /** The texts of the pages that are not blank, in page order. */
  function NonBlankPages(pages: seq<Option<string>>): seq<string>
    decreases |pages|
  {
    if |pages| == 0 then []
    else
      var init := NonBlankPages(pages[..|pages| - 1]);
      var last := pages[|pages| - 1];
      if IsBlank(last) then init else init + [PageText(last)]
  }

  /** The reference definition of the result. */
  function PdfTextOf(pages: seq<Option<string>>): string {
    Strip(Join(PageSeparator, NonBlankPages(pages)))
  }

  /** The loop of `extract_pdf_text`: collect the pages that are not blank,
    * join them with the separator and strip the result. */
  method ExtractPdfText(pages: seq<Option<string>>) returns (text: string)
    ensures text == PdfTextOf(pages)
  {
    var parts: seq<string> := [];
    for i := 0 to |pages|
      invariant parts == NonBlankPages(pages[..i])
    {
      assert pages[..i + 1][..i] == pages[..i];
      var pageText := PageText(pages[i]);
      if |Strip(pageText)| > 0 {
        parts := parts + [pageText];
      }
    }
    assert pages[..|pages|] == pages;
    text := Strip(Join(PageSeparator, parts));
  }

  /** Every kept page has text other than whitespace, and no more pages are
    * kept than there are. */
  lemma {:induction false} NonBlankPagesKept(pages: seq<Option<string>>)
    ensures |NonBlankPages(pages)| <= |pages|
    ensures forall j :: 0 <= j < |NonBlankPages(pages)| ==> |Strip(NonBlankPages(pages)[j])| > 0
    decreases |pages|
  {
    if |pages| > 0 {
      NonBlankPagesKept(pages[..|pages| - 1]);
    }
  }

  /** No page is kept exactly when every page is blank. */
  lemma {:induction false} NoPagesIffAllBlank(pages: seq<Option<string>>)
    ensures |NonBlankPages(pages)| == 0 <==> forall i :: 0 <= i < |pages| ==> IsBlank(pages[i])
    decreases |pages|
  {
    if |pages| > 0 {
      var init := pages[..|pages| - 1];
      NoPagesIffAllBlank(init);
      assert forall i :: 0 <= i < |init| ==> init[i] == pages[i];
    }
  }

  /** Filtering respects page order: the pages of a concatenation are those
    * of the first part followed by those of the second. */
  lemma {:induction false} NonBlankPagesAppend(a: seq<Option<string>>, b: seq<Option<string>>)
    ensures NonBlankPages(a + b) == NonBlankPages(a) + NonBlankPages(b)
    decreases |b|
  {
    if |b| == 0 {
      assert a + b == a;
    } else {
      var b' := b[..|b| - 1];
      assert (a + b)[..|a + b| - 1] == a + b';
      NonBlankPagesAppend(a, b');
    }
  }

  /** The result is empty exactly when every page is blank. */
  lemma EmptyIffAllBlank(pages: seq<Option<string>>)
    ensures |PdfTextOf(pages)| == 0 <==> forall i :: 0 <= i < |pages| ==> IsBlank(pages[i])
  {
    var parts := NonBlankPages(pages);
    NonBlankPagesKept(pages);
    NoPagesIffAllBlank(pages);
    StripEmptyIff(Join(PageSeparator, parts), Whitespace);
    if |parts| > 0 && |PdfTextOf(pages)| == 0 {
      JoinAllSpace(PageSeparator, parts, 0);
      StripEmptyIff(parts[0], Whitespace);
      assert false;
    }
  }

  /** A document of one page gives that page's text, stripped. */
  lemma OnePage(t: string)
    ensures PdfTextOf([Some(t)]) == Strip(t)
  {
    assert [Some(t)][..0] == [];
    if IsBlank(Some(t)) {
      assert NonBlankPages([Some(t)]) == [];
      assert |Strip("")| == 0;
    } else {
      assert NonBlankPages([Some(t)]) == [t];
    }
  }

  /** Between two pages the separator protects the inner whitespace: only the
    * leading whitespace of the first and the trailing whitespace of the
    * second are removed. */
  lemma StripAroundSeparator(x: string, y: string)
    ensures Strip(x + PageSeparator + y) == LStrip(x, Whitespace) + PageSeparator + RStrip(y, Whitespace)
  {
    var l, r := LStrip(x, Whitespace), RStrip(y, Whitespace);
    var lead := LStripParts(x, Whitespace);
    var trail := RStripParts(y, Whitespace);
    SeparatorEnds(l, r);
    Regroup(lead, l, PageSeparator, r, trail);
    StripUnique(lead, l + PageSeparator + r, trail, Whitespace);
  }

  /** The separator starts with `<` and ends with `>`, so whatever surrounds
    * it, the joined text does not begin or end with whitespace when its outer
    * parts do not. */
  lemma SeparatorEnds(l: string, r: string)
    requires |l| == 0 || !IsSpace(l[0])
    requires |r| == 0 || !IsSpace(r[|r| - 1])
    ensures var m := l + PageSeparator + r;
      |m| > 0 && !IsSpace(m[0]) && !IsSpace(m[|m| - 1])
  {
    var m := l + PageSeparator + r;
    assert m[|l|] == PageSeparator[0] == '<';
    assert m[|l| + |PageSeparator| - 1] == PageSeparator[|PageSeparator| - 1] == '>';
  }

  /** With two or more pages kept, the result is the first kept page without
    * its leading whitespace, the separator, and the rest joined without its
    * trailing whitespace. */
  lemma SeveralPages(pages: seq<Option<string>>)
    requires |NonBlankPages(pages)| >= 2
    ensures var parts := NonBlankPages(pages);
      PdfTextOf(pages) == LStrip(parts[0], Whitespace) + PageSeparator
                          + RStrip(Join(PageSeparator, parts[1..]), Whitespace)
  {
    var parts := NonBlankPages(pages);
    StripAroundSeparator(parts[0], Join(PageSeparator, parts[1..]));
  }
}
