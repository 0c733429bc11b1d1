/**
 * The Python scraper's two extraction strategies (`process_paper_2022_2023` for years after 2021
 * and `process_paper` for 2021 and earlier), as functions from a fetched page to the metadata
 * the scraper keeps (year, title, abstract), or to "no PDF link" when PDFs are wanted and the
 * page has no matching link. BeautifulSoup's `get_text(strip=True)` and `.text.strip()` are both
 * read as `str.strip()` of the element's text.
 */
module PyExtract {
  import opened Options
  import opened Text
  import opened Markup
  import opened Site

  /** The `metadata` dictionary: its keys are "year", "title" and "abstract", in that order. */
  datatype Metadata = Metadata(year: int, title: string, abstractText: string)

  datatype Extraction = NoPdfLink | Extracted(metadata: Metadata)

  predicate IsParagraph(e: Element) {
    e.tag == "p"
  }

  /** `soup.find('a', href=lambda href: href and href.endswith('Paper-Conference.pdf'))`: the
      comparison is case-sensitive and an absent or empty `href` never matches. */
  predicate IsCurrentPdfLink(e: Element) {
    e.tag == "a" && e.href.Some? && e.href.value != [] && EndsWith(e.href.value, "Paper-Conference.pdf")
  }

  /** `soup.find('a', href=lambda href: href and "Paper.pdf" in href)`. */
  predicate IsLegacyPdfLink(e: Element) {
    e.tag == "a" && e.href.Some? && e.href.value != [] && Contains(e.href.value, "Paper.pdf")
  }

  function PdfLinkTest(fmt: Format): Element -> bool {
    match fmt
    case Current => IsCurrentPdfLink
    case Legacy => IsLegacyPdfLink
  }

  // ---------------------------------------------------------------------------------------------
  // Titles
  // ---------------------------------------------------------------------------------------------

  /** `soup.title.text.strip().replace(" - NeurIPS", "")`, or "Untitled" when the page has no
      title element: stripped first, then every " - NeurIPS" removed. */
  function CurrentTitle(doc: Document): (r: string)
    ensures (forall k :: 0 <= k < |doc| ==> !IsTitleElement(doc[k])) ==> r == UNTITLED
    ensures forall i: nat :: IsFirstFrom(doc, 0, i, IsTitleElement) ==> r == RemoveAll(Strip(doc[i].text), NEURIPS_SUFFIX)
  {
    match FirstMatch(doc, 0, IsTitleElement)
    case Some(i) => RemoveAll(Strip(doc[i].text), NEURIPS_SUFFIX)
    case None => UNTITLED
  }

  /** A title whose stripped text is `t + " - NeurIPS"`, where `t` does not mention the suffix,
      comes out as exactly `t`: unlike the Java scraper, nothing is stripped after the removal. */
  lemma CurrentTitleOfSuffixed(doc: Document, i: nat, t: string)
    requires IsFirstFrom(doc, 0, i, IsTitleElement)
    requires Strip(doc[i].text) == t + NEURIPS_SUFFIX && !Contains(t, NEURIPS_SUFFIX)
    ensures CurrentTitle(doc) == t
  {
    NeurIPSSuffixBorderFree();
    RemoveAllAppended(t, NEURIPS_SUFFIX);
    RemoveAllAbsent(t, NEURIPS_SUFFIX);
  }

  /** `soup.find('h4').get_text(strip=True)`, or "Untitled" when the page has no h4. */
  function LegacyTitle(doc: Document): (r: string)
    ensures (forall k :: 0 <= k < |doc| ==> !IsH4(doc[k])) ==> r == UNTITLED
    ensures forall i: nat :: IsFirstFrom(doc, 0, i, IsH4) ==> r == Strip(doc[i].text)
  {
    match FirstMatch(doc, 0, IsH4)
    case Some(i) => Strip(doc[i].text)
    case None => UNTITLED
  }

  function Title(fmt: Format, doc: Document): string {
    match fmt
    case Current => CurrentTitle(doc)
    case Legacy => LegacyTitle(doc)
  }

  // ---------------------------------------------------------------------------------------------
  // Abstracts
  // ---------------------------------------------------------------------------------------------

  /** `find_next('p')` from the element at `i`: the first paragraph after it in document order,
      inside it or not. */
  function NextParagraph(doc: Document, i: nat): (r: Option<nat>)
    ensures r.Some? ==> IsFirstFrom(doc, i + 1, r.value, IsParagraph)
    ensures r.None? <==> forall k :: i < k < |doc| ==> !IsParagraph(doc[k])
  {
    FirstMatch(doc, i + 1, IsParagraph)
  }

  /** Current abstract: the stripped text of the first paragraph after the first abstract
      heading; "No abstract available" when there is no heading or no paragraph after it. */
  function CurrentAbstract(doc: Document): (r: string)
    ensures (forall k :: 0 <= k < |doc| ==> !IsAbstractHeading(doc[k])) ==> r == NO_ABSTRACT
  {
    match FirstMatch(doc, 0, IsAbstractHeading)
    case None => NO_ABSTRACT
    case Some(h) =>
      match NextParagraph(doc, h)
      case None => NO_ABSTRACT
      case Some(p) => Strip(doc[p].text)
  }

  /** Legacy abstract: as the current one, except that a first paragraph with no text is passed
      over for the paragraph after it, whose text is then taken even when it is empty; the
      default when that second paragraph does not exist. */
  function LegacyAbstract(doc: Document): (r: string)
    ensures (forall k :: 0 <= k < |doc| ==> !IsAbstractHeading(doc[k])) ==> r == NO_ABSTRACT
  {
    match FirstMatch(doc, 0, IsAbstractHeading)
    case None => NO_ABSTRACT
    case Some(h) =>
      match NextParagraph(doc, h)
      case None => NO_ABSTRACT
      case Some(p) =>
        if Strip(doc[p].text) != [] then Strip(doc[p].text)
        else
          match NextParagraph(doc, p)
          case None => NO_ABSTRACT
          case Some(q) => Strip(doc[q].text)
  }

  function Abstract(fmt: Format, doc: Document): string {
    match fmt
    case Current => CurrentAbstract(doc)
    case Legacy => LegacyAbstract(doc)
  }

  /** With a first abstract heading at `h`: the current abstract is the stripped text of the
      first paragraph after it, empty or not, and the default when no paragraph follows. */
  lemma CurrentAbstractAfterHeading(doc: Document, h: nat)
    requires IsFirstFrom(doc, 0, h, IsAbstractHeading)
    ensures forall p: nat :: IsFirstFrom(doc, h + 1, p, IsParagraph) ==> CurrentAbstract(doc) == Strip(doc[p].text)
    ensures (forall k :: h < k < |doc| ==> !IsParagraph(doc[k])) ==> CurrentAbstract(doc) == NO_ABSTRACT
  {
    FirstUnique(doc, 0, h, FirstMatch(doc, 0, IsAbstractHeading).value, IsAbstractHeading);
    forall p: nat | IsFirstFrom(doc, h + 1, p, IsParagraph) ensures CurrentAbstract(doc) == Strip(doc[p].text) {
      FirstUnique(doc, h + 1, p, NextParagraph(doc, h).value, IsParagraph);
    }
  }

  /** With a first abstract heading at `h`: a first paragraph after it with text is the legacy
      abstract, and without any paragraph after it the abstract is the default. */
  lemma LegacyAbstractAfterHeading(doc: Document, h: nat)
    requires IsFirstFrom(doc, 0, h, IsAbstractHeading)
    ensures forall p: nat :: IsFirstFrom(doc, h + 1, p, IsParagraph) && Strip(doc[p].text) != [] ==>
      LegacyAbstract(doc) == Strip(doc[p].text)
    ensures (forall k :: h < k < |doc| ==> !IsParagraph(doc[k])) ==> LegacyAbstract(doc) == NO_ABSTRACT
  {
    FirstUnique(doc, 0, h, FirstMatch(doc, 0, IsAbstractHeading).value, IsAbstractHeading);
    forall p: nat | IsFirstFrom(doc, h + 1, p, IsParagraph) && Strip(doc[p].text) != []
      ensures LegacyAbstract(doc) == Strip(doc[p].text)
    {
      FirstUnique(doc, h + 1, p, NextParagraph(doc, h).value, IsParagraph);
    }
  }

  /** The single skip: when the first paragraph `p` after the heading has no text, the legacy
      abstract is the stripped text of the next paragraph, even an empty one, and the default
      when no paragraph follows `p`. */
  lemma LegacyAbstractSkip(doc: Document, h: nat, p: nat)
    requires IsFirstFrom(doc, 0, h, IsAbstractHeading)
    requires IsFirstFrom(doc, h + 1, p, IsParagraph) && Strip(doc[p].text) == []
    ensures forall q: nat :: IsFirstFrom(doc, p + 1, q, IsParagraph) ==> LegacyAbstract(doc) == Strip(doc[q].text)
    ensures (forall k :: p < k < |doc| ==> !IsParagraph(doc[k])) ==> LegacyAbstract(doc) == NO_ABSTRACT
  {
    FirstUnique(doc, 0, h, FirstMatch(doc, 0, IsAbstractHeading).value, IsAbstractHeading);
    FirstUnique(doc, h + 1, p, NextParagraph(doc, h).value, IsParagraph);
    forall q: nat | IsFirstFrom(doc, p + 1, q, IsParagraph) ensures LegacyAbstract(doc) == Strip(doc[q].text) {
      FirstUnique(doc, p + 1, q, NextParagraph(doc, p).value, IsParagraph);
    }
  }

  /** The two strategies read the same abstract unless the current one finds an empty first
      paragraph: skipping a blank paragraph is the only difference between them. */
  lemma AbstractsAgree(doc: Document)
    ensures LegacyAbstract(doc) != CurrentAbstract(doc) ==> CurrentAbstract(doc) == []
    ensures CurrentAbstract(doc) != [] ==> LegacyAbstract(doc) == CurrentAbstract(doc)
  {
  }

  /** The legacy abstract is empty only when two paragraphs in a row after the heading, with no
      paragraph between them, have no text. */
  lemma LegacyAbstractEmpty(doc: Document)
    requires LegacyAbstract(doc) == []
    ensures exists h: nat, p: nat, q: nat ::
      IsFirstFrom(doc, 0, h, IsAbstractHeading) && IsFirstFrom(doc, h + 1, p, IsParagraph)
      && IsFirstFrom(doc, p + 1, q, IsParagraph) && Strip(doc[p].text) == [] && Strip(doc[q].text) == []
  {
    var h := FirstMatch(doc, 0, IsAbstractHeading).value;
    var p := NextParagraph(doc, h).value;
    var q := NextParagraph(doc, p).value;
    assert IsFirstFrom(doc, 0, h, IsAbstractHeading) && IsFirstFrom(doc, h + 1, p, IsParagraph)
      && IsFirstFrom(doc, p + 1, q, IsParagraph);
  }

  // ---------------------------------------------------------------------------------------------
  // The page as a whole
  // ---------------------------------------------------------------------------------------------

  /** One pass of the `try` block up to the metadata: title and abstract are always read; when
      PDFs are wanted and the page has no matching link the task ends with nothing saved. */
  function Extract(fmt: Format, doc: Document, year: int, downloadPdfs: bool): (r: Extraction)
    ensures r.NoPdfLink? <==> downloadPdfs && forall k :: 0 <= k < |doc| ==> !PdfLinkTest(fmt)(doc[k])
    ensures r.Extracted? ==> r.metadata == Metadata(year, Title(fmt, doc), Abstract(fmt, doc))
  {
    if downloadPdfs && FirstMatch(doc, 0, PdfLinkTest(fmt)).None? then NoPdfLink
    else Extracted(Metadata(year, Title(fmt, doc), Abstract(fmt, doc)))
  }
}
