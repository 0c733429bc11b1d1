/**
 * The Java scraper's two extraction strategies (`processPaperNew` for years after 2021 and
 * `processPaperOld` for 2021 and earlier), as functions from a fetched page to a paper record,
 * or to "no PDF link" when the page has no matching link.
 */
module JavaExtract {
  import opened Options
  import opened Text
  import opened Markup
  import opened Site

  datatype PaperRecord = PaperRecord(title: string, authors: string, abstractText: string, pdfUrl: string, paperUrl: string)

  datatype Extraction = NoPdfLink | Extracted(record: PaperRecord)

  /** Jsoup's `h4:containsOwn(Authors)`. */
  predicate IsAuthorsHeading(e: Element) {
    e.tag == "h4" && ContainsIgnoreCase(e.ownText, "authors")
  }

  /** `a[href$=Paper-Conference.pdf]`, the current PDF link. */
  predicate IsCurrentPdfLink(e: Element) {
    JsoupHrefEndsWith(e, "Paper-Conference.pdf")
  }

  /** `a[href*=Paper.pdf]`, the legacy PDF link. */
  predicate IsLegacyPdfLink(e: Element) {
    JsoupHrefContains(e, "Paper.pdf")
  }

  function PdfLinkTest(fmt: Format): Element -> bool {
    match fmt
    case Current => IsCurrentPdfLink
    case Legacy => IsLegacyPdfLink
  }

  /** Jsoup's `Document.title()`: the trimmed text of the first title element, and "" (never
      null) when the page has none. */
  function DocumentTitle(doc: Document): (r: string)
    ensures (forall k :: 0 <= k < |doc| ==> !IsTitleElement(doc[k])) ==> r == ""
    ensures forall i: nat :: IsFirstFrom(doc, 0, i, IsTitleElement) ==> r == Trim(doc[i].text)
  {
    match FirstMatch(doc, 0, IsTitleElement)
    case Some(i) => Trim(doc[i].text)
    case None => ""
  }

  /** Current title: the page title with every " - NeurIPS" removed, then trimmed. Because
      `doc.title()` is never null, the source's "Untitled" fallback cannot be taken: a page
      without a title element gets "". */
  function CurrentTitle(doc: Document): (r: string)
    ensures (forall k :: 0 <= k < |doc| ==> !IsTitleElement(doc[k])) ==> r == ""
    ensures r != [] ==> !IsJavaBlank(r[0]) && !IsJavaBlank(r[|r| - 1])
  {
    Trim(RemoveAll(DocumentTitle(doc), NEURIPS_SUFFIX))
  }

  /** A title of the form `t + " - NeurIPS"`, where `t` does not mention the suffix, comes out
      as `t` trimmed. */
  lemma CurrentTitleOfSuffixed(doc: Document, i: nat, t: string)
    requires IsFirstFrom(doc, 0, i, IsTitleElement)
    requires Trim(doc[i].text) == t + NEURIPS_SUFFIX && !Contains(t, NEURIPS_SUFFIX)
    ensures CurrentTitle(doc) == Trim(t)
  {
    NeurIPSSuffixBorderFree();
    RemoveAllAppended(t, NEURIPS_SUFFIX);
    RemoveAllAbsent(t, NEURIPS_SUFFIX);
  }

  /** Legacy title: the trimmed text of the first h4, or "Untitled" when the page has none. */
  function LegacyTitle(doc: Document): (r: string)
    ensures (forall k :: 0 <= k < |doc| ==> !IsH4(doc[k])) ==> r == UNTITLED
    ensures forall i: nat :: IsFirstFrom(doc, 0, i, IsH4) ==> r == Trim(doc[i].text)
  {
    match FirstMatch(doc, 0, IsH4)
    case Some(i) => Trim(doc[i].text)
    case None => UNTITLED
  }

  function Title(fmt: Format, doc: Document): string {
    match fmt
    case Current => CurrentTitle(doc)
    case Legacy => LegacyTitle(doc)
  }

  /** Both strategies: the trimmed text of the element right after the first "Authors" heading,
      whatever its tag, and "" when there is no heading or nothing follows it. */
  function Authors(doc: Document): (r: string)
    ensures (forall k :: 0 <= k < |doc| ==> !IsAuthorsHeading(doc[k])) ==> r == ""
  {
    match FirstMatch(doc, 0, IsAuthorsHeading)
    case None => ""
    case Some(h) =>
      match NextSibling(doc, h)
      case None => ""
      case Some(s) => Trim(doc[s].text)
  }

  /** Current abstract: the trimmed text of the element right after the first "Abstract"
      heading, even when that text is empty; "No abstract available" without heading or
      sibling. */
  function CurrentAbstract(doc: Document): (r: string)
    ensures (forall k :: 0 <= k < |doc| ==> !IsAbstractHeading(doc[k])) ==> r == NO_ABSTRACT
  {
    match FirstMatch(doc, 0, IsAbstractHeading)
    case None => NO_ABSTRACT
    case Some(h) =>
      match NextSibling(doc, h)
      case None => NO_ABSTRACT
      case Some(s) => Trim(doc[s].text)
  }

  /** `s` is the first later sibling of `doc[h]` whose trimmed text is not empty. */
  predicate IsFirstFilledSibling(doc: Document, h: nat, s: nat)
    requires h < |doc|
  {
    && h < s < |doc| && doc[s].parent == doc[h].parent && Trim(doc[s].text) != []
    && forall k :: h < k < s && doc[k].parent == doc[h].parent ==> Trim(doc[k].text) == []
  }

  /** Every later sibling of `doc[h]` has empty trimmed text. */
  predicate NoFilledSibling(doc: Document, h: nat)
    requires h < |doc|
  {
    forall k :: h < k < |doc| && doc[k].parent == doc[h].parent ==> Trim(doc[k].text) == []
  }

  /** Legacy abstract: the trimmed text of the first later sibling of the first "Abstract"
      heading whose trimmed text is not empty; "No abstract available" without heading or
      without such a sibling. */
  function LegacyAbstract(doc: Document): (r: string)
    ensures (forall k :: 0 <= k < |doc| ==> !IsAbstractHeading(doc[k])) ==> r == NO_ABSTRACT
  {
    match FirstMatch(doc, 0, IsAbstractHeading)
    case None => NO_ABSTRACT
    case Some(h) =>
      var parent := doc[h].parent;
      match FirstMatch(doc, h + 1, (e: Element) => e.parent == parent && Trim(e.text) != [])
      case None => NO_ABSTRACT
      case Some(s) => Trim(doc[s].text)
  }

  function Abstract(fmt: Format, doc: Document): string {
    match fmt
    case Current => CurrentAbstract(doc)
    case Legacy => LegacyAbstract(doc)
  }

  /** With a first "Authors" heading at `h`: its next sibling's trimmed text, or "" when it is
      the last child. */
  lemma AuthorsAfterHeading(doc: Document, h: nat)
    requires IsFirstFrom(doc, 0, h, IsAuthorsHeading)
    ensures forall s: nat :: IsNextSibling(doc, h, s) ==> Authors(doc) == Trim(doc[s].text)
    ensures IsLastSibling(doc, h) ==> Authors(doc) == ""
  {
    var m := FirstMatch(doc, 0, IsAuthorsHeading);
    assert m.Some?;
    FirstUnique(doc, 0, h, m.value, IsAuthorsHeading);
    var n := NextSibling(doc, h);
    forall s: nat | IsNextSibling(doc, h, s) ensures Authors(doc) == Trim(doc[s].text) {
      assert n.Some? && n.value == s;
    }
  }

  /** With a first "Abstract" heading at `h`: the current abstract is its next sibling's trimmed
      text (possibly empty), or "No abstract available" when it is the last child. */
  lemma CurrentAbstractAfterHeading(doc: Document, h: nat)
    requires IsFirstFrom(doc, 0, h, IsAbstractHeading)
    ensures forall s: nat :: IsNextSibling(doc, h, s) ==> CurrentAbstract(doc) == Trim(doc[s].text)
    ensures IsLastSibling(doc, h) ==> CurrentAbstract(doc) == NO_ABSTRACT
  {
    var m := FirstMatch(doc, 0, IsAbstractHeading);
    assert m.Some?;
    FirstUnique(doc, 0, h, m.value, IsAbstractHeading);
    var n := NextSibling(doc, h);
    forall s: nat | IsNextSibling(doc, h, s) ensures CurrentAbstract(doc) == Trim(doc[s].text) {
      assert n.Some? && n.value == s;
    }
  }

  /** With a first "Abstract" heading at `h`: the legacy abstract is the trimmed text of its
      first later sibling with non-empty trimmed text, or "No abstract available" when there is
      none. */
  lemma LegacyAbstractAfterHeading(doc: Document, h: nat)
    requires IsFirstFrom(doc, 0, h, IsAbstractHeading)
    ensures forall s: nat :: IsFirstFilledSibling(doc, h, s) ==> LegacyAbstract(doc) == Trim(doc[s].text)
    ensures NoFilledSibling(doc, h) ==> LegacyAbstract(doc) == NO_ABSTRACT
  {
    var m := FirstMatch(doc, 0, IsAbstractHeading);
    assert m.Some?;
    FirstUnique(doc, 0, h, m.value, IsAbstractHeading);
    var parent := doc[h].parent;
    var filled := (e: Element) => e.parent == parent && Trim(e.text) != [];
    forall s: nat | IsFirstFilledSibling(doc, h, s) ensures LegacyAbstract(doc) == Trim(doc[s].text) {
      assert IsFirstFrom(doc, h + 1, s, filled);
      var f := FirstMatch(doc, h + 1, filled);
      assert f.Some?;
      FirstUnique(doc, h + 1, s, f.value, filled);
    }
    if NoFilledSibling(doc, h) {
      assert FirstMatch(doc, h + 1, filled).None?;
    }
  }

  /** With the first PDF link at `i`, the record is the strategy's fields with the site origin
      followed by that link's href. */
  lemma ExtractWithLink(fmt: Format, doc: Document, paperUrl: string, i: nat)
    requires IsFirstFrom(doc, 0, i, PdfLinkTest(fmt))
    ensures Extract(fmt, doc, paperUrl)
      == Extracted(PaperRecord(Title(fmt, doc), Authors(doc), Abstract(fmt, doc), BASE_URL + Href(doc[i]), paperUrl))
  {
    var m := FirstMatch(doc, 0, PdfLinkTest(fmt));
    assert m.Some?;
    FirstUnique(doc, 0, i, m.value, PdfLinkTest(fmt));
  }

  /** Every sibling of `doc[h]` strictly between it and position `upto` has empty trimmed text. */
  predicate SkippedUpTo(doc: Document, h: nat, upto: nat)
    requires h < |doc|
  {
    forall k :: h < k < upto && k < |doc| && doc[k].parent == doc[h].parent ==> Trim(doc[k].text) == []
  }

  /** One step of the walk: moving on from an empty sibling `c` keeps every skipped sibling
      empty. */
  lemma WalkStep(doc: Document, h: nat, c: nat)
    requires h < c < |doc| && doc[c].parent == doc[h].parent
    requires SkippedUpTo(doc, h, c) && Trim(doc[c].text) == []
    ensures NextSibling(doc, c).Some? ==>
      h < NextSibling(doc, c).value < |doc| && doc[NextSibling(doc, c).value].parent == doc[h].parent
    ensures SkippedUpTo(doc, h, if NextSibling(doc, c).Some? then NextSibling(doc, c).value else |doc|)
  {
    var n := NextSibling(doc, c);
    var upto := if n.Some? then n.value else |doc|;
    forall k | h < k < upto && k < |doc| && doc[k].parent == doc[h].parent
      ensures Trim(doc[k].text) == []
    {
      if c < k {
        assert false;
      }
    }
  }

  /** The Java legacy abstract walk: start at the heading's next sibling and move to the next
      sibling while the current one's trimmed text is empty. */
  method WalkToAbstract(doc: Document) returns (abs: string)
    ensures abs == LegacyAbstract(doc)
  {
    abs := NO_ABSTRACT;
    var heading := FirstMatch(doc, 0, IsAbstractHeading);
    if heading.Some? {
      var h := heading.value;
      var p := NextSibling(doc, h);
      while p.Some? && Trim(doc[p.value].text) == []
        invariant p.Some? ==> h < p.value < |doc| && doc[p.value].parent == doc[h].parent
        invariant SkippedUpTo(doc, h, if p.Some? then p.value else |doc|)
        decreases if p.Some? then |doc| - p.value else 0
      {
        WalkStep(doc, h, p.value);
        p := NextSibling(doc, p.value);
      }
      if p.Some? {
        abs := Trim(doc[p.value].text);
        assert IsFirstFilledSibling(doc, h, p.value);
      } else {
        assert NoFilledSibling(doc, h);
      }
      LegacyAbstractAfterHeading(doc, h);
    }
  }

  /** What one successfully fetched page yields. Without a PDF link nothing is extracted;
      otherwise the record holds the strategy's title, authors and abstract, the site origin
      followed by the first PDF link's href, and the paper's own URL. */
  function Extract(fmt: Format, doc: Document, paperUrl: string): (r: Extraction)
    ensures r.NoPdfLink? <==> forall k :: 0 <= k < |doc| ==> !PdfLinkTest(fmt)(doc[k])
    ensures r.Extracted? ==> r.record.paperUrl == paperUrl
  {
    var link := FirstMatch(doc, 0, PdfLinkTest(fmt));
    if link.None? then NoPdfLink
    else Extracted(RecordOf(fmt, doc, doc[link.value], paperUrl))
  }

  /** The record a page yields, given its PDF link. */
  function RecordOf(fmt: Format, doc: Document, link: Element, paperUrl: string): PaperRecord {
    PaperRecord(Title(fmt, doc), Authors(doc), Abstract(fmt, doc), BASE_URL + Href(link), paperUrl)
  }

  /** `processPaperOld`'s extraction, with the abstract found by the sibling walk. */
  method ExtractLegacyPage(doc: Document, paperUrl: string) returns (r: Extraction)
    ensures r == Extract(Legacy, doc, paperUrl)
  {
    var title := LegacyTitle(doc);
    var link := FirstMatch(doc, 0, IsLegacyPdfLink);
    if link.None? {
      return NoPdfLink;
    }
    var pdfUrl := BASE_URL + Href(doc[link.value]);
    var authors := Authors(doc);
    var abs := WalkToAbstract(doc);
    r := Extracted(PaperRecord(title, authors, abs, pdfUrl, paperUrl));
  }

  /** `ah` and `bh` are texts for an "Authors" and an "Abstract" heading: each matches its own
      selector and not the other's. */
  predicate HeadingTexts(ah: string, bh: string) {
    && ContainsIgnoreCase(ah, "authors") && !ContainsIgnoreCase(ah, "abstract")
    && ContainsIgnoreCase(bh, "abstract")
  }

  /** The page of a current-format paper: a title element holding `t` and the site suffix, an
      "Authors" heading `ah` followed by `a`, an "Abstract" heading `bh` followed by `x`, and a
      link ending in "Paper-Conference.pdf". */
  function CurrentPage(t: string, ah: string, a: string, bh: string, x: string, stem: string): Document {
    [ Element("title", t + NEURIPS_SUFFIX, t + NEURIPS_SUFFIX, None, -1),
      Element("h4", ah, ah, None, 0),
      Element("p", a, a, None, 0),
      Element("h4", bh, bh, None, 0),
      Element("p", x, x, None, 0),
      Element("a", "PDF", "PDF", Some(stem + "Paper-Conference.pdf"), 0)]
  }

  /** Such a page yields its title without the suffix, the trimmed authors and abstract, and the
      link made absolute. */
  lemma CurrentPageExtract(t: string, ah: string, a: string, bh: string, x: string, stem: string, url: string)
    requires IsTrimmed(t) && !Contains(t, NEURIPS_SUFFIX) && HeadingTexts(ah, bh)
    ensures Extract(Current, CurrentPage(t, ah, a, bh, x, stem), url)
      == Extracted(PaperRecord(t, Trim(a), Trim(x), BASE_URL + (stem + "Paper-Conference.pdf"), url))
  {
    var doc := CurrentPage(t, ah, a, bh, x, stem);
    TagsDiffer();
    NotHeading(doc[0]);
    NotHeading(doc[2]);
    NotLink(doc[0]);
    NotLink(doc[1]);
    NotLink(doc[2]);
    NotLink(doc[3]);
    NotLink(doc[4]);
    Headings(ah, bh, doc[1], doc[3]);
    CurrentLayout(doc, t, stem, url);
  }

  /** The same, for any six elements laid out that way. */
  lemma CurrentLayout(doc: Document, t: string, stem: string, url: string)
    requires |doc| == 6
    requires doc[0].tag == "title" && doc[0].text == t + NEURIPS_SUFFIX && IsTrimmed(t) && !Contains(t, NEURIPS_SUFFIX)
    requires !IsAuthorsHeading(doc[0]) && IsAuthorsHeading(doc[1]) && doc[1].parent == doc[2].parent
    requires !IsAbstractHeading(doc[0]) && !IsAbstractHeading(doc[1]) && !IsAbstractHeading(doc[2])
    requires IsAbstractHeading(doc[3]) && doc[3].parent == doc[4].parent
    requires !PdfLinkTest(Current)(doc[0]) && !PdfLinkTest(Current)(doc[1]) && !PdfLinkTest(Current)(doc[2])
    requires !PdfLinkTest(Current)(doc[3]) && !PdfLinkTest(Current)(doc[4])
    requires doc[5].tag == "a" && doc[5].href == Some(stem + "Paper-Conference.pdf")
    ensures Extract(Current, doc, url)
      == Extracted(PaperRecord(t, Trim(doc[2].text), Trim(doc[4].text), BASE_URL + (stem + "Paper-Conference.pdf"), url))
  {
    HrefEndsWithSuffix(doc[5], stem, "Paper-Conference.pdf");
    FirstOfSix(doc, PdfLinkTest(Current));
    CurrentPageTitle(doc, t);
    AuthorsAtSecond(doc);
    FirstOfFour(doc, IsAbstractHeading);
    CurrentAbstractAfterHeading(doc, 3);
    assert IsNextSibling(doc, 3, 4);
    ExtractWithLink(Current, doc, url, 5);
  }

  /** The tags of the example pages differ from one another. */
  lemma TagsDiffer()
    ensures "title" != "a" && "h4" != "a" && "p" != "a" && "title" != "h4" && "p" != "h4"
  {
    assert "title"[0] != "a"[0] && "h4"[0] != "a"[0] && "p"[0] != "a"[0];
    assert "title"[0] != "h4"[0] && "p"[0] != "h4"[0];
  }

  /** Two `h4` elements whose texts are an "Authors" and an "Abstract" heading's. */
  lemma Headings(ah: string, bh: string, a: Element, b: Element)
    requires HeadingTexts(ah, bh)
    requires a == Element("h4", ah, ah, None, 0) && b == Element("h4", bh, bh, None, 0)
    ensures IsAuthorsHeading(a) && !IsAbstractHeading(a) && IsAbstractHeading(b)
  {
  }

  /** An `h4` mentioning neither word is neither heading. */
  lemma PlainHeading(e: Element)
    requires !ContainsIgnoreCase(e.ownText, "authors") && !ContainsIgnoreCase(e.ownText, "abstract")
    ensures !IsAuthorsHeading(e) && !IsAbstractHeading(e)
  {
  }

  /** An element other than an `h4` is not a heading. */
  lemma NotHeading(e: Element)
    requires e.tag != "h4"
    ensures !IsAuthorsHeading(e) && !IsAbstractHeading(e)
  {
  }

  /** An element other than a link is not a PDF link. */
  lemma NotLink(e: Element)
    requires e.tag != "a"
    ensures !PdfLinkTest(Current)(e) && !PdfLinkTest(Legacy)(e)
  {
  }

  /** The first "Authors" heading is the second element, and the third is its next sibling. */
  lemma AuthorsAtSecond(doc: Document)
    requires |doc| > 2 && doc[1].parent == doc[2].parent
    requires !IsAuthorsHeading(doc[0]) && IsAuthorsHeading(doc[1])
    ensures Authors(doc) == Trim(doc[2].text)
  {
    assert IsFirstFrom(doc, 0, 1, IsAuthorsHeading);
    AuthorsAfterHeading(doc, 1);
    assert IsNextSibling(doc, 1, 2);
  }

  lemma FirstOfFour(doc: Document, p: Element -> bool)
    requires |doc| > 3 && !p(doc[0]) && !p(doc[1]) && !p(doc[2]) && p(doc[3])
    ensures IsFirstFrom(doc, 0, 3, p)
  {
    forall k | 0 <= k < 3 ensures !p(doc[k]) {
      if k == 0 {} else if k == 1 {} else {}
    }
  }

  lemma FirstOfSix(doc: Document, p: Element -> bool)
    requires |doc| > 5 && !p(doc[0]) && !p(doc[1]) && !p(doc[2]) && !p(doc[3]) && !p(doc[4]) && p(doc[5])
    ensures IsFirstFrom(doc, 0, 5, p)
  {
    forall k | 0 <= k < 5 ensures !p(doc[k]) {
      if k == 0 {} else if k == 1 {} else if k == 2 {} else if k == 3 {} else {}
    }
  }

  lemma FirstOfEight(doc: Document, p: Element -> bool)
    requires |doc| > 7 && !p(doc[0]) && !p(doc[1]) && !p(doc[2]) && !p(doc[3])
    requires !p(doc[4]) && !p(doc[5]) && !p(doc[6]) && p(doc[7])
    ensures IsFirstFrom(doc, 0, 7, p)
  {
    forall k | 0 <= k < 7 ensures !p(doc[k]) {
      if k < 4 {
        if k == 0 {} else if k == 1 {} else if k == 2 {} else {}
      } else {
        if k == 4 {} else if k == 5 {} else {}
      }
    }
  }

  lemma CurrentPageTitle(doc: Document, t: string)
    requires doc != [] && doc[0].tag == "title" && doc[0].text == t + NEURIPS_SUFFIX
    requires IsTrimmed(t) && !Contains(t, NEURIPS_SUFFIX)
    ensures Title(Current, doc) == t
  {
    var s := t + NEURIPS_SUFFIX;
    assert s[0] == t[0] && s[|s| - 1] == 'S';
    TrimUnchanged(s);
    CurrentTitleOfSuffixed(doc, 0, t);
    TrimUnchanged(t);
  }

  /** The page of a legacy-format paper: a first heading `t`, an "Authors" heading `ah` followed
      by `a`, and an "Abstract" heading `bh` followed by two blank paragraphs and then `x`. */
  function LegacyPage(t: string, ah: string, a: string, bh: string, x: string, stem: string): Document {
    [ Element("h4", t, t, None, 0),
      Element("h4", ah, ah, None, 0),
      Element("p", a, a, None, 0),
      Element("h4", bh, bh, None, 0),
      Element("p", "", "", None, 0),
      Element("p", " ", " ", None, 0),
      Element("p", x, x, None, 0),
      Element("a", "Paper", "Paper", Some(stem + "Paper.pdf"), 0)]
  }

  /** The walk skips both blank paragraphs and takes `x`; the title is the first heading. */
  lemma LegacyPageExtract(t: string, ah: string, a: string, bh: string, x: string, stem: string, url: string)
    requires !ContainsIgnoreCase(t, "authors") && !ContainsIgnoreCase(t, "abstract") && Trim(x) != []
    requires HeadingTexts(ah, bh)
    ensures Extract(Legacy, LegacyPage(t, ah, a, bh, x, stem), url)
      == Extracted(PaperRecord(Trim(t), Trim(a), Trim(x), BASE_URL + (stem + "Paper.pdf"), url))
  {
    var doc := LegacyPage(t, ah, a, bh, x, stem);
    PlainHeading(doc[0]);
    Headings(ah, bh, doc[1], doc[3]);
    LegacyLayout(doc, stem, url);
  }

  /** The same, for any eight siblings laid out that way. */
  lemma LegacyLayout(doc: Document, stem: string, url: string)
    requires |doc| == 8 && doc[1].parent == doc[2].parent
    requires doc[4].parent == doc[3].parent && doc[5].parent == doc[3].parent && doc[6].parent == doc[3].parent
    requires doc[0].tag == "h4" && doc[2].tag == "p" && doc[4].tag == "p" && doc[5].tag == "p" && doc[6].tag == "p"
    requires !IsAuthorsHeading(doc[0]) && IsAuthorsHeading(doc[1])
    requires !IsAbstractHeading(doc[0]) && !IsAbstractHeading(doc[1]) && IsAbstractHeading(doc[3])
    requires doc[4].text == "" && doc[5].text == " " && Trim(doc[6].text) != []
    requires doc[7].tag == "a" && doc[7].href == Some(stem + "Paper.pdf")
    ensures Extract(Legacy, doc, url)
      == Extracted(PaperRecord(Trim(doc[0].text), Trim(doc[2].text), Trim(doc[6].text), BASE_URL + (stem + "Paper.pdf"), url))
  {
    TagsDiffer();
    NotHeading(doc[2]);
    NotLink(doc[0]);
    NotLink(doc[1]);
    NotLink(doc[2]);
    NotLink(doc[3]);
    NotLink(doc[4]);
    NotLink(doc[5]);
    NotLink(doc[6]);
    HrefContainsSuffix(doc[7], stem, "Paper.pdf");
    FirstOfEight(doc, PdfLinkTest(Legacy));
    assert IsFirstFrom(doc, 0, 0, IsH4);
    AuthorsAtSecond(doc);
    FirstOfFour(doc, IsAbstractHeading);
    LegacyBlanks(doc);
    LegacyAbstractAfterHeading(doc, 3);
    ExtractWithLink(Legacy, doc, url, 7);
  }

  /** The two blank paragraphs after the heading at 3 are skipped. */
  lemma LegacyBlanks(doc: Document)
    requires |doc| > 6 && doc[4].text == "" && doc[5].text == " " && Trim(doc[6].text) != []
    requires doc[4].parent == doc[3].parent && doc[5].parent == doc[3].parent && doc[6].parent == doc[3].parent
    ensures IsFirstFilledSibling(doc, 3, 6)
  {
    BlankTexts();
    forall k | 3 < k < 6 && doc[k].parent == doc[3].parent ensures Trim(doc[k].text) == [] {
      if k == 4 {} else {}
    }
  }

  lemma BlankTexts()
    ensures Trim("") == [] && Trim(" ") == []
  {
  }
}
