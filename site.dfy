/**
 * What the two scrapers share about the NeurIPS proceedings site: its addresses, the phrases its
 * pages use, the year the page format changed, and the file-name sanitising both apply to titles.
 */
module Site {
  import opened Text
  import opened Markup

  const BASE_URL := "https://papers.nips.cc"
  const DATASETS_BENCHMARKS_URL_2021 := "https://datasets-benchmarks-proceedings.neurips.cc"
  const ARCHIVE_PATH := "/paper_files/paper"
  const ARCHIVE_PREFIX := ARCHIVE_PATH + "/"
  const DATASET_YEAR := 2021
  const UNTITLED := "Untitled"
  const NO_ABSTRACT := "No abstract available"
  const NEURIPS_SUFFIX := " - NeurIPS"

  /** Which strategy a paper is processed with. */
  datatype Format = Legacy | Current

  /** The format is fixed per year: the current markup after 2021, the legacy one before. */
  function FormatOf(year: int): (f: Format)
    ensures f == Current <==> year > 2021
  {
    if year > 2021 then Current else Legacy
  }

  // ---------------------------------------------------------------------------------------------
  // Page elements both scrapers look for
  // ---------------------------------------------------------------------------------------------

  predicate IsTitleElement(e: Element) {
    e.tag == "title"
  }

  predicate IsH4(e: Element) {
    e.tag == "h4"
  }

  /** The abstract heading: Jsoup's `h4:containsOwn(Abstract)` and BeautifulSoup's
      `find('h4', string=re.compile("Abstract", re.I))`, both ignoring case. */
  predicate IsAbstractHeading(e: Element) {
    e.tag == "h4" && ContainsIgnoreCase(e.ownText, "abstract")
  }

  /** " - NeurIPS" cannot overlap itself. */
  lemma NeurIPSSuffixBorderFree()
    ensures BorderFree(NEURIPS_SUFFIX)
  {
    var p := NEURIPS_SUFFIX;
    forall k | 0 < k < |p| ensures p[..k] != p[|p| - k..] {
      if k == 8 {
        assert p[..k][1] != p[|p| - k..][1];
      } else {
        assert p[..k][0] != p[|p| - k..][0];
      }
    }
  }

  // ---------------------------------------------------------------------------------------------
  // File names
  // ---------------------------------------------------------------------------------------------

  /** The characters both scrapers' filename pattern matches: backslash, slash, colon, star,
      question mark, double quote, less-than, greater-than and bar. */
  predicate IsReserved(c: char) {
    c == '\\' || c == '/' || c == ':' || c == '*' || c == '?' || c == '"' || c == '<' || c == '>' || c == '|'
  }

  /** Java's `replaceAll` and Python's `re.sub` with the character class of the nine characters
      above: every reserved character becomes `_`, every other character stays where it is. */
  function SanitizeFilename(name: string): (r: string)
    ensures |r| == |name|
    ensures forall i :: 0 <= i < |r| ==> !IsReserved(r[i])
    ensures forall i :: 0 <= i < |name| && !IsReserved(name[i]) ==> r[i] == name[i]
    ensures forall i :: 0 <= i < |name| && IsReserved(name[i]) ==> r[i] == '_'
  {
    if name == [] then []
    else [if IsReserved(name[0]) then '_' else name[0]] + SanitizeFilename(name[1..])
  }

  /** Sanitising a sanitised name changes nothing. */
  lemma {:induction false} SanitizeIdempotent(name: string)
    ensures SanitizeFilename(SanitizeFilename(name)) == SanitizeFilename(name)
  {
    var once := SanitizeFilename(name);
    assert forall i :: 0 <= i < |once| ==> SanitizeFilename(once)[i] == once[i];
  }
}
