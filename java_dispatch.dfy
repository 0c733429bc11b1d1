/**
 * The Java scraper's `main` after the years are read: the archive page lists one link per
 * conference year; a link whose last path segment is a selected year has its year page fetched,
 * and every paper link on that page becomes one task, processed with the current format after
 * 2021 and with the legacy one otherwise. When 2021 is selected, one more task processes the
 * datasets-and-benchmarks listing. Fetching is a function from a URL to the parsed page, or to
 * `None` when the request fails; the thread pool is reduced to the list of submitted tasks in
 * submission order.
 */
module JavaDispatch {
  import opened Options
  import opened Text
  import opened Markup
  import opened Site
  import opened JavaExtract

  /** A job handed to the thread pool. */
  datatype Task = PaperTask(paperUrl: string, year: int, format: Format) | DatasetTask(listingUrl: string)

  /** `a[href^=/paper_files/paper/]`, a link to one year's archive page. */
  predicate IsArchiveLink(e: Element) {
    JsoupHrefStartsWith(e, ARCHIVE_PREFIX)
  }

  /** `a[href$=Abstract-Conference.html]`, a paper on a current year page. */
  predicate IsCurrentPaperLink(e: Element) {
    JsoupHrefEndsWith(e, "Abstract-Conference.html")
  }

  /** `a[href$=Abstract.html]`, a paper on a legacy year page or on the datasets listing. */
  predicate IsLegacyPaperLink(e: Element) {
    JsoupHrefEndsWith(e, "Abstract.html")
  }

  function PaperLinkTest(fmt: Format): Element -> bool {
    match fmt
    case Current => IsCurrentPaperLink
    case Legacy => IsLegacyPaperLink
  }

  /** The year of an archive link: `Integer.parseInt` of the last `/`-separated segment of the
      absolute URL, `None` where it throws (the link is then skipped). The URL starts with the
      site's address, so the split never comes back empty. */
  function YearOf(href: string): (r: Option<int>) {
    var parts := JavaSplit(BASE_URL + href, '/');
    assert (BASE_URL + href)[0] == 'h';
    ParseJavaInt(parts[|parts| - 1])
  }

  /** The archive links the site uses, with or without a trailing slash, give their year back. */
  lemma YearOfArchiveLink(year: nat)
    requires year <= INT_MAX
    ensures YearOf(ARCHIVE_PREFIX + Decimal(year)) == Some(year)
    ensures YearOf(ARCHIVE_PREFIX + Decimal(year) + "/") == Some(year)
  {
    var d := Decimal(year);
    var stem := BASE_URL + ARCHIVE_PATH;
    assert '/' !in d;
    assert BASE_URL + (ARCHIVE_PREFIX + d) == stem + ['/'] + d;
    assert BASE_URL + (ARCHIVE_PREFIX + d + "/") == stem + ['/'] + d + ['/'];
    JavaSplitLastField(stem, d, '/');
    ParseJavaIntDecimal(year);
  }

  /** The user's selection test: a scan of the selected years that stops at the first match. */
  method IsSelected(years: seq<int>, year: int) returns (selected: bool)
    ensures selected <==> year in years
  {
    selected := false;
    for k := 0 to |years|
      invariant year !in years[..k]
    {
      if years[k] == year {
        selected := true;
        break;
      }
    }
  }

  /** The task for one paper link of a year page. */
  function PaperTaskOf(year: int, link: Element): Task {
    PaperTask(BASE_URL + Href(link), year, FormatOf(year))
  }

  /** One task per paper link, in page order, each with the year's format. */
  function PaperTasks(year: int, links: seq<Element>): (r: seq<Task>)
    ensures |r| == |links|
    ensures forall i :: 0 <= i < |r| ==>
      r[i].PaperTask? && r[i].year == year
      && r[i].paperUrl == BASE_URL + Href(links[i]) && (r[i].format == Current <==> year > 2021)
    decreases |links|
  {
    if links == [] then []
    else PaperTasks(year, links[..|links| - 1]) + [PaperTaskOf(year, links[|links| - 1])]
  }

  /** What one archive link contributes: nothing when its year does not parse, is not selected,
      or its page cannot be fetched; otherwise the tasks for the paper links on its page. */
  function LinkTasks(years: seq<int>, fetch: string -> Option<Document>, link: Element): seq<Task> {
    match YearOf(Href(link))
    case None => []
    case Some(year) =>
      if year !in years then []
      else
        match fetch(BASE_URL + Href(link))
        case None => []
        case Some(page) => PaperTasks(year, Select(page, PaperLinkTest(FormatOf(year))))
  }

  /** The tasks for a run of archive links, in link order. */
  function ArchiveTasks(years: seq<int>, fetch: string -> Option<Document>, links: seq<Element>): seq<Task>
    decreases |links|
  {
    if links == [] then []
    else ArchiveTasks(years, fetch, links[..|links| - 1]) + LinkTasks(years, fetch, links[|links| - 1])
  }

  /** The datasets-and-benchmarks task, once, when 2021 is selected. */
  function DatasetTasks(years: seq<int>): seq<Task> {
    if DATASET_YEAR in years then [DatasetTask(DATASETS_BENCHMARKS_URL_2021)] else []
  }

  /** Everything `main` submits; a failure to fetch the main page ends the run with none. */
  function Tasks(years: seq<int>, fetch: string -> Option<Document>): seq<Task> {
    match fetch(BASE_URL)
    case None => []
    case Some(mainPage) =>
      ArchiveTasks(years, fetch, Select(mainPage, IsArchiveLink)) + DatasetTasks(years)
  }

  /** The dispatch loop of `main`: the archive links in page order, then the datasets task. */
  method Dispatch(years: seq<int>, fetch: string -> Option<Document>) returns (tasks: seq<Task>)
    ensures tasks == Tasks(years, fetch)
  {
    var mainPage := fetch(BASE_URL);
    if mainPage.None? {
      return [];
    }
    tasks := SubmitArchive(years, fetch, Select(mainPage.value, IsArchiveLink));
    var datasets := SubmitDatasets(years);
    tasks := tasks + datasets;
  }

  /** The loop over the archive links, in page order. */
  method SubmitArchive(years: seq<int>, fetch: string -> Option<Document>, yearLinks: seq<Element>) returns (tasks: seq<Task>)
    ensures tasks == ArchiveTasks(years, fetch, yearLinks)
  {
    tasks := [];
    for i := 0 to |yearLinks|
      invariant tasks == ArchiveTasks(years, fetch, yearLinks[..i])
    {
      ArchiveTasksStep(years, fetch, yearLinks, i);
      var more := ProcessYearLink(years, fetch, yearLinks[i]);
      tasks := tasks + more;
    }
    assert yearLinks[..|yearLinks|] == yearLinks;
  }

  /** Handling one more archive link appends its tasks. */
  lemma ArchiveTasksStep(years: seq<int>, fetch: string -> Option<Document>, links: seq<Element>, i: nat)
    requires i < |links|
    ensures ArchiveTasks(years, fetch, links[..i + 1]) == ArchiveTasks(years, fetch, links[..i]) + LinkTasks(years, fetch, links[i])
  {
    assert links[..i + 1][..i] == links[..i];
  }

  /** The scan for 2021 that submits the datasets task at most once. */
  method SubmitDatasets(years: seq<int>) returns (tasks: seq<Task>)
    ensures tasks == DatasetTasks(years)
  {
    tasks := [];
    for k := 0 to |years|
      invariant DATASET_YEAR !in years[..k]
    {
      if years[k] == DATASET_YEAR {
        tasks := [DatasetTask(DATASETS_BENCHMARKS_URL_2021)];
        break;
      }
    }
    assert years[..|years|] == years;
  }

  /** One pass of the loop over archive links; each early return is one of its `continue`s. */
  method ProcessYearLink(years: seq<int>, fetch: string -> Option<Document>, link: Element) returns (tasks: seq<Task>)
    ensures tasks == LinkTasks(years, fetch, link)
  {
    var year := YearOf(Href(link));
    if year.None? {
      return [];
    }
    var selected := IsSelected(years, year.value);
    if !selected {
      return [];
    }
    var yearPage := fetch(BASE_URL + Href(link));
    if yearPage.None? {
      return [];
    }
    tasks := SubmitPapers(year.value, Select(yearPage.value, PaperLinkTest(FormatOf(year.value))));
  }

  /** The loop over a year page's paper links. */
  method SubmitPapers(year: int, paperLinks: seq<Element>) returns (tasks: seq<Task>)
    ensures tasks == PaperTasks(year, paperLinks)
  {
    var fmt := FormatOf(year);
    tasks := [];
    for j := 0 to |paperLinks|
      invariant tasks == PaperTasks(year, paperLinks[..j])
    {
      assert paperLinks[..j + 1][..j] == paperLinks[..j];
      tasks := tasks + [PaperTask(BASE_URL + Href(paperLinks[j]), year, fmt)];
    }
    assert paperLinks[..|paperLinks|] == paperLinks;
  }

  /** Every paper task is for a selected year and uses that year's format. */
  lemma {:induction false} ArchiveTasksSelected(years: seq<int>, fetch: string -> Option<Document>, links: seq<Element>)
    ensures forall t :: t in ArchiveTasks(years, fetch, links) ==>
      t.PaperTask? && t.year in years && t.format == FormatOf(t.year)
    decreases |links|
  {
    if links != [] {
      ArchiveTasksSelected(years, fetch, links[..|links| - 1]);
    }
  }

  /** The run's shape: paper tasks for selected years, then the datasets task as the very last
      one exactly when the main page was fetched and 2021 is selected. */
  lemma TasksShape(years: seq<int>, fetch: string -> Option<Document>)
    ensures forall i :: 0 <= i < |Tasks(years, fetch)| && Tasks(years, fetch)[i].PaperTask? ==>
      Tasks(years, fetch)[i].year in years && Tasks(years, fetch)[i].format == FormatOf(Tasks(years, fetch)[i].year)
    ensures forall i :: 0 <= i < |Tasks(years, fetch)| ==>
      (Tasks(years, fetch)[i].DatasetTask? <==>
        i == |Tasks(years, fetch)| - 1 && fetch(BASE_URL).Some? && DATASET_YEAR in years)
  {
    if fetch(BASE_URL).Some? {
      var links := Select(fetch(BASE_URL).value, IsArchiveLink);
      ArchiveTasksSelected(years, fetch, links);
      var archive := ArchiveTasks(years, fetch, links);
      assert forall i :: 0 <= i < |archive| ==> archive[i] in archive;
    }
  }

  /** Only which years are selected matters, not their order or repetitions: the tasks follow
      the order of the archive page. */
  lemma {:induction false} ArchiveTasksSameSelection(ys: seq<int>, zs: seq<int>, fetch: string -> Option<Document>, links: seq<Element>)
    requires forall y :: y in ys <==> y in zs
    ensures ArchiveTasks(ys, fetch, links) == ArchiveTasks(zs, fetch, links)
    decreases |links|
  {
    if links != [] {
      ArchiveTasksSameSelection(ys, zs, fetch, links[..|links| - 1]);
    }
  }

  lemma TasksSameSelection(ys: seq<int>, zs: seq<int>, fetch: string -> Option<Document>)
    requires forall y :: y in ys <==> y in zs
    ensures Tasks(ys, fetch) == Tasks(zs, fetch)
  {
    if fetch(BASE_URL).Some? {
      ArchiveTasksSameSelection(ys, zs, fetch, Select(fetch(BASE_URL).value, IsArchiveLink));
    }
  }

  /** `processDatasetBenchmarkPapers`: the listing's `Abstract.html` links, each made absolute
      against the main site (not the datasets host) and processed in the legacy format as a 2021
      paper; nothing when the listing cannot be fetched. */
  function DatasetPapers(listing: Option<Document>): (r: seq<Task>)
    ensures listing.None? ==> r == []
    ensures listing.Some? ==> |r| == |Select(listing.value, IsLegacyPaperLink)|
    ensures forall i :: 0 <= i < |r| ==>
      r[i].PaperTask? && r[i].year == DATASET_YEAR && r[i].format == Legacy
      && r[i].paperUrl == BASE_URL + Href(Select(listing.value, IsLegacyPaperLink)[i])
  {
    match listing
    case None => []
    case Some(page) => PaperTasks(DATASET_YEAR, Select(page, IsLegacyPaperLink))
  }
}
