/**
 * The Python scraper's `main` after the prompts: the archive page lists one link per conference
 * year; a link whose URL ends in a selected year has its year page fetched, and every paper link
 * on that page becomes one task, handed to `process_paper_2022_2023` after 2021 and to
 * `process_paper` otherwise. When 2021 is selected, one more task processes the
 * datasets-and-benchmarks listing. Fetching is a function from a URL to the parsed page, or to
 * `None` when the request raises; `urljoin` is a function parameter; the thread pool is reduced
 * to the list of submitted tasks in submission order.
 */
module PyDispatch {
  import opened Options
  import opened Text
  import opened Markup
  import opened Site

  /** A job handed to the thread pool. */
  datatype Task = PaperTask(paperUrl: string, year: int, format: Format) | DatasetTask(listingUrl: string)

  /** `a[href^="/paper_files/paper/"]`: attribute values are compared case-sensitively. */
  predicate IsArchiveLink(e: Element) {
    e.tag == "a" && e.href.Some? && ARCHIVE_PREFIX <= e.href.value
  }

  /** `a[href$="Abstract-Conference.html"]`, a paper on a year page after 2021. */
  predicate IsCurrentPaperLink(e: Element) {
    e.tag == "a" && e.href.Some? && EndsWith(e.href.value, "Abstract-Conference.html")
  }

  /** `a[href$="Abstract.html"]`, a paper on an earlier year page or on the datasets listing. */
  predicate IsLegacyPaperLink(e: Element) {
    e.tag == "a" && e.href.Some? && EndsWith(e.href.value, "Abstract.html")
  }

  function PaperLinkTest(fmt: Format): Element -> bool {
    match fmt
    case Current => IsCurrentPaperLink
    case Legacy => IsLegacyPaperLink
  }

  /** `int(year_url.split('/')[-1])`, `None` where it raises ValueError. `str.split` never
      returns an empty list, so the IndexError the source also catches cannot happen. */
  function YearOf(yearUrl: string): Option<int> {
    var parts := Split(yearUrl, '/');
    ParsePyInt(parts[|parts| - 1])
  }

  /** An archive URL ending in a year gives that year back; with a trailing slash the last
      segment is empty and the link is skipped. */
  lemma YearOfArchiveUrl(year: nat)
    ensures YearOf(BASE_URL + ARCHIVE_PREFIX + Decimal(year)) == Some(year)
    ensures YearOf(BASE_URL + ARCHIVE_PREFIX + Decimal(year) + "/") == None
  {
    var d := Decimal(year);
    var stem := BASE_URL + ARCHIVE_PATH;
    assert '/' !in d;
    var url := stem + ['/'] + d;
    assert BASE_URL + ARCHIVE_PREFIX + d == url;
    SplitAppendField(stem, d, '/');
    ParsePyIntDecimal(year);
    assert BASE_URL + ARCHIVE_PREFIX + d + "/" == url + ['/'] + [];
    SplitAppendField(url, [], '/');
    assert Strip([]) == [];
  }

  /** The task for one paper link of a year page: its URL resolved against the year page's. */
  function PaperTaskOf(join: (string, string) -> string, yearUrl: string, year: int, link: Element): Task {
    PaperTask(join(yearUrl, Href(link)), year, FormatOf(year))
  }

  /** One task per paper link, in page order, each with the year's format. */
  function PaperTasks(join: (string, string) -> string, yearUrl: string, year: int, links: seq<Element>): (r: seq<Task>)
    ensures |r| == |links|
    ensures forall i :: 0 <= i < |r| ==>
      r[i].PaperTask? && r[i].year == year
      && r[i].paperUrl == join(yearUrl, Href(links[i])) && (r[i].format == Current <==> year > 2021)
    decreases |links|
  {
    if links == [] then []
    else PaperTasks(join, yearUrl, year, links[..|links| - 1]) + [PaperTaskOf(join, yearUrl, year, links[|links| - 1])]
  }

  /** What one archive link contributes: nothing when its year does not parse, is not selected,
      or its page cannot be fetched; otherwise the tasks for the paper links on its page. */
  function LinkTasks(years: seq<int>, join: (string, string) -> string, fetch: string -> Option<Document>, link: Element): seq<Task> {
    var yearUrl := join(BASE_URL, Href(link));
    match YearOf(yearUrl)
    case None => []
    case Some(year) =>
      if year !in years then []
      else
        match fetch(yearUrl)
        case None => []
        case Some(page) => PaperTasks(join, yearUrl, year, Select(page, PaperLinkTest(FormatOf(year))))
  }

  /** The tasks for a run of archive links, in link order. */
  function ArchiveTasks(years: seq<int>, join: (string, string) -> string, fetch: string -> Option<Document>, links: seq<Element>): seq<Task>
    decreases |links|
  {
    if links == [] then []
    else ArchiveTasks(years, join, fetch, links[..|links| - 1]) + LinkTasks(years, join, fetch, links[|links| - 1])
  }

  /** The datasets-and-benchmarks task, once, when 2021 is in the range. */
  function DatasetTasks(years: seq<int>): seq<Task> {
    if DATASET_YEAR in years then [DatasetTask(DATASETS_BENCHMARKS_URL_2021)] else []
  }

  /** Everything `main` submits; `None` when the main page cannot be fetched, whose exception
      nothing catches, so the run ends before any task or the CSV file. */
  function Tasks(years: seq<int>, join: (string, string) -> string, fetch: string -> Option<Document>): Option<seq<Task>> {
    match fetch(BASE_URL)
    case None => None
    case Some(mainPage) =>
      Some(ArchiveTasks(years, join, fetch, Select(mainPage, IsArchiveLink)) + DatasetTasks(years))
  }

  /** The dispatch loop of `main`: the archive links in page order, then the datasets task. */
  method Dispatch(years: seq<int>, join: (string, string) -> string, fetch: string -> Option<Document>) returns (tasks: Option<seq<Task>>)
    ensures tasks == Tasks(years, join, fetch)
  {
    var mainPage := fetch(BASE_URL);
    if mainPage.None? {
      return None;
    }
    var submitted := SubmitArchive(years, join, fetch, Select(mainPage.value, IsArchiveLink));
    if DATASET_YEAR in years {
      submitted := submitted + [DatasetTask(DATASETS_BENCHMARKS_URL_2021)];
    } else {
      assert submitted + [] == submitted;
    }
    tasks := Some(submitted);
  }

  /** The loop over the archive links, in page order. */
  method SubmitArchive(years: seq<int>, join: (string, string) -> string, fetch: string -> Option<Document>, yearLinks: seq<Element>) returns (tasks: seq<Task>)
    ensures tasks == ArchiveTasks(years, join, fetch, yearLinks)
  {
    tasks := [];
    for i := 0 to |yearLinks|
      invariant tasks == ArchiveTasks(years, join, fetch, yearLinks[..i])
    {
      ArchiveTasksStep(years, join, fetch, yearLinks, i);
      var more := ProcessYearLink(years, join, fetch, yearLinks[i]);
      tasks := tasks + more;
    }
    assert yearLinks[..|yearLinks|] == yearLinks;
  }

  /** Handling one more archive link appends its tasks. */
  lemma ArchiveTasksStep(years: seq<int>, join: (string, string) -> string, fetch: string -> Option<Document>, links: seq<Element>, i: nat)
    requires i < |links|
    ensures ArchiveTasks(years, join, fetch, links[..i + 1]) == ArchiveTasks(years, join, fetch, links[..i]) + LinkTasks(years, join, fetch, links[i])
  {
    assert links[..i + 1][..i] == links[..i];
  }

  /** One pass of the loop over archive links; each early return is a `continue` or the
      `except` around the year page. */
  method ProcessYearLink(years: seq<int>, join: (string, string) -> string, fetch: string -> Option<Document>, link: Element) returns (tasks: seq<Task>)
    ensures tasks == LinkTasks(years, join, fetch, link)
  {
    var yearUrl := join(BASE_URL, Href(link));
    var year := YearOf(yearUrl);
    if year.None? || year.value !in years {
      return [];
    }
    var yearPage := fetch(yearUrl);
    if yearPage.None? {
      return [];
    }
    tasks := SubmitPapers(join, yearUrl, year.value, Select(yearPage.value, PaperLinkTest(FormatOf(year.value))));
  }

  /** The loop over a year page's paper links. */
  method SubmitPapers(join: (string, string) -> string, yearUrl: string, year: int, paperLinks: seq<Element>) returns (tasks: seq<Task>)
    ensures tasks == PaperTasks(join, yearUrl, year, paperLinks)
  {
    tasks := [];
    for j := 0 to |paperLinks|
      invariant tasks == PaperTasks(join, yearUrl, year, paperLinks[..j])
    {
      assert paperLinks[..j + 1][..j] == paperLinks[..j];
      var paperUrl := join(yearUrl, Href(paperLinks[j]));
      if year > 2021 {
        tasks := tasks + [PaperTask(paperUrl, year, Current)];
      } else {
        tasks := tasks + [PaperTask(paperUrl, year, Legacy)];
      }
    }
    assert paperLinks[..|paperLinks|] == paperLinks;
  }

  /** Every paper task is for a selected year and uses that year's format. */
  lemma {:induction false} ArchiveTasksSelected(years: seq<int>, join: (string, string) -> string, fetch: string -> Option<Document>, links: seq<Element>)
    ensures forall t :: t in ArchiveTasks(years, join, fetch, links) ==>
      t.PaperTask? && t.year in years && t.format == FormatOf(t.year)
    decreases |links|
  {
    if links != [] {
      ArchiveTasksSelected(years, join, fetch, links[..|links| - 1]);
    }
  }

  /** The run's shape: paper tasks for selected years, then the datasets task as the very last
      one exactly when 2021 is in the range. */
  lemma TasksShape(years: seq<int>, join: (string, string) -> string, fetch: string -> Option<Document>)
    requires Tasks(years, join, fetch).Some?
    ensures forall i :: 0 <= i < |Tasks(years, join, fetch).value| && Tasks(years, join, fetch).value[i].PaperTask? ==>
      Tasks(years, join, fetch).value[i].year in years
      && Tasks(years, join, fetch).value[i].format == FormatOf(Tasks(years, join, fetch).value[i].year)
    ensures forall i :: 0 <= i < |Tasks(years, join, fetch).value| ==>
      (Tasks(years, join, fetch).value[i].DatasetTask? <==>
        i == |Tasks(years, join, fetch).value| - 1 && DATASET_YEAR in years)
  {
    var links := Select(fetch(BASE_URL).value, IsArchiveLink);
    ArchiveTasksSelected(years, join, fetch, links);
    var archive := ArchiveTasks(years, join, fetch, links);
    assert Tasks(years, join, fetch).value == archive + DatasetTasks(years);
    assert forall i :: 0 <= i < |archive| ==> archive[i] in archive;
  }

  /** Only which years are selected matters, not their order or repetitions: the tasks follow
      the order of the archive page. */
  lemma {:induction false} ArchiveTasksSameSelection(ys: seq<int>, zs: seq<int>, join: (string, string) -> string, fetch: string -> Option<Document>, links: seq<Element>)
    requires forall y :: y in ys <==> y in zs
    ensures ArchiveTasks(ys, join, fetch, links) == ArchiveTasks(zs, join, fetch, links)
    decreases |links|
  {
    if links != [] {
      ArchiveTasksSameSelection(ys, zs, join, fetch, links[..|links| - 1]);
    }
  }

  lemma TasksSameSelection(ys: seq<int>, zs: seq<int>, join: (string, string) -> string, fetch: string -> Option<Document>)
    requires forall y :: y in ys <==> y in zs
    ensures Tasks(ys, join, fetch) == Tasks(zs, join, fetch)
  {
    if fetch(BASE_URL).Some? {
      ArchiveTasksSameSelection(ys, zs, join, fetch, Select(fetch(BASE_URL).value, IsArchiveLink));
    }
  }

  /** `process_dataset_benchmark_papers`: the listing's `Abstract.html` links, each resolved
      against the datasets host and processed by `process_paper` as a 2021 paper; nothing when
      the listing cannot be fetched. */
  function DatasetPapers(join: (string, string) -> string, listing: Option<Document>): (r: seq<Task>)
    ensures listing.None? ==> r == []
    ensures listing.Some? ==> |r| == |Select(listing.value, IsLegacyPaperLink)|
    ensures forall i :: 0 <= i < |r| ==>
      r[i].PaperTask? && r[i].year == DATASET_YEAR && r[i].format == Legacy
      && r[i].paperUrl == join(DATASETS_BENCHMARKS_URL_2021, Href(Select(listing.value, IsLegacyPaperLink)[i]))
  {
    match listing
    case None => []
    case Some(page) => PaperTasks(join, DATASETS_BENCHMARKS_URL_2021, DATASET_YEAR, Select(page, IsLegacyPaperLink))
  }
}
