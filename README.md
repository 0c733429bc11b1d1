# NeurIPS proceedings scraper, modelled in Dafny

The repository scrapes the NeurIPS proceedings site (`https://papers.nips.cc`) in two
independent variants:

- `scrapper.java`:
  - asks for up to five comma-separated years;
  - walks the main page's archive links and keeps the selected years;
  - submits one task per paper link on each year page;
  - in each task, fetches the paper page with at most three attempts and an exponential
    back-off;
  - extracts title, authors, abstract and PDF link;
  - writes a metadata file, then appends to `output.json` and `output.csv`.
- `scrapper.py`:
  - asks for a download option ("1" or "2") and a year range "a-b";
  - runs the same dispatch with `urljoin`;
  - extracts year, title and abstract;
  - writes a metadata file under `/content/metadata/<year>/`;
  - appends to `neurips_<year>.json` and to a shared list;
  - finally writes `neurips_<first>-<last>.csv` from that list.

The model keeps the two variants apart, one module per concern, and shares only what both use.

Shared modules:
- `Options`: an optional value.
- `Backoff`: powers of two.
- `Text`: the string operations of both languages:
  - Java `trim` and `split`, Python `strip` and `str.split`;
  - `replace` with an empty replacement;
  - `Integer.parseInt` and Python `int()`;
  - decimal rendering.
- `Markup`: a page as a sequence of elements in document order, with first-match,
  next-sibling and `select`.
- `Site`:
  - the site's constants;
  - the year-to-layout rule ("current" after 2021, "legacy" otherwise);
  - the headings;
  - the filename sanitiser, which is identical in both variants.

Java variant:
- `JavaInput`: `getUserYears`.
- `JavaExtract`: the page parsing of `processPaperNew` and `processPaperOld`, including the
  sibling walk that skips empty paragraphs, written as a loop.
- `JavaSink`:
  - the metadata files, `output.json` and `output.csv`, as a class;
  - CSV quoting, with a parser proving the round-trip.
- `JavaRetry`: the retry loop, as a method that is proved against a trace function.
- `JavaDispatch`: the loops of `main` that build the task list.

Python variant:
- `PyInput`: the two prompt loops.
- `PyExtract`: the page parsing of `process_paper_2022_2023` and `process_paper`.
- `PySink`:
  - `os.path.join`, the metadata paths and the log names;
  - the list and the logs, as a class;
  - the CSV table with its round-trip.
- `PyRetry`: the retry loop.
- `PyDispatch`: `main`'s dispatch loop and the dataset task.

External effects are parameters:
- The network is a function from URL to an optional page (`fetch`). A retrying task instead
  takes a function from attempt number to what that attempt meets.
- Python's `urljoin` is a parameter `join`.
- Keyboard input is the sequence of lines typed.
- The file system is a `Store` value held by a `Sink` object, whose methods update it in
  place.

Where the code and the description of the system disagree, the model follows the code:
- Java's current-layout title is never "Untitled": `Document.title()` returns "" rather than
  null when there is no `<title>`, so the fallback in `scrapper.java:124` is dead code.
- Java's dataset-track paper URLs are `BASE_URL + href` (`scrapper.java:260`), not URLs on the
  dataset site.
- Java's year parsing uses `String.split`, which drops trailing empty fields. An archive link
  with a trailing "/" is therefore still read as its year (`JavaDispatch.YearOfArchiveLink`).
  Python's `split` keeps the empty last field, so `int('')` fails and the link is skipped
  (`PyDispatch.YearOfArchiveUrl`).
- Java accepts years 1987 to 2023 (`scrapper.java:41-42`); Python accepts 1987 to 2024
  (`scrapper.py:23-24`).
- Python's main-page request is outside every `try`. When it fails, the run ends before any
  task is started (`PyDispatch.Tasks` is `None`). In Java the outer `catch` ends the run the
  same way, with no tasks.
- Both variants sleep after the last failed attempt as well. Java sleeps 2, 4 and 8 seconds;
  Python sleeps 1, 2 and 4.

## Model

| member | source | states |
|---|---|---|
| Backoff.Pow2 | scrapper.py:106 | 2^k is at least 1, so every back-off delay is a positive number of seconds |
| Backoff.Pow2Add | scrapper.py:106 | 2^(a+b) = 2^a · 2^b |
| Backoff.Pow2Doubles | scrapper.java:175 | each further attempt waits twice as long as the one before |
| Options.Option.GetOr | scrapper.java:192 | the value when present, the fallback when absent |
| Text.DropTrailing | scrapper.java:124 | the result is a prefix of the input; everything it drops is blank; it does not end in a blank |
| Text.Trim | scrapper.java:131 | Java `trim`: no longer than the input; empty exactly when the input is all blanks (<= U+0020); otherwise it neither starts nor ends with a blank |
| Text.TrimIsInnerPart | scrapper.java:131 | `trim` is a contiguous part of the input, and everything it removes before and after that part is blank |
| Text.TrimUnchanged | scrapper.java:124 | trimming a string that is already trimmed changes nothing |
| Text.Strip | scrapper.py:65 | Python `strip`: empty exactly when the input is all whitespace; otherwise it neither starts nor ends with whitespace |
| Text.StripIsInnerPart | scrapper.py:65 | `strip` is a contiguous part of the input, and everything it removes before and after that part is whitespace |
| Text.RemoveAll | scrapper.py:65 | `replace(" - NeurIPS", "")` never lengthens a string |
| Text.RemoveAllAbsent | scrapper.py:65 | removing a pattern that does not occur leaves the string unchanged |
| Text.RemoveAllAppended | scrapper.java:124 | for a pattern that does not overlap itself, removing it from `a + pat` equals removing it from `a` |
| Site.NeurIPSSuffixBorderFree | scrapper.java:124 | " - NeurIPS" does not overlap itself, so a trailing occurrence is removed as a whole |
| Text.ContainsSuffix | scrapper.java:124 | `a + t` contains `t` |
| Text.Lower | scrapper.py:67 | case folding keeps the length |
| Text.LowerAppend | scrapper.py:67 | case folding distributes over concatenation |
| Text.Split | scrapper.py:221 | Python `str.split(sep)`: at least one field; no field holds the separator; a string without the separator is its own single field |
| Text.JoinSplit | scrapper.py:221 | joining the fields of `split` with the separator gives back the string |
| Text.SplitJoin | scrapper.py:177 | splitting a join of separator-free fields gives back the fields |
| Text.SplitAfterField | scrapper.py:177 | a separator-free first field followed by the separator splits off as the first field |
| Text.SplitAppendField | scrapper.py:221 | a separator-free last field after the separator is the last field of the split |
| Text.DropTrailingEmpty | scrapper.java:273 | a prefix of the fields; every dropped field is empty; the last kept field is non-empty |
| Text.JavaSplit | scrapper.java:273 | Java `String.split`: no field holds the separator; without a separator the string is its own field; otherwise Python-style fields with the trailing empty ones dropped |
| Text.JavaSplitLastField | scrapper.java:338-339 | a non-empty last field is the last field of Java's split whether or not a separator follows it |
| Text.Decimal | scrapper.java:335 | decimal rendering: all digits, no leading zero, denoting the number |
| Text.IntToString | scrapper.py:89 | `str(int)`: digits with an optional leading '-', ending in a digit |
| Text.IntToStringInjective | scrapper.py:89 | different years render differently |
| Text.ParseJavaInt | scrapper.java:280 | `Integer.parseInt`: a value within 32-bit range, from a string that starts with a digit or a sign |
| Text.ParseJavaIntDecimal | scrapper.java:280 | parsing the decimal rendering of a number up to 2^31-1 gives the number back |
| Text.RunDigits | scrapper.py:177 | the digits of a Python integer literal body, underscores between digits removed: non-empty and all digits |
| Text.ParsePyIntDecimal | scrapper.py:177 | `ParsePyInt`, Python `int()`: a natural number's decimal rendering reads back as the number |
| Text.ParsePyIntOfIntToString | scrapper.py:89 | `int(str(i)) == i` for every integer |
| Site.FormatOf | scrapper.java:361 | a year uses the current layout exactly when it is after 2021 |
| Site.SanitizeFilename | scrapper.java:49-51 | same length; no reserved character `\ / : * ? " < > \|` remains; each reserved character becomes '_' and every other character is kept |
| Site.SanitizeIdempotent | scrapper.py:33-34 | sanitising twice is sanitising once |
| Markup.FirstMatch | scrapper.java:126 | `selectFirst`/`find`: the returned position is the first match from the start; none only when nothing matches |
| Markup.FirstUnique | scrapper.java:126 | the first match is unique, so any position shown to be the first match is the one `selectFirst` finds |
| Markup.NextSibling | scrapper.java:129 | `nextElementSibling`: the next element with the same parent, absent exactly for the last child |
| Markup.Select | scrapper.java:330 | `select`: only matching elements, each one in the page, and every match of the page is kept |
| Markup.SelectAppend | scrapper.java:367 | `select` keeps document order: one more element adds at most itself at the end |
| Markup.HrefEndsWithSuffix | scrapper.java:144 | a link whose href ends with the suffix matches `[href$=suffix]` |
| Markup.HrefContainsSuffix | scrapper.java:194 | a link whose href contains the part matches `[href*=part]` |
| JavaInput.Entries | scrapper.java:278-286 | one parsed entry per comma-separated field |
| JavaInput.CheckEntriesSpec | scrapper.java:279-287 | `CheckEntries`: the entries are accepted exactly when every one is an in-range year, and the years are then the parsed values in order. The run crashes exactly when some field is not a number and every field before it is an in-range year |
| JavaInput.CheckEntriesAt | scrapper.java:280-285 | at field i: a non-number throws, an out-of-range year asks again, a good year is kept and the loop goes on |
| JavaInput.UserYearsSpec | scrapper.java:269-288 | `UserYears`: a line is accepted exactly when it splits into at most five fields that all parse to years 1987..2023; the years are those values, in order |
| JavaInput.GetUserYears | scrapper.java:269-288 | the method's answer is the one the specification function gives for that line |
| JavaInput.ParseEntries | scrapper.java:278-287 | the `for` loop over the fields computes the specification's verdict |
| JavaInput.ParseEntry | scrapper.java:280 | one field is trimmed and parsed |
| JavaInput.ReadUserYears | scrapper.java:269-288 | the recursive re-prompt never leaves "ask again" as an answer; the first line that is not asked again decides the answer; the input runs out (the `null` crash) exactly when every line is asked again; accepted years are at most five and all in range |
| JavaInput.UserYearsOfList | scrapper.java:269-288 | typing 1 to 5 in-range years separated by commas yields exactly those years |
| JavaInput.CheckEntriesAllGood | scrapper.java:279-287 | entries that are all in-range years are accepted as those years |
| JavaInput.SplitOfJoin | scrapper.java:273 | Java's split undoes a join of non-empty comma-free fields |
| JavaInput.EntriesOfDecimals | scrapper.java:280 | each field typed as a decimal year parses to that year |
| JavaInput.Decimals | scrapper.java:273 | decimal fields, one per year, none holding a comma |
| JavaExtract.DocumentTitle | scrapper.java:124 | `Document.title()`: "" without a title element; otherwise the first title's trimmed text |
| JavaExtract.CurrentTitle | scrapper.java:124 | "" without a title element; never starts or ends with a blank |
| JavaExtract.CurrentTitleOfSuffixed | scrapper.java:124 | a title `t + " - NeurIPS"` without other occurrences gives `trim(t)` |
| JavaExtract.LegacyTitle | scrapper.java:191-192 | "Untitled" without an h4; otherwise the first h4's trimmed text |
| JavaExtract.Authors | scrapper.java:126-133 | "" without an "Authors" heading |
| JavaExtract.AuthorsAfterHeading | scrapper.java:126-133 | with a first "Authors" heading: its next sibling's trimmed text, or "" when it is the last child |
| JavaExtract.CurrentAbstract | scrapper.java:135-142 | "No abstract available" without an "Abstract" heading |
| JavaExtract.CurrentAbstractAfterHeading | scrapper.java:135-142 | with a first "Abstract" heading: its next sibling's trimmed text, or "No abstract available" when it is the last child |
| JavaExtract.LegacyAbstract | scrapper.java:210-220 | "No abstract available" without an "Abstract" heading |
| JavaExtract.LegacyAbstractAfterHeading | scrapper.java:210-220 | with a first "Abstract" heading: the trimmed text of its first later sibling with non-blank text, or "No abstract available" when every later sibling is blank |
| JavaExtract.WalkStep | scrapper.java:214-216 | stepping past a blank sibling keeps "every sibling passed so far has blank text" |
| JavaExtract.WalkToAbstract | scrapper.java:210-220 | the `while` walk over next siblings computes the legacy abstract |
| JavaExtract.Extract | scrapper.java:144-149 | no record exactly when the page has no PDF link of the layout; a record carries the paper's own URL |
| JavaExtract.ExtractWithLink | scrapper.java:144-160 | with the first PDF link at i, the record is the layout's title, authors and abstract, `BASE_URL + href`, and the paper URL |
| JavaExtract.ExtractLegacyPage | scrapper.java:189-220 | `processPaperOld`'s statements compute the legacy extraction |
| JavaExtract.CurrentPageExtract | scrapper.java:122-160 | on a typical current page, the extraction is the title without the suffix, the trimmed authors and abstract, and the absolute PDF URL |
| JavaExtract.CurrentLayout | scrapper.java:122-160 | the same for any six elements laid out as such a page |
| JavaExtract.LegacyPageExtract | scrapper.java:189-232 | on a typical legacy page with two blank paragraphs after the abstract heading, the walk skips both and takes the third |
| JavaExtract.LegacyLayout | scrapper.java:189-232 | the same for any eight elements laid out as such a page |
| JavaSink.MetadataPathInjective | scrapper.java:162 | `MetadataPath`: two titles share a metadata file exactly when they sanitise alike, so a later paper overwrites an earlier one only then |
| JavaSink.MetadataJsonTitle | scrapper.java:154-160 | `MetadataJson`: the text opens with `{`, a newline and the title member's opening quote, followed by the title unescaped; a title without quotes is the text up to the next quote |
| JavaSink.DoubleQuotes | scrapper.java:105-109 | `replace("\"", "\"\"")` never shortens a field and leaves a quote-free field unchanged |
| JavaSink.ReadField | scrapper.java:104-110 | reading one quoted field consumes input |
| JavaSink.ParseFields | scrapper.java:104-110 | a parsed row has at least one field |
| JavaSink.ReadFieldDoubled | scrapper.java:105 | a field with its quotes doubled followed by the closing quote reads back as the original field |
| JavaSink.QuotedFieldsRoundTrip | scrapper.java:104-110 | parsing a non-empty list of quoted, comma-joined fields gives back the fields |
| JavaSink.CsvRowRoundTrip | scrapper.java:104-110 | `CsvRow`: a CSV row parses back into exactly its five fields, whatever quotes and commas they hold |
| JavaSink.RowIsNotHeader | scrapper.java:101-104 | a data row is never the header line: it starts with a quote |
| JavaSink.AppendCsv | scrapper.java:94-115 | the old lines are kept unchanged; a new file gets the header and the row, an existing file gets the row alone |
| JavaSink.CsvAfter | scrapper.java:94-115 | appending several rows creates the file unless there are none |
| JavaSink.CsvAfterExisting | scrapper.java:96-110 | an existing file only grows by the rows |
| JavaSink.CsvAfterFresh | scrapper.java:96-110 | a fresh file gets the header once, first, and no later line is the header |
| JavaSink.Recorded | scrapper.java:162-169 | after saving a record: its metadata file holds its JSON; other files are unchanged; the JSON log grows by it; the CSV is the old file appended with its row (header first when new), so it keeps its old lines and ends with the row |
| JavaSink.RecordedFiles | scrapper.java:162-169 | saving a record creates no file but its own metadata file |
| JavaSink.Sink.constructor | scrapper.java:96 | no metadata files, an empty JSON log, and whatever `output.csv` holds |
| JavaSink.Sink.SaveMetadata | scrapper.java:162-165 | writes the metadata file for the title; nothing else changes |
| JavaSink.Sink.AppendToJson | scrapper.java:81-91 | the JSON log grows by one entry; nothing else changes |
| JavaSink.Sink.AppendToCsv | scrapper.java:94-115 | the CSV becomes the appended file; nothing else changes |
| JavaSink.Sink.Record | scrapper.java:162-169 | the new state is `Recorded` of the old |
| JavaRetry.AttemptCases | scrapper.java:121-171 | `Attempt`: an attempt fails exactly when the fetch throws or a page with a PDF link cannot have its metadata file written; it ends without a link exactly when the loaded page has none, whatever the file system would do; a save carries the paper's own URL |
| JavaRetry.Steps | scrapper.java:120-122 | one step per attempt, attempt k meeting the network's k-th response |
| JavaRetry.RunFrom | scrapper.java:120-181 | at most three fetches; gives up exactly when all remaining fetches were used, with one delay per fetch; otherwise one delay fewer than fetches; the delay after the k-th failure is 2^k seconds |
| JavaRetry.GiveUpFrom | scrapper.java:120-181 | from any attempt on, the task gives up exactly when every remaining attempt fails |
| JavaRetry.GiveUpIffAllFail | scrapper.java:120-181 | `Run`: the task gives up exactly when all three attempts fail, and then it has made three requests and slept 2, 4 and 8 seconds |
| JavaRetry.DelaysUpTo | scrapper.java:173-175 | the delays slept after failures, 2^(k+1) for the k-th |
| JavaRetry.FirstDecisiveAttempt | scrapper.java:120-181 | the first attempt that does not fail decides the outcome, after k failures and their delays |
| JavaRetry.SavedOnThirdAttempt | scrapper.java:120-181 | two failures and then a save: three requests, 2 and 4 seconds slept |
| JavaRetry.ExtractPage | scrapper.java:122-149 | the page is parsed as the layout's extraction |
| JavaRetry.Decide | scrapper.java:121-171 | one pass of the `try` block decides the attempt's step |
| JavaRetry.TryAttempt | scrapper.java:121-171 | one pass: the step, and the outputs written only when the paper is saved |
| JavaRetry.AfterFailed | scrapper.java:171-179 | a failed attempt is one more request and one more delay of 2^(attempts+1) seconds |
| JavaRetry.ProcessPaper | scrapper.java:118-182 | `processPaperNew`/`processPaperOld`'s loop yields the trace of the specification; the outputs change only when the paper is saved |
| JavaDispatch.YearOfArchiveLink | scrapper.java:335-339 | `YearOf`: an archive link ending in a year reads back as that year, also with a trailing "/" |
| JavaDispatch.IsSelected | scrapper.java:345-351 | the flag loop finds the year exactly when it is among the chosen years |
| JavaDispatch.PaperTasks | scrapper.java:367-374 | one task per paper link, in order: that year, `BASE_URL + href`, current layout exactly after 2021 |
| JavaDispatch.Dispatch | scrapper.java:326-386 | `main`'s loops submit exactly the specification's tasks |
| JavaDispatch.SubmitArchive | scrapper.java:334-378 | the loop over archive links submits the tasks of each link in turn |
| JavaDispatch.ProcessYearLink | scrapper.java:335-377 | `LinkTasks`, one archive link: skipped on a bad year, an unselected year or a failed fetch; otherwise its paper tasks |
| JavaDispatch.SubmitPapers | scrapper.java:367-374 | the loop over paper links submits their tasks |
| JavaDispatch.SubmitDatasets | scrapper.java:381-386 | the dataset task is submitted once exactly when 2021 is chosen |
| JavaDispatch.ArchiveTasksSelected | scrapper.java:345-374 | every archive task is a paper task of a chosen year, with that year's layout |
| JavaDispatch.TasksShape | scrapper.java:326-386 | `Tasks`: every paper task is for a chosen year with its layout; there is a dataset task exactly when the main page loads and 2021 is chosen, and then it comes last |
| JavaDispatch.ArchiveTasksSameSelection | scrapper.java:345-351 | the archive tasks depend only on which years are chosen, not on their order or repetition |
| JavaDispatch.TasksSameSelection | scrapper.java:326-386 | the whole task list depends only on which years are chosen |
| JavaDispatch.DatasetPapers | scrapper.java:255-266 | none when the listing fails to load; otherwise one legacy task per `Abstract.html` link, in order, year 2021, at `BASE_URL + href` of that link |
| PyInput.YearsBetween | scrapper.py:181 | `range(a, b + 1)`: b - a + 1 years, a, a+1, ... |
| PyInput.YearRange | scrapper.py:177-181 | an accepted line yields a non-empty run of consecutive years all within 1987..2024 |
| PyInput.YearRangeOfDecimals | scrapper.py:177-181 | "a-b" typed in decimals is accepted exactly when 1987 <= a <= b <= 2024, and then yields every year from a to b |
| PyInput.Prompt | scrapper.py:174-190 | the `while True` loop answers with the first accepted line and its value; it runs out exactly when no line is accepted |
| PyInput.GetUserYears | scrapper.py:173-183 | the first valid range decides; without one the input runs out |
| PyInput.GetDownloadOption | scrapper.py:185-190 | `DownloadChoice`, asked until answered: the first line that is exactly "1" or "2" decides, "1" meaning PDFs too; without one the input runs out |
| PyExtract.CurrentTitle | scrapper.py:65 | "Untitled" without a title element; otherwise the first title's stripped text with every " - NeurIPS" removed |
| PyExtract.CurrentTitleOfSuffixed | scrapper.py:65 | a title `t + " - NeurIPS"` without other occurrences gives `t` |
| PyExtract.LegacyTitle | scrapper.py:115-116 | "Untitled" without an h4; otherwise the first h4's stripped text |
| PyExtract.NextParagraph | scrapper.py:70 | `find_next('p')`: the first paragraph after the position, absent exactly when there is none |
| PyExtract.CurrentAbstract | scrapper.py:67-72 | "No abstract available" without an "Abstract" heading |
| PyExtract.CurrentAbstractAfterHeading | scrapper.py:67-72 | with a first "Abstract" heading: the stripped text of the first paragraph after it, or "No abstract available" when no paragraph follows |
| PyExtract.LegacyAbstract | scrapper.py:118-125 | "No abstract available" without an "Abstract" heading |
| PyExtract.LegacyAbstractAfterHeading | scrapper.py:118-125 | with a first "Abstract" heading: the first paragraph after it when its stripped text is non-empty; "No abstract available" when no paragraph follows |
| PyExtract.LegacyAbstractSkip | scrapper.py:121-125 | when that first paragraph is empty: the stripped text of the next paragraph, or "No abstract available" when there is none |
| PyExtract.AbstractsAgree | scrapper.py:118-125 | the legacy abstract differs from the current one only when the current one is empty, and a non-empty current abstract is also the legacy one |
| PyExtract.LegacyAbstractEmpty | scrapper.py:121-125 | an empty legacy abstract comes from two consecutive empty paragraphs after the heading |
| PyExtract.Extract | scrapper.py:74-86 | no metadata exactly when PDFs are wanted and the page has no PDF link of its layout; otherwise year, title and abstract |
| PySink.PathJoin | scrapper.py:89-92 | `os.path.join`: ends with the second part; keeps the first as a prefix when the second is relative; adds one '/' when the first lacks it |
| PySink.PathJoinUnderDir | scrapper.py:89 | a relative name under a directory ending in '/' is plain concatenation |
| PySink.PathJoinAddsSlash | scrapper.py:92 | a relative name under a directory without a trailing '/' gets one '/' between |
| PySink.MetadataName | scrapper.py:91 | the file name is non-empty and holds no '/' |
| PySink.MetadataPathShape | scrapper.py:89-92 | `MetadataPath`: the path is `/content/metadata/<year>/<sanitised title>.json` |
| PySink.MetadataPathInjective | scrapper.py:89-94 | two papers share a metadata file exactly when they have the same year and their titles sanitise alike |
| PySink.JsonLogNameInjective | scrapper.py:54 | `JsonLogName`: each year has its own log |
| PySink.LogIsNotMetadataFile | scrapper.py:54 | a log is never a metadata file |
| PySink.CsvName | scrapper.py:193 | a CSV name exists exactly when the year list is non-empty |
| PySink.CsvNameOfRange | scrapper.py:193 | for the range a..b the file is `neurips_a-b.csv` |
| PySink.Row | scrapper.py:199-200 | a row has one field per header column |
| PySink.Rows | scrapper.py:199-200 | one row per saved paper, in order |
| PySink.CsvTable | scrapper.py:194-200 | the header first, then one row per paper |
| PySink.RowRoundTrip | scrapper.py:199-200 | a row reads back as its paper |
| PySink.ReadRowsOfEntries | scrapper.py:199-200 | rows of papers read back as those papers |
| PySink.CsvTableRoundTrip | scrapper.py:192-200 | the table reads back as exactly the saved papers |
| PySink.Recorded | scrapper.py:89-101 | after saving: the metadata file holds the paper; other files are unchanged; the year's log grows by it; other logs are unchanged; the list grows by it; CSV files are untouched |
| PySink.RecordedFiles | scrapper.py:89-101 | saving creates no file but the paper's metadata file, and no log but its year's |
| PySink.OfYear | scrapper.py:54 | the papers of one year: every entry is of that year and drawn from the sequence, and every entry of that year in the sequence is kept |
| PySink.OfYearAppend | scrapper.py:53-57 | one year's entries of `a + b` are those of `a` followed by those of `b` |
| PySink.SavedLogStep | scrapper.py:53-57 | one save grows the log of its own year only |
| PySink.SavedAllCollected | scrapper.py:100-101 | after a run of saves, the list is the old list followed by the saved papers in order |
| PySink.SavedAllLog | scrapper.py:53-57 | after a run of saves, each year's log is the old log followed by that year's papers in order |
| PySink.WriteRows | scrapper.py:199-200 | the `for` loop writes exactly the rows of the list |
| PySink.Sink.constructor | scrapper.py:31 | no files, no logs, an empty list, no CSV files |
| PySink.Sink.WriteMetadataFile | scrapper.py:93-94 | writes the paper's metadata file; nothing else changes |
| PySink.Sink.AppendToLog | scrapper.py:53-57 | the year's log grows by the paper; nothing else changes |
| PySink.Sink.AppendToList | scrapper.py:100-101 | the list grows by the paper; nothing else changes |
| PySink.Sink.Save | scrapper.py:89-101 | the new state is `Recorded` of the old |
| PySink.Sink.WriteCsv | scrapper.py:192-202 | the name is the specification's name; the file holds the header and the list's rows; nothing else changes |
| PyRetry.MetadataOnlyNeverSkips | scrapper.py:74-80 | without PDFs a loaded page is saved unless the write raises |
| PyRetry.AttemptCases | scrapper.py:61-103 | `Attempt`: an attempt fails exactly when the request raises or the metadata file of an extracted paper cannot be opened; it ends without a link exactly when PDFs are wanted and the loaded page has none; a save carries the page's year, title and abstract |
| PyRetry.Steps | scrapper.py:60-62 | one step per attempt, attempt k meeting the network's k-th response |
| PyRetry.RunFrom | scrapper.py:60-107 | at most three requests; gives up exactly when all were used, with one delay per request; otherwise one delay fewer; the delay after attempt k is 2^k seconds |
| PyRetry.GiveUpFrom | scrapper.py:60-107 | from any attempt on, the task gives up exactly when every remaining attempt fails |
| PyRetry.GiveUpIffAllFail | scrapper.py:60-107 | `Run`: the task gives up exactly when all three attempts fail, and then it has made three requests and slept 1, 2 and 4 seconds |
| PyRetry.DelaysUpTo | scrapper.py:106 | the delays slept, 2^k after attempt k |
| PyRetry.FirstDecisiveAttempt | scrapper.py:60-107 | the first attempt that does not fail decides the outcome, after k failures and their delays |
| PyRetry.SavedOnThirdAttempt | scrapper.py:60-107 | two failures and then a save: three requests, 1 and 2 seconds slept |
| PyRetry.Decide | scrapper.py:61-94 | one pass of the `try` block decides the attempt's step |
| PyRetry.TryAttempt | scrapper.py:61-103 | one pass: the step, and the outputs written only when the paper is saved |
| PyRetry.AfterFailed | scrapper.py:104-106 | a failed attempt is one more request and one more delay of 2^attempt seconds |
| PyRetry.ProcessPaper | scrapper.py:59-107 | `process_paper_2022_2023`/`process_paper`'s loop yields the trace of the specification; the outputs change only when the paper is saved |
| PyDispatch.YearOfArchiveUrl | scrapper.py:219-224 | `YearOf`: an archive URL ending in a year reads as that year; with a trailing "/" it is skipped |
| PyDispatch.PaperTasks | scrapper.py:237-242 | one task per paper link, in order: that year, `urljoin(year_url, href)`, current layout exactly after 2021 |
| PyDispatch.Dispatch | scrapper.py:213-249 | `main`'s loop submits exactly the specification's tasks; none at all when the main page fails |
| PyDispatch.SubmitArchive | scrapper.py:218-246 | the loop over archive links submits the tasks of each link in turn |
| PyDispatch.ProcessYearLink | scrapper.py:219-246 | one archive link: skipped on a bad year, an unselected year or a failed fetch; otherwise its paper tasks |
| PyDispatch.SubmitPapers | scrapper.py:232-242 | the loop over paper links submits their tasks |
| PyDispatch.ArchiveTasksSelected | scrapper.py:226-242 | every archive task is a paper task of a chosen year, with that year's layout |
| PyDispatch.TasksShape | scrapper.py:213-249 | `Tasks`: every paper task is for a chosen year with its layout; there is a dataset task exactly when 2021 is chosen, and then it comes last |
| PyDispatch.ArchiveTasksSameSelection | scrapper.py:226 | the archive tasks depend only on which years are chosen |
| PyDispatch.TasksSameSelection | scrapper.py:213-249 | the whole task list depends only on which years are chosen |
| PyDispatch.DatasetPapers | scrapper.py:162-171 | none when the listing fails; otherwise one legacy task per `Abstract.html` link, year 2021, at `urljoin(dataset_url, href)` |

## Left out

- HTTP and HTML parsing are left out; a page is the sequence of its elements in document order, and each fetch returns a page or fails.
- Downloading PDFs (`download_pdf`, `downloadPDF`) is left out; the PDF URL is still computed.
  - Python's `download_pdf` catches every `Exception`, so it affects none of the modelled outputs.
  - Java's `downloadPDF` is assumed not to throw. It catches only `IOException`. `new HttpGet(pdfUrl)` (`scrapper.java:63`) is outside its `try` and throws `IllegalArgumentException` for a malformed URL, such as an href holding a space. A response without an entity throws `NullPointerException` (`scrapper.java:65`).
  - Such an unchecked exception would also escape the `catch (IOException e)` of `processPaperNew` and `processPaperOld` (`scrapper.java:171`, `241`). The task would then end with no metadata file, no JSON or CSV line, and no retry. The model has no such outcome.
- Zipping the outputs at the end of the Java run (`scrapper.java:291-307` and `391-407`) is left out, because it is packaging after the scrape.
- The Python packaging block (`scrapper.py:257-276`) is left out for the same reason.
- The thread pools and locks are left out. Tasks are a list in submission order and each append is atomic, which is what the locks guarantee. The model does not capture how tasks interleave, so the order of log entries across tasks is not modelled.
- `Thread.sleep` and `time.sleep` are not executed; a delay is a number of seconds in the trace (Java sleeps 1000·2^k milliseconds).
- Console output is left out.
- JSON serialisation is not modelled. Java's hand-built JSON is modelled as the concatenated string; Python's `json.dump` and `json.dumps` write a `Metadata` value, so files and logs hold values rather than text.
- Python's `csv.DictWriter` quoting is not modelled: the CSV file is a table of rows of fields.
- BeautifulSoup's `get_text(strip=True)` is an approximation: it is read as stripping the element's text. `string=re.compile(...)` matching is read on the element's own text.
- Case folding covers ASCII letters only.
- `urljoin` is a parameter; how it resolves relative references is not modelled.
- A failure of the later writes (the JSON log, the list append, the CSV file) is not modelled: they are assumed to succeed. Only the fetch and the metadata-file write fail an attempt.
- Directory creation (`os.makedirs`, `Files.createDirectories`) is left out.
- The Java `int[]` of years is a sequence.
- The Python dataset task processes its papers one after another, inside that single task. `PyDispatch.DatasetPapers` models only the list of papers it visits, not their processing.
- At the end of input, the Java `getUserYears` gets null from `readLine`, and `split` on it throws. The model takes the input as the lines typed, and running out of lines ends the run like the exception does.
- JavaExtract.CurrentTitle: states bounds rather than the exact value, because a title can hold the suffix in the middle. `JavaExtract.CurrentTitleOfSuffixed` gives the exact value for the usual page title.
- JavaExtract.Authors, JavaExtract.CurrentAbstract and JavaExtract.LegacyAbstract: their own contracts cover only the case without a heading. The case with a heading is stated by the lemmas `AuthorsAfterHeading`, `CurrentAbstractAfterHeading` and `LegacyAbstractAfterHeading`.
- Text.ParseJavaInt, Text.RunDigits, Text.ParsePyInt: accept ASCII digits only. `Integer.parseInt` reads any Unicode digit through `Character.digit`, and Python's `int()` any Unicode decimal digit, so both also read "٢٠٢١" as 2021; characters are not classified by Unicode category here.
- JavaSink.Sink.constructor, PySink.Sink.constructor: start with empty JSON logs. `output.json` and `neurips_<year>.json` are opened in append mode (`scrapper.java:83`, `scrapper.py:56`), so in fact they keep what earlier runs wrote; the model covers a first run.
