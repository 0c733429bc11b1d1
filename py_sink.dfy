/**
 * Where the Python scraper puts a paper it has extracted: a metadata file under a directory
 * named after the year, one more entry in that year's JSON log, and one more entry in the global
 * `metadata_list`, which `write_metadata_to_csv` writes out at the end of the run. Files are
 * modelled as values: each metadata file and each log holds the metadata entries themselves
 * (`json.dump` and `json.dumps` are not modelled), and the CSV file is its list of rows, each a
 * list of fields.
 */
module PySink {
  import opened Options
  import opened Text
  import opened Site
  import opened PyExtract
  import opened PyInput

  const METADATA_DIR := "/content/metadata/"
  const CSV_HEADER: seq<string> := ["year", "title", "abstract"]

  // ---------------------------------------------------------------------------------------------
  // File names
  // ---------------------------------------------------------------------------------------------

  /** POSIX `os.path.join(a, b)`: an absolute `b` replaces `a`; otherwise `b` follows `a`, with a
      slash between them unless `a` is empty or already ends with one. */
  function PathJoin(a: string, b: string): (r: string)
    ensures |r| >= |b| && r[|r| - |b|..] == b
    ensures (b == [] || b[0] != '/') ==> |r| >= |a| && r[..|a|] == a
    ensures (b == [] || b[0] != '/') && a != [] && a[|a| - 1] != '/' ==> |r| == |a| + 1 + |b| && r[|a|] == '/'
  {
    if b != [] && b[0] == '/' then b
    else if a == [] || a[|a| - 1] == '/' then a + b
    else a + "/" + b
  }

  /** `os.path.join(METADATA_DIR, str(year))`. */
  function YearDir(year: int): string {
    PathJoin(METADATA_DIR, IntToString(year))
  }

  /** `os.path.join(year_dir, sanitize_filename(title) + ".json")`. */
  function MetadataPath(year: int, title: string): string {
    PathJoin(YearDir(year), MetadataName(title))
  }

  /** A relative part joined to a directory ending in a slash is appended to it. */
  lemma PathJoinUnderDir(a: string, b: string)
    requires a != [] && a[|a| - 1] == '/' && b != [] && b[0] != '/'
    ensures PathJoin(a, b) == a + b
  {
  }

  /** A relative part joined to a path not ending in a slash follows it after a slash. */
  lemma PathJoinAddsSlash(a: string, b: string)
    requires a != [] && a[|a| - 1] != '/' && b != [] && b[0] != '/'
    ensures PathJoin(a, b) == a + "/" + b
  {
  }

  /** The metadata file's name: the sanitised title, then ".json". */
  function MetadataName(title: string): (r: string)
    ensures r != [] && '/' !in r && r[0] != '/'
  {
    var r := SanitizeFilename(title) + ".json";
    assert forall i :: 0 <= i < |r| ==> r[i] != '/' by {
      assert forall i :: 0 <= i < |SanitizeFilename(title)| ==> !IsReserved(SanitizeFilename(title)[i]);
    }
    r
  }

  /** The metadata file sits in the year's directory, named after the sanitised title. */
  lemma MetadataPathShape(year: int, title: string)
    ensures MetadataPath(year, title) == METADATA_DIR + IntToString(year) + "/" + MetadataName(title)
  {
    var y := IntToString(year);
    assert y[0] != '/';
    PathJoinUnderDir(METADATA_DIR, y);
    var d := METADATA_DIR + y;
    assert d[|d| - 1] == y[|y| - 1];
    PathJoinAddsSlash(d, MetadataName(title));
  }

  /** Two strings without a slash, each followed by a slash, split in the same place. */
  lemma SameFirstSegment(x1: string, n1: string, x2: string, n2: string)
    requires '/' !in x1 && '/' !in x2
    requires x1 + "/" + n1 == x2 + "/" + n2
    ensures x1 == x2 && n1 == n2
  {
    var p1, p2 := x1 + "/" + n1, x2 + "/" + n2;
    assert |x1| == |x2| by {
      assert p1[|x1|] == '/' && p2[|x2|] == '/';
    }
    assert x1 == p1[..|x1|] == p2[..|x2|] == x2;
    assert n1 == p1[|x1| + 1..] == p2[|x2| + 1..] == n2;
  }

  /** Two papers share a metadata file exactly when they have the same year and their titles
      sanitise to the same name: the later write then replaces the earlier one. */
  lemma MetadataPathInjective(y1: int, t1: string, y2: int, t2: string)
    ensures MetadataPath(y1, t1) == MetadataPath(y2, t2) <==> y1 == y2 && SanitizeFilename(t1) == SanitizeFilename(t2)
  {
    MetadataPathShape(y1, t1);
    MetadataPathShape(y2, t2);
    if MetadataPath(y1, t1) == MetadataPath(y2, t2) {
      SpelledPathInjective(y1, t1, y2, t2);
    }
  }

  /** `MetadataPathInjective` on the path written out. */
  lemma SpelledPathInjective(y1: int, t1: string, y2: int, t2: string)
    requires METADATA_DIR + IntToString(y1) + "/" + MetadataName(t1) == METADATA_DIR + IntToString(y2) + "/" + MetadataName(t2)
    ensures y1 == y2 && SanitizeFilename(t1) == SanitizeFilename(t2)
  {
    var s1, s2 := IntToString(y1), IntToString(y2);
    assert '/' !in s1 && '/' !in s2;
    InDirectory(s1, MetadataName(t1), s2, MetadataName(t2));
    IntToStringInjective(y1, y2);
    var n1, n2 := MetadataName(t1), MetadataName(t2);
    assert SanitizeFilename(t1) == n1[..|n1| - 5] == n2[..|n2| - 5] == SanitizeFilename(t2);
  }

  /** Within the metadata directory, the year's directory and the file name are determined by
      the path. */
  lemma InDirectory(s1: string, n1: string, s2: string, n2: string)
    requires '/' !in s1 && '/' !in s2
    requires METADATA_DIR + s1 + "/" + n1 == METADATA_DIR + s2 + "/" + n2
    ensures s1 == s2 && n1 == n2
  {
    var p1, p2 := METADATA_DIR + s1 + "/" + n1, METADATA_DIR + s2 + "/" + n2;
    assert p1[|METADATA_DIR|..] == s1 + "/" + n1;
    assert p2[|METADATA_DIR|..] == s2 + "/" + n2;
    SameFirstSegment(s1, n1, s2, n2);
  }

  /** `f"neurips_{year}.json"`, the year's log, in the working directory. */
  function JsonLogName(year: int): string {
    "neurips_" + IntToString(year) + ".json"
  }

  /** Each year has a log of its own. */
  lemma JsonLogNameInjective(y1: int, y2: int)
    ensures JsonLogName(y1) == JsonLogName(y2) <==> y1 == y2
  {
    if JsonLogName(y1) == JsonLogName(y2) {
      var s1, s2 := IntToString(y1), IntToString(y2);
      assert |s1| == |s2|;
      assert s1 == JsonLogName(y1)[8..8 + |s1|] == JsonLogName(y2)[8..8 + |s2|] == s2;
      IntToStringInjective(y1, y2);
    }
  }

  /** A log never lands on a metadata file: one name is relative, the other absolute. */
  lemma LogIsNotMetadataFile(y1: int, y2: int, title: string)
    ensures JsonLogName(y1) != MetadataPath(y2, title)
  {
    MetadataPathShape(y2, title);
    assert JsonLogName(y1)[0] == 'n' && MetadataPath(y2, title)[0] == '/';
  }

  /** `f"neurips_{years[0]}-{years[-1]}.csv"`; an empty list raises IndexError (`None`). */
  function CsvName(years: seq<int>): (r: Option<string>)
    ensures r.Some? <==> years != []
  {
    if years == [] then None
    else Some("neurips_" + IntToString(years[0]) + "-" + IntToString(years[|years| - 1]) + ".csv")
  }

  /** The CSV file of a range of years is named after its first and last year; with
      `YearRangeOfDecimals`, a range typed in decimal names the file after the line typed. */
  lemma CsvNameOfRange(a: nat, b: nat)
    requires a <= b
    ensures CsvName(YearsBetween(a, b)) == Some("neurips_" + Decimal(a) + "-" + Decimal(b) + ".csv")
  {
    var ys := YearsBetween(a, b);
    assert ys[0] == a && ys[|ys| - 1] == b;
  }

  // ---------------------------------------------------------------------------------------------
  // CSV rows
  // ---------------------------------------------------------------------------------------------

  /** `writer.writerow(metadata)` with fields year, title, abstract: the year is written with
      `str`. */
  function Row(m: Metadata): (r: seq<string>)
    ensures |r| == |CSV_HEADER|
  {
    [IntToString(m.year), m.title, m.abstractText]
  }

  /** One row per entry, in order. */
  function Rows(ms: seq<Metadata>): (r: seq<seq<string>>)
    ensures |r| == |ms|
    ensures forall i :: 0 <= i < |ms| ==> r[i] == Row(ms[i])
    decreases |ms|
  {
    if ms == [] then [] else Rows(ms[..|ms| - 1]) + [Row(ms[|ms| - 1])]
  }

  /** The header, then one row per collected entry, in order. */
  function CsvTable(ms: seq<Metadata>): (r: seq<seq<string>>)
    ensures |r| == |ms| + 1 && r[0] == CSV_HEADER && r[1..] == Rows(ms)
  {
    [CSV_HEADER] + Rows(ms)
  }

  /** A row read back as an entry: three fields, the first an integer. */
  function RowRecord(row: seq<string>): Option<Metadata> {
    if |row| != 3 then None
    else
      match ParsePyInt(row[0])
      case None => None
      case Some(year) => Some(Metadata(year, row[1], row[2]))
  }

  /** Each row reads back as the entry it was written from. */
  lemma RowRoundTrip(m: Metadata)
    ensures RowRecord(Row(m)) == Some(m)
  {
    ParsePyIntOfIntToString(m.year);
  }

  /** The rows after the header, each read back; `None` when one does not read. */
  function ReadRows(rows: seq<seq<string>>): Option<seq<Metadata>>
    decreases |rows|
  {
    if rows == [] then Some([])
    else
      match (RowRecord(rows[0]), ReadRows(rows[1..]))
      case (Some(m), Some(ms)) => Some([m] + ms)
      case _ => None
  }

  /** A table with the header first, read back. */
  function ReadTable(table: seq<seq<string>>): Option<seq<Metadata>> {
    if table == [] || table[0] != CSV_HEADER then None else ReadRows(table[1..])
  }

  /** Rows written from entries read back as those entries. */
  lemma {:induction false} ReadRowsOfEntries(rows: seq<seq<string>>, ms: seq<Metadata>)
    requires |rows| == |ms| && forall i :: 0 <= i < |ms| ==> rows[i] == Row(ms[i])
    ensures ReadRows(rows) == Some(ms)
    decreases |ms|
  {
    if ms != [] {
      RowRoundTrip(ms[0]);
      ReadRowsOfEntries(rows[1..], ms[1..]);
      assert [ms[0]] + ms[1..] == ms;
    }
  }

  /** The CSV file reads back as exactly the collected entries, in order. */
  lemma CsvTableRoundTrip(ms: seq<Metadata>)
    ensures ReadTable(CsvTable(ms)) == Some(ms)
  {
    ReadRowsOfEntries(Rows(ms), ms);
  }

  // ---------------------------------------------------------------------------------------------
  // Everything a saved paper writes
  // ---------------------------------------------------------------------------------------------

  /** The outputs as values: metadata files by path, JSON logs by name, the global list, and the
      CSV files by name. */
  datatype Store = Store(
    files: map<string, Metadata>,
    logs: map<string, seq<Metadata>>,
    collected: seq<Metadata>,
    csvFiles: map<string, seq<seq<string>>>)

  /** A log's entries; a log not written yet has none. */
  function Log(logs: map<string, seq<Metadata>>, name: string): seq<Metadata> {
    if name in logs then logs[name] else []
  }

  /** The outputs after one paper is saved: its metadata file (replacing a file of the same
      name), one more entry at the end of its year's log, one more entry in the list. */
  function Recorded(st: Store, m: Metadata): (r: Store)
    ensures MetadataPath(m.year, m.title) in r.files && r.files[MetadataPath(m.year, m.title)] == m
    ensures forall p :: p in st.files && p != MetadataPath(m.year, m.title) ==> p in r.files && r.files[p] == st.files[p]
    ensures Log(r.logs, JsonLogName(m.year)) == Log(st.logs, JsonLogName(m.year)) + [m]
    ensures forall n :: n != JsonLogName(m.year) ==> Log(r.logs, n) == Log(st.logs, n)
    ensures r.collected == st.collected + [m]
    ensures r.csvFiles == st.csvFiles
  {
    var name := JsonLogName(m.year);
    Store(st.files[MetadataPath(m.year, m.title) := m], st.logs[name := Log(st.logs, name) + [m]],
          st.collected + [m], st.csvFiles)
  }

  /** Saving a paper creates no file but its own metadata file and no log but its year's. */
  lemma RecordedFiles(st: Store, m: Metadata)
    ensures Recorded(st, m).files.Keys == st.files.Keys + {MetadataPath(m.year, m.title)}
    ensures Recorded(st, m).logs.Keys == st.logs.Keys + {JsonLogName(m.year)}
  {
  }

  /** The outputs after saving several papers, in order. */
  function SavedAll(st: Store, ms: seq<Metadata>): Store
    decreases |ms|
  {
    if ms == [] then st else SavedAll(Recorded(st, ms[0]), ms[1..])
  }

  /** The entries of `ms` for one year, in order. */
  function OfYear(ms: seq<Metadata>, year: int): (r: seq<Metadata>)
    ensures |r| <= |ms|
    ensures forall i :: 0 <= i < |r| ==> r[i].year == year && r[i] in ms
    ensures forall i :: 0 <= i < |ms| && ms[i].year == year ==> ms[i] in r
    decreases |ms|
  {
    if ms == [] then []
    else
      assert forall i :: 1 <= i < |ms| ==> ms[i] == ms[1..][i - 1];
      (if ms[0].year == year then [ms[0]] else []) + OfYear(ms[1..], year)
  }

  /** Selecting one year's entries distributes over concatenation. */
  lemma {:induction false} OfYearAppend(a: seq<Metadata>, b: seq<Metadata>, year: int)
    ensures OfYear(a + b, year) == OfYear(a, year) + OfYear(b, year)
    decreases |a|
  {
    if a == [] {
      assert a + b == b;
    } else {
      assert (a + b)[1..] == a[1..] + b;
      OfYearAppend(a[1..], b, year);
      var here := if a[0].year == year then [a[0]] else [];
      AppendAssoc(here, OfYear(a[1..], year), OfYear(b, year));
    }
  }

  /** One save adds the entry to its own year's log and to no other year's. */
  lemma SavedLogStep(st: Store, m: Metadata, year: int)
    ensures Log(Recorded(st, m).logs, JsonLogName(year)) ==
      Log(st.logs, JsonLogName(year)) + (if m.year == year then [m] else [])
  {
    JsonLogNameInjective(m.year, year);
  }

  /** Appending a list's first element, then its rest, appends the list. */
  lemma AppendFirst<T>(a: seq<T>, xs: seq<T>)
    requires xs != []
    ensures a + [xs[0]] + xs[1..] == a + xs
  {
    assert [xs[0]] + xs[1..] == xs;
  }

  lemma AppendAssoc<T>(a: seq<T>, b: seq<T>, c: seq<T>)
    ensures a + b + c == a + (b + c)
  {
  }

  /** After a run of saves the list has grown by the saved entries, in order. */
  lemma {:induction false} SavedAllCollected(st: Store, ms: seq<Metadata>)
    ensures SavedAll(st, ms).collected == st.collected + ms
    decreases |ms|
  {
    if ms == [] {
      assert st.collected + ms == st.collected;
    } else {
      SavedAllCollected(Recorded(st, ms[0]), ms[1..]);
      AppendFirst(st.collected, ms);
    }
  }

  /** After a run of saves each year's log has grown by exactly the entries of that year, in
      order. */
  lemma {:induction false} SavedAllLog(st: Store, ms: seq<Metadata>, year: int)
    ensures Log(SavedAll(st, ms).logs, JsonLogName(year)) == Log(st.logs, JsonLogName(year)) + OfYear(ms, year)
    decreases |ms|
  {
    var before := Log(st.logs, JsonLogName(year));
    if ms == [] {
      assert before + [] == before;
    } else {
      var here := if ms[0].year == year then [ms[0]] else [];
      SavedLogStep(st, ms[0], year);
      SavedAllLog(Recorded(st, ms[0]), ms[1..], year);
      assert OfYear(ms, year) == here + OfYear(ms[1..], year);
      AppendAssoc(before, here, OfYear(ms[1..], year));
    }
  }

  /** The `for metadata in metadata_list: writer.writerow(metadata)` loop. */
  method WriteRows(ms: seq<Metadata>) returns (rows: seq<seq<string>>)
    ensures rows == Rows(ms)
  {
    rows := [];
    for i := 0 to |ms|
      invariant rows == Rows(ms[..i])
    {
      assert ms[..i + 1][..i] == ms[..i];
      rows := rows + [Row(ms[i])];
    }
    assert ms[..|ms|] == ms;
  }

  /** The outputs, updated in place. */
  class Sink {
    var files: map<string, Metadata>
    var logs: map<string, seq<Metadata>>
    var collected: seq<Metadata>
    var csvFiles: map<string, seq<seq<string>>>

    function State(): Store
      reads this
    {
      Store(files, logs, collected, csvFiles)
    }

    /** Starts with no output and an empty `metadata_list`. */
    constructor()
      ensures State() == Store(map[], map[], [], map[])
    {
      files := map[];
      logs := map[];
      collected := [];
      csvFiles := map[];
    }

    /** `json.dump` into the metadata file, replacing it when it exists. */
    method WriteMetadataFile(m: Metadata)
      modifies this
      ensures files == old(files)[MetadataPath(m.year, m.title) := m]
      ensures logs == old(logs) && collected == old(collected) && csvFiles == old(csvFiles)
    {
      files := files[MetadataPath(m.year, m.title) := m];
    }

    /** `save_metadata_incremental_json`: the entry is appended to its year's log. */
    method AppendToLog(m: Metadata)
      modifies this
      ensures logs == old(logs)[JsonLogName(m.year) := Log(old(logs), JsonLogName(m.year)) + [m]]
      ensures files == old(files) && collected == old(collected) && csvFiles == old(csvFiles)
    {
      var name := JsonLogName(m.year);
      var entries := if name in logs then logs[name] else [];
      logs := logs[name := entries + [m]];
    }

    /** `metadata_list.append(metadata)`. */
    method AppendToList(m: Metadata)
      modifies this
      ensures collected == old(collected) + [m]
      ensures files == old(files) && logs == old(logs) && csvFiles == old(csvFiles)
    {
      collected := collected + [m];
    }

    /** The three writes of a successful paper, in the source's order. */
    method Save(m: Metadata)
      modifies this
      ensures State() == Recorded(old(State()), m)
    {
      WriteMetadataFile(m);
      AppendToLog(m);
      AppendToList(m);
    }

    /** `write_metadata_to_csv`: the header, then the collected entries in order, to the file
        named after the first and last year; nothing when the list of years is empty. */
    method WriteCsv(years: seq<int>) returns (name: Option<string>)
      modifies this
      ensures name == CsvName(years)
      ensures name.Some? ==> csvFiles == old(csvFiles)[name.value := CsvTable(collected)]
      ensures name.None? ==> csvFiles == old(csvFiles)
      ensures files == old(files) && logs == old(logs) && collected == old(collected)
    {
      name := CsvName(years);
      if name.None? {
        return;
      }
      var rows := WriteRows(collected);
      csvFiles := csvFiles[name.value := [CSV_HEADER] + rows];
    }
  }
}
