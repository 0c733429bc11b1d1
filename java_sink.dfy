/**
 * Where the Java scraper puts a paper it has extracted: a metadata file named after the
 * sanitised title, one more entry in the JSON log, and one more row in the CSV file, whose
 * header is written only when the file does not exist yet. Files are modelled as values: the
 * metadata directory as a map from path to content, the JSON log as its list of entries, and the
 * CSV file as its list of lines (`None` while the file does not exist).
 */
module JavaSink {
  import opened Options
  import opened Text
  import opened Site
  import opened JavaExtract

  const METADATA_DIR := "D:/metadata/"
  const CSV_HEADER := "title,authors,abstract,pdf_url,paper_url"

  /** The per-paper metadata file: the metadata directory, the sanitised title, ".json". */
  function MetadataPath(title: string): string {
    METADATA_DIR + SanitizeFilename(title) + ".json"
  }

  /** Two titles share a metadata file exactly when they sanitise to the same name. */
  lemma MetadataPathInjective(t1: string, t2: string)
    ensures MetadataPath(t1) == MetadataPath(t2) <==> SanitizeFilename(t1) == SanitizeFilename(t2)
  {
    if MetadataPath(t1) == MetadataPath(t2) {
      var p1, p2 := MetadataPath(t1), MetadataPath(t2);
      var n := |METADATA_DIR|;
      assert SanitizeFilename(t1) == p1[n..|p1| - 5] == p2[n..|p2| - 5] == SanitizeFilename(t2);
    }
  }

  /** The metadata text up to the title's opening quote. */
  const TITLE_OPEN := "{\n  \"title\": \""

  /** The hand-built metadata text (no escaping of any field). */
  function MetadataJson(rec: PaperRecord): string {
    TITLE_OPEN + rec.title
    + ("\",\n"
       + "  \"authors\": \"" + rec.authors + "\",\n"
       + "  \"abstract\": \"" + rec.abstractText + "\",\n"
       + "  \"pdf_url\": \"" + rec.pdfUrl + "\",\n"
       + "  \"paper_url\": \"" + rec.paperUrl + "\"\n"
       + "}")
  }

  /** The text opens with the title member, and the title follows that opening quote
      unescaped: a quote-free title is the text up to the next quote. */
  lemma MetadataJsonTitle(rec: PaperRecord)
    requires '"' !in rec.title
    ensures var j, n := MetadataJson(rec), |TITLE_OPEN|;
      |j| > n + |rec.title| && j[..n] == TITLE_OPEN && j[n..n + |rec.title|] == rec.title &&
      (forall i :: n <= i < n + |rec.title| ==> j[i] != '"') && j[n + |rec.title|] == '"'
  {
  }

  // ---------------------------------------------------------------------------------------------
  // CSV rows
  // ---------------------------------------------------------------------------------------------

  /** `replace("\"", "\"\"")`: every double quote is doubled. */
  function DoubleQuotes(s: string): (r: string)
    ensures |r| >= |s|
    ensures (forall i :: 0 <= i < |s| ==> s[i] != '"') ==> r == s
  {
    if s == [] then []
    else (if s[0] == '"' then "\"\"" else [s[0]]) + DoubleQuotes(s[1..])
  }

  /** A field as the row writes it: quoted, with inner quotes doubled. */
  function Quoted(s: string): string {
    "\"" + DoubleQuotes(s) + "\""
  }

  /** Quoted fields separated by commas. */
  function QuotedFields(fields: seq<string>): string
    requires fields != []
  {
    if |fields| == 1 then Quoted(fields[0])
    else Quoted(fields[0]) + "," + QuotedFields(fields[1..])
  }

  /** The row `appendToCsv` formats: its five arguments, in order, as quoted fields separated
      by commas. */
  function CsvRow(title: string, authors: string, abs: string, pdfUrl: string, paperUrl: string): string {
    QuotedFields([title, authors, abs, pdfUrl, paperUrl])
  }

  function RecordRow(rec: PaperRecord): string {
    CsvRow(rec.title, rec.authors, rec.abstractText, rec.pdfUrl, rec.paperUrl)
  }

  /** Reads the inside of a quoted field up to its closing quote, turning each doubled quote
      back into one; yields the field and what follows the closing quote. */
  function ReadField(s: string): (r: Option<(string, string)>)
    ensures r.Some? ==> |r.value.1| < |s|
    decreases |s|
  {
    if s == [] then None
    else if s[0] == '"' then
      if |s| >= 2 && s[1] == '"' then
        match ReadField(s[2..])
        case None => None
        case Some(p) => Some(("\"" + p.0, p.1))
      else Some(([], s[1..]))
    else
      match ReadField(s[1..])
      case None => None
      case Some(p) => Some(([s[0]] + p.0, p.1))
  }

  /** A line of quoted fields separated by commas, read back field by field. */
  function ParseFields(line: string): (r: Option<seq<string>>)
    ensures r.Some? ==> |r.value| >= 1
    decreases |line|
  {
    if line == [] || line[0] != '"' then None
    else
      match ReadField(line[1..])
      case None => None
      case Some(p) =>
        if p.1 == [] then Some([p.0])
        else if p.1[0] != ',' then None
        else
          match ParseFields(p.1[1..])
          case None => None
          case Some(fs) => Some([p.0] + fs)
  }

  /** Reading a doubled field stops at the quote the writer put after it. */
  lemma ReadFieldDoubled(x: string, rest: string)
    requires rest == [] || rest[0] != '"'
    ensures ReadField(DoubleQuotes(x) + "\"" + rest) == Some((x, rest))
  {
    var t := "\"" + rest;
    assert t[1..] == rest;
    assert DoubleQuotes(x) + "\"" + rest == DoubleQuotes(x) + t;
    ReadFieldDoubledBefore(x, t);
  }

  /** The same, with the closing quote and what follows it as one string `t`. */
  lemma {:induction false} ReadFieldDoubledBefore(x: string, t: string)
    requires t != [] && t[0] == '"' && (|t| < 2 || t[1] != '"')
    ensures ReadField(DoubleQuotes(x) + t) == Some((x, t[1..]))
    decreases |x|
  {
    if x == [] {
      assert DoubleQuotes(x) + t == t;
    } else {
      ReadFieldDoubledBefore(x[1..], t);
      var tail := DoubleQuotes(x[1..]) + t;
      DoubledBefore(x, t);
      assert [x[0]] + x[1..] == x;
      if x[0] == '"' {
        ReadFieldEscaped(tail, x[1..], t[1..]);
      } else {
        ReadFieldPlain(x[0], tail, x[1..], t[1..]);
      }
    }
  }

  /** Doubling the quotes of a non-empty field, then appending `t`: its first character's
      image, then the rest's. */
  lemma DoubledBefore(x: string, t: string)
    requires x != []
    ensures DoubleQuotes(x) + t == (if x[0] == '"' then "\"\"" else [x[0]]) + (DoubleQuotes(x[1..]) + t)
  {
  }

  /** A doubled quote reads as one quote of the field. */
  lemma ReadFieldEscaped(tail: string, f: string, rest: string)
    requires ReadField(tail) == Some((f, rest))
    ensures ReadField("\"\"" + tail) == Some(("\"" + f, rest))
  {
    assert ("\"\"" + tail)[2..] == tail;
  }

  /** Any other character reads as itself. */
  lemma ReadFieldPlain(c: char, tail: string, f: string, rest: string)
    requires c != '"' && ReadField(tail) == Some((f, rest))
    ensures ReadField([c] + tail) == Some(([c] + f, rest))
  {
    assert ([c] + tail)[1..] == tail;
  }

  /** A last quoted field reads back as itself. */
  lemma ParseLastField(x: string)
    ensures ParseFields(Quoted(x)) == Some([x])
  {
    ReadFieldDoubled(x, []);
    assert Quoted(x)[1..] == DoubleQuotes(x) + "\"" + [];
  }

  /** A quoted field followed by a comma reads back as itself, and reading goes on after the
      comma. */
  lemma ParseFirstField(x: string, more: string, fs: seq<string>)
    requires ParseFields(more) == Some(fs)
    ensures ParseFields(Quoted(x) + "," + more) == Some([x] + fs)
  {
    var line := Quoted(x) + "," + more;
    ReadFieldDoubled(x, "," + more);
    assert line[1..] == DoubleQuotes(x) + "\"" + ("," + more);
    assert ("," + more)[1..] == more;
  }

  /** Reading quoted fields back yields the fields written. */
  lemma {:induction false} QuotedFieldsRoundTrip(fields: seq<string>)
    requires fields != []
    ensures ParseFields(QuotedFields(fields)) == Some(fields)
    decreases |fields|
  {
    if |fields| == 1 {
      ParseLastField(fields[0]);
      assert [fields[0]] == fields;
    } else {
      QuotedFieldsRoundTrip(fields[1..]);
      ParseFirstField(fields[0], QuotedFields(fields[1..]), fields[1..]);
      assert [fields[0]] + fields[1..] == fields;
    }
  }

  /** Round trip: the row reads back as exactly the five original strings, so it has five
      fields, each quoted, and un-doubling recovers each one. */
  lemma CsvRowRoundTrip(title: string, authors: string, abs: string, pdfUrl: string, paperUrl: string)
    ensures ParseFields(CsvRow(title, authors, abs, pdfUrl, paperUrl)) == Some([title, authors, abs, pdfUrl, paperUrl])
  {
    QuotedFieldsRoundTrip([title, authors, abs, pdfUrl, paperUrl]);
  }

  /** A row starts with a quote, so it is never the header line. */
  lemma RowIsNotHeader(rec: PaperRecord)
    ensures RecordRow(rec) != CSV_HEADER && RecordRow(rec)[0] == '"'
  {
    var fields := [rec.title, rec.authors, rec.abstractText, rec.pdfUrl, rec.paperUrl];
    assert RecordRow(rec) == Quoted(fields[0]) + "," + QuotedFields(fields[1..]);
    assert RecordRow(rec)[0] == Quoted(rec.title)[0] == '"';
  }

  // ---------------------------------------------------------------------------------------------
  // The CSV file
  // ---------------------------------------------------------------------------------------------

  /** The lines of a file that may not exist. */
  function Lines(file: Option<seq<string>>): seq<string> {
    file.GetOr([])
  }

  /** `appendToCsv` on the file's lines: the header first when the file does not exist, then
      the row. The old lines are untouched and exactly what the call writes follows them. */
  function AppendCsv(file: Option<seq<string>>, row: string): (r: seq<string>)
    ensures |r| > |Lines(file)| && r[..|Lines(file)|] == Lines(file)
    ensures file.None? <==> |r| == |Lines(file)| + 2
    ensures file.None? ==> r[|Lines(file)|..] == [CSV_HEADER, row]
    ensures file.Some? ==> r[|Lines(file)|..] == [row]
  {
    match file
    case None => [CSV_HEADER, row]
    case Some(lines) => lines + [row]
  }

  /** The CSV file after appending `rows`, one call per row. */
  function CsvAfter(file: Option<seq<string>>, rows: seq<string>): (r: Option<seq<string>>)
    ensures rows != [] ==> r.Some?
    ensures rows == [] ==> r == file
    decreases |rows|
  {
    if rows == [] then file
    else CsvAfter(Some(AppendCsv(file, rows[0])), rows[1..])
  }

  /** Appending to an existing file keeps its lines and adds the rows after them, in order. */
  lemma {:induction false} CsvAfterExisting(lines: seq<string>, rows: seq<string>)
    ensures CsvAfter(Some(lines), rows) == Some(lines + rows)
    decreases |rows|
  {
    if rows != [] {
      CsvAfterExisting(lines + [rows[0]], rows[1..]);
      assert lines + [rows[0]] + rows[1..] == lines + rows;
    } else {
      assert lines + rows == lines;
    }
  }

  /** Starting without a file: the header is the first line and, as no row is the header,
      appears nowhere else; the rows follow it, in order. */
  lemma CsvAfterFresh(rows: seq<string>)
    requires rows != []
    requires forall i :: 0 <= i < |rows| ==> rows[i] != CSV_HEADER
    ensures CsvAfter(None, rows) == Some([CSV_HEADER] + rows)
    ensures forall i :: 1 <= i < |rows| + 1 ==> CsvAfter(None, rows).value[i] != CSV_HEADER
  {
    var first := [CSV_HEADER, rows[0]];
    CsvAfterExisting(first, rows[1..]);
    assert first + rows[1..] == [CSV_HEADER] + rows;
    OnlyFirst(CSV_HEADER, rows);
  }

  /** A line that none of `rows` equals occurs in `[h] + rows` only first. */
  lemma OnlyFirst(h: string, rows: seq<string>)
    requires forall i :: 0 <= i < |rows| ==> rows[i] != h
    ensures forall i :: 1 <= i < |rows| + 1 ==> ([h] + rows)[i] != h
  {
    forall i | 1 <= i < |rows| + 1 ensures ([h] + rows)[i] != h {
      assert ([h] + rows)[i] == rows[i - 1];
    }
  }

  // ---------------------------------------------------------------------------------------------
  // Everything a recorded paper writes
  // ---------------------------------------------------------------------------------------------

  /** The three outputs as values. */
  datatype Store = Store(files: map<string, string>, json: seq<string>, csv: Option<seq<string>>)

  /** The outputs after one paper is recorded: its metadata file (replacing a file of the same
      name), one more JSON entry, one more CSV row. */
  function Recorded(st: Store, rec: PaperRecord): (r: Store)
    ensures MetadataPath(rec.title) in r.files && r.files[MetadataPath(rec.title)] == MetadataJson(rec)
    ensures forall p :: p in st.files && p != MetadataPath(rec.title) ==> p in r.files && r.files[p] == st.files[p]
    ensures r.json == st.json + [MetadataJson(rec)]
    ensures r.csv.Some? && |r.csv.value| > |Lines(st.csv)| && r.csv.value[..|Lines(st.csv)|] == Lines(st.csv)
    ensures r.csv.value[|r.csv.value| - 1] == RecordRow(rec)
    ensures r.csv == Some(AppendCsv(st.csv, RecordRow(rec)))
  {
    Store(st.files[MetadataPath(rec.title) := MetadataJson(rec)], st.json + [MetadataJson(rec)],
          Some(AppendCsv(st.csv, RecordRow(rec))))
  }

  /** Recording a paper creates no file but its own metadata file. */
  lemma RecordedFiles(st: Store, rec: PaperRecord)
    ensures Recorded(st, rec).files.Keys == st.files.Keys + {MetadataPath(rec.title)}
  {
  }

  /** The output files, updated in place. */
  class Sink {
    var metadataFiles: map<string, string>
    var jsonLog: seq<string>
    var csvFile: Option<seq<string>>

    function State(): Store
      reads this
    {
      Store(metadataFiles, jsonLog, csvFile)
    }

    /** Starts with an empty metadata directory and JSON log, and the CSV file as found. */
    constructor(csv: Option<seq<string>>)
      ensures State() == Store(map[], [], csv)
    {
      metadataFiles := map[];
      jsonLog := [];
      csvFile := csv;
    }

    /** Writes (or overwrites) the paper's metadata file. */
    method SaveMetadata(rec: PaperRecord)
      modifies this
      ensures metadataFiles == old(metadataFiles)[MetadataPath(rec.title) := MetadataJson(rec)]
      ensures jsonLog == old(jsonLog) && csvFile == old(csvFile)
    {
      metadataFiles := metadataFiles[MetadataPath(rec.title) := MetadataJson(rec)];
    }

    /** `appendToJson`: one more entry at the end of the log. */
    method AppendToJson(json: string)
      modifies this
      ensures jsonLog == old(jsonLog) + [json]
      ensures metadataFiles == old(metadataFiles) && csvFile == old(csvFile)
    {
      jsonLog := jsonLog + [json];
    }

    /** `appendToCsv`: the header if the file does not exist yet, then the row. */
    method AppendToCsv(title: string, authors: string, abs: string, pdfUrl: string, paperUrl: string)
      modifies this
      ensures csvFile == Some(AppendCsv(old(csvFile), CsvRow(title, authors, abs, pdfUrl, paperUrl)))
      ensures metadataFiles == old(metadataFiles) && jsonLog == old(jsonLog)
    {
      var writeHeader := csvFile.None?;
      var lines := Lines(csvFile);
      if writeHeader {
        lines := lines + [CSV_HEADER];
      }
      lines := lines + [CsvRow(title, authors, abs, pdfUrl, paperUrl)];
      assert writeHeader ==> lines == [CSV_HEADER, CsvRow(title, authors, abs, pdfUrl, paperUrl)];
      csvFile := Some(lines);
    }

    /** The three writes of a successful paper, in the source's order. */
    method Record(rec: PaperRecord)
      modifies this
      ensures State() == Recorded(old(State()), rec)
    {
      SaveMetadata(rec);
      AppendToJson(MetadataJson(rec));
      AppendToCsv(rec.title, rec.authors, rec.abstractText, rec.pdfUrl, rec.paperUrl);
    }
  }
}
