/**
 * The Python scraper's two prompts. `get_download_option` asks until the line is "1" (PDFs and
 * metadata) or "2" (metadata only). `get_user_years` asks until the line is a range "a-b" with
 * 1987 <= a <= b <= 2024, and yields every year from a to b; a line that does not split into
 * two integers raises ValueError, which the loop catches to ask again. Input is the sequence of
 * lines typed; running out of lines (`input()` raising EOFError, which nothing catches) ends
 * the run.
 */
module PyInput {
  import opened Options
  import opened Text

  const START_YEAR := 1987
  const END_YEAR := 2024

  /** What a prompt loop comes back with: the value read from line number `line`, or the end of
      the input. */
  datatype Answer<T> = EndOfInput | Answered(value: T, line: nat)

  /** Line `k` is the first one `parse` accepts. */
  predicate IsFirstAccepted<T>(lines: seq<string>, parse: string -> Option<T>, k: nat) {
    k < |lines| && parse(lines[k]).Some? && forall j :: 0 <= j < k ==> parse(lines[j]).None?
  }

  /** `list(range(a, b + 1))`. */
  function YearsBetween(a: int, b: int): (r: seq<int>)
    requires a <= b
    ensures |r| == b - a + 1
    ensures forall i :: 0 <= i < |r| ==> r[i] == a + i
  {
    seq(b - a + 1, i requires 0 <= i <= b - a => a + i)
  }

  /** One line as the body of the `try` reads it: `map(int, line.split('-'))` unpacked into two
      names, then the range check; `None` where the loop asks again. Accepted years run from the
      first number to the second, one by one, all between 1987 and 2024. */
  function YearRange(line: string): (r: Option<seq<int>>)
    ensures r.Some? ==> r.value != []
    ensures r.Some? ==> forall i :: 0 <= i < |r.value| ==>
      START_YEAR <= r.value[i] <= END_YEAR && r.value[i] == r.value[0] + i
  {
    var parts := Split(line, '-');
    if |parts| != 2 then None
    else
      match (ParsePyInt(parts[0]), ParsePyInt(parts[1]))
      case (Some(a), Some(b)) =>
        if a < START_YEAR || b > END_YEAR || a > b then None else Some(YearsBetween(a, b))
      case _ => None
  }

  /** A range typed as two decimal years is accepted exactly when it is in order and within
      bounds, and it then yields every year between the two. */
  lemma YearRangeOfDecimals(a: nat, b: nat)
    ensures YearRange(Decimal(a) + "-" + Decimal(b)) ==
      if START_YEAR <= a <= b <= END_YEAR then Some(YearsBetween(a, b)) else None
  {
    var x, y := Decimal(a), Decimal(b);
    assert forall i :: 0 <= i < |x| ==> x[i] != '-';
    assert forall i :: 0 <= i < |y| ==> y[i] != '-';
    assert x + "-" + y == x + ['-'] + y;
    SplitAfterField(x, y, '-');
    assert Split(x + "-" + y, '-') == [x, y];
    ParsePyIntDecimal(a);
    ParsePyIntDecimal(b);
  }

  /** The `while True` loop both prompts run: each line is read in turn until `parse` accepts
      one; lines before it are asked again, and without one the input runs out. */
  method Prompt<T>(lines: seq<string>, parse: string -> Option<T>) returns (r: Answer<T>)
    ensures r.Answered? ==> IsFirstAccepted(lines, parse, r.line) && parse(lines[r.line]) == Some(r.value)
    ensures r.EndOfInput? <==> forall j :: 0 <= j < |lines| ==> parse(lines[j]).None?
  {
    var i := 0;
    while i < |lines|
      invariant i <= |lines|
      invariant forall j :: 0 <= j < i ==> parse(lines[j]).None?
    {
      var answer := parse(lines[i]);
      if answer.Some? {
        return Answered(answer.value, i);
      }
      i := i + 1;
    }
    r := EndOfInput;
  }

  /** `get_user_years`: the first line that is a valid range decides. */
  method GetUserYears(lines: seq<string>) returns (r: Answer<seq<int>>)
    ensures r.Answered? ==> IsFirstAccepted(lines, YearRange, r.line) && YearRange(lines[r.line]) == Some(r.value)
    ensures r.EndOfInput? <==> forall j :: 0 <= j < |lines| ==> YearRange(lines[j]).None?
  {
    r := Prompt(lines, YearRange);
  }

  /** `user_input in ['1', '2']`, then `user_input == '1'`. */
  function DownloadChoice(line: string): Option<bool> {
    if line == "1" then Some(true) else if line == "2" then Some(false) else None
  }

  /** `get_download_option`: the first line that is exactly "1" or "2" decides, "1" meaning
      that PDFs are downloaded too; any other line, even "1" with a space, is asked again. */
  method GetDownloadOption(lines: seq<string>) returns (r: Answer<bool>)
    ensures r.Answered? ==>
      && r.line < |lines| && (lines[r.line] == "1" || lines[r.line] == "2")
      && r.value == (lines[r.line] == "1")
      && forall j :: 0 <= j < r.line ==> lines[j] != "1" && lines[j] != "2"
    ensures r.EndOfInput? <==> forall j :: 0 <= j < |lines| ==> lines[j] != "1" && lines[j] != "2"
  {
    r := Prompt(lines, DownloadChoice);
  }
}
