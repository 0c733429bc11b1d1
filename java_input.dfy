/**
 * `getUserYears`: the comma-separated list of years the user types. More than five entries, or
 * an entry outside 1987..2023, makes the scraper ask again; an entry that is not an integer
 * throws `NumberFormatException`, which nothing in the scraper catches, so the run ends.
 */
module JavaInput {
  import opened Options
  import opened Text

  const START_YEAR := 1987
  const END_YEAR := 2023
  const MAX_YEARS := 5

  /** What one line of input leads to. */
  datatype Reply = Accepted(years: seq<int>) | Reprompt | Crash

  predicate InRange(year: int) {
    START_YEAR <= year <= END_YEAR
  }

  /** One entry as `Integer.parseInt(part.trim())` reads it: `None` where it throws. */
  function Entry(part: string): Option<int> {
    ParseJavaInt(Trim(part))
  }

  /** Every entry, in order. */
  function Entries(parts: seq<string>): (r: seq<Option<int>>)
    ensures |r| == |parts|
  {
    if parts == [] then [] else [Entry(parts[0])] + Entries(parts[1..])
  }

  /** The entry at position `i` is the `i`-th part read as an integer. */
  lemma {:induction false} EntryAt(parts: seq<string>, i: nat)
    requires i < |parts|
    ensures Entries(parts)[i] == Entry(parts[i])
  {
    if i > 0 {
      EntryAt(parts[1..], i - 1);
    }
  }

  lemma EntriesPointwise(parts: seq<string>)
    ensures forall i :: 0 <= i < |parts| ==> Entries(parts)[i] == Entry(parts[i])
  {
    forall i | 0 <= i < |parts| {
      EntryAt(parts, i);
    }
  }

  /** The entry is an integer in range. */
  predicate Good(entry: Option<int>) {
    entry.Some? && InRange(entry.value)
  }

  /** `years` followed by whatever `r` accepts; a rejection stays a rejection. */
  function Prepend(years: seq<int>, r: Reply): Reply {
    match r
    case Accepted(rest) => Accepted(years + rest)
    case _ => r
  }

  lemma PrependTwice(years: seq<int>, y: int, r: Reply)
    ensures Prepend(years, Prepend([y], r)) == Prepend(years + [y], r)
  {
    if r.Accepted? {
      assert years + ([y] + r.years) == years + [y] + r.years;
    }
  }

  /** The loop over the entries, in order: the first bad entry decides between asking again (a
      year out of range) and crashing (not an integer). */
  function CheckEntries(entries: seq<Option<int>>): Reply {
    if entries == [] then Accepted([])
    else
      match entries[0]
      case None => Crash
      case Some(y) => if !InRange(y) then Reprompt else Prepend([y], CheckEntries(entries[1..]))
  }

  /** The entries are accepted exactly when every one is an integer in range, and then the years
      are their values in order; the run crashes exactly when the first bad entry is not an
      integer. */
  lemma {:induction false} CheckEntriesSpec(entries: seq<Option<int>>)
    ensures CheckEntries(entries).Accepted? <==> forall i :: 0 <= i < |entries| ==> Good(entries[i])
    ensures CheckEntries(entries).Accepted? ==>
      |CheckEntries(entries).years| == |entries|
      && forall i :: 0 <= i < |entries| ==> entries[i] == Some(CheckEntries(entries).years[i])
    ensures CheckEntries(entries) == Crash <==>
      exists i :: 0 <= i < |entries| && entries[i].None? && forall j :: 0 <= j < i ==> Good(entries[j])
  {
    if entries != [] && Good(entries[0]) {
      var rest := entries[1..];
      CheckEntriesSpec(rest);
      assert forall i :: 1 <= i < |entries| ==> entries[i] == rest[i - 1];
      if CheckEntries(rest) == Crash {
        var i :| 0 <= i < |rest| && rest[i].None? && forall j :: 0 <= j < i ==> Good(rest[j]);
        assert entries[i + 1].None? && forall j :: 0 <= j < i + 1 ==> Good(entries[j]);
      }
    }
  }

  /** One step of the loop over the entries from position `i`. */
  lemma CheckEntriesAt(entries: seq<Option<int>>, i: nat)
    requires i < |entries|
    ensures entries[i].None? ==> CheckEntries(entries[i..]) == Crash
    ensures entries[i].Some? && !InRange(entries[i].value) ==> CheckEntries(entries[i..]) == Reprompt
    ensures Good(entries[i]) ==> CheckEntries(entries[i..]) == Prepend([entries[i].value], CheckEntries(entries[i + 1..]))
  {
    assert entries[i..][0] == entries[i];
    assert entries[i..][1..] == entries[i + 1..];
  }

  /** One line of input, split at commas with trailing empty entries dropped. */
  function UserYears(input: string): Reply {
    var parts := JavaSplit(input, ',');
    if |parts| > MAX_YEARS then Reprompt else CheckEntries(Entries(parts))
  }

  /** A line is accepted exactly when it has at most five entries, each an integer between 1987
      and 2023; the accepted years are the entries' values in input order. */
  lemma UserYearsSpec(input: string)
    ensures UserYears(input).Accepted? <==>
      |JavaSplit(input, ',')| <= MAX_YEARS
      && forall i :: 0 <= i < |JavaSplit(input, ',')| ==> Good(ParseJavaInt(Trim(JavaSplit(input, ',')[i])))
    ensures UserYears(input).Accepted? ==> |UserYears(input).years| == |JavaSplit(input, ',')| <= MAX_YEARS
    ensures UserYears(input).Accepted? ==> forall i :: 0 <= i < |UserYears(input).years| ==>
      ParseJavaInt(Trim(JavaSplit(input, ',')[i])) == Some(UserYears(input).years[i]) && InRange(UserYears(input).years[i])
  {
    CheckEntriesSpec(Entries(JavaSplit(input, ',')));
    EntriesPointwise(JavaSplit(input, ','));
  }

  /** `getUserYears` on one line: split at commas, at most five entries. */
  method GetUserYears(input: string) returns (r: Reply)
    ensures r == UserYears(input)
  {
    var parts := JavaSplit(input, ',');
    if |parts| > MAX_YEARS {
      return Reprompt;
    }
    r := ParseEntries(parts);
  }

  /** The loop of `getUserYears`: each entry is parsed and range-checked in turn, and the years
      collected so far grow by one per accepted entry. */
  method ParseEntries(parts: seq<string>) returns (r: Reply)
    ensures r == CheckEntries(Entries(parts))
  {
    ghost var entries := Entries(parts);
    var years: seq<int> := [];
    for i := 0 to |parts|
      invariant |years| == i
      invariant CheckEntries(entries) == Prepend(years, CheckEntries(entries[i..]))
    {
      var yr := ParseEntry(parts, i);
      CheckEntriesAt(entries, i);
      if yr.None? {
        return Crash;
      }
      if !InRange(yr.value) {
        return Reprompt;
      }
      PrependTwice(years, yr.value, CheckEntries(entries[i + 1..]));
      years := years + [yr.value];
    }
    assert entries[|parts|..] == [];
    assert years + [] == years;
    r := Accepted(years);
  }

  /** `Integer.parseInt(parts[i].trim())`, `None` where it throws. */
  method ParseEntry(parts: seq<string>, i: nat) returns (yr: Option<int>)
    requires i < |parts|
    ensures yr == Entries(parts)[i]
  {
    yr := Entry(parts[i]);
    EntryAt(parts, i);
  }

  /** The prompt repeated until a line is accepted: each rejected line costs one more line of
      input, and running out of input (`readLine` returning null) ends the run. */
  function ReadUserYears(lines: seq<string>): (r: Reply)
    ensures r != Reprompt
    ensures r.Accepted? ==> |r.years| <= MAX_YEARS && forall i :: 0 <= i < |r.years| ==> InRange(r.years[i])
    ensures r.Accepted? ==> exists k :: 0 <= k < |lines| && UserYears(lines[k]) == r
    ensures forall k :: IsFirstAnswered(lines, k) ==> r == UserYears(lines[k])
    ensures (forall j :: 0 <= j < |lines| ==> UserYears(lines[j]) == Reprompt) ==> r == Crash
  {
    if lines == [] then Crash
    else
      var first := UserYears(lines[0]);
      UserYearsSpec(lines[0]);
      if first == Reprompt then
        var r := ReadUserYears(lines[1..]);
        assert r.Accepted? ==> exists k :: 0 <= k < |lines| - 1 && UserYears(lines[1..][k]) == r;
        assert forall k :: IsFirstAnswered(lines, k) ==> IsFirstAnswered(lines[1..], k - 1);
        r
      else first
  }

  /** Line `k` is the first one that is not answered by asking again. */
  predicate IsFirstAnswered(lines: seq<string>, k: int) {
    0 <= k < |lines| && UserYears(lines[k]) != Reprompt && forall j :: 0 <= j < k ==> UserYears(lines[j]) == Reprompt
  }

  /** Years written out in decimal and separated by commas are accepted as they are. */
  lemma UserYearsOfList(years: seq<nat>)
    requires 1 <= |years| <= MAX_YEARS
    requires forall i :: 0 <= i < |years| ==> InRange(years[i])
    ensures UserYears(Join(Decimals(years), ',')) == Accepted(years)
  {
    var parts := Decimals(years);
    SplitOfJoin(parts);
    EntriesOfDecimals(years);
    CheckEntriesAllGood(Entries(parts), years);
  }

  /** Entries that are all in-range integers are accepted as their values. */
  lemma {:induction false} CheckEntriesAllGood(entries: seq<Option<int>>, years: seq<int>)
    requires |entries| == |years|
    requires forall i :: 0 <= i < |years| ==> entries[i] == Some(years[i]) && InRange(years[i])
    ensures CheckEntries(entries) == Accepted(years)
  {
    if entries != [] {
      CheckEntriesAllGood(entries[1..], years[1..]);
      assert [years[0]] + years[1..] == years;
    }
  }

  /** Splitting joined decimals gives the decimals back: none is empty or holds a comma. */
  lemma SplitOfJoin(parts: seq<string>)
    requires parts != []
    requires forall i :: 0 <= i < |parts| ==> parts[i] != [] && ',' !in parts[i]
    ensures JavaSplit(Join(parts, ','), ',') == parts
  {
    SplitJoin(parts, ',');
    var input := Join(parts, ',');
    if ',' in input {
      assert parts[|parts| - 1] != [];
    } else {
      assert Split(input, ',') == [input];
    }
  }

  /** Each decimal entry reads back as its year. */
  lemma EntriesOfDecimals(years: seq<nat>)
    requires forall i :: 0 <= i < |years| ==> InRange(years[i])
    ensures forall i :: 0 <= i < |years| ==> Entries(Decimals(years))[i] == Some(years[i] as int)
  {
    var parts := Decimals(years);
    forall i | 0 <= i < |years| ensures Entries(parts)[i] == Some(years[i] as int) {
      EntryAt(parts, i);
      TrimDigits(parts[i]);
      ParseJavaIntDecimal(years[i]);
    }
  }

  /** Each year in decimal. */
  function Decimals(years: seq<nat>): (r: seq<string>)
    ensures |r| == |years|
    ensures forall i :: 0 <= i < |years| ==> r[i] == Decimal(years[i]) && ',' !in r[i]
  {
    seq(|years|, i requires 0 <= i < |years| => Decimal(years[i]))
  }
}
