/**
 * The per-paper retry loop shared by `process_paper` and `process_paper_2022_2023`:
 * `for attempt in range(3)`; an attempt fails when an exception escapes it (the page cannot be
 * fetched, or the metadata file cannot be opened for writing), and after a failure at attempt
 * `i` (counting from 0) the task sleeps 2^i seconds, also after the last one. A page without a
 * PDF link, when PDFs are wanted, ends the task at once, and so does a saved paper. The network
 * is a function from the attempt number (0, 1, 2) to what that attempt meets.
 */
module PyRetry {
  import opened Markup
  import opened Backoff
  import opened Site
  import opened PyExtract
  import opened PySink

  const MAX_RETRIES := 3

  /** What one attempt meets: the request raises, or the page loads and the metadata file can
      (or cannot) be opened for writing. */
  datatype Response = FetchFailed | Loaded(doc: Document, metadataSaved: bool)

  /** How the task ends: saved, returned early for want of a PDF link, or "Giving up". */
  datatype Outcome = Saved(metadata: Metadata) | NoPdf | GaveUp

  /** How the task ends, how many requests it made and the delays it slept, in seconds. */
  datatype Trace = Trace(outcome: Outcome, fetches: nat, delays: seq<nat>)

  /** What one attempt does: it raises (and the loop retries), finds no PDF link, or saves. */
  datatype Step = Failed | NoLink | Done(metadata: Metadata)

  /** One attempt: the request or the metadata write raises, or the page has no PDF link while
      PDFs are wanted, or the metadata is saved. */
  function Attempt(fmt: Format, year: int, downloadPdfs: bool, resp: Response): Step {
    match resp
    case FetchFailed => Failed
    case Loaded(doc, saved) =>
      match Extract(fmt, doc, year, downloadPdfs)
      case NoPdfLink => NoLink
      case Extracted(m) => if saved then Done(m) else Failed
  }

  /** Without PDFs nothing ends a task early: a loaded page is saved unless the write raises. */
  lemma MetadataOnlyNeverSkips(fmt: Format, year: int, doc: Document, saved: bool)
    ensures Attempt(fmt, year, false, Loaded(doc, saved)) ==
      if saved then Done(Metadata(year, Title(fmt, doc), Abstract(fmt, doc))) else Failed
  {
  }

  /** An attempt fails exactly when the request raises or the metadata file of an extracted
      paper cannot be opened; it finds no link exactly when PDFs are wanted and a loaded page has
      none; a save carries the paper's year, title and abstract. */
  lemma AttemptCases(fmt: Format, year: int, downloadPdfs: bool, resp: Response)
    ensures Attempt(fmt, year, downloadPdfs, resp).Failed? <==>
      resp.FetchFailed? || (!resp.metadataSaved && Extract(fmt, resp.doc, year, downloadPdfs).Extracted?)
    ensures Attempt(fmt, year, downloadPdfs, resp).NoLink? <==>
      resp.Loaded? && downloadPdfs && forall k :: 0 <= k < |resp.doc| ==> !PdfLinkTest(fmt)(resp.doc[k])
    ensures Attempt(fmt, year, downloadPdfs, resp).Done? ==>
      resp.Loaded? && resp.metadataSaved &&
      Attempt(fmt, year, downloadPdfs, resp).metadata == Metadata(year, Title(fmt, resp.doc), Abstract(fmt, resp.doc))
  {
  }

  /** What the three attempts would do, in order. */
  function Steps(fmt: Format, year: int, downloadPdfs: bool, net: nat -> Response): (steps: seq<Step>)
    ensures |steps| == MAX_RETRIES
    ensures forall k :: 0 <= k < MAX_RETRIES ==> steps[k] == Attempt(fmt, year, downloadPdfs, net(k))
  {
    seq(MAX_RETRIES, k requires 0 <= k < MAX_RETRIES => Attempt(fmt, year, downloadPdfs, net(k)))
  }

  /** The loop from attempt number `attempt` on, given what each attempt does. */
  function RunFrom(steps: seq<Step>, attempt: nat): (t: Trace)
    requires |steps| == MAX_RETRIES && attempt <= MAX_RETRIES
    ensures attempt + t.fetches <= MAX_RETRIES
    ensures t.outcome == GaveUp <==> attempt + t.fetches == MAX_RETRIES && |t.delays| == t.fetches
    ensures t.outcome != GaveUp ==> |t.delays| + 1 == t.fetches
    ensures forall i :: 0 <= i < |t.delays| ==> t.delays[i] == Pow2(attempt + i)
    decreases MAX_RETRIES - attempt
  {
    if attempt == MAX_RETRIES then Trace(GaveUp, 0, [])
    else
      match steps[attempt]
      case NoLink => Trace(NoPdf, 1, [])
      case Done(m) => Trace(Saved(m), 1, [])
      case Failed =>
        var rest := RunFrom(steps, attempt + 1);
        Trace(rest.outcome, rest.fetches + 1, [Pow2(attempt)] + rest.delays)
  }

  /** The whole loop, from attempt 0. */
  function Run(fmt: Format, year: int, downloadPdfs: bool, net: nat -> Response): Trace {
    RunFrom(Steps(fmt, year, downloadPdfs, net), 0)
  }

  /** From attempt `a` on, the task gives up exactly when every remaining attempt fails. */
  lemma {:induction false} GiveUpFrom(steps: seq<Step>, a: nat)
    requires |steps| == MAX_RETRIES && a <= MAX_RETRIES
    ensures RunFrom(steps, a).outcome == GaveUp <==> forall k :: a <= k < MAX_RETRIES ==> steps[k].Failed?
    decreases MAX_RETRIES - a
  {
    if a < MAX_RETRIES {
      GiveUpFrom(steps, a + 1);
    }
  }

  /** The task gives up exactly when all three attempts fail; it then has made three requests
      and slept 1, 2 and 4 seconds. */
  lemma GiveUpIffAllFail(steps: seq<Step>)
    requires |steps| == MAX_RETRIES
    ensures RunFrom(steps, 0).outcome == GaveUp <==> forall k :: 0 <= k < MAX_RETRIES ==> steps[k].Failed?
    ensures RunFrom(steps, 0).outcome == GaveUp ==> RunFrom(steps, 0) == Trace(GaveUp, 3, [1, 2, 4])
  {
    GiveUpFrom(steps, 0);
    var t := RunFrom(steps, 0);
    if t.outcome == GaveUp {
      assert Pow2(0) == 1 && Pow2(1) == 2 && Pow2(2) == 4;
      assert t.delays == [1, 2, 4];
    }
  }

  /** The delays slept before attempt `from + n`, having started at attempt `from`. */
  function DelaysUpTo(from: nat, n: nat): (r: seq<nat>)
    ensures |r| == n
    ensures forall i :: 0 <= i < n ==> r[i] == Pow2(from + i)
  {
    seq<nat>(n, i requires 0 <= i < n => Pow2(from + i))
  }

  /** How a decisive step ends the task. */
  function Ending(step: Step): Outcome
    requires !step.Failed?
  {
    if step.NoLink? then NoPdf else Saved(step.metadata)
  }

  /** The first attempt that ends the task decides the outcome: after `k` failures it is the
      (k+1)-th request, and the task slept 2^0 .. 2^(k-1) seconds before it. */
  lemma {:induction false} FirstDecisiveAttempt(steps: seq<Step>, from: nat, k: nat)
    requires |steps| == MAX_RETRIES && from <= k < MAX_RETRIES
    requires forall j :: from <= j < k ==> steps[j].Failed?
    requires !steps[k].Failed?
    ensures RunFrom(steps, from) == Trace(Ending(steps[k]), k - from + 1, DelaysUpTo(from, k - from))
    decreases k - from
  {
    if from < k {
      FirstDecisiveAttempt(steps, from + 1, k);
      assert DelaysUpTo(from, k - from) == [Pow2(from)] + DelaysUpTo(from + 1, k - from - 1);
    }
  }

  /** Two failed attempts and then a saved paper: saved on the third request after sleeping 1
      and 2 seconds. */
  lemma SavedOnThirdAttempt(m: Metadata)
    ensures RunFrom([Failed, Failed, Done(m)], 0) == Trace(Saved(m), 3, [1, 2])
  {
    FirstDecisiveAttempt([Failed, Failed, Done(m)], 0, 2);
    assert Pow2(0) == 1 && Pow2(1) == 2;
    assert DelaysUpTo(0, 2) == [1, 2];
  }

  /** The outputs once the task ends: written only when the paper is saved. */
  function Written(st: Store, outcome: Outcome): Store {
    if outcome.Saved? then Recorded(st, outcome.metadata) else st
  }

  /** The outputs after a step: written only when the step saves the paper. */
  function StoreAfter(st: Store, step: Step): Store {
    if step.Done? then Recorded(st, step.metadata) else st
  }

  /** A decisive step writes what the task's ending writes. */
  lemma EndingWrites(st: Store, step: Step)
    requires !step.Failed?
    ensures Written(st, Ending(step)) == StoreAfter(st, step)
  {
  }

  /** What one attempt decides: fetch, extract, then whether the metadata file could be
      written. */
  method Decide(fmt: Format, year: int, downloadPdfs: bool, resp: Response) returns (step: Step)
    ensures step == Attempt(fmt, year, downloadPdfs, resp)
  {
    if resp.FetchFailed? {
      return Failed;
    }
    var extraction := Extract(fmt, resp.doc, year, downloadPdfs);
    if extraction.NoPdfLink? {
      return NoLink;
    }
    if !resp.metadataSaved {
      return Failed;
    }
    step := Done(extraction.metadata);
  }

  /** One pass of the loop body: fetch, extract, and on success save the paper to `sink`. */
  method TryAttempt(sink: Sink, fmt: Format, year: int, downloadPdfs: bool, resp: Response) returns (step: Step)
    modifies sink
    ensures step == Attempt(fmt, year, downloadPdfs, resp)
    ensures sink.State() == StoreAfter(old(sink.State()), step)
  {
    step := Decide(fmt, year, downloadPdfs, resp);
    if step.Done? {
      sink.Save(step.metadata);
    }
  }

  /** A run from some attempt on, preceded by `n` failed requests and the delays `ds` slept
      after them. */
  function After(n: nat, ds: seq<nat>, t: Trace): Trace {
    Trace(t.outcome, n + t.fetches, ds + t.delays)
  }

  /** A failed attempt `a` is one more request and one more delay, 2^a seconds. */
  lemma AfterFailed(steps: seq<Step>, a: nat, ds: seq<nat>)
    requires |steps| == MAX_RETRIES && a < MAX_RETRIES && steps[a].Failed?
    ensures After(a, ds, RunFrom(steps, a)) == After(a + 1, ds + [Pow2(a)], RunFrom(steps, a + 1))
  {
    var rest := RunFrom(steps, a + 1);
    assert ds + ([Pow2(a)] + rest.delays) == ds + [Pow2(a)] + rest.delays;
  }

  /** The `for attempt in range(MAX_RETRIES)` loop, saving to `sink` on success. */
  method ProcessPaper(sink: Sink, fmt: Format, year: int, downloadPdfs: bool, net: nat -> Response) returns (trace: Trace)
    modifies sink
    ensures trace == Run(fmt, year, downloadPdfs, net)
    ensures sink.State() == Written(old(sink.State()), trace.outcome)
  {
    ghost var steps := Steps(fmt, year, downloadPdfs, net);
    var delays: seq<nat> := [];
    assert After(0, [], RunFrom(steps, 0)) == RunFrom(steps, 0);
    for attempt := 0 to MAX_RETRIES
      invariant After(attempt, delays, RunFrom(steps, attempt)) == RunFrom(steps, 0)
      invariant sink.State() == old(sink.State())
    {
      var step := TryAttempt(sink, fmt, year, downloadPdfs, net(attempt));
      assert step == steps[attempt];
      if !step.Failed? {
        EndingWrites(old(sink.State()), step);
        assert delays + [] == delays;
        return Trace(Ending(step), attempt + 1, delays);
      }
      AfterFailed(steps, attempt, delays);
      delays := delays + [Pow2(attempt)];
    }
    assert delays + [] == delays;
    trace := Trace(GaveUp, MAX_RETRIES, delays);
  }
}
