/**
 * The per-paper retry loop shared by `processPaperNew` and `processPaperOld`: at most three
 * attempts; an attempt fails when the page cannot be fetched or the metadata file cannot be
 * written, and after the k-th failure (counting from 1) the task sleeps 2^k seconds, also after
 * the last one. A page without a PDF link ends the task at once, and so does a saved paper.
 * The network is a function from the attempt number (0, 1, 2) to what that attempt meets.
 */
module JavaRetry {
  import opened Markup
  import opened Backoff
  import opened Site
  import opened JavaExtract
  import opened JavaSink

  const MAX_RETRIES := 3

  /** What one attempt meets: the fetch throws, or the page loads and the metadata file can
      (or cannot) be written. */
  datatype Response = FetchFailed | Loaded(doc: Document, metadataSaved: bool)

  /** How the task ends. */
  datatype Outcome = Saved(record: PaperRecord) | NoPdf | GaveUp

  /** How the task ends, how many fetches it made and the delays it slept, in seconds. */
  datatype Trace = Trace(outcome: Outcome, fetches: nat, delays: seq<nat>)

  /** What one attempt does: it throws (and the loop retries), finds no PDF link, or saves. */
  datatype Step = Failed | NoLink | Done(record: PaperRecord)

  /** One attempt: the fetch or the metadata write throws, or the page has no PDF link, or the
      extracted record is saved. */
  function Attempt(fmt: Format, paperUrl: string, resp: Response): Step {
    match resp
    case FetchFailed => Failed
    case Loaded(doc, saved) =>
      match Extract(fmt, doc, paperUrl)
      case NoPdfLink => NoLink
      case Extracted(rec) => if saved then Done(rec) else Failed
  }

  /** An attempt fails exactly when the fetch throws or a page with a PDF link cannot have its
      metadata file written; it finds no link exactly when a loaded page has none, whatever the
      file system would do; a save carries the paper's own URL. */
  lemma AttemptCases(fmt: Format, paperUrl: string, resp: Response)
    ensures Attempt(fmt, paperUrl, resp).Failed? <==>
      resp.FetchFailed? || (!resp.metadataSaved && Extract(fmt, resp.doc, paperUrl).Extracted?)
    ensures Attempt(fmt, paperUrl, resp).NoLink? <==>
      resp.Loaded? && forall k :: 0 <= k < |resp.doc| ==> !PdfLinkTest(fmt)(resp.doc[k])
    ensures Attempt(fmt, paperUrl, resp).Done? ==>
      resp.Loaded? && resp.metadataSaved && Attempt(fmt, paperUrl, resp).record.paperUrl == paperUrl
  {
  }

  /** What the three attempts would do, in order. */
  function Steps(fmt: Format, paperUrl: string, net: nat -> Response): (steps: seq<Step>)
    ensures |steps| == MAX_RETRIES
    ensures forall k :: 0 <= k < MAX_RETRIES ==> steps[k] == Attempt(fmt, paperUrl, net(k))
  {
    seq(MAX_RETRIES, k requires 0 <= k < MAX_RETRIES => Attempt(fmt, paperUrl, net(k)))
  }

  /** The loop from attempt number `attempts` on, given what each attempt does. */
  function RunFrom(steps: seq<Step>, attempts: nat): (t: Trace)
    requires |steps| == MAX_RETRIES && attempts <= MAX_RETRIES
    ensures attempts + t.fetches <= MAX_RETRIES
    ensures t.outcome == GaveUp <==> attempts + t.fetches == MAX_RETRIES && |t.delays| == t.fetches
    ensures t.outcome != GaveUp ==> |t.delays| + 1 == t.fetches
    ensures forall i :: 0 <= i < |t.delays| ==> t.delays[i] == Pow2(attempts + i + 1)
    decreases MAX_RETRIES - attempts
  {
    if attempts == MAX_RETRIES then Trace(GaveUp, 0, [])
    else
      match steps[attempts]
      case NoLink => Trace(NoPdf, 1, [])
      case Done(rec) => Trace(Saved(rec), 1, [])
      case Failed =>
        var rest := RunFrom(steps, attempts + 1);
        Trace(rest.outcome, rest.fetches + 1, [Pow2(attempts + 1)] + rest.delays)
  }

  /** The whole loop, from attempt 0. */
  function Run(fmt: Format, paperUrl: string, net: nat -> Response): Trace {
    RunFrom(Steps(fmt, paperUrl, net), 0)
  }

  /** From attempt `a` on, the task gives up exactly when every remaining attempt fails. */
  lemma {:induction false} GiveUpFrom(steps: seq<Step>, a: nat)
    requires |steps| == MAX_RETRIES && a <= MAX_RETRIES
    ensures RunFrom(steps, a).outcome == GaveUp <==> forall k :: a <= k < MAX_RETRIES ==> steps[k].Failed?
    decreases MAX_RETRIES - a
  {
    if a < MAX_RETRIES {
      GiveUpFrom(steps, a + 1);
    }
  }

  /** The task gives up exactly when all three attempts fail; it then has fetched three times
      and slept 2, 4 and 8 seconds. No attempt gives up by itself. */
  lemma GiveUpIffAllFail(steps: seq<Step>)
    requires |steps| == MAX_RETRIES
    ensures RunFrom(steps, 0).outcome == GaveUp <==> forall k :: 0 <= k < MAX_RETRIES ==> steps[k].Failed?
    ensures RunFrom(steps, 0).outcome == GaveUp ==> RunFrom(steps, 0) == Trace(GaveUp, 3, [2, 4, 8])
  {
    GiveUpFrom(steps, 0);
    var t := RunFrom(steps, 0);
    if t.outcome == GaveUp {
      assert Pow2(1) == 2 && Pow2(2) == 4 && Pow2(3) == 8;
      assert t.delays == [2, 4, 8];
    }
  }

  /** The delays slept before attempt `from + n`, having started at attempt `from`. */
  function DelaysUpTo(from: nat, n: nat): (r: seq<nat>)
    ensures |r| == n
    ensures forall i :: 0 <= i < n ==> r[i] == Pow2(from + i + 1)
  {
    seq<nat>(n, i requires 0 <= i < n => Pow2(from + i + 1))
  }

  /** How a decisive step ends the task. */
  function Ending(step: Step): Outcome
    requires !step.Failed?
  {
    if step.NoLink? then NoPdf else Saved(step.record)
  }

  /** The first attempt that ends the task decides the outcome: after `k` failures it is the
      (k+1)-th fetch, and the task slept 2^1 .. 2^k seconds before it. */
  lemma {:induction false} FirstDecisiveAttempt(steps: seq<Step>, from: nat, k: nat)
    requires |steps| == MAX_RETRIES && from <= k < MAX_RETRIES
    requires forall j :: from <= j < k ==> steps[j].Failed?
    requires !steps[k].Failed?
    ensures RunFrom(steps, from) == Trace(Ending(steps[k]), k - from + 1, DelaysUpTo(from, k - from))
    decreases k - from
  {
    if from < k {
      FirstDecisiveAttempt(steps, from + 1, k);
      assert DelaysUpTo(from, k - from) == [Pow2(from + 1)] + DelaysUpTo(from + 1, k - from - 1);
    }
  }

  /** Two failed attempts and then a saved paper: saved on the third fetch after sleeping 2
      and 4 seconds. */
  lemma SavedOnThirdAttempt(rec: PaperRecord)
    ensures RunFrom([Failed, Failed, Done(rec)], 0) == Trace(Saved(rec), 3, [2, 4])
  {
    FirstDecisiveAttempt([Failed, Failed, Done(rec)], 0, 2);
    assert Pow2(1) == 2 && Pow2(2) == 4;
    assert DelaysUpTo(0, 2) == [2, 4];
  }

  /** The extraction of `processPaperOld` (the sibling walk) or `processPaperNew`. */
  method ExtractPage(fmt: Format, doc: Document, paperUrl: string) returns (extraction: Extraction)
    ensures extraction == Extract(fmt, doc, paperUrl)
  {
    if fmt == Legacy {
      extraction := ExtractLegacyPage(doc, paperUrl);
    } else {
      extraction := Extract(Current, doc, paperUrl);
    }
  }

  /** The output files once the task ends: written only when the paper is saved. */
  function Written(st: Store, outcome: Outcome): Store {
    if outcome.Saved? then Recorded(st, outcome.record) else st
  }

  /** The output files after a step: written only when the step saves the paper. */
  function StoreAfter(st: Store, step: Step): Store {
    if step.Done? then Recorded(st, step.record) else st
  }

  /** A decisive step writes what the task's ending writes. */
  lemma EndingWrites(st: Store, step: Step)
    requires !step.Failed?
    ensures Written(st, Ending(step)) == StoreAfter(st, step)
  {
  }

  /** What one attempt decides: fetch, then extract, then whether the metadata file could be
      written. */
  method Decide(fmt: Format, paperUrl: string, resp: Response) returns (step: Step)
    ensures step == Attempt(fmt, paperUrl, resp)
  {
    if resp.FetchFailed? {
      return Failed;
    }
    var extraction := ExtractPage(fmt, resp.doc, paperUrl);
    if extraction.NoPdfLink? {
      return NoLink;
    }
    if !resp.metadataSaved {
      return Failed;
    }
    step := Done(extraction.record);
  }

  /** One attempt of the loop body: fetch, extract, and on success write the paper to `sink`. */
  method TryAttempt(sink: Sink, fmt: Format, paperUrl: string, resp: Response) returns (step: Step)
    modifies sink
    ensures step == Attempt(fmt, paperUrl, resp)
    ensures sink.State() == StoreAfter(old(sink.State()), step)
  {
    step := Decide(fmt, paperUrl, resp);
    if step.Done? {
      sink.Record(step.record);
    }
  }

  /** A run from some attempt on, preceded by `n` failed fetches and the delays `ds` slept after
      them. */
  function After(n: nat, ds: seq<nat>, t: Trace): Trace {
    Trace(t.outcome, n + t.fetches, ds + t.delays)
  }

  /** A failed attempt `a` is one more fetch and one more delay, 2^(a+1) seconds. */
  lemma AfterFailed(steps: seq<Step>, a: nat, ds: seq<nat>)
    requires |steps| == MAX_RETRIES && a < MAX_RETRIES && steps[a].Failed?
    ensures After(a, ds, RunFrom(steps, a)) == After(a + 1, ds + [Pow2(a + 1)], RunFrom(steps, a + 1))
  {
    var rest := RunFrom(steps, a + 1);
    assert ds + ([Pow2(a + 1)] + rest.delays) == ds + [Pow2(a + 1)] + rest.delays;
  }

  /** The `processPaperNew` / `processPaperOld` loop, writing to `sink` on success. */
  method ProcessPaper(sink: Sink, fmt: Format, paperUrl: string, net: nat -> Response) returns (trace: Trace)
    modifies sink
    ensures trace == Run(fmt, paperUrl, net)
    ensures sink.State() == Written(old(sink.State()), trace.outcome)
  {
    ghost var steps := Steps(fmt, paperUrl, net);
    var attempts := 0;
    var delays: seq<nat> := [];
    assert After(0, [], RunFrom(steps, 0)) == RunFrom(steps, 0);
    while attempts < MAX_RETRIES
      invariant attempts <= MAX_RETRIES
      invariant After(attempts, delays, RunFrom(steps, attempts)) == RunFrom(steps, 0)
      invariant sink.State() == old(sink.State())
    {
      var step := TryAttempt(sink, fmt, paperUrl, net(attempts));
      assert step == steps[attempts];
      if !step.Failed? {
        EndingWrites(old(sink.State()), step);
        assert delays + [] == delays;
        return Trace(Ending(step), attempts + 1, delays);
      }
      AfterFailed(steps, attempts, delays);
      attempts := attempts + 1;
      delays := delays + [Pow2(attempts)];
    }
    assert delays + [] == delays;
    trace := Trace(GaveUp, attempts, delays);
  }
}
