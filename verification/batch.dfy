/** The batch coordinator: many enhancement runs folded into one report of
    successes and failures, one after the other (optionally stopping at the
    first failure) or all at once, and the run over every stored article.

    What one run comes to is given as a function of the article id. The runs
    of a batch are therefore independent of one another: the articles an
    earlier run creates are not seen by a later one. */
module BatchCoordinator {

  import opened Results
  import opened ArticleModel
  import EW = EnhancementWorkflow

  /** What one run came to: its summary, or the message it threw. */
  datatype Outcome = Succeeded(summary: EW.Summary) | Threw(message: string)

  /** A run as the coordinator sees it. */
  function OutcomeOf(run: EW.Run): (r: Outcome)
    ensures r.Succeeded? <==> run.Completed?
    ensures r.Succeeded? ==> r.summary == run.result
    ensures r.Threw? ==> r.message == run.error
  {
    if run.Completed? then Succeeded(run.result) else Threw(run.error)
  }

  /** The id a failure is reported under; `Unknown` for a rejected promise. */
  datatype FailedId = Known(id: Id) | Unknown

  datatype Success = Success(id: Id, summary: EW.Summary)
  datatype Failure = Failure(id: FailedId, error: string)

  datatype BatchResult = BatchResult(total: nat, successful: seq<Success>, failed: seq<Failure>, message: Option<string>)

  datatype Options = Options(parallel: bool, stopOnError: bool)

  const NoArticles := "No articles found in database"

  // ---------------------------------------------------------------------------
  // The reference reading: classify every id, in order
  // ---------------------------------------------------------------------------

  /** The successes among `ids`, in input order. */
  function Successes(ids: seq<Id>, outcome: Id -> Outcome): seq<Success> {
    if |ids| == 0 then []
    else
      var last := ids[|ids| - 1];
      var rest := Successes(ids[..|ids| - 1], outcome);
      match outcome(last)
      case Succeeded(w) => rest + [Success(last, w)]
      case Threw(_) => rest
  }

  /** The failures among `ids`, in input order, each with its id. */
  function Failures(ids: seq<Id>, outcome: Id -> Outcome): seq<Failure> {
    if |ids| == 0 then []
    else
      var last := ids[|ids| - 1];
      var rest := Failures(ids[..|ids| - 1], outcome);
      match outcome(last)
      case Succeeded(_) => rest
      case Threw(m) => rest + [Failure(Known(last), m)]
  }

  /** Every id lands in exactly one of the two lists: the counts add up, and
      an id's entry is in the list its outcome says, with that outcome. */
  lemma {:induction false} Classified(ids: seq<Id>, outcome: Id -> Outcome)
    ensures |Successes(ids, outcome)| + |Failures(ids, outcome)| == |ids|
    ensures forall i :: 0 <= i < |ids| && outcome(ids[i]).Succeeded? ==>
      Success(ids[i], outcome(ids[i]).summary) in Successes(ids, outcome)
    ensures forall i :: 0 <= i < |ids| && outcome(ids[i]).Threw? ==>
      Failure(Known(ids[i]), outcome(ids[i]).message) in Failures(ids, outcome)
    decreases |ids|
  {
    if |ids| > 0 {
      var init := ids[..|ids| - 1];
      Classified(init, outcome);
      assert forall i :: 0 <= i < |init| ==> init[i] == ids[i];
    }
  }

  /** Nothing is invented: every success and every failure belongs to an id
      of the batch, with that id's outcome. */
  lemma {:induction false} ClassifiedSound(ids: seq<Id>, outcome: Id -> Outcome)
    ensures forall x :: x in Successes(ids, outcome) ==> x.id in ids && outcome(x.id) == Succeeded(x.summary)
    ensures forall x :: x in Failures(ids, outcome) ==> x.id.Known? && x.id.id in ids && outcome(x.id.id) == Threw(x.error)
    decreases |ids|
  {
    if |ids| > 0 {
      var init := ids[..|ids| - 1];
      ClassifiedSound(init, outcome);
      assert forall x :: x in init ==> x in ids;
    }
  }

  /** The position of the first id whose run threw. */
  function FirstFailure(ids: seq<Id>, outcome: Id -> Outcome): (r: Option<nat>)
    ensures r.Some? ==> r.value < |ids| && outcome(ids[r.value]).Threw?
    ensures r.Some? ==> forall k :: 0 <= k < r.value ==> outcome(ids[k]).Succeeded?
    ensures r.None? <==> forall k :: 0 <= k < |ids| ==> outcome(ids[k]).Succeeded?
  {
    if |ids| == 0 then None
    else if outcome(ids[0]).Threw? then Some(0)
    else
      var r := FirstFailure(ids[1..], outcome);
      assert forall k :: 1 <= k < |ids| ==> ids[k] == ids[1..][k - 1];
      if r.Some? then Some(r.value + 1) else None
  }

  /** How many ids a sequential batch processes: all of them, unless it stops
      right after the first failure. */
  function Processed(ids: seq<Id>, outcome: Id -> Outcome, stopOnError: bool): (n: nat)
    ensures n <= |ids|
  {
    if stopOnError && FirstFailure(ids, outcome).Some? then FirstFailure(ids, outcome).value + 1 else |ids|
  }

  /** The reference reading of a sequential batch: the processed prefix,
      classified. */
  function SequentialSpec(ids: seq<Id>, outcome: Id -> Outcome, stopOnError: bool): BatchResult {
    var n := Processed(ids, outcome, stopOnError);
    BatchResult(|ids|, Successes(ids[..n], outcome), Failures(ids[..n], outcome), None)
  }

  // ---------------------------------------------------------------------------
  // Sequential mode
  // ---------------------------------------------------------------------------

  /** The sequential loop of `enhanceMultipleArticles`: one run after another,
      each result appended to its list, leaving the loop after the first
      failure when `stopOnError` is set. */
  method Sequential(ids: seq<Id>, outcome: Id -> Outcome, stopOnError: bool) returns (r: BatchResult)
    ensures r == SequentialSpec(ids, outcome, stopOnError)
  {
    var successful: seq<Success> := [];
    var failed: seq<Failure> := [];
    var i := 0;
    var stopped := false;
    while i < |ids| && !stopped
      invariant 0 <= i <= |ids|
      invariant successful == Successes(ids[..i], outcome)
      invariant failed == Failures(ids[..i], outcome)
      invariant stopped ==> stopOnError && FirstFailure(ids, outcome) == Some(i - 1)
      invariant !stopped && stopOnError ==> forall k :: 0 <= k < i ==> outcome(ids[k]).Succeeded?
    {
      assert ids[..i + 1][..i] == ids[..i];
      match outcome(ids[i]) {
        case Succeeded(w) =>
          successful := successful + [Success(ids[i], w)];
        case Threw(m) =>
          failed := failed + [Failure(Known(ids[i]), m)];
          if stopOnError {
            stopped := true;
            FirstFailureAt(ids, outcome, i);
          }
      }
      i := i + 1;
    }
    if !stopped && stopOnError {
      assert FirstFailure(ids, outcome).None?;
    }
    assert ids[..|ids|] == ids;
    r := BatchResult(|ids|, successful, failed, None);
  }

  /** A failure after only successes is the first failure. */
  lemma FirstFailureAt(ids: seq<Id>, outcome: Id -> Outcome, i: nat)
    requires i < |ids| && outcome(ids[i]).Threw?
    requires forall k :: 0 <= k < i ==> outcome(ids[k]).Succeeded?
    ensures FirstFailure(ids, outcome) == Some(i)
  {
  }

  /** A sequential batch reports every id once without `stopOnError`; with it,
      at most one failure is reported, it is the first failure of the batch,
      and nothing after it appears in either list. */
  lemma SequentialCounts(ids: seq<Id>, outcome: Id -> Outcome, stopOnError: bool)
    ensures var r := SequentialSpec(ids, outcome, stopOnError);
      && r.total == |ids|
      && (!stopOnError ==> |r.successful| + |r.failed| == |ids|)
      && (stopOnError ==> |r.failed| <= 1)
      && (stopOnError && FirstFailure(ids, outcome).Some? ==>
            |r.failed| == 1 && r.failed[0].id == Known(ids[FirstFailure(ids, outcome).value])
            && |r.successful| == FirstFailure(ids, outcome).value)
  {
    var n := Processed(ids, outcome, stopOnError);
    Classified(ids[..n], outcome);
    if stopOnError && FirstFailure(ids, outcome).Some? {
      var f := FirstFailure(ids, outcome).value;
      var pre := ids[..f];
      assert ids[..n][..f] == pre;
      AllSucceeded(pre, outcome);
      assert forall k :: 0 <= k < |pre| ==> outcome(pre[k]).Succeeded?;
    } else if stopOnError {
      AllSucceeded(ids, outcome);
      assert ids[..n] == ids;
    } else {
      assert ids[..n] == ids;
    }
  }

  /** When every run succeeds there are no failures and every id succeeds. */
  lemma {:induction false} AllSucceeded(ids: seq<Id>, outcome: Id -> Outcome)
    requires forall k :: 0 <= k < |ids| ==> outcome(ids[k]).Succeeded?
    ensures Failures(ids, outcome) == [] && |Successes(ids, outcome)| == |ids|
    decreases |ids|
  {
    if |ids| > 0 {
      AllSucceeded(ids[..|ids| - 1], outcome);
    }
  }

  // ---------------------------------------------------------------------------
  // Parallel mode
  // ---------------------------------------------------------------------------

  /** A settled promise: fulfilled with an id and its outcome, or rejected. */
  datatype Settled = Fulfilled(id: Id, outcome: Outcome) | Rejected(reason: string)

  /** `Promise.allSettled` over the per-id promises, in input order. Each
      promise catches its own run's error, so each one is fulfilled. */
  function Settle(ids: seq<Id>, outcome: Id -> Outcome): (r: seq<Settled>)
    ensures |r| == |ids| && forall i :: 0 <= i < |ids| ==> r[i] == Fulfilled(ids[i], outcome(ids[i]))
  {
    if |ids| == 0 then [] else Settle(ids[..|ids| - 1], outcome) + [Fulfilled(ids[|ids| - 1], outcome(ids[|ids| - 1]))]
  }

  /** The settled outcomes sorted into the two lists, a rejected promise
      reported under the unknown id. */
  function Collect(settled: seq<Settled>): (r: (seq<Success>, seq<Failure>)) {
    if |settled| == 0 then ([], [])
    else
      var rest := Collect(settled[..|settled| - 1]);
      match settled[|settled| - 1]
      case Fulfilled(id, Succeeded(w)) => (rest.0 + [Success(id, w)], rest.1)
      case Fulfilled(id, Threw(m)) => (rest.0, rest.1 + [Failure(Known(id), m)])
      case Rejected(reason) => (rest.0, rest.1 + [Failure(Unknown, reason)])
  }

  /** The parallel branch of `enhanceMultipleArticles`; `stopOnError` is not
      consulted. */
  function Parallel(ids: seq<Id>, outcome: Id -> Outcome): BatchResult {
    var lists := Collect(Settle(ids, outcome));
    BatchResult(|ids|, lists.0, lists.1, None)
  }

  /** The parallel mode classifies every id exactly as the sequential mode
      does without `stopOnError`, in input order; in particular no failure is
      ever reported under the unknown id. */
  lemma {:induction false} ParallelIsSequential(ids: seq<Id>, outcome: Id -> Outcome)
    ensures Parallel(ids, outcome) == SequentialSpec(ids, outcome, false)
    ensures forall x :: x in Parallel(ids, outcome).failed ==> x.id.Known?
    decreases |ids|
  {
    assert ids[..|ids|] == ids;
    if |ids| > 0 {
      var init := ids[..|ids| - 1];
      ParallelIsSequential(init, outcome);
      assert Settle(ids, outcome)[..|ids| - 1] == Settle(init, outcome);
      assert init[..|init|] == init;
    }
  }

  /** `enhanceMultipleArticles`. */
  function Multiple(ids: seq<Id>, outcome: Id -> Outcome, options: Options): (r: BatchResult)
  {
    if options.parallel then Parallel(ids, outcome) else SequentialSpec(ids, outcome, options.stopOnError)
  }

  /** `enhanceAllArticles`: an empty collection gives an empty report with a
      message; otherwise every stored id, in query order, goes to the batch. */
  function All(s: Store, outcome: Id -> Outcome, options: Options): (r: BatchResult)
    ensures |s.docs| == 0 ==> r == BatchResult(0, [], [], Some(NoArticles))
    ensures |s.docs| > 0 ==> r == Multiple(Ids(s.docs), outcome, options) && r.total == |s.docs|
  {
    if |s.docs| == 0 then BatchResult(0, [], [], Some(NoArticles))
    else Multiple(Ids(s.docs), outcome, options)
  }

  /** The outcome of enhancing each id against the collection `s`. */
  function Runs(s: Store, env: EW.Services, now: Timestamp): Id -> Outcome {
    (id: Id) => OutcomeOf(EW.Enhance(s, id, env, now))
  }

  /** In a parallel batch an id with no stored article is reported as a
      failure carrying the not-found message. (A stop-on-error batch never
      reaches an id after its first failure.) */
  lemma MissingIdReported(s: Store, env: EW.Services, now: Timestamp, ids: seq<Id>, i: nat)
    requires i < |ids| && forall k :: 0 <= k < |s.docs| ==> s.docs[k].id != ids[i]
    ensures Failure(Known(ids[i]), EW.NotFound(ids[i])) in Parallel(ids, Runs(s, env, now)).failed
  {
    EW.MissingArticleFails(s, ids[i], env, now);
    ParallelIsSequential(ids, Runs(s, env, now));
    Classified(ids, Runs(s, env, now));
    assert ids[..|ids|] == ids;
  }
}
