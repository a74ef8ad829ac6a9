/** The retrying batch controllers: `evaluate_CES` with `choose_llm` in the
    package script, and `main` of the batch script under resources. Threads
    are replaced by the outcome of each attempt the controller may start,
    given in order: the rows the attempt appended to `data_list` before it
    ended, and the exception that ended it, if any. Sleeps are counted, not
    timed. */
module Dispatch {
  import opened Wrappers
  import opened Text
  import opened Records

  /** `openai.RateLimitError` versus every other exception class. */
  datatype ErrorKind = RateLimitError | OtherError

  datatype Exception = Exception(kind: ErrorKind, message: string)

  /** One attempt of the executor block. */
  datatype Attempt = Attempt(collected: seq<Record>, error: Option<Exception>)

  /** The `data_list` returned, or the message of the exception raised. */
  datatype Outcome = Completed(records: seq<Record>) | Raised(message: string)

  /** How a run ended, how many attempts it started and how many backoff
      sleeps it took. */
  datatype Run = Run(outcome: Outcome, attempts: nat, sleeps: nat)

  /** `MAX_RETRIES` and `NUM_ITR` of the package script. */
  const PackageMaxRetries := 3
  const PackageIterations := 5

  /** `MAX_RETRIES` and `NUM_ITR` of the batch script. */
  const BatchMaxRetries := 5
  const BatchIterations := 10

  /** The rows appended by attempts `0..n-1`, in order: `data_list` is never reset. */
  function Collected(attempts: seq<Attempt>, n: nat): seq<Record>
    requires n <= |attempts|
  {
    if n == 0 then [] else Collected(attempts, n - 1) + attempts[n - 1].collected
  }

  /** The package script's test: the lower-cased message mentions a rate
      limit or a token limit. */
  predicate IsRetryable(e: Exception) {
    var m := ToLower(e.message);
    Contains(m, "rate limit") || Contains(m, "token limit")
  }

  predicate RetryableFailure(a: Attempt) {
    a.error.Some? && IsRetryable(a.error.value)
  }

  /** The batch script catches only `RateLimitError`, whatever its message. */
  predicate RateLimited(a: Attempt) {
    a.error.Some? && a.error.value.kind == RateLimitError
  }

  /** "Max retries reached: 3". */
  const PackageLimitMessage: string := "Max retries reached: " + NatToString(PackageMaxRetries)

  /** "Maximum number of retries 5 after RateLimitErrors exceeded". */
  const BatchLimitMessage: string :=
    "Maximum number of retries " + NatToString(BatchMaxRetries) + " after RateLimitErrors exceeded"

  /** The sorting after the retry loop: a `data_list` the loop exits with
      is sorted by question and iteration; an exception passes through. */
  function Finish(r: Run): (f: Run)
    ensures f.attempts == r.attempts && f.sleeps == r.sleeps
    ensures f.outcome.Raised? <==> r.outcome.Raised?
    ensures r.outcome.Raised? ==> f.outcome == r.outcome
    ensures r.outcome.Completed? ==>
      SortedByKey(f.outcome.records) && multiset(f.outcome.records) == multiset(r.outcome.records)
  {
    match r.outcome
    case Completed(data) => Run(Completed(Sort(data)), r.attempts, r.sleeps)
    case Raised(_) => r
  }

  /** The `while retries <= MAX_RETRIES` loop of `evaluate_CES` from the
      state with `retries` retryable failures behind it (attempt number
      `retries` is next) and `data` collected; a completed run carries
      `data_list` as the loop leaves it. */
  function PackageLoop(attempts: seq<Attempt>, retries: nat, data: seq<Record>): (r: Run)
    requires |attempts| == PackageMaxRetries && retries < PackageMaxRetries
    ensures retries < r.attempts <= PackageMaxRetries && r.sleeps == r.attempts - 1
    decreases PackageMaxRetries - retries
  {
    // the loop guard `retries <= MAX_RETRIES` holds on every iteration
    assert retries <= PackageMaxRetries;
    var a := attempts[retries];
    var data' := data + a.collected;
    match a.error
    case None => Run(Completed(data'), retries + 1, retries)
    case Some(e) =>
      if IsRetryable(e) then
        if retries + 1 >= PackageMaxRetries then Run(Raised(PackageLimitMessage), retries + 1, retries)
        else PackageLoop(attempts, retries + 1, data')
      else
        // "Unexpected error": break with what was collected
        Run(Completed(data'), retries + 1, retries)
  }

  /** What the loop does from a state reached by `retries` retryable
      failures: every attempt but the last failed retryably; it raises
      exactly when the third one did; otherwise it exits with all rows
      collected, after an attempt that did not fail retryably. */
  lemma PackageLoopSpec(attempts: seq<Attempt>, retries: nat, data: seq<Record>)
    requires |attempts| == PackageMaxRetries && retries < PackageMaxRetries
    requires data == Collected(attempts, retries)
    ensures var r := PackageLoop(attempts, retries, data);
      forall k :: retries <= k < r.attempts - 1 ==> RetryableFailure(attempts[k])
    ensures var r := PackageLoop(attempts, retries, data);
      r.outcome.Raised? <==> r.attempts == PackageMaxRetries && RetryableFailure(attempts[PackageMaxRetries - 1])
    ensures var r := PackageLoop(attempts, retries, data);
      r.outcome.Raised? ==> r.outcome.message == PackageLimitMessage
    ensures var r := PackageLoop(attempts, retries, data);
      r.outcome.Completed? ==> r.outcome.records == Collected(attempts, r.attempts)
    ensures var r := PackageLoop(attempts, retries, data);
      r.outcome.Completed? ==> !RetryableFailure(attempts[r.attempts - 1])
  {
    var r := PackageLoop(attempts, retries, data);
    forall k | retries <= k < r.attempts - 1 ensures RetryableFailure(attempts[k]) {
      PackageLoopRetries(attempts, retries, data, k);
    }
    PackageLoopOutcome(attempts, retries, data);
  }

  /** The loop goes on only past retryable failures. */
  lemma {:induction false} PackageLoopRetries(attempts: seq<Attempt>, retries: nat, data: seq<Record>, k: nat)
    requires |attempts| == PackageMaxRetries && retries < PackageMaxRetries
    requires retries <= k < PackageLoop(attempts, retries, data).attempts - 1
    ensures RetryableFailure(attempts[k])
    decreases PackageMaxRetries - retries
  {
    var a := attempts[retries];
    if RetryableFailure(a) && retries + 1 < PackageMaxRetries {
      if k > retries {
        assert PackageLoop(attempts, retries, data) == PackageLoop(attempts, retries + 1, data + a.collected);
        PackageLoopRetries(attempts, retries + 1, data + a.collected, k);
      }
    }
  }

  /** How the loop ends: raising after a third retryable failure, otherwise
      exiting after an attempt that did not fail retryably, with everything
      collected. */
  lemma {:induction false} PackageLoopOutcome(attempts: seq<Attempt>, retries: nat, data: seq<Record>)
    requires |attempts| == PackageMaxRetries && retries < PackageMaxRetries
    requires data == Collected(attempts, retries)
    ensures var r := PackageLoop(attempts, retries, data);
      r.outcome.Raised? <==> r.attempts == PackageMaxRetries && RetryableFailure(attempts[PackageMaxRetries - 1])
    ensures var r := PackageLoop(attempts, retries, data);
      r.outcome.Raised? ==> r.outcome.message == PackageLimitMessage
    ensures var r := PackageLoop(attempts, retries, data);
      r.outcome.Completed? ==> r.outcome.records == Collected(attempts, r.attempts)
    ensures var r := PackageLoop(attempts, retries, data);
      r.outcome.Completed? ==> !RetryableFailure(attempts[r.attempts - 1])
    decreases PackageMaxRetries - retries
  {
    var a := attempts[retries];
    var data' := data + a.collected;
    assert data' == Collected(attempts, retries + 1);
    if !RetryableFailure(a) {
      assert PackageLoop(attempts, retries, data) == Run(Completed(data'), retries + 1, retries);
    } else if retries + 1 >= PackageMaxRetries {
      assert PackageLoop(attempts, retries, data) == Run(Raised(PackageLimitMessage), retries + 1, retries);
    } else {
      PackageLoopOutcome(attempts, retries + 1, data');
      assert PackageLoop(attempts, retries, data) == PackageLoop(attempts, retries + 1, data');
    }
  }

  /** The retry part of `evaluate_CES`: at most three attempts, a sleep
      between consecutive ones; it raises exactly when all three attempts
      fail with a retryable error. */
  function PackageRun(attempts: seq<Attempt>): (r: Run)
    requires |attempts| == PackageMaxRetries
    ensures 1 <= r.attempts <= PackageMaxRetries && r.sleeps == r.attempts - 1
    ensures r.outcome.Raised? <==> forall k :: 0 <= k < PackageMaxRetries ==> RetryableFailure(attempts[k])
    ensures r.outcome.Raised? ==> r.outcome.message == PackageLimitMessage
  {
    PackageLoopSpec(attempts, 0, []);
    Finish(PackageLoop(attempts, 0, []))
  }

  /** A run that ends without raising stopped after an attempt that either
      succeeded or failed for a reason other than a rate or token limit,
      and returns every row of every attempt, sorted by question and
      iteration. */
  lemma PackageRunResult(attempts: seq<Attempt>)
    requires |attempts| == PackageMaxRetries
    ensures var r := PackageRun(attempts);
      r.outcome.Completed? ==> !RetryableFailure(attempts[r.attempts - 1])
    ensures var r := PackageRun(attempts);
      r.outcome.Completed? ==> r.outcome.records == Sort(Collected(attempts, r.attempts))
    ensures var r := PackageRun(attempts);
      r.outcome.Completed? ==>
        && SortedByKey(r.outcome.records)
        && multiset(r.outcome.records) == multiset(Collected(attempts, r.attempts))
        && forall k :: 0 <= k < r.attempts ==> multiset(attempts[k].collected) <= multiset(r.outcome.records)
  {
    var r := PackageRun(attempts);
    PackageLoopSpec(attempts, 0, []);
    if r.outcome.Completed? {
      SortCollected(attempts, r.attempts);
    }
  }

  /** The sorted rows of the first `n` attempts hold every row of each. */
  lemma SortCollected(attempts: seq<Attempt>, n: nat)
    requires n <= |attempts|
    ensures SortedByKey(Sort(Collected(attempts, n)))
    ensures multiset(Sort(Collected(attempts, n))) == multiset(Collected(attempts, n))
    ensures forall k :: 0 <= k < n ==> multiset(attempts[k].collected) <= multiset(Sort(Collected(attempts, n)))
  {
    forall k | 0 <= k < n
      ensures multiset(attempts[k].collected) <= multiset(Sort(Collected(attempts, n)))
    {
      CollectedContains(attempts, n, k);
    }
  }

  lemma {:induction false} CollectedContains(attempts: seq<Attempt>, n: nat, k: nat)
    requires k < n <= |attempts|
    ensures multiset(attempts[k].collected) <= multiset(Collected(attempts, n))
  {
    if k < n - 1 {
      CollectedContains(attempts, n - 1, k);
    }
  }

  /** The `for retry in range(MAX_RETRIES)` loop of the batch script from
      attempt `retry` with `data` collected; a completed run carries
      `data_list` as the loop leaves it. */
  function BatchLoop(attempts: seq<Attempt>, retry: nat, data: seq<Record>): (r: Run)
    requires |attempts| == BatchMaxRetries && retry < BatchMaxRetries
    ensures retry < r.attempts <= BatchMaxRetries && r.sleeps == r.attempts - 1
    decreases BatchMaxRetries - retry
  {
    var a := attempts[retry];
    var data' := data + a.collected;
    match a.error
    case None => Run(Completed(data'), retry + 1, retry)
    case Some(e) =>
      if e.kind == RateLimitError then
        if retry == BatchMaxRetries - 1 then Run(Raised(BatchLimitMessage), retry + 1, retry)
        else BatchLoop(attempts, retry + 1, data')
      else
        // not caught: the exception leaves `main`
        Run(Raised(e.message), retry + 1, retry)
  }

  /** What the batch loop does from attempt `retry`: every attempt but the
      last raised `RateLimitError`; it completes exactly when the last
      attempt raised nothing, with all rows collected; the limit message
      follows a fifth `RateLimitError`; any other exception escapes with
      its own message. */
  lemma BatchLoopSpec(attempts: seq<Attempt>, retry: nat, data: seq<Record>)
    requires |attempts| == BatchMaxRetries && retry < BatchMaxRetries
    requires data == Collected(attempts, retry)
    ensures var r := BatchLoop(attempts, retry, data);
      forall k :: retry <= k < r.attempts - 1 ==> RateLimited(attempts[k])
    ensures var r := BatchLoop(attempts, retry, data);
      r.outcome.Completed? <==> attempts[r.attempts - 1].error.None?
    ensures var r := BatchLoop(attempts, retry, data);
      r.outcome.Completed? ==> r.outcome.records == Collected(attempts, r.attempts)
    ensures var r := BatchLoop(attempts, retry, data);
      r.outcome.Raised? && RateLimited(attempts[r.attempts - 1]) ==>
        r.attempts == BatchMaxRetries && r.outcome.message == BatchLimitMessage
    ensures var r := BatchLoop(attempts, retry, data);
      r.outcome.Raised? && !RateLimited(attempts[r.attempts - 1]) ==>
        r.outcome.message == attempts[r.attempts - 1].error.value.message
  {
    var r := BatchLoop(attempts, retry, data);
    forall k | retry <= k < r.attempts - 1 ensures RateLimited(attempts[k]) {
      BatchLoopRetries(attempts, retry, data, k);
    }
    BatchLoopOutcome(attempts, retry, data);
  }

  /** The batch loop goes on only past `RateLimitError`s. */
  lemma {:induction false} BatchLoopRetries(attempts: seq<Attempt>, retry: nat, data: seq<Record>, k: nat)
    requires |attempts| == BatchMaxRetries && retry < BatchMaxRetries
    requires retry <= k < BatchLoop(attempts, retry, data).attempts - 1
    ensures RateLimited(attempts[k])
    decreases BatchMaxRetries - retry
  {
    var a := attempts[retry];
    if RateLimited(a) && retry + 1 < BatchMaxRetries {
      if k > retry {
        assert BatchLoop(attempts, retry, data) == BatchLoop(attempts, retry + 1, data + a.collected);
        BatchLoopRetries(attempts, retry + 1, data + a.collected, k);
      }
    }
  }

  /** How the batch loop ends. */
  lemma {:induction false} BatchLoopOutcome(attempts: seq<Attempt>, retry: nat, data: seq<Record>)
    requires |attempts| == BatchMaxRetries && retry < BatchMaxRetries
    requires data == Collected(attempts, retry)
    ensures var r := BatchLoop(attempts, retry, data);
      r.outcome.Completed? <==> attempts[r.attempts - 1].error.None?
    ensures var r := BatchLoop(attempts, retry, data);
      r.outcome.Completed? ==> r.outcome.records == Collected(attempts, r.attempts)
    ensures var r := BatchLoop(attempts, retry, data);
      r.outcome.Raised? && RateLimited(attempts[r.attempts - 1]) ==>
        r.attempts == BatchMaxRetries && r.outcome.message == BatchLimitMessage
    ensures var r := BatchLoop(attempts, retry, data);
      r.outcome.Raised? && !RateLimited(attempts[r.attempts - 1]) ==>
        r.outcome.message == attempts[r.attempts - 1].error.value.message
    decreases BatchMaxRetries - retry
  {
    var a := attempts[retry];
    var data' := data + a.collected;
    assert data' == Collected(attempts, retry + 1);
    var r := BatchLoop(attempts, retry, data);
    match a.error
    case None =>
      assert r == Run(Completed(data'), retry + 1, retry);
    case Some(e) =>
      if e.kind != RateLimitError {
        assert r == Run(Raised(e.message), retry + 1, retry);
      } else if retry == BatchMaxRetries - 1 {
        assert r == Run(Raised(BatchLimitMessage), retry + 1, retry);
      } else {
        BatchLoopOutcome(attempts, retry + 1, data');
        assert r == BatchLoop(attempts, retry + 1, data');
      }
  }

  /** The retry part of the batch script's `main`: at most five attempts,
      a sleep between consecutive ones. */
  function BatchRun(attempts: seq<Attempt>): (r: Run)
    requires |attempts| == BatchMaxRetries
    ensures 1 <= r.attempts <= BatchMaxRetries && r.sleeps == r.attempts - 1
  {
    Finish(BatchLoop(attempts, 0, []))
  }

  /** It returns only after an attempt that raised nothing, raises the
      limit message exactly when all five attempts raise `RateLimitError`,
      lets any other exception through at once with its own message, and
      returns a sorted arrangement of every row collected. */
  lemma BatchRunSpec(attempts: seq<Attempt>)
    requires |attempts| == BatchMaxRetries
    ensures var r := BatchRun(attempts);
      r.outcome.Completed? <==> attempts[r.attempts - 1].error.None?
    ensures var r := BatchRun(attempts);
      (r.outcome.Raised? && r.outcome.message == BatchLimitMessage && RateLimited(attempts[r.attempts - 1])) <==>
        forall k :: 0 <= k < BatchMaxRetries ==> RateLimited(attempts[k])
    ensures var r := BatchRun(attempts);
      r.outcome.Raised? && !RateLimited(attempts[r.attempts - 1]) ==>
        r.outcome.message == attempts[r.attempts - 1].error.value.message
    ensures var r := BatchRun(attempts);
      r.outcome.Completed? ==>
        && r.outcome.records == Sort(Collected(attempts, r.attempts))
        && SortedByKey(r.outcome.records)
        && multiset(r.outcome.records) == multiset(Collected(attempts, r.attempts))
  {
    BatchRunEnd(attempts);
    BatchRunLimit(attempts);
    BatchRunRecords(attempts);
  }

  lemma BatchRunEnd(attempts: seq<Attempt>)
    requires |attempts| == BatchMaxRetries
    ensures var r := BatchRun(attempts);
      r.outcome.Completed? <==> attempts[r.attempts - 1].error.None?
    ensures var r := BatchRun(attempts);
      r.outcome.Raised? && !RateLimited(attempts[r.attempts - 1]) ==>
        r.outcome.message == attempts[r.attempts - 1].error.value.message
  {
    BatchLoopOutcome(attempts, 0, []);
  }

  lemma BatchRunRecords(attempts: seq<Attempt>)
    requires |attempts| == BatchMaxRetries
    ensures var r := BatchRun(attempts);
      r.outcome.Completed? ==>
        && r.outcome.records == Sort(Collected(attempts, r.attempts))
        && SortedByKey(r.outcome.records)
        && multiset(r.outcome.records) == multiset(Collected(attempts, r.attempts))
  {
    var r := BatchLoop(attempts, 0, []);
    BatchLoopOutcome(attempts, 0, []);
    if r.outcome.Completed? {
      SortCollected(attempts, r.attempts);
    }
  }

  lemma BatchRunLimit(attempts: seq<Attempt>)
    requires |attempts| == BatchMaxRetries
    ensures var r := BatchRun(attempts);
      (r.outcome.Raised? && r.outcome.message == BatchLimitMessage && RateLimited(attempts[r.attempts - 1])) <==>
        forall k :: 0 <= k < BatchMaxRetries ==> RateLimited(attempts[k])
  {
    var r := BatchLoop(attempts, 0, []);
    BatchLoopOutcome(attempts, 0, []);
    if forall k :: 0 <= k < BatchMaxRetries ==> RateLimited(attempts[k]) {
      assert RateLimited(attempts[r.attempts - 1]);
    }
    if r.outcome.Raised? && r.outcome.message == BatchLimitMessage && RateLimited(attempts[r.attempts - 1]) {
      forall k | 0 <= k < BatchMaxRetries ensures RateLimited(attempts[k]) {
        if k < r.attempts - 1 {
          BatchLoopRetries(attempts, 0, [], k);
        }
      }
    }
  }

  /** The two controllers differ on a non-retryable failure: the package
      script returns the rows collected so far, the batch script raises. */
  lemma OtherErrorHandling(rows: seq<Record>)
    ensures var a := Attempt(rows, Some(Exception(OtherError, "boom")));
      && PackageRun([a, a, a]) == Run(Completed(Sort(rows)), 1, 0)
      && BatchRun([a, a, a, a, a]) == Run(Raised("boom"), 1, 0)
  {
    var a := Attempt(rows, Some(Exception(OtherError, "boom")));
    BoomNotRetryable();
    assert [] + rows == rows;
    assert PackageLoop([a, a, a], 0, []) == Run(Completed(rows), 1, 0);
    assert BatchLoop([a, a, a, a, a], 0, []) == Run(Raised("boom"), 1, 0);
  }

  lemma BoomNotRetryable()
    ensures !IsRetryable(Exception(OtherError, "boom"))
  {
    assert ToLower("boom") == "boom";
    assert !Contains("boom", "rate limit") && !Contains("boom", "token limit");
  }

  /** They also differ on what they retry: a `RateLimitError` whose message
      does not say "rate limit" is not retried by the package script, and
      a generic exception that says "Rate limit" is not retried by the
      batch script. */
  lemma RetryClassification()
    ensures !IsRetryable(Exception(RateLimitError, "slow down"))
    ensures IsRetryable(Exception(OtherError, "Rate limit hit"))
  {
    assert !Contains("slow down", "rate limit") && !Contains("slow down", "token limit");
    var m := ToLower("Rate limit hit");
    assert m == "rate limit hit";
    assert InfixAt(m, "rate limit", 0);
    ContainsIff(m, "rate limit");
  }

  /** The adapters `choose_llm` knows. */
  datatype Llm = GptAdapter | GeminiAdapter

  /** `choose_llm`: exactly "gpt" and "gemini" are known; any other key
      raises ValueError with this message. */
  function ChooseLlm(model: string): (r: Result<Llm, string>)
    ensures r.Success? <==> model == "gpt" || model == "gemini"
    ensures model == "gpt" ==> r == Success(GptAdapter)
    ensures model == "gemini" ==> r == Success(GeminiAdapter)
  {
    if model == "gpt" then Success(GptAdapter)
    else if model == "gemini" then Success(GeminiAdapter)
    else Failure("Invalid model choice: '" + model + "'.\nSupported models are: gpt, gemini.")
  }

  /** The error names the rejected key and lists the supported ones. */
  lemma ChooseLlmMessage(model: string)
    requires ChooseLlm(model).Failure?
    ensures InfixAt(ChooseLlm(model).error, model, 23)
    ensures Contains(ChooseLlm(model).error, "gpt, gemini")
  {
    var head := "Invalid model choice: '";
    var mid := "'.\nSupported models are: ";
    var tail := "gpt, gemini";
    var e := ChooseLlm(model).error;
    assert e == head + model + (mid + tail + ".");
    InfixOfConcat(head, model, mid + tail + ".");
    assert e == (head + model + mid) + tail + ".";
    InfixOfConcat(head + model + mid, tail, ".");
  }

  /** `evaluate_CES` after reading the questions: the adapter is chosen
      before any attempt, so an unknown key raises with no attempt made. */
  function EvaluateCes(model: string, attempts: seq<Attempt>): (r: Run)
    requires |attempts| == PackageMaxRetries
    ensures ChooseLlm(model).Failure? ==> r == Run(Raised(ChooseLlm(model).error), 0, 0)
    ensures ChooseLlm(model).Success? ==> r == PackageRun(attempts)
  {
    match ChooseLlm(model)
    case Failure(msg) => Run(Raised(msg), 0, 0)
    case Success(_) => PackageRun(attempts)
  }

  /** The rows a full set of requests yields, one per request, in request order. */
  function AnsweredAll(ts: seq<Task>, answers: seq<string>): (rs: seq<Record>)
    requires |answers| == |ts|
    ensures |rs| == |ts|
  {
    seq(|ts|, k requires 0 <= k < |ts| => Answered(ts[k], answers[k]))
  }

  /** When the first attempt answers every request, in whatever order the
      threads finish, the package run returns the answers in question
      order, iterations ascending within a question. */
  lemma PackageFirstAttemptInOrder(qs: seq<string>, answers: seq<string>, attempts: seq<Attempt>)
    requires |attempts| == PackageMaxRetries && |answers| == |Tasks(qs, PackageIterations)|
    requires attempts[0].error.None?
    requires multiset(attempts[0].collected) == multiset(AnsweredAll(Tasks(qs, PackageIterations), answers))
    ensures PackageRun(attempts) == Run(Completed(AnsweredAll(Tasks(qs, PackageIterations), answers)), 1, 0)
  {
    var ts := Tasks(qs, PackageIterations);
    TasksExactly(qs, |qs|, PackageIterations);
    AnsweredStrictlySorted(ts, answers);
    assert Collected(attempts, 1) == attempts[0].collected;
    SortPermutation(attempts[0].collected, AnsweredAll(ts, answers));
  }

  /** The same for the batch script. */
  lemma BatchFirstAttemptInOrder(qs: seq<string>, answers: seq<string>, attempts: seq<Attempt>)
    requires |attempts| == BatchMaxRetries && |answers| == |Tasks(qs, BatchIterations)|
    requires attempts[0].error.None?
    requires multiset(attempts[0].collected) == multiset(AnsweredAll(Tasks(qs, BatchIterations), answers))
    ensures BatchRun(attempts) == Run(Completed(AnsweredAll(Tasks(qs, BatchIterations), answers)), 1, 0)
  {
    var ts := Tasks(qs, BatchIterations);
    TasksExactly(qs, |qs|, BatchIterations);
    AnsweredStrictlySorted(ts, answers);
    assert Collected(attempts, 1) == attempts[0].collected;
    SortPermutation(attempts[0].collected, AnsweredAll(ts, answers));
  }
}
