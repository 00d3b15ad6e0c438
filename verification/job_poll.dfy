/** `pollForCompletion`: the bounded loop that asks for a job's status until
    it is completed, an error escapes, or the attempts run out.

    The status checks the loop would make are given up front as a sequence,
    one entry per attempt; a sleep of `PollIntervalMillis` is counted rather
    than waited. An error raised inside an attempt, whether the check itself
    failed or the job reported 'failed', is caught by the loop and only
    escapes on the last attempt. */
module JobPoll {
  import opened Values
  import opened Chapters

  const MaxAttempts: nat := 60
  const PollIntervalMillis: nat := 5000

  const TimeoutMessage: string := "Job did not complete within the maximum time limit"
  const UnknownError: string := "Unknown error"

  /** The data of a status reply: the job status, an optional failure
      message, and the chapters of `data.chapters` if there are any. */
  datatype StatusResponse = StatusResponse(status: string, message: Option<string>,
                                           chapters: Option<seq<ChapterRecord>>)

  /** What one status check gives: the reply's data, or the message of the
      error it was rejected with. */
  datatype CheckResult = Reply(response: StatusResponse) | TransportError(message: string)

  /** How `pollForCompletion` ends: it returns a response or throws an
      error with a message. */
  datatype Outcome = Resolved(response: StatusResponse) | Rejected(message: string)

  /** The outcome together with the number of status checks and sleeps. */
  datatype PollResult = PollResult(outcome: Outcome, checks: nat, sleeps: nat)

  /** What the body of one attempt does with a check result: return the
      response, raise an error, or wait for the next attempt. */
  datatype Step = Return(response: StatusResponse) | Raise(message: string) | Wait

  /** The error a 'failed' status raises: the job's own message, or
      "Unknown error" when it has none or it is empty. */
  function FailureMessage(response: StatusResponse): (m: string)
    ensures |m| >= 12 && m[..12] == "Job failed: "
    ensures Truthy(response.message) ==> m[12..] == response.message.value
    ensures !Truthy(response.message) ==> m[12..] == UnknownError
  {
    "Job failed: " + OrElse(response.message, UnknownError)
  }

  predicate IsCompleted(c: CheckResult) {
    c.Reply? && c.response.status == "completed"
  }

  /** A status that neither ends nor fails the job: 'pending',
      'processing', or one the loop does not know. */
  predicate IsWaiting(c: CheckResult) {
    c.Reply? && c.response.status != "completed" && c.response.status != "failed"
  }

  /** The `try` block of one attempt: a failed check raises its own error,
      'completed' returns the response, 'failed' raises the job's failure,
      and 'processing', 'pending' and any other status all wait. */
  function Classify(c: CheckResult): (step: Step)
    ensures step.Return? <==> IsCompleted(c)
  {
    match c
    case TransportError(message) => Raise(message)
    case Reply(response) =>
      if response.status == "completed" then Return(response)
      else if response.status == "failed" then Raise(FailureMessage(response))
      else Wait
  }

  /** What each kind of check result makes an attempt do, in terms of
      the reply itself. */
  lemma ClassifyFollowsStatus(c: CheckResult)
    ensures IsCompleted(c) ==> Classify(c) == Return(c.response)
    ensures c.TransportError? ==> Classify(c) == Raise(c.message)
    ensures c.Reply? && c.response.status == "failed"
            ==> Classify(c) == Raise(FailureMessage(c.response))
    ensures Classify(c).Wait? <==> IsWaiting(c)
  {
  }

  /** The loop from attempt `attempt` on, having slept `sleeps` times. It
      ends within `MaxAttempts` checks and sleeps once after every
      attempt that is neither the one it ends on nor the last. */
  function PollFrom(responses: seq<CheckResult>, attempt: nat, sleeps: nat): (r: PollResult)
    requires 1 <= attempt <= MaxAttempts <= |responses|
    ensures attempt <= r.checks <= MaxAttempts
    ensures r.sleeps == sleeps + (r.checks - attempt)
    ensures r.outcome.Resolved? ==> IsCompleted(responses[r.checks - 1])
    decreases MaxAttempts - attempt
  {
    match Classify(responses[attempt - 1])
    case Return(response) => PollResult(Resolved(response), attempt, sleeps)
    case Raise(message) =>
      if attempt == MaxAttempts then PollResult(Rejected(message), attempt, sleeps)
      else PollFrom(responses, attempt + 1, sleeps + 1)
    case Wait =>
      if attempt == MaxAttempts then PollResult(Rejected(TimeoutMessage), attempt, sleeps)
      else PollFrom(responses, attempt + 1, sleeps + 1)
  }

  /** The whole loop: at most `MaxAttempts` checks and one sleep fewer. */
  function Poll(responses: seq<CheckResult>): (r: PollResult)
    requires MaxAttempts <= |responses|
    ensures 1 <= r.checks <= MaxAttempts
    ensures r.sleeps + 1 == r.checks
  {
    PollFrom(responses, 1, 0)
  }

  /** The loop as the script runs it, attempt by attempt. It agrees with
      `Poll`, and its last check is the only one not followed by a sleep. */
  method PollForCompletion(responses: seq<CheckResult>)
    returns (outcome: Outcome, checks: nat, sleeps: nat)
    requires MaxAttempts <= |responses|
    ensures PollResult(outcome, checks, sleeps) == Poll(responses)
    ensures 1 <= checks <= MaxAttempts && sleeps + 1 == checks
  {
    checks, sleeps := 0, 0;
    var attempt := 1;
    while attempt <= MaxAttempts
      invariant 1 <= attempt <= MaxAttempts + 1
      invariant checks == attempt - 1
      invariant sleeps == if attempt <= MaxAttempts then attempt - 1 else MaxAttempts - 1
      invariant attempt <= MaxAttempts ==> PollFrom(responses, attempt, sleeps) == Poll(responses)
      invariant attempt > MaxAttempts ==>
                  Poll(responses) == PollResult(Rejected(TimeoutMessage), MaxAttempts, sleeps)
    {
      checks := checks + 1;
      match Classify(responses[attempt - 1]) {
        case Return(response) =>
          outcome := Resolved(response);
          return;
        case Raise(message) =>
          if attempt == MaxAttempts {
            outcome := Rejected(message);
            return;
          }
          sleeps := sleeps + 1;
        case Wait =>
          if attempt < MaxAttempts {
            sleeps := sleeps + 1;
          }
      }
      attempt := attempt + 1;
    }
    outcome := Rejected(TimeoutMessage);
  }

  /** Total time the loop spends asleep. */
  function SleptMillis(r: PollResult): nat {
    r.sleeps * PollIntervalMillis
  }

  /** The loop never sleeps more than 59 intervals of 5 s. */
  lemma SleepBound(responses: seq<CheckResult>)
    requires MaxAttempts <= |responses|
    ensures SleptMillis(Poll(responses)) <= (MaxAttempts - 1) * PollIntervalMillis
  {
    var r := Poll(responses);
    assert r.sleeps <= MaxAttempts - 1;
  }

  /** With no completed reply before attempt `k`, the loop reaches attempt
      `k` having slept after each earlier attempt. */
  lemma {:induction false} PollReaches(responses: seq<CheckResult>, attempt: nat, k: nat)
    requires 1 <= attempt <= k <= MaxAttempts <= |responses|
    requires forall j :: attempt - 1 <= j < k - 1 ==> !IsCompleted(responses[j])
    ensures PollFrom(responses, attempt, attempt - 1) == PollFrom(responses, k, k - 1)
    decreases k - attempt
  {
    if attempt < k {
      assert !IsCompleted(responses[attempt - 1]);
      PollReaches(responses, attempt + 1, k);
    }
  }

  /** If attempt k is the first to report 'completed', that response is
      returned after exactly k checks and k - 1 sleeps. */
  lemma FirstCompletedIsReturned(responses: seq<CheckResult>, k: nat)
    requires 1 <= k <= MaxAttempts <= |responses|
    requires IsCompleted(responses[k - 1])
    requires forall j :: 0 <= j < k - 1 ==> !IsCompleted(responses[j])
    ensures Poll(responses) == PollResult(Resolved(responses[k - 1].response), k, k - 1)
  {
    PollReaches(responses, 1, k);
  }

  /** With no 'completed' reply in the first 60 checks, the outcome is
      decided by the last check alone: its error escapes unchanged, and a
      waiting status ends in the timeout error. */
  lemma NoCompletionOutcome(responses: seq<CheckResult>)
    requires MaxAttempts <= |responses|
    requires forall j :: 0 <= j < MaxAttempts ==> !IsCompleted(responses[j])
    ensures Poll(responses).checks == MaxAttempts
    ensures Poll(responses).sleeps == MaxAttempts - 1
    ensures var last := responses[MaxAttempts - 1];
            last.TransportError? ==> Poll(responses).outcome == Rejected(last.message)
    ensures var last := responses[MaxAttempts - 1];
            last.Reply? && last.response.status == "failed"
            ==> Poll(responses).outcome == Rejected(FailureMessage(last.response))
    ensures IsWaiting(responses[MaxAttempts - 1])
            ==> Poll(responses).outcome == Rejected(TimeoutMessage)
  {
    ClassifyFollowsStatus(responses[MaxAttempts - 1]);
    PollReaches(responses, 1, MaxAttempts);
  }

  /** Only statuses of 'pending', 'processing' or an unknown kind: the
      loop times out after 60 checks and 59 sleeps. */
  lemma AllWaitingTimesOut(responses: seq<CheckResult>)
    requires MaxAttempts <= |responses|
    requires forall j :: 0 <= j < MaxAttempts ==> IsWaiting(responses[j])
    ensures Poll(responses) == PollResult(Rejected(TimeoutMessage), MaxAttempts, MaxAttempts - 1)
  {
    NoCompletionOutcome(responses);
  }

  /** The loop resolves exactly when some check among the first 60 reports
      'completed'; otherwise it rejects. */
  lemma ResolvedIffCompleted(responses: seq<CheckResult>)
    requires MaxAttempts <= |responses|
    ensures Poll(responses).outcome.Resolved?
            <==> exists j :: 0 <= j < MaxAttempts && IsCompleted(responses[j])
  {
    if forall j :: 0 <= j < MaxAttempts ==> !IsCompleted(responses[j]) {
      NoCompletionOutcome(responses);
    } else {
      var k := FirstCompleted(responses);
      FirstCompletedIsReturned(responses, k);
    }
  }

  /** The 1-based attempt of the first 'completed' reply. */
  function FirstCompleted(responses: seq<CheckResult>): (k: nat)
    requires MaxAttempts <= |responses|
    requires exists j :: 0 <= j < MaxAttempts && IsCompleted(responses[j])
    ensures 1 <= k <= MaxAttempts && IsCompleted(responses[k - 1])
    ensures forall j :: 0 <= j < k - 1 ==> !IsCompleted(responses[j])
  {
    FirstCompletedFrom(responses, 0)
  }

  function FirstCompletedFrom(responses: seq<CheckResult>, i: nat): (k: nat)
    requires i <= MaxAttempts <= |responses|
    requires exists j :: i <= j < MaxAttempts && IsCompleted(responses[j])
    ensures i + 1 <= k <= MaxAttempts && IsCompleted(responses[k - 1])
    ensures forall j :: i <= j < k - 1 ==> !IsCompleted(responses[j])
    decreases MaxAttempts - i
  {
    if IsCompleted(responses[i]) then i + 1
    else FirstCompletedFrom(responses, i + 1)
  }

  /** No check is made after the one the loop ends on: two oracles that
      agree on the checks actually made give the same result. */
  lemma {:induction false} PollFromUsesOnlyChecksMade(r1: seq<CheckResult>, r2: seq<CheckResult>,
                                                      attempt: nat, sleeps: nat)
    requires 1 <= attempt <= MaxAttempts <= |r1| && MaxAttempts <= |r2|
    requires forall j :: attempt - 1 <= j < PollFrom(r1, attempt, sleeps).checks ==> r1[j] == r2[j]
    ensures PollFrom(r2, attempt, sleeps) == PollFrom(r1, attempt, sleeps)
    decreases MaxAttempts - attempt
  {
    assert r1[attempt - 1] == r2[attempt - 1];
    if attempt < MaxAttempts && !Classify(r1[attempt - 1]).Return? {
      PollFromUsesOnlyChecksMade(r1, r2, attempt + 1, sleeps + 1);
    }
  }

  lemma ChecksBeyondTheEndUnused(r1: seq<CheckResult>, r2: seq<CheckResult>)
    requires MaxAttempts <= |r1| && MaxAttempts <= |r2|
    requires r1[..Poll(r1).checks] == r2[..Poll(r1).checks]
    ensures Poll(r2) == Poll(r1)
  {
    var n := Poll(r1).checks;
    forall j | 0 <= j < n
      ensures r1[j] == r2[j]
    {
      assert r1[..n][j] == r2[..n][j];
    }
    PollFromUsesOnlyChecksMade(r1, r2, 1, 0);
  }

  /** An attempt below the last whose check fails, or whose job reports
      'failed', is swallowed: it has the same effect as a 'pending' reply,
      so 'failed' only ends the loop on the last attempt. */
  lemma EarlyErrorIsSwallowed(responses: seq<CheckResult>, k: nat, replacement: CheckResult)
    requires 1 <= k < MaxAttempts <= |responses|
    requires responses[k - 1].TransportError?
             || (responses[k - 1].Reply? && responses[k - 1].response.status == "failed")
    requires IsWaiting(replacement)
    ensures Poll(responses[k - 1 := replacement]) == Poll(responses)
  {
    ClassifyFollowsStatus(responses[k - 1]);
    ClassifyFollowsStatus(replacement);
    EarlyNonCompletionInterchangeable(responses, responses[k - 1 := replacement], 1, 0, k);
  }

  /** Two oracles that differ only at attempt k < 60, where neither
      reports 'completed', give the same result from any earlier attempt. */
  lemma {:induction false} EarlyNonCompletionInterchangeable(r1: seq<CheckResult>,
                                                             r2: seq<CheckResult>,
                                                             attempt: nat, sleeps: nat, k: nat)
    requires 1 <= attempt <= k < MaxAttempts <= |r1| == |r2|
    requires forall j :: 0 <= j < |r1| && j != k - 1 ==> r1[j] == r2[j]
    requires !IsCompleted(r1[k - 1]) && !IsCompleted(r2[k - 1])
    ensures PollFrom(r2, attempt, sleeps) == PollFrom(r1, attempt, sleeps)
    decreases k - attempt
  {
    if attempt < k {
      assert r1[attempt - 1] == r2[attempt - 1];
      if !Classify(r1[attempt - 1]).Return? {
        EarlyNonCompletionInterchangeable(r1, r2, attempt + 1, sleeps + 1, k);
      }
    } else {
      PollFromUsesOnlyChecksMade(r1, r2, attempt + 1, sleeps + 1);
    }
  }
}
