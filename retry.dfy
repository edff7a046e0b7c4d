/**
 Classifying one record against an unreliable endpoint: up to three
 attempts with growing timeouts, stopping at the first answer
 (classifier.py:89-131), and the single-shot client (classifier.py:33-73),
 which normalises the same way. The endpoint is abstracted as the outcome each
 attempt would have.
 */
module Retry {
  import opened Wrappers
  import opened Categories
  import opened Normaliser

  /**
   What one request came to: a failure (transport error, timeout, a body
   without a 'response' field) or the raw response text.
   */
  datatype Outcome = Fail | Ok(response: string)

  const MaxRetries: nat := 3
  const BaseTimeout: nat := 60

  /** The timeout of attempt k (counted from 0). */
  function TimeoutFor(attempt: nat): (seconds: nat)
    ensures seconds % BaseTimeout == 0 && seconds / BaseTimeout == attempt + 1
  {
    BaseTimeout * (attempt + 1)
  }

  /** The timeouts of the first n attempts, in order. */
  function Schedule(n: nat): (timeouts: seq<nat>)
    ensures |timeouts| == n
    ensures forall k :: 0 <= k < n ==> timeouts[k] == BaseTimeout * (k + 1)
  {
    seq(n, (k: int) requires 0 <= k => TimeoutFor(k))
  }

  /** Each attempt extends the schedule by its own timeout. */
  lemma ScheduleStep(n: nat)
    ensures Schedule(n + 1) == Schedule(n) + [TimeoutFor(n)]
  {
  }

  /** A record waits 60, 120 and then 180 seconds. */
  lemma FullSchedule()
    ensures Schedule(MaxRetries) == [60, 120, 180]
  {
  }

  /** Every attempt among the first n failed. */
  predicate AllFailed(outcomes: seq<Outcome>, n: nat)
    requires n <= |outcomes|
  {
    forall k :: 0 <= k < n ==> outcomes[k].Fail?
  }

  /** The index of the first successful attempt, if any. */
  function FirstSuccess(outcomes: seq<Outcome>): (r: Option<nat>)
    ensures r.Some? ==> r.value < |outcomes| && outcomes[r.value].Ok? && AllFailed(outcomes, r.value)
    ensures r.None? ==> AllFailed(outcomes, |outcomes|)
  {
    if outcomes == [] then None
    else if outcomes[0].Ok? then Some(0)
    else match FirstSuccess(outcomes[1..])
      case None => None
      case Some(k) => Some(k + 1)
  }

  /** What the retry loop leaves behind for one record. */
  datatype Resolution = Resolution(category: string, timeouts: seq<nat>, failed: nat)

  /**
   The outcome of the retry policy: the label and the timeouts of the
   attempts up to the first one that answers, or the fallback after the
   whole schedule with one failure counted. Its properties are the lemmas
   below.
   */
  function Resolve(outcomes: seq<Outcome>): (r: Resolution)
    requires |outcomes| >= MaxRetries
    ensures IsCategory(r.category)
    ensures 1 <= |r.timeouts| <= MaxRetries
    ensures r.failed <= 1
  {
    OtherIsCategory();
    match FirstSuccess(outcomes[..MaxRetries])
    case Some(k) => Resolution(Normalise(outcomes[k].response), Schedule(k + 1), 0)
    case None => Resolution(Other, Schedule(MaxRetries), 1)
  }

  /** The timeouts used are a prefix of 60, 120, 180: never more than three attempts. */
  lemma ResolveTimeouts(outcomes: seq<Outcome>)
    requires |outcomes| >= MaxRetries
    ensures Resolve(outcomes).timeouts == Schedule(|Resolve(outcomes).timeouts|)
    ensures Resolve(outcomes).timeouts <= [60, 120, 180]
  {
    FullSchedule();
    var n := |Resolve(outcomes).timeouts|;
    match FirstSuccess(outcomes[..MaxRetries])
    case Some(k) =>
      assert Schedule(n) == Schedule(MaxRetries)[..n];
    case None =>
  }

  /**
   The attempts stop at the first answer: every attempt made before the
   last one failed, and when no failure is counted the last attempt made
   answered and its response decides the label.
   */
  lemma ResolveStopsAtFirstAnswer(outcomes: seq<Outcome>)
    requires |outcomes| >= MaxRetries
    ensures AllFailed(outcomes, |Resolve(outcomes).timeouts| - 1)
    ensures Resolve(outcomes).failed == 0 ==>
      var last := |Resolve(outcomes).timeouts| - 1;
      outcomes[last].Ok? && Resolve(outcomes).category == Normalise(outcomes[last].response)
  {
    match FirstSuccess(outcomes[..MaxRetries])
    case Some(k) =>
      AllFailedPrefix(outcomes, MaxRetries, k);
      assert outcomes[..MaxRetries][k] == outcomes[k];
    case None =>
      AllFailedPrefix(outcomes, MaxRetries, MaxRetries);
  }

  /** A failure is counted exactly when all three attempts fail, and then the label is the fallback. */
  lemma ResolveFailure(outcomes: seq<Outcome>)
    requires |outcomes| >= MaxRetries
    ensures Resolve(outcomes).failed == 1 <==> AllFailed(outcomes, MaxRetries)
    ensures Resolve(outcomes).failed == 1 ==> Resolve(outcomes).category == Other && |Resolve(outcomes).timeouts| == MaxRetries
  {
    match FirstSuccess(outcomes[..MaxRetries])
    case Some(k) =>
      AllFailedPrefix(outcomes, MaxRetries, k);
      assert outcomes[..MaxRetries][k] == outcomes[k];
    case None =>
      AllFailedPrefix(outcomes, MaxRetries, MaxRetries);
  }

  /** Failures among the first n attempts of a prefix are failures of the whole sequence. */
  lemma AllFailedPrefix(outcomes: seq<Outcome>, m: nat, n: nat)
    requires n <= m <= |outcomes|
    ensures AllFailed(outcomes[..m], n) <==> AllFailed(outcomes, n)
  {
    assert forall j :: 0 <= j < n ==> outcomes[..m][j] == outcomes[j];
  }

  /**
   The retry loop. Attempt k waits TimeoutFor(k); the first attempt that
   yields a response is normalised and ends the loop; a failure of the last
   attempt sets the fallback and counts the record as failed.
   */
  method ClassifyWithRetry(outcomes: seq<Outcome>) returns (category: string, timeouts: seq<nat>, failed: nat)
    requires |outcomes| >= MaxRetries
    ensures Resolution(category, timeouts, failed) == Resolve(outcomes)
  {
    var current: Option<string> := None;
    timeouts := [];
    failed := 0;
    for attempt := 0 to MaxRetries
      invariant current.None? ==>
        attempt < MaxRetries && AllFailed(outcomes, attempt) && timeouts == Schedule(attempt) && failed == 0
      invariant current.Some? ==>
        attempt == MaxRetries && Resolution(current.value, timeouts, failed) == Resolve(outcomes)
    {
      var timeout := TimeoutFor(attempt);
      timeouts := timeouts + [timeout];
      ScheduleStep(attempt);
      if outcomes[attempt].Ok? {
        ResolveAnswered(outcomes, attempt);
        current := Some(Normalise(outcomes[attempt].response));
        break;
      } else if attempt == MaxRetries - 1 {
        ResolveAllFailed(outcomes);
        current := Some(Other);
        failed := failed + 1;
      }
    }
    category := current.value;
  }

  /** When attempt k is the first to answer, its response decides and k + 1 timeouts were used. */
  lemma ResolveAnswered(outcomes: seq<Outcome>, k: nat)
    requires k < MaxRetries <= |outcomes|
    requires outcomes[k].Ok? && AllFailed(outcomes, k)
    ensures Resolve(outcomes) == Resolution(Normalise(outcomes[k].response), Schedule(k + 1), 0)
  {
    AllFailedPrefix(outcomes, MaxRetries, k);
    assert outcomes[..MaxRetries][k] == outcomes[k];
    FirstSuccessAt(outcomes[..MaxRetries], k);
  }

  /** When every attempt fails, the record gets the fallback after the full schedule. */
  lemma ResolveAllFailed(outcomes: seq<Outcome>)
    requires MaxRetries <= |outcomes|
    requires AllFailed(outcomes, MaxRetries)
    ensures Resolve(outcomes) == Resolution(Other, Schedule(MaxRetries), 1)
  {
    AllFailedPrefix(outcomes, MaxRetries, MaxRetries);
  }

  /** The first success is the success every earlier attempt failed to be. */
  lemma {:induction false} FirstSuccessAt(outcomes: seq<Outcome>, k: nat)
    requires k < |outcomes| && outcomes[k].Ok? && AllFailed(outcomes, k)
    ensures FirstSuccess(outcomes) == Some(k)
    decreases k
  {
    if k > 0 {
      FirstSuccessAt(outcomes[1..], k - 1);
    }
  }

  /**
   The single-shot client: one request, and any failure gives the fallback
   (classifier.py:47-73). It normalises exactly as the retry loop does.
   */
  function ClassifyInstruction(outcome: Outcome): (category: string)
    ensures IsCategory(category)
  {
    OtherIsCategory();
    match outcome
    case Ok(response) => Normalise(response)
    case Fail => Other
  }

  /**
   The retry loop agrees with the single-shot client whenever the first
   attempt already answers, and when every attempt fails both give the
   fallback.
   */
  lemma RetryRefinesSingleShot(outcomes: seq<Outcome>)
    requires |outcomes| >= MaxRetries
    ensures outcomes[0].Ok? ==> Resolve(outcomes) == Resolution(ClassifyInstruction(outcomes[0]), [60], 0)
    ensures AllFailed(outcomes, MaxRetries) ==> Resolve(outcomes).category == ClassifyInstruction(outcomes[0])
  {
    if outcomes[0].Ok? {
      SingleShotAnswered(outcomes);
    }
    if AllFailed(outcomes, MaxRetries) {
      SingleShotExhausted(outcomes);
    }
  }

  lemma SingleShotAnswered(outcomes: seq<Outcome>)
    requires |outcomes| >= MaxRetries && outcomes[0].Ok?
    ensures Resolve(outcomes) == Resolution(ClassifyInstruction(outcomes[0]), [60], 0)
  {
    ResolveAnswered(outcomes, 0);
    assert Schedule(1) == [60];
  }

  lemma SingleShotExhausted(outcomes: seq<Outcome>)
    requires |outcomes| >= MaxRetries && AllFailed(outcomes, MaxRetries)
    ensures Resolve(outcomes).category == ClassifyInstruction(outcomes[0])
  {
    ResolveAllFailed(outcomes);
  }
}
