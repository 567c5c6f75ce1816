/**
  One request of the Gemini worker (chat.py:560-603): the attempt loop with
  its epoch checks, the one-shot repair of a too-short answer, the quota
  short-circuit and the bounded retries with backoff.

  The worker blocks in `send_message` while the capture thread goes on, so
  what it observes during attempt `k` is given as `env[k]`, one entry for each
  of the `RETRY_MAX + 1` attempts the loop can make: the stop flag at the loop
  test, the session snapshots taken before the request and after the answer,
  the outcomes of the two `send_message` calls, and the jitter of the backoff.
*/
module Gemini {
  import opened Wrappers
  import opened Text
  import opened Session
  import opened Retry
  import opened Reply

  /** The result of `chat.send_message`: a response, or the exception it raised. */
  datatype SendOutcome = Sent(resp: Response) | Raised(err: SendError)

  /** What the worker observes during one attempt. */
  datatype AttemptEnv = AttemptEnv(
    stop: bool,
    before: SessionState,
    first: SendOutcome,
    repair: SendOutcome,
    after: SessionState,
    jitter: Jitter)

  /** The outcome of the `try` block up to the second epoch check: the kept answer, or the exception. */
  datatype Attempt = Answered(answer: String) | Threw(err: SendError)

  /** How the attempt loop ends. */
  datatype LoopEnd =
    | Replied(answer: String)   // the answer is handed to the speech queue
    | Silent                    // an empty answer: printed, not spoken
    | Outdated                  // the session changed or ended: nothing is queued
    | Abandoned                 // the loop test failed: the stop flag was set
    | QuotaHit                  // a 429 quota error: the text queue is drained
    | Failed(err: SendError)    // an error not retried, or retries used up

  /** One step of the attempt loop: go round again after a backoff, or end. */
  datatype Step = Continue | End(end: LoopEnd)

  /** The reply text the worker reads: `extract_gemini_text(resp).strip()`. */
  function AnswerOf(resp: Response): String {
    Strip(GeminiText(resp))
  }

  /** A reply too short to be trusted, which triggers the repair request. */
  predicate TooShort(answer: String) {
    |answer| < 10
  }

  /**
    The `try` block of one attempt: the request, and for an answer under ten
    characters one repeat request whose answer is kept when it is at least as
    long. An exception from either request ends the block.
  */
  function Ask(e: AttemptEnv): Attempt {
    match e.first
    case Raised(err) => Threw(err)
    case Sent(resp) =>
      var answer := AnswerOf(resp);
      if !TooShort(answer) then Answered(answer)
      else match e.repair
        case Raised(err) => Threw(err)
        case Sent(resp2) =>
          var answer2 := AnswerOf(resp2);
          Answered(if |answer2| >= |answer| then answer2 else answer)
  }

  /** Attempt `attempt` of the request of a worker synchronised at epoch `localId`. */
  function Iterate(e: AttemptEnv, localId: nat, attempt: nat): Step {
    if !(attempt <= RETRY_MAX) || e.stop then End(Abandoned)
    else if Stale(e.before, localId) then End(Outdated)
    else match Ask(e)
      case Threw(err) =>
        if QuotaError(err) then End(QuotaHit)
        else if ShouldRetry(err) && attempt < RETRY_MAX then Continue
        else End(Failed(err))
      case Answered(answer) =>
        if Stale(e.after, localId) then End(Outdated)
        else if answer != [] then End(Replied(answer))
        else End(Silent)
  }

  /** A first answer of ten characters or more is kept as it is: its repair request is never made. */
  lemma RepairOnlyWhenTooShort(e: AttemptEnv, repair: SendOutcome)
    requires e.first.Sent? && !TooShort(AnswerOf(e.first.resp))
    ensures Ask(e) == Ask(e.(repair := repair)) == Answered(AnswerOf(e.first.resp))
  {
  }

  /** The kept answer is never shorter than the first one. */
  lemma KeptAnswerNotShorter(e: AttemptEnv)
    requires e.first.Sent? && Ask(e).Answered?
    ensures |Ask(e).answer| >= |AnswerOf(e.first.resp)|
    ensures Ask(e).answer == AnswerOf(e.first.resp) || (e.repair.Sent? && Ask(e).answer == AnswerOf(e.repair.resp))
  {
  }

  /**
    No stale reply is spoken: a reply is handed on only when the session seen
    before the request and after the answer is still active and still the one
    the worker synchronised with, and only when it is not empty.
  */
  lemma RepliesAreCurrent(e: AttemptEnv, localId: nat, attempt: nat)
    requires Iterate(e, localId, attempt).End? && Iterate(e, localId, attempt).end.Replied?
    ensures e.before == SessionState(true, localId) && e.after == SessionState(true, localId)
    ensures Iterate(e, localId, attempt).end.answer != []
    ensures !e.stop && attempt <= RETRY_MAX
  {
  }

  /** A quota error stops the request at once, in any attempt, without a retry. */
  lemma QuotaNeverRetried(e: AttemptEnv, localId: nat, attempt: nat)
    requires attempt <= RETRY_MAX && !e.stop && !Stale(e.before, localId)
    requires Ask(e).Threw? && QuotaError(Ask(e).err)
    ensures Iterate(e, localId, attempt) == End(QuotaHit)
  {
  }

  /** The loop goes round again only after a retryable error that is not a quota error, and never after the last attempt. */
  lemma ContinueOnlyOnRetryable(e: AttemptEnv, localId: nat, attempt: nat)
    requires Iterate(e, localId, attempt) == Continue
    ensures attempt < RETRY_MAX && !e.stop && !Stale(e.before, localId)
    ensures Ask(e).Threw? && ShouldRetry(Ask(e).err) && !QuotaError(Ask(e).err)
  {
  }

  /** The `try` block: `send_message`, `extract_gemini_text(...).strip()` and the repair request. */
  method AskOnce(e: AttemptEnv) returns (a: Attempt)
    ensures a == Ask(e)
  {
    match e.first {
      case Raised(err) =>
        a := Threw(err);
      case Sent(resp) =>
        var text := ExtractText(resp);
        var answer := Strip(text);
        if |answer| < 10 {
          match e.repair {
            case Raised(err) =>
              a := Threw(err);
              return;
            case Sent(resp2) =>
              var text2 := ExtractText(resp2);
              var answer2 := Strip(text2);
              if |answer2| >= |answer| {
                answer := answer2;
              }
          }
        }
        a := Answered(answer);
    }
  }

  /**
    The body of the attempt loop after its test (chat.py:563-603): the epoch
    check before the request, the `try` block, the epoch check after the answer
    and the `except` branches. `Continue` is the backoff and the next attempt.
  */
  method AttemptOnce(e: AttemptEnv, localId: nat, attempt: nat) returns (step: Step)
    requires attempt <= RETRY_MAX && !e.stop
    ensures step == Iterate(e, localId, attempt)
  {
    if e.before.sessionId != localId || !e.before.active {
      return End(Outdated);
    }
    var a := AskOnce(e);
    match a {
      case Threw(err) =>
        if QuotaError(err) {
          step := End(QuotaHit);
        } else if ShouldRetry(err) && attempt < RETRY_MAX {
          step := Continue;
        } else {
          step := End(Failed(err));
        }
      case Answered(answer) =>
        if e.after.sessionId != localId || !e.after.active {
          step := End(Outdated);
        } else {
          step := End(if answer != [] then Replied(answer) else Silent);
        }
    }
  }

  /** Attempt `k` asked for a retry, and the worker slept `delay` before the next one. */
  predicate RetriedAfter(env: seq<AttemptEnv>, localId: nat, k: nat, delay: nat) {
    k < |env| && Iterate(env[k], localId, k) == Continue && delay == BackoffMs(k, env[k].jitter)
  }

  /**
    A request whose attempts `0 .. |delays| - 1` each asked for a retry after
    the sleep recorded in `delays`, and whose next attempt ended with `end`.
  */
  predicate Ran(env: seq<AttemptEnv>, localId: nat, delays: seq<nat>, end: LoopEnd) {
    |delays| <= RETRY_MAX && |delays| < |env|
    && (forall k :: 0 <= k < |delays| ==> RetriedAfter(env, localId, k, delays[k]))
    && Iterate(env[|delays|], localId, |delays|) == End(end)
  }

  /** What the worker observes decides the sleeps and the outcome of a request: `Ran` has one solution. */
  lemma RanDeterministic(env: seq<AttemptEnv>, localId: nat, delays1: seq<nat>, end1: LoopEnd, delays2: seq<nat>, end2: LoopEnd)
    requires Ran(env, localId, delays1, end1) && Ran(env, localId, delays2, end2)
    ensures delays1 == delays2 && end1 == end2
  {
    assert |delays1| < |delays2| ==> RetriedAfter(env, localId, |delays1|, delays2[|delays1|]);
    assert |delays2| < |delays1| ==> RetriedAfter(env, localId, |delays2|, delays1[|delays2|]);
    forall k | 0 <= k < |delays1| ensures delays1[k] == delays2[k] {
      assert RetriedAfter(env, localId, k, delays1[k]) && RetriedAfter(env, localId, k, delays2[k]);
    }
  }

  lemma RetriedSnoc(env: seq<AttemptEnv>, localId: nat, delays: seq<nat>, d: nat)
    requires forall k :: 0 <= k < |delays| ==> RetriedAfter(env, localId, k, delays[k])
    requires RetriedAfter(env, localId, |delays|, d)
    ensures forall k :: 0 <= k < |delays| + 1 ==> RetriedAfter(env, localId, k, (delays + [d])[k])
  {
  }

  /**
    The attempt loop of one request. `delays` are the backoff sleeps taken
    between attempts, so `|delays| + 1` requests were attempted; `end` is how
    the last attempt ended.
  */
  method SendLoop(env: seq<AttemptEnv>, localId: nat) returns (delays: seq<nat>, end: LoopEnd)
    requires |env| == RETRY_MAX + 1
    ensures Ran(env, localId, delays, end)
    ensures Total(delays) <= 18000
  {
    var attempt: nat := 0;
    delays := [];
    end := Abandoned;
    while attempt <= RETRY_MAX && !env[attempt].stop
      invariant attempt == |delays| <= RETRY_MAX
      invariant forall k :: 0 <= k < |delays| ==> RetriedAfter(env, localId, k, delays[k])
      decreases RETRY_MAX + 1 - attempt
    {
      var e := env[attempt];
      var step := AttemptOnce(e, localId, attempt);
      if step.End? {
        end := step.end;
        break;
      }
      RetriedSnoc(env, localId, delays, BackoffMs(attempt, e.jitter));
      delays := delays + [BackoffMs(attempt, e.jitter)];
      attempt := attempt + 1;
    }
    if env[attempt].stop {
      StopEndsLoop(env[attempt], localId, attempt);
    }
    LoopExit(env, localId, delays, end);
  }

  /** The jitter drawn in each attempt. */
  function JittersOf(env: seq<AttemptEnv>): (r: seq<Jitter>)
    ensures |r| == |env| && forall k :: 0 <= k < |env| ==> r[k] == env[k].jitter
  {
    if env == [] then [] else [env[0].jitter] + JittersOf(env[1..])
  }

  /** What holds once the attempt loop has ended, from its invariants and the last step. */
  lemma LoopExit(env: seq<AttemptEnv>, localId: nat, delays: seq<nat>, end: LoopEnd)
    requires |delays| <= RETRY_MAX && |delays| < |env|
    requires forall k :: 0 <= k < |delays| ==> RetriedAfter(env, localId, k, delays[k])
    requires Iterate(env[|delays|], localId, |delays|) == End(end)
    ensures Total(delays) <= 18000
  {
    var jitters := JittersOf(env);
    assert forall k :: 0 <= k < |delays| ==> delays[k] == BackoffMs(k, jitters[k]) by {
      forall k | 0 <= k < |delays| ensures delays[k] == BackoffMs(k, jitters[k]) {
        assert RetriedAfter(env, localId, k, delays[k]);
      }
    }
    TotalBackoffBounded(delays, jitters);
  }

  /** The loop ends without a reply and without any further attempt once the stop flag is seen. */
  lemma StopEndsLoop(e: AttemptEnv, localId: nat, attempt: nat)
    requires e.stop
    ensures Iterate(e, localId, attempt) == End(Abandoned)
  {
  }
}
