/**
  Classification of a failed Gemini request (chat.py:170-191) and the delay
  before the next attempt (chat.py:193-196), in integer milliseconds.
*/
module Retry {
  import opened Wrappers
  import opened Text

  const RETRY_MAX: nat := 5
  /** `RETRY_BASE_SLEEP` (0.6 s) and `RETRY_MAX_SLEEP` (8.0 s) in milliseconds. */
  const RETRY_BASE_MS: nat := 600
  const RETRY_MAX_MS: nat := 8000
  /** `random.uniform(0, 0.25)` seconds, in whole milliseconds. */
  const JITTER_MAX_MS: nat := 250

  type Jitter = j: nat | j <= JITTER_MAX_MS

  /**
    What the program looks at in an exception raised by `send_message`: the
    `status_code` attribute if there is one, the class name and `str(exc)`.
  */
  datatype SendError = SendError(status: Option<int>, typeName: String, msg: String)

  /** `_looks_like_quota_exhausted`: the lower-cased message names an exhausted quota. */
  predicate QuotaExhausted(e: SendError) {
    var msg := LowerStr(e.msg);
    Contains(msg, "resource_exhausted")
    || (Contains(msg, "quota") && Contains(msg, "exceed"))
    || Contains(msg, "has been exhausted")
  }

  /** A quota error: status 429 with a message naming an exhausted quota, the test both `should_retry` and the worker make first. */
  predicate QuotaError(e: SendError) {
    e.status == Some(429) && QuotaExhausted(e)
  }

  /** The status codes `should_retry` treats as transient. */
  predicate TransientStatus(status: Option<int>) {
    status.Some? && status.value in {429, 500, 502, 503, 504}
  }

  /** `should_retry`. */
  predicate ShouldRetry(e: SendError) {
    if QuotaError(e) then false
    else if TransientStatus(e.status) then true
    else if Contains(LowerStr(e.typeName), "timeout") || Contains(LowerStr(e.typeName), "connection") then true
    else Contains(LowerStr(e.msg), "overloaded")
  }

  /** An exhausted quota reported with 429 is never retried, whatever the class name or message says otherwise. */
  lemma QuotaNotRetried(e: SendError)
    requires QuotaError(e)
    ensures !ShouldRetry(e)
  {
  }

  /** Server errors are retried whatever their message: the quota test applies to 429 only. */
  lemma ServerErrorRetried(e: SendError)
    requires e.status.Some? && e.status.value in {500, 502, 503, 504}
    ensures ShouldRetry(e)
  {
  }

  /** A substring is found wherever it sits. */
  lemma {:induction false} ContainsInside(a: String, sub: String, b: String)
    ensures Contains(a + sub + b, sub)
    decreases |a|
  {
    if a == [] {
      assert (a + sub + b)[..|sub|] == sub;
    } else {
      assert (a + sub + b)[1..] == a[1..] + sub + b;
      ContainsInside(a[1..], sub, b);
    }
  }

  /** Lower-casing distributes over concatenation. */
  lemma LowerAppend(a: String, b: String)
    ensures LowerStr(a + b) == LowerStr(a) + LowerStr(b)
  {
  }

  /**
    A 429 whose message carries the API's `RESOURCE_EXHAUSTED` code, in any
    letter case, is never retried.
  */
  lemma ResourceExhaustedNotRetried(typeName: String, before: String, after: String)
    ensures !ShouldRetry(SendError(Some(429), typeName, before + "RESOURCE_EXHAUSTED" + after))
  {
    var code: String := "RESOURCE_EXHAUSTED";
    var low: String := "resource_exhausted";
    assert LowerStr(code) == low;
    LowerAppend(before + code, after);
    LowerAppend(before, code);
    ContainsInside(LowerStr(before), low, LowerStr(after));
  }

  /** A class name with "Timeout" in it, such as `ReadTimeout`, makes an error transient unless it is a 429 quota error. */
  lemma TimeoutRetried(e: SendError, before: String, after: String)
    requires e.typeName == before + "Timeout" + after
    requires !QuotaError(e)
    ensures ShouldRetry(e)
  {
    var word: String := "Timeout";
    var low: String := "timeout";
    assert LowerStr(word) == low;
    LowerAppend(before + word, after);
    LowerAppend(before, word);
    ContainsInside(LowerStr(before), low, LowerStr(after));
  }

  function Pow2(k: nat): (r: nat)
    ensures 1 <= r
  {
    if k == 0 then 1 else 2 * Pow2(k - 1)
  }

  /** The sleep of `backoff_sleep(attempt)`: `min(RETRY_MAX_SLEEP, RETRY_BASE_SLEEP * 2**attempt + jitter)`. */
  function BackoffMs(attempt: nat, jitter: Jitter): (r: nat)
    ensures r <= RETRY_MAX_MS
    ensures r >= Min(RETRY_MAX_MS, RETRY_BASE_MS * Pow2(attempt))
    ensures r <= RETRY_BASE_MS * Pow2(attempt) + JITTER_MAX_MS
  {
    Min(RETRY_MAX_MS, RETRY_BASE_MS * Pow2(attempt) + jitter)
  }

  lemma {:induction false} Pow2Monotone(j: nat, k: nat)
    requires j <= k
    ensures Pow2(j) <= Pow2(k)
    decreases k
  {
    if j < k {
      Pow2Monotone(j, k - 1);
    }
  }

  /** With the same jitter, a later attempt never waits less. */
  lemma BackoffMonotone(j: nat, k: nat, jitter: Jitter)
    requires j <= k
    ensures BackoffMs(j, jitter) <= BackoffMs(k, jitter)
  {
    Pow2Monotone(j, k);
  }

  /** From the fourth retry on (attempt index 4, 600 ms * 16 = 9.6 s) the cap of 8 s is reached whatever the jitter. */
  lemma BackoffCapped(attempt: nat, jitter: Jitter)
    requires 4 <= attempt
    ensures BackoffMs(attempt, jitter) == RETRY_MAX_MS
  {
    Pow2Monotone(4, attempt);
  }

  /** The total time slept in `delays`. */
  function Total(delays: seq<nat>): nat {
    if delays == [] then 0 else delays[0] + Total(delays[1..])
  }

  /**
    The retry delays of one request, `delays[k]` being the sleep after attempt
    `k`, add up to at most 18 s: 600 + 1200 + 2400 + 4800 ms plus four jitters of
    at most 250 ms, then at most one capped 8 s sleep.
  */
  lemma {:induction false} TotalBackoffBounded(delays: seq<nat>, jitters: seq<Jitter>)
    requires |delays| <= RETRY_MAX && |delays| <= |jitters|
    requires forall k :: 0 <= k < |delays| ==> delays[k] == BackoffMs(k, jitters[k])
    ensures Total(delays) <= 18000
  {
    TotalFrom(delays, jitters[..|delays|], 0);
  }

  /** The bound behind `TotalBackoffBounded`, for the delays from attempt `start` on. */
  lemma {:induction false} TotalFrom(delays: seq<nat>, jitters: seq<Jitter>, start: nat)
    requires start + |delays| <= RETRY_MAX && |jitters| == |delays|
    requires forall k :: 0 <= k < |delays| ==> delays[k] == BackoffMs(start + k, jitters[k])
    ensures Total(delays) <= StartBound(start)
    decreases |delays|
  {
    if delays != [] {
      assert delays[0] == BackoffMs(start, jitters[0]);
      TotalFrom(delays[1..], jitters[1..], start + 1);
    }
  }

  /** Worst-case total sleep of the retries from attempt `start` up to `RETRY_MAX - 1`. */
  function StartBound(start: nat): nat {
    if start == 0 then 18000
    else if start == 1 then 17150
    else if start == 2 then 15700
    else if start == 3 then 13050
    else if start == 4 then 8000
    else 0
  }
}
