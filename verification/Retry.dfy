/** Datagram forwarding: the retry schedule, the retry loop, and when exhaustion shuts the
    daemon down. Durations are in microseconds. */
module Retry {
  import opened Text

  const U64_MAX: nat := 0xFFFF_FFFF_FFFF_FFFF
  const MAX_DELAY: nat := 1_000_000

  function Pow2(k: nat): (r: nat)
    ensures r >= 1
  {
    if k == 0 then 1 else 2 * Pow2(k - 1)
  }

  function Min(a: nat, b: nat): nat {
    if a <= b then a else b
  }

  // ── The schedule ───────────────────────────────────────────────────────────

  /** `dgram_attempt_delay`, with the source's saturating and checked operations: a shift of
      64 or more saturates, and so does the product. */
  function AttemptDelay(attempt: nat): (d: nat)
    requires attempt <= U32_MAX
    ensures d <= MAX_DELAY
  {
    var shift := if attempt >= 2 then attempt - 2 else 0;
    var micros := if shift >= 64 then U64_MAX else Min(U64_MAX, 100 * Pow2(shift));
    if micros > MAX_DELAY then MAX_DELAY else micros
  }

  lemma {:induction false} Pow2Grows(a: nat, b: nat)
    requires a <= b
    ensures Pow2(a) <= Pow2(b)
    decreases b
  {
    if a < b {
      Pow2Grows(a, b - 1);
    }
  }

  /** The delay before attempt k is 100 µs doubled k - 2 times, capped at one second. */
  lemma DelayLaw(attempt: nat)
    requires 2 <= attempt <= U32_MAX
    ensures AttemptDelay(attempt) == Min(1_000_000, 100 * Pow2(attempt - 2))
    ensures AttemptDelay(attempt) == 1_000_000 <==> attempt >= 16
  {
    assert Pow2(13) == 8192 by {
      assert Pow2(6) == 64;
    }
    assert Pow2(14) == 16384;
    if attempt >= 16 {
      Pow2Grows(14, attempt - 2);
    } else {
      Pow2Grows(attempt - 2, 13);
    }
  }

  /** Total sleep before attempts 2 up to `last`. */
  function TotalDelay(last: nat): nat {
    if last < 2 then 0 else TotalDelay(last - 1) + Min(1_000_000, 100 * Pow2(last - 2))
  }

  // ── The loop ───────────────────────────────────────────────────────────────

  /** The outcome of one non-blocking send: an error has a kind and maybe an OS code. */
  datatype Outcome = Sent | Failed(wouldBlock: bool, rawOsError: Option<int>)

  /** `is_buffer_full`: EAGAIN, or ENOBUFS on Linux (105) or macOS and BSD (55). */
  predicate IsBufferFull(o: Outcome) {
    o.Failed? && (o.wouldBlock || o.rawOsError == Some(105) || o.rawOsError == Some(55))
  }

  /** The outcomes after which a send is tried again. */
  predicate IsRetryable(o: Outcome) {
    match o
    case Sent => false
    case Failed(wouldBlock, code) => wouldBlock || code in {Some(105), Some(55)}
  }

  /** What the caller sees; `Pending` when the loop is still waiting for its next outcome. */
  datatype Reply = Done(outcome: Outcome) | Pending

  /** Limits that never end the loop: zero means unlimited, and a 32-bit attempt counter that
      saturates can never exceed `u32::MAX`. */
  predicate IsUnlimited(maxAttempts: nat) {
    maxAttempts == 0 || maxAttempts >= 4_294_967_295
  }

  /** The first `n` outcomes, or all of them when there are fewer, are buffer-full. */
  predicate AllFull(outcomes: seq<Outcome>, n: nat) {
    forall i :: 0 <= i < n && i < |outcomes| ==> IsRetryable(outcomes[i])
  }

  /** What the retry policy promises, without reference to how it loops: `tries` sends were
      made, all but the last buffer-full. */
  predicate IsAnswer(maxAttempts: nat, outcomes: seq<Outcome>, reply: Reply, tries: nat, slept: nat) {
    && tries <= |outcomes|
    && (!IsUnlimited(maxAttempts) ==> tries <= maxAttempts)
    && match reply
       case Done(o) =>
         && tries >= 1 && AllFull(outcomes, tries - 1) && o == outcomes[tries - 1]
         && (IsRetryable(o) ==> !IsUnlimited(maxAttempts) && tries == maxAttempts)
         && slept == TotalDelay(tries)
       case Pending =>
         && tries == |outcomes| && AllFull(outcomes, tries)
         && (!IsUnlimited(maxAttempts) ==> tries < maxAttempts)
         && slept == TotalDelay(tries + 1)
  }

  /** The promise determines the answer. */
  lemma AnswerIsUnique(
    maxAttempts: nat, outcomes: seq<Outcome>, r: Reply, tries: nat, slept: nat, r': Reply, tries': nat, slept': nat)
    requires IsAnswer(maxAttempts, outcomes, r, tries, slept)
    requires IsAnswer(maxAttempts, outcomes, r', tries', slept')
    ensures r == r' && tries == tries' && slept == slept'
  {
  }

  /** A saturated attempt counter still gives the delay of the true attempt. */
  lemma SaturatedDelay(k: nat, attempt: nat)
    requires k >= 2 && attempt == Min(k, U32_MAX)
    ensures AttemptDelay(attempt) == Min(1_000_000, 100 * Pow2(k - 2))
  {
    DelayLaw(attempt);
    if k > U32_MAX {
      assert Pow2(14) == 16384 by {
        assert Pow2(7) == 128;
      }
      Pow2Grows(14, k - 2);
    }
  }

  /** `send_dgram_with_retry` over the outcomes its sends will have. */
  method SendDgramWithRetry(outcomes: seq<Outcome>, maxAttempts: nat)
    returns (reply: Reply, tries: nat, slept: nat)
    requires maxAttempts <= U32_MAX
    ensures IsAnswer(maxAttempts, outcomes, reply, tries, slept)
  {
    tries, slept := 0, 0;
    if |outcomes| == 0 {
      return Pending, 0, 0;
    }
    var lastErr := outcomes[0];
    tries := 1;
    if !IsBufferFull(lastErr) {
      return Done(lastErr), 1, 0;
    }
    var attempt := 2;
    while true
      invariant 1 <= tries <= |outcomes| && AllFull(outcomes, tries)
      invariant lastErr == outcomes[tries - 1]
      invariant slept == TotalDelay(tries)
      invariant attempt == Min(tries + 1, U32_MAX)
      invariant !IsUnlimited(maxAttempts) ==> tries <= maxAttempts
      decreases |outcomes| - tries
    {
      if maxAttempts != 0 && attempt > maxAttempts {
        break;
      }
      slept := slept + AttemptDelay(attempt);
      DelayLaw(attempt);
      SaturatedDelay(tries + 1, attempt);
      if tries == |outcomes| {
        return Pending, tries, slept;
      }
      var o := outcomes[tries];
      tries := tries + 1;
      if !IsBufferFull(o) {
        return Done(o), tries, slept;
      }
      lastErr := o;
      attempt := Min(attempt + 1, U32_MAX);
    }
    return Done(lastErr), tries, slept;
  }

  // ── Forwarding ─────────────────────────────────────────────────────────────

  datatype DgramExhausted = Drop | Terminate

  /** The shutdown token shared with the rest of the daemon. */
  class CancellationToken {
    var cancelled: bool

    constructor ()
      ensures !cancelled
    {
      cancelled := false;
    }

    method Cancel()
      modifies this
      ensures cancelled
    {
      cancelled := true;
    }
  }

  /** Every send the limit allows was made, and each one found the buffer full. */
  predicate IsExhausted(maxAttempts: nat, outcomes: seq<Outcome>) {
    !IsUnlimited(maxAttempts) && |outcomes| >= maxAttempts && AllFull(outcomes, maxAttempts)
  }

  /** The datagram branch of `Forwarder::forward`. */
  method ForwardDgram(
    outcomes: seq<Outcome>, maxAttempts: nat, mode: DgramExhausted, token: CancellationToken?)
    returns (reply: Reply)
    requires maxAttempts <= U32_MAX
    modifies token
    ensures exists tries: nat, slept: nat :: IsAnswer(maxAttempts, outcomes, reply, tries, slept)
    ensures token != null ==>
              token.cancelled == (old(token.cancelled) || (mode == Terminate && IsExhausted(maxAttempts, outcomes)))
  {
    var tries, slept;
    reply, tries, slept := SendDgramWithRetry(outcomes, maxAttempts);
    if reply.Done? && IsBufferFull(reply.outcome) {
      if mode == Terminate {
        if token != null {
          token.Cancel();
        }
      }
    }
  }
}
