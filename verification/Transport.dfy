/** `execute_with_retry`. The operation is a state-passing function: it carries
    the remote side in and out, so a retried call sees the effects of the calls
    before it. */
module Transport {

  /** `TransportPolicy`: retries after the first call, and the pause before each. */
  datatype TransportPolicy = TransportPolicy(maxRetries: nat, backoff: real)

  /** One call of the operation. The error is its transport category. */
  datatype Attempt<V> = Returned(value: V) | Raised(category: string)

  /** What the caller of `execute_with_retry` sees. */
  datatype Outcome<V> = Done(value: V) | Failed(category: string) | Exhausted

  predicate IsRetryableCategory(category: string) {
    category in {"timeout", "network", "transient_service_failure", "remote_5xx", "remote_429"}
  }

  predicate RetryableFailure<V>(a: Attempt<V>) { a.Raised? && IsRetryableCategory(a.category) }

  /** The state the i-th call starts from, if that many calls are made. */
  ghost function StateBefore<S, V>(op: S -> (S, Attempt<V>), s: S, i: nat): S {
    if i == 0 then s else op(StateBefore(op, s, i - 1)).0
  }

  ghost function AttemptAt<S, V>(op: S -> (S, Attempt<V>), s: S, i: nat): Attempt<V> {
    op(StateBefore(op, s, i)).1
  }

  /** The retry contract, without saying how the loop runs: every call but the
      last was a retryable failure; the last is a success, a non-retryable error
      passed on unchanged, or the retryable failure that used up the budget. */
  ghost predicate RetriedTo<S, V>(op: S -> (S, Attempt<V>), s0: S, maxRetries: nat,
                                  s: S, r: Outcome<V>, calls: nat) {
    && 1 <= calls <= maxRetries + 1
    && s == StateBefore(op, s0, calls)
    && (forall i :: 0 <= i < calls - 1 ==> RetryableFailure(AttemptAt(op, s0, i)))
    && match r {
         case Done(v) => AttemptAt(op, s0, calls - 1) == Returned(v)
         case Failed(c) => AttemptAt(op, s0, calls - 1) == Raised(c) && !IsRetryableCategory(c)
         case Exhausted => calls == maxRetries + 1 && RetryableFailure(AttemptAt(op, s0, calls - 1))
       }
  }

  method ExecuteWithRetry<S, V>(op: S -> (S, Attempt<V>), s0: S, policy: TransportPolicy)
    returns (s: S, r: Outcome<V>, calls: nat, sleeps: nat)
    ensures RetriedTo(op, s0, policy.maxRetries, s, r, calls)
    ensures sleeps == if policy.backoff > 0.0 then calls - 1 else 0
  {
    var attempts := 0;
    s, sleeps := s0, 0;
    while true
      invariant 0 <= attempts <= policy.maxRetries
      invariant s == StateBefore(op, s0, attempts)
      invariant forall i :: 0 <= i < attempts ==> RetryableFailure(AttemptAt(op, s0, i))
      invariant sleeps == if policy.backoff > 0.0 then attempts else 0
      decreases policy.maxRetries - attempts
    {
      var (next, result) := op(s);
      s := next;
      match result {
        case Returned(v) => return s, Done(v), attempts + 1, sleeps;
        case Raised(category) =>
          if !IsRetryableCategory(category) {
            return s, Failed(category), attempts + 1, sleeps;
          }
          if attempts >= policy.maxRetries {
            return s, Exhausted, attempts + 1, sleeps;
          }
          attempts := attempts + 1;
          if policy.backoff > 0.0 {
            sleeps := sleeps + 1;
          }
      }
    }
  }

  /** The contract leaves no freedom: the sequence of call outcomes determines
      the result, the number of calls and the final state. */
  lemma RetryIsDetermined<S, V>(op: S -> (S, Attempt<V>), s0: S, maxRetries: nat,
                                s: S, r: Outcome<V>, calls: nat, s': S, r': Outcome<V>, calls': nat)
    requires RetriedTo(op, s0, maxRetries, s, r, calls)
    requires RetriedTo(op, s0, maxRetries, s', r', calls')
    ensures s == s' && r == r' && calls == calls'
  {
  }

  /** Exhaustion happens exactly when the first maxRetries + 1 calls would all
      fail retryably. */
  lemma ExhaustedIff<S, V>(op: S -> (S, Attempt<V>), s0: S, maxRetries: nat, s: S, r: Outcome<V>, calls: nat)
    requires RetriedTo(op, s0, maxRetries, s, r, calls)
    ensures r.Exhausted? <==> forall i :: 0 <= i <= maxRetries ==> RetryableFailure(AttemptAt(op, s0, i))
  {
  }

  /** A failure worth another call. */
  ghost predicate WorthRetrying<V>(a: Attempt<V>) {
    a.Raised? && a.category in {"timeout", "network", "transient_service_failure", "remote_5xx", "remote_429"}
  }

  /** The n-th call is the first that is not worth a retry, within the budget. */
  ghost predicate SettledBy<S, V>(op: S -> (S, Attempt<V>), s0: S, maxRetries: nat, n: nat) {
    n <= maxRetries && !WorthRetrying(AttemptAt(op, s0, n))
    && forall i :: 0 <= i < n ==> WorthRetrying(AttemptAt(op, s0, i))
  }

  /** The whole outcome, from what each call comes to: the first call that is not
      worth a retry is the last one and its value or error is passed on; without
      one within the budget, the budget is used up. */
  lemma SettledIff<S, V>(op: S -> (S, Attempt<V>), s0: S, maxRetries: nat, s: S, r: Outcome<V>, calls: nat)
    requires RetriedTo(op, s0, maxRetries, s, r, calls)
    ensures forall n: nat :: SettledBy(op, s0, maxRetries, n) <==> calls == n + 1 && !r.Exhausted?
    ensures forall v :: r == Done(v) <==>
      exists n: nat :: SettledBy(op, s0, maxRetries, n) && AttemptAt(op, s0, n) == Returned(v)
    ensures forall c :: r == Failed(c) <==>
      exists n: nat :: SettledBy(op, s0, maxRetries, n) && AttemptAt(op, s0, n) == Raised(c)
    ensures r.Exhausted? <==> forall i :: 0 <= i <= maxRetries ==> WorthRetrying(AttemptAt(op, s0, i))
  {
    if !r.Exhausted? { assert SettledBy(op, s0, maxRetries, calls - 1); }
    assert forall i :: 0 <= i < calls - 1 ==> WorthRetrying(AttemptAt(op, s0, i));
  }
}
