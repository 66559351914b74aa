/** helpers/retrier.go: retrying with an exponential backoff. */
module Retrier {
  import opened Wrappers

  function Pow2(k: nat): (p: nat)
    ensures p >= 1
  {
    if k == 0 then 1 else 2 * Pow2(k - 1)
  }

  const INT64_LIMIT: nat := 0x8000_0000_0000_0000
  /** The value of a signed 64-bit variable after arithmetic that gave x. */
  function Wrap64(x: int): int {
    var low := x % UINT64_LIMIT;
    if low < INT64_LIMIT then low else low - UINT64_LIMIT
  }

  /** NextTick: (1 << retryCount) * baseDelay, in 64-bit arithmetic. */
  function NextTick(retryCount: nat, baseDelay: int): int {
    Wrap64(Wrap64(Pow2(retryCount)) * baseDelay)
  }

  /** What the k-th turn meets: the context ends during the wait, or the call is made. */
  datatype Attempt<E> = ContextDone | Called(result: Option<E>)

  datatype RetryError<E> = ContextError | LastError(error: E)

  /** How many attempts are made: up to the first that does not fail, or all of them. */
  function Made<E>(attempts: seq<Attempt<E>>): (m: nat)
    ensures m <= |attempts|
    ensures forall i | 0 <= i < m - 1 :: attempts[i].Called? && attempts[i].result.Some?
    ensures m < |attempts| ==> m > 0 && !(attempts[m - 1].Called? && attempts[m - 1].result.Some?)
  {
    if attempts == [] then 0
    else if attempts[0].Called? && attempts[0].result.Some? then 1 + Made(attempts[1..])
    else 1
  }

  /**
   Retry. `waits[k]` is the delay before attempt k. The result is nil when there is nothing to
   retry, although no call was made.
   */
  method Retry<E>(retriesNumber: int, baseDelay: int, attempts: seq<Attempt<E>>)
    returns (err: Option<RetryError<E>>, waits: seq<int>)
    requires |attempts| == if retriesNumber > 0 then retriesNumber else 0
    ensures |waits| == Made(attempts)
    ensures forall k | 0 <= k < |waits| :: waits[k] == NextTick(k, baseDelay)
    ensures attempts == [] ==> err.None?
    ensures attempts != [] ==>
              match attempts[|waits| - 1]
              case ContextDone => err == Some(ContextError)
              case Called(None) => err.None?
              case Called(Some(e)) => err == Some(LastError(e))
  {
    err, waits := None, [];
    var i := 0;
    while i < retriesNumber
      invariant 0 <= i <= |attempts| && |waits| == i
      invariant forall k | 0 <= k < i :: waits[k] == NextTick(k, baseDelay)
      invariant forall k | 0 <= k < i :: attempts[k].Called? && attempts[k].result.Some?
      invariant i == 0 ==> err.None?
      invariant i > 0 ==> err == Some(LastError(attempts[i - 1].result.value))
    {
      waits := waits + [NextTick(i, baseDelay)];
      match attempts[i] {
        case ContextDone =>
          err := Some(ContextError);
          MadeIs(attempts, i + 1);
          return;
        case Called(result) =>
          if result.None? {
            err := None;
            MadeIs(attempts, i + 1);
            return;
          }
          err := Some(LastError(result.value));
      }
      i := i + 1;
    }
    MadeIs(attempts, i);
  }

  lemma {:induction false} MadeIs<E>(attempts: seq<Attempt<E>>, m: nat)
    requires m <= |attempts|
    requires forall k | 0 <= k < m - 1 :: attempts[k].Called? && attempts[k].result.Some?
    requires m < |attempts| ==> m > 0
    requires m > 0 && attempts[m - 1].Called? && attempts[m - 1].result.Some? ==> m == |attempts|
    ensures Made(attempts) == m
  {
    if m > 1 {
      MadeIs(attempts[1..], m - 1);
    } else if m == 1 {
      assert attempts[0].Called? && attempts[0].result.Some? ==> attempts[1..] == [];
    }
  }

  /** Without cancellation, Retry succeeds exactly if one of the calls it could make succeeds. */
  lemma SucceedsIff<E>(attempts: seq<Attempt<E>>)
    requires attempts != [] && forall a | a in attempts :: a.Called?
    ensures Made(attempts) > 0
    ensures attempts[Made(attempts) - 1] == Called(None) <==> Called(None) in attempts
  {
  }

  /** The total of the delays before attempt k. */
  function Waited(k: nat, baseDelay: int): int {
    if k == 0 then 0 else Waited(k - 1, baseDelay) + NextTick(k - 1, baseDelay)
  }

  /**
   Before the (k+1)-th call Retry has waited (2^(k+1) - 1) times the base delay, and no delay
   overflows, as long as that total for the last call fits 64 bits.
   */
  lemma {:induction false} TotalBackoff(n: nat, k: nat, baseDelay: nat)
    requires k <= n && (Pow2(n) - 1) * baseDelay < INT64_LIMIT
    ensures Waited(k, baseDelay) == (Pow2(k) - 1) * baseDelay
    ensures k < n ==> NextTick(k, baseDelay) == Pow2(k) * baseDelay
  {
    hide NextTick;
    if k < n {
      DelayFits(n, k, baseDelay);
    }
    if k > 0 {
      DelayFits(n, k - 1, baseDelay);
      TotalBackoff(n, k - 1, baseDelay);
      Doubling(Pow2(k - 1), baseDelay);
    }
  }

  lemma Doubling(p: nat, b: nat)
    ensures (p - 1) * b + p * b == (2 * p - 1) * b
  {
  }

  lemma WrapsNothing(x: nat)
    requires x < INT64_LIMIT
    ensures Wrap64(x) == x
  {
  }

  lemma Pow2Grows(k: nat, n: nat)
    requires k <= n
    ensures Pow2(k) <= Pow2(n)
  {
    if k < n {
      Pow2Grows(k, n - 1);
    }
  }

  lemma DelayFits(n: nat, k: nat, baseDelay: nat)
    requires k < n && (Pow2(n) - 1) * baseDelay < INT64_LIMIT
    ensures NextTick(k, baseDelay) == Pow2(k) * baseDelay
  {
    if baseDelay == 0 {
      return;
    }
    Pow2Grows(k + 1, n);
    var p := Pow2(k);
    Monotone(p, Pow2(n) - 1, baseDelay);
    Monotone(1, baseDelay, p);
    WrapsNothing(p);
    WrapsNothing(p * baseDelay);
  }

  lemma Monotone(a: nat, b: nat, c: nat)
    requires a <= b
    ensures a * c <= b * c && c * a <= c * b
  {
    assert b * c == a * c + (b - a) * c;
  }
}
