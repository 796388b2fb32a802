/** Retrying with back-off: how often a task is called, what comes out, and how long it waits. */
module Backoff {
  datatype Outcome<V, E> = Success(value: V) | Failure(error: E)

  function Pow2(n: nat): nat {
    if n == 0 then 1 else 2 * Pow2(n - 1)
  }

  /** The wait before the retry made at `depth`, in milliseconds. */
  function Delay(depth: nat): nat {
    if Pow2(depth) * 100 > 1000 then Pow2(depth) * 100 else 1000
  }

  /** The waits of `n` retries in a row, the first at `depth`. */
  function TotalDelay(depth: nat, n: nat): nat {
    if n == 0 then 0 else TotalDelay(depth, n - 1) + Delay(depth + n - 1)
  }

  // ---------------------------------------------------------------- the object

  class Backoff<V, E> {
    const maxDepth: int
    const shouldRetry: E -> bool
    var depth: nat
    var waited: nat

    constructor (maxDepth: int, shouldRetry: E -> bool)
      ensures this.maxDepth == maxDepth && this.shouldRetry == shouldRetry && depth == 0 && waited == 0
    {
      this.maxDepth, this.shouldRetry, this.depth, this.waited := maxDepth, shouldRetry, 0, 0;
    }

    /** `task(k)` is the outcome of the k-th call; returns the outcome and how many calls the
        task has seen. */
    method Execute(task: nat -> Outcome<V, E>, done: nat) returns (r: Outcome<V, E>, calls: nat)
      modifies this
      ensures done < calls && r == task(calls - 1)
      ensures forall k :: done <= k < calls - 1 ==> task(k).Failure? && shouldRetry(task(k).error)
      ensures r.Success? || !shouldRetry(r.error) || depth >= maxDepth
      ensures depth == old(depth) + (calls - 1 - done)
      ensures depth <= maxDepth || depth == old(depth)
      ensures waited == old(waited) + TotalDelay(old(depth), calls - 1 - done)
      decreases maxDepth - depth, 1
    {
      r, calls := task(done), done + 1;
      if r.Failure? && shouldRetry(r.error) && depth < maxDepth {
        r, calls := Retry(task, done + 1);
      }
    }

    method Retry(task: nat -> Outcome<V, E>, done: nat) returns (r: Outcome<V, E>, calls: nat)
      requires depth < maxDepth
      modifies this
      ensures done < calls && r == task(calls - 1)
      ensures forall k :: done <= k < calls - 1 ==> task(k).Failure? && shouldRetry(task(k).error)
      ensures r.Success? || !shouldRetry(r.error) || depth >= maxDepth
      ensures depth == old(depth) + (calls - done) <= maxDepth
      ensures waited == old(waited) + TotalDelay(old(depth), calls - done)
      decreases maxDepth - depth, 0
    {
      waited := waited + Delay(depth);
      depth := depth + 1;
      r, calls := Execute(task, done);
      SplitDelay(old(depth), calls - 1 - done);
    }
  }

  lemma {:induction false} SplitDelay(depth: nat, n: nat)
    ensures TotalDelay(depth, n + 1) == Delay(depth) + TotalDelay(depth + 1, n)
  {
    if n > 0 {
      SplitDelay(depth, n - 1);
    } else {
      assert TotalDelay(depth, 0) == 0 && TotalDelay(depth + 1, 0) == 0;
    }
  }

  // ---------------------------------------------------------------- main results

  lemma {:induction false} Pow2Grows(n: nat)
    requires n >= 4
    ensures Pow2(n) >= 16
  {
    if n == 4 {
      assert Pow2(1) == 2 && Pow2(2) == 4 && Pow2(3) == 8;
    } else {
      Pow2Grows(n - 1);
    }
  }

  /** On a fresh instance n retries wait one second each up to the fourth, and
      2400 + 100 * 2^n milliseconds in all from there on. */
  lemma {:induction false} TotalWaitFormula(n: nat)
    ensures n <= 4 ==> TotalDelay(0, n) == 1000 * n
    ensures n >= 4 ==> TotalDelay(0, n) == 2400 + 100 * Pow2(n)
  {
    assert Pow2(0) == 1 && Pow2(1) == 2 && Pow2(2) == 4 && Pow2(3) == 8 && Pow2(4) == 16;
    if n > 0 {
      TotalWaitFormula(n - 1);
      if n > 4 {
        Pow2Grows(n - 1);
      }
    }
  }

  /** A fresh instance calls its task at most maxDepth + 1 times and hands out the first success,
      or the first error that is not to be retried, or the one that used up the budget. */
  method RunFresh<V, E>(maxDepth: nat, shouldRetry: E -> bool, task: nat -> Outcome<V, E>)
      returns (r: Outcome<V, E>, calls: nat, waited: nat)
    ensures 1 <= calls <= maxDepth + 1 && r == task(calls - 1)
    ensures forall k :: 0 <= k < calls - 1 ==> task(k).Failure? && shouldRetry(task(k).error)
    ensures r.Success? || !shouldRetry(r.error) || calls == maxDepth + 1
    ensures waited == if calls <= 5 then 1000 * (calls - 1) else 2400 + 100 * Pow2(calls - 1)
  {
    var b := new Backoff(maxDepth, shouldRetry);
    r, calls := b.Execute(task, 0);
    waited := b.waited;
    TotalWaitFormula(calls - 1);
  }

  /** Used again and again, one instance retries at most maxDepth times in all: the budget is
      not renewed. */
  method RunAll<V, E>(b: Backoff<V, E>, tasks: seq<nat -> Outcome<V, E>>) returns (retries: nat)
    requires b.depth == 0 && b.maxDepth >= 0
    modifies b
    ensures retries == b.depth <= b.maxDepth
    ensures b.waited == old(b.waited) + TotalDelay(0, retries)
  {
    retries := 0;
    for i := 0 to |tasks|
      invariant retries == b.depth <= b.maxDepth
      invariant b.waited == old(b.waited) + TotalDelay(0, retries)
    {
      var _, calls := b.Execute(tasks[i], 0);
      JoinDelay(retries, calls - 1);
      retries := retries + (calls - 1);
    }
  }

  /** A use whose task keeps failing with retryable errors makes exactly the retries left, so the
      whole budget comes exactly on the first use. */
  method UseUp<V, E>(b: Backoff<V, E>, task: nat -> Outcome<V, E>) returns (retries: nat)
    requires forall k :: task(k).Failure? && b.shouldRetry(task(k).error)
    modifies b
    ensures retries == if b.maxDepth > old(b.depth) then b.maxDepth - old(b.depth) else 0
    ensures b.maxDepth > 0 ==> (retries == b.maxDepth <==> old(b.depth) == 0)
  {
    var r, calls := b.Execute(task, 0);
    retries := calls - 1;
  }

  lemma {:induction false} JoinDelay(a: nat, n: nat)
    ensures TotalDelay(0, a) + TotalDelay(a, n) == TotalDelay(0, a + n)
  {
    if n > 0 {
      JoinDelay(a, n - 1);
    }
  }
}
