/** `batch_reproduce`: how many workers run at once, and how long one waits for its lease. */
module BatchPlan {
  import opened Wrappers

  // ----- Parallelism -----

  function Min(a: int, b: int): int {
    if a < b then a else b
  }

  function Max(a: int, b: int): int {
    if a < b then b else a
  }

  /** The pool size, or `None` when no card is free. `gpusPerRun` is `None` for `auto`. */
  function Parallelism(free: nat, gpusPerRun: Option<nat>, papers: nat, maxParallel: Option<int>): (r: Option<int>)
    requires gpusPerRun.Some? ==> gpusPerRun.value >= 1
  {
    if free == 0 then None
    else
      var derived := match gpusPerRun
        case None => 1
        case Some(g) => Min(Max(1, free / g), papers);
      var capped := match maxParallel
        case None => derived
        case Some(m) => Min(Min(derived, m), papers);
      Some(Max(1, capped))
  }

  /** The pool never wants more cards than are free, unless even one run does not fit; it is
      never empty, and exceeds neither the number of papers nor a positive cap; and with a number of
      cards for each run, one more worker would break one of these limits. */
  lemma PoolFits(free: nat, gpusPerRun: Option<nat>, papers: nat, maxParallel: Option<int>)
    requires gpusPerRun.Some? ==> gpusPerRun.value >= 1
    ensures var r := Parallelism(free, gpusPerRun, papers, maxParallel);
      && (r.None? <==> free == 0)
      && (r.Some? ==>
            && r.value >= 1
            && (papers >= 1 ==> r.value <= papers)
            && (maxParallel.Some? && maxParallel.value >= 1 ==> r.value <= maxParallel.value)
            && (gpusPerRun.None? ==> r.value == 1)
            && (gpusPerRun.Some? ==> r.value * gpusPerRun.value <= free || r.value == 1)
            && (gpusPerRun.Some? ==>
                  (r.value + 1) * gpusPerRun.value > free || r.value + 1 > papers
                  || (maxParallel.Some? && r.value + 1 > maxParallel.value)))
  {
    if gpusPerRun.Some? && free > 0 {
      var g := gpusPerRun.value;
      var r := Parallelism(free, gpusPerRun, papers, maxParallel).value;
      var slots := free / g;
      OneSlotMore(free, g, r);
      if r > 1 {
        assert r <= slots;
        assert r * g <= slots * g <= free by {
          assert slots * g - r * g == (slots - r) * g;
          assert (slots - r) * g >= 0;
        }
      }
    }
  }

  lemma OneSlotMore(free: nat, g: nat, r: int)
    requires g >= 1
    ensures r >= free / g ==> (r + 1) * g > free
  {
    if r >= free / g {
      assert (r + 1) * g == (free / g + 1) * g + (r - free / g) * g;
      assert (r - free / g) * g >= 0;
      assert (free / g) * g + free % g == free;
    }
  }

  // ----- The acquire loop -----

  const ACQUIRE_TIMEOUT := 1800
  const SLEEP_BASE := 5
  const SLEEP_MAX := 60

  /** The pause after attempt `i` (from 0). */
  function Pause(i: nat): (p: int)
    ensures SLEEP_BASE <= p <= SLEEP_MAX
  {
    if i == 0 then SLEEP_BASE else Min(2 * Pause(i - 1), SLEEP_MAX)
  }

  /** All pauses of the first `n` attempts. */
  function Paused(n: nat): int {
    if n == 0 then 0 else Paused(n - 1) + Pause(n - 1)
  }

  /** The pauses double from 5 up to 60 seconds, and stay there. */
  lemma {:induction false} PauseCap(i: nat)
    requires i >= 4
    ensures Pause(i) == SLEEP_MAX
  {
    if i == 4 {
      assert Pause(1) == 10 && Pause(2) == 20 && Pause(3) == 40;
    } else {
      PauseCap(i - 1);
    }
  }

  lemma {:induction false} PausedTotal(n: nat)
    requires n >= 4
    ensures Paused(n) == 75 + 60 * (n - 4)
  {
    if n == 4 {
      assert Pause(1) == 10 && Pause(2) == 20 && Pause(3) == 40;
      assert Paused(1) == 5 && Paused(2) == 15 && Paused(3) == 35;
    } else {
      PausedTotal(n - 1);
      PauseCap(n - 1);
    }
  }

  /** The time that `n` attempts take, each with the pause behind it. */
  function Elapsed(cost: nat -> nat, n: nat): int {
    if n == 0 then 0 else Elapsed(cost, n - 1) + cost(n - 1) + Pause(n - 1)
  }

  lemma NothingElapsed(cost: nat -> nat)
    ensures Elapsed(cost, 0) == 0 == Paused(0) && Pause(0) == SLEEP_BASE
  {
  }

  lemma PauseStep(cost: nat -> nat, i: nat)
    ensures Pause(i + 1) == Min(Pause(i) * 2, SLEEP_MAX) && Paused(i + 1) == Paused(i) + Pause(i)
    ensures Elapsed(cost, i + 1) == Elapsed(cost, i) + cost(i) + Pause(i)
  {
  }

  datatype Wait = Granted | TimedOut | ShuttingDown

  /** Before attempt `i` the shutdown flag is `stopping(i)`; the attempt succeeds when `ready(i)`,
      and takes `cost(i)` seconds. Returns the number of attempts made and the time spent. Every attempt
      begins within half an hour. */
  method WaitForLease(stopping: nat -> bool, ready: nat -> bool, cost: nat -> nat)
    returns (r: Wait, attempts: nat, now: int)
    ensures forall i :: 0 <= i < attempts ==> !stopping(i)
    ensures forall i :: 0 <= i < attempts - 1 ==> !ready(i)
    ensures r.Granted? <==> attempts >= 1 && ready(attempts - 1)
    ensures r.ShuttingDown? ==> stopping(attempts) && now < 1800
    ensures r.TimedOut? ==> now >= 1800
    ensures now == if r.Granted? then Elapsed(cost, attempts - 1) + cost(attempts - 1) else Elapsed(cost, attempts)
    ensures attempts > 0 ==> Elapsed(cost, attempts - 1) < 1800
    ensures attempts <= 33
  {
    hide Paused, Pause, Elapsed, Min;
    NothingElapsed(cost);
    r, attempts, now := TimedOut, 0, 0;
    var sleep := SLEEP_BASE;
    while now < ACQUIRE_TIMEOUT
      invariant r.TimedOut?
      invariant forall i :: 0 <= i < attempts ==> !stopping(i) && !ready(i)
      invariant sleep == Pause(attempts)
      invariant now == Elapsed(cost, attempts) >= Paused(attempts)
      invariant attempts > 0 ==> Elapsed(cost, attempts - 1) < ACQUIRE_TIMEOUT
      invariant attempts <= 33
      decreases ACQUIRE_TIMEOUT - now
    {
      if attempts >= 4 {
        PausedTotal(attempts);
      }
      if stopping(attempts) {
        r := ShuttingDown;
        return;
      }
      now := now + cost(attempts);
      attempts := attempts + 1;
      if ready(attempts - 1) {
        r := Granted;
        return;
      }
      now := now + sleep;
      sleep := Min(sleep * 2, SLEEP_MAX);
      PauseStep(cost, attempts - 1);
    }
  }
}
