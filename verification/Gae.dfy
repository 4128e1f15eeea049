/** The backward advantage loop of the generated PPO trainer (generalized advantage
    estimation), for the column of one environment, over the reals. */
module Gae {

  /** The buffers of one rollout. `dones[t]` is the flag observed before step `t`, and
      `done`, `nextValue` belong to the state after the last step. */
  datatype Rollout = Rollout(
    rewards: seq<real>, values: seq<real>, dones: seq<bool>,
    done: bool, nextValue: real, gamma: real, lambda: real)
  {
    ghost predicate Valid() {
      |rewards| == |values| == |dones|
    }

    function Steps(): nat {
      |rewards|
    }

    /** Step `t` ended its episode. */
    predicate Ended(t: nat)
      requires Valid() && t < Steps()
    {
      if t + 1 == Steps() then done else dones[t + 1]
    }

    /** The discount from one error to the next. */
    function Rate(): real {
      gamma * lambda
    }

    function NextValue(t: nat): real
      requires Valid() && t < Steps()
    {
      if t + 1 == Steps() then nextValue else values[t + 1]
    }

    /** The temporal-difference error of step `t`. */
    function Delta(t: nat): real
      requires Valid() && t < Steps()
    {
      rewards[t] + gamma * NextValue(t) * (if Ended(t) then 0.0 else 1.0) - values[t]
    }

    /** The last step of the episode, or of the rollout, that `t` lies in. */
    function LastStep(t: nat): (e: nat)
      requires Valid() && t < Steps()
      ensures t <= e < Steps()
      ensures Ended(e) || e + 1 == Steps()
      ensures forall i :: t <= i < e ==> !Ended(i)
      decreases Steps() - t
    {
      if Ended(t) || t + 1 == Steps() then t else LastStep(t + 1)
    }
  }

  function Pow(c: real, n: nat): real {
    if n == 0 then 1.0 else c * Pow(c, n - 1)
  }

  /** `f[t] + c * f[t + 1] + ... + c^(n - 1) * f[t + n - 1]` */
  ghost function Discounted(f: seq<real>, c: real, t: nat, n: nat): real
    requires t + n <= |f|
  {
    if n == 0 then 0.0 else Discounted(f, c, t, n - 1) + Pow(c, n - 1) * f[t + n - 1]
  }

  ghost function Deltas(r: Rollout): (f: seq<real>)
    requires r.Valid()
    ensures |f| == r.Steps()
  {
    seq(r.Steps(), t requires 0 <= t < r.Steps() => r.Delta(t))
  }

  /** The estimator by its definition: the discounted sum of the errors from `t` to the end
      of the episode. */
  ghost function Advantage(r: Rollout, t: nat): real
    requires r.Valid() && t < r.Steps()
  {
    Discounted(Deltas(r), r.Rate(), t, r.LastStep(t) - t + 1)
  }

  lemma DiscountedLast(f: seq<real>, c: real, t: nat, n: nat)
    requires 0 < n && t + n <= |f|
    ensures Discounted(f, c, t, n) == Discounted(f, c, t, n - 1) + Pow(c, n - 1) * f[t + n - 1]
    ensures Pow(c, n) == c * Pow(c, n - 1)
  {
  }

  lemma {:induction false} DiscountedHead(f: seq<real>, c: real, t: nat, n: nat)
    requires n > 0 && t + n <= |f|
    ensures Discounted(f, c, t, n) == f[t] + c * Discounted(f, c, t + 1, n - 1)
  {
    if n == 1 {
      assert Discounted(f, c, t, 1) == Discounted(f, c, t, 0) + Pow(c, 0) * f[t];
    } else {
      DiscountedHead(f, c, t, n - 1);
      assert Discounted(f, c, t + 1, n - 1) == Discounted(f, c, t + 1, n - 2) + Pow(c, n - 2) * f[t + n - 1];
      assert Pow(c, n - 1) * f[t + n - 1] == c * (Pow(c, n - 2) * f[t + n - 1]);
    }
  }

  /** One backward step of the estimator, over the buffers. The step ends its episode by the flag that
      the next step begins with, and by `done` behind the last one. */
  lemma AdvantageStep(r: Rollout, t: nat)
    requires r.Valid() && t < r.Steps()
    ensures var last := t + 1 == |r.rewards|;
      var ended := if last then r.done else r.dones[t + 1];
      var next := if last then r.nextValue else r.values[t + 1];
      Advantage(r, t) == r.rewards[t] + r.gamma * next * (if ended then 0.0 else 1.0) - r.values[t]
        + r.gamma * r.lambda * (if ended || last then 0.0 else Advantage(r, t + 1))
  {
    AdvantageFromDelta(r, t);
  }

  lemma AdvantageFromDelta(r: Rollout, t: nat)
    requires r.Valid() && t < r.Steps()
    ensures Advantage(r, t) == r.Delta(t)
      + r.Rate() * (if r.Ended(t) || t + 1 == r.Steps() then 0.0 else Advantage(r, t + 1))
  {
    hide Rollout.Delta, Rollout.Rate;
    var f, c := Deltas(r), r.Rate();
    var n := r.LastStep(t) - t + 1;
    DiscountedHead(f, c, t, n);
    assert f[t] == r.Delta(t);
    if r.Ended(t) || t + 1 == r.Steps() {
      assert Discounted(f, c, t + 1, 0) == 0.0;
    } else {
      assert r.LastStep(t + 1) == r.LastStep(t);
      assert Advantage(r, t + 1) == Discounted(f, c, t + 1, n - 1);
    }
  }

  /** The in-place reverse loop computes the estimator at every step. */
  method ComputeAdvantages(r: Rollout) returns (advantages: array<real>)
    requires r.Valid()
    ensures fresh(advantages) && advantages.Length == |r.rewards|
    ensures forall t :: 0 <= t < |r.rewards| ==> advantages[t] == Advantage(r, t)
  {
    hide Advantage;
    var n := |r.rewards|;
    advantages := new real[n](_ => 0.0);
    var lastGaeLam := 0.0;
    var t := n;
    while t > 0
      invariant 0 <= t <= n
      invariant forall i :: t <= i < n ==> advantages[i] == Advantage(r, i)
      invariant lastGaeLam == if t == n then 0.0 else Advantage(r, t)
    {
      t := t - 1;
      AdvantageStep(r, t);
      var nextNonterminal, nextValues;
      if t == n - 1 {
        nextNonterminal := if r.done then 0.0 else 1.0;
        nextValues := r.nextValue;
      } else {
        nextNonterminal := if r.dones[t + 1] then 0.0 else 1.0;
        nextValues := r.values[t + 1];
      }
      var delta := r.rewards[t] + r.gamma * nextValues * nextNonterminal - r.values[t];
      lastGaeLam := delta + r.gamma * r.lambda * nextNonterminal * lastGaeLam;
      advantages[t] := lastGaeLam;
    }
  }

  // ----- lambda = 1 -----

  /** What the state after the last step of the episode is worth. */
  function Bootstrap(r: Rollout, e: nat): real
    requires r.Valid() && e < r.Steps()
  {
    if r.Ended(e) then 0.0 else r.NextValue(e)
  }

  lemma {:induction false} DeltasTelescope(r: Rollout, t: nat, n: nat)
    requires r.Valid() && n > 0 && t + n <= r.Steps()
    requires forall i :: t <= i < t + n - 1 ==> !r.Ended(i)
    ensures Discounted(Deltas(r), r.gamma, t, n) + r.values[t]
      == Discounted(r.rewards, r.gamma, t, n) + Pow(r.gamma, n) * Bootstrap(r, t + n - 1)
  {
    hide Discounted, Pow, Rollout.Delta;
    var e, g := t + n - 1, Pow(r.gamma, n - 1);
    DiscountedLast(Deltas(r), r.gamma, t, n);
    DiscountedLast(r.rewards, r.gamma, t, n);
    DeltaBootstraps(r, e, g);
    if n == 1 {
      NoTerms(Deltas(r), r.gamma, t);
      NoTerms(r.rewards, r.gamma, t);
      UnitTimes(g, r.values[e]);
    } else {
      DeltasTelescope(r, t, n - 1);
      assert Bootstrap(r, e - 1) == r.values[e];
    }
  }

  lemma UnitTimes(g: real, v: real)
    ensures g == 1.0 ==> g * v == v && v * g == v
  {
  }

  lemma NoTerms(f: seq<real>, c: real, t: nat)
    requires t <= |f|
    ensures Discounted(f, c, t, 0) == 0.0 && Pow(c, 0) == 1.0
  {
  }

  lemma DeltaBootstraps(r: Rollout, e: nat, g: real)
    requires r.Valid() && e < r.Steps()
    ensures g * r.Delta(e) == g * r.rewards[e] + (r.gamma * g) * Bootstrap(r, e) - g * r.values[e]
  {
    assert r.Delta(e) == r.rewards[e] + r.gamma * Bootstrap(r, e) - r.values[e];
    Distribute(g, r.rewards[e], r.gamma, Bootstrap(r, e), r.values[e]);
  }

  lemma Distribute(g: real, a: real, c: real, b: real, v: real)
    ensures g * (a + c * b - v) == g * a + (c * g) * b - g * v
  {
    assert g * (a + c * b - v) == g * a + g * (c * b) - g * v;
    assert g * (c * b) == (c * g) * b;
  }

  /** With lambda = 1 the return `advantage + value` is the discounted reward of the rest of the episode,
      which goes on to the step `e` before the first flag, plus the bootstrapped value when the rollout
      stops inside it. */
  lemma ReturnTelescopes(r: Rollout, t: nat, e: nat)
    requires r.Valid() && t <= e < |r.rewards| && r.lambda == 1.0
    requires (forall i :: t < i <= e ==> !r.dones[i]) && (e + 1 == |r.rewards| || r.dones[e + 1])
    ensures var bootstrap := if e + 1 == |r.rewards| && !r.done then r.nextValue else 0.0;
      Advantage(r, t) + r.values[t]
        == Discounted(r.rewards, r.gamma, t, e - t + 1) + Pow(r.gamma, e - t + 1) * bootstrap
  {
    hide Discounted, Pow;
    LastStepIs(r, t, e);
    UnitTimes(r.lambda, r.gamma);
    assert r.Rate() == r.gamma;
    DeltasTelescope(r, t, e - t + 1);
  }

  lemma {:induction false} LastStepIs(r: Rollout, t: nat, e: nat)
    requires r.Valid() && t <= e < r.Steps()
    requires (forall i :: t < i <= e ==> !r.dones[i]) && (e + 1 == r.Steps() || r.dones[e + 1])
    ensures r.LastStep(t) == e && forall i :: t <= i < e ==> !r.Ended(i)
    decreases e - t
  {
    if t < e {
      LastStepIs(r, t + 1, e);
    }
  }

  // ----- Episodes do not leak -----

  /** The rollouts agree up to step `e`, the flag that ends its episode included. */
  ghost predicate AgreeThrough(a: Rollout, b: Rollout, e: nat)
    requires a.Valid() && b.Valid() && e < a.Steps() && e < b.Steps()
  {
    a.gamma == b.gamma && a.lambda == b.lambda &&
    forall i :: 0 <= i <= e ==>
      a.rewards[i] == b.rewards[i] && a.values[i] == b.values[i] && a.Ended(i) == b.Ended(i)
  }

  lemma {:induction false} SameDiscounted(f: seq<real>, g: seq<real>, c: real, t: nat, n: nat)
    requires t + n <= |f| && t + n <= |g|
    requires forall i :: t <= i < t + n ==> f[i] == g[i]
    ensures Discounted(f, c, t, n) == Discounted(g, c, t, n)
  {
    if n > 0 {
      SameDiscounted(f, g, c, t, n - 1);
    }
  }

  lemma {:induction false} SameLastStep(a: Rollout, b: Rollout, e: nat, t: nat)
    requires a.Valid() && b.Valid() && t <= e < a.Steps() && e < b.Steps()
    requires AgreeThrough(a, b, e) && a.Ended(e)
    ensures a.LastStep(t) == b.LastStep(t) <= e
    decreases e - t
  {
    if !a.Ended(t) {
      SameLastStep(a, b, e, t + 1);
    }
  }

  /** Nothing after the end of an episode affects the advantages at or before it, not even
      the values used to bootstrap or the length of the rollout: step `e` ends its episode in both, and
      up to it the buffers agree. */
  lemma EpisodesDoNotLeak(a: Rollout, b: Rollout, e: nat, t: nat)
    requires a.Valid() && b.Valid() && t <= e < |a.rewards| && e < |b.rewards|
    requires a.gamma == b.gamma && a.lambda == b.lambda
    requires a.rewards[..e + 1] == b.rewards[..e + 1] && a.values[..e + 1] == b.values[..e + 1]
    requires a.dones[1..e + 1] == b.dones[1..e + 1]
    requires if e + 1 == |a.rewards| then a.done else a.dones[e + 1]
    requires if e + 1 == |b.rewards| then b.done else b.dones[e + 1]
    ensures Advantage(a, t) == Advantage(b, t)
  {
    forall i | 0 <= i <= e
      ensures a.rewards[i] == b.rewards[i] && a.values[i] == b.values[i] && a.Ended(i) == b.Ended(i)
    {
      assert a.rewards[..e + 1][i] == b.rewards[..e + 1][i] && a.values[..e + 1][i] == b.values[..e + 1][i];
      if i < e {
        assert a.dones[1..e + 1][i] == b.dones[1..e + 1][i];
      }
    }
    NoLeak(a, b, e, t);
  }

  lemma NoLeak(a: Rollout, b: Rollout, e: nat, t: nat)
    requires a.Valid() && b.Valid() && t <= e < a.Steps() && e < b.Steps()
    requires AgreeThrough(a, b, e) && a.Ended(e)
    ensures Advantage(a, t) == Advantage(b, t)
  {
    SameLastStep(a, b, e, t);
    var last := a.LastStep(t);
    forall i | t <= i <= last
      ensures a.Delta(i) == b.Delta(i)
    {
      if !a.Ended(i) {
        assert i < e;
        assert a.NextValue(i) == a.values[i + 1] == b.NextValue(i);
      }
    }
    assert a.Rate() == b.Rate();
    SameDiscounted(Deltas(a), Deltas(b), a.Rate(), t, last - t + 1);
  }

  // ----- The bound -----

  function Abs(x: real): real {
    if x < 0.0 then -x else x
  }

  lemma {:induction false} PowRange(c: real, n: nat)
    requires 0.0 <= c < 1.0
    ensures 0.0 <= Pow(c, n) <= 1.0
  {
    if n > 0 {
      PowRange(c, n - 1);
      ScaleUp(c, Pow(c, n - 1), 1.0);
    }
  }

  lemma ScaleUp(k: real, a: real, b: real)
    requires 0.0 <= k && a <= b
    ensures k * a <= k * b
  {
    assert k * (b - a) >= 0.0;
  }

  /** `s * (1 - c)` is at most `d * (1 - p)` in size. */
  predicate Within(s: real, c: real, d: real, p: real) {
    -d * (1.0 - p) <= s * (1.0 - c) <= d * (1.0 - p)
  }

  lemma WithinStep(s: real, c: real, d: real, p: real, x: real, s': real, p': real)
    requires 0.0 <= c < 1.0 && 0.0 <= p && -d <= x <= d
    requires Within(s, c, d, p)
    requires s' == s + p * x && p' == c * p
    ensures Within(s', c, d, p')
  {
    var k := p * (1.0 - c);
    ScaleUp(p, 0.0, 1.0 - c);
    ScaleUp(k, x, d);
    ScaleUp(k, -d, x);
    assert (s + p * x) * (1.0 - c) == s * (1.0 - c) + k * x;
    assert d * (1.0 - c * p) == d * (1.0 - p) + k * d;
  }

  lemma NothingDiscounted(f: seq<real>, c: real, t: nat, d: real)
    requires t <= |f|
    ensures Within(Discounted(f, c, t, 0), c, d, Pow(c, 0))
  {
  }

  lemma {:induction false} DiscountedBound(f: seq<real>, c: real, t: nat, n: nat, d: real)
    requires 0.0 <= c < 1.0
    requires t + n <= |f|
    requires forall i :: t <= i < t + n ==> -d <= f[i] <= d
    ensures Within(Discounted(f, c, t, n), c, d, Pow(c, n))
  {
    hide Within, Discounted, Pow;
    if n == 0 {
      NothingDiscounted(f, c, t, d);
    } else {
      DiscountedBound(f, c, t, n - 1, d);
      PowRange(c, n - 1);
      DiscountedLast(f, c, t, n);
      WithinStep(Discounted(f, c, t, n - 1), c, d, Pow(c, n - 1), f[t + n - 1], Discounted(f, c, t, n), Pow(c, n));
    }
  }

  lemma WithinAbs(s: real, c: real, d: real, p: real)
    requires Within(s, c, d, p) && 0.0 <= d && 0.0 <= p
    ensures Abs(s) * (1.0 - c) <= d * (1.0 - p) <= d
  {
    assert -s * (1.0 - c) == -(s * (1.0 - c)) && -d * (1.0 - p) == -(d * (1.0 - p));
    ScaleUp(d, 1.0 - p, 1.0);
  }

  /** If no error exceeds `d`, no advantage times `1 - gamma * lambda` exceeds `d`; more
      exactly, `d` is scaled by `1 - (gamma * lambda)^n` for the `n` steps that are summed. */
  lemma AdvantageBound(r: Rollout, t: nat, d: real)
    requires r.Valid() && t < r.Steps()
    requires 0.0 <= r.Rate() < 1.0
    requires forall i :: t <= i < r.Steps() ==> Abs(r.Delta(i)) <= d
    ensures var n := r.LastStep(t) - t + 1;
      Abs(Advantage(r, t)) * (1.0 - r.Rate()) <= d * (1.0 - Pow(r.Rate(), n)) <= d
  {
    hide Within, Discounted, Pow, Abs, Rollout.Delta, Rollout.Rate, Rollout.LastStep;
    var c, n := r.Rate(), r.LastStep(t) - t + 1;
    forall i | t <= i < r.Steps()
      ensures -d <= Deltas(r)[i] <= d
    {
      AbsRange(r.Delta(i), d);
    }
    DiscountedBound(Deltas(r), c, t, n, d);
    PowRange(c, n);
    AbsRange(r.Delta(t), d);
    WithinAbs(Advantage(r, t), c, d, Pow(c, n));
  }

  lemma AbsRange(x: real, d: real)
    requires Abs(x) <= d
    ensures -d <= x <= d && 0.0 <= d
  {
  }

  lemma SharpStep(s: real, c: real, d: real, p: real)
    requires s * (1.0 - c) == d * (1.0 - p)
    ensures (s + p * d) * (1.0 - c) == d * (1.0 - c * p)
  {
    assert (s + p * d) * (1.0 - c) == s * (1.0 - c) + (d * p - d * (c * p));
  }

  /** The bound is met: it is an equality when every error is `d`. */
  lemma {:induction false} BoundIsSharp(f: seq<real>, c: real, t: nat, n: nat, d: real)
    requires t + n <= |f|
    requires forall i :: t <= i < t + n ==> f[i] == d
    ensures Discounted(f, c, t, n) * (1.0 - c) == d * (1.0 - Pow(c, n))
  {
    if n > 0 {
      hide Discounted, Pow;
      BoundIsSharp(f, c, t, n - 1, d);
      DiscountedLast(f, c, t, n);
      SharpStep(Discounted(f, c, t, n - 1), c, d, Pow(c, n - 1));
    }
  }
}
