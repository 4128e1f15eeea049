/** Grader noise: repeated draws are reduced to mean, sample variance and range, overall and
    for each leaf. Over the reals; the standard deviation is the root of the variance. */
module Calibration {
  import opened Wrappers

  // ----- Statistics -----

  function Sum(xs: seq<real>): real {
    if xs == [] then 0.0 else xs[0] + Sum(xs[1..])
  }

  function Mean(xs: seq<real>): real
    requires xs != []
  {
    Sum(xs) / |xs| as real
  }

  function Product(a: real, b: real): real {
    a * b
  }

  function Squared(d: real): real {
    Product(d, d)
  }

  /** Sum of the squared distances from `m`. */
  function SquaredDeviation(xs: seq<real>, m: real): real {
    if xs == [] then 0.0 else Squared(xs[0] - m) + SquaredDeviation(xs[1..], m)
  }

  /** Sample variance, with `n - 1`; 0 for fewer than two points. */
  function Variance(xs: seq<real>): real {
    if |xs| < 2 then 0.0 else SquaredDeviation(xs, Mean(xs)) / (|xs| - 1) as real
  }

  function Min(xs: seq<real>): (m: real)
    requires xs != []
    ensures m in xs && forall i :: 0 <= i < |xs| ==> m <= xs[i]
  {
    if |xs| == 1 then xs[0]
    else
      var rest := Min(xs[1..]);
      assert xs == [xs[0]] + xs[1..];
      if xs[0] < rest then xs[0] else rest
  }

  function Max(xs: seq<real>): (m: real)
    requires xs != []
    ensures m in xs && forall i :: 0 <= i < |xs| ==> xs[i] <= m
  {
    if |xs| == 1 then xs[0]
    else
      var rest := Max(xs[1..]);
      assert xs == [xs[0]] + xs[1..];
      if rest < xs[0] then xs[0] else rest
  }

  datatype Summary = Summary(n: nat, mean: real, variance: real, min: real, max: real)

  function Summarize(xs: seq<real>): Summary {
    if xs == [] then Summary(0, 0.0, 0.0, 0.0, 0.0)
    else Summary(|xs|, Mean(xs), Variance(xs), Min(xs), Max(xs))
  }

  // ----- The mean is in range -----

  lemma {:induction false} SumBounds(xs: seq<real>, lo: real, hi: real)
    requires forall i :: 0 <= i < |xs| ==> lo <= xs[i] <= hi
    ensures |xs| as real * lo <= Sum(xs) <= |xs| as real * hi
  {
    if xs != [] {
      assert xs == [xs[0]] + xs[1..];
      SumBounds(xs[1..], lo, hi);
      assert |xs| as real == |xs[1..]| as real + 1.0;
    }
  }

  lemma SignOfProduct(n: real, d: real)
    requires n > 0.0
    ensures n * d >= 0.0 <==> d >= 0.0
    ensures n * d == 0.0 <==> d == 0.0
  {
    if d >= 0.0 {
      assert n * d >= 0.0;
    } else {
      assert n * -d > 0.0;
    }
  }

  lemma DivideBounds(s: real, n: real, lo: real, hi: real)
    requires n > 0.0 && n * lo <= s <= n * hi
    ensures lo <= s / n <= hi
  {
    var m := s / n;
    assert n * m == s;
    assert n * (m - lo) == s - n * lo && n * (hi - m) == n * hi - s;
    SignOfProduct(n, m - lo);
    SignOfProduct(n, hi - m);
  }

  lemma MeanInRange(xs: seq<real>)
    requires xs != []
    ensures Min(xs) <= Mean(xs) <= Max(xs)
  {
    hide Sum, Min, Max;
    SumBounds(xs, Min(xs), Max(xs));
    DivideBounds(Sum(xs), |xs| as real, Min(xs), Max(xs));
  }

  // ----- The variance bound -----

  lemma NonNegative(a: real, b: real)
    requires a >= 0.0 && b >= 0.0
    ensures a * b >= 0.0
  {
  }

  function Point(x: real, m: real, lo: real, hi: real): real {
    (lo + hi - 2.0 * m) * x + (m * m - lo * hi)
  }

  /** Each point contributes at most `(x - m)^2 + (x - lo) * (hi - x)`, which is linear in `x`. */
  lemma PointBound(x: real, m: real, lo: real, hi: real)
    requires lo <= x <= hi
    ensures Squared(x - m) <= Point(x, m, lo, hi)
  {
    NonNegative(x - lo, hi - x);
    assert (x - m) * (x - m) + (x - lo) * (hi - x) == (lo + hi - 2.0 * m) * x + (m * m - lo * hi);
  }

  /** The sum of the point bounds of `n` points that sum to `s`. */
  function Line(n: real, s: real, m: real, lo: real, hi: real): real {
    (lo + hi - 2.0 * m) * s + n * (m * m - lo * hi)
  }

  /** A quarter of `n` squared ranges. */
  function QuarterRange(n: real, range: real): real {
    n * (range * range) / 4.0
  }

  lemma {:induction false} DeviationBound(xs: seq<real>, m: real, lo: real, hi: real)
    requires forall i :: 0 <= i < |xs| ==> lo <= xs[i] <= hi
    ensures SquaredDeviation(xs, m) <= Line(|xs| as real, Sum(xs), m, lo, hi)
  {
    if xs == [] {
      assert Line(0.0, 0.0, m, lo, hi) == 0.0;
    } else {
      hide Line, Squared, Point;
      DeviationBound(xs[1..], m, lo, hi);
      PointBound(xs[0], m, lo, hi);
      LineStep(|xs[1..]| as real, Sum(xs[1..]), xs[0], m, lo, hi);
      assert |xs| as real == |xs[1..]| as real + 1.0;
    }
  }

  lemma LineStep(n: real, s: real, x: real, m: real, lo: real, hi: real)
    ensures Line(n + 1.0, x + s, m, lo, hi)
      == Point(x, m, lo, hi) + Line(n, s, m, lo, hi)
  {
  }

  lemma ParabolaBound(n: real, m: real, lo: real, hi: real, s: real)
    requires n >= 0.0 && s == n * m
    ensures Line(n, s, m, lo, hi) <= QuarterRange(n, hi - lo)
  {
    var d := 2.0 * m - lo - hi;
    var q := (m - lo) * (hi - m);
    assert (lo + hi - 2.0 * m) * (n * m) + n * (m * m - lo * hi) == n * q;
    assert (hi - lo) * (hi - lo) / 4.0 - q == d * d / 4.0;
    assert d * d >= 0.0;
    assert n * (d * d / 4.0) >= 0.0;
    assert n * ((hi - lo) * (hi - lo)) / 4.0 == n * q + n * (d * d / 4.0);
  }

  lemma MeanTimesCount(xs: seq<real>)
    requires xs != []
    ensures |xs| as real * Mean(xs) == Sum(xs)
  {
  }

  lemma VarianceTimes(xs: seq<real>)
    requires |xs| >= 2
    ensures (|xs| - 1) as real * Variance(xs) == SquaredDeviation(xs, Mean(xs))
  {
  }

  /** `n - 1` times the sample variance is at most a quarter of `n` times the squared range. */
  lemma VarianceBound(xs: seq<real>)
    requires |xs| >= 2
    ensures var range := Max(xs) - Min(xs);
      (|xs| - 1) as real * Variance(xs) <= QuarterRange(|xs| as real, range)
  {
    hide Variance, Squared, SquaredDeviation, Sum, Mean, Line, QuarterRange, Min, Max;
    var n, m, lo, hi := |xs| as real, Mean(xs), Min(xs), Max(xs);
    DeviationBound(xs, m, lo, hi);
    MeanTimesCount(xs);
    ParabolaBound(n, m, lo, hi, Sum(xs));
    VarianceTimes(xs);
  }

  lemma TwoPoints(a: real, b: real, m: real)
    ensures Sum([a, b]) == a + b
    ensures SquaredDeviation([a, b], m) == Squared(a - m) + Squared(b - m)
    ensures a <= b ==> Min([a, b]) == a && Max([a, b]) == b
  {
    assert [a, b][1..] == [b] && [b][1..] == [];
    assert Sum([b]) == b + Sum([]);
    assert SquaredDeviation([b], m) == Squared(b - m) + SquaredDeviation([], m);
    assert Min([b]) == b && Max([b]) == b;
  }

  /** The bound is met by two draws. */
  lemma VarianceBoundIsMet(lo: real, hi: real)
    requires lo <= hi
    ensures Variance([lo, hi]) == QuarterRange(2.0, hi - lo)
    ensures Min([lo, hi]) == lo && Max([lo, hi]) == hi
  {
    var m := (lo + hi) / 2.0;
    TwoPoints(lo, hi, m);
    assert Mean([lo, hi]) == m;
    assert (lo - m) * (lo - m) + (hi - m) * (hi - m) == (hi - lo) * (hi - lo) / 2.0;
  }

  lemma ProductSign(a: real, b: real)
    requires (a > 0.0 && b > 0.0) || (a < 0.0 && b < 0.0)
    ensures Product(a, b) > 0.0
  {
    if a < 0.0 {
      assert (-a) * (-b) == a * b;
    }
  }

  lemma ProductZero(a: real, b: real)
    requires a == 0.0
    ensures Product(a, b) == 0.0
  {
  }

  lemma SquareSign(d: real)
    ensures Squared(d) >= 0.0
    ensures Squared(d) == 0.0 <==> d == 0.0
  {
    hide Product;
    if d == 0.0 {
      ProductZero(d, d);
    } else {
      ProductSign(d, d);
    }
  }

  ghost predicate AllAre(xs: seq<real>, m: real) {
    forall i :: 0 <= i < |xs| ==> xs[i] == m
  }

  lemma AllAreHead(xs: seq<real>, m: real)
    requires xs != []
    ensures AllAre(xs, m) <==> xs[0] == m && AllAre(xs[1..], m)
  {
    if xs[0] == m && AllAre(xs[1..], m) {
      forall i | 0 <= i < |xs|
        ensures xs[i] == m
      {
        assert i > 0 ==> xs[i] == xs[1..][i - 1];
      }
    }
  }

  lemma {:induction false} DeviationZero(xs: seq<real>, m: real)
    ensures SquaredDeviation(xs, m) >= 0.0
    ensures SquaredDeviation(xs, m) == 0.0 <==> AllAre(xs, m)
  {
    if xs == [] {
      assert AllAre(xs, m);
    } else {
      hide AllAre, Squared;
      DeviationZero(xs[1..], m);
      SquareSign(xs[0] - m);
      AllAreHead(xs, m);
    }
  }

  /** The variance is never negative, and 0 exactly when all draws agree. */
  lemma ZeroVariance(xs: seq<real>)
    requires |xs| >= 2
    ensures Variance(xs) >= 0.0
    ensures Variance(xs) == 0.0 <==> forall i, j :: 0 <= i < j < |xs| ==> xs[i] == xs[j]
  {
    var m := Mean(xs);
    DeviationZero(xs, m);
    VarianceTimes(xs);
    SignOfProduct((|xs| - 1) as real, Variance(xs));
    if forall i, j :: 0 <= i < j < |xs| ==> xs[i] == xs[j] {
      forall i | 0 <= i < |xs|
        ensures xs[i] == xs[0]
      {
        assert i > 0 ==> xs[0] == xs[i];
      }
      MeanInRange(xs);
      assert Min(xs) == xs[0] == Max(xs) by {
        assert Min(xs) in xs && Max(xs) in xs;
      }
      assert AllAre(xs, m);
    }
  }

  // ----- Draw order does not matter -----

  lemma {:induction false} SumRemove(xs: seq<real>, i: nat, m: real)
    requires i < |xs|
    ensures Sum(xs) == xs[i] + Sum(xs[..i] + xs[i + 1..])
    ensures SquaredDeviation(xs, m)
      == Squared(xs[i] - m) + SquaredDeviation(xs[..i] + xs[i + 1..], m)
  {
    hide Squared;
    var rest := xs[..i] + xs[i + 1..];
    if i == 0 {
      assert rest == xs[1..];
    } else {
      SumRemove(xs[1..], i - 1, m);
      assert rest[1..] == xs[1..][..i - 1] + xs[1..][i..];
    }
  }

  /** The first element of one list can be taken out of the other. */
  lemma TakeOut(xs: seq<real>, ys: seq<real>) returns (i: nat)
    requires multiset(xs) == multiset(ys) && xs != []
    ensures i < |ys| && ys[i] == xs[0]
    ensures multiset(xs[1..]) == multiset(ys[..i] + ys[i + 1..])
  {
    assert xs[0] in multiset(ys);
    i :| 0 <= i < |ys| && ys[i] == xs[0];
    assert xs == [xs[0]] + xs[1..];
    assert ys == ys[..i] + [ys[i]] + ys[i + 1..];
    assert multiset(xs[1..]) == multiset(xs) - multiset{xs[0]};
    assert multiset(ys[..i] + ys[i + 1..]) == multiset(ys) - multiset{ys[i]};
  }

  lemma {:induction false} SameMultiset(xs: seq<real>, ys: seq<real>, m: real)
    requires multiset(xs) == multiset(ys)
    ensures |xs| == |ys| && Sum(xs) == Sum(ys) && SquaredDeviation(xs, m) == SquaredDeviation(ys, m)
    decreases |xs|
  {
    hide Squared;
    assert |xs| == |multiset(xs)| && |ys| == |multiset(ys)|;
    if xs != [] {
      var i := TakeOut(xs, ys);
      SameMultiset(xs[1..], ys[..i] + ys[i + 1..], m);
      SumRemove(ys, i, m);
    }
  }

  /** A summary depends on the draws, not on their order. */
  lemma OrderIsIrrelevant(xs: seq<real>, ys: seq<real>)
    requires multiset(xs) == multiset(ys)
    ensures Summarize(xs) == Summarize(ys)
  {
    SameMultiset(xs, ys, 0.0);
    if xs != [] {
      assert forall x :: x in xs <==> x in multiset(xs);
      assert forall y :: y in ys <==> y in multiset(ys);
      assert Min(xs) in ys && Min(ys) in xs && Max(xs) in ys && Max(ys) in xs;
      SameMultiset(xs, ys, Mean(xs));
    }
  }

  // ----- Draws -----

  datatype Score = Absent | NotNumeric | Number(value: real)

  /** One entry of a result's list of leaf scores. */
  datatype Record = NotADict | Leaf(id: string, score: Score)

  datatype Draw = Draw(overall: Score, leaves: seq<Record>)

  /** The last numeric score of a leaf. */
  function LastScore(records: seq<Record>, id: string): Option<real> {
    if records == [] then None
    else
      var r := records[|records| - 1];
      if r.Leaf? && r.id == id && id != "" && r.score.Number? then Some(r.score.value)
      else LastScore(records[..|records| - 1], id)
  }

  method ExtractLeafScores(records: seq<Record>) returns (out: map<string, real>)
    ensures forall id :: id in out <==> LastScore(records, id).Some?
    ensures forall id :: id in out ==> out[id] == LastScore(records, id).value
  {
    out := map[];
    for i := 0 to |records|
      invariant forall id :: id in out <==> LastScore(records[..i], id).Some?
      invariant forall id :: id in out ==> out[id] == LastScore(records[..i], id).value
    {
      assert records[..i + 1][..i] == records[..i];
      var r := records[i];
      if r.NotADict? || r.id == "" || r.score.Absent? {
        continue;
      }
      if r.score.Number? {
        out := out[r.id := r.score.value];
      }
    }
    assert records[..|records|] == records;
  }

  /** The scores of one leaf over the draws in which it has one. */
  function ScoresOf(draws: seq<Draw>, id: string): seq<real> {
    if draws == [] then []
    else
      var score := LastScore(draws[|draws| - 1].leaves, id);
      ScoresOf(draws[..|draws| - 1], id) + if score.Some? then [score.value] else []
  }

  function OverallOf(draws: seq<Draw>): seq<real> {
    if draws == [] then []
    else
      var score := draws[|draws| - 1].overall;
      OverallOf(draws[..|draws| - 1]) + [if score.Number? then score.value else 0.0]
  }

  /** One draw contributes at most one score to a leaf. */
  lemma {:induction false} AtMostOnePerDraw(draws: seq<Draw>, id: string)
    ensures |ScoresOf(draws, id)| <= |draws| == |OverallOf(draws)|
  {
    if draws != [] {
      AtMostOnePerDraw(draws[..|draws| - 1], id);
    }
  }

  datatype Calibrated = Calibrated(overall: Summary, perLeaf: map<string, Summary>)

  /** `scores` is the table of per-leaf scores over the draws. */
  ghost predicate Tabulates(perLeaf: map<string, seq<real>>, draws: seq<Draw>) {
    (forall id :: id in perLeaf <==> ScoresOf(draws, id) != []) &&
    (forall id :: id in perLeaf ==> perLeaf[id] == ScoresOf(draws, id))
  }

  /** Add the scores of one more draw to the table. */
  function AddScores(perLeaf: map<string, seq<real>>, scores: map<string, real>): map<string, seq<real>> {
    map id | id in perLeaf.Keys + scores.Keys ::
      (if id in perLeaf then perLeaf[id] else []) + (if id in scores then [scores[id]] else [])
  }

  lemma TabulateOneMore(perLeaf: map<string, seq<real>>, draws: seq<Draw>, d: Draw, scores: map<string, real>)
    requires Tabulates(perLeaf, draws)
    requires forall id :: id in scores <==> LastScore(d.leaves, id).Some?
    requires forall id :: id in scores ==> scores[id] == LastScore(d.leaves, id).value
    ensures Tabulates(AddScores(perLeaf, scores), draws + [d])
  {
    hide LastScore;
    assert (draws + [d])[..|draws|] == draws;
    forall id
      ensures ScoresOf(draws + [d], id) == ScoresOf(draws, id) + if id in scores then [scores[id]] else []
    {
    }
  }

  /** `calibrate`, given the results of the draws; `k < 1` raises. */
  method Calibrate(k: int, draws: seq<Draw>) returns (r: Option<Calibrated>)
    requires k >= 1 ==> |draws| == k
    ensures r.None? <==> k < 1
    ensures r.Some? ==>
      && r.value.overall == Summarize(OverallOf(draws))
      && r.value.overall.n == k
      && (forall id :: id in r.value.perLeaf <==> ScoresOf(draws, id) != [])
      && (forall id :: id in r.value.perLeaf ==>
            r.value.perLeaf[id] == Summarize(ScoresOf(draws, id)) && 1 <= r.value.perLeaf[id].n <= k)
  {
    hide ScoresOf, LastScore, AddScores;
    if k < 1 {
      return None;
    }
    var overall: seq<real> := [];
    var perLeaf: map<string, seq<real>> := map[];
    NoScores();
    for i := 0 to k
      invariant overall == OverallOf(draws[..i])
      invariant Tabulates(perLeaf, draws[..i])
    {
      assert draws[..i + 1] == draws[..i] + [draws[i]];
      var d := draws[i];
      overall := overall + [if d.overall.Number? then d.overall.value else 0.0];
      var scores := ExtractLeafScores(d.leaves);
      TabulateOneMore(perLeaf, draws[..i], d, scores);
      perLeaf := AddScores(perLeaf, scores);
    }
    assert draws[..k] == draws;
    forall id | id in perLeaf
      ensures 1 <= |ScoresOf(draws, id)| <= k
    {
      AtMostOnePerDraw(draws, id);
    }
    AtMostOnePerDraw(draws, "");
    r := Some(Calibrated(Summarize(overall), map id | id in perLeaf :: Summarize(perLeaf[id])));
  }

  lemma NoScores()
    ensures Tabulates(map[], [])
  {
  }

  // ----- What the figures say -----

  /** The fields of a summary, by what they have to do with the draws. */
  lemma SummaryFields(xs: seq<real>)
    ensures var s := Summarize(xs);
      && s.n == |xs|
      && (xs == [] ==> s.mean == s.variance == s.min == s.max == 0.0)
      && (xs != [] ==>
            && s.n as real * s.mean == Sum(xs)
            && s.min in xs && s.max in xs && forall i :: 0 <= i < |xs| ==> s.min <= xs[i] <= s.max)
      && (|xs| == 1 ==> s.variance == 0.0)
      && (|xs| >= 2 ==> (s.n - 1) as real * s.variance == SquaredDeviation(xs, s.mean))
  {
    hide Sum, SquaredDeviation, Min, Max;
    if xs != [] {
      MeanTimesCount(xs);
    }
    if |xs| >= 2 {
      VarianceTimes(xs);
    }
  }

  /** A leaf's score in a draw is its last number; entries without an id or a number are passed over. */
  lemma {:induction false} LastScoreIff(records: seq<Record>, id: string, v: real)
    ensures LastScore(records, id) == Some(v)
      <==> id != "" && exists k :: 0 <= k < |records| && IsLastNumber(records, id, v, k)
  {
    if records != [] {
      var n := |records| - 1;
      var init := records[..n];
      LastScoreIff(init, id, v);
      assert forall j :: 0 <= j < n ==> init[j] == records[j];
      if k :| 0 <= k < |init| && IsLastNumber(init, id, v, k) {
        assert IsNumberOf(records[n], id) || IsLastNumber(records, id, v, k);
      }
      if id != "" && records[n] == Leaf(id, Number(v)) {
        assert IsLastNumber(records, id, v, n);
      }
      if k :| 0 <= k < |records| && IsLastNumber(records, id, v, k) {
        assert k < n ==> IsLastNumber(init, id, v, k) && !IsNumberOf(records[n], id);
      }
    }
  }

  predicate IsNumberOf(r: Record, id: string) {
    r.Leaf? && r.id == id && r.score.Number?
  }

  predicate IsLastNumber(records: seq<Record>, id: string, v: real, k: nat)
    requires k < |records|
  {
    records[k] == Leaf(id, Number(v)) && forall j :: k < j < |records| ==> !IsNumberOf(records[j], id)
  }

  /** Overall, each draw counts, as 0 when it has no number. */
  lemma {:induction false} OverallExact(draws: seq<Draw>)
    ensures |OverallOf(draws)| == |draws|
    ensures forall i :: 0 <= i < |draws| ==>
      OverallOf(draws)[i] == if draws[i].overall.Number? then draws[i].overall.value else 0.0
  {
    if draws != [] {
      OverallExact(draws[..|draws| - 1]);
    }
  }

  /** The scores are those of the draws at these positions, all that have one, in order. */
  ghost predicate ArePlaces(at: seq<nat>, draws: seq<Draw>, id: string, scores: seq<real>) {
    && |at| == |scores| && (forall i, j :: 0 <= i < j < |at| ==> at[i] < at[j])
    && (forall j :: 0 <= j < |at| ==>
          at[j] < |draws| && LastScore(draws[at[j]].leaves, id) == Some(scores[j]))
    && (forall i :: 0 <= i < |draws| && LastScore(draws[i].leaves, id).Some? ==> i in at)
  }

  lemma PlacesStep(at: seq<nat>, draws: seq<Draw>, d: Draw, id: string, scores: seq<real>)
    requires ArePlaces(at, draws, id, scores)
    ensures var score := LastScore(d.leaves, id);
      if score.Some? then ArePlaces(at + [|draws|], draws + [d], id, scores + [score.value])
      else ArePlaces(at, draws + [d], id, scores)
  {
    hide LastScore;
    assert forall i :: 0 <= i < |draws| ==> (draws + [d])[i] == draws[i];
    var n := |draws|;
    assert forall i :: i in at + [n] <==> i in at || i == n;
  }

  lemma NoPlaces(id: string)
    ensures ArePlaces([], [], id, ScoresOf([], id))
  {
  }

  /** For a leaf, the draws count in which it has a score, in their order. */
  lemma {:induction false} ScoresExact(draws: seq<Draw>, id: string) returns (at: seq<nat>)
    ensures ArePlaces(at, draws, id, ScoresOf(draws, id))
  {
    hide LastScore, ArePlaces;
    if draws == [] {
      at := [];
      NoPlaces(id);
    } else {
      var n := |draws| - 1;
      var init, d := draws[..n], draws[n];
      assert draws == init + [d];
      var before := ScoresExact(init, id);
      PlacesStep(before, init, d, id, ScoresOf(init, id));
      assert ScoresOf(init, id) + [] == ScoresOf(init, id);
      at := if LastScore(d.leaves, id).Some? then before + [n] else before;
    }
  }
}
