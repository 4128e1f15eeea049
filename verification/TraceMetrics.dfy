/** Metrics of a run read from its event trace in one pass, and their means over trials. */
module TraceMetrics {
  import opened Wrappers
  import opened TextLines
  import opened Sums
  import opened Totals

  /** The nested block of a warning; a missing or empty field is "". */
  datatype Data = Data(code: string, reason: string)

  /** The events the parser looks at; a number that is missing or no integer is `None`. */
  datatype Event =
    | ReplIteration(iteration: Option<int>)
    | RunWarning(code: string, data: Option<Data>)
    | PrimitiveCall(primitive: string, status: string)
    | ExperimentCompleted(failureClass: string)
    | RunComplete(iterations: Option<int>)
    | Other

  /** A line of the trace: blank or no JSON, JSON but no object, or an event. */
  datatype Line = Skipped | NoObject | Parsed(event: Event)

  datatype Metrics = Metrics(warnings: map<string, nat>, argBlocks: nat, fabrications: nat, iterations: Option<int>,
                             firstBaseline: Option<int>)

  predicate Fabricated(s: string) {
    Contains(s, "fabrication")
  }

  // ----- The queries -----

  /** The code a warning is tallied under: its own, else the nested one, else the nested reason. */
  function Resolved(e: Event): Option<string> {
    if !e.RunWarning? then None
    else if e.code != "" then Some(e.code)
    else if e.data.None? then None
    else if e.data.value.code != "" then Some(e.data.value.code)
    else if e.data.value.reason != "" then Some(e.data.value.reason)
    else None
  }

  /** A warning with a fabrication code (a reason does not count), or such a failure. */
  predicate Suspects(e: Event) {
    match e
    case RunWarning(code, data) =>
      if code != "" then Fabricated(code) else data.Some? && data.value.code != "" && Fabricated(data.value.code)
    case ExperimentCompleted(failure) => Fabricated(failure)
    case _ => false
  }

  predicate BlocksArguments(e: Event) {
    e.ExperimentCompleted? && e.failureClass == "arg_contract"
  }

  predicate StartsBaseline(e: Event) {
    e.PrimitiveCall? && e.primitive == "implement_baseline" && e.status == "start"
  }

  function Indicator(p: Event -> bool): Event -> nat {
    e => if p(e) then 1 else 0
  }

  function Count(es: seq<Event>, p: Event -> bool): nat {
    Total(es, Indicator(p))
  }

  function HasCode(code: string): Event -> bool {
    e => Resolved(e) == Some(code)
  }

  const Resolvable := (e: Event) => Resolved(e).Some?
  const IsIteration := (e: Event) => e.ReplIteration?
  const IsSuspect := (e: Event) => Suspects(e)
  const IsBlock := (e: Event) => BlocksArguments(e)

  /** The largest iteration number seen, or 0. */
  function MaxIteration(es: seq<Event>): int
    decreases |es|
  {
    if es == [] then 0 else
      var before, e := MaxIteration(es[..|es| - 1]), es[|es| - 1];
      if e.ReplIteration? && e.iteration.Some? && e.iteration.value > before then e.iteration.value else before
  }

  function LastComplete(es: seq<Event>): Option<int>
    decreases |es|
  {
    if es == [] then None else
      var e := es[|es| - 1];
      if e.RunComplete? && e.iterations.Some? then e.iterations else LastComplete(es[..|es| - 1])
  }

  /** The iteration reached by these events: the largest number seen, else how many there were. */
  function Reached(es: seq<Event>): int {
    if MaxIteration(es) != 0 then MaxIteration(es) else Count(es, IsIteration)
  }

  /** The iteration reached before the first baseline call. */
  function FirstBaseline(es: seq<Event>): Option<int>
    decreases |es|
  {
    if es == [] then None else
      var init, e := es[..|es| - 1], es[|es| - 1];
      if FirstBaseline(init).Some? then FirstBaseline(init)
      else if StartsBaseline(e) then Some(Reached(init))
      else None
  }

  function Iterations(es: seq<Event>): Option<int> {
    if LastComplete(es).Some? then LastComplete(es)
    else if MaxIteration(es) > 0 then Some(MaxIteration(es))
    else None
  }

  /** The tally of warnings by code. */
  function Warnings(es: seq<Event>): map<string, nat>
    decreases |es|
  {
    if es == [] then map[] else
      var before := Warnings(es[..|es| - 1]);
      var code := Resolved(es[|es| - 1]);
      if code.Some? then Bump(before, code.value) else before
  }

  function Bump(m: map<string, nat>, code: string): map<string, nat> {
    m[code := (if code in m then m[code] else 0) + 1]
  }

  function Queries(es: seq<Event>): Metrics {
    Metrics(Warnings(es), Count(es, IsBlock), Count(es, IsSuspect), Iterations(es), FirstBaseline(es))
  }

  function Events(lines: seq<Line>): seq<Event>
    decreases |lines|
  {
    if lines == [] then [] else
      var l := lines[|lines| - 1];
      Events(lines[..|lines| - 1]) + if l.Parsed? then [l.event] else []
  }

  // ----- The single pass -----

  lemma CountPush(es: seq<Event>, e: Event, p: Event -> bool)
    ensures Count(es + [e], p) == Count(es, p) + if p(e) then 1 else 0
  {
    TotalPush(es, e, Indicator(p));
  }

  /** What one more event does to each query. */
  lemma Push(es: seq<Event>, e: Event)
    ensures MaxIteration(es + [e]) ==
      if e.ReplIteration? && e.iteration.Some? && e.iteration.value > MaxIteration(es) then e.iteration.value
        else MaxIteration(es)
    ensures LastComplete(es + [e]) == if e.RunComplete? && e.iterations.Some? then e.iterations else LastComplete(es)
    ensures FirstBaseline(es + [e]) ==
      if FirstBaseline(es).Some? then FirstBaseline(es) else if StartsBaseline(e) then Some(Reached(es)) else None
    ensures Warnings(es + [e]) == if Resolved(e).Some? then Bump(Warnings(es), Resolved(e).value) else Warnings(es)
    ensures Count(es + [e], IsBlock) == Count(es, IsBlock) + if BlocksArguments(e) then 1 else 0
    ensures Count(es + [e], IsSuspect) == Count(es, IsSuspect) + if Suspects(e) then 1 else 0
    ensures Count(es + [e], IsIteration) == Count(es, IsIteration) + if e.ReplIteration? then 1 else 0
  {
    hide Count, Reached, StartsBaseline, Suspects, BlocksArguments, Resolved, Bump;
    assert (es + [e])[..|es|] == es;
    CountPush(es, e, IsBlock);
    CountPush(es, e, IsSuspect);
    CountPush(es, e, IsIteration);
  }

  method ParseRunMetrics(lines: seq<Line>) returns (r: Result<Metrics, nat>)
    ensures r.Err? <==> exists i :: 0 <= i < |lines| && lines[i].NoObject?
    ensures r.Ok? ==> r.value == Queries(Events(lines))
  {
    hide Count, MaxIteration, LastComplete, FirstBaseline, Warnings, Fabricated, Bump;
    var warnings: map<string, nat> := map[];
    var argBlocks: nat, fabrications: nat, maxIteration, replCount: nat := 0, 0, 0, 0;
    var complete: Option<int>, firstBaseline: Option<int> := None, None;
    var seen := false;
    ghost var es: seq<Event> := [];
    NoEvents();
    for i := 0 to |lines|
      invariant forall k :: 0 <= k < i ==> !lines[k].NoObject?
      invariant es == Events(lines[..i])
      invariant warnings == Warnings(es)
      invariant argBlocks == Count(es, IsBlock)
      invariant fabrications == Count(es, IsSuspect)
      invariant maxIteration == MaxIteration(es)
      invariant replCount == Count(es, IsIteration)
      invariant complete == LastComplete(es)
      invariant firstBaseline == FirstBaseline(es)
      invariant seen == firstBaseline.Some?
    {
      assert lines[..i + 1][..i] == lines[..i];
      if lines[i].NoObject? {
        return Err(i);
      }
      if lines[i].Skipped? {
        assert es + [] == es;
        continue;
      }
      ghost var before := es;
      es := es + [lines[i].event];
      Push(before, lines[i].event);
      match lines[i].event {
        case ReplIteration(iteration) =>
          if iteration.Some? && iteration.value > maxIteration {
            maxIteration := iteration.value;
          }
          replCount := replCount + 1;
        case RunWarning(code, data) =>
          if code != "" {
            warnings := Bump(warnings, code);
            if Fabricated(code) {
              fabrications := fabrications + 1;
            }
          } else if data.Some? {
            if data.value.code != "" {
              warnings := Bump(warnings, data.value.code);
              if Fabricated(data.value.code) {
                fabrications := fabrications + 1;
              }
            } else if data.value.reason != "" {
              warnings := Bump(warnings, data.value.reason);
            }
          }
        case PrimitiveCall(primitive, status) =>
          if primitive == "implement_baseline" && status == "start" && !seen {
            seen := true;
            firstBaseline := Some(if maxIteration != 0 then maxIteration else replCount);
          }
        case ExperimentCompleted(failure) =>
          if failure == "arg_contract" {
            argBlocks := argBlocks + 1;
          }
          if Fabricated(failure) {
            fabrications := fabrications + 1;
          }
        case RunComplete(iterations) =>
          if iterations.Some? {
            complete := iterations;
          }
        case Other =>
      }
    }
    assert lines[..|lines|] == lines;
    var iterations := if complete.Some? then complete else if maxIteration > 0 then Some(maxIteration) else None;
    return Ok(Metrics(warnings, argBlocks, fabrications, iterations, firstBaseline));
  }

  lemma NoEvents()
    ensures Warnings([]) == map[] && MaxIteration([]) == 0 && LastComplete([]) == None && FirstBaseline([]) == None
    ensures Count([], IsBlock) == 0 && Count([], IsSuspect) == 0 && Count([], IsIteration) == 0
  {
  }

  // ----- What the queries mean -----

  lemma SumBump(m: map<string, nat>, code: string)
    ensures Sum(Bump(m, code)) == Sum(m) + 1
  {
    hide Sum;
    var out := Bump(m, code);
    SumRemove(out, code);
    if code in m {
      SumRemove(m, code);
      assert out - {code} == m - {code};
    } else {
      assert out - {code} == m;
    }
  }

  /** The tally has each code as often as warnings resolve to it, and no other; its entries add
      up to the number of warnings that resolve at all. */
  lemma {:induction false} TallyExact(es: seq<Event>)
    ensures forall code :: code in Warnings(es) <==> Count(es, HasCode(code)) > 0
    ensures forall code :: code in Warnings(es) ==> Warnings(es)[code] == Count(es, HasCode(code))
    ensures Sum(Warnings(es)) == Count(es, Resolvable)
    decreases |es|
  {
    hide Resolved, Sum, Count, Warnings;
    if es == [] {
      EmptyTally();
    } else {
      var init, e := es[..|es| - 1], es[|es| - 1];
      assert es == init + [e];
      TallyExact(init);
      Push(init, e);
      CountPush(init, e, Resolvable);
      forall code
        ensures Count(es, HasCode(code)) == Count(init, HasCode(code)) + if Resolved(e) == Some(code) then 1 else 0
      {
        CountPush(init, e, HasCode(code));
      }
      if Resolved(e).Some? {
        SumBump(Warnings(init), Resolved(e).value);
      }
    }
  }

  lemma EmptyTally()
    ensures Warnings([]) == map[] && Sum(Warnings([])) == 0 && Count([], Resolvable) == 0
    ensures forall code :: Count([], HasCode(code)) == 0
  {
  }

  /** The largest number is at least every number seen, and is 0 or one of them. */
  lemma {:induction false} MaxExact(es: seq<Event>)
    ensures MaxIteration(es) >= 0
    ensures forall i :: 0 <= i < |es| && es[i].ReplIteration? && es[i].iteration.Some? ==>
      es[i].iteration.value <= MaxIteration(es)
    ensures MaxIteration(es) == 0 || exists i :: 0 <= i < |es| && es[i] == ReplIteration(Some(MaxIteration(es)))
    decreases |es|
  {
    if es != [] {
      var init := es[..|es| - 1];
      MaxExact(init);
      assert forall i :: 0 <= i < |init| ==> es[i] == init[i];
      if MaxIteration(es) != 0 && MaxIteration(es) == MaxIteration(init) {
        var i :| 0 <= i < |init| && init[i] == ReplIteration(Some(MaxIteration(init)));
        assert es[i] == init[i];
      }
    }
  }

  /** The last completion with a number decides, wherever it stands. */
  lemma {:induction false} LastDecides(es: seq<Event>, k: nat)
    requires k < |es| && es[k].RunComplete? && es[k].iterations.Some?
    requires forall j :: k < j < |es| && es[j].RunComplete? ==> es[j].iterations.None?
    ensures LastComplete(es) == Iterations(es) == es[k].iterations
    decreases |es|
  {
    if k < |es| - 1 {
      LastDecides(es[..|es| - 1], k);
    }
  }

  /** The iterations as a comment promises them: the completion's number, else the largest seen, else
      how many iteration events there were. */
  function PromisedIterations(es: seq<Event>): Option<int> {
    if LastComplete(es).Some? then LastComplete(es) else Some(Reached(es))
  }

  /** The promise is kept exactly when there is a completion or a positive iteration number. */
  lemma IterationsAsPromisedIff(es: seq<Event>)
    ensures Iterations(es) == PromisedIterations(es) <==> LastComplete(es).Some? || MaxIteration(es) > 0
  {
    hide Count;
    MaxExact(es);
  }

  /** One iteration event without a number is not counted. */
  lemma IterationNotCounted()
    ensures Iterations([ReplIteration(None)]) == None && PromisedIterations([ReplIteration(None)]) == Some(1)
  {
    var e := ReplIteration(None);
    assert [e] == [] + [e];
    NoEvents();
    Push([], e);
  }

  /** The first baseline call decides, and what it records depends only on the events before it. */
  lemma {:induction false} FirstDecides(es: seq<Event>, k: nat)
    requires k < |es| && StartsBaseline(es[k])
    requires forall j :: 0 <= j < k ==> !StartsBaseline(es[j])
    ensures FirstBaseline(es) == Some(Reached(es[..k]))
    decreases |es|
  {
    hide Reached, StartsBaseline;
    if k < |es| - 1 {
      FirstDecides(es[..|es| - 1], k);
      assert es[..|es| - 1][..k] == es[..k];
    } else {
      NoneStarted(es[..k]);
      assert es == es[..k] + [es[k]];
      Push(es[..k], es[k]);
    }
  }

  lemma {:induction false} NoneStarted(es: seq<Event>)
    requires forall j :: 0 <= j < |es| ==> !StartsBaseline(es[j])
    ensures FirstBaseline(es) == None
    decreases |es|
  {
    if es != [] {
      NoneStarted(es[..|es| - 1]);
    }
  }

  // ----- Cutting the trace -----

  function Merge(a: map<string, nat>, b: map<string, nat>): map<string, nat> {
    map code | code in a.Keys + b.Keys :: (if code in a then a[code] else 0) + (if code in b then b[code] else 0)
  }

  function Larger(a: int, b: int): int {
    if a >= b then a else b
  }

  lemma MergeBump(a: map<string, nat>, b: map<string, nat>, code: string)
    ensures Merge(a, Bump(b, code)) == Bump(Merge(a, b), code)
  {
  }

  /** Where the first baseline call stands. */
  function FirstStart(es: seq<Event>): (k: Option<nat>)
    ensures k.Some? ==>
      k.value < |es| && StartsBaseline(es[k.value]) && forall j :: 0 <= j < k.value ==> !StartsBaseline(es[j])
    ensures k.None? ==> forall j :: 0 <= j < |es| ==> !StartsBaseline(es[j])
    decreases |es|
  {
    if es == [] then None else
      var before := FirstStart(es[..|es| - 1]);
      if before.Some? then before else if StartsBaseline(es[|es| - 1]) then Some(|es| - 1) else None
  }

  /** The first baseline of a cut trace: that of the first part, else what its call in the second
      part records, after all of the first part and the second up to that call. */
  lemma CutBaseline(a: seq<Event>, b: seq<Event>)
    ensures FirstBaseline(a + b) ==
      if FirstBaseline(a).Some? then FirstBaseline(a)
      else if FirstStart(b).Some? then Some(Reached(a + b[..FirstStart(b).value]))
      else None
  {
    hide Reached, StartsBaseline;
    var i, k := FirstStart(a), FirstStart(b);
    if i.Some? {
      FirstDecides(a, i.value);
      FirstDecides(a + b, i.value);
      assert (a + b)[..i.value] == a[..i.value];
    } else {
      NoneStarted(a);
      if k.Some? {
        FirstDecides(a + b, |a| + k.value);
        assert (a + b)[..|a| + k.value] == a + b[..k.value];
      } else {
        NoneStarted(a + b);
      }
    }
  }

  /** The trace may be cut anywhere: tallies and counts of the two parts add up, the larger
      maximum and the later completion win, and the first baseline comes from the part with the
      first baseline call. */
  lemma {:induction false} CutAnywhere(a: seq<Event>, b: seq<Event>)
    ensures Warnings(a + b) == Merge(Warnings(a), Warnings(b))
    ensures Count(a + b, IsBlock) == Count(a, IsBlock) + Count(b, IsBlock)
    ensures Count(a + b, IsSuspect) == Count(a, IsSuspect) + Count(b, IsSuspect)
    ensures MaxIteration(a + b) == Larger(MaxIteration(a), MaxIteration(b))
    ensures LastComplete(a + b) == if LastComplete(b).Some? then LastComplete(b) else LastComplete(a)
    ensures Count(a + b, IsIteration) == Count(a, IsIteration) + Count(b, IsIteration)
    ensures FirstBaseline(a + b) ==
      if FirstBaseline(a).Some? then FirstBaseline(a)
      else if FirstStart(b).Some? then Some(Reached(a + b[..FirstStart(b).value]))
      else None
    decreases |b|
  {
    hide Count, Warnings, MaxIteration, LastComplete, FirstBaseline, Merge, Bump, Resolved, Reached;
    CutBaseline(a, b);
    if b == [] {
      assert a + b == a;
      NoEvents();
      MaxExact(a);
      MergeNothing(Warnings(a));
    } else {
      var init, e := b[..|b| - 1], b[|b| - 1];
      CutAnywhere(a, init);
      assert b == init + [e];
      assert a + b == (a + init) + [e];
      Push(a + init, e);
      Push(init, e);
      if Resolved(e).Some? {
        MergeBump(Warnings(a), Warnings(init), Resolved(e).value);
      }
    }
  }

  lemma MergeNothing(a: map<string, nat>)
    ensures Merge(a, map[]) == a
  {
  }

  // ----- Means over the trials of one arm -----

  function Codes(trials: seq<Metrics>): set<string> {
    set i, code | 0 <= i < |trials| && code in trials[i].warnings :: code
  }

  function CodeCount(code: string): Metrics -> nat {
    (m: Metrics) => if code in m.warnings then m.warnings[code] else 0
  }

  const Blocks := (m: Metrics) => m.argBlocks
  const Suspected := (m: Metrics) => m.fabrications

  /** The total of each code over all trials. */
  function CodeTotals(trials: seq<Metrics>): map<string, nat> {
    map code | code in Codes(trials) :: Total(trials, CodeCount(code))
  }

  function Mean(total: int, n: nat): (r: real)
    requires n > 0
  {
    total as real / n as real
  }

  datatype Aggregate = Aggregate(n: nat, warnings: map<string, real>, argBlocks: real, fabrications: real,
                                 iterations: Option<real>, firstBaseline: Option<real>)

  const IterationsOf := (m: Metrics) => m.iterations
  const FirstBaselineOf := (m: Metrics) => m.firstBaseline

  /** The values present. */
  function Present(trials: seq<Metrics>, field: Metrics -> Option<int>): seq<int>
    decreases |trials|
  {
    if trials == [] then [] else
      var last := field(trials[|trials| - 1]);
      Present(trials[..|trials| - 1], field) + if last.Some? then [last.value] else []
  }

  function SumOf(xs: seq<int>): int
    decreases |xs|
  {
    if xs == [] then 0 else SumOf(xs[..|xs| - 1]) + xs[|xs| - 1]
  }

  function MeanPresent(trials: seq<Metrics>, field: Metrics -> Option<int>): Option<real> {
    var xs := Present(trials, field);
    if xs == [] then None else Some(Mean(SumOf(xs), |xs|))
  }

  /** `None` stands for the empty result of no trials. */
  function AggregateOf(trials: seq<Metrics>): Option<Aggregate> {
    var n := |trials|;
    if n == 0 then None
    else Some(Aggregate(n, map code | code in Codes(trials) :: Mean(Total(trials, CodeCount(code)), n),
                        Mean(Total(trials, Blocks), n), Mean(Total(trials, Suspected), n),
                        MeanPresent(trials, IterationsOf), MeanPresent(trials, FirstBaselineOf)))
  }

  lemma MeanTimes(total: int, n: nat)
    requires n > 0
    ensures n as real * Mean(total, n) == total as real
  {
  }

  lemma CodesPush(trials: seq<Metrics>, m: Metrics)
    ensures Codes(trials + [m]) == Codes(trials) + m.warnings.Keys
  {
    var all := trials + [m];
    forall code ensures code in Codes(all) <==> code in Codes(trials) || code in m.warnings {
      if code in Codes(trials) {
        var i :| 0 <= i < |trials| && code in trials[i].warnings;
        assert code in all[i].warnings;
      }
      if code in m.warnings {
        assert code in all[|trials|].warnings;
      }
    }
  }

  lemma {:induction false} NotCounted(trials: seq<Metrics>, code: string)
    requires code !in Codes(trials)
    ensures Total(trials, CodeCount(code)) == 0
    decreases |trials|
  {
    if trials != [] {
      var init, m := trials[..|trials| - 1], trials[|trials| - 1];
      assert trials == init + [m];
      CodesPush(init, m);
      NotCounted(init, code);
    }
  }

  function Widen(m: map<string, nat>, keys: set<string>): map<string, nat> {
    map code | code in keys :: if code in m then m[code] else 0
  }

  /** The number of tallied warnings. */
  ghost function TalliedWarnings(): Metrics -> nat {
    (m: Metrics) => Sum(m.warnings)
  }

  /** The totals by code add up to the tallied warnings of all trials. */
  lemma {:induction false} TotalsAddUp(trials: seq<Metrics>)
    ensures Sum(CodeTotals(trials)) == Total(trials, TalliedWarnings())
    decreases |trials|
  {
    hide Sum, Total, Codes;
    if trials == [] {
      NoTotals();
    } else {
      var init, m := trials[..|trials| - 1], trials[|trials| - 1];
      assert trials == init + [m];
      TotalsAddUp(init);
      TotalPush(init, m, TalliedWarnings());
      CodesPush(init, m);
      var keys := Codes(trials);
      var a, b := Widen(CodeTotals(init), keys), Widen(m.warnings, keys);
      forall code | code in keys ensures CodeTotals(trials)[code] == a[code] + b[code] {
        TotalPush(init, m, CodeCount(code));
        if code !in Codes(init) {
          NotCounted(init, code);
        }
      }
      SumAdd(a, b, CodeTotals(trials));
      SumExtend(CodeTotals(init), a);
      SumExtend(m.warnings, b);
    }
  }

  lemma NoTotals()
    ensures Sum(CodeTotals([])) == 0 && Total([], TalliedWarnings()) == 0
  {
    assert CodeTotals([]) == map[];
  }

  function MetricsOf(traces: seq<seq<Event>>): seq<Metrics> {
    seq(|traces|, i requires 0 <= i < |traces| => Queries(traces[i]))
  }

  function ResolvableIn(): seq<Event> -> nat {
    es => Count(es, Resolvable)
  }

  /** n times each mean is the summed count; a code has a mean exactly when some trial tallied
      it; and n times the means of all codes add up to the resolvable warnings of all traces. */
  lemma MeansAccount(traces: seq<seq<Event>>)
    requires traces != []
    ensures AggregateOf(MetricsOf(traces)).Some? && AggregateOf(MetricsOf(traces)).value.n == |traces|
    ensures Accounts(MetricsOf(traces), AggregateOf(MetricsOf(traces)).value)
    ensures Sum(CodeTotals(MetricsOf(traces))) == Total(traces, ResolvableIn())
  {
    hide Total, Sum, Queries, Accounts, CodeTotals, MeanPresent, Codes;
    var trials := MetricsOf(traces);
    AggregateAccounts(trials);
    TotalsAddUp(trials);
    TalliesOfTraces(traces);
  }

  ghost predicate Accounts(trials: seq<Metrics>, out: Aggregate) {
    var n := |trials| as real;
    && (forall code :: code in out.warnings <==> code in Codes(trials))
    && (forall code :: code in out.warnings ==> n * out.warnings[code] == CodeTotals(trials)[code] as real)
    && n * out.argBlocks == Total(trials, Blocks) as real
    && n * out.fabrications == Total(trials, Suspected) as real
  }

  lemma AggregateAccounts(trials: seq<Metrics>)
    requires trials != []
    ensures Accounts(trials, AggregateOf(trials).value)
  {
    hide Total, Mean, MeanPresent, Codes;
    MeanTimes(Total(trials, Blocks), |trials|);
    MeanTimes(Total(trials, Suspected), |trials|);
    var out := AggregateOf(trials).value;
    forall code | code in out.warnings
      ensures |trials| as real * out.warnings[code] == CodeTotals(trials)[code] as real
    {
      MeanTimes(Total(trials, CodeCount(code)), |trials|);
    }
  }

  lemma {:induction false} TalliesOfTraces(traces: seq<seq<Event>>)
    ensures Total(MetricsOf(traces), TalliedWarnings()) == Total(traces, ResolvableIn())
    decreases |traces|
  {
    hide Sum, Count;
    if traces != [] {
      var init, es := traces[..|traces| - 1], traces[|traces| - 1];
      TalliesOfTraces(init);
      assert MetricsOf(traces) == MetricsOf(init) + [Queries(es)];
      TotalPush(MetricsOf(init), Queries(es), TalliedWarnings());
      assert traces == init + [es];
      TotalPush(init, es, ResolvableIn());
      TallyExact(es);
    }
  }

  /** Missing values are left out of a mean, which lies between the least and the largest value
      present. */
  lemma MeanOfPresent(trials: seq<Metrics>, field: Metrics -> Option<int>, lo: int, hi: int)
    requires forall i :: 0 <= i < |trials| && field(trials[i]).Some? ==> lo <= field(trials[i]).value <= hi
    ensures MeanPresent(trials, field).None? <==> forall i :: 0 <= i < |trials| ==> field(trials[i]).None?
    ensures MeanPresent(trials, field).Some? ==> lo as real <= MeanPresent(trials, field).value <= hi as real
  {
    hide Mean;
    PresentBounds(trials, field, lo, hi);
    var xs := Present(trials, field);
    if xs != [] {
      SumBounds(xs, lo, hi);
      MeanBounds(SumOf(xs), |xs|, lo, hi);
    }
  }

  lemma {:induction false} PresentBounds(trials: seq<Metrics>, field: Metrics -> Option<int>, lo: int, hi: int)
    requires forall i :: 0 <= i < |trials| && field(trials[i]).Some? ==> lo <= field(trials[i]).value <= hi
    ensures Present(trials, field) == [] <==> forall i :: 0 <= i < |trials| ==> field(trials[i]).None?
    ensures forall i :: 0 <= i < |Present(trials, field)| ==> lo <= Present(trials, field)[i] <= hi
    decreases |trials|
  {
    if trials != [] {
      var init := trials[..|trials| - 1];
      assert forall i :: 0 <= i < |init| ==> trials[i] == init[i];
      PresentBounds(init, field, lo, hi);
    }
  }

  lemma {:induction false} SumBounds(xs: seq<int>, lo: int, hi: int)
    requires forall i :: 0 <= i < |xs| ==> lo <= xs[i] <= hi
    ensures |xs| * lo <= SumOf(xs) <= |xs| * hi
    decreases |xs|
  {
    if xs != [] {
      var n := |xs| - 1;
      SumBounds(xs[..n], lo, hi);
      assert (n + 1) * lo == n * lo + lo && (n + 1) * hi == n * hi + hi;
    }
  }

  lemma MeanBounds(total: int, n: nat, lo: int, hi: int)
    requires n > 0 && n * lo <= total <= n * hi
    ensures lo as real <= Mean(total, n) <= hi as real
  {
    assert (n * lo) as real == n as real * lo as real && (n * hi) as real == n as real * hi as real;
    QuotientBounds(total as real, n as real, lo as real, hi as real);
  }

  lemma QuotientBounds(t: real, k: real, lo: real, hi: real)
    requires k > 0.0 && k * lo <= t <= k * hi
    ensures lo <= t / k <= hi
  {
    assert t / k - lo == (t - k * lo) / k;
    assert hi - t / k == (k * hi - t) / k;
  }
}
