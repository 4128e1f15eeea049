/** What the metrics of a trace count, event by event. */
module TraceLaws {
  import opened TextLines
  import opened Totals
  import opened Wrappers
  import opened TraceMetrics

  /** The positions of the events that satisfy a condition. */
  function Where(es: seq<Event>, p: Event -> bool): set<nat> {
    set i | 0 <= i < |es| && p(es[i])
  }

  lemma {:induction false} CountWhere(es: seq<Event>, p: Event -> bool)
    ensures Count(es, p) == |Where(es, p)|
    decreases |es|
  {
    if es == [] {
      assert Where(es, p) == {};
    } else {
      var n := |es| - 1;
      var init := es[..n];
      CountWhere(init, p);
      assert es == init + [es[n]];
      CountPush(init, es[n], p);
      assert Where(es, p) == Where(init, p) + if p(es[n]) then {n} else {};
    }
  }

  // ----- The conditions, letter by letter -----

  ghost predicate NamesFabrication(s: string) {
    exists before, after :: s == before + ("fabrication" + after)
  }

  lemma FabricatedIff(s: string)
    ensures Fabricated(s) <==> NamesFabrication(s)
  {
    var part := "fabrication";
    if Contains(s, part) {
      var i :| 0 <= i <= |s| - |part| && OccursAt(s, part, i);
      assert s == s[..i] + (part + s[i + |part|..]);
    }
    if before, after :| s == before + (part + after) {
      assert OccursAt(s, part, |before|);
    }
  }

  /** A warning whose own code, or without one the nested code, names a fabrication; or such a failure. */
  ghost predicate IsFabrication(e: Event) {
    match e
    case RunWarning(code, data) =>
      NamesFabrication(code) || (code == "" && data.Some? && NamesFabrication(data.value.code))
    case ExperimentCompleted(failure) => NamesFabrication(failure)
    case _ => false
  }

  lemma SuspectIff(e: Event)
    ensures Suspects(e) <==> IsFabrication(e)
  {
    hide Fabricated, NamesFabrication;
    forall s
      ensures Fabricated(s) <==> NamesFabrication(s)
    {
      FabricatedIff(s);
    }
    NothingNamed();
  }

  lemma NothingNamed()
    ensures !NamesFabrication("")
  {
  }

  /** The warning's own code is that; or, having none, the nested code; or, with neither, the nested reason. */
  predicate IsWarningOf(e: Event, code: string) {
    code != "" && e.RunWarning? &&
    (e.code == code
     || (e.code == "" && e.data.Some? &&
         (e.data.value.code == code || (e.data.value.code == "" && e.data.value.reason == code))))
  }

  lemma ResolvedIff(e: Event, code: string)
    ensures Resolved(e) == Some(code) <==> IsWarningOf(e, code)
  {
  }

  // ----- The counts -----

  ghost function FabricationsAt(es: seq<Event>): set<nat> {
    set i | 0 <= i < |es| && IsFabrication(es[i])
  }

  function BlocksAt(es: seq<Event>): set<nat> {
    set i | 0 <= i < |es| && es[i] == ExperimentCompleted("arg_contract")
  }

  function WarningsAt(es: seq<Event>, code: string): set<nat> {
    set i | 0 <= i < |es| && IsWarningOf(es[i], code)
  }

  /** The counts of a trace are those of its events: blocked arguments, fabrications, and each code of a
      warning. */
  lemma CountsOfEvents(es: seq<Event>, code: string)
    ensures Queries(es).argBlocks == |BlocksAt(es)|
    ensures Queries(es).fabrications == |FabricationsAt(es)|
    ensures code in Queries(es).warnings <==> WarningsAt(es, code) != {}
    ensures code in Queries(es).warnings ==> Queries(es).warnings[code] == |WarningsAt(es, code)|
  {
    hide Count, Warnings, Suspects, IsFabrication, Resolved, IsWarningOf, Iterations, FirstBaseline;
    CountWhere(es, IsBlock);
    assert Where(es, IsBlock) == BlocksAt(es);
    CountWhere(es, IsSuspect);
    CountWhere(es, HasCode(code));
    forall e
      ensures Suspects(e) <==> IsFabrication(e)
      ensures Resolved(e) == Some(code) <==> IsWarningOf(e, code)
    {
      SuspectIff(e);
      ResolvedIff(e, code);
    }
    assert Where(es, IsSuspect) == FabricationsAt(es);
    assert Where(es, HasCode(code)) == WarningsAt(es, code);
    TallyExact(es);
  }

  // ----- Iterations -----

  /** A positive iteration number occurs. */
  predicate HasNumber(es: seq<Event>) {
    exists i :: 0 <= i < |es| && es[i].ReplIteration? && es[i].iteration.Some? && es[i].iteration.value > 0
  }

  /** `n` is the largest iteration number. */
  predicate IsLargestNumber(es: seq<Event>, n: int) {
    (exists i :: 0 <= i < |es| && es[i] == ReplIteration(Some(n))) &&
    forall i :: 0 <= i < |es| && es[i].ReplIteration? && es[i].iteration.Some? ==> es[i].iteration.value <= n
  }

  function IterationsAt(es: seq<Event>): set<nat> {
    set i | 0 <= i < |es| && es[i].ReplIteration?
  }

  lemma LargestNumber(es: seq<Event>)
    ensures MaxIteration(es) > 0 <==> HasNumber(es)
    ensures HasNumber(es) ==> IsLargestNumber(es, MaxIteration(es))
    ensures !HasNumber(es) ==> MaxIteration(es) == 0
  {
    hide MaxIteration;
    MaxExact(es);
    if MaxIteration(es) != 0 {
      var i :| 0 <= i < |es| && es[i] == ReplIteration(Some(MaxIteration(es)));
      assert es[i].iteration.value > 0;
    }
  }

  /** Without a completion that has a number, the iterations are the largest positive number, or not known. */
  lemma IterationsWithoutCompletion(es: seq<Event>)
    requires forall i :: 0 <= i < |es| && es[i].RunComplete? ==> es[i].iterations.None?
    ensures HasNumber(es) ==> exists n :: Queries(es).iterations == Some(n) && IsLargestNumber(es, n)
    ensures !HasNumber(es) ==> Queries(es).iterations == None
  {
    hide MaxIteration, IsLargestNumber, HasNumber, LastComplete, Count, Warnings, FirstBaseline;
    NoCompletion(es);
    LargestNumber(es);
  }

  lemma {:induction false} NoCompletion(es: seq<Event>)
    requires forall i :: 0 <= i < |es| && es[i].RunComplete? ==> es[i].iterations.None?
    ensures LastComplete(es) == None
    decreases |es|
  {
    if es != [] {
      NoCompletion(es[..|es| - 1]);
    }
  }

  /** The first start of a baseline is recorded at the largest positive number before it, or, when there is
      none, at the number of iteration events before it; without such a start nothing is. */
  lemma BaselineOfEvents(es: seq<Event>, k: nat)
    requires k <= |es| && (k < |es| ==> es[k] == PrimitiveCall("implement_baseline", "start"))
    requires forall j :: 0 <= j < k ==> es[j] != PrimitiveCall("implement_baseline", "start")
    ensures k == |es| ==> Queries(es).firstBaseline == None
    ensures k < |es| && HasNumber(es[..k]) ==>
      exists n :: Queries(es).firstBaseline == Some(n) && IsLargestNumber(es[..k], n)
    ensures k < |es| && !HasNumber(es[..k]) ==> Queries(es).firstBaseline == Some(|IterationsAt(es[..k])|)
  {
    hide MaxIteration, IsLargestNumber, HasNumber, LastComplete, Count, Warnings, FirstBaseline;
    forall j | 0 <= j < k
      ensures !StartsBaseline(es[j])
    {
      assert es[j] != PrimitiveCall("implement_baseline", "start");
    }
    if k == |es| {
      NoneStarted(es);
    } else {
      FirstDecides(es, k);
      LargestNumber(es[..k]);
      CountWhere(es[..k], IsIteration);
      assert Where(es[..k], IsIteration) == IterationsAt(es[..k]);
    }
  }
}
