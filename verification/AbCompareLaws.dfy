/** What the A/B report says, read off the rows alone. */
module AbCompareLaws {
  import opened Wrappers
  import opened AbCompare

  // ----- Which runs compete -----

  /** A run matches on its paper or on its pair; without a selector all match. */
  predicate Selected(r: Row, q: Request) {
    || (q.paper.None? && q.pair.None?)
    || (q.paper.Some? && r.paper.Some? && r.paper.value == q.paper.value)
    || (q.pair.Some? && r.pair.Some? && r.pair.value == q.pair.value)
  }

  lemma MatchesIff(r: Row, q: Request)
    ensures Matches(r, q) <==> Selected(r, q)
  {
  }

  /** A selected control run, or a selected run without a stamp when such runs may stand in for it: not
      in validator mode, nor when only the pair is given. */
  predicate MayBeControl(r: Row, q: Request) {
    Selected(r, q) &&
    (r.arm == "control" || (r.arm == "unstamped" && !q.requireStamped && (q.pair.None? || q.paper.Some?)))
  }

  predicate MayBeBes(r: Row, q: Request) {
    Selected(r, q) && r.arm == "bes"
  }

  lemma {:induction false} OfArmExact(rows: seq<Row>, q: Request, arm: string)
    ensures forall r :: r in OfArm(rows, q, arm) <==> r in rows && Matches(r, q) && r.arm == arm
    decreases |rows|
  {
    hide Matches;
    if rows != [] {
      var init, last := rows[..|rows| - 1], rows[|rows| - 1];
      OfArmExact(init, q, arm);
      assert rows == init + [last];
    }
  }

  lemma CandidatesExact(rows: seq<Row>, q: Request)
    ensures forall r :: r in ControlRows(rows, q) <==> r in rows && MayBeControl(r, q)
    ensures forall r :: r in OfArm(rows, q, BES) <==> r in rows && MayBeBes(r, q)
  {
    hide Matches, Selected, OfArm;
    OfArmExact(rows, q, CONTROL);
    OfArmExact(rows, q, UNSTAMPED);
    OfArmExact(rows, q, BES);
    forall r
      ensures Matches(r, q) <==> Selected(r, q)
    {
      MatchesIff(r, q);
    }
    assert "control" != "unstamped" && |"bes"| == 3;
  }

  predicate LargestOf(picked: Option<Row>, rows: seq<Row>, select: Select) {
    if picked.None? then rows == [] else
      picked.value in rows && forall r :: r in rows ==> !Loses(picked.value, r, select)
  }

  lemma PickIsLargest(rows: seq<Row>, select: Select)
    ensures LargestOf(Pick(rows, select), rows, select)
  {
    hide Loses, Pick;
    if rows == [] {
      PickOfNone(select);
    } else {
      var k := PickIsFirstMax(rows, select);
    }
  }

  lemma PickOfNone(select: Select)
    ensures Pick([], select) == None
  {
  }

  /** Each arm is shown with a run if and only if some run competes for it, and the run shown competes and
      loses to none that does. */
  lemma ShownRuns(rows: seq<Row>, q: Request, walk: set<string> -> seq<string>)
    ensures var r := Compare(rows, q, walk);
      && (r.control.None? <==> forall x :: x in rows ==> !MayBeControl(x, q))
      && (r.control.Some? ==> (r.control.value in rows && MayBeControl(r.control.value, q) &&
            forall x :: x in rows && MayBeControl(x, q) ==> !Loses(r.control.value, x, q.select)))
      && (r.bes.None? <==> forall x :: x in rows ==> !MayBeBes(x, q))
      && (r.bes.Some? ==> (r.bes.value in rows && MayBeBes(r.bes.value, q) &&
            forall x :: x in rows && MayBeBes(x, q) ==> !Loses(r.bes.value, x, q.select)))
  {
    hide Matches, MayBeControl, MayBeBes, ControlRows, OfArm, Loses, Pick, TopMoves, DeltasOf, Refused;
    CandidatesExact(rows, q);
    PickIsLargest(ControlRows(rows, q), q.select);
    PickIsLargest(OfArm(rows, q, BES), q.select);
    NoneIn(ControlRows(rows, q));
    NoneIn(OfArm(rows, q, BES));
  }

  lemma NoneIn(rows: seq<Row>)
    ensures rows == [] <==> forall r :: r !in rows
  {
    if rows != [] {
      assert rows[0] in rows;
    }
  }

  /** What a score counts as: one of 0 counts as -1. */
  function Counted(score: real): real {
    if score == 0.0 then -1.0 else score
  }

  /** One run loses to another: `best` prefers a score to none, and a higher one; `latest` the later
      completion time, by its text. */
  lemma LosesIff(a: Row, b: Row)
    ensures Loses(a, b, Best) <==>
      b.overall.Some? && (a.overall.None? || Counted(a.overall.value) < Counted(b.overall.value))
    ensures Loses(a, b, Latest) <==>
      exists k :: 0 <= k <= |a.completedAt| && Earlier(a.completedAt, b.completedAt, k)
  {
    hide LexLess;
    LexIff(a.completedAt, b.completedAt);
  }

  /** The order of texts, character by character. */
  lemma {:induction false} LexIff(a: string, b: string)
    ensures LexLess(a, b) <==> exists k :: 0 <= k <= |a| && Earlier(a, b, k)
  {
    if LexLess(a, b) {
      if a == "" || a[0] < b[0] {
        assert Earlier(a, b, 0);
      } else {
        LexIff(a[1..], b[1..]);
        var k :| 0 <= k <= |a[1..]| && Earlier(a[1..], b[1..], k);
        assert a[..k + 1] == [a[0]] + a[1..][..k] && b[..k + 1] == [b[0]] + b[1..][..k];
        assert Earlier(a, b, k + 1);
      }
    } else if k :| 0 <= k <= |a| && Earlier(a, b, k) {
      if k > 0 {
        assert a[0] == a[..k][0] && b[0] == b[..k][0];
        assert a[1..][..k - 1] == a[..k][1..] && b[1..][..k - 1] == b[..k][1..];
        assert Earlier(a[1..], b[1..], k - 1);
        LexIff(a[1..], b[1..]);
      }
    }
  }

  /** The first `k` characters are the same, and there `a` ends, or has the smaller character. */
  predicate Earlier(a: string, b: string, k: nat)
    requires k <= |a|
  {
    k < |b| && a[..k] == b[..k] && (k == |a| || a[k] < b[k])
  }

  // ----- What is reported of them -----

  /** The difference from control to bes, when both have a value. */
  predicate IsDifference(d: Option<real>, control: Option<real>, bes: Option<real>) {
    if control.Some? && bes.Some? then d == Some(bes.value - control.value) else d == None
  }

  /** Deltas go from control to bes. Outside validator mode they are given if and only if both arms have
      a run. */
  lemma DeltasFromControlToBes(rows: seq<Row>, q: Request, walk: set<string> -> seq<string>)
    ensures var r := Compare(rows, q, walk);
      && (!q.requireStamped ==> r.error.None? && (r.deltas.Some? <==> r.control.Some? && r.bes.Some?))
      && (r.deltas.Some? ==>
            r.control.Some? && r.bes.Some? &&
            var c, b, d := r.control.value, r.bes.value, r.deltas.value;
            && IsDifference(d.overall, c.overall, b.overall) && IsDifference(d.adjusted, c.adjusted, b.adjusted)
            && IsDifference(d.wallClock, c.wallClock, b.wallClock) && IsDifference(d.cost, c.cost, b.cost))
  {
    hide Pick, ControlRows, OfArm, TopMoves, ValidateStampedPair;
  }

  /** The leaf is scored in both arms, and not the same but for less than 1e-9. */
  predicate IsReported(m: Move, c: Row, b: Row) {
    && m.leaf in c.leaves && m.leaf in b.leaves
    && m.control == c.leaves[m.leaf] && m.bes == b.leaves[m.leaf] && m.delta == b.leaves[m.leaf] - c.leaves[m.leaf]
    && (m.delta >= 0.000000001 || m.delta <= -0.000000001)
  }

  lemma MovesFromControlToBes(rows: seq<Row>, q: Request, walk: set<string> -> seq<string>)
    requires forall all :: Enumerates(walk(all), all)
    ensures var r := Compare(rows, q, walk);
      && |r.moves| <= 8
      && (r.moves != [] ==> (r.control.Some? && r.bes.Some? &&
            forall m :: m in r.moves ==> IsReported(m, r.control.value, r.bes.value)))
  {
    hide Pick, ControlRows, OfArm, TopMoves, DeltasOf, Refused, IsMove, IsReported;
    var r := Compare(rows, q, walk);
    if r.moves != [] {
      var c, b := r.control.value, r.bes.value;
      LeafMovesAreLargest(walk(c.leaves.Keys + b.leaves.Keys), c, b);
      forall m | IsMove(m, c, b)
        ensures IsReported(m, c, b)
      {
        ReportedMove(m, c, b);
      }
    }
  }

  lemma ReportedMove(m: Move, c: Row, b: Row)
    requires IsMove(m, c, b)
    ensures IsReported(m, c, b)
  {
  }

  /** Why validator mode refuses, the first reason first. The two reasons about stamps never arise: the runs
      picked have the stamp of their arm. */
  lemma RefusalReason(rows: seq<Row>, q: Request, walk: set<string> -> seq<string>)
    requires q.requireStamped
    ensures var r := Compare(rows, q, walk);
      if r.control.None? || r.bes.None? then r.error == Some(MissingArm) else
        var c, b := r.control.value, r.bes.value;
        && (r.error == Some(ControlIncomplete) <==> !c.archiveComplete)
        && (r.error == Some(BesIncomplete) <==> c.archiveComplete && !b.archiveComplete)
        && (r.error == Some(ControlNoRubric) <==> c.archiveComplete && b.archiveComplete && c.rubricHash.None?)
        && (r.error == Some(BesNoRubric) <==>
              c.archiveComplete && b.archiveComplete && c.rubricHash.Some? && b.rubricHash.None?)
        && (r.error == Some(RubricDiffers) <==>
              c.archiveComplete && b.archiveComplete && c.rubricHash.Some? && b.rubricHash.Some? &&
              c.rubricHash.value != b.rubricHash.value)
        && (r.error == Some(ScopeDiffers) <==>
              c.archiveComplete && b.archiveComplete && c.rubricHash.Some? && c.rubricHash == b.rubricHash &&
              c.scope != b.scope)
        && r.error != Some(ControlUnstamped) && r.error != Some(BesUnstamped)
  {
    hide Pick, Matches, TopMoves, OfArm, DeltasOf, ControlRows;
    ValidatorGate(rows, q, walk);
    StampsDiffer();
  }

  lemma StampsDiffer()
    ensures "control" != "unstamped" && "bes" != "unstamped"
  {
  }
}
