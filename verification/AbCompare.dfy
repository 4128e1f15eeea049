/** The A/B report of a paper: one run picked per arm, the validator's gate, the deltas and the
    largest leaf moves. */
module AbCompare {
  import opened Wrappers
  import opened StableSort

  /** What a run's report says. `archiveComplete`, `rubricHash` and `scope` (in canonical form)
      are read from its directory; `arm` is "unstamped" when the report has no stamp. */
  datatype Row = Row(arm: string, paper: Option<string>, pair: Option<string>, overall: Option<real>,
                     adjusted: Option<real>,
                     wallClock: Option<real>, cost: Option<real>, completedAt: string, leaves: map<string, real>,
                     archiveComplete: bool, rubricHash: Option<string>, scope: string)

  datatype Select = Best | Latest

  datatype Request = Request(paper: Option<string>, pair: Option<string>, select: Select, requireStamped: bool)

  datatype Refusal =
    | MissingArm | ControlUnstamped | BesUnstamped | ControlIncomplete | BesIncomplete
    | ControlNoRubric | BesNoRubric | RubricDiffers | ScopeDiffers

  datatype Deltas = Deltas(overall: Option<real>, adjusted: Option<real>, wallClock: Option<real>, cost: Option<real>)

  datatype Move = Move(leaf: string, control: real, bes: real, delta: real)

  /** `deltas` is `None` for the empty block. */
  datatype Report = Report(control: Option<Row>, bes: Option<Row>, error: Option<Refusal>, deltas: Option<Deltas>,
                           moves: seq<Move>)

  const CONTROL := "control"
  const BES := "bes"
  const UNSTAMPED := "unstamped"
  const TOP := 8
  const TINY := 0.000000001

  predicate Stamped(r: Row) {
    r.arm != UNSTAMPED
  }

  // ----- Picking a run -----

  /** `(score is not None, score or -1.0)`, where a score of 0 counts as -1. */
  function ScoreKey(r: Row): (bool, real) {
    (r.overall.Some?, if r.overall.Some? && r.overall.value != 0.0 then r.overall.value else -1.0)
  }

  predicate LexLess(a: string, b: string) {
    b != "" && (a == "" || a[0] < b[0] || (a[0] == b[0] && LexLess(a[1..], b[1..])))
  }

  /** `a` loses to `b`. */
  predicate Loses(a: Row, b: Row, select: Select) {
    match select
    case Best =>
      var x, y := ScoreKey(a), ScoreKey(b);
      (!x.0 && y.0) || (x.0 == y.0 && x.1 < y.1)
    case Latest => LexLess(a.completedAt, b.completedAt)
  }

  /** `max(rows, key=...)`: the first row none of the others beats. */
  function Pick(rows: seq<Row>, select: Select): Option<Row>
    decreases |rows|
  {
    if rows == [] then None else
      var best, last := Pick(rows[..|rows| - 1], select), rows[|rows| - 1];
      if best.None? || Loses(best.value, last, select) then Some(last) else best
  }

  // ----- The comparison -----

  predicate Matches(r: Row, q: Request) {
    var paperOk := q.paper.Some? && r.paper == q.paper;
    var pairOk := q.pair.Some? && r.pair == q.pair;
    if q.paper.Some? && q.pair.Some? then paperOk || pairOk
    else if q.paper.Some? then paperOk
    else q.pair.Some? ==> pairOk
  }

  /** The matching rows of one arm, in order. */
  function OfArm(rows: seq<Row>, q: Request, arm: string): seq<Row>
    decreases |rows|
  {
    if rows == [] then [] else
      var last := rows[|rows| - 1];
      OfArm(rows[..|rows| - 1], q, arm) + if Matches(last, q) && last.arm == arm then [last] else []
  }

  predicate AllowUnstamped(q: Request) {
    !q.requireStamped && (q.pair.None? || q.paper.Some?)
  }

  function ControlRows(rows: seq<Row>, q: Request): seq<Row> {
    OfArm(rows, q, CONTROL) + if AllowUnstamped(q) then OfArm(rows, q, UNSTAMPED) else []
  }

  function ValidateStampedPair(control: Row, bes: Row): Option<Refusal> {
    if !Stamped(control) then Some(ControlUnstamped)
    else if !Stamped(bes) then Some(BesUnstamped)
    else if !control.archiveComplete then Some(ControlIncomplete)
    else if !bes.archiveComplete then Some(BesIncomplete)
    else if control.rubricHash.None? then Some(ControlNoRubric)
    else if bes.rubricHash.None? then Some(BesNoRubric)
    else if control.rubricHash != bes.rubricHash then Some(RubricDiffers)
    else if control.scope != bes.scope then Some(ScopeDiffers)
    else None
  }

  function Refused(control: Option<Row>, bes: Option<Row>, q: Request): Option<Refusal> {
    if !q.requireStamped then None
    else if control.None? || bes.None? then Some(MissingArm)
    else ValidateStampedPair(control.value, bes.value)
  }

  function Delta(a: Option<real>, b: Option<real>): Option<real> {
    if a.Some? && b.Some? then Some(b.value - a.value) else None
  }

  function DeltasOf(control: Row, bes: Row): Deltas {
    Deltas(Delta(control.overall, bes.overall), Delta(control.adjusted, bes.adjusted),
           Delta(control.wallClock, bes.wallClock), Delta(control.cost, bes.cost))
  }

  function Size(x: real): real {
    if x < 0.0 then -x else x
  }

  predicate Moved(leaf: string, control: Row, bes: Row) {
    leaf in control.leaves && leaf in bes.leaves && Size(bes.leaves[leaf] - control.leaves[leaf]) >= TINY
  }

  function MoveOf(leaf: string, control: Row, bes: Row): Move
    requires Moved(leaf, control, bes)
  {
    var c, v := control.leaves[leaf], bes.leaves[leaf];
    Move(leaf, c, v, v - c)
  }

  function AllMoves(leaves: seq<string>, control: Row, bes: Row): seq<Move>
    decreases |leaves|
  {
    if leaves == [] then [] else
      var last := leaves[|leaves| - 1];
      AllMoves(leaves[..|leaves| - 1], control, bes)
      + if Moved(last, control, bes) then [MoveOf(last, control, bes)] else []
  }

  const BySize := (m: Move) => -Size(m.delta)

  function Take(ms: seq<Move>, n: nat): seq<Move> {
    if |ms| <= n then ms else ms[..n]
  }

  function TopMoves(leaves: seq<string>, control: Row, bes: Row): seq<Move> {
    Take(Sort(AllMoves(leaves, control, bes), BySize), TOP)
  }

  /** `listed` names each element of the set once: the order in which a set is walked. */
  ghost predicate Enumerates(listed: seq<string>, all: set<string>) {
    && (forall x :: x in all <==> x in listed)
    && (forall i, j :: 0 <= i < j < |listed| ==> listed[i] != listed[j])
  }

  function Compare(rows: seq<Row>, q: Request, walk: set<string> -> seq<string>): Report {
    var control, bes := Pick(ControlRows(rows, q), q.select), Pick(OfArm(rows, q, BES), q.select);
    var error := Refused(control, bes, q);
    if control.Some? && bes.Some? && error.None? then
      var leaves := walk(control.value.leaves.Keys + bes.value.leaves.Keys);
      Report(control, bes, error, Some(DeltasOf(control.value, bes.value)), TopMoves(leaves, control.value, bes.value))
    else Report(control, bes, error, None, [])
  }

  method BuildComparison(rows: seq<Row>, q: Request, walk: set<string> -> seq<string>) returns (r: Report)
    ensures r == Compare(rows, q, walk)
  {
    hide OfArm, Matches, Pick, TopMoves, DeltasOf, ValidateStampedPair, Grouped, Get;
    var byArm: map<string, seq<Row>> := map[];
    NoRows(q);
    for i := 0 to |rows|
      invariant Grouped(byArm, rows[..i], q)
    {
      var row := rows[i];
      GroupStep(byArm, rows, i, q);
      if !Matches(row, q) {
        continue;
      }
      byArm := byArm[row.arm := Get(byArm, row.arm) + [row]];
    }
    assert rows[..|rows|] == rows;
    GetIs(byArm, rows, q, CONTROL);
    GetIs(byArm, rows, q, UNSTAMPED);
    GetIs(byArm, rows, q, BES);
    var control := Pick(Get(byArm, CONTROL) + (if AllowUnstamped(q) then Get(byArm, UNSTAMPED) else []), q.select);
    var bes := Pick(Get(byArm, BES), q.select);
    var error: Option<Refusal> := None;
    if q.requireStamped {
      error := if control.None? || bes.None? then Some(MissingArm) else ValidateStampedPair(control.value, bes.value);
    }
    var deltas: Option<Deltas> := None;
    var moves: seq<Move> := [];
    if control.Some? && bes.Some? && error.None? {
      var c, b := control.value, bes.value;
      deltas := Some(DeltasOf(c, b));
      moves := ListMoves(walk(c.leaves.Keys + b.leaves.Keys), c, b);
    }
    return Report(control, bes, error, deltas, moves);
  }

  function Get(byArm: map<string, seq<Row>>, arm: string): seq<Row> {
    if arm in byArm then byArm[arm] else []
  }

  ghost predicate Grouped(byArm: map<string, seq<Row>>, rows: seq<Row>, q: Request) {
    forall arm :: Get(byArm, arm) == OfArm(rows, q, arm)
  }

  lemma NoRows(q: Request)
    ensures forall rows :: rows == [] ==> Grouped(map[], rows, q)
  {
  }

  lemma GetIs(byArm: map<string, seq<Row>>, rows: seq<Row>, q: Request, arm: string)
    requires Grouped(byArm, rows, q)
    ensures Get(byArm, arm) == OfArm(rows, q, arm)
  {
  }

  lemma GroupStep(byArm: map<string, seq<Row>>, rows: seq<Row>, i: nat, q: Request)
    requires i < |rows| && Grouped(byArm, rows[..i], q)
    ensures var r := rows[i];
      var after := if Matches(r, q) then byArm[r.arm := Get(byArm, r.arm) + [r]] else byArm;
      Grouped(after, rows[..i + 1], q)
  {
    hide Matches;
    assert rows[..i + 1][..i] == rows[..i];
    var after := if Matches(rows[i], q) then byArm[rows[i].arm := Get(byArm, rows[i].arm) + [rows[i]]] else byArm;
    forall arm ensures Get(after, arm) == OfArm(rows[..i + 1], q, arm) && OfArm(rows[..i + 1], q, arm) ==
      if Matches(rows[i], q) && rows[i].arm == arm then OfArm(rows[..i], q, arm) + [rows[i]]
        else OfArm(rows[..i], q, arm)
    {
      assert OfArm(rows[..i], q, arm) + [] == OfArm(rows[..i], q, arm);
      assert Get(byArm, arm) == OfArm(rows[..i], q, arm);
    }
  }

  method ListMoves(leaves: seq<string>, control: Row, bes: Row) returns (moves: seq<Move>)
    ensures moves == TopMoves(leaves, control, bes)
  {
    moves := [];
    for i := 0 to |leaves|
      invariant moves == AllMoves(leaves[..i], control, bes)
    {
      assert leaves[..i + 1][..i] == leaves[..i];
      var leaf := leaves[i];
      if leaf !in control.leaves || leaf !in bes.leaves || Size(bes.leaves[leaf] - control.leaves[leaf]) < TINY {
        continue;
      }
      moves := moves + [Move(leaf, control.leaves[leaf], bes.leaves[leaf], bes.leaves[leaf] - control.leaves[leaf])];
    }
    assert leaves[..|leaves|] == leaves;
    moves := Sort(moves, BySize);
    if |moves| > TOP {
      moves := moves[..TOP];
    }
  }

  // ----- The gate -----

  /** The conditions under which two runs may be compared. */
  predicate Comparable(c: Row, b: Row) {
    && Stamped(c) && Stamped(b)
    && c.archiveComplete && b.archiveComplete
    && c.rubricHash.Some? && c.rubricHash == b.rubricHash
    && c.scope == b.scope
  }

  lemma {:induction false} OfArmHasArm(rows: seq<Row>, q: Request, arm: string)
    ensures forall i :: 0 <= i < |OfArm(rows, q, arm)| ==>
      OfArm(rows, q, arm)[i].arm == arm && Matches(OfArm(rows, q, arm)[i], q)
    decreases |rows|
  {
    hide Matches;
    if rows != [] {
      OfArmHasArm(rows[..|rows| - 1], q, arm);
    }
  }

  lemma {:induction false} PickedIsRow(rows: seq<Row>, select: Select) returns (k: nat)
    ensures Pick(rows, select).None? <==> rows == []
    ensures rows != [] ==> k < |rows| && Pick(rows, select) == Some(rows[k])
    decreases |rows|
  {
    hide Loses;
    k := 0;
    if rows != [] {
      k := PickedIsRow(rows[..|rows| - 1], select);
      if Pick(rows, select) != Pick(rows[..|rows| - 1], select) {
        k := |rows| - 1;
      }
    }
  }

  /** In validator mode deltas are given exactly when both arms have a run and the two may be
      compared; otherwise there is an error and nothing else. An unstamped run is never the
      control. */
  lemma ValidatorGate(rows: seq<Row>, q: Request, walk: set<string> -> seq<string>)
    requires q.requireStamped
    ensures var r := Compare(rows, q, walk);
      && (r.deltas.Some? <==> r.control.Some? && r.bes.Some? && Comparable(r.control.value, r.bes.value))
      && (r.error.None? <==> r.deltas.Some?)
      && (r.deltas.None? ==> r.moves == [])
      && (r.control.Some? ==> r.control.value.arm == CONTROL)
      && (r.bes.Some? ==> r.bes.value.arm == BES)
  {
    hide Pick, Matches, TopMoves, OfArm;
    OfArmHasArm(rows, q, CONTROL);
    OfArmHasArm(rows, q, BES);
    assert ControlRows(rows, q) == OfArm(rows, q, CONTROL);
    var c := PickedIsRow(ControlRows(rows, q), q.select);
    var b := PickedIsRow(OfArm(rows, q, BES), q.select);
  }

  // ----- Swapping the arms -----

  function SwapArm(arm: string): string {
    if arm == CONTROL then BES else if arm == BES then CONTROL else arm
  }

  function SwapRow(r: Row): Row {
    r.(arm := SwapArm(r.arm))
  }

  function SwapRows(rows: seq<Row>): seq<Row> {
    seq(|rows|, i requires 0 <= i < |rows| => SwapRow(rows[i]))
  }

  function SwapPick(r: Option<Row>): Option<Row> {
    if r.Some? then Some(SwapRow(r.value)) else None
  }

  function Negate(x: Option<real>): Option<real> {
    if x.Some? then Some(-x.value) else None
  }

  function NegateDeltas(d: Option<Deltas>): Option<Deltas> {
    if d.None? then None
    else Some(Deltas(Negate(d.value.overall), Negate(d.value.adjusted), Negate(d.value.wallClock),
      Negate(d.value.cost)))
  }

  function SwapMove(m: Move): Move {
    Move(m.leaf, m.bes, m.control, -m.delta)
  }

  function SwapMoves(ms: seq<Move>): seq<Move> {
    seq(|ms|, i requires 0 <= i < |ms| => SwapMove(ms[i]))
  }

  lemma {:induction false} OfArmSwaps(rows: seq<Row>, q: Request, arm: string)
    requires arm == CONTROL || arm == BES
    ensures OfArm(SwapRows(rows), q, arm) == SwapRows(OfArm(rows, q, SwapArm(arm)))
    decreases |rows|
  {
    if rows != [] {
      var init, last := rows[..|rows| - 1], rows[|rows| - 1];
      OfArmSwaps(init, q, arm);
      assert SwapRows(rows)[..|rows| - 1] == SwapRows(init);
      assert Matches(SwapRow(last), q) == Matches(last, q);
      SwapPush(OfArm(init, q, SwapArm(arm)), last);
    }
  }

  lemma SwapPush(rows: seq<Row>, r: Row)
    ensures SwapRows(rows + [r]) == SwapRows(rows) + [SwapRow(r)]
    ensures SwapRows(rows + []) == SwapRows(rows) + []
  {
    assert rows + [] == rows;
  }

  lemma {:induction false} PickSwaps(rows: seq<Row>, select: Select)
    ensures Pick(SwapRows(rows), select) == SwapPick(Pick(rows, select))
    decreases |rows|
  {
    hide LexLess;
    if rows != [] {
      var init := rows[..|rows| - 1];
      PickSwaps(init, select);
      assert SwapRows(rows)[..|rows| - 1] == SwapRows(init);
    }
  }

  lemma {:induction false} AllMovesSwap(leaves: seq<string>, c: Row, b: Row)
    ensures AllMoves(leaves, SwapRow(b), SwapRow(c)) == SwapMoves(AllMoves(leaves, c, b))
    decreases |leaves|
  {
    if leaves != [] {
      AllMovesSwap(leaves[..|leaves| - 1], c, b);
    }
  }

  lemma {:induction false} InsertSwaps(m: Move, ms: seq<Move>)
    ensures Insert(SwapMove(m), SwapMoves(ms), BySize) == SwapMoves(Insert(m, ms, BySize))
    decreases |ms|
  {
    if ms != [] && BySize(m) > BySize(ms[0]) {
      InsertSwaps(m, ms[1..]);
      assert SwapMoves(ms)[1..] == SwapMoves(ms[1..]);
    }
  }

  lemma {:induction false} SortSwaps(ms: seq<Move>)
    ensures Sort(SwapMoves(ms), BySize) == SwapMoves(Sort(ms, BySize))
    decreases |ms|
  {
    if ms != [] {
      SortSwaps(ms[1..]);
      assert SwapMoves(ms)[1..] == SwapMoves(ms[1..]);
      InsertSwaps(ms[0], Sort(ms[1..], BySize));
    }
  }

  lemma TopMovesSwap(leaves: seq<string>, c: Row, b: Row)
    ensures TopMoves(leaves, SwapRow(b), SwapRow(c)) == SwapMoves(TopMoves(leaves, c, b))
  {
    hide Sort, AllMoves;
    AllMovesSwap(leaves, c, b);
    SortSwaps(AllMoves(leaves, c, b));
  }

  lemma DeltasSwap(c: Row, b: Row)
    ensures Some(DeltasOf(SwapRow(b), SwapRow(c))) == NegateDeltas(Some(DeltasOf(c, b)))
  {
  }

  lemma ControlRowsSwap(rows: seq<Row>, q: Request)
    requires AllowUnstamped(q) ==> OfArm(rows, q, UNSTAMPED) == [] && OfArm(SwapRows(rows), q, UNSTAMPED) == []
    ensures ControlRows(SwapRows(rows), q) == SwapRows(OfArm(rows, q, BES))
    ensures SwapRows(ControlRows(rows, q)) == OfArm(SwapRows(rows), q, BES)
  {
    hide OfArm, Matches;
    OfArmSwaps(rows, q, CONTROL);
    OfArmSwaps(rows, q, BES);
    assert ControlRows(rows, q) == OfArm(rows, q, CONTROL);
    assert ControlRows(SwapRows(rows), q) == OfArm(SwapRows(rows), q, CONTROL);
  }

  /** Exchanging the two arms of every report, when no unstamped run may stand in for the
      control, exchanges the picked runs, negates every delta, and lists the same leaves in the
      same order with their moves reversed; both orders are refused or neither is. */
  lemma SwappingArmsNegates(rows: seq<Row>, q: Request, walk: set<string> -> seq<string>)
    requires AllowUnstamped(q) ==> OfArm(rows, q, UNSTAMPED) == [] && OfArm(SwapRows(rows), q, UNSTAMPED) == []
    ensures var r, s := Compare(rows, q, walk), Compare(SwapRows(rows), q, walk);
      && s.control == SwapPick(r.bes) && s.bes == SwapPick(r.control)
      && (s.error.None? <==> r.error.None?)
      && s.deltas == NegateDeltas(r.deltas)
      && s.moves == SwapMoves(r.moves)
  {
    hide Pick, OfArm, ControlRows, TopMoves, DeltasOf, Matches, SwapMoves, NegateDeltas;
    ControlRowsSwap(rows, q);
    PickSwaps(ControlRows(rows, q), q.select);
    PickSwaps(OfArm(rows, q, BES), q.select);
    NothingSwapped();
    var r, s := Compare(rows, q, walk), Compare(SwapRows(rows), q, walk);
    if r.control.Some? && r.bes.Some? {
      var c, b := r.control.value, r.bes.value;
      assert SwapRow(b).leaves.Keys + SwapRow(c).leaves.Keys == c.leaves.Keys + b.leaves.Keys;
      DeltasSwap(c, b);
      TopMovesSwap(walk(c.leaves.Keys + b.leaves.Keys), c, b);
      StampSwaps(c);
      StampSwaps(b);
    }
  }

  lemma NothingSwapped()
    ensures SwapMoves([]) == [] && NegateDeltas(None) == None
  {
  }

  lemma StampSwaps(r: Row)
    ensures Stamped(SwapRow(r)) <==> Stamped(r)
  {
  }

  // ----- The leaf moves -----

  predicate Lists(ms: seq<Move>, leaf: string) {
    exists i :: 0 <= i < |ms| && ms[i].leaf == leaf
  }

  /** The move of a leaf scored in both arms. */
  predicate IsMove(m: Move, c: Row, b: Row) {
    && Moved(m.leaf, c, b)
    && m.control == c.leaves[m.leaf] && m.bes == b.leaves[m.leaf] && m.delta == m.bes - m.control
  }

  lemma {:induction false} AllMovesExact(leaves: seq<string>, c: Row, b: Row)
    ensures forall leaf :: Lists(AllMoves(leaves, c, b), leaf) <==> leaf in leaves && Moved(leaf, c, b)
    ensures forall i :: 0 <= i < |AllMoves(leaves, c, b)| ==> IsMove(AllMoves(leaves, c, b)[i], c, b)
    decreases |leaves|
  {
    hide Size;
    if leaves != [] {
      var init, last := leaves[..|leaves| - 1], leaves[|leaves| - 1];
      AllMovesExact(init, c, b);
      var before, ms := AllMoves(init, c, b), AllMoves(leaves, c, b);
      assert leaves == init + [last];
      forall leaf ensures Lists(ms, leaf) <==> leaf in leaves && Moved(leaf, c, b) {
        if Lists(before, leaf) {
          var i :| 0 <= i < |before| && before[i].leaf == leaf;
          assert ms[i].leaf == leaf;
        }
        if leaf == last && Moved(last, c, b) {
          assert ms[|ms| - 1].leaf == leaf;
        }
      }
    }
  }

  lemma SortedLists(ms: seq<Move>, sorted: seq<Move>, leaf: string)
    requires multiset(ms) == multiset(sorted)
    ensures Lists(ms, leaf) <==> Lists(sorted, leaf)
  {
    if Lists(ms, leaf) {
      var i :| 0 <= i < |ms| && ms[i].leaf == leaf;
      assert ms[i] in multiset(sorted);
    }
    if Lists(sorted, leaf) {
      var i :| 0 <= i < |sorted| && sorted[i].leaf == leaf;
      assert sorted[i] in multiset(ms);
    }
  }

  lemma KeptMoves(all: seq<Move>, sorted: seq<Move>, c: Row, b: Row)
    requires multiset(all) == multiset(sorted) && forall i :: 0 <= i < |all| ==> IsMove(all[i], c, b)
    ensures forall i :: 0 <= i < |sorted| ==> IsMove(sorted[i], c, b)
  {
    hide IsMove;
    forall i | 0 <= i < |sorted| ensures IsMove(sorted[i], c, b) {
      assert sorted[i] in multiset(all);
      var k :| 0 <= k < |all| && all[k] == sorted[i];
    }
  }

  predicate NonIncreasing(ms: seq<Move>) {
    forall i, j :: 0 <= i < j < |ms| ==> Size(ms[j].delta) <= Size(ms[i].delta)
  }

  /** The leaf moved no more than any of the moves. */
  predicate MovedLess(leaf: string, ms: seq<Move>, c: Row, b: Row) {
    Moved(leaf, c, b) && forall i :: 0 <= i < |ms| ==> Size(b.leaves[leaf] - c.leaves[leaf]) <= Size(ms[i].delta)
  }

  lemma Unlisted(sorted: seq<Move>, leaf: string, c: Row, b: Row)
    requires NonIncreasing(sorted) && Lists(sorted, leaf) && !Lists(Take(sorted, TOP), leaf)
    requires forall i :: 0 <= i < |sorted| ==> IsMove(sorted[i], c, b)
    ensures |Take(sorted, TOP)| == TOP && MovedLess(leaf, Take(sorted, TOP), c, b)
  {
    hide Size;
    var ms := Take(sorted, TOP);
    var k :| 0 <= k < |sorted| && sorted[k].leaf == leaf;
    assert forall i :: 0 <= i < |ms| ==> ms[i] == sorted[i] && ms[i].leaf != leaf;
    assert k >= |ms|;
    forall i | 0 <= i < |ms| ensures Size(sorted[k].delta) <= Size(ms[i].delta) {
      assert ms[i] == sorted[i];
    }
    assert IsMove(sorted[k], c, b);
  }

  /** In whatever order the leaves are walked: at most 8 moves, in non-increasing size, each the
      difference of a leaf scored in both arms; and a leaf that moved but is not listed moved no
      more than any listed one, of which there are then 8. */
  lemma LeafMovesAreLargest(leaves: seq<string>, c: Row, b: Row)
    requires Enumerates(leaves, c.leaves.Keys + b.leaves.Keys)
    ensures |TopMoves(leaves, c, b)| <= TOP && NonIncreasing(TopMoves(leaves, c, b))
    ensures forall i :: 0 <= i < |TopMoves(leaves, c, b)| ==> IsMove(TopMoves(leaves, c, b)[i], c, b)
    ensures forall leaf :: Moved(leaf, c, b) && !Lists(TopMoves(leaves, c, b), leaf) ==>
      |TopMoves(leaves, c, b)| == TOP && MovedLess(leaf, TopMoves(leaves, c, b), c, b)
  {
    hide Sort, AllMoves, Moved, Size, Lists, MovedLess, IsMove;
    var all := AllMoves(leaves, c, b);
    var sorted := Sort(all, BySize);
    AllMovesExact(leaves, c, b);
    SortSorts(all, BySize);
    InOrder(sorted);
    KeptMoves(all, sorted, c, b);
    forall leaf | Moved(leaf, c, b) && !Lists(TopMoves(leaves, c, b), leaf)
      ensures |TopMoves(leaves, c, b)| == TOP && MovedLess(leaf, TopMoves(leaves, c, b), c, b)
    {
      MovedIsScored(leaf, c, b);
      assert leaf in leaves;
      SortedLists(all, sorted, leaf);
      Unlisted(sorted, leaf, c, b);
    }
  }

  lemma InOrder(ms: seq<Move>)
    requires Sorted(ms, BySize)
    ensures NonIncreasing(ms)
  {
    forall i, j | 0 <= i < j < |ms| ensures Size(ms[j].delta) <= Size(ms[i].delta) {
      assert BySize(ms[i]) <= BySize(ms[j]);
    }
  }

  lemma MovedIsScored(leaf: string, c: Row, b: Row)
    requires Moved(leaf, c, b)
    ensures leaf in c.leaves && leaf in b.leaves
  {
  }

  // ----- The pick -----

  lemma {:induction false} LexTransitive(a: string, b: string, c: string)
    requires LexLess(a, b)
    ensures LexLess(b, c) ==> LexLess(a, c)
    ensures LexLess(a, c) || LexLess(c, b)
    decreases |a|
  {
    if a != "" && c != "" && a[0] == b[0] == c[0] {
      LexTransitive(a[1..], b[1..], c[1..]);
    }
  }

  lemma LosingIsTransitive(a: Row, b: Row, c: Row, select: Select)
    requires Loses(a, b, select)
    ensures Loses(b, c, select) ==> Loses(a, c, select)
    ensures Loses(a, c, select) || Loses(c, b, select)
  {
    hide LexLess;
    if select.Latest? {
      LexTransitive(a.completedAt, b.completedAt, c.completedAt);
    }
  }

  lemma {:induction false} NeverLosesToItself(a: string)
    ensures !LexLess(a, a)
  {
    if a != "" {
      NeverLosesToItself(a[1..]);
    }
  }

  /** The picked row loses to no other, and beats all rows before it. */
  lemma {:induction false} PickIsFirstMax(rows: seq<Row>, select: Select) returns (k: nat)
    requires rows != []
    ensures k < |rows| && Pick(rows, select) == Some(rows[k])
    ensures forall j :: 0 <= j < |rows| ==> !Loses(rows[k], rows[j], select)
    ensures forall j :: 0 <= j < k ==> Loses(rows[j], rows[k], select)
    decreases |rows|
  {
    hide LexLess, Loses;
    var n := |rows| - 1;
    if n == 0 {
      k := 0;
      LosesOnlyToBetter(rows[0], select);
    } else {
      k := PickIsFirstMax(rows[..n], select);
      assert Pick(rows[..n], select) == Some(rows[k]);
      assert forall j :: 0 <= j < n ==> rows[..n][j] == rows[j];
      if Loses(rows[k], rows[n], select) {
        LosesOnlyToBetter(rows[n], select);
        forall j | 0 <= j < n ensures !Loses(rows[n], rows[j], select) && Loses(rows[j], rows[n], select) {
          LosingIsTransitive(rows[k], rows[n], rows[j], select);
        }
        k := n;
      }
    }
  }

  lemma LosesOnlyToBetter(r: Row, select: Select)
    ensures !Loses(r, r, select)
  {
    NeverLosesToItself(r.completedAt);
  }

  /** Some run is scored 0 and none above 0, and one is scored between -1 and 0, or -1 before any
      run scored 0: what a score of 0 counting as -1 gets wrong. */
  predicate ZeroLoses(rows: seq<Row>) {
    && (exists j :: 0 <= j < |rows| && rows[j].overall == Some(0.0))
    && (forall j :: 0 <= j < |rows| && rows[j].overall.Some? ==> rows[j].overall.value <= 0.0)
    && ((exists j :: 0 <= j < |rows| && rows[j].overall.Some? && -1.0 < rows[j].overall.value < 0.0)
        || (exists j :: 0 <= j < |rows| && rows[j].overall == Some(-1.0) &&
              forall i :: 0 <= i < j ==> rows[i].overall != Some(0.0)))
  }

  /** The picked run has the largest score of all exactly when zero does not lose. A run without a
      score is picked only when none has one. */
  lemma BestHasLargestScore(rows: seq<Row>)
    requires rows != []
    ensures var best := Pick(rows, Best).value;
      && (best.overall.None? <==> forall j :: 0 <= j < |rows| ==> rows[j].overall.None?)
      && (best.overall.Some? ==>
            ((forall j :: 0 <= j < |rows| && rows[j].overall.Some? ==> rows[j].overall.value <= best.overall.value)
              <==> !ZeroLoses(rows)))
  {
    var k := PickIsFirstMax(rows, Best);
    forall j | 0 <= j < |rows| && rows[k].overall.Some? && rows[j].overall.Some? &&
      rows[j].overall.value > rows[k].overall.value
      ensures ZeroLoses(rows)
    {
      OutscoredByZero(rows, k, j);
    }
    if rows[k].overall.Some? && ZeroLoses(rows) {
      ZeroIsPassedOver(rows, k);
    }
  }

  predicate IsFirstBest(rows: seq<Row>, k: nat) {
    && k < |rows|
    && (forall j :: 0 <= j < |rows| ==> !Loses(rows[k], rows[j], Best))
    && (forall j :: 0 <= j < k ==> Loses(rows[j], rows[k], Best))
  }

  lemma OutscoredByZero(rows: seq<Row>, k: nat, j: nat)
    requires IsFirstBest(rows, k) && j < |rows|
    requires rows[k].overall.Some? && rows[j].overall.Some? && rows[j].overall.value > rows[k].overall.value
    ensures ZeroLoses(rows)
  {
    assert !Loses(rows[k], rows[j], Best);
    assert rows[j].overall == Some(0.0);
    forall i | 0 <= i < |rows| && rows[i].overall.Some? ensures rows[i].overall.value <= 0.0 {
      assert !Loses(rows[k], rows[i], Best);
    }
  }

  lemma ZeroIsPassedOver(rows: seq<Row>, k: nat)
    requires IsFirstBest(rows, k) && ZeroLoses(rows) && rows[k].overall.Some?
    ensures exists j :: 0 <= j < |rows| && rows[j].overall.Some? && rows[j].overall.value > rows[k].overall.value
  {
    var z :| 0 <= z < |rows| && rows[z].overall == Some(0.0);
    assert rows[k].overall != Some(0.0) ==> rows[z].overall.value > rows[k].overall.value;
  }

  /** A run scored 0 loses to one scored below. */
  lemma ZeroIsNotPicked(zero: Row, below: Row)
    requires zero.overall == Some(0.0) && below.overall == Some(-0.5)
    ensures Pick([zero, below], Best) == Some(below)
  {
    assert [zero, below][..1] == [zero] && [zero][..0] == [];
    assert Pick([zero], Best) == Some(zero);
  }
}
