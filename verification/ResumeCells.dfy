/** Resuming a run of many cells: which cells the flags force, and which ones must run again
    because their newest manifest is missing, not ok, or stale. */
module ResumeCells {
  import opened Wrappers
  import opened TextLines
  import StableSort

  /** An entry of the cell list; `id` is `None` when it is missing or no string. */
  datatype Cell = NoObject | Object(id: Option<string>, env: string, config: string)

  datatype Manifest = Manifest(status: Option<string>, fingerprint: Option<string>)

  /** `mtime` is `None` when the file cannot be inspected, `content` when it cannot be read
      as a JSON object. */
  datatype ManifestFile = ManifestFile(mtime: Option<int>, content: Option<Manifest>)

  /** The earlier run directories in listing order, each with its manifests by cell id. */
  type Outputs = seq<map<string, ManifestFile>>

  datatype Reason = Forced | NoPriorOk | FingerprintChanged

  // ----- The newest manifest -----

  type Candidate = (int, Option<Manifest>)

  predicate Has(run: map<string, ManifestFile>, id: string) {
    id in run && run[id].mtime.Some?
  }

  function Candidates(outs: Outputs, id: string): seq<Candidate> {
    if outs == [] then []
    else CandidateOf(outs[0], id) + Candidates(outs[1..], id)
  }

  function CandidateOf(run: map<string, ManifestFile>, id: string): seq<Candidate> {
    if Has(run, id) then [(run[id].mtime.value, run[id].content)] else []
  }

  const NewestFirst := (t: Candidate) => -(t.0 as real)

  function LoadManifest(outs: Outputs, id: string): Option<Manifest> {
    var found := StableSort.Sort(Candidates(outs, id), NewestFirst);
    if found == [] then None else found[0].1
  }

  lemma {:induction false} CandidatesAppend(a: Outputs, b: Outputs, id: string)
    ensures Candidates(a + b, id) == Candidates(a, id) + Candidates(b, id)
  {
    hide CandidateOf;
    if a == [] {
      assert a + b == b;
    } else {
      assert (a + b)[1..] == a[1..] + b;
      CandidatesAppend(a[1..], b, id);
    }
  }

  method LoadAnyCellManifest(outs: Outputs, id: string) returns (m: Option<Manifest>)
    ensures m == LoadManifest(outs, id)
  {
    var candidates: seq<Candidate> := [];
    for i := 0 to |outs|
      invariant candidates == Candidates(outs[..i], id)
    {
      CandidatesAppend(outs[..i], [outs[i]], id);
      assert outs[..i + 1] == outs[..i] + [outs[i]];
      if id in outs[i] && outs[i][id].mtime.Some? {
        candidates := candidates + [(outs[i][id].mtime.value, outs[i][id].content)];
      }
    }
    assert outs[..|outs|] == outs;
    if candidates == [] {
      return None;
    }
    return StableSort.Sort(candidates, NewestFirst)[0].1;
  }

  /** Run `n` has the newest manifest of the cell; among equally new ones, the first listed. */
  predicate IsNewest(outs: Outputs, id: string, n: nat) {
    && n < |outs| && Has(outs[n], id)
    && forall j :: 0 <= j < |outs| && Has(outs[j], id) ==>
        outs[j][id].mtime.value <= outs[n][id].mtime.value &&
        (j < n ==> outs[j][id].mtime.value < outs[n][id].mtime.value)
  }

  function Best(outs: Outputs, id: string): seq<Candidate> {
    var found := StableSort.Sort(Candidates(outs, id), NewestFirst);
    if found == [] then [] else [found[0]]
  }

  /** The best of one more run in front. */
  lemma BestStep(outs: Outputs, id: string)
    requires outs != []
    ensures var rest := Best(outs[1..], id);
      Best(outs, id) ==
        if !Has(outs[0], id) then rest
        else if rest != [] && rest[0].0 > outs[0][id].mtime.value then rest
        else [(outs[0][id].mtime.value, outs[0][id].content)]
  {
    hide IsNewest;
    var rest := StableSort.Sort(Candidates(outs[1..], id), NewestFirst);
    if Has(outs[0], id) {
      var x := (outs[0][id].mtime.value, outs[0][id].content);
      assert Candidates(outs, id) == [x] + Candidates(outs[1..], id);
      assert StableSort.Sort(Candidates(outs, id), NewestFirst) == StableSort.Insert(x, rest, NewestFirst);
    } else {
      assert Candidates(outs, id) == Candidates(outs[1..], id);
    }
  }

  lemma {:induction false} BestIsBounded(outs: Outputs, id: string, t: int)
    requires forall j :: 0 <= j < |outs| && Has(outs[j], id) ==> outs[j][id].mtime.value <= t
    ensures Best(outs, id) != [] ==> Best(outs, id)[0].0 <= t
  {
    hide Best;
    if outs == [] {
      BestOfNone(id);
    } else {
      BestStep(outs, id);
      forall j | 0 <= j < |outs[1..]| && Has(outs[1..][j], id) ensures outs[1..][j][id].mtime.value <= t {
        assert outs[1..][j] == outs[j + 1];
      }
      BestIsBounded(outs[1..], id, t);
      assert Has(outs[0], id) ==> outs[0][id].mtime.value <= t;
    }
  }

  lemma BestOfNone(id: string)
    ensures Best([], id) == []
  {
  }

  lemma {:induction false} BestIsNewest(outs: Outputs, id: string, n: nat)
    requires IsNewest(outs, id, n)
    ensures Best(outs, id) == [(outs[n][id].mtime.value, outs[n][id].content)]
  {
    hide Best;
    BestStep(outs, id);
    if n == 0 {
      BestIsBounded(outs[1..], id, outs[0][id].mtime.value);
    } else {
      assert IsNewest(outs[1..], id, n - 1);
      BestIsNewest(outs[1..], id, n - 1);
    }
  }

  /** The newest manifest alone decides, readable or not: an unreadable newest one hides an
      older one that was ok. */
  lemma NewestDecides(outs: Outputs, id: string, n: nat)
    requires IsNewest(outs, id, n)
    ensures LoadManifest(outs, id) == outs[n][id].content
  {
    BestIsNewest(outs, id, n);
  }

  /** A cell that was ok and is current, but whose newest manifest cannot be read, runs again. */
  lemma UnreadableHidesOk(id: string, fp: Cell -> string)
    ensures var c := Object(Some(id), "", "");
      var ok, unreadable := ManifestFile(Some(1), Some(Manifest(Some("ok"), Some(fp(c))))), ManifestFile(Some(2), None);
      Due(c, {}, [map[id := ok]], fp) == None &&
      Due(c, {}, [map[id := ok], map[id := unreadable]], fp) == Some(NoPriorOk)
  {
    hide LoadManifest;
    var c := Object(Some(id), "", "");
    var ok, unreadable := ManifestFile(Some(1), Some(Manifest(Some("ok"), Some(fp(c))))), ManifestFile(Some(2), None);
    NewestDecides([map[id := ok]], id, 0);
    NewestDecides([map[id := ok], map[id := unreadable]], id, 1);
  }

  lemma {:induction false} SomeNewest(outs: Outputs, id: string) returns (n: nat)
    ensures (exists i :: 0 <= i < |outs| && Has(outs[i], id)) ==> IsNewest(outs, id, n)
    ensures (forall i :: 0 <= i < |outs| ==> !Has(outs[i], id)) ==> Best(outs, id) == []
  {
    hide Best;
    n := 0;
    if outs == [] {
      BestOfNone(id);
      return;
    }
    BestStep(outs, id);
    var rest := outs[1..];
    var m := SomeNewest(rest, id);
    forall j | 0 <= j < |rest| ensures rest[j] == outs[j + 1] {
    }
    if exists i :: 0 <= i < |rest| && Has(rest[i], id) {
      if !Has(outs[0], id) || outs[0][id].mtime.value < rest[m][id].mtime.value {
        n := m + 1;
      }
      forall j | 0 <= j < |outs| && Has(outs[j], id)
        ensures outs[j][id].mtime.value <= outs[n][id].mtime.value
        ensures j < n ==> outs[j][id].mtime.value < outs[n][id].mtime.value
      {
        if j > 0 {
          assert outs[j] == rest[j - 1];
        }
      }
    } else {
      forall i | 0 < i < |outs| ensures !Has(outs[i], id) {
        assert outs[i] == rest[i - 1];
      }
    }
  }

  // ----- The selection -----

  function Due(c: Cell, force: set<string>, outs: Outputs, fp: Cell -> string): Option<Reason> {
    if c.NoObject? || c.id.None? then None
    else if c.id.value in force then Some(Forced)
    else
      var prior := LoadManifest(outs, c.id.value);
      if prior.None? || prior.value.status != Some("ok") then Some(NoPriorOk)
      else if prior.value.fingerprint != Some(fp(c)) then Some(FingerprintChanged)
      else None
  }

  function Put(m: map<string, Reason>, c: Cell, reason: Option<Reason>): map<string, Reason> {
    if reason.Some? && c.Object? && c.id.Some? then m[c.id.value := reason.value] else m
  }

  function Selected(cells: seq<Cell>, force: set<string>, outs: Outputs, fp: Cell -> string): map<string, Reason>
    decreases |cells|
  {
    if cells == [] then map[]
    else
      var c := cells[|cells| - 1];
      Put(Selected(cells[..|cells| - 1], force, outs, fp), c, Due(c, force, outs, fp))
  }

  method SelectCellsNeedingRerun(cells: seq<Cell>, force: set<string>, outs: Outputs, fp: Cell -> string)
    returns (selected: map<string, Reason>)
    ensures selected == Selected(cells, force, outs, fp)
  {
    selected := map[];
    for i := 0 to |cells|
      invariant selected == Selected(cells[..i], force, outs, fp)
    {
      assert cells[..i + 1][..i] == cells[..i];
      var c := cells[i];
      if c.NoObject? || c.id.None? {
        continue;
      }
      var id := c.id.value;
      if id in force {
        selected := selected[id := Forced];
        continue;
      }
      var prior := LoadAnyCellManifest(outs, id);
      if prior.None? || prior.value.status != Some("ok") {
        selected := selected[id := NoPriorOk];
      } else if prior.value.fingerprint != Some(fp(c)) {
        selected := selected[id := FingerprintChanged];
      }
    }
    assert cells[..|cells|] == cells;
  }

  predicate Named(c: Cell, id: string) {
    c.Object? && c.id == Some(id)
  }

  /** Cell `i` is the last one called `id` that is due. */
  predicate IsLastDue(cells: seq<Cell>, force: set<string>, outs: Outputs, fp: Cell -> string, id: string, i: nat) {
    && i < |cells| && Named(cells[i], id) && Due(cells[i], force, outs, fp).Some?
    && forall j :: i < j < |cells| && Named(cells[j], id) ==> Due(cells[j], force, outs, fp).None?
  }

  lemma SelectedStep(cells: seq<Cell>, force: set<string>, outs: Outputs, fp: Cell -> string, id: string)
    requires cells != []
    ensures var n := |cells| - 1;
      var before, after := Selected(cells[..n], force, outs, fp), Selected(cells, force, outs, fp);
      var due := Due(cells[n], force, outs, fp);
      && (Named(cells[n], id) && due.Some? ==> id in after && after[id] == due.value)
      && (!(Named(cells[n], id) && due.Some?) ==>
        (id in after <==> id in before) && (id in before ==> after[id] == before[id]))
  {
    hide Due;
    if Due(cells[|cells| - 1], force, outs, fp).Some? {
      DueIsNamed(cells[|cells| - 1], force, outs, fp);
    }
  }

  /** Whatever ids repeat: an id is selected exactly when a cell of that name is due, with the
      reason of the last such cell. */
  lemma {:induction false} SelectedExactly(cells: seq<Cell>, force: set<string>, outs: Outputs, fp: Cell -> string,
    id: string)
    ensures var sel := Selected(cells, force, outs, fp);
      && (id in sel <==> exists i :: 0 <= i < |cells| && Named(cells[i], id) && Due(cells[i], force, outs, fp).Some?)
      && (forall i: nat :: IsLastDue(cells, force, outs, fp, id, i) ==>
        id in sel && Some(sel[id]) == Due(cells[i], force, outs, fp))
    decreases |cells|
  {
    hide Due, Selected, Named;
    if cells == [] {
      assert id !in Selected(cells, force, outs, fp) by {
        NoneSelected(force, outs, fp);
      }
    } else {
      var n := |cells| - 1;
      var init := cells[..n];
      SelectedExactly(init, force, outs, fp, id);
      SelectedStep(cells, force, outs, fp, id);
      assert forall i :: 0 <= i < n ==> cells[i] == init[i];
      if !(Named(cells[n], id) && Due(cells[n], force, outs, fp).Some?) {
        forall i: nat | IsLastDue(cells, force, outs, fp, id, i) ensures IsLastDue(init, force, outs, fp, id, i) {
        }
      } else {
        forall i: nat | IsLastDue(cells, force, outs, fp, id, i) ensures i == n {
        }
      }
    }
  }

  lemma NoneSelected(force: set<string>, outs: Outputs, fp: Cell -> string)
    ensures Selected([], force, outs, fp) == map[]
  {
  }

  lemma DueIsNamed(c: Cell, force: set<string>, outs: Outputs, fp: Cell -> string)
    requires Due(c, force, outs, fp).Some?
    ensures c.Object? && c.id.Some?
  {
  }

  predicate DistinctIds(cells: seq<Cell>) {
    forall i, j :: 0 <= i < j < |cells| && cells[i].Object? && cells[j].Object? && cells[i].id.Some? ==>
      cells[i].id != cells[j].id
  }

  /** Some earlier run holds the newest manifest of the cell, and it is ok and current. */
  ghost predicate UpToDate(c: Cell, id: string, outs: Outputs, fp: Cell -> string) {
    exists n: nat :: IsNewest(outs, id, n) && outs[n][id].content == Some(Manifest(Some("ok"), Some(fp(c))))
  }

  lemma DueIff(c: Cell, id: string, force: set<string>, outs: Outputs, fp: Cell -> string)
    requires Named(c, id)
    ensures Due(c, force, outs, fp).None? <==> id !in force && UpToDate(c, id, outs, fp)
  {
    hide IsNewest;
    var n := SomeNewest(outs, id);
    if IsNewest(outs, id, n) {
      NewestDecides(outs, id, n);
      forall m: nat | IsNewest(outs, id, m) ensures m == n {
        OneNewest(outs, id, m, n);
      }
    } else {
      forall m: nat ensures !IsNewest(outs, id, m) {
        NewestHas(outs, id, m);
      }
      assert LoadManifest(outs, id).None?;
    }
  }

  lemma NewestHas(outs: Outputs, id: string, m: nat)
    ensures IsNewest(outs, id, m) ==> m < |outs| && Has(outs[m], id)
  {
  }

  lemma OneNewest(outs: Outputs, id: string, a: nat, b: nat)
    requires IsNewest(outs, id, a) && IsNewest(outs, id, b)
    ensures a == b
  {
    assert Has(outs[a], id) && Has(outs[b], id);
  }

  /** With distinct ids a cell is skipped exactly when it is not forced and its newest manifest
      over all earlier runs is ok with the current fingerprint. */
  lemma SkippedIff(cells: seq<Cell>, force: set<string>, outs: Outputs, fp: Cell -> string, i: nat, id: string)
    requires DistinctIds(cells) && i < |cells| && Named(cells[i], id)
    ensures id !in Selected(cells, force, outs, fp) <==> id !in force && UpToDate(cells[i], id, outs, fp)
  {
    hide Due, UpToDate, Selected;
    SelectedExactly(cells, force, outs, fp, id);
    DueIff(cells[i], id, force, outs, fp);
    assert forall j :: 0 <= j < |cells| && Named(cells[j], id) ==> j == i;
  }

  /** The newest manifest of the cell can be read and says ok. */
  ghost predicate NewestIsOk(outs: Outputs, id: string, m: Manifest) {
    m.status == Some("ok") && exists n: nat :: IsNewest(outs, id, n) && outs[n][id].content == Some(m)
  }

  lemma NewestIsLoaded(outs: Outputs, id: string, m: Manifest)
    ensures NewestIsOk(outs, id, m) <==> m.status == Some("ok") && LoadManifest(outs, id) == Some(m)
  {
    hide IsNewest, Best;
    var n := SomeNewest(outs, id);
    if IsNewest(outs, id, n) {
      NewestDecides(outs, id, n);
      forall k: nat | IsNewest(outs, id, k) ensures k == n {
        OneNewest(outs, id, k, n);
      }
    } else {
      forall k: nat ensures !IsNewest(outs, id, k) {
        NewestHas(outs, id, k);
      }
      NothingLoaded(outs, id);
    }
  }

  lemma NothingLoaded(outs: Outputs, id: string)
    requires Best(outs, id) == []
    ensures LoadManifest(outs, id) == None
  {
  }

  lemma DueReason(c: Cell, id: string, force: set<string>, outs: Outputs, fp: Cell -> string)
    requires Named(c, id)
    ensures var due := Due(c, force, outs, fp);
      && (due == Some(Forced) <==> id in force)
      && (due == Some(NoPriorOk) <==> id !in force && forall m :: !NewestIsOk(outs, id, m))
      && (due == Some(FingerprintChanged) <==>
            id !in force && exists m :: NewestIsOk(outs, id, m) && m.fingerprint != Some(fp(c)))
  {
    hide LoadManifest, NewestIsOk;
    forall m
      ensures NewestIsOk(outs, id, m) <==> m.status == Some("ok") && LoadManifest(outs, id) == Some(m)
    {
      NewestIsLoaded(outs, id, m);
    }
  }

  /** Why a cell runs again, with distinct ids: it is forced; or its newest manifest is not ok, missing or
      unreadable; or that is ok, but of another fingerprint. */
  lemma ReasonIff(cells: seq<Cell>, force: set<string>, outs: Outputs, fp: Cell -> string, i: nat, id: string)
    requires DistinctIds(cells) && i < |cells| && Named(cells[i], id)
    ensures var sel := Selected(cells, force, outs, fp);
      && (id in sel && sel[id] == Forced <==> id in force)
      && (id in sel && sel[id] == NoPriorOk <==> id !in force && forall m :: !NewestIsOk(outs, id, m))
      && (id in sel && sel[id] == FingerprintChanged <==>
            id !in force && exists m :: NewestIsOk(outs, id, m) && m.fingerprint != Some(fp(cells[i])))
  {
    hide Due, Selected, NewestIsOk;
    SelectedExactly(cells, force, outs, fp, id);
    DueReason(cells[i], id, force, outs, fp);
    assert forall j :: 0 <= j < |cells| && Named(cells[j], id) ==> j == i;
    if Due(cells[i], force, outs, fp).Some? {
      assert IsLastDue(cells, force, outs, fp, id, i);
    }
  }

  function Ids(cells: seq<Cell>): set<string> {
    set c | c in cells && c.Object? && c.id.Some? :: c.id.value
  }

  /** Enlarging the force set adds exactly the newly forced cells of the list, as forced, and
      changes nothing else; ids that name no cell do nothing. */
  lemma {:induction false} ForcingOnlyAdds(cells: seq<Cell>, few: set<string>, many: set<string>, outs: Outputs,
    fp: Cell -> string)
    requires few <= many
    ensures var a, b := Selected(cells, few, outs, fp), Selected(cells, many, outs, fp);
      && b.Keys == a.Keys + (many * Ids(cells))
      && (forall id :: id in b ==> b[id] == if id in many then Forced else a[id])
    decreases |cells|
  {
    hide LoadManifest;
    if cells != [] {
      var n := |cells| - 1;
      var init, c := cells[..n], cells[n];
      ForcingOnlyAdds(init, few, many, outs, fp);
      assert cells == init + [c];
      assert Ids(cells) == Ids(init) + Ids([c]);
    }
  }

  // ----- The forced cells -----

  function WantedEnvs(rerunEnvs: seq<string>, lower: string -> string): set<string> {
    set e | e in rerunEnvs && Strip(e) != "" :: lower(Strip(e))
  }

  function WantedIds(rerunCells: seq<string>): set<string> {
    set x | x in rerunCells && Strip(x) != "" :: Strip(x)
  }

  function InEnvs(cells: seq<Cell>, envs: set<string>, lower: string -> string): set<string> {
    set c | c in cells && c.Object? && c.id.Some? && lower(Strip(c.env)) in envs :: c.id.value
  }

  method BuildForceCells(cells: seq<Cell>, rerunEnvs: seq<string>, rerunCells: seq<string>, lower: string -> string)
    returns (forced: set<string>)
    ensures forced == InEnvs(cells, WantedEnvs(rerunEnvs, lower), lower) + WantedIds(rerunCells)
  {
    hide Strip;
    var envs := WantedEnvs(rerunEnvs, lower);
    forced := {};
    if envs != {} {
      for i := 0 to |cells|
        invariant forced == InEnvs(cells[..i], envs, lower)
      {
        var c := cells[i];
        assert cells[..i + 1] == cells[..i] + [c];
        assert InEnvs(cells[..i + 1], envs, lower) == InEnvs(cells[..i], envs, lower) + InEnvs([c], envs, lower);
        if c.Object? && c.id.Some? && lower(Strip(c.env)) in envs {
          forced := forced + {c.id.value};
        }
      }
      assert cells[..|cells|] == cells;
    }
    ghost var byEnv := forced;
    for i := 0 to |rerunCells|
      invariant forced == byEnv + WantedIds(rerunCells[..i])
    {
      assert rerunCells[..i + 1] == rerunCells[..i] + [rerunCells[i]];
      assert WantedIds(rerunCells[..i + 1]) == WantedIds(rerunCells[..i]) + WantedIds([rerunCells[i]]);
      if Strip(rerunCells[i]) != "" {
        forced := forced + {Strip(rerunCells[i])};
      }
    }
    assert rerunCells[..|rerunCells|] == rerunCells;
  }

  /** End to end: a cell of a requested environment, or requested by its id, is rerun as forced;
      any other cell has the reason, or the skip, it has without flags. */
  lemma FlagsSelect(cells: seq<Cell>, rerunEnvs: seq<string>, rerunCells: seq<string>, lower: string -> string,
                    outs: Outputs, fp: Cell -> string, c: Cell, id: string)
    requires c in cells && Named(c, id)
    ensures var force := InEnvs(cells, WantedEnvs(rerunEnvs, lower), lower) + WantedIds(rerunCells);
      var a, b := Selected(cells, {}, outs, fp), Selected(cells, force, outs, fp);
      var asked := (exists d, e :: d in cells && e in rerunEnvs && Named(d, id) &&
                      Strip(e) != "" && lower(Strip(d.env)) == lower(Strip(e)))
                || (exists x :: x in rerunCells && Strip(x) == id && id != "");
      && (asked ==> id in b && b[id] == Forced)
      && (!asked ==> (id in a <==> id in b) && (id in a && id in b ==> a[id] == b[id]))
  {
    hide Strip, Selected;
    var envs := WantedEnvs(rerunEnvs, lower);
    var force := InEnvs(cells, envs, lower) + WantedIds(rerunCells);
    ForcingOnlyAdds(cells, {}, force, outs, fp);
    assert id in Ids(cells);
  }

  // ----- Resuming again -----

  predicate Newer(run: map<string, ManifestFile>, outs: Outputs, id: string) {
    Has(run, id) && forall j :: 0 <= j < |outs| && Has(outs[j], id) ==> outs[j][id].mtime.value < run[id].mtime.value
  }

  /** A resume that leaves a newer manifest for each cell it selected, and for no other, leaves
      the next one with exactly those whose new manifest is not ok or already stale. The new
      run may be listed anywhere among the others. */
  lemma NextResume(cells: seq<Cell>, force: set<string>, outs: Outputs, fp: Cell -> string,
                   run: map<string, ManifestFile>, at: nat, i: nat, id: string)
    requires DistinctIds(cells) && i < |cells| && Named(cells[i], id) && at <= |outs|
    requires run.Keys == Selected(cells, force, outs, fp).Keys
    requires forall x :: x in run ==> Newer(run, outs, x)
    ensures id in Selected(cells, {}, outs[..at] + [run] + outs[at..], fp) <==>
      id in Selected(cells, force, outs, fp) && run[id].content != Some(Manifest(Some("ok"), Some(fp(cells[i]))))
  {
    hide Selected, LoadManifest;
    var c := cells[i];
    var now := outs[..at] + [run] + outs[at..];
    SelectedExactly(cells, force, outs, fp, id);
    SelectedExactly(cells, {}, now, fp, id);
    assert forall j :: 0 <= j < |cells| && Named(cells[j], id) ==> j == i;
    if id in run {
      assert now[at] == run;
      forall j | 0 <= j < |now| && Has(now[j], id) && j != at ensures now[j][id].mtime.value < run[id].mtime.value {
        var k := if j < at then j else j - 1;
        assert now[j] == outs[k] && Has(outs[k], id);
      }
      assert IsNewest(now, id, at);
      NewestDecides(now, id, at);
    } else {
      SameManifest(outs, run, at, id);
    }
  }

  lemma SameManifest(outs: Outputs, run: map<string, ManifestFile>, at: nat, id: string)
    requires at <= |outs| && id !in run
    ensures LoadManifest(outs[..at] + [run] + outs[at..], id) == LoadManifest(outs, id)
  {
    var a, b := outs[..at], outs[at..];
    assert outs == a + b;
    CandidatesAppend(a, b, id);
    CandidatesAppend(a + [run], b, id);
    CandidatesAppend(a, [run], id);
    assert Candidates([run], id) == [];
    assert Candidates(a + [run], id) == Candidates(a, id);
    assert Candidates(a + [run] + b, id) == Candidates(outs, id);
  }
}
