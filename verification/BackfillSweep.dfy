/** The sweep over a runs root: which directories it visits, and what it leaves in them. */
module BackfillSweep {
  import opened Wrappers
  import opened RegradeBackfill

  // ----- Discovery -----

  datatype Attempt = Attempt(name: string, isDir: bool)

  /** A child of the root; `attempts` lists its `attempts` directory, empty if there is none. */
  datatype Child = Child(name: string, isDir: bool, attempts: seq<Attempt>)

  datatype RunPath = Top(run: string) | Under(run: string, attempt: string)

  /** A directory listing names each entry once. */
  ghost predicate IsListing(children: seq<Child>) {
    (forall i, j :: 0 <= i < j < |children| ==> children[i].name != children[j].name) &&
    (forall i :: 0 <= i < |children| ==>
      forall j, k :: 0 <= j < k < |children[i].attempts| ==>
        children[i].attempts[j].name != children[i].attempts[k].name)
  }

  predicate Wanted(c: Child, only: Option<string>) {
    c.isDir && (only.None? || c.name == only.value)
  }

  ghost predicate IsRunDir(children: seq<Child>, only: Option<string>, p: RunPath) {
    exists i :: 0 <= i < |children| && Wanted(children[i], only) && OfChild(children[i], p)
  }

  ghost predicate NoRepeats(paths: seq<RunPath>) {
    forall i, j :: 0 <= i < j < |paths| ==> paths[i] != paths[j]
  }

  /** The directories of one child. */
  function AttemptDirs(run: string, attempts: seq<Attempt>): seq<RunPath> {
    if attempts == [] then []
    else
      var last := attempts[|attempts| - 1];
      AttemptDirs(run, attempts[..|attempts| - 1]) + if last.isDir then [Under(run, last.name)] else []
  }

  predicate HasAttempt(run: string, attempts: seq<Attempt>, p: RunPath) {
    p.Under? && p.run == run && exists j :: 0 <= j < |attempts| && attempts[j] == Attempt(p.attempt, true)
  }

  lemma HasAttemptPush(run: string, attempts: seq<Attempt>, a: Attempt, p: RunPath)
    ensures HasAttempt(run, attempts + [a], p) <==>
      HasAttempt(run, attempts, p) || (a.isDir && p == Under(run, a.name))
  {
    var all := attempts + [a];
    assert all[|attempts|] == a;
    assert forall j :: 0 <= j < |attempts| ==> all[j] == attempts[j];
  }

  lemma NotAmong(run: string, attempts: seq<Attempt>, a: Attempt)
    requires forall j :: 0 <= j < |attempts| ==> attempts[j].name != a.name
    ensures !HasAttempt(run, attempts, Under(run, a.name))
  {
  }

  lemma {:induction false} AttemptDirsExact(run: string, attempts: seq<Attempt>)
    requires forall j, k :: 0 <= j < k < |attempts| ==> attempts[j].name != attempts[k].name
    ensures NoRepeats(AttemptDirs(run, attempts))
    ensures forall p :: p in AttemptDirs(run, attempts) <==> HasAttempt(run, attempts, p)
  {
    hide HasAttempt;
    if attempts == [] {
      NoAttempts(run);
    } else {
      var init, last := attempts[..|attempts| - 1], attempts[|attempts| - 1];
      AttemptDirsExact(run, init);
      assert attempts == init + [last];
      forall p
        ensures HasAttempt(run, attempts, p) <==> HasAttempt(run, init, p) || (last.isDir && p == Under(run, last.name))
      {
        HasAttemptPush(run, init, last, p);
      }
      NotAmong(run, init, last);
    }
  }

  lemma NoAttempts(run: string)
    ensures forall p :: !HasAttempt(run, [], p)
  {
  }

  method ListAttempts(run: string, attempts: seq<Attempt>) returns (dirs: seq<RunPath>)
    ensures dirs == AttemptDirs(run, attempts)
  {
    dirs := [];
    for j := 0 to |attempts|
      invariant dirs == AttemptDirs(run, attempts[..j])
    {
      assert attempts[..j + 1][..j] == attempts[..j];
      if attempts[j].isDir {
        dirs := dirs + [Under(run, attempts[j].name)];
      }
    }
    assert attempts[..|attempts|] == attempts;
  }

  ghost predicate OfChild(c: Child, p: RunPath) {
    p.run == c.name &&
    (p.Under? ==> exists j :: 0 <= j < |c.attempts| && c.attempts[j] == Attempt(p.attempt, true))
  }

  /** A child's directories join those of the earlier children. */
  lemma AppendChild(dirs: seq<RunPath>, c: Child)
    requires NoRepeats(dirs) && forall p :: p in dirs ==> p.run != c.name
    requires forall j, k :: 0 <= j < k < |c.attempts| ==> c.attempts[j].name != c.attempts[k].name
    ensures var more := [Top(c.name)] + AttemptDirs(c.name, c.attempts);
      NoRepeats(dirs + more) && forall p :: p in dirs + more <==> p in dirs || OfChild(c, p)
  {
    hide AttemptDirs;
    AttemptDirsExact(c.name, c.attempts);
    var under := AttemptDirs(c.name, c.attempts);
    var more := [Top(c.name)] + under;
    assert forall p :: p in under ==> p.Under? && p.run == c.name;
    assert forall p :: p in more <==> OfChild(c, p);
    NoneRepeats([Top(c.name)], under);
    assert forall p :: p in more ==> p.run == c.name;
    NoneRepeats(dirs, more);
  }

  lemma NoneRepeats(a: seq<RunPath>, b: seq<RunPath>)
    requires NoRepeats(a) && NoRepeats(b) && forall p :: p in a ==> p !in b
    ensures NoRepeats(a + b)
  {
    forall i, j | 0 <= i < j < |a + b|
      ensures (a + b)[i] != (a + b)[j]
    {
      if i < |a| && |a| <= j {
        assert (a + b)[i] in a && (a + b)[j] in b;
      }
    }
  }

  lemma EarlierRuns(children: seq<Child>, i: nat, only: Option<string>, p: RunPath)
    requires IsListing(children) && i < |children| && IsRunDir(children[..i], only, p)
    ensures p.run != children[i].name
  {
    var k :| 0 <= k < |children[..i]| && children[..i][k].name == p.run;
    assert children[k].name == p.run;
  }

  method DiscoverRunDirs(children: seq<Child>, only: Option<string>) returns (dirs: seq<RunPath>)
    requires IsListing(children)
    ensures NoRepeats(dirs)
    ensures forall p :: p in dirs <==> IsRunDir(children, only, p)
  {
    hide IsRunDir, NoRepeats, OfChild, AttemptDirs;
    dirs := [];
    NoChildren(only);
    assert children[..0] == [];
    for i := 0 to |children|
      invariant NoRepeats(dirs)
      invariant forall p :: p in dirs <==> IsRunDir(children[..i], only, p)
    {
      var c := children[i];
      forall p | p in dirs
        ensures p.run != c.name
      {
        EarlierRuns(children, i, only, p);
      }
      AppendChild(dirs, c);
      AddChild(children[..i], c, only);
      assert children[..i + 1] == children[..i] + [c];
      if Wanted(c, only) {
        var attempts := ListAttempts(c.name, c.attempts);
        dirs := dirs + ([Top(c.name)] + attempts);
      }
    }
    assert children[..|children|] == children;
  }

  lemma NoChildren(only: Option<string>)
    ensures NoRepeats([]) && forall p :: !IsRunDir([], only, p)
  {
  }

  lemma AddChild(children: seq<Child>, c: Child, only: Option<string>)
    ensures forall p :: IsRunDir(children + [c], only, p) <==>
      IsRunDir(children, only, p) || (Wanted(c, only) && OfChild(c, p))
  {
    var all := children + [c];
    forall p
      ensures IsRunDir(all, only, p) <==> IsRunDir(children, only, p) || (Wanted(c, only) && OfChild(c, p))
    {
      if IsRunDir(children, only, p) {
        var i :| 0 <= i < |children| && Wanted(children[i], only) && OfChild(children[i], p);
        assert all[i] == children[i];
      }
      if Wanted(c, only) && OfChild(c, p) {
        assert all[|children|] == c;
      }
    }
  }

  /** A directory is visited if and only if it is a run, the wanted one if one is named, or an attempt of
      such a run. */
  lemma RunDirIff(children: seq<Child>, only: Option<string>, p: RunPath)
    ensures IsRunDir(children, only, p) <==>
      exists c :: c in children && c.isDir && (only == None || only == Some(c.name)) && IsDirOf(c, p)
  {
    if i :| 0 <= i < |children| && Wanted(children[i], only) && OfChild(children[i], p) {
      var c := children[i];
      assert c in children;
      if p.Under? {
        var j :| 0 <= j < |c.attempts| && c.attempts[j] == Attempt(p.attempt, true);
        assert c.attempts[j] in c.attempts;
      }
      assert IsDirOf(c, p);
    }
    if c :| c in children && c.isDir && (only == None || only == Some(c.name)) && IsDirOf(c, p) {
      var i :| 0 <= i < |children| && children[i] == c;
      assert Wanted(children[i], only) && OfChild(children[i], p);
    }
  }

  predicate IsDirOf(c: Child, p: RunPath) {
    p == Top(c.name) || (p.Under? && p.run == c.name && Attempt(p.attempt, true) in c.attempts)
  }

  // ----- The sweep -----

  class RunsRoot {
    var dirs: map<RunPath, RunDirectory>

    /** Distinct paths are distinct directories. */
    ghost predicate Valid()
      reads this
    {
      forall p, q :: p in dirs && q in dirs && p != q ==> dirs[p] != dirs[q]
    }

    ghost function Objects(): set<object>
      reads this
    {
      set p | p in dirs :: dirs[p]
    }

    /** `backfill_root`, run to its end: each discovered directory is visited once, and the
        others keep their files. */
    method BackfillRoot(env: Env, order: seq<RunPath>, grade: RunPath -> Grade, apply: bool)
      returns (outcomes: seq<Outcome>)
      requires Valid() && NoRepeats(order) && forall p :: p in order ==> p in dirs
      modifies Objects()
      ensures Valid()
      ensures |outcomes| == |order|
      ensures forall i :: 0 <= i < |order| ==>
        outcomes[i] == OutcomeOf(env, old(dirs[order[i]].files), apply)
      ensures forall p :: p in dirs ==>
        dirs[p].files == Swept(env, old(dirs[p].files), grade(p), p in order && apply)
    {
      hide OutcomeOf, After, Writes;
      outcomes := [];
      for i := 0 to |order|
        invariant |outcomes| == i
        invariant forall k :: 0 <= k < i ==> outcomes[k] == OutcomeOf(env, old(dirs[order[k]].files), apply)
        invariant forall p :: p in dirs ==>
          dirs[p].files == Swept(env, old(dirs[p].files), grade(p), p in order[..i] && apply)
      {
        var p := order[i];
        assert p !in order[..i];
        var outcome := dirs[p].BackfillRun(env, grade(p), apply, |Writes(env, dirs[p].files, grade(p))|);
        DryIsNothing(env, old(dirs[p].files), Dry(grade(p)));
        outcomes := outcomes + [outcome];
        assert order[..i + 1] == order[..i] + [p];
      }
      assert order[..|order|] == order;
    }
  }

  /** The files of a directory after a sweep that rewrites it, or does not. */
  ghost function Swept(env: Env, fs: Files, g: Grade, rewritten: bool): Files {
    if rewritten then After(env, fs, Applied(g, |Writes(env, fs, g)|)) else fs
  }
}
