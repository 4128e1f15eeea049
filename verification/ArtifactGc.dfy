/** The artifact collector: it deletes recomputable bulk below each project of a runs root.
    Paths are relative to the root; ages come from the environment. */
module ArtifactGc {
  import opened Sums

  type Path = seq<string>

  datatype Entry = Dir | File(size: nat) {
    function Size(): nat {
      if File? then size else 0
    }
  }

  type Tree = map<Path, Entry>

  /** Files have nothing below them. */
  ghost predicate IsTree(t: Tree) {
    forall p, q :: p in t && q in t && p < q ==> t[p].Dir?
  }

  const HEAVY_DIR_NAMES := {"datasets", "wandb", "__pycache__", ".pip-cache"}
  const HEAVY_FILE_SUFFIXES := {".pt", ".pth", ".ckpt", ".safetensors", ".bin", ".npz"}
  const SKIP_TOP_LEVEL := {".cache", "_archive", "_lessons"}

  function LastDot(name: string): int {
    if name == "" then -1
    else if name[|name| - 1] == '.' then |name| - 1
    else LastDot(name[..|name| - 1])
  }

  /** `Path.suffix` */
  function Suffix(name: string): string {
    var i := LastDot(name);
    if 0 < i < |name| - 1 then name[i..] else ""
  }

  // ----- What is to be deleted -----

  datatype Options = Options(minAgeDays: real, apply: bool, includePreserved: bool)

  predicate IsHeavy(e: Entry, p: Path, age: Path -> real, minAgeDays: real)
    requires p != []
  {
    var name := p[|p| - 1];
    (if e.Dir? then name in HEAVY_DIR_NAMES else Suffix(name) in HEAVY_FILE_SUFFIXES)
    && age(p) >= minAgeDays
  }

  /** `set(_candidates(project, min_age_days))` */
  function Candidates(t: Tree, project: string, age: Path -> real, minAgeDays: real): (r: set<Path>)
    ensures r <= t.Keys
  {
    set p | p in t && |p| > 1 && p[0] == project && IsHeavy(t[p], p, age, minAgeDays)
  }

  predicate Eligible(t: Tree, project: string, includePreserved: bool) {
    project !in SKIP_TOP_LEVEL && ([project, ".preserved"] !in t || includePreserved)
  }

  function Projects(t: Tree): set<string> {
    set p | p in t && |p| == 1 && t[p].Dir? :: p[0]
  }

  /** The victims of the given projects. */
  function VictimsOf(t: Tree, projects: set<string>, age: Path -> real, o: Options): (r: set<Path>)
    ensures r <= t.Keys
  {
    set p | p in t && |p| > 1 && p[0] in projects && Eligible(t, p[0], o.includePreserved)
      && IsHeavy(t[p], p, age, o.minAgeDays)
  }

  // ----- Sizes -----

  /** `_du` of the whole tree. */
  ghost function Bytes(t: Tree): nat {
    Sum(map p | p in t :: t[p].Size())
  }

  /** A file counts with its size and a directory with nothing; a tree is the sum of its two parts. */
  lemma BytesAreSizes(t: Tree, p: Path, n: nat)
    ensures Bytes(map[]) == 0 && Bytes(map[p := Dir]) == 0 && Bytes(map[p := File(n)]) == n
    ensures Bytes(t) == Bytes(Under(t, p)) + Bytes(NotUnder(t, p))
  {
    SumEmpty<Path>();
    SumRemove(map[p := 0], p);
    SumRemove(map[p := n], p);
    assert map[p := 0] - {p} == map[] && map[p := n] - {p} == map[];
    assert (map q | q in map[p := Dir] :: Dir.Size()) == map[p := 0];
    assert (map q | q in map[p := File(n)] :: File(n).Size()) == map[p := n];
    BytesOf(map[]);
    BytesOf(map[p := Dir]);
    BytesOf(map[p := File(n)]);
    BytesSplit(t, p);
  }

  lemma BytesOf(t: Tree)
    ensures Bytes(t) == Sum(map p | p in t :: t[p].Size())
  {
  }

  function Under(t: Tree, v: Path): Tree {
    map p | p in t && v <= p :: t[p]
  }

  function NotUnder(t: Tree, v: Path): Tree {
    map p | p in t && !(v <= p) :: t[p]
  }

  predicate Covered(p: Path, victims: set<Path>) {
    exists v | v in victims :: v <= p
  }

  /** What is at or under no victim. */
  function Survivors(t: Tree, victims: set<Path>): Tree {
    map p | p in t && !Covered(p, victims) :: t[p]
  }

  ghost function Covers(p: Path, victims: set<Path>): nat {
    |set v | v in victims && v <= p|
  }

  ghost function Weight(p: Path, victims: set<Path>, once: bool): nat {
    if once && Covers(p, victims) > 1 then 1 else Covers(p, victims)
  }

  ghost function CoveredSizes(t: Tree, victims: set<Path>, once: bool): map<Path, nat> {
    map p | p in t :: t[p].Size() * Weight(p, victims, once)
  }

  /** Each file's size times the number of victims covering it; with `once`, a file counts at
      most once. */
  ghost function CoveredBytes(t: Tree, victims: set<Path>, once: bool): nat {
    Sum(CoveredSizes(t, victims, once))
  }

  /** The bytes of the part of a tree that satisfies a condition, summed over the whole. */
  lemma PartBytes(t: Tree, part: Tree)
    requires part.Keys <= t.Keys && forall p :: p in part ==> part[p] == t[p]
    ensures Bytes(part) == Sum(map p | p in t :: if p in part then t[p].Size() else 0)
  {
    SumExtend(map p | p in part :: part[p].Size(), map p | p in t :: if p in part then t[p].Size() else 0);
  }

  lemma CoversNone(p: Path, victims: set<Path>)
    ensures Covers(p, victims) == 0 <==> !Covered(p, victims)
  {
    var vs := set v | v in victims && v <= p;
    if Covered(p, victims) {
      var v :| v in victims && v <= p;
      assert v in vs;
    }
    if vs != {} {
      var v :| v in vs;
    }
  }

  /** Deleting the covered files frees each of them once. */
  lemma SurvivorBytes(t: Tree, victims: set<Path>)
    ensures Bytes(t) == Bytes(Survivors(t, victims)) + CoveredBytes(t, victims, true)
  {
    var s := Survivors(t, victims);
    var kept: map<Path, nat> := map p | p in t :: if p in s then t[p].Size() else 0;
    PartBytes(t, s);
    forall p | p in t
      ensures t[p].Size() == kept[p] + CoveredSizes(t, victims, true)[p]
    {
      CoversNone(p, victims);
      assert Weight(p, victims, true) == if Covered(p, victims) then 1 else 0;
    }
    SumAdd(kept, CoveredSizes(t, victims, true), map p | p in t :: t[p].Size());
  }

  lemma CoversAdd(p: Path, victims: set<Path>, v: Path)
    requires v !in victims
    ensures Covers(p, victims + {v}) == Covers(p, victims) + if v <= p then 1 else 0
  {
    var before, after := set w | w in victims && w <= p, set w | w in victims + {v} && w <= p;
    if v <= p {
      assert after == before + {v};
    } else {
      assert after == before;
    }
  }

  /** One more victim adds its whole disk usage to the dry-run total. */
  lemma CoveredBytesAdd(t: Tree, victims: set<Path>, v: Path)
    requires v !in victims
    ensures CoveredBytes(t, victims + {v}, false) == CoveredBytes(t, victims, false) + Bytes(Under(t, v))
  {
    var u := Under(t, v);
    var usage: map<Path, nat> := map p | p in t :: if p in u then t[p].Size() else 0;
    PartBytes(t, u);
    forall p | p in t
      ensures CoveredSizes(t, victims + {v}, false)[p] == CoveredSizes(t, victims, false)[p] + usage[p]
    {
      CoversAdd(p, victims, v);
      assert t[p].Size() * (Covers(p, victims) + 1) == t[p].Size() * Covers(p, victims) + t[p].Size();
    }
    SumAdd(CoveredSizes(t, victims, false), usage, CoveredSizes(t, victims + {v}, false));
  }

  lemma NothingCovered(t: Tree)
    ensures CoveredBytes(t, {}, false) == 0
  {
    forall p | p in t
      ensures CoveredSizes(t, {}, false)[p] == 0
    {
      CoversNone(p, {});
    }
    SumExtend(map[], CoveredSizes(t, {}, false));
    SumEmpty<Path>();
  }

  /** Every nonempty file is covered at most once. */
  ghost predicate CoveredOnce(t: Tree, victims: set<Path>) {
    forall p :: p in t && t[p].Size() > 0 ==> Covers(p, victims) <= 1
  }

  /** The dry-run total is never less than what is freed, and is equal to it exactly when no
      nonempty file lies under two victims. */
  lemma DryRunOverstates(t: Tree, victims: set<Path>)
    ensures CoveredBytes(t, victims, true) <= CoveredBytes(t, victims, false)
    ensures CoveredBytes(t, victims, true) == CoveredBytes(t, victims, false) <==> CoveredOnce(t, victims)
  {
    var once, all := CoveredSizes(t, victims, true), CoveredSizes(t, victims, false);
    forall p | p in t
      ensures once[p] <= all[p]
      ensures once[p] == all[p] <==> t[p].Size() == 0 || Covers(p, victims) <= 1
    {
      SizeTimes(t[p].Size(), Covers(p, victims));
    }
    SumMonotone(once, all);
    if CoveredOnce(t, victims) {
      assert once == all;
    } else {
      var p :| p in t && t[p].Size() > 0 && Covers(p, victims) > 1;
      assert once[p] != all[p];
    }
  }

  lemma SizeTimes(size: nat, n: nat)
    ensures n > 1 ==> size <= size * n
    ensures n > 1 ==> (size == size * n <==> size == 0)
  {
    if n > 1 {
      assert size * n == size + size * (n - 1);
      if size > 0 {
        assert size * (n - 1) >= size;
      }
    }
  }

  // ----- Deleting one victim after another -----

  /** Remove a directory tree, or one file. */
  function Delete(t: Tree, v: Path): Tree
    requires v in t
  {
    if t[v].Dir? then NotUnder(t, v) else t - {v}
  }

  lemma DeleteIsNotUnder(t: Tree, v: Path)
    requires IsTree(t) && v in t
    ensures Delete(t, v) == NotUnder(t, v) && IsTree(Delete(t, v))
  {
    if t[v].File? {
      assert forall p :: p in t && v <= p ==> p == v by {
        assert forall p :: p in t ==> !(v < p);
      }
      assert t - {v} == NotUnder(t, v);
    }
  }

  datatype Tally = Tally(tree: Tree, total: nat, deleted: nat)

  /** Delete the victims in the given order, skipping those already gone. */
  ghost function Reclaim(t: Tree, order: seq<Path>): Tally {
    if order == [] then Tally(t, 0, 0)
    else
      var v := order[0];
      if v !in t then Reclaim(t, order[1..])
      else
        var rest := Reclaim(Delete(t, v), order[1..]);
        Tally(rest.tree, Bytes(Under(t, v)) + rest.total, 1 + rest.deleted)
  }

  lemma BytesSplit(t: Tree, v: Path)
    ensures Bytes(t) == Bytes(Under(t, v)) + Bytes(NotUnder(t, v))
  {
    var a, b := Under(t, v), NotUnder(t, v);
    PartBytes(t, a);
    PartBytes(t, b);
    SumAdd(map p | p in t :: if p in a then t[p].Size() else 0,
           map p | p in t :: if p in b then t[p].Size() else 0,
           map p | p in t :: t[p].Size());
  }

  /** Every path below an entry that is missing is missing too. */
  ghost predicate ClosedAt(t: Tree, v: Path) {
    v !in t ==> forall p :: p in t ==> !(v <= p)
  }

  ghost function Elements(order: seq<Path>): set<Path> {
    set v | v in order
  }

  /** Whatever the order of the victims, the total is the bytes before minus the bytes after,
      and what survives is what is at or under no victim. */
  lemma {:induction false} ReclaimConserves(t: Tree, order: seq<Path>)
    requires IsTree(t) && forall v :: v in order ==> ClosedAt(t, v)
    ensures Reclaim(t, order).total == Bytes(t) - Bytes(Reclaim(t, order).tree)
    ensures Reclaim(t, order).tree == Survivors(t, Elements(order))
    decreases |order|
  {
    if order == [] {
      assert Survivors(t, {}) == t;
      assert Elements(order) == {};
    } else {
      var v, rest := order[0], order[1..];
      assert Elements(order) == {v} + Elements(rest);
      var t' := if v in t then Delete(t, v) else t;
      if v in t {
        DeleteIsNotUnder(t, v);
        BytesSplit(t, v);
      }
      assert t' == NotUnder(t, v);
      forall w | w in rest
        ensures ClosedAt(t', w)
      {
        assert w in order;
        StaysClosed(t, v, w);
      }
      ReclaimConserves(t', rest);
      assert Survivors(t', Elements(rest)) == Survivors(t, Elements(order)) by {
        forall p | p in t
          ensures Covered(p, Elements(order)) <==> v <= p || Covered(p, Elements(rest))
        {
          CoveredUnion(p, v, Elements(rest));
        }
      }
    }
  }

  lemma StaysClosed(t: Tree, v: Path, w: Path)
    requires ClosedAt(t, w)
    ensures ClosedAt(NotUnder(t, v), w)
  {
    var t' := NotUnder(t, v);
    if w in t && w !in t' {
      forall p | p in t'
        ensures !(w <= p)
      {
        PrefixTransitive(v, w, p);
      }
    }
  }

  lemma PrefixTransitive(a: Path, b: Path, c: Path)
    ensures a <= b && b <= c ==> a <= c
  {
  }

  lemma CoveredUnion(p: Path, v: Path, victims: set<Path>)
    ensures Covered(p, {v} + victims) <==> v <= p || Covered(p, victims)
  {
  }

  ghost predicate DeepestFirst(order: seq<Path>) {
    forall i, j :: 0 <= i < j < |order| ==> |order[i]| >= |order[j]| && order[i] != order[j]
  }

  /** Deepest first, the check for an already removed parent never fires: every victim is
      still there at its turn, and all of them are counted. */
  lemma {:induction false} DeepestFirstDeletesAll(t: Tree, order: seq<Path>)
    requires IsTree(t) && DeepestFirst(order) && forall v :: v in order ==> v in t
    ensures Reclaim(t, order).deleted == |order|
    decreases |order|
  {
    if order != [] {
      var v, rest := order[0], order[1..];
      DeleteIsNotUnder(t, v);
      forall i | 0 <= i < |rest|
        ensures rest[i] in Delete(t, v)
      {
        assert rest[i] == order[i + 1] && order[i + 1] in t;
        assert |v| >= |rest[i]| && v != rest[i];
      }
      forall i, j | 0 <= i < j < |rest|
        ensures |rest[i]| >= |rest[j]| && rest[i] != rest[j]
      {
        assert rest[i] == order[i + 1] && rest[j] == order[j + 1];
      }
      DeepestFirstDeletesAll(Delete(t, v), rest);
    }
  }

  // ----- Project by project -----

  lemma SurvivorsCompose(t: Tree, a: set<Path>, b: set<Path>)
    ensures Survivors(Survivors(t, a), b) == Survivors(t, a + b)
  {
  }

  lemma PrefixHead(v: Path, p: Path)
    ensures v != [] && v <= p ==> p != [] && v[0] == p[0]
  {
  }

  /** Collecting some projects leaves the others as they were. */
  lemma OtherProjectsUntouched(t: Tree, done: set<string>, q: string, age: Path -> real, o: Options)
    requires q !in done
    ensures var t' := Survivors(t, VictimsOf(t, done, age, o));
      Candidates(t', q, age, o.minAgeDays) == Candidates(t, q, age, o.minAgeDays) &&
      (Eligible(t', q, o.includePreserved) <==> Eligible(t, q, o.includePreserved))
  {
    hide IsHeavy;
    var victims := VictimsOf(t, done, age, o);
    forall p | p in t && p != [] && p[0] == q
      ensures !Covered(p, victims)
    {
      forall v | v in victims
        ensures !(v <= p)
      {
        PrefixHead(v, p);
      }
    }
  }

  lemma VictimsNext(t: Tree, done: set<string>, q: string, age: Path -> real, o: Options)
    requires q !in done
    ensures var next, victims := VictimsOf(t, done + {q}, age, o), VictimsOf(t, done, age, o);
      if Eligible(t, q, o.includePreserved) then
        next == victims + Candidates(t, q, age, o.minAgeDays) &&
        |next| == |victims| + |Candidates(t, q, age, o.minAgeDays)| &&
        victims !! Candidates(t, q, age, o.minAgeDays)
      else next == victims
  {
    hide IsHeavy, Eligible;
    var next, victims := VictimsOf(t, done + {q}, age, o), VictimsOf(t, done, age, o);
    var more := Candidates(t, q, age, o.minAgeDays);
    forall p | p in t
      ensures p in next <==> p in victims || (Eligible(t, q, o.includePreserved) && p in more)
      ensures !(p in victims && p in more)
    {
    }
    assert victims !! more;
    assert |victims + more| == |victims| + |more|;
  }

  lemma {:induction false} CoveredBytesUnion(t: Tree, a: set<Path>, b: set<Path>)
    requires a !! b
    ensures CoveredBytes(t, a + b, false) == CoveredBytes(t, a, false) + CoveredBytes(t, b, false)
    decreases |b|
  {
    hide CoveredBytes;
    if b == {} {
      NothingCovered(t);
      assert a + b == a;
    } else {
      var v :| v in b;
      CoveredBytesUnion(t, a, b - {v});
      CoveredBytesAdd(t, a + (b - {v}), v);
      CoveredBytesAdd(t, b - {v}, v);
      assert a + (b - {v}) + {v} == a + b && b - {v} + {v} == b;
    }
  }

  // ----- The collector -----

  lemma {:induction false} DeepestExists(victims: set<Path>)
    requires victims != {}
    ensures exists v :: v in victims && forall w :: w in victims ==> |w| <= |v|
    decreases |victims|
  {
    var v :| v in victims;
    if victims != {v} {
      assert victims - {v} != {};
      DeepestExists(victims - {v});
      var w :| w in victims - {v} && forall x :: x in victims - {v} ==> |x| <= |w|;
      var top := if |w| < |v| then v else w;
      assert forall x :: x in victims ==> x == v || x in victims - {v};
      assert top in victims && forall x :: x in victims ==> |x| <= |top|;
    }
  }

  /** No path of the rest is deeper than one that is in order already, or is one. */
  ghost predicate Precedes(order: seq<Path>, rest: set<Path>) {
    forall i, w :: 0 <= i < |order| && w in rest ==> |order[i]| >= |w| && order[i] != w
  }

  lemma TakeDeepest(order: seq<Path>, rest: set<Path>, v: Path)
    requires DeepestFirst(order) && Precedes(order, rest)
    requires v in rest && forall w :: w in rest ==> |w| <= |v|
    ensures DeepestFirst(order + [v]) && Precedes(order + [v], rest - {v})
    ensures Elements(order + [v]) == Elements(order) + {v}
  {
  }

  /** `sorted(victims, key=lambda p: len(p.parts), reverse=True)`; ties in any order */
  method SortDeepestFirst(victims: set<Path>) returns (order: seq<Path>)
    ensures DeepestFirst(order) && Elements(order) == victims
  {
    hide DeepestFirst, Precedes, Elements;
    order := [];
    var rest := victims;
    NothingPrecedes(rest);
    while rest != {}
      invariant rest <= victims && Elements(order) == victims - rest
      invariant DeepestFirst(order) && Precedes(order, rest)
      decreases rest
    {
      DeepestExists(rest);
      var v :| v in rest && forall w :: w in rest ==> |w| <= |v|;
      TakeDeepest(order, rest, v);
      order, rest := order + [v], rest - {v};
    }
  }

  lemma NothingPrecedes(rest: set<Path>)
    ensures DeepestFirst([]) && Precedes([], rest) && Elements([]) == {}
  {
  }

  lemma {:induction false} ElementsCount(order: seq<Path>)
    requires DeepestFirst(order)
    ensures |Elements(order)| == |order|
  {
    if order != [] {
      var init, v := order[..|order| - 1], order[|order| - 1];
      ElementsCount(init);
      assert order == init + [v];
      assert v !in Elements(init);
      assert Elements(order) == Elements(init) + {v};
    }
  }

  lemma NoElements()
    ensures Elements([]) == {}
  {
  }

  lemma InElements(order: seq<Path>, i: nat)
    requires i < |order|
    ensures order[i] in Elements(order)
  {
  }

  /** The part of a size table that is still to be added up. */
  ghost function Part(sizes: map<Path, nat>, rest: set<Path>): map<Path, nat> {
    map q | q in rest && q in sizes :: sizes[q]
  }

  lemma PartRemove(sizes: map<Path, nat>, p: Path, rest: set<Path>)
    requires p in rest && p in sizes
    ensures Sum(Part(sizes, rest)) == sizes[p] + Sum(Part(sizes, rest - {p}))
  {
    SumRemove(Part(sizes, rest), p);
    assert Part(sizes, rest) - {p} == Part(sizes, rest - {p});
  }

  lemma PartNothing(sizes: map<Path, nat>, rest: set<Path>)
    requires rest == {}
    ensures Sum(Part(sizes, rest)) == 0
  {
    assert Part(sizes, rest).Keys == {};
    SumEmpty<Path>();
  }

  lemma ReclaimNext(t: Tree, order: seq<Path>, i: nat)
    requires i < |order|
    ensures var rest := Reclaim(t, order[i..]);
      if order[i] in t then
        var next := Reclaim(Delete(t, order[i]), order[i + 1..]);
        rest == Tally(next.tree, Bytes(Under(t, order[i])) + next.total, 1 + next.deleted)
      else rest == Reclaim(t, order[i + 1..])
  {
    assert order[i..][1..] == order[i + 1..];
  }

  lemma DryRunNext(t: Tree, order: seq<Path>, i: nat)
    requires i < |order| && DeepestFirst(order)
    ensures CoveredBytes(t, Elements(order[..i + 1]), false)
      == CoveredBytes(t, Elements(order[..i]), false) + Bytes(Under(t, order[i]))
  {
    var v := order[i];
    assert order[..i + 1] == order[..i] + [v];
    assert v !in Elements(order[..i]);
    assert Elements(order[..i + 1]) == Elements(order[..i]) + {v};
    CoveredBytesAdd(t, Elements(order[..i]), v);
  }

  lemma ReclaimNothing(t: Tree)
    ensures Reclaim(t, []) == Tally(t, 0, 0)
  {
  }

  /** What the collector's order does. */
  lemma ReclaimAll(t: Tree, order: seq<Path>)
    requires IsTree(t) && DeepestFirst(order) && Elements(order) <= t.Keys
    ensures var done := Reclaim(t, order);
      done.tree == Survivors(t, Elements(order)) &&
      done.total == Bytes(t) - Bytes(done.tree) &&
      done.deleted == |order|
  {
    forall v | v in order
      ensures v in t
    {
      assert v in Elements(order);
    }
    ReclaimConserves(t, order);
    DeepestFirstDeletesAll(t, order);
  }

  // ----- What is collected, over the tree alone -----

  lemma {:induction false} LastDotOf(stem: string, ext: string)
    requires '.' !in ext
    ensures LastDot(stem + ("." + ext)) == |stem|
    decreases |ext|
  {
    var name := stem + ("." + ext);
    if ext != "" {
      var init := ext[..|ext| - 1];
      assert name[|name| - 1] == ext[|ext| - 1] && ext[|ext| - 1] in ext;
      assert name[..|name| - 1] == stem + ("." + init);
      LastDotOf(stem, init);
    }
  }

  lemma {:induction false} LastDotIsDot(name: string)
    ensures LastDot(name) < |name| && (LastDot(name) >= 0 ==> name[LastDot(name)] == '.')
  {
    if name != "" && name[|name| - 1] != '.' {
      LastDotIsDot(name[..|name| - 1]);
    }
  }

  /** The name is `ext` behind something and a dot. */
  predicate EndsIn(name: string, ext: string) {
    |ext| + 1 < |name| && name[|name| - |ext| - 1..] == "." + ext
  }

  lemma SuffixIff(name: string, ext: string)
    requires ext != "" && '.' !in ext
    ensures Suffix(name) == "." + ext <==> EndsIn(name, ext)
  {
    hide LastDot;
    var i := LastDot(name);
    LastDotIsDot(name);
    if Suffix(name) == "." + ext {
      assert |name| - i == |ext| + 1;
    }
    if EndsIn(name, ext) {
      var stem := name[..|name| - |ext| - 1];
      assert name == stem + ("." + ext);
      LastDotOf(stem, ext);
    }
  }

  predicate IsHeavyFile(name: string) {
    EndsIn(name, "pt") || EndsIn(name, "pth") || EndsIn(name, "ckpt") || EndsIn(name, "safetensors")
    || EndsIn(name, "bin") || EndsIn(name, "npz")
  }

  lemma SuffixListed(name: string)
    ensures Suffix(name) in HEAVY_FILE_SUFFIXES <==> IsHeavyFile(name)
  {
    hide Suffix, EndsIn;
    SuffixIff(name, "pt");
    SuffixIff(name, "pth");
    SuffixIff(name, "ckpt");
    SuffixIff(name, "safetensors");
    SuffixIff(name, "bin");
    SuffixIff(name, "npz");
    assert "." + "pt" == ".pt" && "." + "pth" == ".pth" && "." + "ckpt" == ".ckpt";
    assert "." + "safetensors" == ".safetensors" && "." + "bin" == ".bin" && "." + "npz" == ".npz";
  }

  /** An old enough piece of bulk in a project that is collected. */
  predicate IsBulk(t: Tree, q: Path, age: Path -> real, o: Options) {
    && |q| > 1 && q in t && age(q) >= o.minAgeDays
    && [q[0]] in t && t[[q[0]]].Dir? && q[0] !in {".cache", "_archive", "_lessons"}
    && ([q[0], ".preserved"] in t ==> o.includePreserved)
    && (if t[q].Dir? then q[|q| - 1] in {"datasets", "wandb", "__pycache__", ".pip-cache"}
        else IsHeavyFile(q[|q| - 1]))
  }

  lemma HeavyIsBulk(t: Tree, q: Path, age: Path -> real, o: Options)
    requires |q| > 1 && q in t && [q[0]] in t && t[[q[0]]].Dir?
    ensures Eligible(t, q[0], o.includePreserved) && IsHeavy(t[q], q, age, o.minAgeDays) <==> IsBulk(t, q, age, o)
  {
    hide Suffix, IsHeavyFile;
    SuffixListed(q[|q| - 1]);
  }

  lemma VictimsAreBulk(t: Tree, age: Path -> real, o: Options)
    ensures forall q :: q in VictimsOf(t, Projects(t), age, o) <==> IsBulk(t, q, age, o)
  {
    hide Projects, Eligible, IsHeavy;
    forall q
      ensures q in VictimsOf(t, Projects(t), age, o) <==> IsBulk(t, q, age, o)
    {
      if |q| > 1 && q in t {
        ProjectIff(t, q[0]);
        if q[0] in Projects(t) {
          HeavyIsBulk(t, q, age, o);
        }
      }
    }
  }

  lemma ProjectIff(t: Tree, project: string)
    ensures project in Projects(t) <==> [project] in t && t[[project]].Dir?
  {
    if [project] in t && t[[project]].Dir? {
      assert [project][0] == project;
    }
    if project in Projects(t) {
      var p :| p in t && |p| == 1 && t[p].Dir? && p[0] == project;
      assert p == [project];
    }
  }

  /** What applying leaves: an entry is gone if and only if it lies at or under a piece of bulk. */
  lemma CollectedIff(t: Tree, age: Path -> real, o: Options)
    ensures var t' := Survivors(t, VictimsOf(t, Projects(t), age, o));
      && (forall p :: p in t' ==> p in t && t'[p] == t[p])
      && forall p :: p in t ==> (p !in t' <==> exists q :: IsBulk(t, q, age, o) && q <= p)
  {
    hide VictimsOf, IsBulk, Projects;
    VictimsAreBulk(t, age, o);
  }

  /** Everything in a project with the marker survives unless such projects are included, and so does
      everything in the three top-level directories that are skipped. */
  lemma MarkedSurvives(t: Tree, age: Path -> real, o: Options, p: Path)
    requires p in t && p != []
    requires ([p[0], ".preserved"] in t && !o.includePreserved) || p[0] in {".cache", "_archive", "_lessons"}
    ensures p in Survivors(t, VictimsOf(t, Projects(t), age, o))
  {
    hide VictimsOf, Survivors, Projects, IsHeavyFile;
    CollectedIff(t, age, o);
    forall q | q <= p
      ensures !IsBulk(t, q, age, o)
    {
      if |q| > 1 {
        PrefixHead(q, p);
      }
    }
  }

  lemma CoverIsAbove(t: Tree, age: Path -> real, o: Options, p: Path, q: Path)
    requires IsTree(t) && p in t && |p| > 1 && t[p].File? && !IsHeavyFile(p[|p| - 1])
    requires IsBulk(t, q, age, o) && q <= p
    ensures 1 < |q| < |p| && q == p[..|q|]
  {
    hide IsHeavyFile;
    SameLength(q, p);
  }

  lemma SameLength(q: Path, p: Path)
    ensures q <= p && |q| == |p| ==> q == p
  {
  }

  /** The documentation has all of a run's records survive. A file that is no checkpoint survives if and
      only if nothing above it is collected. */
  lemma RecordSurvivesIff(t: Tree, age: Path -> real, o: Options, p: Path)
    requires IsTree(t) && p in t && |p| > 1 && t[p].File? && !IsHeavyFile(p[|p| - 1])
    ensures p !in Survivors(t, VictimsOf(t, Projects(t), age, o))
      <==> exists i :: 1 < i < |p| && IsBulk(t, p[..i], age, o)
  {
    hide VictimsOf, Survivors, Projects, IsHeavyFile, IsBulk, IsTree;
    CollectedIff(t, age, o);
    if q :| IsBulk(t, q, age, o) && q <= p {
      CoverIsAbove(t, age, o, p, q);
      assert IsBulk(t, p[..|q|], age, o);
    }
    if i :| 1 < i < |p| && IsBulk(t, p[..i], age, o) {
      assert p[..i] <= p;
    }
  }

  /** A report inside a dataset copy goes with it. */
  lemma RecordIsCollected(age: Path -> real, o: Options)
    requires forall p :: age(p) >= o.minAgeDays
    ensures var file := ["p", "datasets", "report.json"];
      var t := map[["p"] := Dir, ["p", "datasets"] := Dir, file := File(1)];
      file !in Survivors(t, VictimsOf(t, Projects(t), age, o))
  {
    hide VictimsOf, Survivors, Projects, IsHeavyFile;
    var dir, file := ["p", "datasets"], ["p", "datasets", "report.json"];
    var t: Tree := map[["p"] := Dir, dir := Dir, file := File(1)];
    CollectedIff(t, age, o);
    assert |"p"| == 1 && |".cache"| == 6 && |"_archive"| == 8 && |"_lessons"| == 8;
    assert ["p", ".preserved"] !in t by {
      assert |".preserved"| != |"datasets"|;
    }
    assert IsBulk(t, dir, age, o);
    assert dir <= file;
  }

  class RunsRoot {
    var tree: Tree

    constructor (t: Tree)
      ensures tree == t
    {
      tree := t;
    }

    /** `_du` */
    method DiskUsage(v: Path) returns (total: nat)
      requires IsTree(tree) && v in tree
      ensures total == Bytes(Under(tree, v))
    {
      ghost var u := Under(tree, v);
      ghost var sizes: map<Path, nat> := map p | p in u :: u[p].Size();
      if tree[v].File? {
        assert forall p :: p in tree && v <= p ==> p == v by {
          assert forall p :: p in tree ==> !(v < p);
        }
        assert sizes == map[v := tree[v].Size()];
        SumRemove(sizes, v);
        assert sizes - {v} == map[];
        SumEmpty<Path>();
        return tree[v].Size();
      }
      total := 0;
      var rest := set p | p in tree && v < p;
      SumRemove(sizes, v);
      assert forall q :: q in tree ==> (v <= q && q != v <==> v < q);
      assert sizes - {v} == Part(sizes, rest);
      while rest != {}
        invariant forall p :: p in rest ==> p in tree && v < p
        invariant Sum(sizes) == total + Sum(Part(sizes, rest))
        decreases rest
      {
        var p :| p in rest;
        PartRemove(sizes, p, rest);
        if tree[p].File? {
          total := total + tree[p].size;
        }
        rest := rest - {p};
      }
      PartNothing(sizes, rest);
    }

    /** One project of the collection loop. */
    method CollectProject(project: string, age: Path -> real, o: Options)
      returns (total: nat, deleted: nat)
      requires IsTree(tree)
      modifies this
      ensures IsTree(tree)
      ensures var victims := Candidates(old(tree), project, age, o.minAgeDays);
        if o.apply then
          tree == Survivors(old(tree), victims) && total == Bytes(old(tree)) - Bytes(tree)
          && deleted == |victims|
        else
          tree == old(tree) && total == CoveredBytes(tree, victims, false) && deleted == 0
    {
      hide Reclaim, CoveredBytes, Bytes, Survivors, IsTree, DeepestFirst, Candidates, Delete, Under, Elements;
      ghost var before := tree;
      var victims := Candidates(tree, project, age, o.minAgeDays);
      var order := SortDeepestFirst(victims);
      ElementsCount(order);
      ReclaimAll(before, order);
      total, deleted := 0, 0;
      var i := 0;
      assert order[0..] == order && order[..0] == [];
      NoElements();
      NothingCovered(before);
      while i < |order|
        invariant 0 <= i <= |order| && IsTree(tree)
        invariant !o.apply ==>
          tree == before && deleted == 0 && total == CoveredBytes(before, Elements(order[..i]), false)
        invariant o.apply ==>
          var rest := Reclaim(tree, order[i..]);
          Reclaim(before, order) == Tally(rest.tree, total + rest.total, deleted + rest.deleted)
      {
        var v := order[i];
        ReclaimNext(tree, order, i);
        DryRunNext(tree, order, i);
        InElements(order, i);
        if v in tree {
          var size := DiskUsage(v);
          total := total + size;
          if o.apply {
            DeleteIsNotUnder(tree, v);
            tree := Delete(tree, v);
            deleted := deleted + 1;
          }
        }
        i := i + 1;
      }
      assert order[|order|..] == [] && order[..|order|] == order;
      ReclaimNothing(tree);
    }

    /** `main`: collect every project that is not skipped. */
    method Collect(age: Path -> real, o: Options) returns (grandTotal: nat, nDeleted: nat)
      requires IsTree(tree)
      modifies this
      ensures IsTree(tree)
      ensures if o.apply then
          (forall p :: p in tree <==> p in old(tree) && !exists q :: IsBulk(old(tree), q, age, o) && q <= p)
          && forall p :: p in tree ==> tree[p] == old(tree)[p]
        else tree == old(tree)
      ensures var victims := VictimsOf(old(tree), Projects(old(tree)), age, o);
        if o.apply then
          tree == Survivors(old(tree), victims) && grandTotal == Bytes(old(tree)) - Bytes(tree)
          && nDeleted == |victims|
        else
          tree == old(tree) && grandTotal == CoveredBytes(tree, victims, false) && nDeleted == 0
    {
      hide CoveredBytes, Bytes, Survivors, IsTree, Candidates, VictimsOf, Eligible;
      grandTotal, nDeleted := 0, 0;
      ghost var before := tree;
      var rest := Projects(tree);
      ghost var done: set<string> := {};
      NoVictims(before, age, o);
      while rest != {}
        invariant done + rest == Projects(before) && done !! rest
        invariant IsTree(tree)
        invariant var victims := VictimsOf(before, done, age, o);
          if o.apply then
            tree == Survivors(before, victims) && grandTotal == Bytes(before) - Bytes(tree)
            && nDeleted == |victims|
          else
            tree == before && grandTotal == CoveredBytes(before, victims, false) && nDeleted == 0
        decreases rest
      {
        var project :| project in rest;
        OtherProjectsUntouched(before, done, project, age, o);
        VictimsNext(before, done, project, age, o);
        ghost var victims, more := VictimsOf(before, done, age, o), Candidates(before, project, age, o.minAgeDays);
        if Eligible(tree, project, o.includePreserved) {
          var projectTotal, deleted := CollectProject(project, age, o);
          grandTotal, nDeleted := grandTotal + projectTotal, nDeleted + deleted;
          SurvivorsCompose(before, victims, more);
          CoveredBytesUnion(before, victims, more);
        }
        rest, done := rest - {project}, done + {project};
      }
      assert done == Projects(before);
      CollectedIff(before, age, o);
    }
  }

  lemma NoVictims(t: Tree, age: Path -> real, o: Options)
    ensures VictimsOf(t, {}, age, o) == {} && Survivors(t, {}) == t && CoveredBytes(t, {}, false) == 0
  {
    NothingCovered(t);
  }

  /** A dry run promises at least what applying then frees, and exactly that when and only
      when no nonempty file lies under two victims. */
  lemma DryRunAgainstApply(t: Tree, age: Path -> real, o: Options)
    ensures var victims := VictimsOf(t, Projects(t), age, o);
      var freed := Bytes(t) - Bytes(Survivors(t, victims));
      CoveredBytes(t, victims, false) >= freed &&
      (CoveredBytes(t, victims, false) == freed <==> CoveredOnce(t, victims))
  {
    var victims := VictimsOf(t, Projects(t), age, o);
    SurvivorBytes(t, victims);
    DryRunOverstates(t, victims);
  }

  lemma NestedVictims(t: Tree, victims: set<Path>, d: Path, f: Path)
    requires d in victims && f in victims && d < f
    requires f in t && t[f].Size() > 0
    ensures !CoveredOnce(t, victims)
  {
    var vs := set v | v in victims && v <= f;
    assert |{d, f}| == 2;
    assert vs == {d, f} + (vs - {d, f});
    assert Covers(f, victims) == |vs| >= 2;
  }

  lemma CheckpointSuffix()
    ensures Suffix("m.pt") == ".pt"
  {
    assert "m.pt"[..3] == "m.p" && "m.p"[..2] == "m.";
    assert "m.pt"[1..] == ".pt";
  }

  /** A checkpoint inside a dataset copy: the dry run counts it twice. */
  lemma NestedVictimCountsTwice(age: Path -> real, o: Options)
    requires forall p :: age(p) >= o.minAgeDays
    ensures var dir, file := ["p", "datasets"], ["p", "datasets", "m.pt"];
      var t := map[["p"] := Dir, dir := Dir, file := File(1)];
      !CoveredOnce(t, VictimsOf(t, Projects(t), age, o))
  {
    hide CoveredOnce, Suffix;
    var dir, file := ["p", "datasets"], ["p", "datasets", "m.pt"];
    var t: Tree := map[["p"] := Dir, dir := Dir, file := File(1)];
    assert "p" in Projects(t) by {
      assert ["p"] in t && t[["p"]].Dir? && ["p"][0] == "p";
    }
    CheckpointSuffix();
    assert IsHeavy(t[dir], dir, age, o.minAgeDays) && IsHeavy(t[file], file, age, o.minAgeDays);
    assert |"p"| == 1 && |".cache"| == 6 && |"_archive"| == 8 && |"_lessons"| == 8;
    assert Eligible(t, "p", o.includePreserved) by {
      assert ["p", ".preserved"] !in t by {
        assert |".preserved"| != |"datasets"|;
      }
    }
    assert dir < file;
    NestedVictims(t, VictimsOf(t, Projects(t), age, o), dir, file);
  }
}
