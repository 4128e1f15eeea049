/** The two summaries of a run's checkpoint files: by cluster, each with its repair history,
    and by repair pass. */
module RepairGroups {
  import opened Wrappers
  import opened TextLines
  import opened StableSort
  import opened Totals

  /** `failed` is the recorded flag read as a truth value. */
  datatype Payload = Payload(clusterId: string, title: string, leafIds: seq<string>, failed: bool, fileCount: int,
    pass: int)

  datatype Content = Unreadable | NoObject | Object(payload: Payload)

  datatype File = File(name: string, content: Content)

  datatype Item = Item(name: string, payload: Payload)

  datatype Repair = Repair(pass: int, failed: bool, fileCount: int)

  /** `failed` is `None` for a stub, which stands for a cluster known only from its repairs. */
  datatype Cluster = Cluster(index: int, clusterId: string, title: string, leafIds: seq<string>, failed: Option<bool>,
                             fileCount: int, history: seq<Repair>)

  datatype Pass = Pass(pass: int, clusterCount: nat, failedCount: nat)

  const CLUSTER := "cluster_"
  const REPAIR := "repair_"

  const ById := (i: Item) => i.payload.clusterId
  const ByPass := (i: Item) => i.payload.pass
  const ToRepair := (i: Item) => Repair(i.payload.pass, i.payload.failed, i.payload.fileCount)
  const PassKey := (r: Repair) => r.pass as real
  const IndexKey := (c: Cluster) => c.index as real
  const NumberKey := (n: int) => n as real

  // ----- What the summaries are -----

  function ItemOf(f: File, prefix: string): seq<Item> {
    if f.content.Object? && StartsWith(f.name, prefix) then [Item(f.name, f.content.payload)] else []
  }

  /** The readable files whose name has the prefix. */
  function Readable(files: seq<File>, prefix: string): seq<Item>
    decreases |files|
  {
    if files == [] then [] else Readable(files[..|files| - 1], prefix) + ItemOf(files[|files| - 1], prefix)
  }

  function Repairs(files: seq<File>, id: string): seq<Repair> {
    Mapped(Group(Readable(files, REPAIR), ById, id), ToRepair)
  }

  function Stub(id: string): Cluster {
    Cluster(-1, id, "", [], None, 0, [])
  }

  function FromCheckpoint(i: Item, index: string -> int): Cluster {
    Cluster(index(i.name), i.payload.clusterId, i.payload.title, i.payload.leafIds, Some(i.payload.failed),
      i.payload.fileCount, [])
  }

  /** The entry of a cluster without its history: the last checkpoint of that id, or a stub. */
  function Base(files: seq<File>, index: string -> int, id: string): Cluster {
    BaseOf(Readable(files, CLUSTER), index)(id)
  }

  function BaseOf(items: seq<Item>, index: string -> int): string -> Cluster {
    id => var own := Group(items, ById, id); if own == [] then Stub(id) else FromCheckpoint(own[|own| - 1], index)
  }

  function Describe(files: seq<File>, index: string -> int): string -> Cluster {
    id => Base(files, index, id).(history := Sort(Repairs(files, id), PassKey))
  }

  function Missing(ids: seq<string>, from: seq<string>): seq<string>
    decreases |ids|
  {
    if ids == [] then [] else
      var n := |ids| - 1;
      Missing(ids[..n], from) + (if ids[n] in from then [] else [ids[n]])
  }

  /** Cluster ids in the order they first occur, then the ids only repairs mention. */
  function Ids(files: seq<File>): seq<string> {
    var own := Keys(Readable(files, CLUSTER), ById);
    own + Missing(Keys(Readable(files, REPAIR), ById), own)
  }

  function Clusters(files: seq<File>, index: string -> int): seq<Cluster> {
    Sort(Mapped(Ids(files), Describe(files, index)), IndexKey)
  }

  function One<T>(): T -> nat {
    _ => 1
  }

  function FailedWeight(): Item -> nat {
    (i: Item) => if i.payload.failed then 1 else 0
  }

  function Summary(files: seq<File>): int -> Pass {
    n => Pass(n, |Group(Readable(files, REPAIR), ByPass, n)|,
      Total(Group(Readable(files, REPAIR), ByPass, n), FailedWeight()))
  }

  function Passes(files: seq<File>): seq<Pass> {
    Mapped(Sort(Keys(Readable(files, REPAIR), ByPass), NumberKey), Summary(files))
  }

  // ----- The readers -----

  /** A dictionary that remembers the order of insertion. */
  datatype Dict<K(==), V> = Dict(keys: seq<K>, at: map<K, V>)

  function Put<K(==), V>(d: Dict<K, V>, k: K, v: V): Dict<K, V> {
    Dict(if k in d.at then d.keys else d.keys + [k], d.at[k := v])
  }

  ghost predicate Is<K(!new), V>(d: Dict<K, V>, keys: seq<K>, value: K -> V) {
    && d.keys == keys
    && (forall k :: k in d.at <==> k in keys)
    && (forall k :: k in d.at ==> d.at[k] == value(k))
  }

  lemma PutIs<K(!new), V>(d: Dict<K, V>, keys: seq<K>, value: K -> V, k: K, v: V, keys': seq<K>, value': K -> V)
    requires Is(d, keys, value)
    requires keys' == if k in keys then keys else keys + [k]
    requires value'(k) == v && forall j :: j != k ==> value'(j) == value(j)
    ensures Is(Put(d, k, v), keys', value')
  {
  }

  lemma ReadableStep(files: seq<File>, i: nat, prefix: string)
    requires i < |files|
    ensures Readable(files[..i + 1], prefix) == Readable(files[..i], prefix) + ItemOf(files[i], prefix)
  {
    assert files[..i + 1][..i] == files[..i];
  }

  lemma KeysPush<X, K>(items: seq<X>, x: X, key: X -> K)
    ensures Keys(items + [x], key) == if key(x) in Keys(items, key) then Keys(items, key)
      else Keys(items, key) + [key(x)]
  {
    assert (items + [x])[..|items|] == items;
  }

  lemma GroupPush<X, K>(items: seq<X>, x: X, key: X -> K, k: K)
    ensures Group(items + [x], key, k) == if key(x) == k then Group(items, key, k) + [x] else Group(items, key, k)
  {
    assert (items + [x])[..|items|] == items;
    assert Group(items, key, k) + [] == Group(items, key, k);
  }

  function RepairsOf(items: seq<Item>): string -> seq<Repair> {
    id => Mapped(Group(items, ById, id), ToRepair)
  }

  lemma AddCheckpoint(d: Dict<string, Cluster>, items: seq<Item>, x: Item, index: string -> int)
    requires Is(d, Keys(items, ById), BaseOf(items, index))
    ensures Is(Put(d, x.payload.clusterId, FromCheckpoint(x, index)), Keys(items + [x], ById),
      BaseOf(items + [x], index))
  {
    hide Keys, Group, BaseOf, Put, Is;
    var id := x.payload.clusterId;
    KeysPush(items, x, ById);
    forall k ensures BaseOf(items + [x], index)(k) == if k == id then FromCheckpoint(x, index)
      else BaseOf(items, index)(k) {
      BaseOfPush(items, x, index, k);
    }
    PutIs(d, Keys(items, ById), BaseOf(items, index), id, FromCheckpoint(x, index), Keys(items + [x], ById),
      BaseOf(items + [x], index));
  }

  lemma BaseOfPush(items: seq<Item>, x: Item, index: string -> int, id: string)
    ensures BaseOf(items + [x], index)(id) == if id == x.payload.clusterId then FromCheckpoint(x, index)
      else BaseOf(items, index)(id)
  {
    hide Group;
    GroupPush(items, x, ById, id);
  }

  function Get<K, V>(d: Dict<K, seq<V>>, k: K): seq<V> {
    if k in d.at then d.at[k] else []
  }

  lemma {:induction false} NoGroup<X(!new), K(!new)>(items: seq<X>, key: X -> K, k: K)
    ensures Group(items, key, k) == [] <==> k !in Keys(items, key)
    decreases |items|
  {
    if items != [] {
      NoGroup(items[..|items| - 1], key, k);
    }
  }

  lemma AddRepair(d: Dict<string, seq<Repair>>, items: seq<Item>, x: Item)
    requires Is(d, Keys(items, ById), RepairsOf(items))
    ensures Is(Put(d, ById(x), Get(d, ById(x)) + [ToRepair(x)]), Keys(items + [x], ById), RepairsOf(items + [x]))
  {
    hide Keys, Group, Mapped;
    var id := ById(x);
    KeysPush(items, x, ById);
    forall k {
      GroupPush(items, x, ById, k);
    }
    NoGroup(items, ById, id);
    MappedPush(Group(items, ById, id), x, ToRepair);
    MappedNothing(ToRepair);
    PutIs(d, Keys(items, ById), RepairsOf(items), id, Get(d, id) + [ToRepair(x)], Keys(items + [x], ById),
      RepairsOf(items + [x]));
  }

  lemma MissingPush(ids: seq<string>, id: string, from: seq<string>)
    ensures Missing(ids + [id], from) == Missing(ids, from) + if id in from then [] else [id]
  {
    assert (ids + [id])[..|ids|] == ids;
  }

  lemma MissingNone(from: seq<string>)
    ensures Missing([], from) == []
  {
  }

  lemma {:induction false} MissingExact(ids: seq<string>, from: seq<string>)
    ensures forall id :: id in Missing(ids, from) <==> id in ids && id !in from
    ensures Distinct(ids) ==> Distinct(Missing(ids, from))
    decreases |ids|
  {
    if ids != [] {
      var n := |ids| - 1;
      MissingExact(ids[..n], from);
      assert ids == ids[..n] + [ids[n]];
    }
  }

  /** After the first `j` repaired ids have been merged in. */
  function MergedValue(files: seq<File>, index: string -> int, done: seq<string>): string -> Cluster {
    id => if id in done then Describe(files, index)(id) else Base(files, index, id)
  }

  /** What the first loop holds after reading `files`. */
  ghost predicate Scanned(files: seq<File>, index: string -> int, clusters: Dict<string, Cluster>,
    repairs: Dict<string, seq<Repair>>) {
    && Is(clusters, Keys(Readable(files, CLUSTER), ById), BaseOf(Readable(files, CLUSTER), index))
    && Is(repairs, Keys(Readable(files, REPAIR), ById), RepairsOf(Readable(files, REPAIR)))
  }

  method ReadClusters(files: seq<File>, index: string -> int) returns (r: Result<seq<Cluster>, File>)
    ensures r.Err? <==> exists i :: 0 <= i < |files| && files[i].content.NoObject?
    ensures r.Ok? ==> r.value == Clusters(files, index)
  {
    hide Scanned, Put, Values, Ids, Describe;
    var clusters: Dict<string, Cluster> := Dict([], map[]);
    var repairs: Dict<string, seq<Repair>> := Dict([], map[]);
    StartsEmpty(index);
    for i := 0 to |files|
      invariant forall k :: 0 <= k < i ==> !files[k].content.NoObject?
      invariant Scanned(files[..i], index, clusters, repairs)
    {
      var f := files[i];
      ghost var clusters', repairs' := clusters, repairs;
      match f.content {
        case Unreadable =>
        case NoObject =>
          return Err(f);
        case Object(payload) =>
          if StartsWith(f.name, CLUSTER) {
            clusters := Put(clusters, payload.clusterId, FromCheckpoint(Item(f.name, payload), index));
          } else if StartsWith(f.name, REPAIR) {
            repairs := Put(repairs, payload.clusterId,
              Get(repairs, payload.clusterId) + [ToRepair(Item(f.name, payload))]);
          }
      }
      ScanStep(files, i, index, clusters', repairs', clusters, repairs);
    }
    assert files[..|files|] == files;
    clusters := MergeHistories(files, index, clusters, repairs);
    return Ok(Sort(Values(clusters, Ids(files), Describe(files, index)), IndexKey));
  }

  lemma ScanStep(files: seq<File>, i: nat, index: string -> int, clusters: Dict<string, Cluster>,
                 repairs: Dict<string, seq<Repair>>,
                 clusters': Dict<string, Cluster>, repairs': Dict<string, seq<Repair>>)
    requires i < |files| && Scanned(files[..i], index, clusters, repairs)
    requires var f := files[i];
      if !f.content.Object? || !(StartsWith(f.name, CLUSTER) || StartsWith(f.name, REPAIR)) then
        clusters' == clusters && repairs' == repairs
      else
        var x := Item(f.name, f.content.payload);
        if StartsWith(f.name, CLUSTER) then
          clusters' == Put(clusters, ById(x), FromCheckpoint(x, index)) && repairs' == repairs
        else
          clusters' == clusters && repairs' == Put(repairs, ById(x), Get(repairs, ById(x)) + [ToRepair(x)])
    ensures Scanned(files[..i + 1], index, clusters', repairs')
  {
    hide Readable, Keys, Group, Mapped, Is, Put, ItemOf;
    var f := files[i];
    ReadableStep(files, i, CLUSTER);
    ReadableStep(files, i, REPAIR);
    ItemCases(f);
    var cs, rs := Readable(files[..i], CLUSTER), Readable(files[..i], REPAIR);
    assert cs + [] == cs && rs + [] == rs;
    if f.content.Object? {
      var x := Item(f.name, f.content.payload);
      AddCheckpoint(clusters, cs, x, index);
      AddRepair(repairs, rs, x);
    }
  }

  lemma StartsEmpty(index: string -> int)
    ensures Scanned([], index, Dict([], map[]), Dict([], map[]))
  {
  }

  lemma ItemCases(f: File)
    ensures ItemOf(f, CLUSTER) ==
      if f.content.Object? && StartsWith(f.name, CLUSTER) then [Item(f.name, f.content.payload)] else []
    ensures ItemOf(f, REPAIR) ==
      if f.content.Object? && !StartsWith(f.name, CLUSTER) && StartsWith(f.name, REPAIR)
      then [Item(f.name, f.content.payload)] else []
  {
    assert CLUSTER[0] != REPAIR[0];
  }

  function Values<K(!new), V>(d: Dict<K, V>, ghost keys: seq<K>, ghost value: K -> V): (r: seq<V>)
    requires Is(d, keys, value)
    ensures r == Mapped(keys, value)
  {
    assert forall i :: 0 <= i < |keys| ==> d.keys[i] in keys;
    seq(|d.keys|, i requires 0 <= i < |d.keys| => d.at[d.keys[i]])
  }

  function MergedIds(files: seq<File>, done: seq<string>): seq<string> {
    var own := Keys(Readable(files, CLUSTER), ById);
    own + Missing(done, own)
  }

  /** What the second loop holds after merging the histories of `done`. */
  ghost predicate Merged(files: seq<File>, index: string -> int, done: seq<string>, clusters: Dict<string, Cluster>) {
    Is(clusters, MergedIds(files, done), MergedValue(files, index, done))
  }

  /** Repairs join the entry of their cluster, or a stub when there is none. */
  method MergeHistories(files: seq<File>, index: string -> int, start: Dict<string, Cluster>,
                   repairs: Dict<string, seq<Repair>>)
    returns (clusters: Dict<string, Cluster>)
    requires Scanned(files, index, start, repairs)
    ensures Is(clusters, Ids(files), Describe(files, index))
  {
    hide Readable, Keys, Group, Mapped, Merged, Sort, Put, Ids, Describe;
    clusters := start;
    ghost var ids := repairs.keys;
    MergeStart(files, index, start, repairs);
    for j := 0 to |repairs.keys|
      invariant Merged(files, index, ids[..j], clusters)
    {
      var id := repairs.keys[j];
      assert id in ids;
      MergeStep(files, index, ids, j, clusters, repairs);
      clusters := Put(clusters, id,
        (if id in clusters.at then clusters.at[id] else Stub(id)).(history := Sort(repairs.at[id], PassKey)));
    }
    assert ids[..|ids|] == ids;
    MergeEnd(files, index, ids, clusters);
  }

  lemma MergeStart(files: seq<File>, index: string -> int, start: Dict<string, Cluster>,
                   repairs: Dict<string, seq<Repair>>)
    requires Scanned(files, index, start, repairs)
    ensures Merged(files, index, repairs.keys[..0], start)
  {
    hide Readable, Keys, Group, BaseOf, Describe, Is;
    var own := Keys(Readable(files, CLUSTER), ById);
    MissingNone(own);
    assert own + [] == own;
    assert repairs.keys[..0] == [];
    forall id ensures MergedValue(files, index, [])(id) == BaseOf(Readable(files, CLUSTER), index)(id) {
      assert Base(files, index, id) == BaseOf(Readable(files, CLUSTER), index)(id);
    }
    SameIs(start, own, BaseOf(Readable(files, CLUSTER), index), MergedValue(files, index, []));
  }

  lemma SameIs<K(!new), V>(d: Dict<K, V>, keys: seq<K>, value: K -> V, value': K -> V)
    requires Is(d, keys, value) && forall k :: value'(k) == value(k)
    ensures Is(d, keys, value')
  {
  }

  lemma GetIs<K(!new), V>(d: Dict<K, V>, keys: seq<K>, value: K -> V, k: K)
    requires Is(d, keys, value)
    ensures k in d.at <==> k in keys
    ensures k in d.at ==> d.at[k] == value(k)
  {
  }

  lemma MergeStep(files: seq<File>, index: string -> int, ids: seq<string>, j: nat, clusters: Dict<string, Cluster>,
                  repairs: Dict<string, seq<Repair>>)
    requires ids == Keys(Readable(files, REPAIR), ById) && j < |ids| && ids[j] in repairs.at
    requires repairs.at[ids[j]] == Repairs(files, ids[j])
    requires Merged(files, index, ids[..j], clusters)
    ensures var id := ids[j];
      var old_ := if id in clusters.at then clusters.at[id] else Stub(id);
      Merged(files, index, ids[..j + 1], Put(clusters, id, old_.(history := Sort(repairs.at[id], PassKey))))
  {
    hide Keys, Sort, Put, Base, Repairs, MergedIds, MergedValue, Is, Describe;
    var id, done := ids[j], ids[..j];
    KeysExact(Readable(files, REPAIR), ById);
    assert ids[..j + 1] == done + [id];
    assert id !in done by {
      hide Keys, Group, Readable, Sort, Mapped, Total, Missing, Is, BaseOf, Sorted, Distinct, Describe, Base, Insert,
        Ids;
      EarlierDistinct(ids, j);
    }
    MergedIdsPush(files, done, id);
    MergedValuePush(files, index, done, id);
    GetIs(clusters, MergedIds(files, done), MergedValue(files, index, done), id);
    if id !in clusters.at {
      StubBase(files, index, id);
    }
    PutIs(clusters, MergedIds(files, done), MergedValue(files, index, done), id, Describe(files, index)(id),
          MergedIds(files, done + [id]), MergedValue(files, index, done + [id]));
  }

  lemma EarlierDistinct(ids: seq<string>, j: nat)
    requires Distinct(ids) && j < |ids|
    ensures ids[j] !in ids[..j]
  {
  }

  lemma DescribeIs(files: seq<File>, index: string -> int, id: string)
    ensures Describe(files, index)(id) == Base(files, index, id).(history := Sort(Repairs(files, id), PassKey))
  {
  }

  lemma InPush<T>(xs: seq<T>, x: T, y: T)
    ensures y in xs + [x] <==> y in xs || y == x
  {
  }

  lemma MergedValuePush(files: seq<File>, index: string -> int, done: seq<string>, id: string)
    requires id !in done
    ensures MergedValue(files, index, done)(id) == Base(files, index, id)
    ensures MergedValue(files, index, done + [id])(id) == Describe(files, index)(id)
    ensures Describe(files, index)(id) == Base(files, index, id).(history := Sort(Repairs(files, id), PassKey))
    ensures forall k :: k != id ==> MergedValue(files, index, done + [id])(k) == MergedValue(files, index, done)(k)
  {
    hide Keys, Group, Readable, Sort, Mapped, Total, Missing, Is, BaseOf, Sorted, Distinct, Describe, Base, Insert, Ids;
    DescribeIs(files, index, id);
    InPush(done, id, id);
    forall k | k != id ensures MergedValue(files, index, done + [id])(k) == MergedValue(files, index, done)(k) {
      InPush(done, id, k);
    }
  }

  lemma MergedIdsPush(files: seq<File>, done: seq<string>, id: string)
    requires id !in done
    ensures var keys := MergedIds(files, done);
      MergedIds(files, done + [id]) == if id in keys then keys else keys + [id]
    ensures id !in MergedIds(files, done) ==> id !in Keys(Readable(files, CLUSTER), ById)
  {
    hide Readable, Keys, Missing;
    var own := Keys(Readable(files, CLUSTER), ById);
    MissingPush(done, id, own);
    MissingExact(done, own);
    assert own + (Missing(done, own) + [id]) == own + Missing(done, own) + [id];
    assert Missing(done, own) + [] == Missing(done, own);
  }

  lemma StubBase(files: seq<File>, index: string -> int, id: string)
    requires id !in Keys(Readable(files, CLUSTER), ById)
    ensures Base(files, index, id) == Stub(id)
  {
    NoGroup(Readable(files, CLUSTER), ById, id);
  }

  lemma MergeEnd(files: seq<File>, index: string -> int, ids: seq<string>, clusters: Dict<string, Cluster>)
    requires ids == Keys(Readable(files, REPAIR), ById) && Merged(files, index, ids, clusters)
    ensures Is(clusters, Ids(files), Describe(files, index))
  {
    hide Readable, Keys, Describe, Base, Missing;
    forall id ensures MergedValue(files, index, ids)(id) == Describe(files, index)(id) {
      if id !in ids {
        NoRepairs(files, index, id);
      }
    }
  }

  lemma NoRepairs(files: seq<File>, index: string -> int, id: string)
    requires id !in Keys(Readable(files, REPAIR), ById)
    ensures Describe(files, index)(id) == Base(files, index, id)
  {
    hide Base;
    NoGroup(Readable(files, REPAIR), ById, id);
    BaseHasNoHistory(files, index, id);
    assert Repairs(files, id) == [];
  }

  lemma BaseHasNoHistory(files: seq<File>, index: string -> int, id: string)
    ensures Base(files, index, id).history == []
  {
  }

  function GroupsBy(items: seq<Item>): int -> seq<Item> {
    n => Group(items, ByPass, n)
  }

  /** Reads the `repair_` files, in whatever order the directory lists them. */
  method ReadPasses(files: seq<File>) returns (r: Result<seq<Pass>, File>)
    ensures r.Err? <==> exists i :: 0 <= i < |files| && files[i].content.NoObject? && StartsWith(files[i].name, REPAIR)
    ensures r.Ok? ==> r.value == Passes(files)
  {
    hide Readable, Keys, Group, Is, Put, Passes;
    var byPass: Dict<int, seq<Item>> := Dict([], map[]);
    NoPasses();
    for i := 0 to |files|
      invariant forall k :: 0 <= k < i ==> !(files[k].content.NoObject? && StartsWith(files[k].name, REPAIR))
      invariant Is(byPass, Keys(Readable(files[..i], REPAIR), ByPass), GroupsBy(Readable(files[..i], REPAIR)))
    {
      ReadableStep(files, i, REPAIR);
      ghost var rs := Readable(files[..i], REPAIR);
      assert rs + [] == rs;
      if StartsWith(files[i].name, REPAIR) {
        if files[i].content.NoObject? {
          return Err(files[i]);
        }
        if files[i].content.Object? {
          var x := Item(files[i].name, files[i].content.payload);
          AddToPass(byPass, rs, x);
          byPass := Put(byPass, ByPass(x), Get(byPass, ByPass(x)) + [x]);
        }
      }
    }
    assert files[..|files|] == files;
    var passes := Summarize(files, byPass);
    return Ok(passes);
  }

  method Summarize(ghost files: seq<File>, byPass: Dict<int, seq<Item>>) returns (passes: seq<Pass>)
    requires Is(byPass, Keys(Readable(files, REPAIR), ByPass), GroupsBy(Readable(files, REPAIR)))
    ensures passes == Passes(files)
  {
    hide Readable, Keys, Group, Sort, Mapped;
    var order := Sort(byPass.keys, NumberKey);
    SortSorts(byPass.keys, NumberKey);
    passes := [];
    MappedNothing(Summary(files));
    for j := 0 to |order|
      invariant passes == Mapped(order[..j], Summary(files))
    {
      assert order[j] in multiset(order);
      var entries := byPass.at[order[j]];
      MappedPush(order[..j], order[j], Summary(files));
      assert order[..j + 1] == order[..j] + [order[j]];
      passes := passes + [Pass(order[j], |entries|, Total(entries, FailedWeight()))];
    }
    assert order[..|order|] == order;
  }

  lemma MappedNothing<T, U>(m: T -> U)
    ensures Mapped([], m) == []
  {
  }

  lemma NoPasses()
    ensures Is(Dict([], map[]), Keys(Readable([], REPAIR), ByPass), GroupsBy(Readable([], REPAIR)))
  {
  }

  lemma AddToPass(d: Dict<int, seq<Item>>, items: seq<Item>, x: Item)
    requires Is(d, Keys(items, ByPass), GroupsBy(items))
    ensures Is(Put(d, ByPass(x), Get(d, ByPass(x)) + [x]), Keys(items + [x], ByPass), GroupsBy(items + [x]))
  {
    hide Keys, Group;
    var n := ByPass(x);
    KeysPush(items, x, ByPass);
    forall k {
      GroupPush(items, x, ByPass, k);
    }
    NoGroup(items, ByPass, n);
    PutIs(d, Keys(items, ByPass), GroupsBy(items), n, Get(d, n) + [x], Keys(items + [x], ByPass),
      GroupsBy(items + [x]));
  }

  // ----- The two summaries agree -----

  /** The total weight of a cluster's repair history. */
  function HistoryWeight(w: (string, Repair) -> nat): Cluster -> nat {
    (c: Cluster) => Total(c.history, RepairWeight(w, c.clusterId))
  }

  function RepairWeight(w: (string, Repair) -> nat, id: string): Repair -> nat {
    (r: Repair) => w(id, r)
  }

  function ItemWeight(w: (string, Repair) -> nat): Item -> nat {
    (i: Item) => w(i.payload.clusterId, ToRepair(i))
  }

  lemma {:induction false} GroupHasKey<X(!new), K(!new)>(items: seq<X>, key: X -> K, k: K)
    ensures forall i :: 0 <= i < |Group(items, key, k)| ==> key(Group(items, key, k)[i]) == k
    decreases |items|
  {
    if items != [] {
      GroupHasKey(items[..|items| - 1], key, k);
    }
  }

  lemma BaseId(files: seq<File>, index: string -> int, id: string)
    ensures Base(files, index, id).clusterId == id
  {
    GroupHasKey(Readable(files, CLUSTER), ById, id);
  }

  /** A described cluster carries the repairs of its id, whatever they are weighed by. */
  lemma DescribedWeight(files: seq<File>, index: string -> int, w: (string, Repair) -> nat, id: string)
    ensures HistoryWeight(w)(Describe(files, index)(id)) == GroupTotal(Readable(files, REPAIR), ById, ItemWeight(w))(id)
  {
    hide Keys, Group, Readable, Sort, Mapped, Total, Missing, Is, BaseOf, Sorted, Distinct, Describe, Base, Insert, Ids;
    var items := Group(Readable(files, REPAIR), ById, id);
    var rs := Repairs(files, id);
    var f := RepairWeight(w, id);
    BaseId(files, index, id);
    DescribeIs(files, index, id);
    SortSorts(rs, PassKey);
    TotalPermutes(Sort(rs, PassKey), rs, f);
    TotalOfMapped(items, ToRepair, f);
    GroupHasKey(Readable(files, REPAIR), ById, id);
    forall i | 0 <= i < |items| ensures Composed(ToRepair, f)(items[i]) == ItemWeight(w)(items[i]) {
    }
    TotalExact(items, Composed(ToRepair, f), ItemWeight(w));
  }

  lemma IdsExact(files: seq<File>)
    ensures Distinct(Ids(files))
    ensures forall i :: 0 <= i < |Readable(files, REPAIR)| ==> ById(Readable(files, REPAIR)[i]) in Ids(files)
  {
    hide Readable;
    var cs, rs := Readable(files, CLUSTER), Readable(files, REPAIR);
    KeysExact(cs, ById);
    KeysExact(rs, ById);
    MissingExact(Keys(rs, ById), Keys(cs, ById));
    DistinctAppend(Keys(cs, ById), Missing(Keys(rs, ById), Keys(cs, ById)));
  }

  lemma DistinctAppend<T>(a: seq<T>, b: seq<T>)
    requires Distinct(a) && Distinct(b) && forall x :: x in a ==> x !in b
    ensures Distinct(a + b)
  {
    forall i, j | 0 <= i < j < |a + b| ensures (a + b)[i] != (a + b)[j] {
      if i < |a| <= j {
        assert a[i] in a && b[j - |a|] in b;
      }
    }
  }

  /** No readable repair is lost or counted twice: however repairs are weighed, the histories of
      all clusters together weigh what the files do. */
  lemma ClustersAccountForRepairs(files: seq<File>, index: string -> int, w: (string, Repair) -> nat)
    ensures Total(Clusters(files, index), HistoryWeight(w)) == Total(Readable(files, REPAIR), ItemWeight(w))
  {
    hide Keys, Group, Readable, Sort, Mapped, Total, Missing, Is, BaseOf, Sorted, Distinct, Describe, Base, Insert, Ids;
    var ids := Ids(files);
    var all := Mapped(ids, Describe(files, index));
    SortSorts(all, IndexKey);
    TotalPermutes(Clusters(files, index), all, HistoryWeight(w));
    TotalOfMapped(ids, Describe(files, index), HistoryWeight(w));
    forall i | 0 <= i < |ids|
      ensures Composed(Describe(files, index), HistoryWeight(w))(ids[i])
        == GroupTotal(Readable(files, REPAIR), ById, ItemWeight(w))(ids[i])
    {
      DescribedWeight(files, index, w, ids[i]);
    }
    TotalExact(ids, Composed(Describe(files, index), HistoryWeight(w)),
      GroupTotal(Readable(files, REPAIR), ById, ItemWeight(w)));
    IdsExact(files);
    GroupsPartition(Readable(files, REPAIR), ById, ids, ItemWeight(w));
  }

  /** The weight of a file: that of its repair, if it is a readable one. */
  function FileWeight(f: Item -> nat): File -> nat {
    (x: File) => Total(ItemOf(x, REPAIR), f)
  }

  lemma {:induction false} TotalOfReadable(files: seq<File>, f: Item -> nat)
    ensures Total(Readable(files, REPAIR), f) == Total(files, FileWeight(f))
    decreases |files|
  {
    hide ItemOf;
    if files != [] {
      TotalOfReadable(files[..|files| - 1], f);
      TotalAppend(Readable(files[..|files| - 1], REPAIR), ItemOf(files[|files| - 1], REPAIR), f);
    }
  }

  lemma ReadableOrder(a: seq<File>, b: seq<File>, f: Item -> nat)
    requires multiset(a) == multiset(b)
    ensures Total(Readable(a, REPAIR), f) == Total(Readable(b, REPAIR), f)
  {
    TotalOfReadable(a, f);
    TotalOfReadable(b, f);
    TotalPermutes(a, b, FileWeight(f));
  }

  lemma {:induction false} TotalOfOnes<T(!new)>(xs: seq<T>)
    ensures Total(xs, One()) == |xs|
    decreases |xs|
  {
    if xs != [] {
      TotalOfOnes(xs[..|xs| - 1]);
    }
  }

  function OfPass(n: int): (string, Repair) -> nat {
    (_, r: Repair) => if r.pass == n then 1 else 0
  }

  function FailedInPass(n: int): (string, Repair) -> nat {
    (_, r: Repair) => if r.pass == n && r.failed then 1 else 0
  }

  /** The summary of a pass, of the files in any order, counts the history entries of that
      pass, and the failed ones among them. */
  lemma SummaryCounts(a: seq<File>, b: seq<File>, index: string -> int, n: int)
    requires multiset(a) == multiset(b)
    ensures Summary(b)(n).clusterCount == Total(Clusters(a, index), HistoryWeight(OfPass(n)))
    ensures Summary(b)(n).failedCount == Total(Clusters(a, index), HistoryWeight(FailedInPass(n)))
  {
    hide Total, Group, Readable, Clusters;
    var items := Readable(b, REPAIR);
    ClustersAccountForRepairs(a, index, OfPass(n));
    ClustersAccountForRepairs(a, index, FailedInPass(n));
    ReadableOrder(a, b, ItemWeight(OfPass(n)));
    ReadableOrder(a, b, ItemWeight(FailedInPass(n)));
    TotalOfOnes(Group(items, ByPass, n));
    TotalOfGroup(items, ByPass, n, One());
    TotalOfGroup(items, ByPass, n, FailedWeight());
    TotalExact(items, Filtered(ByPass, n, One()), ItemWeight(OfPass(n)));
    TotalExact(items, Filtered(ByPass, n, FailedWeight()), ItemWeight(FailedInPass(n)));
  }

  predicate Increasing(ps: seq<Pass>) {
    forall i, j :: 0 <= i < j < |ps| ==> ps[i].pass < ps[j].pass
  }

  lemma SortedKeys(ks: seq<int>)
    requires Distinct(ks)
    ensures var s := Sort(ks, NumberKey);
      && (forall i, j :: 0 <= i < j < |s| ==> s[i] < s[j])
      && (forall k :: k in s <==> k in ks)
  {
    SortSorts(ks, NumberKey);
    var s := Sort(ks, NumberKey);
    forall k ensures k in s <==> k in ks {
      assert k in s <==> k in multiset(s);
      assert k in ks <==> k in multiset(ks);
    }
    forall i, j | 0 <= i < j < |s| ensures s[i] < s[j] {
      OnceIn(ks, s[i]);
      if s[i] == s[j] {
        TwiceIn(s, i, j);
      }
    }
  }

  lemma {:induction false} OnceIn<T>(xs: seq<T>, x: T)
    requires Distinct(xs)
    ensures multiset(xs)[x] <= 1
    decreases |xs|
  {
    if xs != [] {
      var init := xs[..|xs| - 1];
      OnceIn(init, x);
      assert xs == init + [xs[|xs| - 1]];
      assert x in multiset(init) <==> x in init;
    }
  }

  lemma TwiceIn<T>(xs: seq<T>, i: nat, j: nat)
    requires i < j < |xs| && xs[i] == xs[j]
    ensures multiset(xs)[xs[i]] >= 2
  {
    assert xs == xs[..j] + [xs[j]] + xs[j + 1..];
    assert xs[i] in xs[..j];
    assert xs[i] in multiset(xs[..j]);
  }

  /** The two summaries, each of the same files in its own order, agree: passes come in order;
      each counts the history entries, and failed entries, of its number over all clusters; a
      pass is listed exactly when some history has an entry of it; and the history lengths add
      up to the counts. */
  lemma SummariesAgree(a: seq<File>, b: seq<File>, index: string -> int)
    requires multiset(a) == multiset(b)
    ensures Increasing(Passes(b))
    ensures forall i :: 0 <= i < |Passes(b)| ==> Counts(Passes(b)[i], Clusters(a, index))
    ensures forall n :: Lists(Passes(b), n) <==> Total(Clusters(a, index), HistoryWeight(OfPass(n))) > 0
    ensures Total(Clusters(a, index), LengthWeight()) == Total(Passes(b), CountWeight())
  {
    hide Keys, Group, Readable, Sort, Mapped, Total, Missing, Is, BaseOf, Sorted, Distinct, Describe, Base, Insert, Ids;
    PassesShape(b);
    LengthsAddUp(a, b, index);
    forall i | 0 <= i < |Passes(b)| ensures Counts(Passes(b)[i], Clusters(a, index)) {
      SummaryCounts(a, b, index, Passes(b)[i].pass);
    }
    forall n ensures Lists(Passes(b), n) <==> Total(Clusters(a, index), HistoryWeight(OfPass(n))) > 0 {
      SummaryCounts(a, b, index, n);
    }
  }

  /** The pass counts its entries, and the failed ones, in the histories of all clusters. */
  predicate Counts(p: Pass, cs: seq<Cluster>) {
    && p.clusterCount == Total(cs, HistoryWeight(OfPass(p.pass)))
    && p.failedCount == Total(cs, HistoryWeight(FailedInPass(p.pass)))
  }

  predicate Lists(ps: seq<Pass>, n: int) {
    exists i :: 0 <= i < |ps| && ps[i].pass == n
  }

  /** Passes come in order, each is the summary of its number, and those listed are those
      with at least one readable file. */
  lemma PassesShape(files: seq<File>)
    ensures Increasing(Passes(files))
    ensures forall i :: 0 <= i < |Passes(files)| ==> Passes(files)[i] == Summary(files)(Passes(files)[i].pass)
    ensures forall n :: Lists(Passes(files), n) <==> Summary(files)(n).clusterCount > 0
  {
    hide Group, Readable, Sort, Keys, Total;
    var items := Readable(files, REPAIR);
    var ks := Keys(items, ByPass);
    var order := Sort(ks, NumberKey);
    KeysExact(items, ByPass);
    SortedKeys(ks);
    var ps := Passes(files);
    forall i | 0 <= i < |ps| ensures ps[i] == Summary(files)(order[i]) && ps[i].pass == order[i] {
    }
    forall n ensures Lists(ps, n) <==> Summary(files)(n).clusterCount > 0 {
      NoGroup(items, ByPass, n);
      if n in order {
        var i :| 0 <= i < |order| && order[i] == n;
        assert ps[i].pass == n;
      }
    }
  }

  function LengthWeight(): Cluster -> nat {
    (c: Cluster) => |c.history|
  }

  function CountWeight(): Pass -> nat {
    (p: Pass) => p.clusterCount
  }

  function Every(): (string, Repair) -> nat {
    (_, _) => 1
  }

  lemma HistoryLengths(cs: seq<Cluster>)
    ensures Total(cs, LengthWeight()) == Total(cs, HistoryWeight(Every()))
  {
    hide Total;
    forall i | 0 <= i < |cs| ensures LengthWeight()(cs[i]) == HistoryWeight(Every())(cs[i]) {
      TotalOfOnes(cs[i].history);
      TotalExact(cs[i].history, One(), RepairWeight(Every(), cs[i].clusterId));
    }
    TotalExact(cs, LengthWeight(), HistoryWeight(Every()));
  }

  lemma SummaryTotal(files: seq<File>, n: int)
    ensures Composed(Summary(files), CountWeight())(n) == GroupTotal(Readable(files, REPAIR), ByPass, One())(n)
  {
    hide Total, Group, Readable;
    TotalOfOnes(Group(Readable(files, REPAIR), ByPass, n));
  }

  lemma LengthsAddUp(a: seq<File>, b: seq<File>, index: string -> int)
    requires multiset(a) == multiset(b)
    ensures Total(Clusters(a, index), LengthWeight()) == Total(Passes(b), CountWeight())
  {
    hide Keys, Group, Readable, Sort, Mapped, Total, Missing, Is, BaseOf, Sorted, Distinct, Describe, Base, Insert, Ids;
    var items := Readable(b, REPAIR);
    var ks := Keys(items, ByPass);
    var order := Sort(ks, NumberKey);
    HistoryLengths(Clusters(a, index));
    ClustersAccountForRepairs(a, index, Every());
    ReadableOrder(a, b, ItemWeight(Every()));
    AllWeighOne(items);
    KeysExact(items, ByPass);
    GroupsPartition(items, ByPass, ks, One());
    SortSorts(ks, NumberKey);
    TotalPermutes(order, ks, GroupTotal(items, ByPass, One()));
    TotalOfMapped(order, Summary(b), CountWeight());
    forall i | 0 <= i < |order|
      ensures Composed(Summary(b), CountWeight())(order[i]) == GroupTotal(items, ByPass, One())(order[i]) {
      SummaryTotal(b, order[i]);
    }
    TotalExact(order, Composed(Summary(b), CountWeight()), GroupTotal(items, ByPass, One()));
  }

  lemma AllWeighOne(items: seq<Item>)
    ensures Total(items, ItemWeight(Every())) == Total(items, One())
  {
    TotalExact(items, ItemWeight(Every()), One());
  }

  /** Clusters come sorted by index and histories by pass, and every cluster id occurs once. */
  lemma ClustersShape(files: seq<File>, index: string -> int)
    ensures Sorted(Clusters(files, index), IndexKey)
    ensures forall i :: 0 <= i < |Clusters(files, index)| ==> Sorted(Clusters(files, index)[i].history, PassKey)
    ensures DistinctClusters(Clusters(files, index))
  {
    hide Keys, Group, Readable, Sort, Mapped, Total, Missing, Is, BaseOf, Sorted, Distinct, Describe, Base, Insert, Ids;
    var all := Mapped(Ids(files), Describe(files, index));
    SortSorts(all, IndexKey);
    DescribedShape(files, index);
    OnceEach(all, Clusters(files, index));
    forall i | 0 <= i < |Clusters(files, index)| ensures Sorted(Clusters(files, index)[i].history, PassKey) {
      var k := KeptElement(all, Clusters(files, index), i);
    }
  }

  predicate DistinctClusters(cs: seq<Cluster>) {
    forall i, j :: 0 <= i < j < |cs| ==> cs[i].clusterId != cs[j].clusterId
  }

  lemma DescribedShape(files: seq<File>, index: string -> int)
    ensures forall i :: 0 <= i < |Mapped(Ids(files), Describe(files, index))| ==>
      Sorted(Mapped(Ids(files), Describe(files, index))[i].history, PassKey)
    ensures DistinctClusters(Mapped(Ids(files), Describe(files, index)))
  {
    hide Keys, Group, Readable, Sort, Mapped, Total, Missing, Is, BaseOf, Sorted, Distinct, Describe, Base, Insert, Ids;
    var ids := Ids(files);
    var all := Mapped(ids, Describe(files, index));
    IdsExact(files);
    MappedAt(ids, Describe(files, index));
    forall i | 0 <= i < |all| ensures all[i].clusterId == ids[i] && Sorted(all[i].history, PassKey) {
      DescribeIs(files, index, ids[i]);
      BaseId(files, index, ids[i]);
      SortSorts(Repairs(files, ids[i]), PassKey);
    }
    DistinctFromIds(all, ids);
  }

  lemma DistinctFromIds(cs: seq<Cluster>, ids: seq<string>)
    requires |cs| == |ids| && Distinct(ids) && forall i :: 0 <= i < |cs| ==> cs[i].clusterId == ids[i]
    ensures DistinctClusters(cs)
  {
  }

  lemma MappedAt<T, U>(xs: seq<T>, m: T -> U)
    ensures |Mapped(xs, m)| == |xs| && forall i :: 0 <= i < |xs| ==> Mapped(xs, m)[i] == m(xs[i])
  {
  }

  lemma KeptElement(all: seq<Cluster>, cs: seq<Cluster>, i: nat) returns (k: nat)
    requires multiset(all) == multiset(cs) && i < |cs|
    ensures k < |all| && all[k] == cs[i]
  {
    assert cs[i] in multiset(cs);
    assert cs[i] in all;
    k :| 0 <= k < |all| && all[k] == cs[i];
  }

  /** A rearrangement of clusters with different ids keeps the ids different. */
  lemma OnceEach(all: seq<Cluster>, cs: seq<Cluster>)
    requires multiset(all) == multiset(cs) && DistinctClusters(all)
    ensures DistinctClusters(cs)
  {
    assert Distinct(all);
    forall i, j | 0 <= i < j < |cs| ensures cs[i].clusterId != cs[j].clusterId {
      OnceIn(all, cs[i]);
      if cs[i] == cs[j] {
        TwiceIn(cs, i, j);
      } else {
        var p := KeptElement(all, cs, i);
        var q := KeptElement(all, cs, j);
        assert p < q || q < p;
      }
    }
  }

  predicate HasEntry(cs: seq<Cluster>, id: string) {
    exists i :: 0 <= i < |cs| && cs[i].clusterId == id
  }

  /** Some readable file with the prefix names the cluster. */
  predicate Mentions(files: seq<File>, prefix: string, id: string) {
    exists i :: 0 <= i < |Readable(files, prefix)| && ById(Readable(files, prefix)[i]) == id
  }

  /** Exactly the ids that readable checkpoints or repairs mention have an entry. */
  lemma EntriesExact(files: seq<File>, index: string -> int, id: string)
    ensures HasEntry(Clusters(files, index), id) <==> Mentions(files, CLUSTER, id) || Mentions(files, REPAIR, id)
  {
    hide Sort, Readable, Describe, Keys, Missing, Mapped;
    var ids, all := Ids(files), Mapped(Ids(files), Describe(files, index));
    var cs := Clusters(files, index);
    SortSorts(all, IndexKey);
    MappedAt(ids, Describe(files, index));
    forall i | 0 <= i < |all| ensures all[i].clusterId == ids[i] {
      hide Base;
      DescribeIs(files, index, ids[i]);
      BaseId(files, index, ids[i]);
    }
    IdsAre(files, id);
    if id in ids {
      var i :| 0 <= i < |ids| && ids[i] == id;
      var k := KeptElement(cs, all, i);
    }
    if HasEntry(cs, id) {
      var i :| 0 <= i < |cs| && cs[i].clusterId == id;
      var k := KeptElement(all, cs, i);
      assert ids[k] == id;
    }
  }

  lemma IdsAre(files: seq<File>, id: string)
    ensures id in Ids(files) <==> Mentions(files, CLUSTER, id) || Mentions(files, REPAIR, id)
  {
    hide Readable, Keys, Missing;
    var own, repaired := Keys(Readable(files, CLUSTER), ById), Keys(Readable(files, REPAIR), ById);
    KeysExact(Readable(files, CLUSTER), ById);
    KeysExact(Readable(files, REPAIR), ById);
    MissingExact(repaired, own);
    assert id in own + Missing(repaired, own) <==> id in own || id in Missing(repaired, own);
  }

  /** An entry is a stub exactly when no readable checkpoint names its cluster. */
  lemma StubsExact(files: seq<File>, index: string -> int, i: nat)
    requires i < |Clusters(files, index)|
    ensures var c := Clusters(files, index)[i];
      c.failed.None? <==> !Mentions(files, CLUSTER, c.clusterId)
  {
    hide Sort, Readable, Keys, Mapped, Describe, Ids;
    var ids, all := Ids(files), Mapped(Ids(files), Describe(files, index));
    SortSorts(all, IndexKey);
    MappedAt(ids, Describe(files, index));
    var k := KeptElement(all, Clusters(files, index), i);
    var id := ids[k];
    DescribeIs(files, index, id);
    BaseId(files, index, id);
    KeysExact(Readable(files, CLUSTER), ById);
    NoGroup(Readable(files, CLUSTER), ById, id);
  }
}
