/** What the cluster summary holds, read off the checkpoint files alone. */
module RepairLaws {
  import opened Wrappers
  import opened TextLines
  import opened StableSort
  import opened Totals
  import opened RepairGroups

  /** A readable file whose name has the prefix, for the cluster. */
  predicate Names(f: File, prefix: string, id: string) {
    f.content.Object? && prefix <= f.name && f.content.payload.clusterId == id
  }

  /** The repairs that the readable repair files of a cluster record, in the order of the files. */
  function RepairsIn(files: seq<File>, id: string): seq<Repair>
    decreases |files|
  {
    if files == [] then [] else RepairsIn(files[..|files| - 1], id) + RepairIn(files[|files| - 1], id)
  }

  function RepairIn(f: File, id: string): seq<Repair> {
    if Names(f, "repair_", id) then
      [Repair(f.content.payload.pass, f.content.payload.failed, f.content.payload.fileCount)]
    else []
  }

  lemma GroupStep(files: seq<File>, prefix: string, id: string)
    requires files != []
    ensures var n := |files| - 1;
      Group(Readable(files, prefix), ById, id) == Group(Readable(files[..n], prefix), ById, id)
        + if Names(files[n], prefix, id) then [Item(files[n].name, files[n].content.payload)] else []
  {
    hide Group, Names;
    var n := |files| - 1;
    var items, group := Readable(files[..n], prefix), Group(Readable(files[..n], prefix), ById, id);
    var f := files[n];
    NamesIs(f, prefix, id);
    if ItemOf(f, prefix) == [] {
      assert items + [] == items && group + [] == group;
    } else {
      GroupPush(items, Item(f.name, f.content.payload), ById, id);
      assert group + [] == group;
    }
  }

  lemma NamesIs(f: File, prefix: string, id: string)
    ensures Names(f, prefix, id) <==> ItemOf(f, prefix) != [] && f.content.payload.clusterId == id
  {
  }

  lemma {:induction false} RepairsAreIn(files: seq<File>, id: string)
    ensures Repairs(files, id) == RepairsIn(files, id)
    decreases |files|
  {
    hide Group, Readable, Mapped, Names;
    if files == [] {
      NothingGrouped(id);
      MappedNothing(ToRepair);
    } else {
      var n := |files| - 1;
      RepairsAreIn(files[..n], id);
      GroupStep(files, REPAIR, id);
      var group := Group(Readable(files[..n], REPAIR), ById, id);
      if Names(files[n], REPAIR, id) {
        NamesIs(files[n], REPAIR, id);
        MappedPush(group, Item(files[n].name, files[n].content.payload), ToRepair);
      } else {
        assert group + [] == group;
      }
    }
  }

  lemma NothingGrouped(id: string)
    ensures Group(Readable([], REPAIR), ById, id) == [] && Group(Readable([], CLUSTER), ById, id) == []
  {
  }

  /** File `k` is the last readable one with the prefix that names the cluster. */
  predicate LastToName(files: seq<File>, prefix: string, id: string, k: nat)
    requires k < |files|
  {
    Names(files[k], prefix, id) && forall j :: k < j < |files| ==> !Names(files[j], prefix, id)
  }

  predicate NoneToName(files: seq<File>, prefix: string, id: string) {
    forall j :: 0 <= j < |files| ==> !Names(files[j], prefix, id)
  }

  lemma {:induction false} LastOfGroup(files: seq<File>, id: string, k: nat)
    requires k < |files| && LastToName(files, CLUSTER, id, k)
    ensures var group := Group(Readable(files, CLUSTER), ById, id);
      group != [] && group[|group| - 1] == Item(files[k].name, files[k].content.payload)
    decreases |files|
  {
    hide Group, Readable, Names;
    var n := |files| - 1;
    NamesIs(files[n], CLUSTER, id);
    GroupStep(files, CLUSTER, id);
    if k < n {
      LastOfGroup(files[..n], id, k);
      var group := Group(Readable(files[..n], CLUSTER), ById, id);
      assert group + [] == group;
    }
  }

  lemma {:induction false} NoneNames(files: seq<File>, id: string)
    requires NoneToName(files, CLUSTER, id)
    ensures Group(Readable(files, CLUSTER), ById, id) == []
    decreases |files|
  {
    hide Group, Readable, Names;
    if files == [] {
      NothingGrouped(id);
    } else {
      NoneNames(files[..|files| - 1], id);
      GroupStep(files, CLUSTER, id);
    }
  }

  lemma EntryOf(files: seq<File>, index: string -> int, c: Cluster)
    requires c in Clusters(files, index)
    ensures c == Base(files, index, c.clusterId).(history := Sort(Repairs(files, c.clusterId), PassKey))
  {
    hide Sort, Readable, Keys, Mapped, Describe, Ids, Base;
    var ids, all := Ids(files), Mapped(Ids(files), Describe(files, index));
    SortSorts(all, IndexKey);
    MappedAt(ids, Describe(files, index));
    var i :| 0 <= i < |Clusters(files, index)| && Clusters(files, index)[i] == c;
    var k := KeptElement(all, Clusters(files, index), i);
    DescribeIs(files, index, ids[k]);
    BaseId(files, index, ids[k]);
  }

  /** The entry as the checkpoint has it, but for the history. */
  predicate HasFieldsOf(c: Cluster, f: File, index: string -> int) {
    f.content.Object? &&
    var p := f.content.payload;
    c == Cluster(index(f.name), p.clusterId, p.title, p.leafIds, Some(p.failed), p.fileCount, c.history)
  }

  predicate OrderedByPass(history: seq<Repair>) {
    forall a, b :: 0 <= a < b < |history| ==> history[a].pass <= history[b].pass
  }

  /** What an entry holds. Its history is that of the readable repair files of its id, sorted by pass;
      the rest is the last readable checkpoint of its id, or empty when there is none. */
  predicate IsEntry(c: Cluster, files: seq<File>, index: string -> int) {
    && c.history == Sort(RepairsIn(files, c.clusterId), PassKey) && OrderedByPass(c.history)
    && (NoneToName(files, "cluster_", c.clusterId) ==> c == Cluster(-1, c.clusterId, "", [], None, 0, c.history))
    && forall k :: 0 <= k < |files| && LastToName(files, "cluster_", c.clusterId, k) ==>
         HasFieldsOf(c, files[k], index)
  }

  lemma EntryFields(files: seq<File>, index: string -> int, c: Cluster)
    requires c in Clusters(files, index)
    ensures IsEntry(c, files, index)
  {
    hide Sort, Readable, Group, Clusters, Names, Repairs;
    EntryOf(files, index, c);
    RepairsAreIn(files, c.clusterId);
    SortSorts(RepairsIn(files, c.clusterId), PassKey);
    if NoneToName(files, "cluster_", c.clusterId) {
      NoneNames(files, c.clusterId);
    }
    forall k | 0 <= k < |files| && LastToName(files, "cluster_", c.clusterId, k)
      ensures HasFieldsOf(c, files[k], index)
    {
      LastOfGroup(files, c.clusterId, k);
      NamesIs(files[k], CLUSTER, c.clusterId);
    }
  }

  predicate OrderedByIndex(cs: seq<Cluster>) {
    forall i, j :: 0 <= i < j < |cs| ==> cs[i].index <= cs[j].index && cs[i].clusterId != cs[j].clusterId
  }

  lemma ClustersInOrder(files: seq<File>, index: string -> int)
    ensures OrderedByIndex(Clusters(files, index))
  {
    hide Clusters;
    ClustersShape(files, index);
  }

  // ----- Sums over the files -----

  /** What a file adds: the weight of the repair it records, if it is a readable repair file. */
  function RecordedWeight(w: (string, Repair) -> nat): File -> nat {
    (f: File) => WeightIn(w, f)
  }

  function WeightIn(w: (string, Repair) -> nat, f: File): nat {
    if f.content.Object? && "repair_" <= f.name then
      var p := f.content.payload;
      w(p.clusterId, Repair(p.pass, p.failed, p.fileCount))
    else 0
  }

  /** However repairs are weighed, the histories of all entries weigh what the files do, one by one. */
  lemma HistoriesWeighFiles(files: seq<File>, index: string -> int, w: (string, Repair) -> nat)
    ensures Total(Clusters(files, index), HistoryWeight(w)) == Total(files, RecordedWeight(w))
  {
    hide Clusters, Total, Readable;
    ClustersAccountForRepairs(files, index, w);
    TotalOfReadable(files, ItemWeight(w));
    forall i | 0 <= i < |files|
      ensures FileWeight(ItemWeight(w))(files[i]) == RecordedWeight(w)(files[i])
    {
      WeightOfItem(files[i], w);
    }
    TotalExact(files, FileWeight(ItemWeight(w)), RecordedWeight(w));
  }

  lemma WeightOfItem(f: File, w: (string, Repair) -> nat)
    ensures FileWeight(ItemWeight(w))(f) == RecordedWeight(w)(f)
  {
    if ItemOf(f, REPAIR) != [] {
      TotalPush([], Item(f.name, f.content.payload), ItemWeight(w));
      assert [] + [Item(f.name, f.content.payload)] == ItemOf(f, REPAIR);
    }
  }

  /** A listed pass counts the readable repair files of its number, and the failed ones among them. */
  lemma PassCounts(files: seq<File>, i: nat, p: Pass)
    requires i < |Passes(files)| && p == Passes(files)[i]
    ensures p.clusterCount == Total(files, RecordedWeight((_, r: Repair) => if r.pass == p.pass then 1 else 0))
    ensures p.failedCount ==
      Total(files, RecordedWeight((_, r: Repair) => if r.pass == p.pass && r.failed then 1 else 0))
  {
    hide Clusters, Total, Passes, HistoryWeight;
    var index: string -> int := _ => 0;
    var all, failed: (string, Repair) -> nat :=
      (_, r: Repair) => if r.pass == p.pass then 1 else 0,
      (_, r: Repair) => if r.pass == p.pass && r.failed then 1 else 0;
    SummariesAgree(files, files, index);
    HistoriesWeighFiles(files, index, OfPass(p.pass));
    HistoriesWeighFiles(files, index, FailedInPass(p.pass));
    TotalExact(files, RecordedWeight(OfPass(p.pass)), RecordedWeight(all));
    TotalExact(files, RecordedWeight(FailedInPass(p.pass)), RecordedWeight(failed));
  }

  /** An id has an entry if and only if a readable checkpoint or repair file names it. */
  lemma EntryIff(files: seq<File>, index: string -> int, id: string)
    ensures HasEntry(Clusters(files, index), id)
      <==> exists i :: 0 <= i < |files| && (Names(files[i], "cluster_", id) || Names(files[i], "repair_", id))
  {
    hide Clusters, Names, Readable;
    EntriesExact(files, index, id);
    MentionedIff(files, CLUSTER, id);
    MentionedIff(files, REPAIR, id);
  }

  lemma {:induction false} MentionedIff(files: seq<File>, prefix: string, id: string)
    ensures Mentions(files, prefix, id) <==> exists i :: 0 <= i < |files| && Names(files[i], prefix, id)
    decreases |files|
  {
    hide Names, Readable;
    if files == [] {
      NothingReadable(prefix);
    } else {
      var n := |files| - 1;
      var init, f := files[..n], files[n];
      MentionedIff(init, prefix, id);
      NamesIs(f, prefix, id);
      MentionsStep(files, prefix, id);
      assert forall i :: 0 <= i < n ==> files[i] == init[i];
    }
  }

  lemma NothingReadable(prefix: string)
    ensures Readable([], prefix) == []
  {
  }

  lemma MentionsStep(files: seq<File>, prefix: string, id: string)
    requires files != []
    ensures var n := |files| - 1;
      Mentions(files, prefix, id) <==> Mentions(files[..n], prefix, id) || Names(files[n], prefix, id)
  {
    var n := |files| - 1;
    var before, now := Readable(files[..n], prefix), Readable(files, prefix);
    assert now == before + ItemOf(files[n], prefix);
    if i :| 0 <= i < |before| && ById(before[i]) == id {
      assert ById(now[i]) == id;
    }
    if Names(files[n], prefix, id) {
      assert ById(now[|before|]) == id;
    }
  }
}
