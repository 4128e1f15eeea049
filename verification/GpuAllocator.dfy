/** `LocalGpuAllocator`: a table of GPU leases in one file that several processes share.
    Every call runs under an exclusive file lock, so each is one atomic change. */
module GpuAllocator {
  import opened Wrappers

  type Pid = int
  type Card = string
  type LeaseId = string

  datatype Lease = Lease(pid: Pid, cards: seq<Card>)

  type Table = map<LeaseId, Lease>

  /** Drop the leases whose holder is dead. */
  function Reap(t: Table, alive: set<Pid>): Table {
    map id | id in t && t[id].pid in alive :: t[id]
  }

  predicate IsLeased(t: Table, c: Card) {
    exists id | id in t :: c in t[id].cards
  }

  /** The free cards that no lease names, in their order. */
  function Unleased(t: Table, free: seq<Card>): (r: seq<Card>)
    ensures forall c :: c in r <==> c in free && !IsLeased(t, c)
  {
    if free == [] then []
    else (if IsLeased(t, free[0]) then [] else [free[0]]) + Unleased(t, free[1..])
  }

  /** What `acquire` returns, and the table it leaves on disk: the reaped table is written
      only together with a new lease. */
  function Acquired(t: Table, id: LeaseId, pid: Pid, count: nat, free: seq<Card>, alive: set<Pid>)
    : (Option<Lease>, Table)
  {
    var reaped := Reap(t, alive);
    if id in reaped then (Some(reaped[id]), t)
    else
      var candidates := Unleased(reaped, free);
      if |candidates| < count then (None, t)
      else
        var lease := Lease(pid, candidates[..count]);
        (Some(lease), reaped[id := lease])
  }

  function Released(t: Table, id: LeaseId): Table {
    t - {id}
  }

  ghost predicate SameCard(a: Lease, b: Lease) {
    exists c :: c in a.cards && c in b.cards
  }

  /** No card is leased twice. */
  ghost predicate Exclusive(t: Table) {
    forall i, j :: i in t && j in t && i != j ==> !SameCard(t[i], t[j])
  }

  lemma AcquireKeepsExclusive(t: Table, id: LeaseId, pid: Pid, count: nat, free: seq<Card>, alive: set<Pid>)
    requires Exclusive(t)
    ensures Exclusive(Acquired(t, id, pid, count, free, alive).1)
  {
    var reaped := Reap(t, alive);
    var candidates := Unleased(reaped, free);
    if id !in reaped && |candidates| >= count {
      var lease := Lease(pid, candidates[..count]);
      forall i | i in reaped
        ensures !SameCard(reaped[i], lease) && !SameCard(lease, reaped[i])
      {
        forall c | c in lease.cards
          ensures c !in reaped[i].cards
        {
          assert c in candidates;
        }
      }
    }
  }

  // ----- What an acquire grants -----

  /** The positions in the free list of cards that no lease of a live process names. */
  function Available(t: Table, free: seq<Card>, alive: set<Pid>): set<nat> {
    set i | 0 <= i < |free| && forall j :: j in t && t[j].pid in alive ==> free[i] !in t[j].cards
  }

  ghost predicate Increasing(at: seq<nat>) {
    forall i, j :: 0 <= i < j < |at| ==> at[i] < at[j]
  }

  ghost function Elements(at: seq<nat>): set<nat> {
    set x | x in at
  }

  lemma ElementsSnoc(at: seq<nat>, last: nat)
    ensures Elements(at + [last]) == Elements(at) + {last}
  {
  }

  lemma IncreasingSnoc(at: seq<nat>, last: nat)
    requires Increasing(at + [last])
    ensures Increasing(at) && last !in at
  {
    var all := at + [last];
    forall i | 0 <= i < |at|
      ensures at[i] < last && forall j :: i < j < |at| ==> at[i] < at[j]
    {
      assert all[i] == at[i] && all[|at|] == last;
      assert forall j :: i < j < |at| ==> all[j] == at[j];
    }
  }

  lemma {:induction false} IncreasingSize(at: seq<nat>)
    requires Increasing(at)
    ensures |Elements(at)| == |at|
  {
    hide Increasing;
    if at != [] {
      var init, last := at[..|at| - 1], at[|at| - 1];
      assert at == init + [last];
      IncreasingSnoc(init, last);
      ElementsSnoc(init, last);
      IncreasingSize(init);
    }
  }

  lemma {:induction false} UnleasedSnoc(t: Table, free: seq<Card>, c: Card)
    ensures Unleased(t, free + [c]) == Unleased(t, free) + (if IsLeased(t, c) then [] else [c])
  {
    hide IsLeased;
    if free == [] {
      assert free + [c] == [c] && [c][1..] == [];
    } else {
      assert (free + [c])[1..] == free[1..] + [c];
      UnleasedSnoc(t, free[1..], c);
    }
  }

  ghost predicate PositionsOf(t: Table, free: seq<Card>, at: seq<nat>, cards: seq<Card>) {
    && |at| == |cards| && Increasing(at)
    && (forall k :: 0 <= k < |at| ==> at[k] < |free| && cards[k] == free[at[k]])
    && (forall i :: 0 <= i < |free| ==> (i in at <==> !IsLeased(t, free[i])))
  }

  lemma PositionsPass(t: Table, free: seq<Card>, c: Card, at: seq<nat>, cards: seq<Card>)
    requires PositionsOf(t, free, at, cards) && IsLeased(t, c)
    ensures PositionsOf(t, free + [c], at, cards)
  {
    hide IsLeased, Increasing;
    assert forall k :: 0 <= k < |free| ==> (free + [c])[k] == free[k];
  }

  lemma PositionsTake(t: Table, free: seq<Card>, c: Card, at: seq<nat>, cards: seq<Card>)
    requires PositionsOf(t, free, at, cards) && !IsLeased(t, c)
    ensures PositionsOf(t, free + [c], at + [|free|], cards + [c])
  {
    hide IsLeased;
    assert forall k :: 0 <= k < |free| ==> (free + [c])[k] == free[k];
    var at', last := at + [|free|], |free|;
    assert forall i :: i in at' <==> i in at || i == last;
  }

  lemma NoPositions(t: Table)
    ensures PositionsOf(t, [], [], Unleased(t, []))
  {
  }

  /** Where the unleased cards stand in the free list. */
  lemma {:induction false} UnleasedPositions(t: Table, free: seq<Card>) returns (at: seq<nat>)
    ensures PositionsOf(t, free, at, Unleased(t, free))
  {
    hide *;
    if free == [] {
      at := [];
      NoPositions(t);
    } else {
      var n := |free| - 1;
      var init, c := free[..n], free[n];
      at := UnleasedPositions(t, init);
      UnleasedSnoc(t, init, c);
      assert free == init + [c];
      if IsLeased(t, c) {
        PositionsPass(t, init, c, at, Unleased(t, init));
        assert Unleased(t, init) + [] == Unleased(t, init);
      } else {
        PositionsTake(t, init, c, at, Unleased(t, init));
        at := at + [n];
      }
    }
  }

  lemma LeasedWhenReaped(t: Table, c: Card, alive: set<Pid>)
    ensures IsLeased(Reap(t, alive), c) <==> exists j :: j in t && t[j].pid in alive && c in t[j].cards
  {
    if j :| j in t && t[j].pid in alive && c in t[j].cards {
      assert j in Reap(t, alive) && c in Reap(t, alive)[j].cards;
    }
  }

  lemma AvailablePositions(t: Table, free: seq<Card>, alive: set<Pid>) returns (at: seq<nat>)
    ensures var cards := Unleased(Reap(t, alive), free);
      && |at| == |cards| == |Available(t, free, alive)| && Increasing(at)
      && (forall k :: 0 <= k < |at| ==> at[k] < |free| && cards[k] == free[at[k]])
      && (forall i :: i in at <==> i in Available(t, free, alive))
  {
    hide IsLeased, Reap;
    at := UnleasedPositions(Reap(t, alive), free);
    forall i: nat | i < |free|
      ensures i in at <==> i in Available(t, free, alive)
    {
      LeasedWhenReaped(t, free[i], alive);
    }
    IncreasingSize(at);
    assert Elements(at) == Available(t, free, alive);
  }

  /** A live lease is handed out again; without one, fewer cards than asked for give none at all. Neither
      changes the table, so there is no partial grant. */
  lemma AcquireOutcome(t: Table, id: LeaseId, pid: Pid, count: nat, free: seq<Card>, alive: set<Pid>)
    ensures var (lease, table) := Acquired(t, id, pid, count, free, alive);
      var held := id in t && t[id].pid in alive;
      && (held ==> lease == Some(t[id]) && table == t)
      && (lease.None? <==> !held && |Available(t, free, alive)| < count)
      && (lease.None? ==> table == t)
  {
    var at := AvailablePositions(t, free, alive);
  }

  /** A new lease is the caller's and has just `count` cards, the first ones in the free list that no
      live lease names: no such card ahead of the last one chosen is passed over. The table gets it and
      keeps the live leases. */
  lemma NewLease(t: Table, id: LeaseId, pid: Pid, count: nat, free: seq<Card>, alive: set<Pid>)
    returns (at: seq<nat>)
    requires !(id in t && t[id].pid in alive) && |Available(t, free, alive)| >= count
    ensures |at| == count && Increasing(at) && forall k :: 0 <= k < count ==> at[k] in Available(t, free, alive)
    ensures forall i :: i in Available(t, free, alive) && count > 0 && i <= at[count - 1] ==> i in at
    ensures var (lease, table) := Acquired(t, id, pid, count, free, alive);
      && lease.Some? && lease.value.pid == pid && |lease.value.cards| == count
      && (forall k :: 0 <= k < count ==> lease.value.cards[k] == free[at[k]])
      && (forall i :: i in table <==> i == id || (i in t && t[i].pid in alive))
      && (forall i :: i in table ==> table[i] == if i == id then lease.value else t[i])
  {
    var all := AvailablePositions(t, free, alive);
    at := all[..count];
    forall i | i in Available(t, free, alive) && count > 0 && i <= at[count - 1]
      ensures i in at
    {
      var k :| 0 <= k < |all| && all[k] == i;
      assert k < count;
      assert at[k] == i;
    }
  }

  // ----- When a call leaves no stale lease -----

  /** No lease has a dead holder. */
  predicate IsReaped(t: Table, alive: set<Pid>) {
    forall id | id in t :: t[id].pid in alive
  }

  /** The documentation has every release reap stale leases. It leaves none exactly when no other
      lease was stale. */
  lemma ReleaseReapsIff(t: Table, id: LeaseId, alive: set<Pid>)
    ensures Released(t, id) == Released(Reap(t, alive), id) <==> IsReaped(Released(t, id), alive)
    ensures IsReaped(Released(t, id), alive) <==> forall i :: i in t && i != id ==> t[i].pid in alive
  {
    var a, b := Released(t, id), Released(Reap(t, alive), id);
    assert forall i :: i in a <==> i in t && i != id;
    assert forall i :: i in a ==> a[i] == t[i];
    assert forall i :: i in b <==> i in a && a[i].pid in alive;
    if IsReaped(a, alive) {
      assert a.Keys == b.Keys;
    }
    if a == b {
      assert forall i :: i in a ==> i in b;
    }
  }

  /** The table `acquire` stores, for a live process: free of stale leases exactly when there was none
      or a new lease is stored. */
  lemma AcquireReapsIff(t: Table, id: LeaseId, pid: Pid, count: nat, free: seq<Card>, alive: set<Pid>)
    requires pid in alive
    ensures IsReaped(Acquired(t, id, pid, count, free, alive).1, alive)
      <==> IsReaped(t, alive) || (id !in Reap(t, alive) && |Unleased(Reap(t, alive), free)| >= count)
  {
  }

  /** A dead process's lease outlives the release of another, and an acquire that finds no card. */
  lemma StaleLeaseStays(dead: Pid, live: Pid, card: Card)
    requires dead != live
    ensures var t: Table := map["a" := Lease(dead, [card]), "b" := Lease(live, [])];
      && "a" in Released(t, "b")
      && "a" in Acquired(t, "c", live, 1, [], {live}).1
  {
  }

  class LocalGpuAllocator {
    var state: Table

    constructor ()
      ensures state == map[]
    {
      state := map[];
    }

    method Acquire(id: LeaseId, pid: Pid, count: nat, free: seq<Card>, alive: set<Pid>)
      returns (lease: Option<Lease>)
      modifies this
      ensures (lease, state) == Acquired(old(state), id, pid, count, free, alive)
    {
      var current := Reap(state, alive);
      if id in current {
        return Some(current[id]);
      }
      var candidates := Unleased(current, free);
      if |candidates| < count {
        return None;
      }
      var chosen := Lease(pid, candidates[..count]);
      state := current[id := chosen];
      lease := Some(chosen);
    }

    method Release(id: LeaseId)
      modifies this
      ensures state == Released(old(state), id)
      ensures state.Keys == old(state).Keys - {id} && forall i :: i in state ==> state[i] == old(state)[i]
    {
      if id !in state {
        return;
      }
      state := state - {id};
    }

    /** Returns the ids of the leases it drops. */
    method ReclaimStale(alive: set<Pid>) returns (reclaimed: set<LeaseId>)
      modifies this
      ensures state == Reap(old(state), alive)
      ensures forall id :: id in state <==> id in old(state) && old(state)[id].pid in alive
      ensures forall id :: id in state ==> state[id] == old(state)[id]
      ensures reclaimed == old(state).Keys - state.Keys
    {
      reclaimed := set id | id in state && state[id].pid !in alive;
      if reclaimed != {} {
        state := Reap(state, alive);
      } else {
        forall id | id in state
          ensures state[id].pid in alive
        {
          assert id !in reclaimed;
        }
        assert state == Reap(state, alive);
      }
    }
  }
}
