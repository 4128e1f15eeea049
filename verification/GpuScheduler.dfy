/** `batch_reproduce`: worker threads of several batch processes that lease GPUs from one
    table, each launching a child on its cards. Steps of all threads interleave. */
module GpuScheduler {
  import opened Wrappers
  import opened GpuAllocator

  type WorkerId = nat

  /** Where a worker is in `_run_one`. */
  datatype Phase =
    | Waiting                         // before the next look at the shutdown flag
    | Checked                         // the flag was clear; about to call acquire
    | Setup(cards: seq<Card>)         // holds a lease; no child yet
    | Running(cards: seq<Card>)       // its registered child is alive
    | Finishing                       // in the finally block: no child, lease not given back
    | Done

  datatype Worker = Worker(pid: Pid, lease: LeaseId, phase: Phase)

  /** Where a process is in its signal handler; any state but `Idle` has the flag set. */
  datatype Handler = Idle | Ending | Releasing(pending: set<LeaseId>) | Finished

  datatype State = State(table: Table, alive: set<Pid>, workers: map<WorkerId, Worker>, handlers: map<Pid, Handler>)
  {
    function HandlerOf(p: Pid): Handler {
      if p in handlers then handlers[p] else Idle
    }

    function At(w: WorkerId, phase: Phase): State
      requires w in workers
    {
      this.(workers := workers[w := workers[w].(phase := phase)])
    }

    function Handle(p: Pid, h: Handler): State {
      this.(handlers := handlers[p := h])
    }

    predicate InPhase(w: WorkerId, phase: Phase) {
      w in workers && workers[w].phase == phase
    }
  }

  datatype Step =
    | Check(w: WorkerId)                                    // the flag is clear
    | Abort(w: WorkerId)                                    // the flag is set: raise
    | TimeOut(w: WorkerId)                                  // the acquire deadline passed: raise
    | Acquire(w: WorkerId, count: nat, free: seq<Card>)
    | AcquireRaises(w: WorkerId)                            // before the try block: no lease to give back
    | Fail(w: WorkerId)                                     // anything raises before the launch
    | Launch(w: WorkerId)
    | ChildExit(w: WorkerId)
    | Release(w: WorkerId)
    | Signal(p: Pid)
    | EndChild(w: WorkerId)                                 // the handler's SIGTERM or SIGKILL
    | ChildrenEnded(p: Pid)
    | HandlerRelease(p: Pid, id: LeaseId)
    | HandlerDone(p: Pid)
    | ReclaimStale(p: Pid)
    | ProcessExit(p: Pid)

  /** A worker of `p` is between its look at the flag and the registration of its child. */
  ghost predicate SettingUp(s: State, p: Pid) {
    exists w :: w in s.workers && s.workers[w].pid == p && (s.workers[w].phase.Checked? || s.workers[w].phase.Setup?)
  }

  ghost predicate HasChild(s: State, p: Pid) {
    exists w :: w in s.workers && s.workers[w].pid == p && s.workers[w].phase.Running?
  }

  ghost predicate Drained(s: State, p: Pid) {
    forall w :: w in s.workers && s.workers[w].pid == p ==> s.workers[w].phase.Done?
  }

  /** When a step can be taken. A signal is not delivered while a worker is setting up. */
  ghost predicate Enabled(s: State, step: Step) {
    match step
    case Check(w) => s.InPhase(w, Waiting) && s.HandlerOf(s.workers[w].pid).Idle?
    case Abort(w) => s.InPhase(w, Waiting) && !s.HandlerOf(s.workers[w].pid).Idle?
    case TimeOut(w) => s.InPhase(w, Waiting)
    case Acquire(w, _, _) => s.InPhase(w, Checked)
    case AcquireRaises(w) => s.InPhase(w, Checked)
    case Fail(w) => w in s.workers && s.workers[w].phase.Setup?
    case Launch(w) => w in s.workers && s.workers[w].phase.Setup?
    case ChildExit(w) => w in s.workers && s.workers[w].phase.Running?
    case Release(w) => s.InPhase(w, Finishing)
    case Signal(p) => p in s.alive && s.HandlerOf(p).Idle? && !SettingUp(s, p)
    case EndChild(w) => w in s.workers && s.workers[w].phase.Running? && s.HandlerOf(s.workers[w].pid).Ending?
    case ChildrenEnded(p) => s.HandlerOf(p).Ending? && !HasChild(s, p)
    case HandlerRelease(p, id) => s.HandlerOf(p).Releasing? && id in s.HandlerOf(p).pending
    case HandlerDone(p) => s.HandlerOf(p).Releasing? && s.HandlerOf(p).pending == {}
    case ReclaimStale(p) => p in s.alive
    case ProcessExit(p) => p in s.alive && Drained(s, p) && (s.HandlerOf(p).Idle? || s.HandlerOf(p).Finished?)
  }

  /** The handler's snapshot: the ids of the leases its own process holds. */
  function OwnLeases(t: Table, p: Pid): set<LeaseId> {
    set id | id in t && t[id].pid == p
  }

  ghost function Next(s: State, step: Step): State
    requires EnabledUnguarded(s, step)
  {
    match step
    case Check(w) => s.At(w, Checked)
    case Abort(w) => s.At(w, Done)
    case TimeOut(w) => s.At(w, Done)
    case Acquire(w, count, free) =>
      var (lease, table) := Acquired(s.table, s.workers[w].lease, s.workers[w].pid, count, free, s.alive);
      (match lease case None => s.At(w, Waiting) case Some(l) => s.At(w, Setup(l.cards))).(table := table)
    case AcquireRaises(w) => s.At(w, Done)
    case Fail(w) => s.At(w, Finishing)
    case Launch(w) => s.At(w, Running(s.workers[w].phase.cards))
    case ChildExit(w) => s.At(w, Finishing)
    case Release(w) => s.At(w, Done).(table := Released(s.table, s.workers[w].lease))
    case Signal(p) => s.Handle(p, Ending)
    case EndChild(w) => s.At(w, Finishing)
    case ChildrenEnded(p) => s.Handle(p, Releasing(OwnLeases(s.table, p)))
    case HandlerRelease(p, id) =>
      s.Handle(p, Releasing(s.HandlerOf(p).pending - {id})).(table := Released(s.table, id))
    case HandlerDone(p) => s.Handle(p, Finished)
    case ReclaimStale(p) => s.(table := Reap(s.table, s.alive))
    case ProcessExit(p) => s.(alive := s.alive - {p})
  }

  /** As `Enabled`, but a signal may come at any time. */
  ghost predicate EnabledUnguarded(s: State, step: Step) {
    match step
    case Signal(p) => p in s.alive && s.HandlerOf(p).Idle?
    case _ => Enabled(s, step)
  }

  // ----- The invariant -----

  ghost predicate DistinctLeases(s: State) {
    forall v, w :: v in s.workers && w in s.workers && v != w ==> s.workers[v].lease != s.workers[w].lease
  }

  /** The lease of a worker that holds one. */
  ghost predicate Holds(s: State, w: WorkerId)
    requires w in s.workers
  {
    var x := s.workers[w];
    x.lease in s.table && s.table[x.lease].pid == x.pid
  }

  ghost predicate WorkerOk(s: State, w: WorkerId)
    requires w in s.workers
  {
    var x := s.workers[w];
    var h := s.HandlerOf(x.pid);
    match x.phase
    case Waiting => x.pid in s.alive && x.lease !in s.table
    case Checked => x.pid in s.alive && x.lease !in s.table && h.Idle?
    case Setup(cards) => x.pid in s.alive && Holds(s, w) && s.table[x.lease].cards == cards && h.Idle?
    case Running(cards) =>
      x.pid in s.alive && Holds(s, w) && s.table[x.lease].cards == cards && (h.Idle? || h.Ending?)
    case Finishing => x.pid in s.alive && (x.lease in s.table ==> Holds(s, w))
    case Done => x.lease !in s.table
  }

  ghost predicate OwnerOf(s: State, id: LeaseId, w: WorkerId) {
    w in s.workers && s.workers[w].lease == id
  }

  ghost predicate Inv(s: State) {
    && DistinctLeases(s)
    && Exclusive(s.table)
    && (forall w :: w in s.workers ==> WorkerOk(s, w))
    && (forall id :: id in s.table ==> exists w :: OwnerOf(s, id, w))
    && (forall p, id :: s.HandlerOf(p).Releasing? && id in s.HandlerOf(p).pending ==>
          exists w :: OwnerOf(s, id, w) && s.workers[w].pid == p)
  }

  ghost predicate Init(s: State) {
    DistinctLeases(s) && Started(s)
  }

  /** No lease yet; every process that has a worker is alive; no signal yet. */
  ghost predicate Started(s: State) {
    && s.table == map[] && s.handlers == map[]
    && forall w :: w in s.workers ==> s.workers[w].phase.Waiting? && s.workers[w].pid in s.alive
  }

  lemma InitInv(s: State)
    requires Init(s)
    ensures Inv(s)
  {
  }

  // ----- Every step keeps the invariant -----

  /** A change of one worker's phase keeps the invariant if the worker is still right. */
  lemma PhaseKeepsInv(s: State, w: WorkerId, phase: Phase)
    requires Inv(s) && w in s.workers
    requires WorkerOk(s.At(w, phase), w)
    ensures Inv(s.At(w, phase))
  {
    var s' := s.At(w, phase);
    forall v | v in s'.workers
      ensures WorkerOk(s', v)
    {
      assert WorkerOk(s, v);
    }
    forall id | id in s'.table
      ensures exists v :: OwnerOf(s', id, v)
    {
      var v :| OwnerOf(s, id, v);
      assert OwnerOf(s', id, v);
    }
    forall p, id | s'.HandlerOf(p).Releasing? && id in s'.HandlerOf(p).pending
      ensures exists v :: OwnerOf(s', id, v) && s'.workers[v].pid == p
    {
      assert s.HandlerOf(p) == s'.HandlerOf(p);
      var v :| OwnerOf(s, id, v) && s.workers[v].pid == p;
      assert OwnerOf(s', id, v) && s'.workers[v].pid == p;
    }
  }

  /** Shrinking the table keeps the invariant if no worker loses what it needs. */
  lemma ShrinkKeepsInv(s: State, t: Table)
    requires Inv(s)
    requires forall id :: id in t ==> id in s.table && t[id] == s.table[id]
    requires forall w :: w in s.workers ==> WorkerOk(s.(table := t), w)
    ensures Inv(s.(table := t))
  {
    var s' := s.(table := t);
    forall i, j | i in t && j in t && i != j
      ensures !SameCard(t[i], t[j])
    {
      assert !SameCard(s.table[i], s.table[j]);
    }
    forall id | id in t
      ensures exists v :: OwnerOf(s', id, v)
    {
      var v :| OwnerOf(s, id, v);
      assert OwnerOf(s', id, v);
    }
    forall p, id | s'.HandlerOf(p).Releasing? && id in s'.HandlerOf(p).pending
      ensures exists v :: OwnerOf(s', id, v) && s'.workers[v].pid == p
    {
      assert s.HandlerOf(p) == s'.HandlerOf(p);
      var v :| OwnerOf(s, id, v) && s.workers[v].pid == p;
      assert OwnerOf(s', id, v) && s'.workers[v].pid == p;
    }
  }

  /** No live lease is stale: a worker outlives neither its process nor its lease. */
  lemma NothingStale(s: State)
    requires Inv(s)
    ensures Reap(s.table, s.alive) == s.table
  {
    forall id | id in s.table
      ensures s.table[id].pid in s.alive
    {
      var w :| OwnerOf(s, id, w);
      assert WorkerOk(s, w);
    }
  }

  lemma NewLeaseKeepsInv(s: State, w: WorkerId, cards: seq<Card>)
    requires Inv(s) && s.InPhase(w, Checked)
    requires Exclusive(s.table[s.workers[w].lease := Lease(s.workers[w].pid, cards)])
    ensures Inv(s.At(w, Setup(cards)).(table := s.table[s.workers[w].lease := Lease(s.workers[w].pid, cards)]))
  {
    var x := s.workers[w];
    assert WorkerOk(s, w);
    var s' := s.At(w, Setup(cards)).(table := s.table[x.lease := Lease(x.pid, cards)]);
    forall v | v in s'.workers
      ensures WorkerOk(s', v)
    {
      assert WorkerOk(s, v);
      if v != w {
        assert s.workers[v].lease != x.lease;
      }
    }
    forall id | id in s'.table
      ensures exists v :: OwnerOf(s', id, v)
    {
      if id == x.lease {
        assert OwnerOf(s', id, w);
      } else {
        var v :| OwnerOf(s, id, v);
        assert OwnerOf(s', id, v);
      }
    }
    forall p, id | s'.HandlerOf(p).Releasing? && id in s'.HandlerOf(p).pending
      ensures exists v :: OwnerOf(s', id, v) && s'.workers[v].pid == p
    {
      assert s.HandlerOf(p) == s'.HandlerOf(p);
      var v :| OwnerOf(s, id, v) && s.workers[v].pid == p;
      assert OwnerOf(s', id, v) && s'.workers[v].pid == p;
    }
  }

  lemma AcquireKeepsInv(s: State, w: WorkerId, count: nat, free: seq<Card>)
    requires Inv(s) && Enabled(s, Acquire(w, count, free))
    ensures Inv(Next(s, Acquire(w, count, free)))
  {
    var x := s.workers[w];
    assert WorkerOk(s, w);
    NothingStale(s);
    var (lease, table) := Acquired(s.table, x.lease, x.pid, count, free, s.alive);
    AcquireKeepsExclusive(s.table, x.lease, x.pid, count, free, s.alive);
    hide Inv, WorkerOk, Exclusive, Reap;
    if lease.None? {
      PhaseBack(s, w);
      assert s.At(w, Waiting).(table := table) == s.At(w, Waiting);
    } else {
      assert table == s.table[x.lease := Lease(x.pid, lease.value.cards)];
      NewLeaseKeepsInv(s, w, lease.value.cards);
    }
  }

  lemma PhaseBack(s: State, w: WorkerId)
    requires Inv(s) && s.InPhase(w, Checked)
    ensures Inv(s.At(w, Waiting))
  {
    assert WorkerOk(s, w);
    PhaseKeepsInv(s, w, Waiting);
  }

  lemma ReleaseKeepsInv(s: State, w: WorkerId)
    requires Inv(s) && Enabled(s, Release(w))
    ensures Inv(Next(s, Release(w)))
  {
    var id := s.workers[w].lease;
    var t := Released(s.table, id);
    forall v | v in s.workers
      ensures WorkerOk(s.(table := t), v)
    {
      assert WorkerOk(s, v);
      if v != w {
        assert s.workers[v].lease != id;
      }
    }
    ShrinkKeepsInv(s, t);
    PhaseKeepsInv(s.(table := t), w, Done);
    assert s.(table := t).At(w, Done) == Next(s, Release(w));
  }

  /** A change of one process's handler keeps the invariant. */
  lemma HandlerKeepsInv(s: State, p: Pid, h: Handler)
    requires Inv(s)
    requires forall w :: w in s.workers && s.workers[w].pid == p ==> WorkerOk(s.Handle(p, h), w)
    requires h.Releasing? ==>
      forall id :: id in h.pending ==> exists w :: OwnerOf(s, id, w) && s.workers[w].pid == p
    ensures Inv(s.Handle(p, h))
  {
    var s' := s.Handle(p, h);
    forall w | w in s'.workers
      ensures WorkerOk(s', w)
    {
      assert WorkerOk(s, w);
      if s.workers[w].pid != p {
        assert s'.HandlerOf(s.workers[w].pid) == s.HandlerOf(s.workers[w].pid);
      }
    }
    forall id | id in s'.table
      ensures exists v :: OwnerOf(s', id, v)
    {
      var v :| OwnerOf(s, id, v);
      assert OwnerOf(s', id, v);
    }
    forall q, id | s'.HandlerOf(q).Releasing? && id in s'.HandlerOf(q).pending
      ensures exists v :: OwnerOf(s', id, v) && s'.workers[v].pid == q
    {
      if q != p {
        assert s'.HandlerOf(q) == s.HandlerOf(q);
      }
      var v :| OwnerOf(s, id, v) && s.workers[v].pid == q;
      assert OwnerOf(s', id, v) && s'.workers[v].pid == q;
    }
  }

  lemma ChildrenEndedKeepsInv(s: State, p: Pid)
    requires Inv(s) && Enabled(s, ChildrenEnded(p))
    ensures Inv(Next(s, ChildrenEnded(p)))
  {
    var h := Releasing(OwnLeases(s.table, p));
    forall id | id in h.pending
      ensures exists w :: OwnerOf(s, id, w) && s.workers[w].pid == p
    {
      var w :| OwnerOf(s, id, w);
      assert WorkerOk(s, w);
    }
    forall w | w in s.workers && s.workers[w].pid == p
      ensures WorkerOk(s.Handle(p, h), w)
    {
      assert WorkerOk(s, w);
    }
    HandlerKeepsInv(s, p, h);
  }

  lemma HandlerReleaseKeepsInv(s: State, p: Pid, id: LeaseId)
    requires Inv(s) && Enabled(s, HandlerRelease(p, id))
    ensures Inv(Next(s, HandlerRelease(p, id)))
  {
    var t := Released(s.table, id);
    var owner :| OwnerOf(s, id, owner) && s.workers[owner].pid == p;
    assert WorkerOk(s, owner);
    forall v | v in s.workers
      ensures WorkerOk(s.(table := t), v)
    {
      assert WorkerOk(s, v);
      if v != owner {
        assert s.workers[v].lease != id;
      }
    }
    ShrinkKeepsInv(s, t);
    var s1 := s.(table := t);
    var h := Releasing(s.HandlerOf(p).pending - {id});
    forall v | v in s1.workers && s1.workers[v].pid == p
      ensures WorkerOk(s1.Handle(p, h), v)
    {
      assert WorkerOk(s1, v);
    }
    forall i | i in h.pending
      ensures exists v :: OwnerOf(s1, i, v) && s1.workers[v].pid == p
    {
      assert i in s1.HandlerOf(p).pending;
    }
    HandlerKeepsInv(s1, p, h);
    assert s1.Handle(p, h) == Next(s, HandlerRelease(p, id));
  }

  lemma SignalKeepsInv(s: State, p: Pid, h: Handler)
    requires Inv(s) && !h.Releasing?
    requires (s.HandlerOf(p).Idle? && !SettingUp(s, p) && h.Ending?)
      || (s.HandlerOf(p).Releasing? && h.Finished?)
    ensures Inv(s.Handle(p, h))
  {
    forall w | w in s.workers && s.workers[w].pid == p
      ensures WorkerOk(s.Handle(p, h), w)
    {
      assert WorkerOk(s, w);
    }
    HandlerKeepsInv(s, p, h);
  }

  lemma ExitKeepsInv(s: State, p: Pid)
    requires Inv(s) && Enabled(s, ProcessExit(p))
    ensures Inv(Next(s, ProcessExit(p)))
  {
    var s' := s.(alive := s.alive - {p});
    forall w | w in s'.workers
      ensures WorkerOk(s', w)
    {
      assert WorkerOk(s, w);
    }
    forall id | id in s'.table
      ensures exists v :: OwnerOf(s', id, v)
    {
      var v :| OwnerOf(s, id, v);
      assert OwnerOf(s', id, v);
    }
    forall q, id | s'.HandlerOf(q).Releasing? && id in s'.HandlerOf(q).pending
      ensures exists v :: OwnerOf(s', id, v) && s'.workers[v].pid == q
    {
      assert s'.HandlerOf(q) == s.HandlerOf(q);
      var v :| OwnerOf(s, id, v) && s.workers[v].pid == q;
      assert OwnerOf(s', id, v) && s'.workers[v].pid == q;
    }
  }

  lemma NextKeepsInv(s: State, step: Step)
    requires Inv(s) && Enabled(s, step)
    ensures Inv(Next(s, step))
  {
    match step
    case Check(w) => assert WorkerOk(s, w); PhaseKeepsInv(s, w, Checked);
    case Abort(w) => assert WorkerOk(s, w); PhaseKeepsInv(s, w, Done);
    case TimeOut(w) => assert WorkerOk(s, w); PhaseKeepsInv(s, w, Done);
    case Acquire(w, count, free) => AcquireKeepsInv(s, w, count, free);
    case AcquireRaises(w) => assert WorkerOk(s, w); PhaseKeepsInv(s, w, Done);
    case Fail(w) => assert WorkerOk(s, w); PhaseKeepsInv(s, w, Finishing);
    case Launch(w) => assert WorkerOk(s, w); PhaseKeepsInv(s, w, Running(s.workers[w].phase.cards));
    case ChildExit(w) => assert WorkerOk(s, w); PhaseKeepsInv(s, w, Finishing);
    case Release(w) => ReleaseKeepsInv(s, w);
    case Signal(p) => SignalKeepsInv(s, p, Ending);
    case EndChild(w) => assert WorkerOk(s, w); PhaseKeepsInv(s, w, Finishing);
    case ChildrenEnded(p) => ChildrenEndedKeepsInv(s, p);
    case HandlerRelease(p, id) => HandlerReleaseKeepsInv(s, p, id);
    case HandlerDone(p) => SignalKeepsInv(s, p, Finished);
    case ReclaimStale(p) => NothingStale(s);
    case ProcessExit(p) => ExitKeepsInv(s, p);
  }

  // ----- Whole runs -----

  ghost predicate CanRun(s: State, steps: seq<Step>)
    decreases |steps|
  {
    steps == [] || (Enabled(s, steps[0]) && CanRun(Next(s, steps[0]), steps[1..]))
  }

  ghost function After(s: State, steps: seq<Step>): State
    requires CanRun(s, steps)
    decreases |steps|
  {
    if steps == [] then s else After(Next(s, steps[0]), steps[1..])
  }

  lemma {:induction false} RunKeepsInv(s: State, steps: seq<Step>)
    requires Inv(s) && CanRun(s, steps)
    ensures Inv(After(s, steps))
    decreases |steps|
  {
    if steps != [] {
      NextKeepsInv(s, steps[0]);
      RunKeepsInv(Next(s, steps[0]), steps[1..]);
    }
  }

  ghost predicate Overlap(a: seq<Card>, b: seq<Card>) {
    exists c :: c in a && c in b
  }

  /** In every reachable state, live children have disjoint cards, each is covered by a lease
      of its own process over just its cards, no finished worker has a lease, and a drained
      process has none. */
  lemma ReachableSafety(s: State, steps: seq<Step>)
    requires Init(s) && CanRun(s, steps)
    ensures var t := After(s, steps);
      && (forall v, w :: v in t.workers && w in t.workers && v != w
            && t.workers[v].phase.Running? && t.workers[w].phase.Running?
            ==> !Overlap(t.workers[v].phase.cards, t.workers[w].phase.cards))
      && (forall w :: w in t.workers && t.workers[w].phase.Running? ==>
            var x := t.workers[w];
            x.lease in t.table && t.table[x.lease] == Lease(x.pid, x.phase.cards))
      && (forall w :: w in t.workers && t.workers[w].phase.Done? ==> t.workers[w].lease !in t.table)
      && (forall p :: Drained(t, p) ==> OwnLeases(t.table, p) == {})
  {
    InitInv(s);
    RunKeepsInv(s, steps);
    var t := After(s, steps);
    forall w | w in t.workers
      ensures WorkerOk(t, w)
    {
    }
    forall v, w | v in t.workers && w in t.workers && v != w
        && t.workers[v].phase.Running? && t.workers[w].phase.Running?
      ensures !Overlap(t.workers[v].phase.cards, t.workers[w].phase.cards)
    {
      LiveChildrenDisjoint(t, v, w);
    }
    forall p | Drained(t, p)
      ensures OwnLeases(t.table, p) == {}
    {
      DrainedHoldsNone(t, p);
    }
  }

  lemma LiveChildrenDisjoint(s: State, v: WorkerId, w: WorkerId)
    requires Inv(s) && v in s.workers && w in s.workers && v != w
    requires s.workers[v].phase.Running? && s.workers[w].phase.Running?
    ensures !Overlap(s.workers[v].phase.cards, s.workers[w].phase.cards)
  {
    assert WorkerOk(s, v) && WorkerOk(s, w);
    var i, j := s.workers[v].lease, s.workers[w].lease;
    assert i != j && !SameCard(s.table[i], s.table[j]);
  }

  lemma LeaseHasHolder(s: State, id: LeaseId) returns (w: WorkerId)
    requires Inv(s) && id in s.table
    ensures OwnerOf(s, id, w) && s.workers[w].pid == s.table[id].pid && !s.workers[w].phase.Done?
  {
    w :| OwnerOf(s, id, w);
    assert WorkerOk(s, w);
  }

  lemma DrainedHoldsNone(s: State, p: Pid)
    requires Inv(s) && Drained(s, p)
    ensures OwnLeases(s.table, p) == {}
  {
    forall id | id in s.table
      ensures s.table[id].pid != p
    {
      var w := LeaseHasHolder(s, id);
    }
  }

  /** The handler gives back only leases of its own process, and only once that process has
      no live child. */
  lemma HandlerFreesOnlyOwn(s: State, p: Pid, id: LeaseId)
    requires Inv(s) && Enabled(s, HandlerRelease(p, id))
    ensures !HasChild(s, p)
    ensures id in s.table ==> s.table[id].pid == p
    ensures forall i :: i in s.table && s.table[i].pid != p ==>
      i in Next(s, HandlerRelease(p, id)).table && Next(s, HandlerRelease(p, id)).table[i] == s.table[i]
  {
    var w :| OwnerOf(s, id, w) && s.workers[w].pid == p;
    assert WorkerOk(s, w);
    forall v | v in s.workers && s.workers[v].pid == p
      ensures !s.workers[v].phase.Running?
    {
      assert WorkerOk(s, v);
    }
  }

  // ----- Cards come from the worker's own acquire -----

  /** The worker holds these cards: for its setup, or for its child. */
  predicate HasCards(s: State, w: WorkerId, cards: seq<Card>) {
    s.InPhase(w, Setup(cards)) || s.InPhase(w, Running(cards))
  }

  /** One of the steps is an acquire of the worker that asked for as many cards and found them free. */
  predicate Granted(steps: seq<Step>, w: WorkerId, cards: seq<Card>) {
    exists i | 0 <= i < |steps| :: Grants(steps[i], w, cards)
  }

  predicate Grants(step: Step, w: WorkerId, cards: seq<Card>) {
    step.Acquire? && step.w == w && |cards| == step.count && forall c :: c in cards ==> c in step.free
  }

  lemma StepGrants(s: State, step: Step, w: WorkerId, cards: seq<Card>)
    requires Inv(s) && Enabled(s, step) && HasCards(Next(s, step), w, cards)
    ensures HasCards(s, w, cards) || Grants(step, w, cards)
  {
    if step.Acquire? && step.w == w {
      var x := s.workers[w];
      assert WorkerOk(s, w);
      AcquireOutcome(s.table, x.lease, x.pid, step.count, step.free, s.alive);
      if |Available(s.table, step.free, s.alive)| >= step.count {
        var at := NewLease(s.table, x.lease, x.pid, step.count, step.free, s.alive);
      }
    }
  }

  /** In every run, whatever cards a worker sets up on or its child runs on, the worker itself asked for
      just so many and found each of them free. */
  lemma {:induction false} RunGrants(s: State, steps: seq<Step>, w: WorkerId, cards: seq<Card>)
    requires Inv(s) && CanRun(s, steps) && HasCards(After(s, steps), w, cards)
    ensures HasCards(s, w, cards) || Granted(steps, w, cards)
    decreases |steps|
  {
    hide Inv, Next, Grants, HasCards;
    if steps != [] {
      var s', rest := Next(s, steps[0]), steps[1..];
      NextKeepsInv(s, steps[0]);
      RunGrants(s', rest, w, cards);
      if Granted(rest, w, cards) {
        var i :| 0 <= i < |rest| && Grants(rest[i], w, cards);
        assert steps[i + 1] == rest[i];
      } else {
        StepGrants(s, steps[0], w, cards);
      }
    }
  }

  lemma ChildrenRunOnGrantedCards(s: State, steps: seq<Step>, w: WorkerId)
    requires Init(s) && CanRun(s, steps)
    requires w in After(s, steps).workers && After(s, steps).workers[w].phase.Running?
    ensures var cards := After(s, steps).workers[w].phase.cards;
      exists i :: 0 <= i < |steps| && steps[i].Acquire? && steps[i].w == w && steps[i].count == |cards|
        && forall c :: c in cards ==> c in steps[i].free
  {
    hide Inv, Next, Enabled, After;
    var cards := After(s, steps).workers[w].phase.cards;
    InitInv(s);
    RunGrants(s, steps, w, cards);
    var i :| 0 <= i < |steps| && Grants(steps[i], w, cards);
    assert steps[i].Acquire?;
  }

  // ----- A shutdown to its end -----

  lemma GuardedStep(s: State, step: Step, rest: seq<Step>)
    requires Enabled(s, step) && CanRun(Next(s, step), rest)
    ensures CanRun(s, [step] + rest) && After(s, [step] + rest) == After(Next(s, step), rest)
  {
    assert ([step] + rest)[1..] == rest;
  }

  lemma NoStep(s: State)
    ensures CanRun(s, []) && After(s, []) == s
  {
  }

  /** The worker is the only one of its process. */
  ghost predicate Alone(s: State, w: WorkerId) {
    w in s.workers && forall v :: v in s.workers && s.workers[v].pid == s.workers[w].pid ==> v == w
  }

  /** Nothing is left of the worker and its process. */
  predicate Gone(s: State, w: WorkerId, p: Pid) {
    s.table == map[] && p !in s.alive && s.InPhase(w, Done) && s.HandlerOf(p).Finished?
  }

  lemma ExitDrained(s: State, w: WorkerId)
    requires Alone(s, w) && s.workers[w].phase == Finishing && s.workers[w].pid in s.alive && s.table == map[]
    requires s.HandlerOf(s.workers[w].pid).Finished?
    ensures var steps := [Release(w)] + ([ProcessExit(s.workers[w].pid)] + []);
      CanRun(s, steps) && Gone(After(s, steps), w, s.workers[w].pid)
  {
    var p := s.workers[w].pid;
    var s1 := Next(s, Release(w));
    var s2 := Next(s1, ProcessExit(p));
    hide CanRun, After;
    NoStep(s2);
    GuardedStep(s1, ProcessExit(p), []);
    GuardedStep(s, Release(w), [ProcessExit(p)] + []);
  }

  lemma HandlerFinishes(s: State, w: WorkerId)
    requires Alone(s, w) && s.workers[w].phase == Finishing && s.workers[w].pid in s.alive
    requires s.table.Keys == {s.workers[w].lease}
    requires s.HandlerOf(s.workers[w].pid) == Releasing({s.workers[w].lease})
    ensures var x := s.workers[w];
      var steps := [HandlerRelease(x.pid, x.lease)] + ([HandlerDone(x.pid)]
        + ([Release(w)] + ([ProcessExit(x.pid)] + [])));
      CanRun(s, steps) && Gone(After(s, steps), w, x.pid)
  {
    hide CanRun, After;
    var x := s.workers[w];
    var p := x.pid;
    var s1 := Next(s, HandlerRelease(p, x.lease));
    assert s1.HandlerOf(p) == Releasing({}) && s1.table == map[];
    var s2 := Next(s1, HandlerDone(p));
    ExitDrained(s2, w);
    var rest := [Release(w)] + ([ProcessExit(p)] + []);
    GuardedStep(s1, HandlerDone(p), rest);
    GuardedStep(s, HandlerRelease(p, x.lease), [HandlerDone(p)] + rest);
  }

  /** A signal while the child runs, handled to its end: the child is ended, the lease given back, and the
      process exits with nothing left behind. */
  lemma ShutdownDrains(s: State, w: WorkerId, cards: seq<Card>)
    requires Alone(s, w) && s.workers[w].phase == Running(cards) && s.workers[w].pid in s.alive
    requires s.HandlerOf(s.workers[w].pid).Idle?
    requires s.table == map[s.workers[w].lease := Lease(s.workers[w].pid, cards)]
    ensures var x := s.workers[w];
      var p := x.pid;
      var steps := [Signal(p)] + ([EndChild(w)] + ([ChildrenEnded(p)] + ([HandlerRelease(p, x.lease)]
        + ([HandlerDone(p)] + ([Release(w)] + ([ProcessExit(p)] + []))))));
      CanRun(s, steps) && Gone(After(s, steps), w, p)
  {
    hide CanRun, After, Gone;
    var x := s.workers[w];
    var p := x.pid;
    var s1 := Next(s, Signal(p));
    var s2 := Next(s1, EndChild(w));
    var s3 := Next(s2, ChildrenEnded(p));
    assert OwnLeases(s2.table, p) == {x.lease};
    HandlerFinishes(s3, w);
    var rest := [HandlerRelease(p, x.lease)] + ([HandlerDone(p)] + ([Release(w)] + ([ProcessExit(p)] + [])));
    GuardedStep(s2, ChildrenEnded(p), rest);
    GuardedStep(s1, EndChild(w), [ChildrenEnded(p)] + rest);
    GuardedStep(s, Signal(p), [EndChild(w)] + ([ChildrenEnded(p)] + rest));
  }

  // ----- What the guard on signals and the distinct ids are for -----

  ghost predicate CanRunUnguarded(s: State, steps: seq<Step>)
    decreases |steps|
  {
    steps == [] || (EnabledUnguarded(s, steps[0]) && CanRunUnguarded(Next(s, steps[0]), steps[1..]))
  }

  ghost function AfterUnguarded(s: State, steps: seq<Step>): State
    requires CanRunUnguarded(s, steps)
    decreases |steps|
  {
    if steps == [] then s else AfterUnguarded(Next(s, steps[0]), steps[1..])
  }

  lemma UnguardedStep(s: State, step: Step, rest: seq<Step>)
    requires EnabledUnguarded(s, step) && CanRunUnguarded(Next(s, step), rest)
    ensures CanRunUnguarded(s, [step] + rest)
    ensures AfterUnguarded(s, [step] + rest) == AfterUnguarded(Next(s, step), rest)
  {
    assert ([step] + rest)[1..] == rest;
  }

  lemma AcquireTheOnlyCard(t: Table, id: LeaseId, pid: Pid, alive: set<Pid>, card: Card)
    requires t == map[] && pid in alive
    ensures Acquired(t, id, pid, 1, [card], alive) == (Some(Lease(pid, [card])), map[id := Lease(pid, [card])])
  {
    assert Reap(t, alive) == map[];
    assert [card][1..] == [];
    assert Unleased(t, [card]) == [card] + Unleased(t, []);
  }

  lemma FreedCardIsLeasedAgain(s: State, a: WorkerId, b: WorkerId, card: Card)
    requires a in s.workers && b in s.workers && a != b && s.table == map[]
    requires s.workers[a].phase == Setup([card]) && s.workers[b].phase == Checked
    requires s.workers[b].pid in s.alive
    ensures var steps := [Launch(a), Acquire(b, 1, [card]), Launch(b)];
      CanRunUnguarded(s, steps) &&
      AfterUnguarded(s, steps).InPhase(a, Running([card])) && AfterUnguarded(s, steps).InPhase(b, Running([card]))
  {
    var y := s.workers[b];
    var s1 := Next(s, Launch(a));
    AcquireTheOnlyCard(s1.table, y.lease, y.pid, s1.alive, card);
    var s2 := Next(s1, Acquire(b, 1, [card]));
    UnguardedStep(s2, Launch(b), []);
    UnguardedStep(s1, Acquire(b, 1, [card]), [Launch(b)]);
    UnguardedStep(s, Launch(a), [Acquire(b, 1, [card]), Launch(b)]);
    assert [Launch(a)] + ([Acquire(b, 1, [card])] + [Launch(b)]) == [Launch(a), Acquire(b, 1, [card]), Launch(b)];
  }

  lemma SignalInSetup(s: State, a: WorkerId, b: WorkerId, card: Card)
    requires a in s.workers && b in s.workers && a != b
    requires var x, y := s.workers[a], s.workers[b];
      x.pid != y.pid && x.lease != y.lease && x.phase == Setup([card]) && y.phase == Checked
      && x.pid in s.alive && y.pid in s.alive
      && s.table == map[x.lease := Lease(x.pid, [card])]
      && s.HandlerOf(x.pid).Idle? && !HasChild(s, x.pid)
    ensures var x := s.workers[a];
      var steps := [Signal(x.pid)] + ([ChildrenEnded(x.pid)] + ([HandlerRelease(x.pid, x.lease)]
        + [Launch(a), Acquire(b, 1, [card]), Launch(b)]));
      CanRunUnguarded(s, steps) &&
      AfterUnguarded(s, steps).InPhase(a, Running([card])) && AfterUnguarded(s, steps).InPhase(b, Running([card]))
  {
    var x := s.workers[a];
    var s1 := Next(s, Signal(x.pid));
    assert !HasChild(s1, x.pid);
    var s2 := Next(s1, ChildrenEnded(x.pid));
    assert OwnLeases(s1.table, x.pid) == {x.lease};
    var s3 := Next(s2, HandlerRelease(x.pid, x.lease));
    assert s3.table == map[];
    FreedCardIsLeasedAgain(s3, a, b, card);
    var rest := [Launch(a), Acquire(b, 1, [card]), Launch(b)];
    UnguardedStep(s2, HandlerRelease(x.pid, x.lease), rest);
    UnguardedStep(s1, ChildrenEnded(x.pid), [HandlerRelease(x.pid, x.lease)] + rest);
    UnguardedStep(s, Signal(x.pid), [ChildrenEnded(x.pid)] + ([HandlerRelease(x.pid, x.lease)] + rest));
  }

  lemma UnguardedAcquire(s: State, w: WorkerId, card: Card, rest: seq<Step>)
    requires s.InPhase(w, Waiting) && s.HandlerOf(s.workers[w].pid).Idle?
    requires s.table == map[] && s.workers[w].pid in s.alive
    requires CanRunUnguarded(Leased(s, w, card), rest)
    ensures CanRunUnguarded(s, [Check(w)] + ([Acquire(w, 1, [card])] + rest))
    ensures AfterUnguarded(s, [Check(w)] + ([Acquire(w, 1, [card])] + rest)) == AfterUnguarded(Leased(s, w, card), rest)
  {
    var x := s.workers[w];
    var s1 := Next(s, Check(w));
    AcquireTheOnlyCard(s1.table, x.lease, x.pid, s1.alive, card);
    assert Next(s1, Acquire(w, 1, [card])) == Leased(s, w, card);
    UnguardedStep(s1, Acquire(w, 1, [card]), rest);
    UnguardedStep(s, Check(w), [Acquire(w, 1, [card])] + rest);
  }

  function Leased(s: State, w: WorkerId, card: Card): State
    requires w in s.workers
  {
    s.At(w, Setup([card])).(table := map[s.workers[w].lease := Lease(s.workers[w].pid, [card])])
  }

  /** From any start with two workers of different processes: a signal between one worker's acquire
      and its launch. The handler gives the lease back, the worker still launches, and the other
      process leases the same card. */
  lemma SignalDuringSetupCollides(s: State, a: WorkerId, b: WorkerId, card: Card) returns (steps: seq<Step>)
    requires Init(s) && a in s.workers && b in s.workers && s.workers[a].pid != s.workers[b].pid
    ensures CanRunUnguarded(s, steps)
    ensures AfterUnguarded(s, steps).InPhase(a, Running([card])) && AfterUnguarded(s, steps).InPhase(b, Running([card]))
  {
    hide CanRunUnguarded, AfterUnguarded;
    var x := s.workers[a];
    var s1 := Leased(s, a, card);
    var s2 := Next(s1, Check(b));
    assert !HasChild(s2, x.pid);
    var rest := [Signal(x.pid)] + ([ChildrenEnded(x.pid)] + ([HandlerRelease(x.pid, x.lease)]
      + [Launch(a), Acquire(b, 1, [card]), Launch(b)]));
    SignalInSetup(s2, a, b, card);
    UnguardedStep(s1, Check(b), rest);
    UnguardedAcquire(s, a, card, [Check(b)] + rest);
    steps := [Check(a)] + ([Acquire(a, 1, [card])] + ([Check(b)] + rest));
  }

  /** From any start with two workers of one lease id: acquire hands the second the first one's
      cards, and both have live children on them. */
  lemma SharedLeaseIdCollides(s: State, a: WorkerId, b: WorkerId, card: Card, count: nat, free: seq<Card>)
    returns (steps: seq<Step>)
    requires Started(s) && a in s.workers && b in s.workers && a != b && s.workers[a].lease == s.workers[b].lease
    ensures CanRunUnguarded(s, steps) && forall p :: Signal(p) !in steps
    ensures AfterUnguarded(s, steps).InPhase(a, Running([card])) && AfterUnguarded(s, steps).InPhase(b, Running([card]))
  {
    var s1 := Leased(s, a, card);
    var s2 := Next(s1, Launch(a));
    var s3 := Next(s2, Check(b));
    var s4 := Next(s3, Acquire(b, count, free));
    var s5 := Next(s4, Launch(b));
    hide CanRunUnguarded, AfterUnguarded;
    NoMoreSteps(s5);
    UnguardedStep(s4, Launch(b), []);
    UnguardedStep(s3, Acquire(b, count, free), [Launch(b)] + []);
    UnguardedStep(s2, Check(b), [Acquire(b, count, free)] + ([Launch(b)] + []));
    var rest := [Check(b)] + ([Acquire(b, count, free)] + ([Launch(b)] + []));
    UnguardedStep(s1, Launch(a), rest);
    UnguardedAcquire(s, a, card, [Launch(a)] + rest);
    steps := [Check(a)] + ([Acquire(a, 1, [card])] + ([Launch(a)] + rest));
  }

  lemma NoMoreSteps(s: State)
    ensures CanRunUnguarded(s, []) && AfterUnguarded(s, []) == s
  {
  }

  /** A scheduler that dies without running its handler leaves a child whose lease the next
      acquire of any process drops. */
  lemma OrphanLosesLease(s: State, w: WorkerId)
    requires Inv(s) && w in s.workers && s.workers[w].phase.Running?
    ensures s.workers[w].lease !in Reap(s.table, s.alive - {s.workers[w].pid})
  {
    assert WorkerOk(s, w);
  }
}
