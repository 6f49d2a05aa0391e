/**
 The timers of the event loop: a heap of timer structs ordered by deadline, a pool of
 recycled structs, and `loop_run_timers`, which takes every due timer off the heap and
 then fires them one by one while their callbacks start and stop timers at will.

 The heap is the one of `TimerQueue`; the invariants speak of the set of structs in it.
 Every start gets a serial number, so that a timer can be told from a later one in the
 same recycled struct.
 */
module Timers {
  import opened Common
  import TimerQueue

  type Id = nat        // address of a timer struct
  type Serial = nat

  const UINT64: nat := 0x1_0000_0000_0000_0000
  const POOL_MAX: nat := 256

  /** `inHeap` is `heap_idx != TIMER_INVALID_IDX`. */
  datatype Timer = Timer(deadline: nat, repeat: nat, serial: Serial, fired: bool, inHeap: bool)

  /** A callback that ran: for which timer, and the deadline it was re-armed with by then. */
  datatype Firing = Firing(id: Id, serial: Serial, deadline: nat, rearmed: Option<nat>)

  /** What a callback may do. */
  datatype Op = Start(deadline: nat, repeat: nat) | Stop(id: Id)

  function Rearmed(t: Timer): Timer {
    t.(deadline := (t.deadline + t.repeat) % UINT64, fired := false, inHeap := true)
  }

  /** What firing `t` leaves in the log. */
  function Expected(id: Id, t: Timer): Firing {
    Firing(id, t.serial, t.deadline, if t.repeat > 0 then Some(Rearmed(t).deadline) else None)
  }

  function FiredOf(log: seq<Firing>): multiset<Serial> {
    if log == [] then multiset{} else FiredOf(log[..|log| - 1]) + multiset{log[|log| - 1].serial}
  }

  lemma FiredOfAppend(log: seq<Firing>, f: Firing)
    ensures FiredOf(log + [f]) == FiredOf(log) + multiset{f.serial}
  {
    assert (log + [f])[..|log|] == log;
  }

  // ---------- The state, and what holds of it ----------

  datatype State = State(
    sources: nat,                   // open event sources
    activeHandles: int,
    timers: map<Id, Timer>,         // every struct that is not freed
    nextId: Id,
    heap: set<Id>,
    ready: seq<Id>,
    pool: seq<Id>,                  // timer_free, head first
    // history
    starts: seq<nat>,               // the repeat interval of each timer started, by serial
    log: seq<Firing>,
    stopped: multiset<Serial>,
    cancelled: multiset<Serial>,    // taken off by destroy
    home: map<Serial, Id>)          // the struct of each timer that still waits

  /** Heap, ready list and pool share no struct and hold every struct there is. */
  ghost predicate Shape(s: State) {
    && (forall id :: id in s.timers ==> id < s.nextId && (id in s.heap || id in s.ready || id in s.pool))
    && (forall id :: id in s.heap ==>
          id in s.timers && s.timers[id].inHeap && !s.timers[id].fired && id !in s.ready && id !in s.pool)
    && (forall id :: id in s.ready ==> id in s.timers && !s.timers[id].inHeap && s.timers[id].fired && id !in s.pool)
    && (forall id :: id in s.pool ==> id in s.timers && !s.timers[id].inHeap)
    && Distinct(s.ready) && Distinct(s.pool) && |s.pool| <= POOL_MAX
    && s.activeHandles == s.sources + |s.heap| + |s.ready|
  }

  /** How often the timer with this serial came to its end; a repeating one does not end by firing. */
  function Ends(s: State, k: Serial): nat {
    s.stopped[k] + s.cancelled[k] + (if k < |s.starts| && s.starts[k] > 0 then 0 else FiredOf(s.log)[k])
  }

  predicate Waits(s: State, id: Id) {
    id in s.timers && (id in s.heap || id in s.ready)
  }

  predicate AtHome(s: State, id: Id)
    requires id in s.timers
  {
    var k := s.timers[id].serial;
    k in s.home && s.home[k] == id && k < |s.starts| && s.timers[id].repeat == s.starts[k]
  }

  predicate HasHome(s: State, k: Serial)
    requires k in s.home
  {
    k < |s.starts| && Waits(s, s.home[k]) && s.timers[s.home[k]].serial == k
  }

  /** Each timer ever started waits in one struct or has ended once, never both. */
  ghost predicate Lifecycle(s: State) {
    && (forall id :: Waits(s, id) ==> AtHome(s, id))
    && (forall k :: k in s.home ==> HasHome(s, k))
    && (forall k: Serial :: Ends(s, k) == if k < |s.starts| && k !in s.home then 1 else 0)
  }

  // ---------- Each operation keeps it ----------

  function Submitted(s: State, id: Id, deadline: nat, repeat: nat): State {
    s.(activeHandles := s.activeHandles + 1,
       timers := s.timers[id := Timer(deadline, repeat, |s.starts|, false, true)],
       heap := s.heap + {id}, starts := s.starts + [repeat], home := s.home[|s.starts| := id])
  }

  /** `id` was taken from the pool or is new. */
  ghost predicate Allocates(s: State, s': State, id: Id) {
    && s' == s.(pool := s'.pool, nextId := s'.nextId)
    && if s.pool != [] then id == s.pool[0] && s'.pool == s.pool[1..] && s'.nextId == s.nextId
       else id == s.nextId && s'.pool == [] && s'.nextId == s.nextId + 1
  }

  lemma SubmitKeepsShape(s: State, a: State, id: Id, deadline: nat, repeat: nat)
    requires Shape(s) && Allocates(s, a, id)
    ensures id !in s.heap && id !in s.ready && Shape(Submitted(a, id, deadline, repeat))
  {
    if s.pool != [] {
      WithoutHead(s.pool);
    }
  }

  lemma SubmitKeepsLifecycle(s: State, id: Id, deadline: nat, repeat: nat)
    requires Lifecycle(s) && id !in s.heap && id !in s.ready
    ensures Lifecycle(Submitted(s, id, deadline, repeat))
  {
    var s', n := Submitted(s, id, deadline, repeat), |s.starts|;
    forall i | Waits(s', i) ensures AtHome(s', i) {
      assert i != id ==> Waits(s, i) && AtHome(s, i);
    }
    forall k | k in s'.home ensures HasHome(s', k) {
      assert k != n ==> k in s.home && HasHome(s, k);
    }
    forall k: Serial ensures Ends(s', k) == if k < |s'.starts| && k !in s'.home then 1 else 0 {
      assert Ends(s, k) == if k < |s.starts| && k !in s.home then 1 else 0;
    }
  }

  /** timer_free of a struct that was just taken off heap or ready list. */
  function Released(s: State, id: Id): State {
    if |s.pool| < POOL_MAX then s.(activeHandles := s.activeHandles - 1, pool := [id] + s.pool)
    else s.(activeHandles := s.activeHandles - 1, timers := s.timers - {id})
  }

  function Stopped(s: State, id: Id): State
    requires id in s.timers
  {
    s.(heap := s.heap - {id}, stopped := s.stopped + multiset{s.timers[id].serial},
       home := s.home - {s.timers[id].serial}, timers := s.timers[id := s.timers[id].(inHeap := false)])
  }

  lemma StopKeepsShape(s: State, id: Id)
    requires Shape(s) && id in s.heap
    ensures Shape(Released(Stopped(s, id), id))
  {
  }

  lemma ReleaseKeepsLifecycle(s: State, id: Id)
    requires Lifecycle(s) && id !in s.heap && id !in s.ready
    ensures Lifecycle(Released(s, id))
  {
    var s' := Released(s, id);
    forall i | Waits(s', i) ensures AtHome(s', i) {
      assert Waits(s, i) && AtHome(s, i);
    }
    forall k | k in s'.home ensures HasHome(s', k) {
      assert HasHome(s, k);
    }
    forall k: Serial ensures Ends(s', k) == if k < |s'.starts| && k !in s'.home then 1 else 0 {
      assert Ends(s, k) == if k < |s.starts| && k !in s.home then 1 else 0;
    }
  }

  function Cancelled(s: State, id: Id): State
    requires id in s.timers
  {
    s.(heap := s.heap - {id}, cancelled := s.cancelled + multiset{s.timers[id].serial},
       home := s.home - {s.timers[id].serial})
  }

  /** Off the heap by a stop or by destroy. */
  lemma TakeOffKeepsLifecycle(s: State, id: Id, s': State)
    requires Lifecycle(s) && id in s.timers && id in s.heap && id !in s.ready
    requires s' == Stopped(s, id) || s' == Cancelled(s, id)
    ensures Lifecycle(s')
  {
    assert Waits(s, id) && AtHome(s, id);
    forall i | Waits(s', i) ensures AtHome(s', i) {
      assert Waits(s, i) && AtHome(s, i);
    }
    forall k | k in s'.home ensures HasHome(s', k) {
      assert k in s.home && HasHome(s, k);
    }
    forall k: Serial ensures Ends(s', k) == if k < |s'.starts| && k !in s'.home then 1 else 0 {
      assert Ends(s, k) == if k < |s.starts| && k !in s.home then 1 else 0;
    }
  }

  // ---------- Firing ----------

  function Popped(s: State, id: Id): State
    requires id in s.timers
  {
    s.(heap := s.heap - {id}, ready := s.ready + [id],
       timers := s.timers[id := s.timers[id].(fired := true, inHeap := false)])
  }

  lemma PopKeepsShape(s: State, id: Id)
    requires Shape(s) && id in s.heap
    ensures Shape(Popped(s, id))
  {
  }

  lemma PopKeepsLifecycle(s: State, id: Id)
    requires Lifecycle(s) && id in s.timers && id in s.heap
    ensures Lifecycle(Popped(s, id))
  {
    var s' := Popped(s, id);
    forall i | Waits(s', i) ensures AtHome(s', i) {
      assert Waits(s, i) && AtHome(s, i);
    }
    forall k | k in s'.home ensures HasHome(s', k) {
      assert HasHome(s, k);
    }
    forall k: Serial ensures Ends(s', k) == if k < |s'.starts| && k !in s'.home then 1 else 0 {
      assert Ends(s, k) == if k < |s.starts| && k !in s.home then 1 else 0;
    }
  }

  /** Re-armed before its callback runs. */
  function FiredAgain(s: State, id: Id): State
    requires s.ready != [] && id in s.timers
  {
    s.(ready := s.ready[1..], heap := s.heap + {id}, timers := s.timers[id := Rearmed(s.timers[id])],
       log := s.log + [Expected(id, s.timers[id])])
  }

  /** Taken off before its callback runs; `Released` gives the struct back. */
  function FiredOnce(s: State, id: Id): State
    requires s.ready != [] && id in s.timers
  {
    s.(ready := s.ready[1..], log := s.log + [Expected(id, s.timers[id])], home := s.home - {s.timers[id].serial})
  }

  lemma FireAgainKeepsShape(s: State, id: Id)
    requires Shape(s) && s.ready != [] && id == s.ready[0]
    ensures Shape(FiredAgain(s, id))
  {
    WithoutHead(s.ready);
  }

  lemma FireOnceKeepsShape(s: State, id: Id)
    requires Shape(s) && s.ready != [] && id == s.ready[0]
    ensures Shape(Released(FiredOnce(s, id), id))
  {
    WithoutHead(s.ready);
  }

  lemma FireAgainKeepsLifecycle(s: State, id: Id)
    requires Lifecycle(s) && s.ready != [] && Distinct(s.ready) && id == s.ready[0] && id in s.timers
    requires s.timers[id].repeat > 0
    ensures Lifecycle(FiredAgain(s, id))
  {
    hide FiredOf;
    var s' := FiredAgain(s, id);
    WithoutHead(s.ready);
    FiredOfAppend(s.log, Expected(id, s.timers[id]));
    assert Waits(s, id) && AtHome(s, id);
    forall i | Waits(s', i) ensures AtHome(s', i) {
      assert Waits(s, i) && AtHome(s, i);
    }
    forall k | k in s'.home ensures HasHome(s', k) {
      assert HasHome(s, k);
    }
    forall k: Serial ensures Ends(s', k) == if k < |s'.starts| && k !in s'.home then 1 else 0 {
      assert Ends(s, k) == if k < |s.starts| && k !in s.home then 1 else 0;
    }
  }

  lemma FireOnceKeepsLifecycle(s: State, id: Id)
    requires Lifecycle(s) && s.ready != [] && Distinct(s.ready) && id == s.ready[0] && id in s.timers && id !in s.heap
    requires s.timers[id].repeat == 0
    ensures Lifecycle(FiredOnce(s, id))
  {
    hide FiredOf;
    var s' := FiredOnce(s, id);
    WithoutHead(s.ready);
    FiredOfAppend(s.log, Expected(id, s.timers[id]));
    assert Waits(s, id) && AtHome(s, id);
    forall i | Waits(s', i) ensures AtHome(s', i) {
      assert Waits(s, i) && AtHome(s, i);
    }
    forall k | k in s'.home ensures HasHome(s', k) {
      assert k in s.home && HasHome(s, k);
    }
    forall k: Serial ensures Ends(s', k) == if k < |s'.starts| && k !in s'.home then 1 else 0 {
      assert Ends(s, k) == if k < |s.starts| && k !in s.home then 1 else 0;
    }
  }

  /** A struct with the earliest deadline, as the heap's pop delivers it. */
  predicate Earliest(timers: map<Id, Timer>, heap: set<Id>, id: Id) {
    && id in heap && id in timers
    && forall i :: i in heap && i in timers ==> timers[id].deadline <= timers[i].deadline
  }

  predicate IsDue(timers: map<Id, Timer>, heap: set<Id>, now: nat, id: Id) {
    id in heap && id in timers && timers[id].deadline <= now
  }

  predicate Sorted(timers: map<Id, Timer>, ids: seq<Id>) {
    forall i, j :: 0 <= i < j < |ids| && ids[i] in timers && ids[j] in timers ==>
      timers[ids[i]].deadline <= timers[ids[j]].deadline
  }

  /** The pops so far have moved due timers of `was` from the heap to the ready list. */
  ghost predicate Collected(was: State, s: State, now: nat) {
    && s == was.(heap := s.heap, ready := s.ready, timers := s.timers)
    && s.timers.Keys == was.timers.Keys && s.heap <= was.heap <= was.timers.Keys
    && (forall id :: id in s.ready <==> id in was.heap && id !in s.heap)
    && (forall id :: id in s.ready ==> IsDue(was.timers, was.heap, now, id) && s.timers[id] == Taken(was.timers[id]))
    && (forall id :: id in s.timers && id !in s.ready ==> s.timers[id] == was.timers[id])
  }

  /** They came in deadline order, and nothing left in the heap is earlier. */
  ghost predicate InOrder(timers: map<Id, Timer>, heap: set<Id>, ready: seq<Id>) {
    && Sorted(timers, ready)
    && (forall i, j :: i in ready && j in heap && i in timers && j in timers ==> timers[i].deadline <= timers[j].deadline)
  }

  function Taken(t: Timer): Timer {
    t.(fired := true, inHeap := false)
  }

  lemma CollectStep(was: State, s: State, now: nat, id: Id)
    requires Collected(was, s, now) && id in s.heap && s.timers[id].deadline <= now
    ensures Collected(was, Popped(s, id), now) && s.timers[id] == was.timers[id]
  {
    assert forall i :: i in Popped(s, id).ready <==> i in s.ready || i == id;
    assert id !in s.ready;
  }

  lemma OrderStep(timers: map<Id, Timer>, heap: set<Id>, ready: seq<Id>, id: Id)
    requires InOrder(timers, heap, ready) && Earliest(timers, heap, id)
    ensures InOrder(timers, heap - {id}, ready + [id])
  {
  }

  lemma EarliestAlike(was: State, s: State, now: nat, id: Id)
    requires Collected(was, s, now) && Earliest(s.timers, s.heap, id)
    ensures Earliest(was.timers, s.heap, id)
  {
    assert forall i :: i in s.heap ==> i !in s.ready && s.timers[i] == was.timers[i];
  }

  /** The firings are those of the due timers: each once, in deadline order, re-armed as it should be. */
  ghost predicate FiresDue(was: State, now: nat, fs: seq<Firing>) {
    && (forall k :: 0 <= k < |fs| ==>
          IsDue(was.timers, was.heap, now, fs[k].id) && fs[k] == Expected(fs[k].id, was.timers[fs[k].id]))
    && (forall id :: IsDue(was.timers, was.heap, now, id) ==> exists k :: 0 <= k < |fs| && fs[k].id == id)
    && (forall j, k :: 0 <= j < k < |fs| ==> fs[j].id != fs[k].id && fs[j].deadline <= fs[k].deadline)
  }

  /** What the fire loop has done after `n` of the timers in `order`. */
  ghost predicate FiredSome(was: State, s: State, order: seq<Id>, n: nat) {
    && n <= |order| && s.ready == order[n..] && |s.log| == |was.log| + n && was.log <= s.log
    && (forall k :: 0 <= k < n ==>
          order[k] in was.timers && s.log[|was.log| + k] == Expected(order[k], was.timers[order[k]]))
    && (forall id :: id in s.ready ==> id in s.timers && id in was.timers && s.timers[id] == Taken(was.timers[id]))
  }

  lemma DueIsCollected(was: State, c: State, now: nat, id: Id)
    requires Collected(was, c, now) && (forall i :: i in c.heap ==> i in c.timers && c.timers[i].deadline > now)
    requires IsDue(was.timers, was.heap, now, id)
    ensures id in c.ready
  {
    assert id in c.timers;
  }

  lemma AllFired(was: State, c: State, s: State, now: nat, n: nat)
    requires Collected(was, c, now) && Distinct(c.ready) && Sorted(was.timers, c.ready)
    requires forall id :: id in c.heap ==> id in c.timers && c.timers[id].deadline > now
    requires FiredSome(was, s, c.ready, n) && s.ready == []
    ensures was.log <= s.log && |s.log| == |was.log| + n && FiresDue(was, now, s.log[|was.log|..])
  {
    var fs, order := s.log[|was.log|..], c.ready;
    forall k | 0 <= k < |fs|
      ensures IsDue(was.timers, was.heap, now, order[k]) && fs[k] == Expected(order[k], was.timers[order[k]])
    {
      assert order[k] in c.ready && fs[k] == s.log[|was.log| + k];
    }
    forall id | IsDue(was.timers, was.heap, now, id) ensures exists k :: 0 <= k < |fs| && fs[k].id == id {
      DueIsCollected(was, c, now, id);
      var k :| 0 <= k < |order| && order[k] == id;
      assert fs[k].id == id;
    }
    hide Collected, FiredSome;
  }

  /** The callbacks leave the timers that are about to fire alone. */
  ghost predicate KeepsReady(s: State, s': State) {
    && s'.ready == s.ready && s'.log == s.log && s.starts <= s'.starts
    && forall id :: id in s.ready && id in s.timers ==> id in s'.timers && s'.timers[id] == s.timers[id]
  }

  lemma SubmitKeepsReady(s: State, a: State, id: Id, deadline: nat, repeat: nat)
    requires id !in s.ready && Allocates(s, a, id)
    ensures KeepsReady(s, Submitted(a, id, deadline, repeat))
  {
  }

  lemma StopKeepsReady(s: State, id: Id)
    requires id in s.timers
    ensures id !in s.ready ==> KeepsReady(s, Released(Stopped(s, id), id))
    ensures KeepsReady(s, s)
  {
  }

  lemma NoneFiredYet(was: State, c: State, now: nat)
    requires Collected(was, c, now)
    ensures FiredSome(was, c, c.ready, 0)
  {
  }

  lemma KeptReady(was: State, s: State, s': State, order: seq<Id>, n: nat)
    requires FiredSome(was, s, order, n) && KeepsReady(s, s')
    ensures FiredSome(was, s', order, n)
  {
  }

  /** The first of the ready list is re-armed or given back, and its callback is due. */
  function Fired(s: State): State
    requires s.ready != [] && s.ready[0] in s.timers
  {
    var id := s.ready[0];
    if s.timers[id].repeat > 0 then FiredAgain(s, id) else Released(FiredOnce(s, id), id)
  }

  lemma FireKeepsAll(s: State)
    requires Shape(s) && Lifecycle(s) && s.ready != []
    ensures s.ready[0] in s.timers && Shape(Fired(s)) && Lifecycle(Fired(s))
  {
    var id := s.ready[0];
    assert id in s.timers && id !in s.heap && Distinct(s.ready);
    WithoutHead(s.ready);
    hide Shape, Lifecycle;
    if s.timers[id].repeat > 0 {
      FireAgainKeepsShape(s, id);
      FireAgainKeepsLifecycle(s, id);
    } else {
      FireOnceKeepsShape(s, id);
      FireOnceKeepsLifecycle(s, id);
      ReleaseKeepsLifecycle(FiredOnce(s, id), id);
    }
  }

  lemma FiredOneMore(was: State, s: State, order: seq<Id>, n: nat)
    requires FiredSome(was, s, order, n) && s.ready != [] && Distinct(order) && s.ready[0] in s.timers
    ensures FiredSome(was, Fired(s), order, n + 1)
  {
    var s' := Fired(s);
    assert s.ready[0] == order[n] && s'.ready == order[n + 1..];
    assert s.ready[0] !in s'.ready;
  }

  lemma HeapHasTimers(s: State)
    requires Shape(s)
    ensures forall id :: id in s.heap ==> id in s.timers
    ensures s.ready == [] ==> forall now :: Collected(s, s, now)
  {
  }

  lemma PopOne(was: State, s: State, now: nat, id: Id)
    requires Shape(s) && Lifecycle(s) && Collected(was, s, now) && InOrder(was.timers, s.heap, s.ready)
    requires Earliest(s.timers, s.heap, id) && s.timers[id].deadline <= now
    ensures var s' := Popped(s, id);
            Shape(s') && Lifecycle(s') && Collected(was, s', now) && InOrder(was.timers, s'.heap, s'.ready)
  {
    hide Shape, Lifecycle, Collected, InOrder;
    EarliestAlike(was, s, now, id);
    CollectStep(was, s, now, id);
    OrderStep(was.timers, s.heap, s.ready, id);
    PopKeepsShape(s, id);
    PopKeepsLifecycle(s, id);
  }

  lemma Placed(s: State, id: Id)
    requires Shape(s) && id in s.timers
    ensures (s.timers[id].fired || !s.timers[id].inHeap) <==> id !in s.heap
    ensures id in s.heap ==> id !in s.ready
  {
  }

  /** The heap holds these structs, with the deadlines they record. */
  ghost predicate Holds(due: map<Id, nat>, heap: set<Id>, timers: map<Id, Timer>) {
    due.Keys == heap && forall id :: id in heap ==> id in timers && due[id] == timers[id].deadline
  }

  lemma HoldsMore(due: map<Id, nat>, heap: set<Id>, timers: map<Id, Timer>, id: Id, t: Timer)
    requires Holds(due, heap, timers)
    ensures Holds(due[id := t.deadline], heap + {id}, timers[id := t])
  {
  }

  lemma HoldsLess(due: map<Id, nat>, heap: set<Id>, timers: map<Id, Timer>, id: Id)
    requires Holds(due, heap, timers)
    ensures Holds(due - {id}, heap - {id}, timers)
  {
  }

  class TimerLoop {
    const queue: TimerQueue.Queue      // timer_heap
    var time: nat
    var sources: nat
    var activeHandles: int
    var timers: map<Id, Timer>
    var nextId: Id
    ghost var heap: set<Id>            // the structs in `queue`
    var ready: seq<Id>
    var pool: seq<Id>
    var poolLen: nat                   // timer_nfree
    var starts: seq<nat>
    var log: seq<Firing>
    var stopped: multiset<Serial>
    var cancelled: multiset<Serial>
    ghost var home: map<Serial, Id>

    ghost function Now(): State
      reads this
    {
      State(sources, activeHandles, timers, nextId, heap, ready, pool, starts, log, stopped, cancelled, home)
    }

    ghost predicate Linked()
      reads this`heap, this`timers, queue, queue.repr
    {
      queue.Valid() && Holds(queue.due, heap, timers)
    }

    ghost predicate Valid()
      reads this, queue, queue.repr
    {
      poolLen == |pool| && Linked() && this !in queue.repr && Shape(Now()) && Lifecycle(Now())
    }

    constructor ()
      ensures Valid() && fresh(queue.repr) && heap == {} && ready == [] && pool == []
      ensures log == [] && cancelled == multiset{}
    {
      queue := new TimerQueue.Queue();
      time, sources, activeHandles, timers, nextId := 0, 0, 0, map[], 0;
      heap, ready, pool, poolLen := {}, [], [], 0;
      starts, log, stopped, cancelled, home := [], [], multiset{}, multiset{}, map[];
    }

    // ---------- The heap and the structs in it ----------

    method Enter(id: Id, t: Timer)
      requires Linked() && this !in queue.repr && id !in heap
      modifies this`timers, this`heap, queue.repr
      ensures Linked() && fresh(queue.repr - old(queue.repr))
      ensures timers == old(timers)[id := t] && heap == old(heap) + {id}
    {
      hide TimerQueue.Queue.Valid;
      HoldsMore(queue.due, heap, timers, id, t);
      queue.Insert(id, t.deadline);
      timers := timers[id := t];
      heap := heap + {id};
    }

    method Leave(id: Id)
      requires Linked() && this !in queue.repr && id in heap
      modifies this`heap, queue.repr
      ensures Linked() && fresh(queue.repr - old(queue.repr)) && heap == old(heap) - {id}
    {
      hide TimerQueue.Queue.Valid;
      HoldsLess(queue.due, heap, timers, id);
      queue.Remove(id);
      heap := heap - {id};
    }

    method TakeEarliest() returns (id: Id)
      requires Linked() && this !in queue.repr && heap != {}
      modifies this`heap, queue.repr
      ensures Linked() && fresh(queue.repr - old(queue.repr)) && heap == old(heap) - {id}
      ensures Earliest(timers, old(heap), id)
    {
      hide TimerQueue.Queue.Valid;
      ghost var due := queue.due;
      id := queue.Pop();
      HoldsLess(due, heap, timers, id);
      heap := heap - {id};
    }

    method PeekEarliest() returns (id: Option<Id>)
      requires Linked()
      ensures if id.None? then heap == {} else Earliest(timers, heap, id.value)
    {
      hide TimerQueue.Queue.Valid;
      var empty := queue.IsEmpty();
      if empty {
        return None;
      }
      var first := queue.First();
      id := Some(first);
    }

    /** Writes a struct that is not in the heap. */
    method Store(id: Id, t: Timer)
      requires Linked() && this !in queue.repr && id !in heap
      modifies this`timers
      ensures Linked() && timers == old(timers)[id := t]
    {
      hide TimerQueue.Queue.Valid;
      timers := timers[id := t];
    }

    // ---------- The operations of the loop ----------

    method SetTime(now: nat)
      requires Valid()
      modifies this`time
      ensures Valid() && time == now
    {
      hide Shape, Lifecycle, TimerLoop.Linked;
      time := now;
    }

    method AddSource()
      requires Valid()
      modifies this`sources, this`activeHandles
      ensures Valid() && sources == old(sources) + 1
    {
      hide Shape, Lifecycle, TimerLoop.Linked;
      SourcesAreNoMatter(Now(), sources + 1);
      sources, activeHandles := sources + 1, activeHandles + 1;
    }

    method RemoveSource()
      requires Valid()
      modifies this`sources, this`activeHandles
      ensures Valid() && sources == if old(sources) > 0 then old(sources) - 1 else 0
    {
      hide Shape, Lifecycle, TimerLoop.Linked;
      if sources > 0 {
        SourcesAreNoMatter(Now(), sources - 1);
        sources, activeHandles := sources - 1, activeHandles - 1;
      }
    }

    /** timer_alloc: a struct that is in use nowhere, out of the pool if that has any. */
    method Alloc() returns (id: Id)
      requires poolLen == |pool| && Shape(Now())
      modifies this`pool, this`poolLen, this`nextId
      ensures poolLen == |pool| <= POOL_MAX && Distinct(pool) && Allocates(old(Now()), Now(), id)
      ensures id !in heap && id !in ready && id !in pool && (id in timers <==> old(pool) != [])
    {
      hide Shape;
      if pool != [] {
        id := pool[0];
        pool, poolLen := pool[1..], poolLen - 1;
      } else {
        id := nextId;
        nextId := nextId + 1;
      }
      AllocatedIsUnused(old(Now()), Now(), id);
    }

    /** timer_free: the struct stays allocated, for reuse, exactly if the pool has room. */
    method Release(id: Id)
      requires poolLen == |pool| <= POOL_MAX && Distinct(pool) && id in timers && id !in pool && id !in heap
      requires Linked() && this !in queue.repr
      modifies this`activeHandles, this`pool, this`poolLen, this`timers
      ensures poolLen == |pool| <= POOL_MAX && Distinct(pool) && Linked() && Now() == Released(old(Now()), id)
      ensures id in timers <==> |old(pool)| < POOL_MAX
      ensures id in pool <==> |old(pool)| < POOL_MAX
    {
      hide TimerQueue.Queue.Valid;
      activeHandles := activeHandles - 1;
      if poolLen < POOL_MAX {
        pool, poolLen := [id] + pool, poolLen + 1;
      } else {
        timers := timers - {id};
      }
    }

    /** The rest of submit_timer, once it has its struct. */
    method Arm(id: Id, deadline: nat, repeat: nat)
      requires Linked() && this !in queue.repr && id !in heap
      modifies this`activeHandles, this`timers, this`heap, this`starts, this`home, queue.repr
      ensures Linked() && fresh(queue.repr - old(queue.repr)) && Now() == Submitted(old(Now()), id, deadline, repeat)
    {
      hide TimerLoop.Linked;
      activeHandles := activeHandles + 1;
      Enter(id, Timer(deadline, repeat, |starts|, false, true));
      home := home[|starts| := id];
      starts := starts + [repeat];
    }

    /** submit_timer. */
    method Submit(deadline: nat, repeat: nat) returns (id: Id)
      requires Valid()
      modifies this`activeHandles, this`pool, this`poolLen, this`timers, this`nextId, this`heap, this`starts, this`home,
               queue.repr
      ensures Valid() && fresh(queue.repr - old(queue.repr)) && id !in old(heap) && KeepsReady(old(Now()), Now())
      ensures Now() == Submitted(old(Now()).(pool := pool, nextId := nextId), id, deadline, repeat)
      ensures Allocates(old(Now()), old(Now()).(pool := pool, nextId := nextId), id)
    {
      hide Shape, Lifecycle, KeepsReady, TimerLoop.Linked, Submitted;
      id := Alloc();
      ghost var a := Now();
      SubmitKeepsShape(old(Now()), a, id, deadline, repeat);
      PoolIsNoMatter(old(Now()), a);
      SubmitKeepsLifecycle(a, id, deadline, repeat);
      SubmitKeepsReady(old(Now()), a, id, deadline, repeat);
      Arm(id, deadline, repeat);
    }

    /** timer_stop_direct: refuses a timer that is not in the heap, be it one about to fire. */
    method StopDirect(id: Id) returns (ok: bool)
      requires Valid() && id in timers
      modifies this`activeHandles, this`pool, this`poolLen, this`timers, this`heap, this`stopped, this`home, queue.repr
      ensures Valid() && fresh(queue.repr - old(queue.repr)) && KeepsReady(old(Now()), Now())
      ensures ok <==> id in old(heap)
      ensures Now() == if ok then Released(Stopped(old(Now()), id), id) else old(Now())
    {
      hide Shape, Lifecycle, KeepsReady, TimerLoop.Linked;
      Placed(Now(), id);
      StopKeepsReady(Now(), id);
      if timers[id].fired || !timers[id].inHeap {
        return false;
      }
      StopKeepsShape(Now(), id);
      TakeOffKeepsLifecycle(Now(), id, Stopped(Now(), id));
      PoolFacts(Now());
      Leave(id);
      stopped := stopped + multiset{timers[id].serial};
      home := home - {timers[id].serial};
      Store(id, timers[id].(inHeap := false));
      ReleaseKeepsLifecycle(Now(), id);
      Release(id);
      ok := true;
    }

    /**
     A timer stopped and another started: the handle of the stopped one names the new one if
     and only if the pool had room.
     */
    method StopThenStart(id: Id, deadline: nat, repeat: nat) returns (again: Id)
      requires Valid() && id in heap && id in timers
      modifies this`activeHandles, this`pool, this`poolLen, this`timers, this`nextId, this`heap, this`starts,
               this`stopped, this`home, queue.repr
      ensures Valid() && fresh(queue.repr - old(queue.repr)) && again in heap
      ensures again == id <==> |old(pool)| < POOL_MAX
    {
      hide Shape, Lifecycle, KeepsReady, TimerLoop.Linked, Released, Allocates;
      ghost var was := Now();
      PoolFacts(was);
      var ok := StopDirect(id);
      again := Submit(deadline, repeat);
      ReleasedIsReused(Stopped(was, id), id, Released(Stopped(was, id), id).(pool := pool, nextId := nextId), again);
    }

    /** A callback: it starts timers and stops any struct it can still name. */
    method Callback(ops: seq<Op>)
      requires Valid()
      modifies this`activeHandles, this`pool, this`poolLen, this`timers, this`nextId, this`heap, this`starts,
               this`stopped, this`home, queue.repr
      ensures Valid() && fresh(queue.repr - old(queue.repr)) && ready == old(ready) && KeepsReady(old(Now()), Now())
    {
      hide Shape, Lifecycle, TimerLoop.Linked;
      for i := 0 to |ops|
        invariant Valid() && fresh(queue.repr - old(queue.repr)) && KeepsReady(old(Now()), Now())
      {
        match ops[i]
        case Start(deadline, repeat) =>
          var id := Submit(deadline, repeat);
        case Stop(id) =>
          if id in timers {
            var ok := StopDirect(id);
          }
      }
    }

    /** The first loop of loop_run_timers: every due timer goes to the ready list. */
    method Collect()
      requires Valid() && ready == []
      modifies this`heap, this`ready, this`timers, queue.repr
      ensures Valid() && fresh(queue.repr - old(queue.repr))
      ensures Collected(old(Now()), Now(), time) && Sorted(old(timers), ready)
      ensures forall id :: id in heap ==> id in timers && timers[id].deadline > time
    {
      hide Shape, Lifecycle, Collected, Earliest, TimerLoop.Linked;
      ghost var was := Now();
      HeapHasTimers(was);
      var done := false;
      while !done
        invariant Valid() && fresh(queue.repr - old(queue.repr))
        invariant Collected(was, Now(), time) && InOrder(was.timers, heap, ready)
        invariant done ==> forall id :: id in heap ==> id in timers && timers[id].deadline > time
        decreases !done, heap
      {
        done := CollectNext(was);
      }
      Ordered(was.timers, heap, ready);
    }

    /** One turn of that loop: the earliest timer, or none that is due. */
    method CollectNext(ghost was: State) returns (done: bool)
      requires Valid() && Collected(was, Now(), time) && InOrder(was.timers, heap, ready)
      modifies this`heap, this`ready, this`timers, queue.repr
      ensures Valid() && fresh(queue.repr - old(queue.repr))
      ensures Collected(was, Now(), time) && InOrder(was.timers, heap, ready)
      ensures done ==> heap == old(heap) && forall id :: id in heap ==> id in timers && timers[id].deadline > time
      ensures !done ==> heap < old(heap)
    {
      hide Shape, Lifecycle, Collected, InOrder, TimerLoop.Linked;
      var first := PeekEarliest();
      if first.None? || timers[first.value].deadline > time {
        HeapHasTimers(Now());
        return true;
      }
      ghost var before := Now();
      var id := TakeEarliest();
      PopOne(was, before, time, id);
      Store(id, timers[id].(fired := true, inHeap := false));
      ready := ready + [id];
      done := false;
    }

    /**
     One turn of the second loop, up to the callback. The struct that `fn` is then read from
     is still allocated if and only if it was re-armed or the pool had room for it.
     */
    method FireFirst()
      requires Valid() && ready != []
      modifies this`activeHandles, this`pool, this`poolLen, this`timers, this`heap, this`ready, this`log, this`home,
               queue.repr
      ensures Valid() && fresh(queue.repr - old(queue.repr)) && ready == old(ready)[1..]
      ensures old(ready)[0] in old(timers) && Now() == Fired(old(Now()))
      ensures old(ready)[0] in timers <==> old(timers)[old(ready)[0]].repeat > 0 || |old(pool)| < POOL_MAX
    {
      hide Shape, Lifecycle, TimerLoop.Linked, Released, FiredOnce, FiredAgain;
      FireKeepsAll(Now());
      PoolFacts(Now());
      if timers[ready[0]].repeat > 0 {
        Rearm();
      } else {
        Retire();
      }
    }

    /** A repeating timer goes back into the heap, a period later. */
    method Rearm()
      requires Linked() && this !in queue.repr && ready != [] && ready[0] in timers && ready[0] !in heap
      requires timers[ready[0]].repeat > 0
      modifies this`timers, this`heap, this`ready, this`log, queue.repr
      ensures Linked() && fresh(queue.repr - old(queue.repr))
      ensures Now() == FiredAgain(old(Now()), old(ready)[0]) && old(ready)[0] in timers
      ensures ready == old(ready)[1..]
    {
      hide TimerLoop.Linked;
      var id := ready[0];
      var t := timers[id];
      ready := ready[1..];
      Enter(id, t.(deadline := (t.deadline + t.repeat) % UINT64, fired := false, inHeap := true));
      log := log + [Firing(id, t.serial, t.deadline, Some(timers[id].deadline))];
    }

    /** Any other is released before its callback runs. */
    method Retire()
      requires poolLen == |pool| <= POOL_MAX && Distinct(pool) && Linked() && this !in queue.repr
      requires ready != [] && ready[0] in timers && ready[0] !in pool && ready[0] !in heap
      requires timers[ready[0]].repeat == 0
      modifies this`activeHandles, this`pool, this`poolLen, this`timers, this`ready, this`log, this`home
      ensures poolLen == |pool| && Linked() && ready == old(ready)[1..]
      ensures Now() == Released(FiredOnce(old(Now()), old(ready)[0]), old(ready)[0])
      ensures old(ready)[0] in timers <==> |old(pool)| < POOL_MAX
    {
      hide TimerLoop.Linked, Released;
      var id := ready[0];
      var t := timers[id];
      ready := ready[1..];
      log := log + [Firing(id, t.serial, t.deadline, None)];
      home := home - {t.serial};
      Release(id);
    }

    /**
     loop_run_timers: fires exactly the timers due at entry, whatever their callbacks
     start and stop; `script(k)` is what the k-th callback does.
     */
    method RunTimers(script: nat -> seq<Op>) returns (dispatched: nat)
      requires Valid() && ready == []
      modifies this`activeHandles, this`pool, this`poolLen, this`timers, this`nextId, this`heap, this`ready, this`starts,
               this`log, this`stopped, this`home, queue.repr
      ensures Valid() && fresh(queue.repr - old(queue.repr))
      ensures ready == [] && old(log) <= log && dispatched == |log| - |old(log)|
      ensures FiresDue(old(Now()), time, log[|old(log)|..])
    {
      hide Shape, Lifecycle, Collected, FiredSome, FiresDue, KeepsReady, Fired, TimerLoop.Linked;
      ghost var was := Now();
      Collect();
      ghost var c := Now();
      NoneFiredYet(was, c, time);
      ReadyIsDistinct(c);
      dispatched := 0;
      while ready != []
        invariant Valid() && fresh(queue.repr - old(queue.repr))
        invariant Collected(was, c, time) && FiredSome(was, Now(), c.ready, dispatched)
        decreases |ready|
      {
        ghost var before := Now();
        FireFirst();
        FiredOneMore(was, before, c.ready, dispatched);
        ghost var fired := Now();
        Callback(script(dispatched));
        KeptReady(was, fired, Now(), c.ready, dispatched + 1);
        dispatched := dispatched + 1;
      }
      AllFired(was, c, Now(), time, dispatched);
    }

    /**
     timer_heap_destroy and timer_pool_destroy: everything that still waits is cancelled,
     each struct freed, and by now every timer ever started has ended exactly once.
     */
    method Destroy()
      requires Valid() && ready == []
      modifies this`activeHandles, this`pool, this`poolLen, this`timers, this`heap, this`cancelled, this`home, queue.repr
      ensures timers == map[] && heap == {} && pool == [] && poolLen == 0 && activeHandles == sources
      ensures EachEndedOnce(starts, log, stopped, cancelled)
      ensures CancelsWaiting(old(home), old(cancelled), map[], cancelled)
    {
      hide EachEndedOnce, Lifecycle, Shape, TimerLoop.Linked, CancelsWaiting;
      DestroyHeap();
      AllEnded(Now());
      while pool != []
        invariant poolLen == |pool| && forall id :: id in timers ==> id in pool
        modifies this`timers, this`pool, this`poolLen
        decreases |pool|
      {
        assert pool == [pool[0]] + pool[1..];
        timers := timers - {pool[0]};
        pool, poolLen := pool[1..], poolLen - 1;
      }
    }

    method DestroyHeap()
      requires Valid() && ready == []
      modifies this`activeHandles, this`pool, this`poolLen, this`timers, this`heap, this`cancelled, this`home, queue.repr
      ensures heap == {} && poolLen == |pool| && activeHandles == sources && home == map[] && Lifecycle(Now())
      ensures forall id :: id in timers ==> id in pool
      ensures CancelsWaiting(old(home), old(cancelled), map[], cancelled)
    {
      hide Shape, Lifecycle, CancelsWaiting, HeapAndPool, TimerLoop.Linked;
      OnlyHeapAndPool(Now());
      var first := PeekEarliest();
      while first.Some?
        invariant poolLen == |pool| && Lifecycle(Now()) && HeapAndPool(Now()) && Linked() && this !in queue.repr
        invariant fresh(queue.repr - old(queue.repr))
        invariant CancelsWaiting(old(home), old(cancelled), home, cancelled)
        invariant first.None? <==> heap == {}
        decreases heap
      {
        CancelEarliest(old(home), old(cancelled));
        first := PeekEarliest();
      }
      InHeapAndPool(Now());
      NobodyWaits(Now());
    }

    /** Pop, on_cancel, timer_free. */
    method CancelEarliest(ghost was: map<Serial, Id>, ghost before: multiset<Serial>)
      requires poolLen == |pool| && Lifecycle(Now()) && HeapAndPool(Now()) && Linked() && this !in queue.repr && heap != {}
      requires CancelsWaiting(was, before, home, cancelled)
      modifies this`activeHandles, this`pool, this`poolLen, this`timers, this`heap, this`cancelled, this`home, queue.repr
      ensures poolLen == |pool| && Lifecycle(Now()) && HeapAndPool(Now()) && Linked() && this !in queue.repr && heap < old(heap)
      ensures fresh(queue.repr - old(queue.repr)) && CancelsWaiting(was, before, home, cancelled)
    {
      hide Lifecycle, CancelsWaiting, HeapAndPool, Released, TimerLoop.Linked;
      InHeapAndPool(Now());
      var id := TakeEarliest();
      CancelOne(old(Now()), id, was, before);
      cancelled := cancelled + multiset{timers[id].serial};
      home := home - {timers[id].serial};
      Release(id);
    }
  }

  lemma Ordered(timers: map<Id, Timer>, heap: set<Id>, ready: seq<Id>)
    requires InOrder(timers, heap, ready)
    ensures Sorted(timers, ready)
  {
  }

  lemma PoolFacts(s: State)
    requires Shape(s)
    ensures Distinct(s.pool) && |s.pool| <= POOL_MAX
    ensures forall id :: id in s.heap ==> id !in s.pool && id !in s.ready
    ensures forall id :: id in s.ready ==> id in s.timers && id !in s.pool && id !in s.heap
  {
  }

  /** A struct just allocated is in use nowhere; the pool keeps the others. */
  lemma AllocatedIsUnused(s: State, a: State, id: Id)
    requires Shape(s) && Allocates(s, a, id)
    ensures id !in s.heap && id !in s.ready && id !in a.pool && (id in s.timers <==> s.pool != [])
    ensures Distinct(a.pool) && |a.pool| <= POOL_MAX && forall x :: x in s.pool ==> x == id || x in a.pool
  {
    if s.pool != [] {
      WithoutHead(s.pool);
    }
  }

  /** Releasing and allocating again gives the same struct, unless the pool was full and the struct is gone. */
  lemma ReleasedIsReused(s: State, id: Id, a: State, again: Id)
    requires |s.pool| <= POOL_MAX && id !in s.pool && Allocates(Released(s, id), a, again)
    ensures again == id <==> |s.pool| < POOL_MAX
    ensures if |s.pool| < POOL_MAX then a.pool == s.pool else id !in a.timers && again == s.pool[0]
  {
  }

  /** While the heap is torn down: every struct is in heap or pool. */
  ghost predicate HeapAndPool(s: State) {
    && s.ready == [] && s.activeHandles == s.sources + |s.heap| && Distinct(s.pool) && |s.pool| <= POOL_MAX
    && (forall id :: id in s.timers ==> id in s.heap || id in s.pool)
    && (forall id :: id in s.heap ==> id in s.timers && id !in s.pool)
  }

  /** What has left `home` since `was` has been cancelled once. */
  ghost predicate CancelsWaiting(was: map<Serial, Id>, before: multiset<Serial>, home: map<Serial, Id>, cancelled: multiset<Serial>) {
    forall k: Serial :: cancelled[k] + (if k in home then 1 else 0) == before[k] + (if k in was then 1 else 0)
  }

  lemma OnlyHeapAndPool(s: State)
    requires Shape(s) && s.ready == []
    ensures HeapAndPool(s) && CancelsWaiting(s.home, s.cancelled, s.home, s.cancelled)
  {
  }

  lemma InHeapAndPool(s: State)
    requires HeapAndPool(s)
    ensures s.ready == [] && s.activeHandles == s.sources + |s.heap| && Distinct(s.pool) && |s.pool| <= POOL_MAX
    ensures forall id :: id in s.heap ==> id in s.timers && id !in s.pool
    ensures s.heap == {} ==> forall id :: id in s.timers ==> id in s.pool
  {
  }

  lemma CancelOne(s: State, id: Id, was: map<Serial, Id>, before: multiset<Serial>)
    requires Lifecycle(s) && HeapAndPool(s) && id in s.heap && id in s.timers
    requires CancelsWaiting(was, before, s.home, s.cancelled)
    ensures var c := Cancelled(s, id); var s' := Released(c, id);
            Lifecycle(s') && HeapAndPool(s') && CancelsWaiting(was, before, c.home, c.cancelled)
  {
    SerialWaits(s, id);
    TakeOffKeepsLifecycle(s, id, Cancelled(s, id));
    ReleaseKeepsLifecycle(Cancelled(s, id), id);
    hide Lifecycle;
  }

  lemma SerialWaits(s: State, id: Id)
    requires Lifecycle(s) && id in s.timers && id in s.heap
    ensures s.timers[id].serial in s.home
  {
    assert Waits(s, id);
  }

  lemma NobodyWaits(s: State)
    requires Lifecycle(s) && s.heap == {} && s.ready == []
    ensures s.home == map[]
  {
    assert forall k :: k in s.home ==> s.home[k] in s.heap || s.home[k] in s.ready;
  }

  lemma AllEnded(s: State)
    requires Lifecycle(s) && s.home == map[]
    ensures EachEndedOnce(s.starts, s.log, s.stopped, s.cancelled)
  {
    forall k: Serial | k < |s.starts|
      ensures s.stopped[k] + s.cancelled[k] + (if s.starts[k] > 0 then 0 else FiredOf(s.log)[k]) == 1
    {
      assert Ends(s, k) == 1;
    }
  }

  /** A one-shot timer was fired, stopped or cancelled, once in all; a repeating one was stopped or cancelled. */
  ghost predicate EachEndedOnce(starts: seq<nat>, log: seq<Firing>, stopped: multiset<Serial>, cancelled: multiset<Serial>) {
    forall k: Serial :: k < |starts| ==>
      stopped[k] + cancelled[k] + (if starts[k] > 0 then 0 else FiredOf(log)[k]) == 1
  }

  /** What a program does with its loop. */
  datatype Call = Do(op: Op) | Run(now: nat, script: nat -> seq<Op>) | OpenSource | CloseSource

  /** Any calls before destroy: no timer is cancelled. */
  method Operate(calls: seq<Call>) returns (loop: TimerLoop)
    ensures fresh(loop) && fresh(loop.queue.repr) && loop.Valid() && loop.ready == [] && loop.cancelled == multiset{}
  {
    hide Shape, Lifecycle, KeepsReady, FiresDue, TimerLoop.Linked;
    loop := new TimerLoop();
    for i := 0 to |calls|
      invariant fresh(loop) && fresh(loop.queue.repr) && loop.Valid() && loop.ready == [] && loop.cancelled == multiset{}
    {
      match calls[i]
      case Do(op) => loop.Callback([op]);
      case Run(now, script) =>
        loop.SetTime(now);
        var n := loop.RunTimers(script);
      case OpenSource => loop.AddSource();
      case CloseSource => loop.RemoveSource();
    }
  }

  /**
   A whole life of the loop: any calls, then destroy, which cancels exactly the timers that
   still wait then.
   */
  method Lifetime(calls: seq<Call>) returns (loop: TimerLoop, ghost waiting: map<Serial, Id>)
    ensures fresh(loop) && loop.timers == map[] && loop.activeHandles == loop.sources
    ensures EachEndedOnce(loop.starts, loop.log, loop.stopped, loop.cancelled)
    ensures CancelsWaiting(waiting, multiset{}, map[], loop.cancelled)
    ensures forall k: Serial :: k < |loop.starts| ==> loop.cancelled[k] <= 1
  {
    hide Shape, Lifecycle, EachEndedOnce, CancelsWaiting, TimerLoop.Linked;
    loop := Operate(calls);
    waiting := loop.home;
    loop.Destroy();
    CancelledOnce(loop.Now());
  }

  lemma CancelledOnce(s: State)
    requires EachEndedOnce(s.starts, s.log, s.stopped, s.cancelled)
    ensures forall k: Serial :: k < |s.starts| ==> s.cancelled[k] <= 1
  {
  }

  lemma SourcesAreNoMatter(s: State, n: nat)
    requires Shape(s) && Lifecycle(s)
    ensures var s' := s.(sources := n, activeHandles := s.activeHandles + (n - s.sources)); Shape(s') && Lifecycle(s')
  {
    var s' := s.(sources := n, activeHandles := s.activeHandles + (n - s.sources));
    assert forall id :: Waits(s', id) == Waits(s, id);
    assert forall k :: Ends(s', k) == Ends(s, k);
    assert forall k :: k in s.home ==> HasHome(s, k) == HasHome(s', k);
    assert forall id :: id in s.timers ==> AtHome(s, id) == AtHome(s', id);
  }

  lemma ReadyIsDistinct(s: State)
    requires Shape(s)
    ensures Distinct(s.ready)
  {
  }

  lemma PoolIsNoMatter(s: State, s': State)
    requires Lifecycle(s) && s' == s.(pool := s'.pool, nextId := s'.nextId)
    ensures Lifecycle(s')
  {
    forall i | Waits(s', i) ensures AtHome(s', i) {
      assert Waits(s, i) && AtHome(s, i);
    }
    forall k | k in s'.home ensures HasHome(s', k) {
      assert HasHome(s, k);
    }
    forall k: Serial ensures Ends(s', k) == if k < |s'.starts| && k !in s'.home then 1 else 0 {
      assert Ends(s, k) == if k < |s.starts| && k !in s.home then 1 else 0;
    }
  }

  // ---------- A full pool ----------

  /** Every timer in the heap is a one-shot due at 1. */
  predicate OneShots(s: State) {
    forall id :: id in s.heap ==> id in s.timers && s.timers[id].repeat == 0 && s.timers[id].deadline == 1
  }

  lemma OneMoreShot(s: State, id: Id)
    requires OneShots(s)
    ensures OneShots(Submitted(s, id, 1, 0))
  {
  }

  lemma OneLessShot(s: State, id: Id)
    requires OneShots(s) && id in s.timers
    ensures OneShots(Released(Stopped(s, id), id)) && Released(Stopped(s, id), id).heap == s.heap - {id}
    ensures |s.pool| < POOL_MAX ==> |Released(Stopped(s, id), id).pool| == |s.pool| + 1
  {
  }

  /** Starts `n` one-shots on a loop with an empty pool. */
  method StartMany(loop: TimerLoop, n: nat) returns (ids: seq<Id>)
    requires loop.Valid() && loop.ready == [] && loop.heap == {} && loop.pool == []
    modifies loop, loop.queue.repr
    ensures loop.Valid() && fresh(loop.queue.repr - old(loop.queue.repr)) && loop.ready == [] && loop.pool == []
    ensures |ids| == n && Distinct(ids) && (forall k :: 0 <= k < n ==> ids[k] in loop.heap) && OneShots(loop.Now())
  {
    hide Shape, Lifecycle, KeepsReady, TimerLoop.Linked, OneShots;
    ids := [];
    assert OneShots(loop.Now()) by {
      NoShots(loop.Now());
    }
    for i := 0 to n
      invariant loop.Valid() && fresh(loop.queue.repr - old(loop.queue.repr)) && loop.ready == [] && loop.pool == []
      invariant |ids| == i && Distinct(ids) && (forall k :: 0 <= k < i ==> ids[k] in loop.heap) && OneShots(loop.Now())
    {
      ghost var was := loop.Now();
      var id := loop.Submit(1, 0);
      OneMoreShot(was.(pool := loop.pool, nextId := loop.nextId), id) by {
        SameShots(was, was.(pool := loop.pool, nextId := loop.nextId));
      }
      ids := ids + [id];
    }
  }

  lemma NoShots(s: State)
    requires s.heap == {}
    ensures OneShots(s)
  {
  }

  lemma SameShots(s: State, s': State)
    requires OneShots(s) && s'.heap == s.heap && s'.timers == s.timers
    ensures OneShots(s')
  {
  }

  /** Stops all but the last of them: the pool is full. */
  method StopMany(loop: TimerLoop, ids: seq<Id>)
    requires loop.Valid() && loop.ready == [] && loop.pool == [] && |ids| == POOL_MAX + 1 && Distinct(ids)
    requires (forall k :: 0 <= k < |ids| ==> ids[k] in loop.heap) && OneShots(loop.Now())
    modifies loop, loop.queue.repr
    ensures loop.Valid() && fresh(loop.queue.repr - old(loop.queue.repr)) && loop.ready == [] && |loop.pool| == POOL_MAX
    ensures ids[POOL_MAX] in loop.heap && OneShots(loop.Now())
  {
    hide Shape, Lifecycle, KeepsReady, TimerLoop.Linked, OneShots, Released, Stopped;
    for i := 0 to POOL_MAX
      invariant loop.Valid() && fresh(loop.queue.repr - old(loop.queue.repr)) && loop.ready == [] && |loop.pool| == i
      invariant (forall k :: i <= k < |ids| ==> ids[k] in loop.heap) && OneShots(loop.Now())
    {
      ghost var was := loop.Now();
      ShotsExist(was);
      var ok := loop.StopDirect(ids[i]);
      OneLessShot(was, ids[i]);
      StopLeavesReady(was, ids[i]);
    }
  }

  lemma ShotsExist(s: State)
    requires OneShots(s)
    ensures forall id :: id in s.heap ==> id in s.timers
  {
  }

  lemma StopLeavesReady(s: State, id: Id)
    requires id in s.timers
    ensures Released(Stopped(s, id), id).ready == s.ready
  {
  }

  /**
   257 one-shots are started, 256 stopped, and the last one fires: by the time its callback is
   read from its struct, the struct is freed.
   */
  method FiresFromFreed() returns (loop: TimerLoop, id: Id)
    ensures loop.log != [] && loop.log[|loop.log| - 1].id == id && id !in loop.timers
  {
    hide Shape, Lifecycle, KeepsReady, TimerLoop.Linked, OneShots, Collected, Sorted, Fired;
    loop := new TimerLoop();
    var ids := StartMany(loop, POOL_MAX + 1);
    StopMany(loop, ids);
    loop.SetTime(1);
    ghost var was := loop.Now();
    loop.Collect();
    FirstIsShot(was, loop.Now(), ids[POOL_MAX]);
    id := loop.ready[0];
    ghost var before := loop.Now();
    loop.FireFirst();
    FiredIsLogged(before);
  }

  lemma FirstIsShot(was: State, s: State, id: Id)
    requires Shape(was) && OneShots(was) && id in was.heap && was.ready == [] && Collected(was, s, 1)
    requires forall i :: i in s.heap ==> i in s.timers && s.timers[i].deadline > 1
    ensures s.ready != [] && s.ready[0] in s.timers && s.timers[s.ready[0]].repeat == 0 && s.pool == was.pool
  {
  }

  lemma FiredIsLogged(s: State)
    requires s.ready != [] && s.ready[0] in s.timers
    ensures var log := Fired(s).log; log != [] && log[|log| - 1].id == s.ready[0]
  {
  }
}
