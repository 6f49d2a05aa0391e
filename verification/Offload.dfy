/**
 Offloaded work: submitted and cancelled on the loop thread, executed by worker threads,
 handed back through the done queue and drained on the loop thread, with `inflight`
 counting who may still touch the loop. A state machine over the atomic steps of the
 loop thread and of any number of workers.

 `inflight` always is the number of items somebody still acts for, so a loop destroyed
 at zero is touched by nobody; every item is pushed at most once, and what is drained
 goes to exactly one of its two callbacks.
 */
module Offload {
  import opened Common

  type Id = nat

  /** The task of an item: still in the pool, in `offload_worker`, or taken back by a cancel. */
  datatype Task = Queued | Running | Pushed | Woken | Finished | TakenBack

  datatype Item = Item(
    task: Task,
    cancelled: bool,
    pushes: nat,         // onto the done queue
    dones: nat,          // calls of done_fn
    cancels: nat,        // calls of on_cancel
    drops: nat)          // freed unfired while the loop is torn down

  /** Where the loop thread stands. */
  datatype Pc =
    | Idle
    | Submitting(id: Id)      // inflight raised, before xTaskSubmit
    | Submitted(id: Id)       // before w->task = t
    | Cancelling(id: Id)      // cancelled set, before xTaskCancel
    | CancelPush(id: Id)      // took the task back, before the push
    | CancelWake(id: Id)
    | CancelDrop(id: Id)      // before it lowers inflight
    | WaitInflight            // loop_wait_inflight
    | Destroyed

  datatype State = State(
    inflight: int,
    items: map<Id, Item>,
    queue: seq<Id>,            // done queue
    pc: Pc,
    acting: set<Id>)           // history: raised and not yet lowered

  // ---------- Steps of a worker ----------

  function WithTask(s: State, id: Id, task: Task): State
    requires id in s.items
  {
    s.(items := s.items[id := s.items[id].(task := task)])
  }

  function PushItem(s: State, id: Id): State
    requires id in s.items
  {
    s.(queue := s.queue + [id], items := s.items[id := s.items[id].(pushes := s.items[id].pushes + 1)])
  }

  function Lower(s: State, id: Id): State {
    s.(inflight := s.inflight - 1, acting := s.acting - {id})
  }

  ghost predicate WorkerStep(s: State, s': State, id: Id) {
    && id in s.items
    && match s.items[id].task
       case Queued => s' == WithTask(s, id, Running)
       case Running => s' == WithTask(PushItem(s, id), id, Pushed)
       case Pushed => s' == WithTask(s, id, Woken)
       case Woken => s' == WithTask(Lower(s, id), id, Finished)
       case _ => false
  }

  // ---------- Steps of the loop thread ----------

  function Consumed(it: Item): nat {
    it.dones + it.cancels + it.drops
  }

  ghost predicate SubmitStep(s: State, s': State, id: Id) {
    match s.pc
    case Idle => id !in s.items && s' == s.(inflight := s.inflight + 1, acting := s.acting + {id}, pc := Submitting(id))
    case Submitting(x) =>
      || s' == s.(items := s.items[x := Item(Queued, false, 0, 0, 0, 0)], pc := Submitted(x))
      || s' == Lower(s, x).(pc := Idle)                                      // xTaskSubmit failed
    case Submitted(_) => s' == s.(pc := Idle)
    case _ => false
  }

  /** xWorkCancel, at most once on a handle whose item is not yet drained. */
  ghost predicate CancelStep(s: State, s': State, id: Id) {
    match s.pc
    case Idle =>
      && id in s.items && !s.items[id].cancelled && Consumed(s.items[id]) == 0
      && s' == s.(items := s.items[id := s.items[id].(cancelled := true)], pc := Cancelling(id))
    case Cancelling(x) =>
      && x in s.items
      && s' == if s.items[x].task.Queued? then WithTask(s, x, TakenBack).(pc := CancelPush(x)) else s.(pc := Idle)
    case CancelPush(x) => x in s.items && s' == PushItem(s, x).(pc := CancelWake(x))
    case CancelWake(x) => s' == s.(pc := CancelDrop(x))
    case CancelDrop(x) => s' == Lower(s, x).(pc := Idle)
    case _ => false
  }

  /** One item of loop_run_done; xTaskWait holds it back until the worker has returned. */
  ghost predicate DrainStep(s: State, s': State) {
    && s.pc.Idle? && s.queue != [] && s.queue[0] in s.items
    && var id, it := s.queue[0], s.items[s.queue[0]];
    && (it.cancelled || it.task.Finished?)
    && s' == s.(queue := s.queue[1..],
                items := s.items[id := if it.cancelled then it.(cancels := it.cancels + 1) else it.(dones := it.dones + 1)])
  }

  /** loop_wait_inflight frees queued items until inflight is seen at zero; then the loop is freed. */
  ghost predicate DestroyStep(s: State, s': State) {
    match s.pc
    case Idle => s' == s.(pc := WaitInflight)
    case WaitInflight =>
      || (s.inflight <= 0 && s' == s.(pc := Destroyed))
      || (s.queue != [] && s.queue[0] in s.items &&
          var id, it := s.queue[0], s.items[s.queue[0]];
          s' == s.(queue := s.queue[1..], items := s.items[id := it.(drops := it.drops + 1)]))
    case _ => false
  }

  ghost predicate LoopStep(s: State, s': State, id: Id) {
    SubmitStep(s, s', id) || CancelStep(s, s', id) || DrainStep(s, s') || DestroyStep(s, s')
  }

  // ---------- Runs ----------

  ghost predicate Init(s: State) {
    s == State(0, map[], [], Idle, {})
  }

  ghost predicate Step(s: State, s': State, id: Id) {
    WorkerStep(s, s', id) || LoopStep(s, s', id)
  }

  ghost predicate Next(s: State, s': State) {
    exists id :: Step(s, s', id)
  }

  ghost predicate StepAt(run: seq<State>, i: nat)
    requires i + 1 < |run|
  {
    Next(run[i], run[i + 1])
  }

  ghost predicate IsRun(run: seq<State>) {
    && |run| > 0
    && Init(run[0])
    && forall i: nat :: i + 1 < |run| ==> StepAt(run, i)
  }

  // ---------- The invariant ----------

  predicate ByWorker(t: Task) {
    t.Queued? || t.Running? || t.Pushed? || t.Woken?
  }

  predicate ByCanceller(pc: Pc, id: Id) {
    (pc.CancelPush? || pc.CancelWake? || pc.CancelDrop?) && pc.id == id
  }

  /** Somebody will still touch the loop for this item. */
  predicate Acts(s: State, id: Id) {
    (s.pc.Submitting? && s.pc.id == id) || (id in s.items && ByWorker(s.items[id].task)) || ByCanceller(s.pc, id)
  }

  predicate ItemFits(it: Item, id: Id, pc: Pc, queued: bool) {
    && it.pushes == (if it.task.Queued? || it.task.Running? || (it.task.TakenBack? && pc.CancelPush? && pc.id == id) then 0 else 1)
    && Consumed(it) + (if queued then 1 else 0) == it.pushes
    && (it.dones > 0 ==> !it.cancelled && it.task.Finished?)
    && (it.cancels > 0 ==> it.cancelled)
    && (ByCanceller(pc, id) ==> it.task.TakenBack?)
    && (it.task.TakenBack? || (pc.Cancelling? && pc.id == id) ==> it.cancelled)
  }

  /** `inflight` counts exactly the items somebody acts for. */
  ghost predicate Counted(s: State) {
    && s.inflight == |s.acting|
    && (forall id :: id in s.acting <==> Acts(s, id))
    && (s.pc.Destroyed? ==> s.inflight == 0)
  }

  ghost predicate Ordered(s: State) {
    && (forall id :: id in s.items ==> ItemFits(s.items[id], id, s.pc, id in s.queue))
    && (forall id :: id in s.queue ==> id in s.items)
    && Distinct(s.queue)
    && (s.pc.Submitting? ==> s.pc.id !in s.items)
    && (s.pc.Cancelling? || s.pc.CancelPush? || s.pc.CancelWake? || s.pc.CancelDrop? ==> s.pc.id in s.items)
  }

  ghost predicate Inv(s: State) {
    Counted(s) && Ordered(s)
  }

  lemma WorkerKeepsCounted(s: State, s': State, id: Id)
    requires Inv(s) && WorkerStep(s, s', id)
    ensures Counted(s')
  {
    assert Acts(s, id) && ItemFits(s.items[id], id, s.pc, id in s.queue);
    forall x ensures x in s'.acting <==> Acts(s', x) {
      assert x in s.acting <==> Acts(s, x);
    }
  }

  lemma WorkerKeepsOrdered(s: State, s': State, id: Id)
    requires Ordered(s) && WorkerStep(s, s', id)
    ensures Ordered(s')
  {
    assert ItemFits(s.items[id], id, s.pc, id in s.queue);
  }

  lemma RaiseKeepsCounted(s: State, s': State, id: Id)
    requires Counted(s) && s.pc.Idle? && SubmitStep(s, s', id)
    ensures Counted(s')
  {
    assert !Acts(s, id) && id !in s.acting;
    forall x ensures x in s'.acting <==> Acts(s', x) {
      assert x in s.acting <==> Acts(s, x);
    }
  }

  lemma SubmitKeepsCounted(s: State, s': State, id: Id)
    requires Counted(s) && (s.pc.Submitting? ==> s.pc.id !in s.items) && SubmitStep(s, s', id)
    ensures Counted(s')
  {
    if s.pc.Idle? {
      RaiseKeepsCounted(s, s', id);
    } else {
      assert s.pc.Submitting? ==> Acts(s, s.pc.id);
      forall x ensures x in s'.acting <==> Acts(s', x) {
        assert x in s.acting <==> Acts(s, x);
      }
    }
  }

  lemma SubmitKeepsOrdered(s: State, s': State, id: Id)
    requires Ordered(s) && SubmitStep(s, s', id)
    ensures Ordered(s')
  {
    forall x | x in s'.items ensures ItemFits(s'.items[x], x, s'.pc, x in s'.queue) {
      assert x in s.items ==> ItemFits(s.items[x], x, s.pc, x in s.queue);
    }
  }

  lemma SubmittingIsNew(s: State)
    requires Ordered(s)
    ensures s.pc.Submitting? ==> s.pc.id !in s.items
  {
  }

  lemma CancelKeepsCounted(s: State, s': State, id: Id)
    requires Inv(s) && CancelStep(s, s', id)
    ensures Counted(s')
  {
    assert s.pc.CancelDrop? ==> Acts(s, s.pc.id);
    forall x ensures x in s'.acting <==> Acts(s', x) {
      assert x in s.acting <==> Acts(s, x);
      assert x in s.items ==> ItemFits(s.items[x], x, s.pc, x in s.queue);
    }
  }

  lemma CancelKeepsOrdered(s: State, s': State, id: Id)
    requires Ordered(s) && CancelStep(s, s', id)
    ensures Ordered(s')
  {
    forall x | x in s'.items ensures ItemFits(s'.items[x], x, s'.pc, x in s'.queue) {
      assert x in s.items && ItemFits(s.items[x], x, s.pc, x in s.queue);
    }
  }

  lemma DrainKeepsInv(s: State, s': State)
    requires Inv(s) && (DrainStep(s, s') || DestroyStep(s, s'))
    ensures Inv(s')
  {
    if s.queue != [] {
      WithoutHead(s.queue);
    }
    forall x ensures x in s'.acting <==> Acts(s', x) {
      assert x in s.acting <==> Acts(s, x);
    }
    forall x | x in s'.items ensures ItemFits(s'.items[x], x, s'.pc, x in s'.queue) {
      assert x in s.items && ItemFits(s.items[x], x, s.pc, x in s.queue);
    }
  }

  lemma StepKeepsInv(s: State, s': State, id: Id)
    requires Inv(s) && Step(s, s', id)
    ensures Inv(s')
  {
    hide WorkerStep, SubmitStep, CancelStep, DrainStep, DestroyStep, Counted, Ordered;
    if WorkerStep(s, s', id) {
      WorkerKeepsCounted(s, s', id);
      WorkerKeepsOrdered(s, s', id);
    } else if SubmitStep(s, s', id) {
      assert s.pc.Submitting? ==> s.pc.id !in s.items by {
        SubmittingIsNew(s);
      }
      SubmitKeepsCounted(s, s', id);
      SubmitKeepsOrdered(s, s', id);
    } else if CancelStep(s, s', id) {
      CancelKeepsCounted(s, s', id);
      CancelKeepsOrdered(s, s', id);
    } else {
      DrainKeepsInv(s, s');
    }
  }

  lemma {:induction false} RunKeepsInv(run: seq<State>, i: nat)
    requires IsRun(run) && i < |run|
    ensures Inv(run[i])
  {
    if i > 0 {
      RunKeepsInv(run, i - 1);
      assert StepAt(run, i - 1);
      var id :| Step(run[i - 1], run[i], id);
      hide Step, Inv;
      StepKeepsInv(run[i - 1], run[i], id);
    }
  }

  // ---------- What every run keeps ----------

  /** The items somebody will still touch the loop for, counted one by one. */
  lemma InflightIsExact(run: seq<State>, i: nat)
    requires IsRun(run) && i < |run|
    ensures run[i].inflight == |run[i].acting| && forall id :: id in run[i].acting <==> Acts(run[i], id)
  {
    RunKeepsInv(run, i);
  }

  /** Each item is pushed at most once, and drained once at most, into the callback its cancelled flag selects. */
  lemma OneCallbackEach(run: seq<State>, i: nat, id: Id)
    requires IsRun(run) && i < |run| && id in run[i].items
    ensures var it := run[i].items[id];
            && it.pushes <= 1 && Consumed(it) <= it.pushes
            && (it.dones > 0 ==> !it.cancelled && it.task.Finished?)
            && (it.cancels > 0 ==> it.cancelled)
  {
    RunKeepsInv(run, i);
  }

  /** When nobody acts and the queue is empty, every item was drained exactly once. */
  lemma AllDelivered(run: seq<State>, i: nat, id: Id)
    requires IsRun(run) && i < |run| && id in run[i].items
    requires run[i].inflight == 0 && run[i].queue == []
    ensures Consumed(run[i].items[id]) == 1
  {
    RunKeepsInv(run, i);
    assert !Acts(run[i], id);
  }

  /** A step of a worker, or of a cancel that took a task back: it touches the loop. */
  ghost predicate TouchesLoop(s: State, s': State) {
    (exists id :: WorkerStep(s, s', id)) || s.pc.CancelPush? || s.pc.CancelWake? || s.pc.CancelDrop? || s.pc.Submitting?
  }

  /** No submission is begun from here to `j`. */
  ghost predicate NoSubmit(run: seq<State>, i: nat, j: nat)
    requires j < |run|
  {
    forall k: nat :: i <= k <= j ==> !run[k].pc.Submitting?
  }

  /** Once inflight is zero and nothing more is submitted it stays zero, and nobody touches the loop again. */
  lemma {:induction false} QuietAtZero(run: seq<State>, i: nat, j: nat)
    requires IsRun(run) && i <= j < |run| && run[i].inflight == 0 && NoSubmit(run, i, j)
    ensures run[j].inflight == 0
    ensures j + 1 < |run| ==> !TouchesLoop(run[j], run[j + 1])
  {
    if i < j {
      QuietAtZero(run, i, j - 1);
      assert StepAt(run, j - 1);
      var id :| Step(run[j - 1], run[j], id);
      UntouchedKeepsInflight(run[j - 1], run[j], id);
    }
    RunKeepsInv(run, j);
    NobodyActs(run[j]);
    if j + 1 < |run| {
      NobodyTouches(run[j], run[j + 1]);
    }
  }

  lemma NobodyActs(s: State)
    requires Inv(s) && s.inflight == 0
    ensures forall id :: !Acts(s, id)
    ensures !s.pc.CancelPush? && !s.pc.CancelWake? && !s.pc.CancelDrop? && !s.pc.Submitting?
  {
    PcActs(s);
    assert s.acting == {};
    forall id ensures !Acts(s, id) {
      assert id in s.acting <==> Acts(s, id);
    }
  }

  lemma PcActs(s: State)
    ensures s.pc.Submitting? || s.pc.CancelPush? || s.pc.CancelWake? || s.pc.CancelDrop? ==> exists id :: Acts(s, id)
  {
    if s.pc.Submitting? || s.pc.CancelPush? || s.pc.CancelWake? || s.pc.CancelDrop? {
      assert Acts(s, s.pc.id);
    }
  }

  lemma NobodyTouches(s: State, s': State)
    requires Inv(s) && s.inflight == 0
    ensures !TouchesLoop(s, s')
  {
    NobodyActs(s);
    forall id ensures !WorkerStep(s, s', id) {
      assert !Acts(s, id);
    }
  }

  lemma UntouchedKeepsInflight(s: State, s': State, id: Id)
    requires Step(s, s', id)
    requires !TouchesLoop(s, s') && !s'.pc.Submitting?
    ensures s'.inflight == s.inflight
  {
  }

  /** The loop is freed only when nobody will touch it any more. */
  lemma DestroyIsSafe(run: seq<State>, i: nat, j: nat)
    requires IsRun(run) && i <= j < |run| && run[i].pc.Destroyed?
    ensures run[j].pc.Destroyed? && forall id :: !Acts(run[j], id)
  {
    StaysDestroyed(run, i, j);
    RunKeepsInv(run, j);
    NobodyActs(run[j]);
  }

  lemma {:induction false} StaysDestroyed(run: seq<State>, i: nat, j: nat)
    requires IsRun(run) && i <= j < |run| && run[i].pc.Destroyed?
    ensures run[j].pc.Destroyed?
  {
    if i < j {
      StaysDestroyed(run, i, j - 1);
      assert StepAt(run, j - 1);
    }
  }
}
