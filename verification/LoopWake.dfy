/**
 Posting to the event loop and putting it to sleep, as a state machine over atomic
 steps: any number of threads push to the done queue, post bare wakes and stop the
 loop, while the loop thread goes through `xEventLoopRun` iteration by iteration.
 Wakes are coalesced through `wake_pending`, and the queue is drained in batches.

 A loop that sleeps on a non-empty queue with no wake on its way has stalled. In
 X_RUN_ONCE it never does. X_RUN_DEFAULT ignores `can_sleep`, so there it depends on
 the backlog: `StallNeedsBacklog` gives the exact number of queued items.
 */
module LoopWake {
  import opened Common

  datatype Mode = Default | Once | NoWait

  const INT_MAX: int := 0x7fff_ffff

  /** Where the loop thread stands; `left` is what remains of the current batch of loop_run_done. */
  datatype Pc =
    | Outside                                // not inside xEventLoopRun
    | Test(alive: bool)                      // before `while (alive && !loop->stopped)`
    | Decide                                 // before reading can_sleep
    | First(left: nat, canSleep: bool)       // loop_run_done before the poll
    | Timeout(canSleep: bool)                // before loop_next_timeout
    | Polling(timeout: int)                  // inside epoll_wait
    | Drain                                  // wake fd reported, before reading it
    | Clear                                  // before clearing wake_pending
    | InPoll(left: nat)                      // loop_run_done of the wake branch
    | Dispatch                               // callbacks of the reported events
    | Second(left: nat)                      // loop_run_done after the poll
    | Timers                                 // timers and sweep, before the next loop_alive

  type Tid = nat

  /** A thread outside the loop: at rest, before its exchange of wake_pending, or before its write to the wake fd. */
  datatype Phase = Free | Announcing | Writing

  datatype State = State(
    batch: nat,                  // EVENT_DONE_BATCH_MAX
    mode: Mode,
    pc: Pc,
    queued: nat,                 // length of the done queue
    stale: nat,                  // how many of them were already there at the last clear of wake_pending
    pending: bool,
    token: bool,                 // the wake fd has been written and not yet read
    stopped: bool,
    threads: map<Tid, Phase>)

  function ThreadOf(s: State, t: Tid): Phase {
    if t in s.threads then s.threads[t] else Free
  }

  // ---------- Steps of the other threads, and of callbacks that post ----------

  ghost predicate PushStep(s: State, s': State, t: Tid) {
    && ThreadOf(s, t).Free?
    && s' == s.(queued := s.queued + 1, threads := s.threads[t := Announcing])
  }

  /** xEventLoopWake without a push. */
  ghost predicate WakeStep(s: State, s': State, t: Tid) {
    ThreadOf(s, t).Free? && s' == s.(threads := s.threads[t := Announcing])
  }

  /** The exchange of loop_coalesced_wake: only whoever found the flag clear goes on to write. */
  ghost predicate ExchangeStep(s: State, s': State, t: Tid) {
    && ThreadOf(s, t).Announcing?
    && s' == s.(pending := true, threads := s.threads[t := if s.pending then Free else Writing])
  }

  ghost predicate WriteStep(s: State, s': State, t: Tid) {
    ThreadOf(s, t).Writing? && s' == s.(token := true, threads := s.threads[t := Free])
  }

  /** xEventLoopStop sets `stopped` and then writes, past the coalescing flag. */
  ghost predicate StopStep(s: State, s': State, t: Tid) {
    ThreadOf(s, t).Free? && s' == s.(stopped := true, threads := s.threads[t := Writing])
  }

  ghost predicate ThreadStep(s: State, s': State, t: Tid) {
    PushStep(s, s', t) || WakeStep(s, s', t) || ExchangeStep(s, s', t) || WriteStep(s, s', t) || StopStep(s, s', t)
  }

  // ---------- Steps of the loop thread ----------

  /** loop_next_timeout; `wait` is the time to the first deadline, if there is a timer. */
  function NextTimeout(mode: Mode, canSleep: bool, wait: Option<int>): int {
    if mode.NoWait? then 0
    else if mode.Once? && !canSleep then 0
    else if wait.None? then (if mode.Once? then 0 else -1)
    else if wait.value < 0 then 0
    else if wait.value > INT_MAX then INT_MAX
    else wait.value
  }

  /** One item of loop_run_done. */
  function Popped(s: State, pc: Pc): State
    requires s.queued > 0
  {
    s.(queued := s.queued - 1, stale := if s.stale > 0 then s.stale - 1 else 0, pc := pc)
  }

  /**
   loop_run_done takes an item, or returns with its batch used up or the queue empty;
   `again` is where it then stands and `after` what follows it.
   */
  ghost predicate RunDoneStep(s: State, s': State, left: nat, again: Pc, after: Pc) {
    if left > 0 && s.queued > 0 then s' == Popped(s, again) else s' == s.(pc := after)
  }

  /** loop_alive: handles, timers or work in flight may keep the loop alive; queued items always do. */
  ghost predicate AliveStep(s: State, s': State, mode: Mode) {
    s' == s.(mode := mode, pc := Test(true)) || (s.queued == 0 && s' == s.(mode := mode, pc := Test(false)))
  }

  function Leave(s: State): State {
    s.(pc := Outside, stopped := false)
  }

  ghost predicate LoopStep(s: State, s': State) {
    match s.pc
    case Outside => AliveStep(s, s', s'.mode)
    case Test(alive) => s' == if alive && !s.stopped then s.(pc := Decide) else Leave(s)
    case Decide => s' == s.(pc := First(s.batch, s.queued == 0))
    case First(left, canSleep) => RunDoneStep(s, s', left, First(Pred(left), canSleep), Timeout(canSleep))
    case Timeout(canSleep) => exists wait :: s' == s.(pc := Polling(NextTimeout(s.mode, canSleep, wait)))
    // epoll_wait reports the wake fd, or comes back without it: other events, the timeout, an interruption
    case Polling(_) => (s.token && s' == s.(pc := Drain)) || s' == s.(pc := Dispatch)
    case Drain => s' == s.(token := false, pc := Clear)
    case Clear => s' == s.(pending := false, stale := s.queued, pc := InPoll(s.batch))
    case InPoll(left) => RunDoneStep(s, s', left, InPoll(Pred(left)), Dispatch)
    case Dispatch => s' == s.(pc := Second(s.batch))
    case Second(left) => RunDoneStep(s, s', left, Second(Pred(left)), Timers)
    case Timers => if s.mode.Default? then AliveStep(s, s', s.mode) else s' == Leave(s)
  }

  function Pred(n: nat): nat {
    if n > 0 then n - 1 else 0
  }

  // ---------- Runs ----------

  ghost predicate Init(s: State) {
    && s.batch > 0 && s.pc.Outside? && s.queued == 0 == s.stale
    && !s.pending && !s.token && !s.stopped && s.threads == map[]
  }

  ghost predicate Next(s: State, s': State) {
    LoopStep(s, s') || exists t :: ThreadStep(s, s', t)
  }

  ghost predicate StepAt(run: seq<State>, i: nat)
    requires i + 1 < |run|
  {
    Next(run[i], run[i + 1])
  }

  ghost predicate IsRun(run: seq<State>) {
    && |run| > 0
    && Init(run[0])
    && forall i: nat :: i + 1 < |run| ==> StepAt(run, i)
  }

  // ---------- The invariant ----------

  ghost predicate SomeWriting(s: State) {
    exists t :: t in s.threads && s.threads[t].Writing?
  }

  ghost predicate SomeAnnouncing(s: State) {
    exists t :: t in s.threads && s.threads[t].Announcing?
  }

  /** The wake fd is written, or a thread is bound to write it. */
  ghost predicate WakeAssured(s: State) {
    s.token || SomeWriting(s) || (SomeAnnouncing(s) && !s.pending)
  }

  /** A poll that may sleep although items are queued, with no wake on its way. */
  ghost predicate Stalled(s: State) {
    s.pc.Polling? && s.pc.timeout != 0 && s.queued > 0 && !WakeAssured(s)
  }

  /** Every item pushed since the last clear is announced, and an announcement reaches the wake fd. */
  ghost predicate Announced(s: State) {
    && s.stale <= s.queued
    && (s.queued > s.stale ==> s.pending || SomeAnnouncing(s))
    && (s.pending ==> s.token || SomeWriting(s) || s.pc.Drain? || s.pc.Clear?)
  }

  /** X_RUN_ONCE sleeps only after it has seen the queue empty. */
  ghost predicate SleepsSafely(s: State) {
    && ((s.pc.First? || s.pc.Timeout?) && s.pc.canSleep ==> s.stale == 0)
    && (s.pc.Polling? && s.pc.timeout != 0 && s.mode.Once? ==> s.stale == 0)
    && (s.pc.Polling? && s.mode.NoWait? ==> s.pc.timeout == 0)
  }

  /** A stop that came after the loop looked at `stopped` will end the poll. */
  ghost predicate StopSeen(s: State) {
    s.stopped && (s.pc.Decide? || s.pc.First? || s.pc.Timeout? || s.pc.Polling?) ==> s.token || SomeWriting(s)
  }

  ghost predicate Inv(s: State) {
    Announced(s) && SleepsSafely(s) && StopSeen(s)
  }

  lemma ThreadStepKeepsInv(s: State, s': State, t: Tid)
    requires Inv(s) && ThreadStep(s, s', t)
    ensures Inv(s')
  {
    assert t in s'.threads;
    if SomeWriting(s) {
      var u :| u in s.threads && s.threads[u].Writing?;
      assert u in s'.threads && (u != t ==> s'.threads[u].Writing?);
    }
    if SomeAnnouncing(s) {
      var u :| u in s.threads && s.threads[u].Announcing?;
      assert u in s'.threads && (u != t ==> s'.threads[u].Announcing?);
    }
  }

  lemma LoopKeepsThreads(s: State, s': State)
    requires LoopStep(s, s')
    ensures s'.threads == s.threads && s'.batch == s.batch
    ensures SomeWriting(s') == SomeWriting(s) && SomeAnnouncing(s') == SomeAnnouncing(s)
    ensures s'.queued <= s.queued
    ensures !s.pc.Clear? ==> s'.pending == s.pending
    ensures !s.pc.Drain? ==> s'.token == s.token
  {
    assert s'.threads == s.threads;
  }

  lemma LoopKeepsAnnounced(s: State, s': State)
    requires Announced(s) && LoopStep(s, s')
    ensures Announced(s')
  {
    LoopKeepsThreads(s, s');
    hide SomeWriting, SomeAnnouncing;
  }

  lemma LoopKeepsSleepsSafely(s: State, s': State)
    requires SleepsSafely(s) && s.stale <= s.queued && LoopStep(s, s')
    ensures SleepsSafely(s')
  {
    if s.pc.Timeout? {
      assert s'.mode == s.mode && s'.stale == s.stale;
    }
  }

  lemma LoopKeepsStopSeen(s: State, s': State)
    requires StopSeen(s) && LoopStep(s, s')
    ensures StopSeen(s')
  {
    LoopKeepsThreads(s, s');
    hide SomeWriting, SomeAnnouncing;
  }

  lemma LoopStepKeepsInv(s: State, s': State)
    requires Inv(s) && LoopStep(s, s')
    ensures Inv(s')
  {
    LoopKeepsAnnounced(s, s');
    LoopKeepsSleepsSafely(s, s');
    LoopKeepsStopSeen(s, s');
    hide *;
  }

  lemma {:induction false} RunKeepsInv(run: seq<State>, i: nat)
    requires IsRun(run) && i < |run|
    ensures Inv(run[i])
  {
    if i > 0 {
      RunKeepsInv(run, i - 1);
      assert StepAt(run, i - 1);
      if LoopStep(run[i - 1], run[i]) {
        LoopStepKeepsInv(run[i - 1], run[i]);
      } else {
        var t :| ThreadStep(run[i - 1], run[i], t);
        ThreadStepKeepsInv(run[i - 1], run[i], t);
      }
    }
  }

  // ---------- X_RUN_ONCE, and stopping ----------

  lemma FreshQueueCannotStall(s: State)
    requires Inv(s) && s.stale == 0
    ensures !Stalled(s)
  {
  }

  /** Whatever is posted, an X_RUN_ONCE or X_RUN_NOWAIT poll never stalls. */
  lemma OnceNeverStalls(run: seq<State>, i: nat)
    requires IsRun(run) && i < |run| && !run[i].mode.Default?
    ensures !Stalled(run[i])
  {
    RunKeepsInv(run, i);
  }

  /** No mode sleeps through a stop. */
  lemma StopEndsThePoll(run: seq<State>, i: nat)
    requires IsRun(run) && i < |run| && run[i].pc.Polling? && run[i].stopped
    ensures run[i].token || SomeWriting(run[i])
  {
    RunKeepsInv(run, i);
  }

  // ---------- X_RUN_DEFAULT ----------

  /** After a clear the loop drains three batches before it can sleep again. */
  predicate StaleFits(s: State) {
    match s.pc
    case InPoll(left) => s.stale <= 2 * s.batch + left
    case Dispatch => s.stale <= 2 * s.batch
    case Second(left) => s.stale <= s.batch + left
    case Timers => s.stale <= s.batch
    case Outside => s.stale <= s.batch
    case Test(_) => s.stale <= s.batch
    case Decide => s.stale <= s.batch
    case First(left, _) => s.stale <= left
    case _ => s.stale == 0
  }

  /** The step from `i` clears wake_pending. */
  ghost predicate ClearsAt(run: seq<State>, i: nat)
    requires i + 1 < |run|
  {
    run[i].pc.Clear? && LoopStep(run[i], run[i + 1])
  }

  lemma StepKeepsStaleFits(s: State, s': State)
    requires Next(s, s') && s.stale <= s.queued && StaleFits(s)
    requires s.pc.Clear? && LoopStep(s, s') ==> s.queued <= 3 * s.batch
    ensures StaleFits(s')
  {
    if LoopStep(s, s') {
      LoopKeepsStaleFits(s, s');
    } else {
      hide LoopStep;
      assert s'.pc == s.pc && s'.stale == s.stale && s'.batch == s.batch;
    }
  }

  predicate InRunDone(pc: Pc) {
    pc.First? || pc.InPoll? || pc.Second?
  }

  lemma RunDoneKeepsStaleFits(s: State, s': State)
    requires LoopStep(s, s') && s.stale <= s.queued && StaleFits(s) && InRunDone(s.pc)
    ensures StaleFits(s')
  {
  }

  lemma LoopKeepsStaleFits(s: State, s': State)
    requires LoopStep(s, s') && s.stale <= s.queued && StaleFits(s) && (s.pc.Clear? ==> s.queued <= 3 * s.batch)
    ensures StaleFits(s')
  {
    if InRunDone(s.pc) {
      RunDoneKeepsStaleFits(s, s');
    } else {
      hide RunDoneStep;
    }
  }

  lemma {:induction false} StaleStaysFitting(run: seq<State>, i: nat)
    requires IsRun(run) && i < |run|
    requires forall j: nat :: j + 1 < |run| && ClearsAt(run, j) ==> run[j].queued <= 3 * run[j].batch
    ensures StaleFits(run[i])
  {
    if i > 0 {
      StaleStaysFitting(run, i - 1);
      RunKeepsInv(run, i - 1);
      assert StepAt(run, i - 1);
      assert ClearsAt(run, i - 1) ==> run[i - 1].queued <= 3 * run[i - 1].batch;
      StepKeepsStaleFits(run[i - 1], run[i]);
    }
  }

  /** No mode stalls in a run whose backlog is at most three batches at each clear. */
  lemma SmallBacklogNeverStalls(run: seq<State>, i: nat)
    requires IsRun(run) && i < |run|
    requires forall j: nat :: j + 1 < |run| && ClearsAt(run, j) ==> run[j].queued <= 3 * run[j].batch
    ensures !Stalled(run[i])
  {
    RunKeepsInv(run, i);
    StaleStaysFitting(run, i);
  }

  // ---------- The bound is exact ----------

  ghost predicate LoopStepAt(run: seq<State>, i: nat)
    requires i + 1 < |run|
  {
    LoopStep(run[i], run[i + 1])
  }

  /** From state `i` on nobody but the loop thread moves. */
  ghost predicate LoopAlone(run: seq<State>, i: nat) {
    forall j: nat :: i <= j && j + 1 < |run| ==> LoopStepAt(run, j)
  }

  /** The run clears wake_pending with `k` items queued; then the loop alone goes on and stalls. */
  ghost predicate StallsAlone(run: seq<State>, i: nat, batch: nat, k: nat) {
    && IsRun(run) && i + 1 < |run| && ClearsAt(run, i)
    && run[i].batch == batch && run[i].queued == k
    && LoopAlone(run, i)
    && Stalled(run[|run| - 1])
  }

  lemma ClearResult(s: State, s': State)
    requires s.pc.Clear? && LoopStep(s, s')
    ensures s'.queued == s.queued && s'.batch == s.batch
    ensures s.queued <= 3 * s.batch ==> StaleFits(s')
  {
  }

  lemma {:induction false} AloneFits(run: seq<State>, i: nat, j: nat)
    requires IsRun(run) && i < j < |run| && ClearsAt(run, i) && LoopAlone(run, i)
    requires run[i].queued <= 3 * run[i].batch
    ensures StaleFits(run[j]) && run[j].queued <= run[i].queued && run[j].batch == run[i].batch
  {
    hide LoopStep, StaleFits, IsRun;
    if j > i + 1 {
      AloneFits(run, i, j - 1);
      RunKeepsInv(run, j - 1);
      assert LoopStepAt(run, j - 1);
      LoopKeepsStaleFits(run[j - 1], run[j]);
      LoopKeepsThreads(run[j - 1], run[j]);
    } else {
      ClearResult(run[i], run[i + 1]);
    }
  }

  function Last(run: seq<State>): State
    requires |run| > 0
  {
    run[|run| - 1]
  }

  lemma Extend(run: seq<State>, s: State) returns (more: seq<State>)
    requires IsRun(run) && Next(Last(run), s)
    ensures more == run + [s] && IsRun(more)
  {
    more := run + [s];
    forall i: nat | i + 1 < |more| ensures StepAt(more, i) {
      if i + 1 < |run| {
        assert StepAt(run, i);
      }
    }
  }

  /** A loop step after the clear at `i`. */
  lemma Go(run: seq<State>, i: nat, s: State) returns (more: seq<State>)
    requires IsRun(run) && i < |run| && LoopAlone(run, i) && LoopStep(Last(run), s)
    ensures more == run + [s] && IsRun(more) && LoopAlone(more, i) && Last(more) == s
  {
    more := Extend(run, s);
    forall j: nat | i <= j && j + 1 < |more| ensures LoopStepAt(more, j) {
      if j + 1 < |run| {
        assert LoopStepAt(run, j);
      }
    }
  }

  /** The loop asleep in X_RUN_DEFAULT with `n` items posted to it, all by one thread. */
  function Asleep(batch: nat, n: nat): State {
    State(batch, Default, Polling(-1), n, 0, n > 0, n > 0, false, if n == 0 then map[] else map[0 := Free])
  }

  lemma FallAsleep(batch: nat) returns (run: seq<State>)
    requires batch > 0
    ensures IsRun(run) && Last(run) == Asleep(batch, 0)
  {
    var s := State(batch, Default, Outside, 0, 0, false, false, false, map[]);
    run := [s];
    run := Extend(run, s.(pc := Test(true)));
    run := Extend(run, s.(pc := Decide));
    run := Extend(run, s.(pc := First(batch, true)));
    run := Extend(run, s.(pc := Timeout(true)));
    assert NextTimeout(Default, true, None) == -1;
    run := Extend(run, s.(pc := Polling(-1)));
  }

  lemma {:induction false} PostTo(batch: nat, n: nat) returns (run: seq<State>)
    requires batch > 0
    ensures IsRun(run) && Last(run) == Asleep(batch, n)
  {
    if n == 0 {
      run := FallAsleep(batch);
    } else {
      run := PostTo(batch, n - 1);
      var s := Asleep(batch, n - 1);
      var pushed := s.(queued := n, threads := map[0 := Announcing]);
      assert ThreadStep(s, pushed, 0);
      run := Extend(run, pushed);
      var announced := pushed.(pending := true, threads := map[0 := if n > 1 then Free else Writing]);
      assert ThreadStep(pushed, announced, 0);
      run := Extend(run, announced);
      if n == 1 {
        assert ThreadStep(announced, Asleep(batch, 1), 0);
        run := Extend(run, Asleep(batch, 1));
      }
    }
  }

  /** `pc` inside loop_run_done with `left` items to go. */
  predicate InBatch(pc: Pc, left: nat) {
    pc == InPoll(left) || pc == Second(left) || pc == First(left, false)
  }

  function WithLeft(pc: Pc, left: nat): Pc {
    match pc
    case InPoll(_) => InPoll(left)
    case Second(_) => Second(left)
    case _ => First(left, false)
  }

  /** A whole batch of pops. */
  lemma {:induction false} PopBatch(run: seq<State>, i: nat, left: nat) returns (more: seq<State>)
    requires IsRun(run) && i < |run| && LoopAlone(run, i)
    requires InBatch(Last(run).pc, left) && Last(run).queued == Last(run).stale >= left
    ensures run <= more && IsRun(more) && LoopAlone(more, i)
    ensures var rest := Last(run).queued - left;
            Last(more) == Last(run).(queued := rest, stale := rest, pc := WithLeft(Last(run).pc, 0))
    decreases left
  {
    more := run;
    if left > 0 {
      var s := Last(run);
      more := Go(run, i, Popped(s, WithLeft(s.pc, left - 1)));
      more := PopBatch(more, i, left - 1);
    }
  }

  /** From the clear: a batch in the poll, one after it, one in the next iteration, and back to sleep. */
  lemma DrainThrice(run: seq<State>, i: nat) returns (more: seq<State>)
    requires IsRun(run) && i < |run| && LoopAlone(run, i)
    requires var s := Last(run); s.pc == InPoll(s.batch) && s.mode.Default? && !s.stopped && s.queued == s.stale
    requires Last(run).queued > 3 * Last(run).batch
    ensures run <= more && IsRun(more) && LoopAlone(more, i)
    ensures var rest := Last(run).queued - 3 * Last(run).batch;
            Last(more) == Last(run).(pc := Polling(-1), queued := rest, stale := rest)
  {
    hide IsRun, LoopAlone;
    var b := Last(run).batch;
    more := PopBatch(run, i, b);
    more := Go(more, i, Last(more).(pc := Dispatch));
    more := Go(more, i, Last(more).(pc := Second(b)));
    more := PopBatch(more, i, b);
    more := Go(more, i, Last(more).(pc := Timers));
    more := Go(more, i, Last(more).(pc := Test(true)));
    more := Go(more, i, Last(more).(pc := Decide));
    more := Go(more, i, Last(more).(pc := First(b, false)));
    more := PopBatch(more, i, b);
    more := Go(more, i, Last(more).(pc := Timeout(false)));
    assert NextTimeout(Default, false, None) == -1;
    more := Go(more, i, Last(more).(pc := Polling(-1)));
  }

  lemma BacklogStalls(batch: nat, k: nat) returns (run: seq<State>, i: nat)
    requires batch > 0 && k > 3 * batch
    ensures StallsAlone(run, i, batch, k)
  {
    run := PostTo(batch, k);
    var s := Last(run);
    run := Extend(run, s.(pc := Drain));
    run := Extend(run, s.(pc := Clear, token := false));
    i := |run| - 1;
    run := Go(run, i, s.(pc := InPoll(batch), token := false, pending := false, stale := k));
    assert ClearsAt(run, i);
    ghost var before := run;
    run := DrainThrice(run, i);
    assert run[i] == before[i] && run[i + 1] == before[i + 1];
  }

  /**
   Left alone after a clear with `k` items queued, the loop can go to sleep on some of
   them if and only if there are more than three batches of them.
   */
  lemma StallNeedsBacklog(batch: nat, k: nat)
    requires batch > 0
    ensures (exists run, i: nat :: StallsAlone(run, i, batch, k)) <==> k > 3 * batch
  {
    if k > 3 * batch {
      var run, i := BacklogStalls(batch, k);
      assert StallsAlone(run, i, batch, k);
    }
    forall run, i: nat | StallsAlone(run, i, batch, k) ensures k > 3 * batch {
      if k <= 3 * batch {
        AloneFits(run, i, |run| - 1);
        RunKeepsInv(run, |run| - 1);
        FreshQueueCannotStall(Last(run));
      }
    }
  }
}
