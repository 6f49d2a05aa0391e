/**
 The shared block behind `Arc` and `ArcWeak`, as a state machine over the atomic
 operations on its two counters. Any number of threads clone, drop and downgrade
 handles and run the compare-exchange loop of `upgrade`, interleaved in any order.

 The value is destroyed exactly once and only after the last strong handle, the block
 is freed exactly once and only after that, nobody touches a freed block, and an
 upgrade succeeds only on an undestroyed value and fails only when no strong handle
 is left.
 */
module Arc {

  type Tid = nat
  type Handle = nat

  datatype Thread =
    | Free
    | Destroying                           // took the strong count to 0, before ~T()
    | DroppingShared                       // before it drops the weak count the strong handles share
    | Freeing                              // took the weak count to 0, before deallocate
    | Upgrading(via: Handle, seen: nat)    // in the loop of upgrade(), holding the loaded count

  /** How far the strong handles' side has come, and which thread carries it on. */
  datatype Stage = Live | Destruction(who: Tid) | LastWeak(who: Tid) | Released

  datatype Block = Present | Deallocation(who: Tid) | Gone

  datatype State = State(
    strong: nat,                  // inner->strong
    weak: nat,                    // inner->weak
    strongs: set<Handle>,         // the Arc objects
    weaks: set<Handle>,           // the ArcWeak objects
    threads: map<Tid, Thread>,
    destroyed: nat,               // how often ~T() ran
    freed: nat,                   // how often deallocate ran
    stage: Stage,                 // history of the two, read by no step
    block: Block)

  function ThreadOf(s: State, t: Tid): Thread {
    if t in s.threads then s.threads[t] else Free
  }

  // ---------- Steps ----------

  ghost predicate CloneStep(s: State, s': State, h: Handle, n: Handle) {
    && h in s.strongs && n !in s.strongs
    && s' == s.(strong := s.strong + 1, strongs := s.strongs + {n})
  }

  ghost predicate DowngradeStep(s: State, s': State, h: Handle, n: Handle) {
    && h in s.strongs && n !in s.weaks
    && s' == s.(weak := s.weak + 1, weaks := s.weaks + {n})
  }

  ghost predicate CloneWeakStep(s: State, s': State, h: Handle, n: Handle) {
    && h in s.weaks && n !in s.weaks
    && s' == s.(weak := s.weak + 1, weaks := s.weaks + {n})
  }

  /** The fetch_sub of arc_dec_strong. */
  ghost predicate DropStep(s: State, s': State, t: Tid, h: Handle) {
    && ThreadOf(s, t).Free? && h in s.strongs && s.strong > 0
    && var last := s.strong == 1;
    s' == s.(strong := s.strong - 1, strongs := s.strongs - {h},
             threads := s.threads[t := if last then Destroying else Free],
             stage := if last then Destruction(t) else s.stage)
  }

  ghost predicate DestroyStep(s: State, s': State, t: Tid) {
    && ThreadOf(s, t).Destroying?
    && s' == s.(destroyed := s.destroyed + 1, threads := s.threads[t := DroppingShared], stage := LastWeak(t))
  }

  /** The fetch_sub of arc_dec_weak_and_maybe_dealloc. */
  function WeakDropped(s: State, t: Tid): State
    requires s.weak > 0
  {
    var last := s.weak == 1;
    s.(weak := s.weak - 1, threads := s.threads[t := if last then Freeing else Free],
       block := if last then Deallocation(t) else s.block)
  }

  ghost predicate DropSharedStep(s: State, s': State, t: Tid) {
    && ThreadOf(s, t).DroppingShared? && s.weak > 0
    && s' == WeakDropped(s, t).(stage := Released)
  }

  /** A handle is not destroyed while an upgrade runs on it. */
  ghost predicate InUse(s: State, h: Handle) {
    exists u :: u in s.threads && s.threads[u].Upgrading? && s.threads[u].via == h
  }

  ghost predicate DropWeakStep(s: State, s': State, t: Tid, h: Handle) {
    && ThreadOf(s, t).Free? && h in s.weaks && !InUse(s, h) && s.weak > 0
    && s' == WeakDropped(s, t).(weaks := s.weaks - {h})
  }

  ghost predicate FreeStep(s: State, s': State, t: Tid) {
    && ThreadOf(s, t).Freeing?
    && s' == s.(freed := s.freed + 1, threads := s.threads[t := Free], block := Gone)
  }

  /** The load before the loop of upgrade(). */
  ghost predicate LoadStep(s: State, s': State, t: Tid, h: Handle) {
    && ThreadOf(s, t).Free? && h in s.weaks
    && s' == s.(threads := s.threads[t := Upgrading(h, s.strong)])
  }

  ghost predicate UpgradeFails(s: State, s': State, t: Tid) {
    && ThreadOf(s, t).Upgrading? && ThreadOf(s, t).seen == 0
    && s' == s.(threads := s.threads[t := Free])
  }

  /** The exchange succeeds and makes the new strong handle `n`. */
  ghost predicate UpgradeSucceeds(s: State, s': State, t: Tid, n: Handle) {
    && ThreadOf(s, t).Upgrading? && ThreadOf(s, t).seen != 0 && ThreadOf(s, t).seen == s.strong && n !in s.strongs
    && s' == s.(strong := s.strong + 1, strongs := s.strongs + {n}, threads := s.threads[t := Free])
  }

  /** The exchange fails, be it spuriously, and loads the count again. */
  ghost predicate RetryStep(s: State, s': State, t: Tid) {
    && ThreadOf(s, t).Upgrading? && ThreadOf(s, t).seen != 0
    && s' == s.(threads := s.threads[t := Upgrading(ThreadOf(s, t).via, s.strong)])
  }

  ghost predicate HandleStep(s: State, s': State, t: Tid, h: Handle, n: Handle) {
    || CloneStep(s, s', h, n) || DowngradeStep(s, s', h, n) || CloneWeakStep(s, s', h, n)
    || DropStep(s, s', t, h) || DropWeakStep(s, s', t, h)
  }

  ghost predicate ReclaimStep(s: State, s': State, t: Tid) {
    DestroyStep(s, s', t) || DropSharedStep(s, s', t) || FreeStep(s, s', t)
  }

  ghost predicate UpgradeStep(s: State, s': State, t: Tid, h: Handle, n: Handle) {
    LoadStep(s, s', t, h) || UpgradeFails(s, s', t) || UpgradeSucceeds(s, s', t, n) || RetryStep(s, s', t)
  }

  ghost predicate Next(s: State, s': State, t: Tid, h: Handle, n: Handle) {
    HandleStep(s, s', t, h, n) || ReclaimStep(s, s', t) || UpgradeStep(s, s', t, h, n)
  }

  ghost predicate Steps(s: State, s': State) {
    exists t, h, n :: Next(s, s', t, h, n)
  }

  // ---------- Runs ----------

  /** `Arc::make`: one strong handle, and the weak count the strong handles share. */
  ghost predicate Init(s: State) {
    |s.strongs| == 1 && s == State(1, 1, s.strongs, {}, map[], 0, 0, Live, Present)
  }

  ghost predicate StepAt(run: seq<State>, i: nat)
    requires i + 1 < |run|
  {
    Steps(run[i], run[i + 1])
  }

  ghost predicate IsRun(run: seq<State>) {
    && |run| > 0
    && Init(run[0])
    && forall i: nat :: i + 1 < |run| ==> StepAt(run, i)
  }

  // ---------- The invariant ----------

  /** The counters are the numbers of handles; the strong ones together count as one weak until released. */
  ghost predicate Counted(s: State) {
    && s.strong == |s.strongs|
    && s.weak == |s.weaks| + (if s.stage.Released? then 0 else 1)
    && (s.stage.Live? <==> s.strongs != {})
    && (s.block.Present? <==> s.weak > 0)
    && s.destroyed == (if s.stage.Live? || s.stage.Destruction? then 0 else 1)
    && s.freed == (if s.block.Gone? then 1 else 0)
  }

  ghost predicate ThreadFits(s: State, t: Tid) {
    && (ThreadOf(s, t).Destroying? <==> s.stage == Destruction(t))
    && (ThreadOf(s, t).DroppingShared? <==> s.stage == LastWeak(t))
    && (ThreadOf(s, t).Freeing? <==> s.block == Deallocation(t))
    && (ThreadOf(s, t).Upgrading? ==> ThreadOf(s, t).via in s.weaks && (ThreadOf(s, t).seen == 0 ==> s.strongs == {}))
  }

  ghost predicate Inv(s: State) {
    Counted(s) && forall t :: ThreadFits(s, t)
  }

  lemma CloneKeepsInv(s: State, s': State, h: Handle, n: Handle)
    requires Inv(s)
    requires CloneStep(s, s', h, n) || DowngradeStep(s, s', h, n) || CloneWeakStep(s, s', h, n)
    ensures Inv(s')
  {
    forall u ensures ThreadFits(s', u) {
      assert ThreadFits(s, u);
    }
  }

  lemma DropKeepsInv(s: State, s': State, t: Tid, h: Handle)
    requires Inv(s) && DropStep(s, s', t, h)
    ensures Inv(s')
  {
    if s.strong == 1 {
      Singleton(s.strongs, h);
    } else {
      assert |s'.strongs| == |s.strongs| - 1 > 0;
    }
    forall u ensures ThreadFits(s', u) {
      assert ThreadFits(s, u) && ThreadFits(s, t);
    }
  }

  lemma DropWeakKeepsInv(s: State, s': State, t: Tid, h: Handle)
    requires Inv(s) && DropWeakStep(s, s', t, h)
    ensures Inv(s')
  {
    assert |s'.weaks| == |s.weaks| - 1;
    forall u ensures ThreadFits(s', u) {
      assert ThreadFits(s, u) && ThreadFits(s, t);
    }
  }

  lemma HandleStepKeepsInv(s: State, s': State, t: Tid, h: Handle, n: Handle)
    requires Inv(s) && HandleStep(s, s', t, h, n)
    ensures Inv(s')
  {
    hide CloneStep, DowngradeStep, CloneWeakStep, DropStep, DropWeakStep, Inv;
    if DropStep(s, s', t, h) {
      DropKeepsInv(s, s', t, h);
    } else if DropWeakStep(s, s', t, h) {
      DropWeakKeepsInv(s, s', t, h);
    } else {
      CloneKeepsInv(s, s', h, n);
    }
  }

  lemma Singleton(x: set<Handle>, h: Handle)
    requires |x| == 1 && h in x
    ensures x == {h}
  {
    assert |x - {h}| == 0;
  }

  lemma ReclaimStepKeepsInv(s: State, s': State, t: Tid)
    requires Inv(s) && ReclaimStep(s, s', t)
    ensures Inv(s')
  {
    assert ThreadFits(s, t);
    forall u ensures ThreadFits(s', u) {
      assert ThreadFits(s, u);
    }
  }

  lemma UpgradeStepKeepsInv(s: State, s': State, t: Tid, h: Handle, n: Handle)
    requires Inv(s) && UpgradeStep(s, s', t, h, n)
    ensures Inv(s')
  {
    assert ThreadFits(s, t);
    forall u ensures ThreadFits(s', u) {
      assert ThreadFits(s, u);
    }
  }

  lemma {:induction false} RunKeepsInv(run: seq<State>, i: nat)
    requires IsRun(run) && i < |run|
    ensures Inv(run[i])
  {
    if i > 0 {
      RunKeepsInv(run, i - 1);
      assert StepAt(run, i - 1);
      var t, h, n :| Next(run[i - 1], run[i], t, h, n);
      if HandleStep(run[i - 1], run[i], t, h, n) {
        HandleStepKeepsInv(run[i - 1], run[i], t, h, n);
      } else if ReclaimStep(run[i - 1], run[i], t) {
        ReclaimStepKeepsInv(run[i - 1], run[i], t);
      } else {
        UpgradeStepKeepsInv(run[i - 1], run[i], t, h, n);
      }
    }
  }

  // ---------- What every run keeps ----------

  /** As long as there is a strong handle its value is neither destroyed nor being destroyed. */
  lemma ValueOutlivesHandles(run: seq<State>, i: nat, t: Tid)
    requires IsRun(run) && i < |run|
    ensures run[i].destroyed <= 1 && run[i].freed <= run[i].destroyed
    ensures run[i].strongs != {} ==> run[i].destroyed == 0 && !ThreadOf(run[i], t).Destroying?
    ensures run[i].strongs + run[i].weaks != {} ==> run[i].freed == 0 && !ThreadOf(run[i], t).Freeing?
  {
    RunKeepsInv(run, i);
    assert ThreadFits(run[i], t);
  }

  /** With every handle gone and every call finished, both happened exactly once. */
  lemma NothingLeaks(run: seq<State>, i: nat)
    requires IsRun(run) && i < |run|
    requires run[i].strongs == {} == run[i].weaks && forall t :: ThreadOf(run[i], t).Free?
    ensures run[i].destroyed == 1 == run[i].freed
  {
    RunKeepsInv(run, i);
    var s := run[i];
    forall t ensures s.stage != Destruction(t) && s.stage != LastWeak(t) && s.block != Deallocation(t) {
      assert ThreadFits(s, t);
    }
  }

  /** Every step is taken on a block that is there, and that nobody else is about to free. */
  lemma NoUseAfterFree(run: seq<State>, i: nat, t: Tid, h: Handle, n: Handle, u: Tid)
    requires IsRun(run) && i + 1 < |run| && Next(run[i], run[i + 1], t, h, n)
    ensures run[i].freed == 0
    ensures u != t ==> !ThreadOf(run[i], u).Freeing?
  {
    RunKeepsInv(run, i);
    assert ThreadFits(run[i], t) && ThreadFits(run[i], u);
  }

  /** An upgrade that returns a handle made it while the value was alive. */
  lemma UpgradeSeesLiveValue(run: seq<State>, i: nat, t: Tid, n: Handle, u: Tid)
    requires IsRun(run) && i + 1 < |run| && UpgradeSucceeds(run[i], run[i + 1], t, n)
    ensures run[i + 1].destroyed == 0 && n in run[i + 1].strongs && !ThreadOf(run[i + 1], u).Destroying?
  {
    ValueOutlivesHandles(run, i + 1, u);
  }

  /** An upgrade returns nothing only when no strong handle is left. */
  lemma UpgradeFailsOnlyWhenExpired(run: seq<State>, i: nat, t: Tid)
    requires IsRun(run) && i + 1 < |run| && UpgradeFails(run[i], run[i + 1], t)
    ensures run[i].strongs == {}
  {
    RunKeepsInv(run, i);
    assert ThreadFits(run[i], t);
  }

  /** No strong handle ever comes back once the last one is gone. */
  lemma {:induction false} ExpiredForGood(run: seq<State>, i: nat, j: nat)
    requires IsRun(run) && i <= j < |run| && run[i].strongs == {}
    ensures run[j].strongs == {}
  {
    if i < j {
      ExpiredForGood(run, i, j - 1);
      RunKeepsInv(run, j - 1);
      assert StepAt(run, j - 1);
      var t, h, n :| Next(run[j - 1], run[j], t, h, n);
      StaysExpired(run[j - 1], run[j], t, h, n);
    }
  }

  lemma StaysExpired(s: State, s': State, t: Tid, h: Handle, n: Handle)
    requires s.strong == |s.strongs| && s.strongs == {} && Next(s, s', t, h, n)
    ensures s'.strongs == {}
  {
  }
}
